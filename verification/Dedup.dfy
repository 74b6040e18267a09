/** The deduplication window of `transport/udp.py`: an ordered dictionary cut to a size. */
module Dedup {
  import opened Bytes

  datatype Entry = Entry(seqNo: int, reply: bytes)

  // ---- the ordered dictionary, oldest entry first ----

  function Keys(entries: seq<Entry>): set<int>
  {
    if entries == [] then {} else {entries[0].seqNo} + Keys(entries[1..])
  }

  predicate Distinct(entries: seq<Entry>)
  {
    entries == [] || (entries[0].seqNo !in Keys(entries[1..]) && Distinct(entries[1..]))
  }

  function Lookup(entries: seq<Entry>, k: int): Option<bytes>
  {
    if entries == [] then None
    else if entries[0].seqNo == k then Some(entries[0].reply)
    else Lookup(entries[1..], k)
  }

  function Without(entries: seq<Entry>, k: int): seq<Entry>
  {
    if entries == [] then []
    else if entries[0].seqNo == k then entries[1..]
    else [entries[0]] + Without(entries[1..], k)
  }

  /** `entries[k] = reply`: a key that is already there keeps its position. */
  function Assign(entries: seq<Entry>, k: int, reply: bytes): seq<Entry>
  {
    if entries == [] then [Entry(k, reply)]
    else if entries[0].seqNo == k then [Entry(k, reply)] + entries[1..]
    else [entries[0]] + Assign(entries[1..], k, reply)
  }

  function MoveToEnd(entries: seq<Entry>, k: int): seq<Entry>
    requires Lookup(entries, k).Some?
  {
    Without(entries, k) + [Entry(k, Lookup(entries, k).value)]
  }

  function LastN<T>(s: seq<T>, n: nat): (r: seq<T>)
    ensures |r| == if |s| <= n then |s| else n
  {
    if |s| <= n then s else s[|s| - n..]
  }

  /** One `put`: the key goes to the end with its new reply, and the oldest keys leave. */
  function PutOf(entries: seq<Entry>, k: int, reply: bytes, size: nat): seq<Entry>
  {
    LastN(Without(entries, k) + [Entry(k, reply)], size)
  }

  lemma {:induction false} AssignThenMove(entries: seq<Entry>, k: int, reply: bytes)
    ensures Lookup(Assign(entries, k, reply), k) == Some(reply)
    ensures Without(Assign(entries, k, reply), k) == Without(entries, k)
  {
    if entries != [] {
      AssignThenMove(entries[1..], k, reply);
      var after := Assign(entries, k, reply);
      assert after[1..] == if entries[0].seqNo == k then entries[1..] else Assign(entries[1..], k, reply);
    }
  }

  lemma LastNDropFirst<T>(s: seq<T>, n: nat)
    requires |s| > n
    ensures LastN(s[1..], n) == LastN(s, n)
  {
  }

  class DedupWindow {
    const size: nat
    var entries: seq<Entry>

    constructor (size: nat)
      ensures this.size == size && entries == []
    {
      this.size := size;
      entries := [];
    }

    method Get(seqNo: int) returns (reply: Option<bytes>)
      ensures reply == Lookup(entries, seqNo)
    {
      reply := Lookup(entries, seqNo);
    }

    method Put(seqNo: int, reply: bytes)
      modifies this
      ensures entries == PutOf(old(entries), seqNo, reply, size)
    {
      AssignThenMove(entries, seqNo, reply);
      entries := Assign(entries, seqNo, reply);
      entries := MoveToEnd(entries, seqNo);
      ghost var all := entries;
      while |entries| > size
        invariant LastN(entries, size) == LastN(all, size)
      {
        LastNDropFirst(entries, size);
        entries := entries[1..];
      }
    }
  }

  // ---- keys of a list ----

  lemma {:induction false} KeysConcat(a: seq<Entry>, b: seq<Entry>)
    ensures Keys(a + b) == Keys(a) + Keys(b)
  {
    if a == [] {
      assert a + b == b;
    } else {
      assert (a + b)[1..] == a[1..] + b;
      KeysConcat(a[1..], b);
    }
  }

  lemma {:induction false} KeyAt(entries: seq<Entry>, i: nat)
    requires i < |entries|
    ensures entries[i].seqNo in Keys(entries)
  {
    if i > 0 {
      KeyAt(entries[1..], i - 1);
    }
  }

  lemma {:induction false} KeyPosition(entries: seq<Entry>, k: int) returns (i: nat)
    requires k in Keys(entries)
    ensures i < |entries| && entries[i].seqNo == k && k !in Keys(entries[..i])
  {
    if entries[0].seqNo == k {
      i := 0;
    } else {
      i := KeyPosition(entries[1..], k);
      assert entries[..i + 1][1..] == entries[1..][..i];
      i := i + 1;
    }
  }

  lemma {:induction false} SplitAtKey(a: seq<Entry>, e: Entry, b: seq<Entry>)
    requires e.seqNo !in Keys(a)
    ensures Without(a + [e] + b, e.seqNo) == a + b
    ensures Lookup(a + [e] + b, e.seqNo) == Some(e.reply)
  {
    if a == [] {
      assert a + [e] + b == [e] + b;
    } else {
      assert (a + [e] + b)[1..] == a[1..] + [e] + b;
      SplitAtKey(a[1..], e, b);
      assert [a[0]] + (a[1..] + b) == a + b;
    }
  }

  lemma {:induction false} AbsentKey(entries: seq<Entry>, k: int)
    requires k !in Keys(entries)
    ensures Without(entries, k) == entries && Lookup(entries, k) == None
  {
    if entries != [] {
      AbsentKey(entries[1..], k);
    }
  }

  lemma {:induction false} DistinctConcat(a: seq<Entry>, b: seq<Entry>)
    ensures Distinct(a + b) <==> Distinct(a) && Distinct(b) && Keys(a) !! Keys(b)
  {
    if a == [] {
      assert a + b == b;
    } else {
      assert (a + b)[1..] == a[1..] + b;
      DistinctConcat(a[1..], b);
      KeysConcat(a[1..], b);
    }
  }

  /** A list of distinct keys, cut at one of them. */
  lemma CutAtKey(entries: seq<Entry>, k: int) returns (a: seq<Entry>, e: Entry, b: seq<Entry>)
    requires Distinct(entries) && k in Keys(entries)
    ensures entries == a + [e] + b && e.seqNo == k && k !in Keys(a) && k !in Keys(b)
    ensures Distinct(a) && Distinct(b) && Keys(a) !! Keys(b)
    ensures Keys(entries) == Keys(a) + {k} + Keys(b)
    ensures Without(entries, k) == a + b && Lookup(entries, k) == Some(e.reply)
  {
    var i := KeyPosition(entries, k);
    a, e, b := entries[..i], entries[i], entries[i + 1..];
    assert entries == a + ([e] + b) == a + [e] + b;
    DistinctConcat(a, [e] + b);
    KeysConcat(a, [e] + b);
    assert ([e] + b)[1..] == b;
    SplitAtKey(a, e, b);
  }

  lemma {:induction false} DistinctSize(entries: seq<Entry>)
    requires Distinct(entries)
    ensures |Keys(entries)| == |entries|
  {
    if entries != [] {
      DistinctSize(entries[1..]);
    }
  }

  lemma KeysOne(e: Entry)
    ensures Keys([e]) == {e.seqNo} && Distinct([e])
  {
    assert [e][1..] == [];
  }

  lemma PutKeepsDistinct(entries: seq<Entry>, p: Entry)
    requires Distinct(entries)
    ensures Distinct(Without(entries, p.seqNo) + [p])
    ensures Keys(Without(entries, p.seqNo) + [p]) == Keys(entries) + {p.seqNo}
  {
    KeysOne(p);
    if p.seqNo in Keys(entries) {
      var a, e, b := CutAtKey(entries, p.seqNo);
      DistinctConcat(a, b);
      KeysConcat(a, b);
    } else {
      AbsentKey(entries, p.seqNo);
    }
    DistinctConcat(Without(entries, p.seqNo), [p]);
    KeysConcat(Without(entries, p.seqNo), [p]);
  }

  // ---- what a window holds, said from the history of puts alone ----

  function WindowAfter(puts: seq<Entry>, size: nat): seq<Entry>
  {
    if puts == [] then []
    else
      var p := puts[|puts| - 1];
      PutOf(WindowAfter(puts[..|puts| - 1], size), p.seqNo, p.reply, size)
  }

  /** The index of the latest put of a key, -1 when there is none. */
  function LatestPut(puts: seq<Entry>, k: int): (i: int)
    ensures -1 <= i < |puts|
    ensures i >= 0 ==> puts[i].seqNo == k
    ensures forall j | i < j < |puts| :: puts[j].seqNo != k
  {
    if puts == [] then -1
    else if puts[|puts| - 1].seqNo == k then |puts| - 1
    else LatestPut(puts[..|puts| - 1], k)
  }

  /** Every key ever put, by its latest put: a window that never evicts. */
  function Recency(puts: seq<Entry>): seq<Entry>
  {
    if puts == [] then []
    else
      var p := puts[|puts| - 1];
      Without(Recency(puts[..|puts| - 1]), p.seqNo) + [p]
  }

  lemma {:induction false} RecencyDistinct(puts: seq<Entry>)
    ensures Distinct(Recency(puts)) && Keys(Recency(puts)) == Keys(puts)
  {
    if puts != [] {
      var before, p := puts[..|puts| - 1], puts[|puts| - 1];
      RecencyDistinct(before);
      PutKeepsDistinct(Recency(before), p);
      KeysConcat(before, [p]);
      KeysOne(p);
      assert before + [p] == puts;
    }
  }

  lemma LastNCuts<T>(s: seq<T>, n: nat) returns (gone: seq<T>)
    ensures s == gone + LastN(s, n)
    ensures gone == [] || |LastN(s, n)| == n
  {
    gone := s[..|s| - |LastN(s, n)|];
  }

  lemma Assoc<T>(a: seq<T>, b: seq<T>, c: seq<T>)
    ensures (a + b) + c == a + (b + c)
  {
  }

  lemma WithoutInTail(gone: seq<Entry>, a: seq<Entry>, e: Entry, b: seq<Entry>)
    requires e.seqNo !in Keys(gone) && e.seqNo !in Keys(a)
    ensures Without(gone + (a + [e] + b), e.seqNo) == gone + (a + b)
  {
    KeysConcat(gone, a);
    SplitAtKey(gone + a, e, b);
    assert gone + (a + [e] + b) == (gone + a) + [e] + b;
    Assoc(gone, a, b);
  }

  lemma WithoutInFront(a: seq<Entry>, e: Entry, b: seq<Entry>, w: seq<Entry>)
    requires e.seqNo !in Keys(a)
    ensures Without(a + [e] + b + w, e.seqNo) == a + b + w
  {
    SplitAtKey(a, e, b + w);
    Assoc(a + [e], b, w);
    Assoc(a, b, w);
  }

  /** Removing a key from a list removes it from the front part or from the tail. */
  lemma WithoutTail(gone: seq<Entry>, w: seq<Entry>, k: int) returns (gone': seq<Entry>)
    requires Distinct(gone + w)
    ensures Without(gone + w, k) == gone' + Without(w, k)
    ensures gone == [] ==> gone' == []
    ensures |Without(w, k)| == if k in Keys(w) then |w| - 1 else |w|
  {
    DistinctConcat(gone, w);
    gone' := gone;
    if k in Keys(w) {
      var a, e, b := CutAtKey(w, k);
      WithoutInTail(gone, a, e, b);
    } else {
      AbsentKey(w, k);
      if k in Keys(gone) {
        var a, e, b := CutAtKey(gone, k);
        gone' := a + b;
        WithoutInFront(a, e, b, w);
      } else {
        KeysConcat(gone, w);
        AbsentKey(gone + w, k);
      }
    }
  }

  /** Eviction never interferes with a later put: a put on a tail of a list leaves a tail of
      the put on the list. */
  lemma PutOnTail(gone: seq<Entry>, w: seq<Entry>, p: Entry, size: nat) returns (gone': seq<Entry>)
    requires Distinct(gone + w)
    requires |w| <= size && (gone == [] || |w| == size)
    ensures Without(gone + w, p.seqNo) + [p] == gone' + PutOf(w, p.seqNo, p.reply, size)
    ensures gone' == [] || |PutOf(w, p.seqNo, p.reply, size)| == size
  {
    var rest := Without(w, p.seqNo) + [p];
    var kept := WithoutTail(gone, w, p.seqNo);
    var evicted := LastNCuts(rest, size);
    gone' := kept + evicted;
    Assoc(kept, Without(w, p.seqNo), [p]);
    Assoc(kept, evicted, LastN(rest, size));
  }

  /** The window is a tail of `Recency`, and a full one unless nothing was evicted. */
  lemma {:induction false} WindowIsTail(puts: seq<Entry>, size: nat) returns (gone: seq<Entry>)
    ensures Recency(puts) == gone + WindowAfter(puts, size)
    ensures |WindowAfter(puts, size)| <= size
    ensures gone == [] || |WindowAfter(puts, size)| == size
  {
    gone := [];
    if puts != [] {
      var before := puts[..|puts| - 1];
      var gone0 := WindowIsTail(before, size);
      RecencyDistinct(before);
      gone := PutOnTail(gone0, WindowAfter(before, size), puts[|puts| - 1], size);
    }
  }

  lemma KeysAround(c: seq<Entry>, e: Entry, b: seq<Entry>)
    ensures Keys(c + [e] + b) == Keys(c + b) + {e.seqNo}
  {
    KeysConcat(c + [e], b);
    KeysConcat(c, [e]);
    KeysConcat(c, b);
    KeysOne(e);
  }

  lemma InFrontOfCut(a: seq<Entry>, e: Entry, b: seq<Entry>, i: nat)
    requires i < |a|
    ensures (a + b)[i] == (a + [e] + b)[i] == a[i]
    ensures Keys((a + [e] + b)[i + 1..]) == Keys((a + b)[i + 1..]) + {e.seqNo}
  {
    assert (a + b)[i + 1..] == a[i + 1..] + b;
    assert (a + [e] + b)[i + 1..] == a[i + 1..] + [e] + b;
    KeysAround(a[i + 1..], e, b);
  }

  lemma BehindCut(a: seq<Entry>, e: Entry, b: seq<Entry>, i: nat)
    requires |a| <= i < |a| + |b|
    ensures (a + b)[i] == (a + [e] + b)[i + 1] == b[i - |a|]
    ensures (a + [e] + b)[i + 2..] == (a + b)[i + 1..]
  {
  }

  lemma BeforeCut(a: seq<Entry>, e: Entry, b: seq<Entry>, i: nat) returns (j: nat)
    requires e.seqNo !in Keys(a) && e.seqNo !in Keys(b) && i < |a + b|
    ensures j < |a + [e] + b| && (a + [e] + b)[j] == (a + b)[i] && (a + b)[i].seqNo != e.seqNo
    ensures Keys((a + b)[i + 1..]) + {e.seqNo} == Keys((a + [e] + b)[j + 1..]) + {e.seqNo}
  {
    if i < |a| {
      KeyAt(a, i);
      InFrontOfCut(a, e, b, i);
      j := i;
    } else {
      KeyAt(b, i - |a|);
      BehindCut(a, e, b, i);
      j := i + 1;
    }
  }

  /** Where an entry of the recency list came from in the list before the last put. */
  lemma BeforeLastPut(r: seq<Entry>, k: int, i: nat) returns (j: nat)
    requires Distinct(r) && i < |Without(r, k)|
    ensures j < |r| && r[j] == Without(r, k)[i] && r[j].seqNo != k
    ensures Keys(Without(r, k)[i + 1..]) + {k} == Keys(r[j + 1..]) + {k}
  {
    if k in Keys(r) {
      var a, e, b := CutAtKey(r, k);
      j := BeforeCut(a, e, b, i);
    } else {
      j := i;
      AbsentKey(r, k);
      KeyAt(r, i);
    }
  }

  lemma KeysOfAppended(s: seq<Entry>, p: Entry, n: nat)
    requires n <= |s|
    ensures Keys((s + [p])[n..]) == Keys(s[n..]) + {p.seqNo}
  {
    assert (s + [p])[n..] == s[n..] + [p];
    KeysConcat(s[n..], [p]);
    KeysOne(p);
  }

  /** Entry i is its key's latest put, and the keys behind it are exactly the keys put since. */
  ghost predicate InOrder(puts: seq<Entry>, r: seq<Entry>, i: nat)
    requires i < |r|
  {
    var at := LatestPut(puts, r[i].seqNo);
    at >= 0 && puts[at] == r[i] && Keys(r[i + 1..]) == Keys(puts[at + 1..])
  }

  lemma OrderStep(before: seq<Entry>, p: Entry, r: seq<Entry>, j: nat, w: seq<Entry>, i: nat)
    requires j < |r| && i < |w| && r[j] == w[i] && r[j].seqNo != p.seqNo
    requires Keys(w[i + 1..]) + {p.seqNo} == Keys(r[j + 1..]) + {p.seqNo}
    requires InOrder(before, r, j)
    ensures InOrder(before + [p], w + [p], i)
  {
    var at := LatestPut(before, r[j].seqNo);
    KeysOfAppended(w, p, i + 1);
    KeysOfAppended(before, p, at + 1);
    assert (before + [p])[..|before|] == before;
  }

  lemma OrderLast(before: seq<Entry>, p: Entry, w: seq<Entry>)
    ensures InOrder(before + [p], w + [p], |w|)
  {
    assert (w + [p])[|w| + 1..] == [] && (before + [p])[|before| + 1..] == [];
  }

  lemma {:induction false} RecencyOrder(puts: seq<Entry>, i: nat)
    requires i < |Recency(puts)|
    ensures InOrder(puts, Recency(puts), i)
  {
    var before, p := puts[..|puts| - 1], puts[|puts| - 1];
    var r := Recency(before);
    var w := Without(r, p.seqNo);
    assert puts == before + [p];
    if i == |w| {
      OrderLast(before, p, w);
    } else {
      RecencyDistinct(before);
      var j := BeforeLastPut(r, p.seqNo, i);
      RecencyOrder(before, j);
      OrderStep(before, p, r, j, w, i);
    }
  }

  lemma LookupAt(r: seq<Entry>, i: nat)
    requires Distinct(r) && i < |r|
    ensures Lookup(r, r[i].seqNo) == Some(r[i].reply)
    ensures r[i].seqNo !in Keys(r[i + 1..])
  {
    var a, e, b := r[..i], r[i], r[i + 1..];
    assert r == a + ([e] + b) == a + [e] + b;
    DistinctConcat(a, [e] + b);
    assert ([e] + b)[1..] == b;
    SplitAtKey(a, e, b);
  }

  lemma LookupInTail(gone: seq<Entry>, w: seq<Entry>, i: nat)
    requires Distinct(gone + w) && i < |gone + w|
    ensures var e := (gone + w)[i];
            Lookup(w, e.seqNo) == if i >= |gone| then Some(e.reply) else None
  {
    DistinctConcat(gone, w);
    if i >= |gone| {
      LookupAt(w, i - |gone|);
    } else {
      KeyAt(gone, i);
      AbsentKey(w, gone[i].seqNo);
    }
  }

  lemma KeysBehind(r: seq<Entry>, i: nat)
    requires Distinct(r) && i < |r|
    ensures |Keys(r[i + 1..])| == |r| - 1 - i
  {
    assert r == r[..i + 1] + r[i + 1..];
    DistinctConcat(r[..i + 1], r[i + 1..]);
    DistinctSize(r[i + 1..]);
  }

  /** After any puts, with any repeated keys, a key is found exactly when fewer than `size`
      other keys were put since its latest put, and with the reply of that put. */
  lemma WindowMeaning(puts: seq<Entry>, size: nat, k: int)
    ensures var at := LatestPut(puts, k);
            Lookup(WindowAfter(puts, size), k) ==
              if at >= 0 && |Keys(puts[at + 1..])| < size then Some(puts[at].reply) else None
  {
    var r, w := Recency(puts), WindowAfter(puts, size);
    RecencyDistinct(puts);
    var gone := WindowIsTail(puts, size);
    if k in Keys(r) {
      var i := KeyPosition(r, k);
      LookupInTail(gone, w, i);
      RecencyOrder(puts, i);
      KeysBehind(r, i);
    } else {
      if LatestPut(puts, k) >= 0 {
        KeyAt(puts, LatestPut(puts, k));
      }
      KeysConcat(gone, w);
      AbsentKey(w, k);
    }
  }

  lemma LaterInRecency(puts: seq<Entry>, i: nat, j: nat)
    requires i < j < |Recency(puts)|
    ensures LatestPut(puts, Recency(puts)[i].seqNo) < LatestPut(puts, Recency(puts)[j].seqNo)
  {
    var r := Recency(puts);
    RecencyOrder(puts, i);
    var at := LatestPut(puts, r[i].seqNo);
    assert r[i + 1..][j - i - 1] == r[j];
    KeyAt(r[i + 1..], j - i - 1);
    var m := KeyPosition(puts[at + 1..], r[j].seqNo);
    assert puts[at + 1 + m].seqNo == r[j].seqNo;
  }

  /** The window is full unless it holds every key. */
  lemma WindowSize(puts: seq<Entry>, size: nat)
    ensures |WindowAfter(puts, size)| == if |Keys(puts)| < size then |Keys(puts)| else size
  {
    RecencyDistinct(puts);
    var gone := WindowIsTail(puts, size);
    DistinctSize(Recency(puts));
  }

  /** And it holds its keys in the order of their latest puts. */
  lemma WindowOrder(puts: seq<Entry>, size: nat, i: nat, j: nat)
    requires i < j < |WindowAfter(puts, size)|
    ensures LatestPut(puts, WindowAfter(puts, size)[i].seqNo) < LatestPut(puts, WindowAfter(puts, size)[j].seqNo)
  {
    var gone := WindowIsTail(puts, size);
    LaterInRecency(puts, |gone| + i, |gone| + j);
  }
}
