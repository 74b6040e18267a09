/** The one's-complement checksum of RFC 1071, section 1, as the fixture builder computes it
    (`tools/make_pcap_fixture.py`). */
module Checksums {
  import opened Bytes

  /** The sum of the big-endian 16-bit words. */
  function WordSum(data: bytes): nat
    requires |data| % 2 == 0
  {
    if data == [] then 0 else data[0] as int * 0x100 + data[1] + WordSum(data[2..])
  }

  function Padded(data: bytes): (p: bytes)
    ensures |p| % 2 == 0
  {
    if |data| % 2 == 1 then data + [0] else data
  }

  /** Carries added back in until 16 bits are left. */
  function Fold(total: nat): uint16
    decreases total
  {
    if total < 0x1_0000 then total else Fold(total % 0x1_0000 + total / 0x1_0000)
  }

  function ChecksumOf(data: bytes): uint16
  {
    0xFFFF - Fold(WordSum(Padded(data)))
  }

  lemma {:induction false} WordSumConcat(a: bytes, b: bytes)
    requires |a| % 2 == 0 && |b| % 2 == 0
    ensures WordSum(a + b) == WordSum(a) + WordSum(b)
  {
    if a == [] {
      assert a + b == b;
    } else {
      assert (a + b)[2..] == a[2..] + b;
      WordSumConcat(a[2..], b);
    }
  }

  lemma WordSumOne(hi: byte, lo: byte)
    ensures WordSum([hi, lo]) == hi as int * 0x100 + lo
  {
    assert [hi, lo][2..] == [];
  }

  lemma WordSumStep(data: bytes, i: nat)
    requires |data| % 2 == 0 && i % 2 == 0 && i < |data|
    ensures i + 2 <= |data|
    ensures WordSum(data[i..]) == data[i] as int * 0x100 + data[i + 1] + WordSum(data[i + 2..])
  {
    assert data[i..][2..] == data[i + 2..];
  }

  method Checksum(data: bytes) returns (c: uint16)
    ensures c == ChecksumOf(data)
  {
    var padded := data;
    if |padded| % 2 != 0 {
      padded := padded + [0];
    }
    var total: nat := 0;
    var i := 0;
    while i < |padded|
      invariant 0 <= i <= |padded| && i % 2 == 0
      invariant total + WordSum(padded[i..]) == WordSum(padded)
    {
      WordSumStep(padded, i);
      total := total + padded[i] as int * 0x100 + padded[i + 1];
      i := i + 2;
    }
    while total >= 0x1_0000
      invariant Fold(total) == Fold(WordSum(padded))
      decreases total
    {
      total := total % 0x1_0000 + total / 0x1_0000;
    }
    c := 0xFFFF - total;
  }

  /** Folding reduces modulo 65535, and only zero folds to zero. */
  lemma {:induction false} FoldMeaning(total: nat)
    ensures Fold(total) == if total == 0 then 0 else if total % 0xFFFF == 0 then 0xFFFF else total % 0xFFFF
    decreases total
  {
    if total >= 0x1_0000 {
      var q, r := total / 0x1_0000, total % 0x1_0000;
      FoldMeaning(r + q);
      assert total == (r + q) + 0xFFFF * q;
      ModPlusMultiple(r + q, q);
    }
  }

  lemma {:induction false} ModPlusMultiple(x: nat, q: nat)
    ensures (x + 0xFFFF * q) % 0xFFFF == x % 0xFFFF
  {
    if q > 0 {
      ModPlusMultiple(x, q - 1);
      assert x + 0xFFFF * q == (x + 0xFFFF * (q - 1)) + 0xFFFF;
    }
  }

  /** What a receiver's check accepts: exactly the data whose words sum to a nonzero multiple
      of 65535. */
  lemma ChecksumAccepts(data: bytes)
    ensures ChecksumOf(data) == 0 <==> WordSum(Padded(data)) > 0 && WordSum(Padded(data)) % 0xFFFF == 0
  {
    FoldMeaning(WordSum(Padded(data)));
  }

  /** The checksum written into its zeroed field makes the whole check out, for any data with
      the field at an even offset. */
  lemma InsertedChecksumVerifies(data: bytes, at: nat)
    requires |data| % 2 == 0 && at % 2 == 0 && at + 2 <= |data|
    requires data[at] == 0 && data[at + 1] == 0
    ensures ChecksumOf(data[..at] + Big16(ChecksumOf(data)) + data[at + 2..]) == 0
  {
    var c, t := ChecksumOf(data), WordSum(data);
    var a, b := data[..at], data[at + 2..];
    var sealed := a + Big16(c) + b;
    assert data == a + [0, 0] + b;
    WordSumConcat(a + [0, 0], b);
    WordSumConcat(a, [0, 0]);
    WordSumOne(0, 0);
    WordSumConcat(a + Big16(c), b);
    WordSumConcat(a, Big16(c));
    WordSumOne(c / 0x100, c % 0x100);
    assert WordSum(sealed) == t + c;
    FoldMeaning(t);
    SumWithComplement(t);
    ChecksumAccepts(sealed);
  }

  lemma SumWithComplement(t: nat)
    ensures var folded := if t == 0 then 0 else if t % 0xFFFF == 0 then 0xFFFF else t % 0xFFFF;
            t + (0xFFFF - folded) > 0 && (t + (0xFFFF - folded)) % 0xFFFF == 0
  {
    var q, r := t / 0xFFFF, t % 0xFFFF;
    assert t == 0xFFFF * q + r;
    ModPlusMultiple(0, q);
    ModPlusMultiple(0, q + 1);
  }

  /** Data of odd length is summed as if a zero byte followed it: its last byte is the high half
      of the last word. */
  lemma OddLength(data: bytes)
    requires |data| % 2 == 1
    ensures ChecksumOf(data) == ChecksumOf(data + [0])
    ensures WordSum(Padded(data)) == WordSum(data[..|data| - 1]) + data[|data| - 1] as int * 0x100
  {
    var last := data[|data| - 1];
    WordSumConcat(data[..|data| - 1], [last, 0]);
    WordSumOne(last, 0);
    assert data + [0] == data[..|data| - 1] + [last, 0];
  }
}
