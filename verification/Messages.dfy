/** The ACK payload (`protocol/messages.py`), printed and read back concretely. The other
    control payloads stay inside `Library`. */
module Messages {
  import opened Bytes
  import opened Protocol

  /** b'{"ack_seq":' */
  function AckHead(): (s: bytes)
    ensures |s| == 11
  {
    [0x7B, 0x22, 0x61, 0x63, 0x6B, 0x5F, 0x73, 0x65, 0x71, 0x22, 0x3A]
  }

  /** b'}' */
  function AckTail(): (s: bytes)
    ensures |s| == 1
  {
    [0x7D]
  }

  function Decimal(n: nat): (s: bytes)
    ensures |s| >= 1
  {
    if n < 10 then [0x30 + n] else Decimal(n / 10) + [0x30 + n % 10]
  }

  predicate IsDecimal(s: bytes)
  {
    && |s| >= 1
    && (|s| > 1 ==> s[0] != 0x30)
    && forall i | 0 <= i < |s| :: 0x30 <= s[i] <= 0x39
  }

  function DecimalValue(s: bytes): nat
    requires forall i | 0 <= i < |s| :: 0x30 <= s[i] <= 0x39
  {
    if s == [] then 0 else DecimalValue(s[..|s| - 1]) * 10 + (s[|s| - 1] - 0x30)
  }

  function Pow10(k: nat): nat
  {
    if k == 0 then 1 else 10 * Pow10(k - 1)
  }

  lemma {:induction false} DecimalRoundTrip(n: nat)
    ensures IsDecimal(Decimal(n)) && DecimalValue(Decimal(n)) == n
    ensures n > 0 ==> Decimal(n)[0] != 0x30
  {
    var s := Decimal(n);
    if n < 10 {
      assert s[..0] == [];
    } else {
      DecimalRoundTrip(n / 10);
      assert s[..|s| - 1] == Decimal(n / 10);
    }
  }

  lemma {:induction false} DecimalSize(n: nat, k: nat)
    requires k >= 1 && n < Pow10(k)
    ensures |Decimal(n)| <= k
  {
    if n >= 10 {
      DecimalSize(n / 10, k - 1);
    }
  }

  function AckText(ackSeq: nat): bytes
  {
    AckHead() + Decimal(ackSeq) + AckTail()
  }

  function EncodeAck(ackSeq: uint32): (p: Payload)
  {
    DecimalSize(ackSeq, 10);
    AckText(ackSeq)
  }

  /** The digits between the fixed head and tail, when the payload has that form. */
  function AckDigits(p: bytes): Option<bytes>
  {
    if |p| > 12 && p[..11] == AckHead() && p[|p| - 1..] == AckTail() && IsDecimal(p[11..|p| - 1])
    then Some(p[11..|p| - 1])
    else None
  }

  /** A JSON reader that is only pinned down on the texts `EncodeAck` prints. */
  function DecodeAck(lib: Library, p: bytes): Result<int>
  {
    var digits := AckDigits(p);
    if digits.Some? then Ok(DecimalValue(digits.value)) else lib.decodeAckJson(p)
  }

  /** The sequence number in an ACK survives the trip, so distinct numbers print differently. */
  lemma AckRoundTrip(lib: Library, ackSeq: uint32)
    ensures DecodeAck(lib, EncodeAck(ackSeq)) == Ok(ackSeq)
  {
    var p := EncodeAck(ackSeq);
    DecimalRoundTrip(ackSeq);
    assert p[..11] == AckHead();
    assert p[|p| - 1..] == AckTail();
    assert p[11..|p| - 1] == Decimal(ackSeq);
  }

  /** The ACK payload is the JSON object with the one member "ack_seq", without spaces. */
  lemma AckIsJson(ackSeq: uint32)
    ensures EncodeAck(ackSeq) == Ascii("{\"ack_seq\":") + Decimal(ackSeq) + Ascii("}")
  {
    assert AckHead() == Ascii("{\"ack_seq\":");
    assert AckTail() == Ascii("}");
  }
}
