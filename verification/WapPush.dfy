/**
 The notification transport: the WSP push frame of internal/wappush/push.go and
 the concatenated SMS segments of internal/wappush/sms.go.
 */
module WapPush {
  import opened Bytes

  // -------------------------------------------------------------- push frame

  /** A short integer up to 127, otherwise a length byte and big-endian bytes; four at most. */
  function WspInteger(v: nat): bytes {
    if v <= 127 then [v + 0x80]
    else if v <= 0xFF then [1] + FixedBE(v, 1)
    else if v <= 0xFFFF then [2] + FixedBE(v, 2)
    else if v <= 0xFFFFFF then [3] + FixedBE(v, 3)
    else [4] + FixedBE(v, 4)
  }

  /** Content type, push flag, application ID and content length. */
  function PushHeaders(length: nat): bytes {
    [0xBE, 0xB4, 0x82, 0xAF, 0x84, 0x8D] + WspInteger(length)
  }

  function WrapMMSPDU(pdu: bytes): bytes {
    var headers := PushHeaders(|pdu|);
    [0x01, 0x06, |headers| % 256] + headers + pdu
  }

  function UnwrapMMSPDU(push: bytes): Result<bytes> {
    if |push| < 3 then Err(ShortData)
    else if push[1] != 0x06 then Err(WrongPduType)
    else
      var offset := 3 + push[2] as int;
      if |push| < offset then Err(ShortData) else Ok(push[offset..])
  }

  /** Unwrapping gives back any PDU, of any length. */
  lemma UnwrapInvertsWrap(pdu: bytes)
    ensures UnwrapMMSPDU(WrapMMSPDU(pdu)) == Ok(pdu)
    ensures |pdu| + 10 <= |WrapMMSPDU(pdu)| <= |pdu| + 14
  {
    var headers := PushHeaders(|pdu|);
    assert 7 <= |headers| <= 11;
    assert WrapMMSPDU(pdu)[3 + |headers|..] == pdu;
  }

  /** Any push: its headers are skipped, whatever they are; another PDU type or missing bytes are errors. */
  lemma UnwrapMeans(transaction: byte, pduType: byte, n: byte, tail: bytes)
    ensures UnwrapMMSPDU([transaction, pduType, n] + tail) ==
            if pduType != 0x06 then Err(WrongPduType) else if |tail| < n then Err(ShortData) else Ok(tail[n..])
    ensures UnwrapMMSPDU([]) == UnwrapMMSPDU([transaction]) == UnwrapMMSPDU([transaction, pduType]) == Err(ShortData)
  {
    var push := [transaction, pduType, n] + tail;
    if n <= |tail| { assert push[3 + n as int..] == tail[n..]; }
  }

  /** How a receiver reads a WSP integer. */
  function ReadWspInteger(s: bytes): nat
    requires s != [] && (s[0] < 0x80 ==> |s| > s[0])
  {
    if s[0] >= 0x80 then s[0] - 0x80 else FromBE(s[1..s[0] as int + 1])
  }

  /** The frame announces the true length exactly when it fits four bytes. */
  lemma ContentLengthExact(pdu: bytes)
    ensures var field := WrapMMSPDU(pdu)[9..];
            && field != [] && (field[0] < 0x80 ==> |field| > field[0])
            && (ReadWspInteger(field) == |pdu| <==> |pdu| < 0x1_0000_0000)
  {
    var field := WrapMMSPDU(pdu)[9..];
    assert field == WspInteger(|pdu|) + pdu;
    var width := if |pdu| <= 0xFF then 1 else if |pdu| <= 0xFFFF then 2 else if |pdu| <= 0xFFFFFF then 3 else 4;
    if |pdu| > 127 {
      PowersOf256();
      assert field[1..width + 1] == FixedBE(|pdu|, width);
      if |pdu| < 0x1_0000_0000 {
        FixedBERoundTrip(|pdu|, width);
      } else {
        FromBEBound(FixedBE(|pdu|, width));
      }
    }
  }

  /**
   The frame: transaction 1, a push, the length of the headers, the MMS content type, the push flag,
   the MMS application, and the content length in as few bytes as it takes; then the PDU.
   */
  lemma PushWritten(pdu: bytes, a: byte, b: byte, c: byte, d: byte)
    ensures |pdu| <= 127 ==>
              WrapMMSPDU(pdu) == [0x01, 0x06, 7, 0xBE, 0xB4, 0x82, 0xAF, 0x84, 0x8D, 0x80 + |pdu|] + pdu
    ensures |pdu| == d && d > 127 ==>
              WrapMMSPDU(pdu) == [0x01, 0x06, 8, 0xBE, 0xB4, 0x82, 0xAF, 0x84, 0x8D, 1, d] + pdu
    ensures |pdu| == 0x100 * c + d && c > 0 ==>
              WrapMMSPDU(pdu) == [0x01, 0x06, 9, 0xBE, 0xB4, 0x82, 0xAF, 0x84, 0x8D, 2, c, d] + pdu
    ensures |pdu| == 0x1_0000 * b + 0x100 * c + d && b > 0 ==>
              WrapMMSPDU(pdu) == [0x01, 0x06, 10, 0xBE, 0xB4, 0x82, 0xAF, 0x84, 0x8D, 3, b, c, d] + pdu
    ensures |pdu| == 0x100_0000 * a + 0x1_0000 * b + 0x100 * c + d && a > 0 ==>
              WrapMMSPDU(pdu) == [0x01, 0x06, 11, 0xBE, 0xB4, 0x82, 0xAF, 0x84, 0x8D, 4, a, b, c, d] + pdu
  {
    hide WspInteger;
    LengthWritten(|pdu|, a, b, c, d);
  }

  lemma LengthWritten(n: nat, a: byte, b: byte, c: byte, d: byte)
    ensures n <= 127 ==> WspInteger(n) == [0x80 + n]
    ensures n == d && d > 127 ==> WspInteger(n) == [1, d]
    ensures n == 0x100 * c + d && c > 0 ==> WspInteger(n) == [2, c, d]
    ensures n == 0x1_0000 * b + 0x100 * c + d && b > 0 ==> WspInteger(n) == [3, b, c, d]
    ensures n == 0x100_0000 * a + 0x1_0000 * b + 0x100 * c + d && a > 0 ==> WspInteger(n) == [4, a, b, c, d]
  {
    BytesWritten(b, c, d);
    FourDigits(a, b, c, d);
    hide FixedBE, FromBE;
  }

  lemma BytesWritten(b: byte, c: byte, d: byte)
    ensures FixedBE(d, 1) == [d] && FixedBE(0x100 * c + d, 2) == [c, d]
    ensures FixedBE(0x1_0000 * b + 0x100 * c + d, 3) == [b, c, d]
  {
    hide FixedBE;
    assert FixedBE(0, 0) == [];
    FixedStep(0, b, 0);
    FixedStep(b, c, 1);
    FixedStep(0x100 * b + c, d, 2);
    FixedStep(0, c, 0);
    FixedStep(c, d, 1);
    FixedStep(0, d, 0);
  }

  lemma PowersOf256()
    ensures Pow256(1) == 0x100 && Pow256(2) == 0x1_0000 && Pow256(3) == 0x100_0000 && Pow256(4) == 0x1_0000_0000
  {
    assert Pow256(1) == 256 * Pow256(0);
    assert Pow256(2) == 256 * Pow256(1);
    assert Pow256(3) == 256 * Pow256(2);
    assert Pow256(4) == 256 * Pow256(3);
  }

  // ---------------------------------------------------------------- segments

  const MAX_SMS_PAYLOAD: nat := 128
  const UDH_LENGTH: nat := 12
  const WAP_PUSH_PORT := 2948
  const WSP_PORT := 9200

  /** Ports 2948 and 9200, then the concatenation element. */
  function BuildUDH(reference: byte, total: byte, sequence: byte): (udh: bytes)
    ensures |udh| == UDH_LENGTH
  {
    [0x0B, 0x05, 0x04, 0x0B, 0x84, 0x23, 0xF0, 0x00, 0x03, reference, total, sequence]
  }

  function SegmentCount(push: bytes): nat {
    (|push| + MAX_SMS_PAYLOAD - 1) / MAX_SMS_PAYLOAD
  }

  function Min(a: nat, b: nat): nat {
    if a <= b then a else b
  }

  /** Payload bytes of segment `i`. */
  function Slice(push: bytes, i: nat): bytes
    requires i < SegmentCount(push)
  {
    push[i * MAX_SMS_PAYLOAD..Min((i + 1) * MAX_SMS_PAYLOAD, |push|)]
  }

  function Segment(push: bytes, reference: byte, i: nat): bytes
    requires i < SegmentCount(push) <= 255
  {
    BuildUDH(reference, SegmentCount(push), i + 1) + Slice(push, i)
  }

  function Segments(push: bytes, reference: byte): (s: seq<bytes>)
    requires SegmentCount(push) <= 255
    ensures |s| == SegmentCount(push)
  {
    seq(SegmentCount(push), i requires 0 <= i < SegmentCount(push) => Segment(push, reference, i))
  }

  method SegmentBinarySMS(push: bytes, reference: byte) returns (r: Result<seq<bytes>>)
    ensures r.Ok? <==> 1 <= |push| <= 255 * MAX_SMS_PAYLOAD
    ensures r.Ok? ==> SegmentCount(push) <= 255 && r.value == Segments(push, reference)
    ensures |push| == 0 ==> r == Err(ShortData)
    ensures |push| > 255 * MAX_SMS_PAYLOAD ==> r == Err(TooManySegments)
  {
    if |push| == 0 {
      return Err(ShortData);
    }
    var total := (|push| + MAX_SMS_PAYLOAD - 1) / MAX_SMS_PAYLOAD;
    if total > 255 {
      return Err(TooManySegments);
    }
    var segments: seq<bytes> := [];
    var i := 0;
    while i < total
      invariant 0 <= i <= total
      invariant segments == Segments(push, reference)[..i]
    {
      var start := i * MAX_SMS_PAYLOAD;
      var end := start + MAX_SMS_PAYLOAD;
      if end > |push| {
        end := |push|;
      }
      var udh := BuildUDH(reference, total, i + 1);
      var segment := udh + push[start..end];
      assert segment == Segment(push, reference, i);
      segments := segments + [segment];
      i := i + 1;
    }
    r := Ok(segments);
  }

  /**
   Every segment fits an SMS, all but the last are full, and the header fields number them.
   The user data header is that of 3GPP TS 23.040: its length, then the port element
   (section 9.2.3.24.4) and the concatenation element (section 9.2.3.24.1).
   */
  lemma SegmentShape(push: bytes, reference: byte, i: nat)
    requires i < SegmentCount(push) <= 255
    ensures var s := Segment(push, reference, i);
            && 13 <= |s| <= 140
            && (i + 1 < SegmentCount(push) ==> |s| == 140)
            && s[0] == UDH_LENGTH - 1
            && s[1] == 0x05 && s[2] == 4 && 256 * s[3] as int + s[4] == WAP_PUSH_PORT
                 && 256 * s[5] as int + s[6] == WSP_PORT
            && s[7] == 0x00 && s[8] == 3
            && s[9] == reference && s[10] == SegmentCount(push) && s[11] == i + 1
            && s[12..] == Slice(push, i)
  {
    var s := Segment(push, reference, i);
    assert s[12..] == Slice(push, i);
  }

  lemma SliceBounds(push: bytes, i: nat)
    ensures i < SegmentCount(push) <==> i * MAX_SMS_PAYLOAD < |push|
  {
  }

  /** The payloads without their headers, one after another. */
  function Stripped(segments: seq<bytes>): bytes {
    if segments == [] then []
    else (if |segments[0]| >= UDH_LENGTH then segments[0][UDH_LENGTH..] else []) + Stripped(segments[1..])
  }

  lemma {:induction false} StrippedFrom(push: bytes, reference: byte, i: nat)
    requires i <= SegmentCount(push) <= 255
    ensures Stripped(Segments(push, reference)[i..]) == push[Min(i * MAX_SMS_PAYLOAD, |push|)..]
    decreases SegmentCount(push) - i
  {
    SliceBounds(push, i);
    var segments := Segments(push, reference);
    if i < SegmentCount(push) {
      SegmentShape(push, reference, i);
      StrippedFrom(push, reference, i + 1);
      assert segments[i..][1..] == segments[i + 1..];
      NextSlice(push, i);
    }
  }

  lemma NextSlice(push: bytes, i: nat)
    requires i < SegmentCount(push)
    ensures Min(i * MAX_SMS_PAYLOAD, |push|) == i * MAX_SMS_PAYLOAD
    ensures push[i * MAX_SMS_PAYLOAD..] == Slice(push, i) + push[Min((i + 1) * MAX_SMS_PAYLOAD, |push|)..]
  {
    SliceBounds(push, i);
  }

  /** The stripped payloads are the push, nothing lost or added. */
  lemma SegmentsConserve(push: bytes, reference: byte)
    requires SegmentCount(push) <= 255
    ensures Stripped(Segments(push, reference)) == push
  {
    StrippedFrom(push, reference, 0);
    assert Segments(push, reference)[0..] == Segments(push, reference);
  }

  // ------------------------------------------------------------- reassembly

  /** The first received segment that carries a given sequence number. */
  function FindNumbered(received: seq<bytes>, number: nat): Option<bytes> {
    if received == [] then None
    else if |received[0]| > 11 && received[0][11] == number then Some(received[0])
    else FindNumbered(received[1..], number)
  }

  /** A receiver: payloads in sequence-number order, from `number` up to `total`. */
  function RejoinFrom(received: seq<bytes>, number: nat, total: nat): Option<bytes>
    decreases total + 1 - number
  {
    if number > total then Some([])
    else match FindNumbered(received, number)
      case None => None
      case Some(segment) =>
        match RejoinFrom(received, number + 1, total)
        case None => None
        case Some(rest) => if |segment| < UDH_LENGTH then None else Some(segment[UDH_LENGTH..] + rest)
  }

  /** The total is taken from the first segment to arrive. */
  function Rejoin(received: seq<bytes>): Option<bytes> {
    if received == [] || |received[0]| < UDH_LENGTH then None
    else RejoinFrom(received, 1, received[0][10])
  }

  /** The same segments, in any order, any of them more than once. */
  ghost predicate SameSegments(received: seq<bytes>, sent: seq<bytes>) {
    forall s :: s in received <==> s in sent
  }

  lemma {:induction false} FindNumberedOf(received: seq<bytes>, push: bytes, reference: byte, i: nat)
    requires i < SegmentCount(push) <= 255
    requires forall s | s in received :: s in Segments(push, reference)
    requires Segment(push, reference, i) in received
    ensures FindNumbered(received, i + 1) == Some(Segment(push, reference, i))
  {
    SegmentShape(push, reference, i);
    var first := received[0];
    assert first in Segments(push, reference);
    var j :| 0 <= j < SegmentCount(push) && Segments(push, reference)[j] == first;
    SegmentShape(push, reference, j);
    if j != i {
      FindNumberedOf(received[1..], push, reference, i);
    }
  }

  lemma {:induction false} RejoinsFrom(received: seq<bytes>, push: bytes, reference: byte, i: nat)
    requires i <= SegmentCount(push) <= 255
    requires SameSegments(received, Segments(push, reference))
    ensures RejoinFrom(received, i + 1, SegmentCount(push)) == Some(push[Min(i * MAX_SMS_PAYLOAD, |push|)..])
    decreases SegmentCount(push) - i
  {
    SliceBounds(push, i);
    if i < SegmentCount(push) {
      assert Segments(push, reference)[i] in received;
      FindNumberedOf(received, push, reference, i);
      SegmentShape(push, reference, i);
      RejoinsFrom(received, push, reference, i + 1);
      NextSlice(push, i);
      var rest := push[Min((i + 1) * MAX_SMS_PAYLOAD, |push|)..];
      assert RejoinFrom(received, i + 1, SegmentCount(push)) ==
             Some(Segment(push, reference, i)[UDH_LENGTH..] + rest);
    }
  }

  /** Segments that arrive in any order, with repeats, rejoin to the push. */
  lemma RejoinInvertsSegment(push: bytes, reference: byte, received: seq<bytes>)
    requires 1 <= |push| && SegmentCount(push) <= 255
    requires SameSegments(received, Segments(push, reference))
    ensures Rejoin(received) == Some(push)
  {
    var segments := Segments(push, reference);
    assert segments[0] in received;
    assert received[0] in segments;
    var j :| 0 <= j < |segments| && segments[j] == received[0];
    SegmentShape(push, reference, j);
    RejoinsFrom(received, push, reference, 0);
    assert push[0..] == push;
  }
}
