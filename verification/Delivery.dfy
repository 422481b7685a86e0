/**
 The whole notification path: an MMS PDU is encoded, wrapped, segmented and sent
 as a stream of submit_sm, and comes back on the handset.
 */
module Delivery {
  import opened Bytes
  import opened Codec
  import opened CodecLaws
  import opened WapPush
  import Notification
  import SmppCodec
  import SmppLaws
  import Submit

  /** The push a PDU is sent in. */
  ghost function PushOf(p: PDU): bytes
    requires EncodePDU(p).Ok?
  {
    WrapMMSPDU(EncodePDU(p).value)
  }

  function ShortMessages(pdus: seq<SmppCodec.PDU>): seq<bytes> {
    seq(|pdus|, i requires 0 <= i < |pdus| => pdus[i].shortMessage)
  }

  lemma SubmissionTransportable(cfg: Submit.Config, sourceAddr: text, msisdn: text, sequence: SmppCodec.uint32,
                                segment: bytes)
    ensures SmppLaws.Transportable(Submit.SubmitSM(cfg, sourceAddr, msisdn, sequence, segment)) <==>
            |segment| <= 255 && 0 !in sourceAddr && 0 !in msisdn
    ensures Submit.SubmitSM(cfg, sourceAddr, msisdn, sequence, segment).shortMessage == segment
  {
    hide Submit.ClassifySourceAddress;
    assert forall i | 0 <= i < 3 :: Ascii("WAP")[i] != 0;
  }

  /** Crossing the wire leaves what is asked for as it was. */
  lemma CanonicalAsksFor(p: SmppCodec.PDU, u: Submit.Upstream, sourceAddr: text, msisdn: text,
                         sequence: SmppCodec.uint32, segment: bytes)
    requires SmppCodec.Encodable(p) && Submit.AsksFor(p, u, sourceAddr, msisdn, sequence, segment)
    ensures Submit.AsksFor(SmppLaws.Canonical(p), u, sourceAddr, msisdn, sequence, segment)
  {
    hide SmppCodec.Encodable, SmppCodec.BodyBytes, Submit.GuessedTON, Submit.GuessedNPI;
    assert SmppCodec.ShapeOf(0x0000_0004) == SmppCodec.Message;
  }

  /** Submission by submission, `received` asks for the segments of the push, as the upstream wants them. */
  ghost predicate AsksForPush(received: seq<SmppCodec.PDU>, u: Submit.Upstream, sourceAddr: text, msisdn: text,
                              sequences: seq<SmppCodec.uint32>, push: bytes, reference: byte)
    requires SegmentCount(push) <= 255 && |sequences| == SegmentCount(push)
  {
    && |received| == SegmentCount(push)
    && forall i | 0 <= i < |received| ::
         Submit.AsksFor(received[i], u, sourceAddr, msisdn, sequences[i], Segment(push, reference, i))
  }

  lemma SubmissionsAskForPush(u: Submit.Upstream, sourceAddr: text, msisdn: text, sequences: seq<SmppCodec.uint32>,
                              push: bytes, reference: byte)
    requires SegmentCount(push) <= 255 && |sequences| == SegmentCount(push)
    requires forall p | p in Submit.Submissions(Submit.ConfigOf(u), sourceAddr, msisdn, sequences,
                                                Segments(push, reference)) :: SmppCodec.Encodable(p)
    ensures AsksForPush(SmppLaws.Canonicals(Submit.Submissions(Submit.ConfigOf(u), sourceAddr, msisdn, sequences,
                                                               Segments(push, reference))),
                        u, sourceAddr, msisdn, sequences, push, reference)
  {
    hide SmppCodec.Encodable, Submit.AsksFor, SmppLaws.Canonical, Submit.ConfigOf, Submit.SubmitSM, Segment;
    var sent := Submit.Submissions(Submit.ConfigOf(u), sourceAddr, msisdn, sequences, Segments(push, reference));
    Submit.EachAsAsked(Submit.ConfigOf(u), sourceAddr, msisdn, sequences, Segments(push, reference));
    forall i | 0 <= i < |sent|
      ensures Submit.AsksFor(SmppLaws.Canonicals(sent)[i], u, sourceAddr, msisdn, sequences[i],
                             Segment(push, reference, i))
    {
      assert sent[i] in sent;
      CanonicalAsksFor(sent[i], u, sourceAddr, msisdn, sequences[i], Segment(push, reference, i));
    }
  }

  /**
   The receiving end of the SMPP connection reads the very submissions, with exactly the segments
   in them, exactly when neither address has a NUL.
   */
  lemma SegmentsCross(cfg: Submit.Config, sourceAddr: text, msisdn: text, sequences: seq<SmppCodec.uint32>,
                      push: bytes, reference: byte)
    requires push != [] && SegmentCount(push) <= 255 && |sequences| == SegmentCount(push)
    requires forall p | p in Submit.Submissions(cfg, sourceAddr, msisdn, sequences, Segments(push, reference)) ::
               SmppCodec.Encodable(p)
    ensures var sent := Submit.Submissions(cfg, sourceAddr, msisdn, sequences, Segments(push, reference));
            && (SmppLaws.ParseStream(SmppLaws.StreamBytes(sent)) == Ok(SmppLaws.Canonicals(sent)) <==>
                0 !in sourceAddr && 0 !in msisdn)
            && ShortMessages(SmppLaws.Canonicals(sent)) == Segments(push, reference)
  {
    hide SmppCodec.Encodable, SmppLaws.Transportable, SmppLaws.Canonical, Submit.SubmitSM, Segment;
    var segments := Segments(push, reference);
    var sent := Submit.Submissions(cfg, sourceAddr, msisdn, sequences, segments);
    forall i | 0 <= i < |sent|
      ensures SmppCodec.Encodable(sent[i])
      ensures SmppLaws.Transportable(sent[i]) <==> 0 !in sourceAddr && 0 !in msisdn
      ensures SmppLaws.Canonical(sent[i]).shortMessage == segments[i]
    {
      assert sent[i] in sent;
      SegmentShape(push, reference, i);
      SubmissionTransportable(cfg, sourceAddr, msisdn, sequences[i], segments[i]);
      IsMessage(cfg, sourceAddr, msisdn, sequences[i], segments[i]);
      SmppLaws.CanonicalTransportable(sent[i]);
    }
    SmppLaws.StreamExact(sent);
    assert sent[0] in sent;
  }

  lemma IsMessage(cfg: Submit.Config, sourceAddr: text, msisdn: text, sequence: SmppCodec.uint32, segment: bytes)
    ensures SmppCodec.ShapeOf(Submit.SubmitSM(cfg, sourceAddr, msisdn, sequence, segment).commandID) ==
            SmppCodec.Message
  {
    hide Submit.ClassifySourceAddress, Ascii;
  }

  /**
   A push that can be cut into at most 255 segments, each sent with its own sequence number in a
   frame SMPP allows.
   */
  ghost predicate Sendable(p: PDU, cfg: Submit.Config, sourceAddr: text, msisdn: text, sequences: seq<SmppCodec.uint32>,
                           reference: byte) {
    && EncodePDU(p).Ok?
    && |PushOf(p)| <= 255 * MAX_SMS_PAYLOAD
    && |sequences| == SegmentCount(PushOf(p))
    && forall s | s in Submit.Submissions(cfg, sourceAddr, msisdn, sequences, Segments(PushOf(p), reference)) ::
         SmppCodec.Encodable(s)
  }

  /** The submissions a PDU is sent in. */
  ghost function Sent(p: PDU, cfg: Submit.Config, sourceAddr: text, msisdn: text, sequences: seq<SmppCodec.uint32>,
                      reference: byte): seq<SmppCodec.PDU>
    requires Sendable(p, cfg, sourceAddr, msisdn, sequences, reference)
  {
    Submit.Submissions(cfg, sourceAddr, msisdn, sequences, Segments(PushOf(p), reference))
  }

  /** What a handset makes of the segments it received. */
  function Received(received: seq<bytes>): Result<PDU> {
    match Rejoin(received)
    case None => Err(NotFound)
    case Some(push) =>
      var pdu :- UnwrapMMSPDU(push);
      DecodePDU(pdu)
  }

  /**
   End to end: the receiving end of the SMPP connection reads the very submissions, addresses
   included, exactly when neither address has a NUL: requests of the configured upstream for one
   segment each, from the sender to the recipient. From the segments in them, in whatever order
   they arrive and however often, the handset decodes the canonical form of the PDU that was sent,
   exactly when that PDU is well-formed.
   */
  lemma EndToEnd(p: PDU, cfg: Submit.Config, sourceAddr: text, msisdn: text, sequences: seq<SmppCodec.uint32>,
                 reference: byte, received: seq<bytes>)
    ensures Sendable(p, cfg, sourceAddr, msisdn, sequences, reference) ==>
              var sent := Sent(p, cfg, sourceAddr, msisdn, sequences, reference);
              var out := SmppLaws.ParseStream(SmppLaws.StreamBytes(sent));
              && (out == Ok(SmppLaws.Canonicals(sent)) <==> 0 !in sourceAddr && 0 !in msisdn)
              && (forall u | cfg == Submit.ConfigOf(u) ::
                    AsksForPush(SmppLaws.Canonicals(sent), u, sourceAddr, msisdn, sequences, PushOf(p), reference))
              && (SameSegments(received, ShortMessages(SmppLaws.Canonicals(sent))) ==>
                    (Received(received) == Ok(Canonical(p)) <==> WellFormed(p)))
  {
    if Sendable(p, cfg, sourceAddr, msisdn, sequences, reference) {
      hide EncodePDU, DecodePDU, Canonical, WellFormed, Rejoin, UnwrapMMSPDU, WrapMMSPDU, Submit.Submissions, Segments,
        SmppLaws.ParseStream, SmppLaws.StreamBytes, SmppCodec.Encodable, SmppLaws.Canonicals, Submit.ConfigOf,
        AsksForPush;
      var push := PushOf(p);
      forall u | cfg == Submit.ConfigOf(u)
        ensures AsksForPush(SmppLaws.Canonicals(Sent(p, cfg, sourceAddr, msisdn, sequences, reference)), u, sourceAddr,
                            msisdn, sequences, push, reference)
      {
        SubmissionsAskForPush(u, sourceAddr, msisdn, sequences, push, reference);
      }
      PDUExact(p);
      UnwrapInvertsWrap(EncodePDU(p).value);
      SegmentsCross(cfg, sourceAddr, msisdn, sequences, push, reference);
      if SameSegments(received, Segments(push, reference)) {
        RejoinInvertsSegment(push, reference, received);
      }
    }
  }

  /**
   In particular the handset learns from a notification as the senders emit it which transaction
   it belongs to, where to fetch the message and what it is about, exactly when the strings have
   no NUL and the sender delimits itself; who it is from and how large it is, on the further
   conditions of those fields.
   */
  lemma NotificationArrives(n: Notification.Notice, cfg: Submit.Config, sourceAddr: text, msisdn: text,
                            sequences: seq<SmppCodec.uint32>, reference: byte, received: seq<bytes>)
    ensures var p := Notification.SentNotification(n);
            Sendable(p, cfg, sourceAddr, msisdn, sequences, reference) ==>
              var sent := Sent(p, cfg, sourceAddr, msisdn, sequences, reference);
              var out := SmppLaws.ParseStream(SmppLaws.StreamBytes(sent));
              && (out == Ok(SmppLaws.Canonicals(sent)) <==> 0 !in sourceAddr && 0 !in msisdn)
              && (forall u | cfg == Submit.ConfigOf(u) ::
                    AsksForPush(SmppLaws.Canonicals(sent), u, sourceAddr, msisdn, sequences, PushOf(p), reference))
              && (SameSegments(received, ShortMessages(SmppLaws.Canonicals(sent))) ==>
                    && (Received(received) == Ok(Canonical(p)) <==> Notification.ReadableNotice(n))
                    && (Notification.ReadableNotice(n) ==> Notification.ReadsAs(Received(received).value, n)))
  {
    hide *;
    var p := Notification.SentNotification(n);
    Notification.SentWellFormed(n);
    if Notification.ReadableNotice(n) { Notification.SentRead(n); }
    EndToEnd(p, cfg, sourceAddr, msisdn, sequences, reference, received);
  }
}
