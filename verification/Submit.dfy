/**
 Client configuration and the submit_sm a segment is sent in:
 internal/smpp/client.go and internal/smpp/submit.go.
 */
module Submit {
  import opened Bytes
  import SmppCodec
  import WapPush

  /** One upstream as configured; the address fields may be absent. */
  datatype Upstream = Upstream(
    name: text, host: text, port: int, systemID: text, password: text, systemType: text, bindMode: text,
    enquireLink: int, reconnectWait: int, registeredDelivery: int,
    sourceAddrTON: Option<int>, sourceAddrNPI: Option<int>, destAddrTON: Option<int>, destAddrNPI: Option<int>,
    active: bool)

  datatype Config = Config(
    host: text, port: int, systemID: text, password: text, systemType: text, bindMode: text,
    reconnectWait: nat, enquireLink: nat, registeredDelivery: byte,
    sourceAddrTON: byte, sourceAddrNPI: byte, sourceAddrTONSet: bool, sourceAddrNPISet: bool,
    destAddrTON: byte, destAddrNPI: byte, destAddrTONSet: bool, destAddrNPISet: bool)

  /** A conversion to byte keeps the low eight bits. */
  function ToByte(v: int): byte {
    v % 256
  }

  function OrElse(v: Option<int>, default: int): int {
    match v case Some(x) => x case None => default
  }

  function DurationSeconds(v: int): nat {
    if v <= 0 then 0 else v
  }

  function ConfigOf(u: Upstream): Config {
    Config(u.host, u.port, u.systemID, u.password, u.systemType, u.bindMode,
           DurationSeconds(u.reconnectWait), DurationSeconds(u.enquireLink), ToByte(u.registeredDelivery),
           ToByte(OrElse(u.sourceAddrTON, 0)), ToByte(OrElse(u.sourceAddrNPI, 0)),
           u.sourceAddrTON.Some?, u.sourceAddrNPI.Some?,
           ToByte(OrElse(u.destAddrTON, 1)), ToByte(OrElse(u.destAddrNPI, 1)),
           u.destAddrTON.Some?, u.destAddrNPI.Some?)
  }

  /** The comparison that decides whether a running client is kept. */
  predicate SameRuntimeConfig(cfg: Config, u: Upstream) {
    && cfg.host == u.host
    && cfg.port == u.port
    && cfg.systemID == u.systemID
    && cfg.password == u.password
    && cfg.systemType == u.systemType
    && cfg.bindMode == u.bindMode
    && cfg.registeredDelivery == ToByte(u.registeredDelivery)
    && cfg.sourceAddrTON == ToByte(OrElse(u.sourceAddrTON, 0))
    && cfg.sourceAddrNPI == ToByte(OrElse(u.sourceAddrNPI, 0))
    && cfg.sourceAddrTONSet == u.sourceAddrTON.Some?
    && cfg.sourceAddrNPISet == u.sourceAddrNPI.Some?
    && cfg.destAddrTON == ToByte(OrElse(u.destAddrTON, 1))
    && cfg.destAddrNPI == ToByte(OrElse(u.destAddrNPI, 1))
    && cfg.reconnectWait == DurationSeconds(u.reconnectWait)
    && cfg.enquireLink == DurationSeconds(u.enquireLink)
  }

  predicate LooksLikeNumericAddress(value: text) {
    forall i | 0 <= i < |value| :: IsDigit(value[i]) || (i == 0 && value[i] == 0x2B)
  }

  /** Type of number and numbering plan guessed from the address. */
  function ClassifySourceAddress(sourceAddr: text): (byte, byte) {
    var trimmed := TrimSpace(sourceAddr);
    if trimmed == [] then (0x00, 0x00)
    else if LooksLikeNumericAddress(trimmed) then (0x01, 0x01)
    else (0x05, 0x00)
  }

  /** A destination value of zero that was not configured means one. */
  function Effective(value: byte, isSet: bool): byte {
    if value == 0 && !isSet then 0x01 else value
  }

  function SubmitSM(cfg: Config, sourceAddr: text, msisdn: text, sequence: SmppCodec.uint32,
      payload: bytes): SmppCodec.PDU
  {
    var (ton, npi) := ClassifySourceAddress(sourceAddr);
    SmppCodec.Blank(0, SmppCodec.CMD_SUBMIT_SM, 0, sequence).(
      serviceType := Ascii("WAP"),
      sourceAddrTON := if cfg.sourceAddrTONSet then cfg.sourceAddrTON else ton,
      sourceAddrNPI := if cfg.sourceAddrNPISet then cfg.sourceAddrNPI else npi,
      sourceAddr := sourceAddr,
      destAddrTON := Effective(cfg.destAddrTON, cfg.destAddrTONSet),
      destAddrNPI := Effective(cfg.destAddrNPI, cfg.destAddrNPISet),
      destinationAddr := msisdn,
      esmClass := 0x40,
      dataCoding := 0xF5,
      registeredDelivery := cfg.registeredDelivery,
      shortMessage := payload)
  }

  /** A client built from an upstream passes the comparison with it. */
  lemma FreshConfigMatches(u: Upstream)
    ensures SameRuntimeConfig(ConfigOf(u), u)
  {
  }

  /** The same seconds, where none or fewer are the default. */
  predicate SameWait(a: int, b: int) {
    a == b || (a <= 0 && b <= 0)
  }

  /** The same byte set, or none set on both sides. */
  predicate SameSetting(a: Option<int>, b: Option<int>) {
    match (a, b)
    case (Some(x), Some(y)) => x % 256 == y % 256
    case (None, None) => true
    case _ => false
  }

  /**
   Exactly when a client is kept: the entry it was built from and the new one agree on everything a
   client uses, in the bytes that are sent; for the recipient one and nothing are the same setting.
   Names and activity do not count.
   */
  lemma KeptExactly(built: Upstream, u: Upstream)
    ensures SameRuntimeConfig(ConfigOf(built), u) <==>
            && built.host == u.host && built.port == u.port && built.systemID == u.systemID
            && built.password == u.password && built.systemType == u.systemType && built.bindMode == u.bindMode
            && built.registeredDelivery % 256 == u.registeredDelivery % 256
            && SameSetting(built.sourceAddrTON, u.sourceAddrTON) && SameSetting(built.sourceAddrNPI, u.sourceAddrNPI)
            && (match built.destAddrTON case Some(v) => v case None => 1) % 256 ==
                 (match u.destAddrTON case Some(v) => v case None => 1) % 256
            && (match built.destAddrNPI case Some(v) => v case None => 1) % 256 ==
                 (match u.destAddrNPI case Some(v) => v case None => 1) % 256
            && SameWait(built.reconnectWait, u.reconnectWait) && SameWait(built.enquireLink, u.enquireLink)
  {
  }

  /**
   A client kept across a configuration change submits exactly what a fresh one
   would, although the comparison does not look at the "destination set" flags.
   */
  lemma KeptClientSubmitsTheSame(built: Upstream, u: Upstream, sourceAddr: text, msisdn: text,
                                 sequence: SmppCodec.uint32, payload: bytes)
    requires SameRuntimeConfig(ConfigOf(built), u)
    ensures SubmitSM(ConfigOf(built), sourceAddr, msisdn, sequence, payload) ==
            SubmitSM(ConfigOf(u), sourceAddr, msisdn, sequence, payload)
    ensures ConfigOf(built) == ConfigOf(u) <==>
            built.destAddrTON.Some? == u.destAddrTON.Some? && built.destAddrNPI.Some? == u.destAddrNPI.Some?
  {
    hide ClassifySourceAddress, Ascii;
  }

  predicate Numeric(t: text) {
    t != [] && forall i | 0 <= i < |t| :: 0x30 <= t[i] <= 0x39 || (i == 0 && t[i] == 0x2B)
  }

  /** Source type of number 0, 1 or 5 and plan 0 or 1, by what the address looks like without space around it. */
  function GuessedTON(sourceAddr: text): byte {
    if TrimSpace(sourceAddr) == [] then 0 else if Numeric(TrimSpace(sourceAddr)) then 1 else 5
  }

  function GuessedNPI(sourceAddr: text): byte {
    if Numeric(TrimSpace(sourceAddr)) then 1 else 0
  }

  /**
   The request upstream `u` is to get for a segment: a submit_sm from the sender to the recipient
   with the segment as its message, service type WAP, a user data header, 8-bit class 1 data, and
   the upstream's own settings. What it does not set is guessed for the source, one for the recipient.
   */
  predicate AsksFor(p: SmppCodec.PDU, u: Upstream, sourceAddr: text, msisdn: text, sequence: SmppCodec.uint32,
                    segment: bytes)
  {
    && p.commandID == 0x0000_0004 && p.commandStatus == 0 && p.sequenceNumber == sequence
    && p.sourceAddr == sourceAddr && p.destinationAddr == msisdn && p.shortMessage == segment
    && p.serviceType == [0x57, 0x41, 0x50] && p.esmClass == 0x40 && p.dataCoding == 0xF5
    && p.protocolID == 0 && p.priorityFlag == 0 && p.replaceIfPresentFlag == 0 && p.smDefaultMsgID == 0
    && p.scheduleDeliveryTime == [] && p.validityPeriod == []
    && p.registeredDelivery == u.registeredDelivery % 256
    && p.sourceAddrTON == (match u.sourceAddrTON case Some(v) => v % 256 case None => GuessedTON(sourceAddr))
    && p.sourceAddrNPI == (match u.sourceAddrNPI case Some(v) => v % 256 case None => GuessedNPI(sourceAddr))
    && p.destAddrTON == (match u.destAddrTON case Some(v) => v % 256 case None => 1)
    && p.destAddrNPI == (match u.destAddrNPI case Some(v) => v % 256 case None => 1)
  }

  /** What a client submits is what its upstream is to get, even for a client kept from an older entry. */
  lemma SubmitsAsAsked(built: Upstream, u: Upstream, sourceAddr: text, msisdn: text, sequence: SmppCodec.uint32,
                       segment: bytes)
    requires SameRuntimeConfig(ConfigOf(built), u)
    ensures AsksFor(SubmitSM(ConfigOf(built), sourceAddr, msisdn, sequence, segment), u, sourceAddr, msisdn, sequence,
                    segment)
  {
    SourceGuessed(sourceAddr);
    assert Ascii("WAP") == [0x57, 0x41, 0x50];
    hide ClassifySourceAddress, GuessedTON, GuessedNPI, Ascii;
  }

  lemma SourceGuessed(sourceAddr: text)
    ensures ClassifySourceAddress(sourceAddr) == (GuessedTON(sourceAddr), GuessedNPI(sourceAddr))
  {
    hide TrimSpace;
  }

  /** It needs the client to have been built from an upstream: a hand-made configuration can differ. */
  lemma HandMadeConfigDiffers(u: Upstream)
    requires u.destAddrTON == Some(0)
    ensures var cfg := ConfigOf(u).(destAddrTONSet := false);
            && SameRuntimeConfig(cfg, u)
            && SubmitSM(cfg, [], [], 0, []).destAddrTON != SubmitSM(ConfigOf(u), [], [], 0, []).destAddrTON
  {
    hide ClassifySourceAddress, Ascii;
  }

  // ------------------------------------------------------- the segment loop

  /** One tracked segment: index, segment count and the upstream's message ID. */
  datatype Tracked = Tracked(index: nat, count: nat, remoteID: text)

  /** What comes back for one segment: the upstream's message ID, and whether the tracker took it. */
  datatype Answer = Answer(reply: Result<text>, kept: Result<()>)

  /** One submit_sm for each segment, with the sequence numbers the connection handed out. */
  function Submissions(cfg: Config, sourceAddr: text, msisdn: text, sequences: seq<SmppCodec.uint32>,
                       segments: seq<bytes>): seq<SmppCodec.PDU>
    requires |sequences| == |segments|
  {
    seq(|segments|, i requires 0 <= i < |segments| => SubmitSM(cfg, sourceAddr, msisdn, sequences[i], segments[i]))
  }

  lemma EachAsAsked(cfg: Config, sourceAddr: text, msisdn: text, sequences: seq<SmppCodec.uint32>, segments: seq<bytes>)
    requires |sequences| == |segments|
    ensures forall i, u | 0 <= i < |segments| && cfg == ConfigOf(u) ::
              AsksFor(Submissions(cfg, sourceAddr, msisdn, sequences, segments)[i], u, sourceAddr, msisdn, sequences[i],
                      segments[i])
  {
    hide SubmitSM, AsksFor, ConfigOf;
    forall i, u | 0 <= i < |segments| && cfg == ConfigOf(u)
      ensures AsksFor(SubmitSM(cfg, sourceAddr, msisdn, sequences[i], segments[i]), u, sourceAddr, msisdn, sequences[i],
                      segments[i])
    {
      FreshConfigMatches(u);
      SubmitsAsAsked(u, u, sourceAddr, msisdn, sequences[i], segments[i]);
    }
  }

  /** Whether the loop ends with this answer; a tracker that is not there cannot refuse. */
  predicate Halts(a: Answer, tracking: bool) {
    a.reply.Err? || (tracking && a.kept.Err?)
  }

  function Failure(a: Answer): Error
    requires a.reply.Err? || a.kept.Err?
  {
    if a.reply.Err? then a.reply.error else a.kept.error
  }

  /** How many segments are acknowledged and kept before the first failure. */
  function FirstHalt(answers: seq<Answer>, tracking: bool): (i: nat)
    ensures i <= |answers|
    ensures forall j | 0 <= j < i :: !Halts(answers[j], tracking)
    ensures i < |answers| ==> Halts(answers[i], tracking)
  {
    if answers == [] || Halts(answers[0], tracking) then 0 else 1 + FirstHalt(answers[1..], tracking)
  }

  /** What the tracker is told: the acknowledged segments up to `upto`. */
  function Told(answers: seq<Answer>, upto: nat): seq<Tracked>
    requires upto <= |answers| && forall j | 0 <= j < upto :: answers[j].reply.Ok?
  {
    seq(upto, i requires 0 <= i < upto => Tracked(i, |answers|, answers[i].reply.value))
  }

  /** The segments the tracker is told of: all before the first failure, and the one it refused itself. */
  function ToldCount(answers: seq<Answer>, tracking: bool): (n: nat)
    ensures n <= |answers| && forall j | 0 <= j < n :: answers[j].reply.Ok?
  {
    var i := FirstHalt(answers, tracking);
    if !tracking then 0 else if i < |answers| && answers[i].reply.Ok? then i + 1 else i
  }

  lemma {:induction false} FirstHaltAt(answers: seq<Answer>, tracking: bool, i: nat)
    requires i <= |answers| && forall j | 0 <= j < i :: !Halts(answers[j], tracking)
    requires i < |answers| ==> Halts(answers[i], tracking)
    ensures FirstHalt(answers, tracking) == i
  {
    if i > 0 { FirstHaltAt(answers[1..], tracking, i - 1); }
  }

  /**
   Submits segment by segment, `answers` being what upstream and tracker reply. Stops at the
   first failure of either; what was sent is sent, and what the tracker took stays tracked.
   */
  method SubmitSegments(cfg: Config, sourceAddr: text, msisdn: text, segments: seq<bytes>,
                        sequences: seq<SmppCodec.uint32>, answers: seq<Answer>, tracking: bool)
    returns (r: Result<()>, sent: seq<SmppCodec.PDU>, told: seq<Tracked>)
    requires |answers| == |sequences| == |segments|
    ensures told == Told(answers, ToldCount(answers, tracking))
    ensures var all, i := Submissions(cfg, sourceAddr, msisdn, sequences, segments), FirstHalt(answers, tracking);
            if i < |segments| then r == Err(Failure(answers[i])) && sent == all[..i + 1]
            else r == Ok(()) && sent == all
    ensures forall i, u | 0 <= i < |sent| && cfg == ConfigOf(u) ::
              AsksFor(sent[i], u, sourceAddr, msisdn, sequences[i], segments[i])
  {
    hide SubmitSM, AsksFor, ConfigOf;
    ghost var all := Submissions(cfg, sourceAddr, msisdn, sequences, segments);
    EachAsAsked(cfg, sourceAddr, msisdn, sequences, segments);
    sent, told := [], [];
    var index := 0;
    while index < |segments|
      invariant 0 <= index <= |segments|
      invariant forall j | 0 <= j < index :: !Halts(answers[j], tracking)
      invariant sent == all[..index]
      invariant told == if tracking then Told(answers, index) else []
    {
      sent := sent + [SubmitSM(cfg, sourceAddr, msisdn, sequences[index], segments[index])];
      var a := answers[index];
      if Halts(a, tracking) { FirstHaltAt(answers, tracking, index); }
      if a.reply.Err? {
        r := Err(a.reply.error);
        return;
      }
      if tracking {
        told := told + [Tracked(index, |segments|, a.reply.value)];
        if a.kept.Err? {
          r := Err(a.kept.error);
          return;
        }
      }
      index := index + 1;
    }
    FirstHaltAt(answers, tracking, index);
    r := Ok(());
  }

  /** A push is cut into segments and these are submitted; one that cannot be cut sends nothing. */
  method SubmitWAPPush(cfg: Config, sourceAddr: text, msisdn: text, push: bytes, reference: byte,
                       sequences: seq<SmppCodec.uint32>, answers: seq<Answer>, tracking: bool)
    returns (r: Result<()>, sent: seq<SmppCodec.PDU>, told: seq<Tracked>)
    requires |answers| == |sequences| == WapPush.SegmentCount(push)
    ensures r.Ok? <==>
            0 < |push| <= 255 * WapPush.MAX_SMS_PAYLOAD && forall i | 0 <= i < |answers| :: !Halts(answers[i], tracking)
    ensures r.Ok? ==>
              && sent == Submissions(cfg, sourceAddr, msisdn, sequences, WapPush.Segments(push, reference))
              && told == if tracking then Told(answers, |answers|) else []
    ensures r.Err? && 0 < |push| <= 255 * WapPush.MAX_SMS_PAYLOAD ==>
              var i := FirstHalt(answers, tracking);
              && i < |answers| && r == Err(Failure(answers[i])) && told == Told(answers, ToldCount(answers, tracking))
              && sent == Submissions(cfg, sourceAddr, msisdn, sequences, WapPush.Segments(push, reference))[..i + 1]
    ensures push == [] ==> r == Err(ShortData)
    ensures |push| > 255 * WapPush.MAX_SMS_PAYLOAD ==> r == Err(TooManySegments)
    ensures !(0 < |push| <= 255 * WapPush.MAX_SMS_PAYLOAD) ==> sent == [] && told == []
    ensures |sent| <= |sequences|
    ensures forall i, u | 0 <= i < |sent| && cfg == ConfigOf(u) ::
              AsksFor(sent[i], u, sourceAddr, msisdn, sequences[i], WapPush.Segments(push, reference)[i])
  {
    hide AsksFor, ConfigOf;
    var segments := WapPush.SegmentBinarySMS(push, reference);
    if segments.Err? {
      r, sent, told := Err(segments.error), [], [];
      return;
    }
    r, sent, told := SubmitSegments(cfg, sourceAddr, msisdn, segments.value, sequences, answers, tracking);
  }

  /**
   What one submit leaves tracked: consecutive indices from zero, all of one count, each with
   the ID the upstream gave that segment; all of them exactly when nothing failed. A retry
   starts over, it does not resume.
   */
  lemma ToldIsPrefix(answers: seq<Answer>)
    ensures var told := Told(answers, ToldCount(answers, true));
            && (forall i | 0 <= i < |told| :: told[i].index == i && told[i].count == |answers|
                                              && answers[i].reply == Ok(told[i].remoteID))
            && (forall i | 0 <= i < |told| - 1 :: answers[i].kept.Ok?)
            && (|told| == |answers| <==>
                forall i | 0 <= i < |answers| :: answers[i].reply.Ok? && (i + 1 < |answers| ==> answers[i].kept.Ok?))
  {
    var i := FirstHalt(answers, true);
    assert i < |answers| ==> Halts(answers[i], true);
    assert forall j | 0 <= j < i :: !Halts(answers[j], true);
  }
}
