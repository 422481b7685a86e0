/**
 What the SMPP wire format guarantees: the exact round trip and the framing of
 a whole stream of PDUs.
 */
module SmppLaws {
  import opened Bytes
  import opened Reader
  import opened SmppCodec

  // -------------------------------------------------------------- parse steps

  lemma CStringParses(x: text, rest: bytes)
    requires 0 !in x
    ensures ParseCString(CString(x) + rest) == Ok(Parsed(x, rest))
  {
    CStringPrefix(x, rest);
    ConcatAssociative(x, [0], rest);
  }

  lemma ByteParses(b: byte, rest: bytes)
    ensures ParseByte([b] + rest) == Ok(Parsed(b, rest))
  {
    assert ([b] + rest)[1..] == rest;
  }

  /** What is left of a list of chunks starts with the next one. */
  lemma NextChunk(chunks: seq<bytes>, k: nat, rest: bytes)
    requires k < |chunks|
    ensures Flatten(chunks[k..]) + rest == chunks[k] + (Flatten(chunks[k + 1..]) + rest)
  {
    assert chunks[k..][1..] == chunks[k + 1..];
    ConcatAssociative(chunks[k], Flatten(chunks[k + 1..]), rest);
  }

  lemma LastChunk(chunks: seq<bytes>, rest: bytes)
    ensures Flatten(chunks[|chunks|..]) + rest == rest
    ensures chunks[0..] == chunks
  {
  }

  lemma AddressesParse(q: PDU, p: PDU, rest: bytes)
    requires 0 !in p.serviceType && 0 !in p.sourceAddr && 0 !in p.destinationAddr
    ensures ParseAddresses(q, Flatten(AddressChunks(p)) + rest) ==
            Ok(Parsed(q.(serviceType := p.serviceType,
                         sourceAddrTON := p.sourceAddrTON, sourceAddrNPI := p.sourceAddrNPI, sourceAddr := p.sourceAddr,
                         destAddrTON := p.destAddrTON, destAddrNPI := p.destAddrNPI,
                         destinationAddr := p.destinationAddr),
                      rest))
  {
    hide Flatten, CString, ParseCString, ParseByte;
    var c := AddressChunks(p);
    LastChunk(c, rest);
    NextChunk(c, 0, rest); CStringParses(p.serviceType, Flatten(c[1..]) + rest);
    NextChunk(c, 1, rest); ByteParses(p.sourceAddrTON, Flatten(c[2..]) + rest);
    NextChunk(c, 2, rest); ByteParses(p.sourceAddrNPI, Flatten(c[3..]) + rest);
    NextChunk(c, 3, rest); CStringParses(p.sourceAddr, Flatten(c[4..]) + rest);
    NextChunk(c, 4, rest); ByteParses(p.destAddrTON, Flatten(c[5..]) + rest);
    NextChunk(c, 5, rest); ByteParses(p.destAddrNPI, Flatten(c[6..]) + rest);
    NextChunk(c, 6, rest); CStringParses(p.destinationAddr, Flatten(c[7..]) + rest);
  }

  lemma OptionsParse(q: PDU, p: PDU, rest: bytes)
    requires 0 !in p.scheduleDeliveryTime && 0 !in p.validityPeriod
    ensures ParseOptions(q, Flatten(OptionChunks(p)) + rest) ==
            Ok(Parsed(q.(esmClass := p.esmClass, protocolID := p.protocolID, priorityFlag := p.priorityFlag,
                         scheduleDeliveryTime := p.scheduleDeliveryTime, validityPeriod := p.validityPeriod,
                         registeredDelivery := p.registeredDelivery, replaceIfPresentFlag := p.replaceIfPresentFlag,
                         dataCoding := p.dataCoding, smDefaultMsgID := p.smDefaultMsgID),
                      rest))
  {
    hide Flatten, CString, ParseCString, ParseByte;
    var c := OptionChunks(p);
    LastChunk(c, rest);
    NextChunk(c, 0, rest); ByteParses(p.esmClass, Flatten(c[1..]) + rest);
    NextChunk(c, 1, rest); ByteParses(p.protocolID, Flatten(c[2..]) + rest);
    NextChunk(c, 2, rest); ByteParses(p.priorityFlag, Flatten(c[3..]) + rest);
    NextChunk(c, 3, rest); CStringParses(p.scheduleDeliveryTime, Flatten(c[4..]) + rest);
    NextChunk(c, 4, rest); CStringParses(p.validityPeriod, Flatten(c[5..]) + rest);
    NextChunk(c, 5, rest); ByteParses(p.registeredDelivery, Flatten(c[6..]) + rest);
    NextChunk(c, 6, rest); ByteParses(p.replaceIfPresentFlag, Flatten(c[7..]) + rest);
    NextChunk(c, 7, rest); ByteParses(p.dataCoding, Flatten(c[8..]) + rest);
    NextChunk(c, 8, rest); ByteParses(p.smDefaultMsgID, Flatten(c[9..]) + rest);
  }

  lemma BindParses(q: PDU, p: PDU)
    requires ShapeOf(p.commandID) == Bind
    requires 0 !in p.systemID && 0 !in p.password && 0 !in p.systemType && 0 !in p.addressRange
    ensures ParseBind(q, BodyBytes(p)) ==
            Ok(q.(systemID := p.systemID, password := p.password, systemType := p.systemType,
                  interfaceVersion := p.interfaceVersion, addrTON := p.addrTON, addrNPI := p.addrNPI,
                  addressRange := p.addressRange))
  {
    hide Flatten, CString, ParseCString, ParseByte;
    var c := Chunks(p);
    var rest: bytes := [];
    LastChunk(c, rest);
    assert BodyBytes(p) + rest == BodyBytes(p);
    NextChunk(c, 0, rest); CStringParses(p.systemID, Flatten(c[1..]) + rest);
    NextChunk(c, 1, rest); CStringParses(p.password, Flatten(c[2..]) + rest);
    NextChunk(c, 2, rest); CStringParses(p.systemType, Flatten(c[3..]) + rest);
    NextChunk(c, 3, rest); ByteParses(p.interfaceVersion, Flatten(c[4..]) + rest);
    NextChunk(c, 4, rest); ByteParses(p.addrTON, Flatten(c[5..]) + rest);
    NextChunk(c, 5, rest); ByteParses(p.addrNPI, Flatten(c[6..]) + rest);
    NextChunk(c, 6, rest); CStringParses(p.addressRange, Flatten(c[7..]) + rest);
  }

  // -------------------------------------------------------------- round trip

  /** The header fields and the command's own fields; the rest blank, the lengths computed. */
  function Canonical(p: PDU): PDU
    requires Encodable(p)
  {
    var q := Blank(HEADER_LENGTH + |BodyBytes(p)|, p.commandID, p.commandStatus, p.sequenceNumber);
    match ShapeOf(p.commandID)
    case Bind =>
      q.(systemID := p.systemID, password := p.password, systemType := p.systemType,
         interfaceVersion := p.interfaceVersion, addrTON := p.addrTON, addrNPI := p.addrNPI,
         addressRange := p.addressRange)
    case BindResp => q.(systemID := p.systemID)
    case Message =>
      q.(serviceType := p.serviceType,
         sourceAddrTON := p.sourceAddrTON, sourceAddrNPI := p.sourceAddrNPI, sourceAddr := p.sourceAddr,
         destAddrTON := p.destAddrTON, destAddrNPI := p.destAddrNPI, destinationAddr := p.destinationAddr,
         esmClass := p.esmClass, protocolID := p.protocolID, priorityFlag := p.priorityFlag,
         scheduleDeliveryTime := p.scheduleDeliveryTime, validityPeriod := p.validityPeriod,
         registeredDelivery := p.registeredDelivery, replaceIfPresentFlag := p.replaceIfPresentFlag,
         dataCoding := p.dataCoding, smDefaultMsgID := p.smDefaultMsgID,
         smLength := |p.shortMessage| % 256, shortMessage := p.shortMessage)
    case MessageResp => q.(messageID := p.messageID)
    case _ => q
  }

  /** The command's own strings have no NUL and its short message fits one length byte. */
  predicate Transportable(p: PDU) {
    match ShapeOf(p.commandID)
    case Bind => 0 !in p.systemID && 0 !in p.password && 0 !in p.systemType && 0 !in p.addressRange
    case BindResp => 0 !in p.systemID
    case Message =>
      && 0 !in p.serviceType && 0 !in p.sourceAddr && 0 !in p.destinationAddr
      && 0 !in p.scheduleDeliveryTime && 0 !in p.validityPeriod
      && |p.shortMessage| <= 255
    case MessageResp => 0 !in p.messageID
    case _ => true
  }

  lemma MessageParses(q: PDU, p: PDU)
    requires ShapeOf(p.commandID) == Message && Transportable(p)
    ensures ParseMessage(q, BodyBytes(p)) ==
            Ok(q.(serviceType := p.serviceType,
                  sourceAddrTON := p.sourceAddrTON, sourceAddrNPI := p.sourceAddrNPI, sourceAddr := p.sourceAddr,
                  destAddrTON := p.destAddrTON, destAddrNPI := p.destAddrNPI, destinationAddr := p.destinationAddr,
                  esmClass := p.esmClass, protocolID := p.protocolID, priorityFlag := p.priorityFlag,
                  scheduleDeliveryTime := p.scheduleDeliveryTime, validityPeriod := p.validityPeriod,
                  registeredDelivery := p.registeredDelivery, replaceIfPresentFlag := p.replaceIfPresentFlag,
                  dataCoding := p.dataCoding, smDefaultMsgID := p.smDefaultMsgID,
                  smLength := |p.shortMessage|, shortMessage := p.shortMessage))
  {
    hide Flatten, CString, ParseCString, ParseByte, AddressChunks, OptionChunks, ParseAddresses, ParseOptions;
    var a, o := AddressChunks(p), OptionChunks(p);
    var length: byte := |p.shortMessage|;
    var last: seq<bytes> := [[length], p.shortMessage];
    var tail := [length] + p.shortMessage;
    FlattenAppend(a + o, last);
    FlattenAppend(a, o);
    FlattenTwo([length], p.shortMessage);
    ConcatAssociative(Flatten(a), Flatten(o), tail);
    AddressesParse(q, p, Flatten(o) + tail);
    OptionsParse(ParseAddresses(q, BodyBytes(p)).value.value, p, tail);
    ByteParses(length, p.shortMessage);
    assert p.shortMessage[..length] == p.shortMessage;
  }

  lemma FlattenTwo(a: bytes, b: bytes)
    ensures Flatten([a, b]) == a + b
  {
    assert [a, b][1..] == [b] && [b][1..] == [];
    assert Flatten([b]) == b + Flatten([]);
  }

  lemma FlattenOne(a: bytes)
    ensures Flatten([a]) == a
  {
    assert [a][1..] == [];
  }

  lemma BodyRoundTrip(q: PDU, p: PDU)
    requires Encodable(p) && Transportable(p)
    requires q == Blank(HEADER_LENGTH + |BodyBytes(p)|, p.commandID, p.commandStatus, p.sequenceNumber)
    ensures ParseBody(q, BodyBytes(p)) == Ok(Canonical(p))
  {
    hide CString, ParseCString, ParseBind, ParseMessage, Flatten;
    match ShapeOf(p.commandID)
    case Bind => BindParses(q, p);
    case BindResp =>
      FlattenOne(CString(p.systemID));
      CStringParses(p.systemID, []);
      assert BodyBytes(p) + [] == BodyBytes(p);
    case Message => MessageParses(q, p);
    case MessageResp =>
      FlattenOne(CString(p.messageID));
      CStringParses(p.messageID, []);
      assert BodyBytes(p) + [] == BodyBytes(p);
    case Bare =>
  }

  lemma HeaderRoundTrip(p: PDU, rest: bytes)
    requires Encodable(p)
    ensures ParseN(FrameBytes(p) + rest, HEADER_LENGTH).Ok?
    ensures var header := ParseN(FrameBytes(p) + rest, HEADER_LENGTH).value;
            && |header.value| == HEADER_LENGTH
            && header.rest == BodyBytes(p) + rest
            && HeaderOf(header.value) ==
               Blank(HEADER_LENGTH + |BodyBytes(p)|, p.commandID, p.commandStatus, p.sequenceNumber)
  {
    hide BodyBytes, FixedBE, FromBE;
    var length := HEADER_LENGTH + |BodyBytes(p)|;
    HeaderFields(FixedBE(length, 4), FixedBE(p.commandID, 4), FixedBE(p.commandStatus, 4),
                 FixedBE(p.sequenceNumber, 4), BodyBytes(p), rest);
    Pow256Of4();
    FixedBERoundTrip(length, 4);
    FixedBERoundTrip(p.commandID, 4);
    FixedBERoundTrip(p.commandStatus, 4);
    FixedBERoundTrip(p.sequenceNumber, 4);
  }

  lemma HeaderFields(a: bytes, b: bytes, c: bytes, d: bytes, body: bytes, rest: bytes)
    requires |a| == |b| == |c| == |d| == 4
    ensures var s := a + b + c + d + body + rest;
            && |s| >= 16 && s[..16] == a + b + c + d && s[16..] == body + rest
            && s[..16][0..4] == a && s[..16][4..8] == b && s[..16][8..12] == c && s[..16][12..16] == d
  {
    var s := a + b + c + d + body + rest;
    assert s[..16] == a + b + c + d;
    assert s[16..] == body + rest;
  }

  /** C-strings come back without a NUL, and a short message has at most 255 bytes. */
  lemma ParsedTransportable(p: PDU, body: bytes)
    requires p == Blank(p.commandLength, p.commandID, p.commandStatus, p.sequenceNumber)
    ensures ParseBody(p, body).Ok? ==> Transportable(ParseBody(p, body).value)
  {
    hide ParseMessage, ParseByte, ParseN;
    match ShapeOf(p.commandID)
    case Bind =>
    case BindResp =>
    case Message => ParsedMessageTransportable(p, body);
    case _ =>
  }

  lemma ParsedMessageTransportable(p: PDU, body: bytes)
    requires ShapeOf(p.commandID) == Message
    ensures ParseMessage(p, body).Ok? ==> Transportable(ParseMessage(p, body).value)
    ensures ParseMessage(p, body).Ok? ==> ParseMessage(p, body).value.commandID == p.commandID
  {
    hide ParseAddresses, ParseOptions;
    if ParseMessage(p, body).Ok? {
      ParsedAddresses(p, body);
      var addresses := ParseAddresses(p, body).value;
      ParsedOptions(addresses.value, addresses.rest);
    }
  }

  lemma ParsedAddresses(p: PDU, s: bytes)
    requires ParseAddresses(p, s).Ok?
    ensures var q := ParseAddresses(p, s).value.value;
            && 0 !in q.serviceType && 0 !in q.sourceAddr && 0 !in q.destinationAddr
            && q.commandID == p.commandID
  {
    hide ParseByte;
  }

  lemma ParsedOptions(p: PDU, s: bytes)
    requires ParseOptions(p, s).Ok?
    ensures var q := ParseOptions(p, s).value.value;
            && 0 !in q.scheduleDeliveryTime && 0 !in q.validityPeriod
            && q.serviceType == p.serviceType && q.sourceAddr == p.sourceAddr
            && q.destinationAddr == p.destinationAddr && q.commandID == p.commandID
  {
    hide ParseByte;
  }

  /** A PDU comes back as its canonical form exactly when it is transportable. */
  lemma PDURoundTrip(p: PDU, rest: bytes)
    requires Encodable(p)
    ensures ParsePDU(FrameBytes(p) + rest) == Ok(Parsed(Canonical(p), rest)) <==> Transportable(p)
  {
    hide FrameBytes, BodyBytes, ParseBody, HeaderOf;
    HeaderRoundTrip(p, rest);
    var body := BodyBytes(p);
    var q := Blank(HEADER_LENGTH + |body|, p.commandID, p.commandStatus, p.sequenceNumber);
    assert (body + rest)[..|body|] == body && (body + rest)[|body|..] == rest;
    ParsedTransportable(q, body);
    CanonicalTransportable(p);
    if Transportable(p) {
      BodyRoundTrip(q, p);
    }
  }

  lemma CanonicalTransportable(p: PDU)
    requires Encodable(p)
    ensures Transportable(Canonical(p)) <==> Transportable(p)
    ensures Canonical(p).commandLength == |FrameBytes(p)|
    ensures Canonical(p).shortMessage == if ShapeOf(p.commandID) == Message then p.shortMessage else []
  {
    hide BodyBytes;
  }

  // ------------------------------------------------------------------ streams

  /** Every PDU of a stream, in order. */
  function ParseStream(s: bytes): Result<seq<PDU>>
    decreases |s|
  {
    if s == [] then Ok([])
    else
      var p :- ParsePDU(s);
      var more :- ParseStream(p.rest);
      Ok([p.value] + more)
  }

  function StreamBytes(pdus: seq<PDU>): bytes {
    if pdus == [] then [] else FrameBytes(pdus[0]) + StreamBytes(pdus[1..])
  }

  function Canonicals(pdus: seq<PDU>): seq<PDU>
    requires forall p | p in pdus :: Encodable(p)
  {
    seq(|pdus|, i requires 0 <= i < |pdus| => Canonical(pdus[i]))
  }

  /** Concatenated encodings decode back to the list. */
  lemma {:induction false} StreamRoundTrip(pdus: seq<PDU>)
    requires forall p | p in pdus :: Encodable(p) && Transportable(p)
    ensures ParseStream(StreamBytes(pdus)) == Ok(Canonicals(pdus))
  {
    hide FrameBytes, ParsePDU, Canonical, Encodable, Transportable;
    if pdus != [] {
      PDURoundTrip(pdus[0], StreamBytes(pdus[1..]));
      CanonicalTransportable(pdus[0]);
      FrameNotEmpty(pdus[0]);
      StreamRoundTrip(pdus[1..]);
      assert Canonicals(pdus) == [Canonical(pdus[0])] + Canonicals(pdus[1..]);
    }
  }

  lemma FrameNotEmpty(p: PDU)
    ensures FrameBytes(p) != []
  {
  }

  /** Decoding takes exactly the announced number of bytes off the stream. */
  lemma DecodeConsumesLength(s: bytes)
    ensures ParsePDU(s).Ok? ==>
            var p := ParsePDU(s).value;
            |s| - |p.rest| == p.value.commandLength && s[p.value.commandLength..] == p.rest
  {
    hide ParseBind, ParseAddresses, ParseOptions, ParseCString, Field32;
    if ParsePDU(s).Ok? {
      var header := ParseN(s, HEADER_LENGTH).value;
      var q := HeaderOf(header.value);
      var body := ParseN(header.rest, q.commandLength - HEADER_LENGTH).value;
      KeepsLength(q, body.value);
      assert s[16..][q.commandLength - 16..] == s[q.commandLength..];
    }
  }

  lemma KeepsLength(p: PDU, body: bytes)
    ensures ParseBody(p, body).Ok? ==> ParseBody(p, body).value.commandLength == p.commandLength
  {
    hide ParseByte, ParseCString, ParseN;
  }

  /** A list of PDUs decodes back from its concatenation exactly when each of them is transportable. */
  lemma {:induction false} StreamExact(pdus: seq<PDU>)
    requires forall p | p in pdus :: Encodable(p)
    ensures ParseStream(StreamBytes(pdus)) == Ok(Canonicals(pdus)) <==> forall p | p in pdus :: Transportable(p)
  {
    hide FrameBytes, ParsePDU, Canonical, Encodable, Transportable;
    if forall p | p in pdus :: Transportable(p) {
      StreamRoundTrip(pdus);
    } else {
      var s, rest := StreamBytes(pdus), StreamBytes(pdus[1..]);
      PDURoundTrip(pdus[0], rest);
      CanonicalTransportable(pdus[0]);
      DecodeConsumesLength(s);
      FrameNotEmpty(pdus[0]);
      StreamExact(pdus[1..]);
      assert s[|FrameBytes(pdus[0])|..] == rest;
      assert Canonicals(pdus)[0] == Canonical(pdus[0]) && Canonicals(pdus)[1..] == Canonicals(pdus[1..]);
      FirstOfStream(s, Canonicals(pdus));
    }
  }

  lemma FirstOfStream(s: bytes, pdus: seq<PDU>)
    requires s != [] && pdus != []
    ensures ParseStream(s) == Ok(pdus) ==>
              && ParsePDU(s).Ok? && ParsePDU(s).value.value == pdus[0]
              && ParseStream(ParsePDU(s).value.rest) == Ok(pdus[1..])
  {
    hide ParsePDU;
    if ParseStream(s) == Ok(pdus) {
      var first := ParsePDU(s).value;
      assert pdus == [first.value] + ParseStream(first.rest).value;
    }
  }
}
