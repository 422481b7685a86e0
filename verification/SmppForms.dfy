/**
 The SMPP frames byte by byte, command by command, and what is made of frames
 that no encoder here would write (internal/smpp/codec.go).
 */
module SmppForms {
  import opened Bytes
  import opened Reader
  import opened SmppCodec
  import opened SmppLaws

  // --------------------------------------------------------------------- frames

  /**
   A frame is read by its four header numbers: one that announces less than its header or more than
   16 MiB is refused, one that is not all there is cut short, and what stands behind it is left.
   */
  lemma FrameMeans(length: uint32, commandID: uint32, status: uint32, sequence: uint32, tail: bytes)
    ensures ParsePDU(FixedBE(length, 4) + FixedBE(commandID, 4) + FixedBE(status, 4) + FixedBE(sequence, 4) + tail) ==
            if length < 16 then Err(InvalidLength)
            else if length > 0x100_0000 then Err(TooLarge)
            else if |tail| < length - 16 then Err(Eof)
            else match ParseBody(Blank(length, commandID, status, sequence), tail[..length - 16])
              case Err(e) => Err(e)
              case Ok(p) => Ok(Parsed(p, tail[length - 16..]))
  {
    hide ParseBody, FixedBE, FromBE;
    var a, b, c, d := FixedBE(length, 4), FixedBE(commandID, 4), FixedBE(status, 4), FixedBE(sequence, 4);
    HeaderFields(a, b, c, d, tail, []);
    assert a + b + c + d + tail + [] == a + b + c + d + tail && tail + [] == tail;
    Pow256Of4();
    FixedBERoundTrip(length, 4);
    FixedBERoundTrip(commandID, 4);
    FixedBERoundTrip(status, 4);
    FixedBERoundTrip(sequence, 4);
  }

  lemma ShortFrame(s: bytes)
    requires |s| < 16
    ensures ParsePDU(s) == Err(Eof)
  {
  }

  /** A frame is its length with the header, command, status and number in four bytes each, and its body. */
  lemma FrameWritten(p: PDU)
    ensures FrameBytes(p) ==
            FixedBE(16 + |BodyBytes(p)|, 4) + FixedBE(p.commandID, 4) + FixedBE(p.commandStatus, 4)
            + FixedBE(p.sequenceNumber, 4) + BodyBytes(p)
    ensures Encodable(p) <==>
            && p.commandID in {0x01, 0x02, 0x09, 0x8000_0001, 0x8000_0002, 0x8000_0009, 0x04, 0x05, 0x8000_0004,
                               0x8000_0005, 0x06, 0x8000_0006, 0x15, 0x8000_0015, 0x8000_0000}
            && |FrameBytes(p)| <= 0x100_0000
  {
    hide BodyBytes, FixedBE;
  }

  // ------------------------------------------------------------------- commands

  /** submit_sm and deliver_sm: service type, the two addresses with their types, the options and the message. */
  lemma MessageWritten(p: PDU)
    requires p.commandID in {0x04, 0x05}
    ensures BodyBytes(p) ==
            (p.serviceType + [0]) + ([p.sourceAddrTON] + ([p.sourceAddrNPI] + ((p.sourceAddr + [0])
            + ([p.destAddrTON] + ([p.destAddrNPI] + ((p.destinationAddr + [0])
            + ([p.esmClass] + ([p.protocolID] + ([p.priorityFlag] + ((p.scheduleDeliveryTime + [0])
            + ((p.validityPeriod + [0]) + ([p.registeredDelivery] + ([p.replaceIfPresentFlag] + ([p.dataCoding]
            + ([p.smDefaultMsgID] + ([|p.shortMessage| % 256] + p.shortMessage))))))))))))))))
  {
    hide Flatten, AddressChunks, OptionChunks;
    var a, o := AddressChunks(p), OptionChunks(p);
    var last: seq<bytes> := [[|p.shortMessage| % 256], p.shortMessage];
    var tail := [|p.shortMessage| % 256] + p.shortMessage;
    FlattenAppend(a + o, last);
    FlattenAppend(a, o);
    FlattenTwo([|p.shortMessage| % 256], p.shortMessage);
    ConcatAssociative(Flatten(a), Flatten(o), tail);
    AddressesWritten(p, Flatten(o) + tail);
    OptionsWritten(p, tail);
  }

  lemma AddressesWritten(p: PDU, rest: bytes)
    ensures Flatten(AddressChunks(p)) + rest ==
            (p.serviceType + [0]) + ([p.sourceAddrTON] + ([p.sourceAddrNPI] + ((p.sourceAddr + [0])
            + ([p.destAddrTON] + ([p.destAddrNPI] + ((p.destinationAddr + [0]) + rest))))))
  {
    hide Flatten;
    var c := AddressChunks(p);
    LastChunk(c, rest);
    NextChunk(c, 0, rest); NextChunk(c, 1, rest); NextChunk(c, 2, rest); NextChunk(c, 3, rest);
    NextChunk(c, 4, rest); NextChunk(c, 5, rest); NextChunk(c, 6, rest);
  }

  lemma OptionsWritten(p: PDU, rest: bytes)
    ensures Flatten(OptionChunks(p)) + rest ==
            [p.esmClass] + ([p.protocolID] + ([p.priorityFlag] + ((p.scheduleDeliveryTime + [0])
            + ((p.validityPeriod + [0]) + ([p.registeredDelivery] + ([p.replaceIfPresentFlag] + ([p.dataCoding]
            + ([p.smDefaultMsgID] + rest))))))))
  {
    hide Flatten;
    var c := OptionChunks(p);
    LastChunk(c, rest);
    NextChunk(c, 0, rest); NextChunk(c, 1, rest); NextChunk(c, 2, rest); NextChunk(c, 3, rest); NextChunk(c, 4, rest);
    NextChunk(c, 5, rest); NextChunk(c, 6, rest); NextChunk(c, 7, rest); NextChunk(c, 8, rest);
  }

  /** The three binds: who, with what password, as what system, and for which addresses. */
  lemma BindWritten(p: PDU)
    requires p.commandID in {0x01, 0x02, 0x09}
    ensures BodyBytes(p) ==
            (p.systemID + [0]) + ((p.password + [0]) + ((p.systemType + [0]) + ([p.interfaceVersion]
            + ([p.addrTON] + ([p.addrNPI] + ((p.addressRange + [0]) + []))))))
  {
    hide Flatten;
    var c := Chunks(p);
    LastChunk(c, []);
    assert BodyBytes(p) + [] == BodyBytes(p);
    NextChunk(c, 0, []); NextChunk(c, 1, []); NextChunk(c, 2, []); NextChunk(c, 3, []);
    NextChunk(c, 4, []); NextChunk(c, 5, []); NextChunk(c, 6, []);
  }

  /** The responses to binds name the system, and those to messages the message, which they may also leave out. */
  lemma ResponsesMean(p: PDU, q: PDU, x: text, extra: bytes)
    requires 0 !in x
    ensures p.commandID in {0x8000_0001, 0x8000_0002, 0x8000_0009} ==> BodyBytes(p) == p.systemID + [0]
    ensures p.commandID in {0x8000_0004, 0x8000_0005} ==> BodyBytes(p) == p.messageID + [0]
    ensures q.commandID in {0x8000_0001, 0x8000_0002, 0x8000_0009} ==>
              && ParseBody(q, x + [0] + extra) == Ok(q.(systemID := x))
              && ParseBody(q, x) == Err(Eof)
    ensures q.commandID in {0x8000_0004, 0x8000_0005} ==>
              && ParseBody(q, x + [0] + extra) == Ok(q.(messageID := x))
              && ParseBody(q, x) == Ok(q)
  {
    FlattenOne(CString(p.systemID));
    FlattenOne(CString(p.messageID));
    CStringParses(x, extra);
    CStringMissing(x);
    hide Flatten, ParseCString;
  }

  /** unbind, enquire_link, their responses and generic_nack are headers alone; any other command is refused. */
  lemma HeadersAlone(p: PDU, body: bytes)
    ensures p.commandID in {0x06, 0x15, 0x8000_0006, 0x8000_0015, 0x8000_0000} ==>
              BodyBytes(p) == [] && ParseBody(p, body) == Ok(p)
    ensures p.commandID !in {0x01, 0x02, 0x09, 0x8000_0001, 0x8000_0002, 0x8000_0009, 0x04, 0x05, 0x8000_0004,
                             0x8000_0005, 0x06, 0x8000_0006, 0x15, 0x8000_0015, 0x8000_0000} ==>
              ParseBody(p, body) == Err(UnsupportedCommand)
  {
  }

  predicate OnlyHeader(p: PDU) {
    && p.systemID == [] && p.password == [] && p.systemType == [] && p.addressRange == []
    && p.interfaceVersion == 0 && p.addrTON == 0 && p.addrNPI == 0
    && p.serviceType == [] && p.sourceAddr == [] && p.destinationAddr == []
    && p.sourceAddrTON == 0 && p.sourceAddrNPI == 0 && p.destAddrTON == 0 && p.destAddrNPI == 0
    && p.esmClass == 0 && p.protocolID == 0 && p.priorityFlag == 0
    && p.scheduleDeliveryTime == [] && p.validityPeriod == []
    && p.registeredDelivery == 0 && p.replaceIfPresentFlag == 0 && p.dataCoding == 0 && p.smDefaultMsgID == 0
    && p.smLength == 0 && p.shortMessage == [] && p.messageID == []
  }

  /** The frame of such a command sets the four header numbers and nothing else. */
  lemma BareFrameMeans(commandID: uint32, status: uint32, sequence: uint32, rest: bytes)
    requires commandID in {0x06, 0x15, 0x8000_0006, 0x8000_0015, 0x8000_0000}
    ensures var r := ParsePDU(FixedBE(16, 4) + FixedBE(commandID, 4) + FixedBE(status, 4) + FixedBE(sequence, 4)
                              + rest);
            && r.Ok? && r.value.rest == rest && OnlyHeader(r.value.value)
            && r.value.value.commandLength == 16 && r.value.value.commandID == commandID
            && r.value.value.commandStatus == status && r.value.value.sequenceNumber == sequence
  {
    hide FixedBE, ParseBody;
    FrameMeans(16, commandID, status, sequence, rest);
    HeadersAlone(Blank(16, commandID, status, sequence), []);
    assert rest[..0] == [] && rest[0..] == rest;
  }

  /** What stands behind the message of a submit_sm or deliver_sm is ignored: its optional parameters. */
  lemma OptionalIgnored(q: PDU, p: PDU, extra: bytes)
    requires q.commandID == p.commandID && p.commandID in {0x04, 0x05} && Transportable(p)
    ensures ParseBody(q, BodyBytes(p) + extra) == ParseBody(q, BodyBytes(p))
    ensures ParseBody(q, BodyBytes(p)).Ok?
  {
    hide Flatten, ParseCString, ParseByte, AddressChunks, OptionChunks, ParseAddresses, ParseOptions;
    var a, o := AddressChunks(p), OptionChunks(p);
    var length: byte := |p.shortMessage|;
    var last: seq<bytes> := [[length], p.shortMessage];
    FlattenAppend(a + o, last);
    FlattenAppend(a, o);
    FlattenTwo([length], p.shortMessage);
    MessageParses(q, p);
    var message := p.shortMessage + extra;
    assert BodyBytes(p) + extra == Flatten(a) + (Flatten(o) + ([length] + message));
    AddressesParse(q, p, Flatten(o) + ([length] + message));
    OptionsParse(ParseAddresses(q, BodyBytes(p) + extra).value.value, p, [length] + message);
    ByteParses(length, message);
    assert message[..length] == p.shortMessage;
  }
}
