/**
 The SMPP v3.4 wire format: internal/smpp/codec.go. A 16-byte header with the
 command length, then the body of the command.
 */
module SmppCodec {
  import opened Bytes
  import opened Reader

  type uint32 = v: nat | v < 0x1_0000_0000

  const HEADER_LENGTH: nat := 16
  const MAX_COMMAND_LENGTH: nat := 0x100_0000

  datatype PDU = PDU(
    commandLength: uint32,
    commandID: uint32,
    commandStatus: uint32,
    sequenceNumber: uint32,
    systemID: text,
    password: text,
    systemType: text,
    interfaceVersion: byte,
    addrTON: byte,
    addrNPI: byte,
    addressRange: text,
    serviceType: text,
    sourceAddrTON: byte,
    sourceAddrNPI: byte,
    sourceAddr: text,
    destAddrTON: byte,
    destAddrNPI: byte,
    destinationAddr: text,
    esmClass: byte,
    protocolID: byte,
    priorityFlag: byte,
    scheduleDeliveryTime: text,
    validityPeriod: text,
    registeredDelivery: byte,
    replaceIfPresentFlag: byte,
    dataCoding: byte,
    smDefaultMsgID: byte,
    smLength: byte,
    shortMessage: bytes,
    messageID: text)

  /** A PDU with a header and nothing else set. */
  function Blank(commandLength: uint32, commandID: uint32, commandStatus: uint32, sequenceNumber: uint32): PDU {
    PDU(commandLength, commandID, commandStatus, sequenceNumber,
        [], [], [], 0, 0, 0, [],
        [], 0, 0, [], 0, 0, [], 0, 0, 0, [], [], 0, 0, 0, 0, 0, [], [])
  }

  const CMD_SUBMIT_SM: uint32 := 0x0000_0004
  const CMD_DELIVER_SM: uint32 := 0x0000_0005
  const CMD_UNBIND: uint32 := 0x0000_0006
  const CMD_ENQUIRE_LINK: uint32 := 0x0000_0015

  datatype Shape = Bind | BindResp | Message | MessageResp | Bare | Unsupported

  function ShapeOf(commandID: uint32): Shape {
    match commandID
    case 0x0000_0001 => Bind             // bind_receiver
    case 0x0000_0002 => Bind             // bind_transmitter
    case 0x0000_0009 => Bind             // bind_transceiver
    case 0x8000_0001 => BindResp
    case 0x8000_0002 => BindResp
    case 0x8000_0009 => BindResp
    case 0x0000_0004 => Message          // submit_sm
    case 0x0000_0005 => Message          // deliver_sm
    case 0x8000_0004 => MessageResp
    case 0x8000_0005 => MessageResp
    case 0x0000_0006 => Bare             // unbind
    case 0x8000_0006 => Bare
    case 0x0000_0015 => Bare             // enquire_link
    case 0x8000_0015 => Bare
    case 0x8000_0000 => Bare             // generic_nack
    case _ => Unsupported
  }

  // --------------------------------------------------------------- encoding

  function CString(s: text): bytes {
    s + [0]
  }

  function AddressChunks(p: PDU): seq<bytes> {
    [CString(p.serviceType), [p.sourceAddrTON], [p.sourceAddrNPI], CString(p.sourceAddr),
     [p.destAddrTON], [p.destAddrNPI], CString(p.destinationAddr)]
  }

  function OptionChunks(p: PDU): seq<bytes> {
    [[p.esmClass], [p.protocolID], [p.priorityFlag],
     CString(p.scheduleDeliveryTime), CString(p.validityPeriod),
     [p.registeredDelivery], [p.replaceIfPresentFlag], [p.dataCoding], [p.smDefaultMsgID]]
  }

  /** The fields of a body, in the order they are written. */
  function Chunks(p: PDU): seq<bytes> {
    match ShapeOf(p.commandID)
    case Bind =>
      [CString(p.systemID), CString(p.password), CString(p.systemType),
       [p.interfaceVersion], [p.addrTON], [p.addrNPI], CString(p.addressRange)]
    case BindResp => [CString(p.systemID)]
    case Message => AddressChunks(p) + OptionChunks(p) + [[|p.shortMessage| % 256], p.shortMessage]
    case MessageResp => [CString(p.messageID)]
    case Bare => []
    case Unsupported => []
  }

  function BodyBytes(p: PDU): bytes {
    Flatten(Chunks(p))
  }

  function FrameBytes(p: PDU): bytes {
    FixedBE(HEADER_LENGTH + |BodyBytes(p)|, 4) + FixedBE(p.commandID, 4)
    + FixedBE(p.commandStatus, 4) + FixedBE(p.sequenceNumber, 4) + BodyBytes(p)
  }

  predicate Encodable(p: PDU) {
    ShapeOf(p.commandID) != Unsupported && |BodyBytes(p)| <= MAX_COMMAND_LENGTH - HEADER_LENGTH
  }

  /** The PDU with the lengths the encoder fills in; nothing else changes. */
  function Completed(p: PDU): PDU
    requires Encodable(p)
  {
    p.(commandLength := HEADER_LENGTH + |BodyBytes(p)|,
       smLength := if ShapeOf(p.commandID) == Message then |p.shortMessage| % 256 else p.smLength)
  }

  /** bytes.Buffer; `chunks` remembers what was written. */
  class Buffer {
    var data: bytes
    ghost var chunks: seq<bytes>

    ghost predicate Valid()
      reads this
    {
      data == Flatten(chunks)
    }

    constructor ()
      ensures Valid() && chunks == []
    {
      data := [];
      chunks := [];
    }

    method Write(b: bytes)
      requires Valid()
      modifies this
      ensures Valid() && chunks == old(chunks) + [b]
    {
      FlattenSnoc(chunks, b);
      data := data + b;
      chunks := chunks + [b];
    }

    method WriteByte(b: byte)
      requires Valid()
      modifies this
      ensures Valid() && chunks == old(chunks) + [[b]]
    {
      Write([b]);
    }

    method WriteCString(s: text)
      requires Valid()
      modifies this
      ensures Valid() && chunks == old(chunks) + [CString(s)]
    {
      Write(CString(s));
    }
  }

  method WriteAddresses(buf: Buffer, p: PDU)
    requires buf.Valid()
    modifies buf
    ensures buf.Valid() && buf.chunks == old(buf.chunks) + AddressChunks(p)
  {
    hide Flatten, CString;
    buf.WriteCString(p.serviceType);
    buf.WriteByte(p.sourceAddrTON);
    buf.WriteByte(p.sourceAddrNPI);
    buf.WriteCString(p.sourceAddr);
    buf.WriteByte(p.destAddrTON);
    buf.WriteByte(p.destAddrNPI);
    buf.WriteCString(p.destinationAddr);
  }

  method WriteOptions(buf: Buffer, p: PDU)
    requires buf.Valid()
    modifies buf
    ensures buf.Valid() && buf.chunks == old(buf.chunks) + OptionChunks(p)
  {
    hide Flatten, CString;
    buf.WriteByte(p.esmClass);
    buf.WriteByte(p.protocolID);
    buf.WriteByte(p.priorityFlag);
    buf.WriteCString(p.scheduleDeliveryTime);
    buf.WriteCString(p.validityPeriod);
    buf.WriteByte(p.registeredDelivery);
    buf.WriteByte(p.replaceIfPresentFlag);
    buf.WriteByte(p.dataCoding);
    buf.WriteByte(p.smDefaultMsgID);
  }

  method EncodeBody(p: PDU) returns (r: Result<(bytes, PDU)>)
    ensures ShapeOf(p.commandID) == Unsupported ==> r == Err(UnsupportedCommand)
    ensures ShapeOf(p.commandID) != Unsupported ==>
              r == Ok((BodyBytes(p),
                       if ShapeOf(p.commandID) == Message then p.(smLength := |p.shortMessage| % 256) else p))
  {
    hide Flatten, CString, AddressChunks, OptionChunks;
    var buf := new Buffer();
    var pdu := p;
    match ShapeOf(p.commandID) {
      case Bind =>
        buf.WriteCString(p.systemID);
        buf.WriteCString(p.password);
        buf.WriteCString(p.systemType);
        buf.WriteByte(p.interfaceVersion);
        buf.WriteByte(p.addrTON);
        buf.WriteByte(p.addrNPI);
        buf.WriteCString(p.addressRange);
      case BindResp =>
        buf.WriteCString(p.systemID);
      case Message =>
        WriteAddresses(buf, p);
        WriteOptions(buf, p);
        pdu := pdu.(smLength := |p.shortMessage| % 256);
        buf.WriteByte(pdu.smLength);
        buf.Write(p.shortMessage);
      case MessageResp =>
        buf.WriteCString(p.messageID);
      case Bare =>
      case Unsupported =>
        return Err(UnsupportedCommand);
    }
    assert buf.chunks == Chunks(p);
    r := Ok((buf.data, pdu));
  }

  /** The bytes, and the PDU with the lengths the encoder fills in. */
  method Encode(p: PDU) returns (r: Result<(bytes, PDU)>)
    ensures r.Ok? <==> Encodable(p)
    ensures r.Ok? ==> r.value.0 == FrameBytes(p) && r.value.1 == Completed(p)
    ensures r.Err? ==> r.error == if ShapeOf(p.commandID) == Unsupported then UnsupportedCommand else TooLarge
  {
    var body := EncodeBody(p);
    if body.Err? {
      return Err(body.error);
    }
    var (data, pdu) := body.value;
    if |data| > MAX_COMMAND_LENGTH - HEADER_LENGTH {
      return Err(TooLarge);
    }
    pdu := pdu.(commandLength := HEADER_LENGTH + |data|);
    var out := FixedBE(pdu.commandLength, 4) + FixedBE(pdu.commandID, 4)
               + FixedBE(pdu.commandStatus, 4) + FixedBE(pdu.sequenceNumber, 4);
    r := Ok((out + data, pdu));
  }

  // --------------------------------------------------------------- decoding

  function ParseCString(s: bytes): Result<Parsed<text>> {
    var i := IndexByte(s, 0);
    if i < 0 then Err(Eof) else Ok(Parsed(s[..i], s[i + 1..]))
  }

  method ReadCString(r: ByteReader) returns (out: Result<text>)
    requires r.Valid()
    modifies r`pos
    ensures r.Valid() && r.Yields(ParseCString(old(r.Rest())), out)
  {
    hide ParseCString;
    var acc: text := [];
    ghost var s := r.Rest();
    while true
      invariant r.Valid()
      invariant s == acc + r.Rest() && 0 !in acc
      decreases |r.Rest()|
    {
      ghost var rest := r.Rest();
      var b := r.ReadByte();
      if b.Err? {
        CStringMissing(acc);
        assert acc + [] == acc;
        return Err(b.error);
      }
      assert rest == [b.value] + r.Rest();
      if b.value == 0 {
        CStringPrefix(acc, r.Rest());
        return Ok(acc);
      }
      ConcatAssociative(acc, [b.value], r.Rest());
      acc := acc + [b.value];
    }
  }

  lemma CStringMissing(s: bytes)
    requires 0 !in s
    ensures ParseCString(s) == Err(Eof)
  {
  }

  lemma CStringPrefix(x: text, rest: bytes)
    requires 0 !in x
    ensures ParseCString(x + ([0] + rest)) == Ok(Parsed(x, rest))
  {
    ParseUntilNullOf(x, rest);
    ConcatAssociative(x, [0], rest);
    var s := x + ([0] + rest);
    var i := IndexByte(s, 0);
    assert s[..i + 1] == x + [0];
    assert s[..i] == s[..i + 1][..i];
  }

  function ParseBind(p: PDU, s: bytes): Result<PDU> {
    var systemID :- ParseCString(s);
    var password :- ParseCString(systemID.rest);
    var systemType :- ParseCString(password.rest);
    var version :- ParseByte(systemType.rest);
    var ton :- ParseByte(version.rest);
    var npi :- ParseByte(ton.rest);
    var range :- ParseCString(npi.rest);
    Ok(p.(systemID := systemID.value, password := password.value, systemType := systemType.value,
          interfaceVersion := version.value, addrTON := ton.value, addrNPI := npi.value, addressRange := range.value))
  }

  function ParseAddresses(p: PDU, s: bytes): Result<Parsed<PDU>> {
    var serviceType :- ParseCString(s);
    var sourceTON :- ParseByte(serviceType.rest);
    var sourceNPI :- ParseByte(sourceTON.rest);
    var source :- ParseCString(sourceNPI.rest);
    var destTON :- ParseByte(source.rest);
    var destNPI :- ParseByte(destTON.rest);
    var dest :- ParseCString(destNPI.rest);
    Ok(Parsed(p.(serviceType := serviceType.value,
                 sourceAddrTON := sourceTON.value, sourceAddrNPI := sourceNPI.value, sourceAddr := source.value,
                 destAddrTON := destTON.value, destAddrNPI := destNPI.value, destinationAddr := dest.value),
              dest.rest))
  }

  function ParseOptions(p: PDU, s: bytes): Result<Parsed<PDU>> {
    var esmClass :- ParseByte(s);
    var protocolID :- ParseByte(esmClass.rest);
    var priority :- ParseByte(protocolID.rest);
    var schedule :- ParseCString(priority.rest);
    var validity :- ParseCString(schedule.rest);
    var registered :- ParseByte(validity.rest);
    var replace :- ParseByte(registered.rest);
    var coding :- ParseByte(replace.rest);
    var defaultID :- ParseByte(coding.rest);
    Ok(Parsed(p.(esmClass := esmClass.value, protocolID := protocolID.value, priorityFlag := priority.value,
                 scheduleDeliveryTime := schedule.value, validityPeriod := validity.value,
                 registeredDelivery := registered.value, replaceIfPresentFlag := replace.value,
                 dataCoding := coding.value, smDefaultMsgID := defaultID.value),
              defaultID.rest))
  }

  function ParseMessage(p: PDU, s: bytes): Result<PDU> {
    var addresses :- ParseAddresses(p, s);
    var options :- ParseOptions(addresses.value, addresses.rest);
    var length :- ParseByte(options.rest);
    var message :- ParseN(length.rest, length.value);
    Ok(options.value.(smLength := length.value, shortMessage := message.value))
  }

  /** Bytes after the last field are ignored; a response may lack its message ID. */
  function ParseBody(p: PDU, body: bytes): Result<PDU> {
    match ShapeOf(p.commandID)
    case Bind => ParseBind(p, body)
    case BindResp =>
      var systemID :- ParseCString(body);
      Ok(p.(systemID := systemID.value))
    case Message => ParseMessage(p, body)
    case MessageResp =>
      (match ParseCString(body)
       case Ok(id) => Ok(p.(messageID := id.value))
       case Err(_) => Ok(p))
    case Bare => Ok(p)
    case Unsupported => Err(UnsupportedCommand)
  }

  function Field32(s: bytes, i: nat): (v: uint32)
    requires i + 4 <= |s|
  {
    FromBEBound(s[i..i + 4]);
    Pow256Of4();
    FromBE(s[i..i + 4])
  }

  lemma Pow256Of4()
    ensures Pow256(4) == 0x1_0000_0000
  {
    assert Pow256(4) == 256 * (256 * (256 * (256 * Pow256(0))));
  }

  function HeaderOf(header: bytes): PDU
    requires |header| == HEADER_LENGTH
  {
    Blank(Field32(header, 0), Field32(header, 4), Field32(header, 8), Field32(header, 12))
  }

  /** One PDU off the front of a stream. */
  function ParsePDU(s: bytes): (r: Result<Parsed<PDU>>)
    ensures r.Ok? ==> |r.value.rest| < |s|
  {
    var header :- ParseN(s, HEADER_LENGTH);
    var p := HeaderOf(header.value);
    if p.commandLength < HEADER_LENGTH then Err(InvalidLength)
    else if p.commandLength > MAX_COMMAND_LENGTH then Err(TooLarge)
    else
      var body :- ParseN(header.rest, p.commandLength - HEADER_LENGTH);
      var pdu :- ParseBody(p, body.value);
      Ok(Parsed(pdu, body.rest))
  }

  // ------------------------------------------------------ decoding, in place

  method ReadBind(r: ByteReader, p: PDU) returns (out: Result<PDU>)
    requires r.Valid()
    modifies r`pos
    ensures r.Valid() && out == ParseBind(p, old(r.Rest()))
  {
    hide ParseCString, ParseByte;
    var systemID := ReadCString(r);
    if systemID.Err? { return Err(systemID.error); }
    var password := ReadCString(r);
    if password.Err? { return Err(password.error); }
    var systemType := ReadCString(r);
    if systemType.Err? { return Err(systemType.error); }
    var version := r.ReadByte();
    if version.Err? { return Err(version.error); }
    var ton := r.ReadByte();
    if ton.Err? { return Err(ton.error); }
    var npi := r.ReadByte();
    if npi.Err? { return Err(npi.error); }
    var range := ReadCString(r);
    if range.Err? { return Err(range.error); }
    out := Ok(p.(systemID := systemID.value, password := password.value, systemType := systemType.value,
                 interfaceVersion := version.value, addrTON := ton.value, addrNPI := npi.value,
                 addressRange := range.value));
  }

  method ReadAddresses(r: ByteReader, p: PDU) returns (out: Result<PDU>)
    requires r.Valid()
    modifies r`pos
    ensures r.Valid() && r.Yields(ParseAddresses(p, old(r.Rest())), out)
  {
    hide ParseCString, ParseByte;
    var serviceType := ReadCString(r);
    if serviceType.Err? { return Err(serviceType.error); }
    var sourceTON := r.ReadByte();
    if sourceTON.Err? { return Err(sourceTON.error); }
    var sourceNPI := r.ReadByte();
    if sourceNPI.Err? { return Err(sourceNPI.error); }
    var source := ReadCString(r);
    if source.Err? { return Err(source.error); }
    var destTON := r.ReadByte();
    if destTON.Err? { return Err(destTON.error); }
    var destNPI := r.ReadByte();
    if destNPI.Err? { return Err(destNPI.error); }
    var dest := ReadCString(r);
    if dest.Err? { return Err(dest.error); }
    out := Ok(p.(serviceType := serviceType.value,
                 sourceAddrTON := sourceTON.value, sourceAddrNPI := sourceNPI.value, sourceAddr := source.value,
                 destAddrTON := destTON.value, destAddrNPI := destNPI.value, destinationAddr := dest.value));
  }

  method ReadOptions(r: ByteReader, p: PDU) returns (out: Result<PDU>)
    requires r.Valid()
    modifies r`pos
    ensures r.Valid() && r.Yields(ParseOptions(p, old(r.Rest())), out)
  {
    hide ParseCString, ParseByte;
    var esmClass := r.ReadByte();
    if esmClass.Err? { return Err(esmClass.error); }
    var protocolID := r.ReadByte();
    if protocolID.Err? { return Err(protocolID.error); }
    var priority := r.ReadByte();
    if priority.Err? { return Err(priority.error); }
    var schedule := ReadCString(r);
    if schedule.Err? { return Err(schedule.error); }
    var validity := ReadCString(r);
    if validity.Err? { return Err(validity.error); }
    var registered := r.ReadByte();
    if registered.Err? { return Err(registered.error); }
    var replace := r.ReadByte();
    if replace.Err? { return Err(replace.error); }
    var coding := r.ReadByte();
    if coding.Err? { return Err(coding.error); }
    var defaultID := r.ReadByte();
    if defaultID.Err? { return Err(defaultID.error); }
    out := Ok(p.(esmClass := esmClass.value, protocolID := protocolID.value, priorityFlag := priority.value,
                 scheduleDeliveryTime := schedule.value, validityPeriod := validity.value,
                 registeredDelivery := registered.value, replaceIfPresentFlag := replace.value,
                 dataCoding := coding.value, smDefaultMsgID := defaultID.value));
  }

  method DecodeBody(p: PDU, body: bytes) returns (out: Result<PDU>)
    ensures out == ParseBody(p, body)
  {
    hide ParseCString, ParseByte, ParseAddresses, ParseOptions, ParseBind, ParseN;
    var r := new ByteReader(body);
    match ShapeOf(p.commandID) {
      case Bind =>
        out := ReadBind(r, p);
      case BindResp =>
        var systemID := ReadCString(r);
        out := if systemID.Err? then Err(systemID.error) else Ok(p.(systemID := systemID.value));
      case Message =>
        var addresses := ReadAddresses(r, p);
        if addresses.Err? { return Err(addresses.error); }
        var options := ReadOptions(r, addresses.value);
        if options.Err? { return Err(options.error); }
        var length := r.ReadByte();
        if length.Err? { return Err(length.error); }
        var message := r.ReadN(length.value);
        if message.Err? { return Err(message.error); }
        out := Ok(options.value.(smLength := length.value, shortMessage := message.value));
      case MessageResp =>
        var id := ReadCString(r);
        out := Ok(if id.Ok? then p.(messageID := id.value) else p);
      case Bare =>
        out := Ok(p);
      case Unsupported =>
        out := Err(UnsupportedCommand);
    }
  }

  /** Reads one PDU off a connection. */
  method Decode(r: ByteReader) returns (out: Result<PDU>)
    requires r.Valid()
    modifies r`pos
    ensures r.Valid() && r.Yields(ParsePDU(old(r.Rest())), out)
  {
    hide ParseBody, Field32;
    var header := r.ReadN(HEADER_LENGTH);
    if header.Err? {
      return Err(header.error);
    }
    var pdu := HeaderOf(header.value);
    if pdu.commandLength < HEADER_LENGTH {
      return Err(InvalidLength);
    }
    if pdu.commandLength > MAX_COMMAND_LENGTH {
      return Err(TooLarge);
    }
    var body := r.ReadN(pdu.commandLength - HEADER_LENGTH);
    if body.Err? {
      return Err(body.error);
    }
    out := DecodeBody(pdu, body.value);
  }
}
