/**
 Local delivery: the parts of a message are stored as an encoded m-retrieve-conf
 and later loaded and encoded again for the handset
 (internal/mmspdu/pdu_retrieve.go, internal/mm1/handler_mo.go and handler_mt.go).
 */
module Retrieval {
  import opened Bytes
  import opened Fields
  import opened Sorting
  import opened Headers
  import opened ContentType
  import opened Multipart
  import opened MultipartLaws
  import opened Codec
  import opened CodecLaws
  import Routing

  // -------------------------------------------------------------------- SMIL

  predicate IsSmil(contentType: text) {
    EqualFold(contentType, Ascii("application/smil"))
  }

  /** The parts that are not SMIL, in order. */
  function Media(parts: seq<Part>): seq<Part> {
    if parts == [] then []
    else Media(parts[..|parts| - 1]) +
         if IsSmil(parts[|parts| - 1].contentType) then [] else [parts[|parts| - 1]]
  }

  function Stripped(parts: seq<Part>): seq<Part> {
    if Media(parts) == [] then parts else Media(parts)
  }

  method StripSMILParts(parts: seq<Part>) returns (out: seq<Part>)
    ensures out == Stripped(parts)
  {
    out := [];
    var i := 0;
    while i < |parts|
      invariant 0 <= i <= |parts|
      invariant out == Media(parts[..i])
    {
      assert parts[..i + 1][..i] == parts[..i];
      if !IsSmil(parts[i].contentType) {
        out := out + [parts[i]];
      }
      i := i + 1;
    }
    assert parts[..i] == parts;
    if |out| == 0 {
      return parts;
    }
  }

  lemma {:induction false} MediaMembers(parts: seq<Part>)
    ensures forall p :: p in Media(parts) <==> p in parts && !IsSmil(p.contentType)
  {
    hide IsSmil;
    if parts != [] {
      var init, last := parts[..|parts| - 1], parts[|parts| - 1];
      MediaMembers(init);
      assert parts == init + [last];
    }
  }

  lemma {:induction false} MediaAll(parts: seq<Part>)
    requires forall p | p in parts :: !IsSmil(p.contentType)
    ensures Media(parts) == parts
  {
    hide IsSmil;
    if parts != [] {
      var init, last := parts[..|parts| - 1], parts[|parts| - 1];
      assert parts == init + [last] && last in parts;
      MediaAll(init);
    }
  }

  /**
   Stripping a second time changes nothing. Every media part is kept; SMIL parts, in any letter
   case of their type, stay only when there is nothing else.
   */
  lemma StrippedTwice(parts: seq<Part>)
    ensures Stripped(Stripped(parts)) == Stripped(parts)
    ensures forall p | p in parts ::
              p in Stripped(parts) <==>
              || !EqualFold(p.contentType, Ascii("application/smil"))
              || forall q | q in parts :: EqualFold(q.contentType, Ascii("application/smil"))
    ensures forall p | p in Stripped(parts) :: p in parts
    ensures Stripped(parts) == [] <==> parts == []
  {
    assert forall p: Part | p in parts ::
        IsSmil(p.contentType) <==> EqualFold(p.contentType, Ascii("application/smil"));
    hide IsSmil, Media, EqualFold, Ascii;
    MediaMembers(parts);
    MediaAll(Media(parts));
    assert Media(parts) != [] ==> Media(parts)[0] in Media(parts);
  }

  // --------------------------------------------------------- m-retrieve-conf

  const MSG_TYPE_RETRIEVE_CONF: byte := 0x84

  function Mixed(): text {
    Ascii("application/vnd.wap.multipart.mixed")
  }

  ghost function RetrieveConf(transactionID: text, parts: seq<Part>): PDU {
    PDU(MSG_TYPE_RETRIEVE_CONF, transactionID, Ascii("1.3"),
        map[FIELD_TRANSACTION_ID := NewTextValue(FIELD_TRANSACTION_ID, transactionID),
            FIELD_CONTENT_TYPE := NewContentTypeValue(ContentTypeValue(Mixed(), map[]))],
        [], Some(MultipartBody(Stripped(parts))))
  }

  lemma MixedIsNormal()
    ensures NormalMediaType(Mixed()) == Mixed()
  {
    var s := "application/vnd.wap.multipart.mixed";
    assert forall i | 0 <= i < |s| :: 'a' <= s[i] <= 'z' || s[i] == '/' || s[i] == '.';
    PlainIsNormal(s);
  }

  lemma PlainIsNormal(s: string)
    requires s != [] && forall i | 0 <= i < |s| :: 'a' <= s[i] <= 'z' || s[i] == '/' || s[i] == '.'
    ensures NormalMediaType(Ascii(s)) == Ascii(s)
  {
    var t := Ascii(s);
    assert forall i | 0 <= i < |t| :: t[i] == 0x2E || t[i] == 0x2F || 0x61 <= t[i] <= 0x7A;
    hide Ascii, TrimSpace;
    assert ToLower(t) == t && IsTrimmed(t) && IsValidMediaTypeText(t);
    TrimSpaceShape(t);
  }

  lemma MixedReadable()
    ensures SelfDelimiting(Octets, NewContentTypeValue(ContentTypeValue(Mixed(), map[])).raw)
  {
    var v := ContentTypeValue(Mixed(), map[]);
    MixedIsNormal();
    MixedPayloadShort();
    hide Ascii, ContentTypePayload, ContentTypeBytes, SelfDelimiting, NormalMediaType;
    assert MediaTypeToken(Mixed()).Some?;
    ContentTypeDelimits(v);
  }

  lemma MixedPayloadShort()
    ensures |ContentTypePayload(ContentTypeValue(Mixed(), map[]))| < UINTVAR_BOUND
  {
    MixedIsNormal();
  }

  /** A retrieve confirmation can be read back exactly when its strings are NUL-free and its parts can be framed. */
  lemma RetrieveConfWellFormed(transactionID: text, parts: seq<Part>)
    ensures WellFormedHeaders(MergedHeaders(RetrieveConf(transactionID, parts))) <==> 0 !in transactionID
    ensures WellFormed(RetrieveConf(transactionID, parts)) <==>
            0 !in transactionID && EncodableBody(MultipartBody(Stripped(parts)))
  {
    hide NewTextValue, NewContentTypeValue, EncodableBody, SelfDelimiting, Stripped, EncodeVersion, NewTokenValue,
      NewShortIntegerValue, DecodeShortInteger, Mixed;
    var p := RetrieveConf(transactionID, parts);
    var headers := MergedHeaders(p);
    assert Ascii("1.3") != [];
    NamedKinds();
    MixedReadable();
    TextDelimits(FIELD_TRANSACTION_ID, transactionID);
    TokenDelimits(FIELD_MESSAGE_TYPE, MSG_TYPE_RETRIEVE_CONF);
    TokenDelimits(FIELD_MMS_VERSION, EncodeVersion(Ascii("1.3")));
    VersionDecodes();
    assert WellFormedHeader(FIELD_TRANSACTION_ID, headers[FIELD_TRANSACTION_ID].raw) <==> 0 !in transactionID;
  }

  lemma VersionDecodes()
    ensures DecodeShortInteger(NewShortIntegerValue(FIELD_MMS_VERSION, EncodeVersion(Ascii("1.3"))).raw).Ok?
  {
  }

  // ------------------------------------------------------------ message parts

  /** A part as the message carries it. */
  datatype MessagePart = MessagePart(contentType: text, contentID: text, contentLocation: text, data: bytes, size: int)

  function HeadersFor(m: MessagePart): map<text, text> {
    (if m.contentID != [] then map[ContentId() := m.contentID] else map[])
    + (if m.contentLocation != [] then map[ContentLocation() := m.contentLocation] else map[])
  }

  function ToPDUPart(m: MessagePart): Part {
    Part(HeadersFor(m), m.contentType, map[], m.data)
  }

  function ToPDUParts(parts: seq<MessagePart>): seq<Part> {
    seq(|parts|, i requires 0 <= i < |parts| => ToPDUPart(parts[i]))
  }

  function ToMessagePart(p: Part): MessagePart {
    MessagePart(p.contentType, Lookup(p.headers, ContentId()), Lookup(p.headers, ContentLocation()), p.data, |p.data|)
  }

  function ToMessageParts(parts: seq<Part>): seq<MessagePart> {
    seq(|parts|, i requires 0 <= i < |parts| => ToMessagePart(parts[i]))
  }

  method PartsToPDU(parts: seq<MessagePart>) returns (out: seq<Part>)
    ensures out == ToPDUParts(parts)
  {
    out := [];
    var i := 0;
    while i < |parts|
      invariant 0 <= i <= |parts|
      invariant out == ToPDUParts(parts[..i])
    {
      var headers: map<text, text> := map[];
      if parts[i].contentID != [] {
        headers := headers[ContentId() := parts[i].contentID];
      }
      if parts[i].contentLocation != [] {
        headers := headers[ContentLocation() := parts[i].contentLocation];
      }
      assert headers == HeadersFor(parts[i]);
      out := out + [Part(headers, parts[i].contentType, map[], parts[i].data)];
      i := i + 1;
    }
    assert parts[..i] == parts;
  }

  /** The parts of a received PDU, as the message carries them. */
  method MessagePartsOf(p: PDU) returns (out: seq<MessagePart>)
    ensures out == match p.body case None => [] case Some(body) => ToMessageParts(body.parts)
  {
    out := [];
    if p.body.None? {
      return;
    }
    var parts := p.body.value.parts;
    var i := 0;
    while i < |parts|
      invariant 0 <= i <= |parts|
      invariant out == ToMessageParts(parts[..i])
    {
      var item := MessagePart(parts[i].contentType, [], [], parts[i].data, |parts[i].data|);
      if ContentId() in parts[i].headers {
        item := item.(contentID := parts[i].headers[ContentId()]);
      }
      if ContentLocation() in parts[i].headers {
        item := item.(contentLocation := parts[i].headers[ContentLocation()]);
      }
      out := out + [item];
      i := i + 1;
    }
    assert parts[..i] == parts;
  }

  /** What storing and loading makes of a part: the media type normalised, the content ID in angle brackets. */
  function Restored(m: MessagePart): MessagePart {
    m.(contentType := NormalMediaType(m.contentType),
       contentID := if m.contentID == [] then [] else EnsureAngleBrackets(m.contentID),
       size := |m.data|)
  }

  function AllRestored(parts: seq<MessagePart>): seq<MessagePart> {
    seq(|parts|, i requires 0 <= i < |parts| => Restored(parts[i]))
  }

  /** The parts that are stored: all but SMIL, or all when there is nothing else. */
  function MediaParts(parts: seq<MessagePart>): seq<MessagePart> {
    if parts == [] then []
    else MediaParts(parts[..|parts| - 1]) +
         if IsSmil(parts[|parts| - 1].contentType) then [] else [parts[|parts| - 1]]
  }

  function Surviving(parts: seq<MessagePart>): seq<MessagePart> {
    if MediaParts(parts) == [] then parts else MediaParts(parts)
  }

  lemma {:induction false} MediaCommutes(parts: seq<MessagePart>)
    ensures Media(ToPDUParts(parts)) == ToPDUParts(MediaParts(parts))
  {
    hide IsSmil;
    if parts != [] {
      var init := parts[..|parts| - 1];
      MediaCommutes(init);
      assert ToPDUParts(parts)[..|parts| - 1] == ToPDUParts(init);
    }
  }

  lemma SurvivingCommutes(parts: seq<MessagePart>)
    ensures Stripped(ToPDUParts(parts)) == ToPDUParts(Surviving(parts))
  {
    hide MediaParts, Media;
    MediaCommutes(parts);
  }

  lemma ContentIdLower()
    ensures IsLower(ContentId()) && 0 !in ContentId() && |ContentId()| == 10
  {
    var s := "content-id";
    assert forall i | 0 <= i < |s| :: 'a' <= s[i] <= 'z' || s[i] == '/' || s[i] == '-';
    LowerLiteral(s);
    AsciiHasNoNul(s);
  }

  lemma ContentLocationLower()
    ensures IsLower(ContentLocation()) && 0 !in ContentLocation() && |ContentLocation()| == 16
  {
    var s := "content-location";
    assert forall i | 0 <= i < |s| :: 'a' <= s[i] <= 'z' || s[i] == '/' || s[i] == '-';
    LowerLiteral(s);
    AsciiHasNoNul(s);
  }

  lemma HeaderKeysLower()
    ensures IsLower(ContentId()) && IsLower(ContentLocation()) && ContentId() != ContentLocation()
    ensures ContentId() != [] && ContentLocation() != [] && 0 !in ContentId() && 0 !in ContentLocation()
  {
    hide ContentId, ContentLocation, IsLower;
    ContentIdLower();
    ContentLocationLower();
  }

  /** Normalising the part is restoring the message part. */
  lemma PartRestored(m: MessagePart)
    ensures NormalPart(ToPDUPart(m)) == ToPDUPart(Restored(m))
    ensures ToMessagePart(NormalPart(ToPDUPart(m))) == Restored(m)
    ensures CaseDistinct(HeadersFor(m))
  {
    hide NormalMediaType, EnsureAngleBrackets, ContentId, ContentLocation, Lowered, CaseDistinct;
    HeaderKeysLower();
    LoweredOfLower(HeadersFor(m));
    BracketsNotEmpty(m.contentID);
    assert NormalHeaders(HeadersFor(m)) == HeadersFor(Restored(m));
    assert NormalParams(map[]) == map[];
  }

  lemma BracketsNotEmpty(cid: text)
    ensures EnsureAngleBrackets(cid) != []
  {
  }

  lemma PartsRestored(parts: seq<MessagePart>)
    ensures ToMessageParts(NormalParts(ToPDUParts(parts))) == AllRestored(parts)
    ensures NormalParts(ToPDUParts(parts)) == ToPDUParts(AllRestored(parts))
  {
    hide NormalPart, ToPDUPart, ToMessagePart, Restored;
    forall i | 0 <= i < |parts|
      ensures NormalPart(ToPDUPart(parts[i])) == ToPDUPart(Restored(parts[i]))
      ensures ToMessagePart(NormalPart(ToPDUPart(parts[i]))) == Restored(parts[i])
    {
      PartRestored(parts[i]);
    }
  }

  // ---------------------------------------------------------- store and load

  class ContentStore {
    var contents: map<text, bytes>

    /** Stores under a path the store chooses, or fails. */
    method Put(placed: Result<text>, data: bytes) returns (path: Result<text>)
      modifies this
      ensures path == placed
      ensures contents == if placed.Ok? then old(contents)[placed.value := data] else old(contents)
    {
      if placed.Ok? {
        contents := contents[placed.value := data];
      }
      path := placed;
    }

    method Get(path: text) returns (data: Result<bytes>)
      ensures data == if path in contents then Ok(contents[path]) else Err(NotFound)
    {
      data := if path in contents then Ok(contents[path]) else Err(NotFound);
    }
  }

  class Message {
    const transactionID: text
    var parts: seq<MessagePart>
    var contentPath: text
    var storeID: text
    var messageSize: int

    constructor (transactionID: text, parts: seq<MessagePart>, contentPath: text)
      ensures this.transactionID == transactionID && this.parts == parts && this.contentPath == contentPath
    {
      this.transactionID, this.parts, this.contentPath := transactionID, parts, contentPath;
      storeID, messageSize := [], 0;
    }
  }

  /** What is stored for a message. */
  ghost function StoredBytes(transactionID: text, parts: seq<MessagePart>): Result<bytes> {
    EncodePDU(RetrieveConf(transactionID, ToPDUParts(parts)))
  }

  /** The parts a retrieval works from. */
  ghost function LoadedParts(parts: seq<MessagePart>, contentPath: text,
      contents: map<text, bytes>): Result<seq<Part>>
  {
    if parts != [] then Ok(ToPDUParts(parts))
    else if contentPath == [] then Err(NotFound)
    else if contentPath !in contents then Err(NotFound)
    else
      var pdu :- DecodePDU(contents[contentPath]);
      if pdu.body.None? || pdu.body.value.parts == [] then Err(NotFound) else Ok(pdu.body.value.parts)
  }

  method NewRetrieveConf(transactionID: text, parts: seq<Part>) returns (p: PDU)
    ensures p == RetrieveConf(transactionID, parts)
  {
    var delivery := StripSMILParts(parts);
    var contentType := EncodeContentTypeValue(ContentTypeValue(Mixed(), map[]));
    p := PDU(MSG_TYPE_RETRIEVE_CONF, transactionID, Ascii("1.3"),
             map[FIELD_TRANSACTION_ID := NewTextValue(FIELD_TRANSACTION_ID, transactionID),
                 FIELD_CONTENT_TYPE := HeaderValue(FIELD_CONTENT_TYPE, Octets, contentType)],
             [], Some(MultipartBody(delivery)));
  }

  /** A message for a local recipient is encoded and stored; others, and empty ones, are left alone. */
  method PersistLocalContent(msg: Message, result: Option<Routing.Resolution>, store: ContentStore,
      placed: Result<text>)
    returns (r: Result<()>)
    modifies msg, store
    ensures msg.parts == old(msg.parts)
    ensures var stored := StoredBytes(msg.transactionID, old(msg.parts));
            if result.None? || result.value.destination != Routing.Local || old(msg.parts) == [] then
              r == Ok(()) && unchanged(msg) && store.contents == old(store.contents)
            else if stored.Err? then r == Err(stored.error) && unchanged(msg) && store.contents == old(store.contents)
            else if placed.Err? then r == Err(placed.error) && unchanged(msg) && store.contents == old(store.contents)
            else
              && r == Ok(())
              && store.contents == old(store.contents)[placed.value := stored.value]
              && msg.contentPath == msg.storeID == placed.value
              && msg.messageSize == |stored.value|
  {
    hide EncodePDU, RetrieveConf, ToPDUParts, CaseDistinct;
    if result.None? || result.value.destination != Routing.Local || |msg.parts| == 0 {
      return Ok(());
    }
    var parts := PartsToPDU(msg.parts);
    PartsCaseDistinct(msg.transactionID, msg.parts);
    var pdu := NewRetrieveConf(msg.transactionID, parts);
    var raw, _ := Encode(pdu);
    if raw.Err? {
      return Err(raw.error);
    }
    var path := store.Put(placed, raw.value);
    if path.Err? {
      return Err(path.error);
    }
    msg.contentPath := path.value;
    msg.storeID := path.value;
    msg.messageSize := |raw.value|;
    r := Ok(());
  }

  lemma PartsCaseDistinct(transactionID: text, parts: seq<MessagePart>)
    ensures var p := RetrieveConf(transactionID, ToPDUParts(parts));
            p.body.Some? && AllCaseDistinct(p.body.value)
  {
    hide CaseDistinct, IsSmil, NewContentTypeValue, HeadersFor;
    StrippedTwice(ToPDUParts(parts));
    forall i | 0 <= i < |parts| ensures CaseDistinct(ToPDUParts(parts)[i].headers) {
      PartRestored(parts[i]);
    }
  }

  method LoadParts(msg: Message, store: ContentStore) returns (r: Result<seq<Part>>)
    ensures r == LoadedParts(msg.parts, msg.contentPath, store.contents)
  {
    hide DecodePDU, ToPDUParts;
    if |msg.parts| > 0 {
      var parts := PartsToPDU(msg.parts);
      return Ok(parts);
    }
    if msg.contentPath == [] {
      return Err(NotFound);
    }
    var raw := store.Get(msg.contentPath);
    if raw.Err? {
      return Err(raw.error);
    }
    var pdu := Decode(raw.value);
    if pdu.Err? {
      return Err(pdu.error);
    }
    if pdu.value.body.None? || |pdu.value.body.value.parts| == 0 {
      return Err(NotFound);
    }
    r := Ok(pdu.value.body.value.parts);
  }

  // ------------------------------------------------------------------ results

  lemma ThreeHeaders(headers: HeaderMap, a: byte, b: byte, c: byte)
    requires {a, b, c} <= headers.Keys && headers[a].raw != [] && headers[b].raw != [] && headers[c].raw != []
    ensures SequenceBytes(headers, [a, b, c]) ==
            Ok(HeaderBytes(a, headers[a]) + (HeaderBytes(b, headers[b]) + HeaderBytes(c, headers[c])))
  {
    hide HeaderBytes;
    assert [a, b, c][1..] == [b, c] && [b, c][1..] == [c] && [c][1..] == [];
    var last := HeaderBytes(c, headers[c]);
    assert last + [] == last;
    assert SequenceBytes(headers, [c]) == Ok(last);
    assert SequenceBytes(headers, [b, c]) == Ok(HeaderBytes(b, headers[b]) + last);
  }

  /** The bytes that are stored: type, transaction ID, version 1.3, multipart.mixed, and the parts. */
  lemma ConfirmationBytes(transactionID: text, parts: seq<Part>) returns (tail: bytes)
    ensures EncodePDU(RetrieveConf(transactionID, parts)) ==
            Ok([0x8C, 0x84] + ([0x98] + EncodeText(transactionID) + tail))
    ensures tail == [0x8D, 0x93] + ([0x84, 0xA3] + MultipartBytes(MultipartBody(Stripped(parts))))
  {
    ConfirmationTail(transactionID, parts);
    var p := RetrieveConf(transactionID, parts);
    var headers := MergedHeaders(p);
    ConfirmationOrder(transactionID, parts);
    assert EncodeText(transactionID) != [];
    hide MergedHeaders, OrderedEmission, RetrieveConf, MultipartBytes, EncodeText, SequenceBytes;
    var front := WithoutContentType(headers);
    ThreeHeaders(front, FIELD_MESSAGE_TYPE, FIELD_TRANSACTION_ID, FIELD_MMS_VERSION);
    var version := HeaderBytes(FIELD_MMS_VERSION, headers[FIELD_MMS_VERSION]);
    var id := HeaderBytes(FIELD_TRANSACTION_ID, headers[FIELD_TRANSACTION_ID]);
    var content, body := HeaderBytes(FIELD_CONTENT_TYPE, headers[FIELD_CONTENT_TYPE]), MultipartBytes(p.body.value);
    assert HeaderBytes(FIELD_MESSAGE_TYPE, headers[FIELD_MESSAGE_TYPE]) == [0x8C, 0x84];
    assert id == [0x98] + EncodeText(transactionID);
    hide HeaderBytes;
    tail := version + (content + body);
    Regrouped([0x8C, 0x84], id, version, content, body);
  }

  lemma ConfirmationTail(transactionID: text, parts: seq<Part>)
    ensures var p := RetrieveConf(transactionID, parts);
            var h := MergedHeaders(p);
            && {FIELD_MMS_VERSION, FIELD_CONTENT_TYPE} <= h.Keys
            && HeaderBytes(FIELD_MMS_VERSION, h[FIELD_MMS_VERSION]) == [0x8D, 0x93]
            && HeaderBytes(FIELD_CONTENT_TYPE, h[FIELD_CONTENT_TYPE]) == [0x84, 0xA3]
            && p.body == Some(MultipartBody(Stripped(parts)))
  {
    hide Stripped, EncodeText, ContentTypeBytes;
    assert |Ascii("1.3")| == 3 && Ascii("1.3")[2] == 0x33;
    assert Ascii("1.0")[2] == 0x30 && Ascii("1.1")[2] == 0x31 && Ascii("1.2")[2] == 0x32;
    MixedWritten();
    hide Mixed, Ascii;
  }

  lemma MixedWritten()
    ensures ContentTypeBytes(ContentTypeValue(Mixed(), map[])) == [0xA3]
  {
    hide Ascii, NormalMediaType;
    MixedIsNormal();
    TokenWritten(Mixed(), 0xA3);
  }

  lemma Regrouped(a: bytes, b: bytes, c: bytes, d: bytes, e: bytes)
    ensures a + (b + c) + d + e == a + (b + (c + (d + e)))
  {
    ConcatAssociative(a + (b + c), d, e);
    ConcatAssociative(a, b + c, d + e);
    ConcatAssociative(b, c, d + e);
  }

  /** What the bare confirmation has, and the order it is written in. */
  lemma ConfirmationOrder(transactionID: text, parts: seq<Part>)
    ensures var p := RetrieveConf(transactionID, parts);
            var h := MergedHeaders(p);
            && p.headerOrder == [] && p.body.Some?
            && h.Keys == {FIELD_MESSAGE_TYPE, FIELD_TRANSACTION_ID, FIELD_MMS_VERSION, FIELD_CONTENT_TYPE}
            && h[FIELD_MESSAGE_TYPE].raw == [MSG_TYPE_RETRIEVE_CONF]
            && h[FIELD_TRANSACTION_ID].raw == EncodeText(transactionID)
            && h[FIELD_MMS_VERSION].raw != []
            && OrderedEmission(WithoutContentType(h), []) ==
               [FIELD_MESSAGE_TYPE, FIELD_TRANSACTION_ID, FIELD_MMS_VERSION]
  {
    hide NewContentTypeValue, Stripped, EncodeVersion, EncodeText, Ascending, Present;
    assert Ascii("1.3") != [];
    var h := MergedHeaders(RetrieveConf(transactionID, parts));
    var front := WithoutContentType(h);
    assert front.Keys == {FIELD_MESSAGE_TYPE, FIELD_TRANSACTION_ID, FIELD_MMS_VERSION};
    PresentShape(front, LeadingFields());
    EmissionShape(front, LeadingFields());
    assert FieldSet(LeadingFields()) == front.Keys;
  }

  lemma TypeParses(rest: bytes)
    ensures ParseHeader([0x8C, 0x84] + rest) ==
            Ok(Parsed(HeaderValue(FIELD_MESSAGE_TYPE, KindForField(FIELD_MESSAGE_TYPE), [0x84]), rest))
  {
    hide ParseHeader;
    TokenDelimits(FIELD_MESSAGE_TYPE, 0x84);
    var value := NewTokenValue(FIELD_MESSAGE_TYPE, 0x84);
    HeaderParses(FIELD_MESSAGE_TYPE, value, rest);
    assert HeaderBytes(FIELD_MESSAGE_TYPE, value) == [0x8C, 0x84];
  }

  lemma TransactionParses(front: bytes, rest: bytes)
    requires 0 !in front
    ensures ParseHeader([0x98] + (front + [0] + rest)) ==
            Ok(Parsed(HeaderValue(FIELD_TRANSACTION_ID, KindForField(FIELD_TRANSACTION_ID), front + [0]), rest))
  {
    hide ParseHeader;
    TerminatedDelimits(front);
    var value := HeaderValue(FIELD_TRANSACTION_ID, Text, front + [0]);
    HeaderParses(FIELD_TRANSACTION_ID, value, rest);
    assert HeaderBytes(FIELD_TRANSACTION_ID, value) + rest == [0x98] + (front + [0] + rest);
  }

  /** Where a transaction ID with a NUL ends. */
  lemma CutAtNul(transactionID: text, tail: bytes) returns (front: bytes)
    requires 0 in transactionID
    ensures 0 !in front
    ensures EncodeText(transactionID) + tail ==
            front + [0] + (transactionID[IndexByte(transactionID, 0) + 1..] + [0] + tail)
  {
    var z := IndexByte(transactionID, 0);
    var q: bytes := if NeedsQuote(transactionID) then [0x7F] else [];
    var a, b := transactionID[..z], transactionID[z + 1..];
    front := q + a;
    assert transactionID == a + [0] + b;
    assert EncodeText(transactionID) == q + (a + [0] + b) + [0];
    hide IndexByte, EncodeText, NeedsQuote;
    FiveParts(q, a, b, tail);
  }

  lemma FiveParts(q: bytes, a: bytes, b: bytes, tail: bytes)
    ensures q + (a + [0] + b) + [0] + tail == q + a + [0] + (b + [0] + tail)
  {
  }

  /** A transaction ID with a NUL ends there, and what follows the NUL is read as headers. */
  lemma NulSplits(transactionID: text, tail: bytes) returns (headers: HeaderMap)
    requires 0 in transactionID
    ensures DecodeSections([0x8C, 0x84] + ([0x98] + EncodeText(transactionID) + tail), map[], []) ==
            DecodeSections(transactionID[IndexByte(transactionID, 0) + 1..] + [0] + tail, headers,
                           [FIELD_MESSAGE_TYPE, FIELD_TRANSACTION_ID])
  {
    hide ParseHeader, EncodeText, DecodeSections, IndexByte, KindForField;
    var rest := transactionID[IndexByte(transactionID, 0) + 1..] + [0] + tail;
    var front := CutAtNul(transactionID, tail);
    var id := [0x98] + EncodeText(transactionID) + tail;
    ConcatAssociative([0x98], EncodeText(transactionID), tail);
    assert id == [0x98] + (front + [0] + rest);
    TypeParses(id);
    TransactionParses(front, rest);
    headers := TwoHeaders([0x8C, 0x84] + id, id, rest);
  }

  lemma TwoHeaders(data: bytes, id: bytes, rest: bytes) returns (both: HeaderMap)
    requires ParseHeader(data).Ok? && ParseHeader(data).value.rest == id && data != [] && id != []
    requires ParseHeader(data).value.value.field == FIELD_MESSAGE_TYPE
    requires ParseHeader(id).Ok? && ParseHeader(id).value.rest == rest
    requires ParseHeader(id).value.value.field == FIELD_TRANSACTION_ID
    ensures DecodeSections(data, map[], []) ==
            DecodeSections(rest, both, [FIELD_MESSAGE_TYPE, FIELD_TRANSACTION_ID])
  {
    hide ParseHeader, DecodeBody;
    var first: HeaderMap := map[FIELD_MESSAGE_TYPE := ParseHeader(data).value.value];
    both := first[FIELD_TRANSACTION_ID := ParseHeader(id).value.value];
    var none: HeaderMap := map[];
    assert none[FIELD_MESSAGE_TYPE := ParseHeader(data).value.value] == first;
    assert [] + [FIELD_MESSAGE_TYPE] == [FIELD_MESSAGE_TYPE];
    assert DecodeSections(data, map[], []) == DecodeSections(id, first, [FIELD_MESSAGE_TYPE]);
    assert [FIELD_MESSAGE_TYPE] + [FIELD_TRANSACTION_ID] == [FIELD_MESSAGE_TYPE, FIELD_TRANSACTION_ID];
    assert DecodeSections(id, first, [FIELD_MESSAGE_TYPE]) ==
           DecodeSections(rest, both, [FIELD_MESSAGE_TYPE, FIELD_TRANSACTION_ID]);
  }

  /** The first NUL is at the end, or in front of an ASCII character. */
  predicate NulBeforeText(t: text) {
    var z := IndexByte(t, 0);
    0 <= z && (z + 1 < |t| ==> t[z + 1] < 0x80)
  }

  lemma RestHasNoName(transactionID: text, tail: bytes)
    requires NulBeforeText(transactionID)
    ensures 0 in transactionID
    ensures var rest := transactionID[IndexByte(transactionID, 0) + 1..] + [0] + tail; rest[0] < 0x80
  {
  }

  lemma NulSpoils(transactionID: text, tail: bytes)
    requires NulBeforeText(transactionID)
    ensures DecodeSections([0x8C, 0x84] + ([0x98] + EncodeText(transactionID) + tail), map[], []).Err?
  {
    hide DecodeSections, EncodeText, IndexByte, NulBeforeText;
    RestHasNoName(transactionID, tail);
    var rest := transactionID[IndexByte(transactionID, 0) + 1..] + [0] + tail;
    var headers := NulSplits(transactionID, tail);
    NoName(rest, headers, [FIELD_MESSAGE_TYPE, FIELD_TRANSACTION_ID]);
  }

  /** A transaction ID with a NUL at its end, or in front of ASCII text, makes what is stored unreadable. */
  lemma NulSpoilsStored(transactionID: text, parts: seq<MessagePart>)
    requires NulBeforeText(transactionID)
    ensures StoredBytes(transactionID, parts).Ok? && DecodePDU(StoredBytes(transactionID, parts).value).Err?
  {
    hide EncodePDU, RetrieveConf, EncodeText, DecodeSections, NulBeforeText;
    var tail := ConfirmationBytes(transactionID, ToPDUParts(parts));
    NulSpoils(transactionID, tail);
  }

  /** No header begins with a byte below 0x80. */
  lemma NoName(s: bytes, headers: HeaderMap, order: seq<byte>)
    requires s != [] && s[0] < 0x80
    ensures DecodeSections(s, headers, order).Err?
  {
  }

  /** What loading makes of the bytes under its path. */
  lemma LoadedFrom(path: text, contents: map<text, bytes>, raw: bytes)
    requires path != []
    ensures LoadedParts([], path, contents[path := raw]) ==
            var pdu := DecodePDU(raw);
            if pdu.Err? then Err(pdu.error)
            else if pdu.value.body.None? || pdu.value.body.value.parts == [] then Err(NotFound)
            else Ok(pdu.value.body.value.parts)
  {
    hide DecodePDU;
  }

  /** What was stored decodes to the surviving parts, restored, exactly when these can be framed. */
  lemma StoredDecodes(transactionID: text, parts: seq<MessagePart>)
    ensures StoredBytes(transactionID, parts).Ok?
    ensures 0 !in transactionID ==>
              var got := DecodePDU(StoredBytes(transactionID, parts).value);
              (got.Ok? && got.value.body == Some(MultipartBody(ToPDUParts(AllRestored(Surviving(parts))))) <==>
               EncodableBody(MultipartBody(ToPDUParts(Surviving(parts)))))
  {
    var kept := Surviving(parts);
    var conf := RetrieveConf(transactionID, ToPDUParts(parts));
    var _ := ConfirmationBytes(transactionID, ToPDUParts(parts));
    SurvivingCommutes(parts);
    assert conf.body == Some(MultipartBody(ToPDUParts(kept)));
    RetrieveConfWellFormed(transactionID, ToPDUParts(parts));
    PartsRestored(kept);
    hide WellFormedHeaders, EncodePDU, DecodePDU, Surviving, EncodableBody, RetrieveConf, ToPDUParts, AllRestored,
      Stripped, MultipartBytes, DecodeBody, Canonical;
    if 0 !in transactionID { BodyAlone(conf); }
    BodyReads(conf.body.value);
    assert NormalBody(conf.body.value) == MultipartBody(ToPDUParts(AllRestored(kept)));
  }

  /**
   Stored and loaded again, the surviving parts come back in order with the same data and
   content location, the media type normalised and the content ID in angle brackets, exactly
   when they can be framed. A NUL in the transaction ID spoils that: at its end, or in front of
   ASCII text, nothing is loaded at all.
   */
  lemma StoreThenLoad(transactionID: text, parts: seq<MessagePart>, path: text, contents: map<text, bytes>)
    requires parts != [] && path != []
    ensures StoredBytes(transactionID, parts).Ok?
    ensures var loaded := LoadedParts([], path, contents[path := StoredBytes(transactionID, parts).value]);
            && (0 !in transactionID ==>
                  (loaded == Ok(ToPDUParts(AllRestored(Surviving(parts)))) <==>
                   EncodableBody(MultipartBody(ToPDUParts(Surviving(parts))))))
            && (NulBeforeText(transactionID) ==> loaded.Err?)
    ensures ToMessageParts(ToPDUParts(AllRestored(Surviving(parts)))) == AllRestored(Surviving(parts))
  {
    var kept := Surviving(parts);
    assert |ToPDUParts(AllRestored(kept))| > 0;
    StoredDecodes(transactionID, parts);
    PartsRestored(kept);
    hide DecodePDU, StoredBytes, Surviving, EncodableBody, ToPDUParts, AllRestored, ToMessageParts, NulBeforeText,
        LoadedParts;
    LoadedFrom(path, contents, StoredBytes(transactionID, parts).value);
    if NulBeforeText(transactionID) { NulSpoilsStored(transactionID, parts); }
  }

  lemma NormalBodyEncodable(b: MultipartBody)
    ensures EncodableBody(NormalBody(b)) <==> EncodableBody(b)
  {
    hide WritablePart, FitsFrame, NormalPart;
    forall i | 0 <= i < |b.parts|
      ensures NormalBody(b).parts[i] == NormalPart(b.parts[i])
      ensures NormalBody(b).parts[i] in NormalBody(b).parts && b.parts[i] in b.parts
      ensures WritablePart(NormalPart(b.parts[i])) <==> WritablePart(b.parts[i])
      ensures FitsFrame(NormalPart(b.parts[i])) <==> FitsFrame(b.parts[i])
    {
      PartCanonical(b.parts[i]);
    }
    assert |NormalBody(b).parts| == |b.parts|;
  }

  /** What was loaded can be framed again. */
  lemma LoadedServable(parts: seq<MessagePart>)
    requires EncodableBody(MultipartBody(ToPDUParts(parts)))
    ensures EncodableBody(MultipartBody(Stripped(ToPDUParts(AllRestored(parts)))))
  {
    var loaded := ToPDUParts(AllRestored(parts));
    PartsRestored(parts);
    NormalBodyEncodable(MultipartBody(ToPDUParts(parts)));
    hide IsSmil, WritablePart, FitsFrame, ToPDUParts, AllRestored;
    StrippedTwice(loaded);
    StrippedShorter(loaded);
  }

  lemma StrippedShorter(parts: seq<Part>)
    ensures |Stripped(parts)| <= |parts|
  {
    MediaLength(parts);
  }

  lemma {:induction false} MediaLength(parts: seq<Part>)
    ensures |Media(parts)| <= |parts|
    ensures |Media(parts)| == |parts| <==> forall p | p in parts :: !IsSmil(p.contentType)
  {
    hide IsSmil;
    if parts != [] {
      var init, last := parts[..|parts| - 1], parts[|parts| - 1];
      MediaLength(init);
      assert parts == init + [last];
      assert last in parts;
    }
  }

  /** Stripping keeps everything exactly when no part is SMIL, or all are. */
  lemma StrippedNothing(parts: seq<Part>)
    ensures |Stripped(parts)| == |parts| <==>
            (forall p | p in parts :: !IsSmil(p.contentType)) || (forall p | p in parts :: IsSmil(p.contentType))
    ensures |Stripped(parts)| == |parts| ==> Stripped(parts) == parts
  {
    hide IsSmil, Media;
    MediaLength(parts);
    MediaMembers(parts);
    if forall p | p in parts :: !IsSmil(p.contentType) {
      MediaAll(parts);
    }
    assert Media(parts) != [] ==> Media(parts)[0] in Media(parts);
  }

  /** A stored part is taken for SMIL when its trimmed type is. */
  lemma RestoredSmil(contentType: text)
    ensures IsSmil(NormalMediaType(contentType)) <==> EqualFold(TrimSpace(contentType), Ascii("application/smil"))
  {
    var s := "application/smil";
    assert forall i | 0 <= i < |s| :: 'a' <= s[i] <= 'z' || s[i] == '/';
    LowerLiteral(s);
    OctetStreamIsNormal();
    ToLowerIdempotent(TrimSpace(contentType));
    assert |OctetStream()| != |Ascii(s)|;
  }

  /** Whether the type of a part is SMIL once trimmed. */
  predicate TrimsToSmil(m: MessagePart) {
    EqualFold(TrimSpace(m.contentType), Ascii("application/smil"))
  }

  lemma ServedDecodes(kept: seq<MessagePart>, served: PDU)
    requires served.body == Some(MultipartBody(Stripped(ToPDUParts(AllRestored(kept)))))
    ensures WellFormed(served) ==>
              && EncodePDU(served).Ok?
              && DecodePDU(EncodePDU(served).value).Ok?
              && DecodePDU(EncodePDU(served).value).value.body == served.body
  {
    hide EncodePDU, DecodePDU, WellFormed, Stripped, AllRestored, ToPDUParts;
    ServedNormal(kept);
    if WellFormed(served) {
      PDURoundTrip(served);
    }
    assert Canonical(served).body == Some(NormalBody(served.body.value));
  }

  lemma ServedExactly(kept: seq<MessagePart>)
    ensures var loaded := ToPDUParts(AllRestored(kept));
            ToMessageParts(Stripped(loaded)) == AllRestored(kept) <==>
            (forall m | m in kept :: !TrimsToSmil(m)) || (forall m | m in kept :: TrimsToSmil(m))
  {
    var loaded := ToPDUParts(AllRestored(kept));
    StrippedNothing(loaded);
    SmilAfterLoading(kept);
    ToMessagePartsOfLoaded(AllRestored(kept));
    hide Stripped, Restored, IsSmil, TrimsToSmil, ToPDUPart, ToMessagePart;
    assert |ToMessageParts(Stripped(loaded))| == |Stripped(loaded)|;
  }

  lemma RestoredTwice(parts: seq<MessagePart>)
    ensures AllRestored(AllRestored(parts)) == AllRestored(parts)
  {
    forall i | 0 <= i < |parts| ensures Restored(Restored(parts[i])) == Restored(parts[i]) {
      NormalMediaTypeShape(parts[i].contentType);
    }
  }

  /** What is loaded is already in normal form, and so is any selection of it. */
  lemma ServedNormal(kept: seq<MessagePart>)
    ensures var loaded := ToPDUParts(AllRestored(kept));
            NormalParts(Stripped(loaded)) == Stripped(loaded)
  {
    hide IsSmil, NormalPart, ToPDUPart, Restored, Media;
    var loaded := ToPDUParts(AllRestored(kept));
    PartsRestored(AllRestored(kept));
    RestoredTwice(kept);
    assert NormalParts(loaded) == loaded;
    forall p | p in Stripped(loaded) ensures NormalPart(p) == p {
      StrippedTwice(loaded);
      var i :| 0 <= i < |loaded| && loaded[i] == p;
      assert NormalParts(loaded)[i] == NormalPart(p);
    }
  }

  lemma SmilAfterLoading(kept: seq<MessagePart>)
    ensures var loaded := ToPDUParts(AllRestored(kept));
            && ((forall p | p in loaded :: IsSmil(p.contentType)) <==> forall m | m in kept :: TrimsToSmil(m))
            && ((forall p | p in loaded :: !IsSmil(p.contentType)) <==> forall m | m in kept :: !TrimsToSmil(m))
  {
    var loaded := ToPDUParts(AllRestored(kept));
    forall i | 0 <= i < |kept| ensures loaded[i].contentType == NormalMediaType(kept[i].contentType)
      ensures IsSmil(loaded[i].contentType) <==> TrimsToSmil(kept[i])
      ensures loaded[i] in loaded && kept[i] in kept
    {
      RestoredSmil(kept[i].contentType);
    }
    hide IsSmil, TrimsToSmil, ToPDUPart, Restored;
  }

  lemma ToMessagePartsOfLoaded(parts: seq<MessagePart>)
    requires forall m | m in parts :: m.size == |m.data|
    ensures ToMessageParts(ToPDUParts(parts)) == parts
  {
    forall i | 0 <= i < |parts| ensures ToMessagePart(ToPDUPart(parts[i])) == parts[i] {
      assert parts[i] in parts;
      HeaderKeysLower();
    }
  }

  /** A padded type shows the difference: stored beside a text part, it is dropped when served. */
  lemma PaddedSmilLost(smil: bytes, note: bytes)
    ensures var parts := [MessagePart(Ascii(" application/smil"), [], [], smil, |smil|),
                          MessagePart(Ascii("text/plain"), [], [], note, |note|)];
            && Surviving(parts) == parts
            && |Stripped(ToPDUParts(AllRestored(parts)))| == 1
  {
    var a := MessagePart(Ascii(" application/smil"), [], [], smil, |smil|);
    var b := MessagePart(Ascii("text/plain"), [], [], note, |note|);
    PaddedSmil();
    hide Ascii, TrimSpace;
    assert TrimsToSmil(a) && !TrimsToSmil(b) && !IsSmil(a.contentType) && !IsSmil(b.contentType);
    hide IsSmil, TrimsToSmil;
    LateSmilDropped(a, b);
  }

  lemma LateSmilDropped(a: MessagePart, b: MessagePart)
    requires TrimsToSmil(a) && !TrimsToSmil(b) && !IsSmil(a.contentType) && !IsSmil(b.contentType)
    ensures Surviving([a, b]) == [a, b] && |Stripped(ToPDUParts(AllRestored([a, b])))| == 1
  {
    RestoredSmil(a.contentType);
    RestoredSmil(b.contentType);
    var x, y := ToPDUPart(Restored(a)), ToPDUPart(Restored(b));
    assert IsSmil(x.contentType) && !IsSmil(y.contentType);
    assert ToPDUParts(AllRestored([a, b])) == [x, y];
    hide IsSmil, TrimsToSmil, ToPDUParts, AllRestored, ToPDUPart, Restored, Media, MediaParts;
    BothSurvive(a, b);
    MediaOfTwo(x, y);
  }

  lemma BothSurvive(a: MessagePart, b: MessagePart)
    requires !IsSmil(a.contentType) && !IsSmil(b.contentType)
    ensures Surviving([a, b]) == [a, b]
  {
    hide IsSmil;
    assert [a, b][..1] == [a] && [a][..0] == [];
    assert MediaParts([]) == [];
    assert MediaParts([a]) == MediaParts([]) + [a];
    assert MediaParts([a, b]) == MediaParts([a]) + [b];
  }

  lemma MediaOfTwo(x: Part, y: Part)
    requires IsSmil(x.contentType) && !IsSmil(y.contentType)
    ensures Media([x, y]) == [y]
  {
    hide IsSmil;
    assert [x, y][..1] == [x] && [x][..0] == [];
    assert Media([x]) == [];
    assert Media([x, y]) == Media([x]) + [y];
  }

  lemma PaddedSmil()
    ensures TrimSpace(Ascii(" application/smil")) == Ascii("application/smil")
    ensures TrimSpace(Ascii("text/plain")) == Ascii("text/plain")
    ensures |Ascii("text/plain")| != |Ascii("application/smil")|
    ensures |Ascii(" application/smil")| != |Ascii("application/smil")|
  {
    assert Ascii(" application/smil")[1..] == Ascii("application/smil");
    LowerLiteral("application/smil");
    LowerLiteral("text/plain");
    TrimSpaceShape(Ascii("application/smil"));
    TrimSpaceShape(Ascii("text/plain"));
    TrimLeftShape(Ascii("application/smil"));
  }
}
