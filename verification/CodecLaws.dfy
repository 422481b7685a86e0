/**
 What the PDU codec guarantees: the round trip, the exact condition under which
 decoding and encoding again gives the same bytes, and that whatever decodes
 can be encoded and decoded again.
 */
module CodecLaws {
  import opened Bytes
  import opened Sorting
  import opened Reader
  import opened Fields
  import opened Headers
  import opened Multipart
  import opened MultipartLaws
  import opened MultipartExact
  import opened MultipartBounds
  import opened Codec

  // ------------------------------------------------------------ well-formed

  /** A short field code of a known kind, with a raw value that delimits itself. */
  predicate WellFormedHeader(field: byte, raw: bytes) {
    field <= 0x7F && SelfDelimiting(KindForField(field), raw)
  }

  predicate WellFormedHeaders(headers: HeaderMap) {
    && (forall f | f in headers :: WellFormedHeader(f, headers[f].raw))
    && (FIELD_MMS_VERSION in headers ==> DecodeShortInteger(headers[FIELD_MMS_VERSION].raw).Ok?)
  }

  predicate ContentTypeOnlyLast(order: seq<byte>) {
    forall i | 0 <= i < |order| - 1 :: order[i] != FIELD_CONTENT_TYPE
  }

  /** Every header can be read back, and Content-Type ends the headers. */
  ghost predicate WellFormed(p: PDU) {
    && WellFormedHeaders(MergedHeaders(p))
    && match p.body
       case None => ContentTypeOnlyLast(WrittenOrder(p))
       case Some(body) => EncodableBody(body)
  }

  /** The same raw values, with the field code and kind the decoder gives them. */
  function Typed(headers: HeaderMap): HeaderMap {
    map f | f in headers :: HeaderValue(f, KindForField(f), headers[f].raw)
  }

  function TypeIn(headers: HeaderMap): byte {
    if FIELD_MESSAGE_TYPE in headers && headers[FIELD_MESSAGE_TYPE].raw != []
    then headers[FIELD_MESSAGE_TYPE].raw[0] else 0
  }

  function TransactionIn(headers: HeaderMap): text {
    if FIELD_TRANSACTION_ID !in headers then []
    else match DecodeText(headers[FIELD_TRANSACTION_ID].raw) case Ok(t) => t case Err(_) => []
  }

  function VersionIn(headers: HeaderMap): text {
    if FIELD_MMS_VERSION !in headers then []
    else match DecodeShortInteger(headers[FIELD_MMS_VERSION].raw) case Ok(v) => DecodeVersion(v % 256) case Err(_) => []
  }

  /** What decoding the encoding of `p` gives. */
  ghost function Canonical(p: PDU): PDU {
    var headers := MergedHeaders(p);
    PDU(TypeIn(headers), TransactionIn(headers), VersionIn(headers), Typed(headers), WrittenOrder(p),
        match p.body case None => None case Some(body) => Some(NormalBody(body)))
  }

  // -------------------------------------------------------------- round trip

  lemma HeaderParses(field: byte, value: HeaderValue, tail: bytes)
    requires WellFormedHeader(field, value.raw)
    ensures value.raw != []
    ensures ParseHeader(HeaderBytes(field, value) + tail) ==
            Ok(Parsed(HeaderValue(field, KindForField(field), value.raw), tail))
    ensures HeaderBytes(field, value) != []
  {
    hide ParseHeaderValue;
    SelfDelimitingExtends(KindForField(field), value.raw, tail);
    ConcatAssociative(EncodeHeaderName(field), value.raw, tail);
    HeaderNameRoundTrip(field, value.raw + tail);
  }

  lemma {:induction false} SectionsOfSequence(headers: HeaderMap, fields: seq<byte>, tail: bytes,
                                             got: HeaderMap, order: seq<byte>)
    requires forall f | f in fields :: f in headers && WellFormedHeader(f, headers[f].raw) && f != FIELD_CONTENT_TYPE
    ensures SequenceBytes(headers, fields).Ok?
    ensures DecodeSections(SequenceBytes(headers, fields).value + tail, got, order) ==
            DecodeSections(tail, PutAll(Typed(headers), fields, got), order + fields)
    decreases |fields|
  {
    hide ParseHeader, HeaderBytes, WellFormedHeader;
    if fields == [] {
      assert SequenceBytes(headers, fields).value + tail == tail;
      assert order + fields == order;
    } else {
      var field := fields[0];
      var value := headers[field];
      HeaderParses(field, value, []);
      SectionsOfSequence(headers, fields[1..], tail, got[field := Typed(headers)[field]], order + [field]);
      var rest := SequenceBytes(headers, fields[1..]).value;
      ConcatAssociative(HeaderBytes(field, value), rest, tail);
      HeaderParses(field, value, rest + tail);
      assert order + [field] + fields[1..] == order + fields;
    }
  }

  /** The last header: Content-Type in front of a body, or any header in front of nothing. */
  lemma LastSection(headers: HeaderMap, field: byte, tail: bytes, got: HeaderMap, order: seq<byte>)
    requires field in headers && WellFormedHeader(field, headers[field].raw)
    requires tail != [] ==> field == FIELD_CONTENT_TYPE
    ensures DecodeSections(HeaderBytes(field, headers[field]) + tail, got, order) ==
            if tail == [] then Ok(Sections(got[field := Typed(headers)[field]], order + [field], None))
            else match DecodeBody(tail)
                 case Ok(body) => Ok(Sections(got[field := Typed(headers)[field]], order + [field], Some(body)))
                 case Err(e) => Err(e)
  {
    hide ParseHeader, HeaderBytes, WellFormedHeader, DecodeBody;
    HeaderParses(field, headers[field], tail);
  }

  lemma NamedFieldsOfTyped(headers: HeaderMap, order: seq<byte>, body: Option<MultipartBody>)
    requires WellFormedHeaders(headers)
    ensures NamedFields(Sections(Typed(headers), order, body)) ==
            Ok(PDU(TypeIn(headers), TransactionIn(headers), VersionIn(headers), Typed(headers), order, body))
  {
    hide KindForField, SelfDelimiting, DecodeText, DecodeVersion;
    NamedKinds();
    if FIELD_MESSAGE_TYPE in headers {
      assert WellFormedHeader(FIELD_MESSAGE_TYPE, headers[FIELD_MESSAGE_TYPE].raw);
      TokenShape(headers[FIELD_MESSAGE_TYPE].raw);
    }
    if FIELD_TRANSACTION_ID in headers {
      assert WellFormedHeader(FIELD_TRANSACTION_ID, headers[FIELD_TRANSACTION_ID].raw);
      TextShape(headers[FIELD_TRANSACTION_ID].raw);
    }
  }

  lemma NamedKinds()
    ensures KindForField(FIELD_MESSAGE_TYPE) == Token
    ensures KindForField(FIELD_TRANSACTION_ID) == Text
    ensures KindForField(FIELD_MMS_VERSION) == ShortInteger
    ensures KindForField(FIELD_CONTENT_TYPE) == Octets
  {
  }

  lemma TokenShape(raw: bytes)
    requires SelfDelimiting(Token, raw)
    ensures |raw| == 1
  {
  }

  /** A text value that delimits itself always decodes. */
  lemma TextShape(raw: bytes)
    requires SelfDelimiting(Text, raw)
    ensures raw != [] && raw == raw[..|raw| - 1] + [0] && 0 !in raw[..|raw| - 1]
    ensures DecodeText(raw) == Ok(if raw[0] == 0x7F then raw[1..|raw| - 1] else raw[..|raw| - 1])
  {
    ParseUntilNullSound(raw);
    var body := if raw[0] == 0x7F then raw[1..] else raw;
    assert body[..|body| - 1] == if raw[0] == 0x7F then raw[1..|raw| - 1] else raw[..|raw| - 1];
  }

  lemma MultipartBytesNotEmpty(body: MultipartBody)
    ensures MultipartBytes(body) != []
  {
    UintvarNotEmpty(|body.parts|);
  }

  /** The headers of a body-less PDU: all but the last, then the last. */
  lemma HeadersOnlyRoundTrip(headers: HeaderMap, order: seq<byte>)
    requires WellFormedHeaders(headers)
    requires forall f :: f in order <==> f in headers
    requires ContentTypeOnlyLast(order)
    ensures SequenceBytes(headers, order).Ok?
    ensures DecodeSections(SequenceBytes(headers, order).value, map[], []) == Ok(Sections(Typed(headers), order, None))
  {
    hide DecodeSections, WellFormedHeader, HeaderBytes, SequenceBytes;
    if order == [] {
      assert headers == map[];
      SequenceOfNone(headers);
      SectionsAtEnd(map[], []);
    } else {
      var init, field := order[..|order| - 1], order[|order| - 1];
      assert order == init + [field];
      forall f | f in init ensures f in headers && f != FIELD_CONTENT_TYPE {
        assert f in order;
        var i :| 0 <= i < |init| && init[i] == f;
        assert order[i] == f;
      }
      HeaderParses(field, headers[field], []);
      var last := HeaderBytes(field, headers[field]);
      SectionsOfSequence(headers, init, last, map[], []);
      SequenceSnoc(headers, init, field);
      assert last + [] == last && [] + init == init;
      LastSection(headers, field, [], PutAll(Typed(headers), init, map[]), init);
      PutAllSnoc(Typed(headers), init, field, map[]);
      PutListing(Typed(headers), order);
    }
  }

  lemma SequenceSnoc(headers: HeaderMap, fields: seq<byte>, field: byte)
    requires forall f | f in fields :: f in headers
    requires field in headers && headers[field].raw != [] && SequenceBytes(headers, fields).Ok?
    ensures SequenceBytes(headers, fields + [field]) ==
            Ok(SequenceBytes(headers, fields).value + HeaderBytes(field, headers[field]))
  {
    hide HeaderBytes;
    SequenceAppend(headers, fields, [field]);
    assert [field][1..] == [];
    assert SequenceBytes(headers, [field]) == Ok(HeaderBytes(field, headers[field]) + []);
    assert HeaderBytes(field, headers[field]) + [] == HeaderBytes(field, headers[field]);
  }

  lemma SectionsAtEnd(headers: HeaderMap, order: seq<byte>)
    ensures DecodeSections([], headers, order) == Ok(Sections(headers, order, None))
    ensures Typed(map[]) == map[]
  {
  }

  lemma {:induction false} PutAllSnoc<K, V>(source: map<K, V>, keys: seq<K>, k: K, target: map<K, V>)
    requires k in source
    ensures PutAll(source, keys + [k], target) == PutAll(source, keys, target)[k := source[k]]
    decreases |keys|
  {
    if keys == [] {
      assert (keys + [k])[1..] == [];
    } else {
      assert (keys + [k])[1..] == keys[1..] + [k] && (keys + [k])[0] == keys[0];
      PutAllSnoc(source, keys[1..], k, if keys[0] in source then target[keys[0] := source[keys[0]]] else target);
    }
  }

  /** With readable headers, decoding stands or falls with the body. */
  lemma WithBodySections(headers: HeaderMap, order: seq<byte>, body: MultipartBody)
    requires WellFormedHeaders(headers) && FIELD_CONTENT_TYPE in headers
    requires forall f :: f in order <==> f in WithoutContentType(headers)
    ensures var front := WithoutContentType(headers);
            && SequenceBytes(front, order).Ok?
            && DecodeSections(SequenceBytes(front, order).value
                              + HeaderBytes(FIELD_CONTENT_TYPE, headers[FIELD_CONTENT_TYPE])
                              + MultipartBytes(body), map[], []) ==
               match DecodeBody(MultipartBytes(body))
               case Ok(b) => Ok(Sections(Typed(headers), order + [FIELD_CONTENT_TYPE], Some(b)))
               case Err(e) => Err(e)
  {
    hide DecodeSections, WellFormedHeader, HeaderBytes, MultipartBytes, DecodeBody;
    var front := WithoutContentType(headers);
    var ct := HeaderBytes(FIELD_CONTENT_TYPE, headers[FIELD_CONTENT_TYPE]);
    var encoded := MultipartBytes(body);
    SectionsOfSequence(front, order, ct + encoded, map[], []);
    ConcatAssociative(SequenceBytes(front, order).value, ct, encoded);
    assert [] + order == order;
    MultipartBytesNotEmpty(body);
    var got := PutAll(Typed(front), order, map[]);
    LastSection(headers, FIELD_CONTENT_TYPE, encoded, got, order);
    PutListing(Typed(front), order);
    assert Typed(front)[FIELD_CONTENT_TYPE := Typed(headers)[FIELD_CONTENT_TYPE]] == Typed(headers);
  }

  lemma BodyReads(body: MultipartBody)
    ensures DecodeBody(MultipartBytes(body)) == Ok(NormalBody(body)) <==> EncodableBody(body)
  {
    hide *;
    BodyExact(body, []);
    assert MultipartBytes(body) + [] == MultipartBytes(body);
  }

  /** Decoding the encoding of a well-formed PDU gives its canonical form. */
  lemma PDURoundTrip(p: PDU)
    requires WellFormed(p)
    ensures EncodePDU(p).Ok?
    ensures DecodePDU(EncodePDU(p).value) == Ok(Canonical(p))
  {
    hide DecodeSections, WellFormedHeader, HeaderBytes, MultipartBytes, EncodableBody, NormalBody, SequenceBytes,
      OrderedEmission, MergedHeaders, NamedFields;
    var headers := MergedHeaders(p);
    match p.body
    case None =>
      OrderedEmissionFields(headers, p.headerOrder);
      HeadersOnlyRoundTrip(headers, OrderedEmission(headers, p.headerOrder));
      NamedFieldsOfTyped(headers, WrittenOrder(p), None);
    case Some(body) =>
      var front := WithoutContentType(headers);
      MergedHaveContentType(p);
      OrderedEmissionFields(front, p.headerOrder);
      BodyReads(body);
      WithBodySections(headers, OrderedEmission(front, p.headerOrder), body);
      NamedFieldsOfTyped(headers, WrittenOrder(p), Some(NormalBody(body)));
  }

  lemma MergedHaveContentType(p: PDU)
    requires p.body.Some?
    ensures FIELD_CONTENT_TYPE in MergedHeaders(p)
  {
  }

  // ------------------------------------------------------ canonical fixed point

  /** The transaction ID is written the way the encoder would write it. */
  predicate CanonicalTransaction(headers: HeaderMap) {
    TransactionIn(headers) != [] ==> headers[FIELD_TRANSACTION_ID].raw == EncodeText(TransactionIn(headers))
  }

  /** The raw values written for a decoded PDU: only the transaction ID can change. */
  function Rewritten(headers: HeaderMap): HeaderMap {
    if TransactionIn(headers) == [] then Typed(headers)
    else Typed(headers)[FIELD_TRANSACTION_ID := NewTextValue(FIELD_TRANSACTION_ID, TransactionIn(headers))]
  }

  lemma VersionRaw(raw: bytes)
    requires DecodeShortInteger(raw).Ok?
    ensures raw == [0x80 + DecodeShortInteger(raw).value]
    ensures var version := DecodeVersion(DecodeShortInteger(raw).value % 256);
            version != [] ==> EncodeShortInteger(EncodeVersion(version)) == raw
  {
    assert Ascii("1.0")[2] == 0x30 && Ascii("1.1")[2] == 0x31;
    assert Ascii("1.2")[2] == 0x32 && Ascii("1.3")[2] == 0x33;
  }

  /** Decoding, then overriding with the named fields, changes at most the transaction ID. */
  lemma OverriddenAfterDecoding(headers: HeaderMap, order: seq<byte>, body: Option<MultipartBody>)
    requires WellFormedHeaders(headers)
    ensures var q := PDU(TypeIn(headers), TransactionIn(headers), VersionIn(headers), Typed(headers), order, body);
            OverriddenHeaders(q) == Rewritten(headers)
  {
    hide KindForField, SelfDelimiting, DecodeText, DecodeVersion, EncodeVersion, EncodeText, DecodeShortInteger,
      EncodeShortInteger;
    NamedKinds();
    if FIELD_MESSAGE_TYPE in headers {
      assert WellFormedHeader(FIELD_MESSAGE_TYPE, headers[FIELD_MESSAGE_TYPE].raw);
      TokenShape(headers[FIELD_MESSAGE_TYPE].raw);
      assert headers[FIELD_MESSAGE_TYPE].raw == [TypeIn(headers)];
    }
    if FIELD_MMS_VERSION in headers {
      VersionRaw(headers[FIELD_MMS_VERSION].raw);
    }
  }

  /** Same raw values, same bytes. */
  lemma {:induction false} SequenceOfRaws(a: HeaderMap, b: HeaderMap, fields: seq<byte>)
    requires forall f | f in fields :: f in a && f in b && a[f].raw == b[f].raw
    ensures SequenceBytes(a, fields) == SequenceBytes(b, fields)
  {
    if fields != [] { SequenceOfRaws(a, b, fields[1..]); }
  }

  lemma {:induction false} SequenceLength(a: HeaderMap, b: HeaderMap, fields: seq<byte>)
    requires forall f | f in fields :: f in a && f in b && (f == FIELD_TRANSACTION_ID || a[f].raw == b[f].raw)
    requires FIELD_TRANSACTION_ID in a && FIELD_TRANSACTION_ID in b
    requires |a[FIELD_TRANSACTION_ID].raw| < |b[FIELD_TRANSACTION_ID].raw|
    requires SequenceBytes(a, fields).Ok? && SequenceBytes(b, fields).Ok?
    ensures |SequenceBytes(a, fields).value| <= |SequenceBytes(b, fields).value|
    ensures FIELD_TRANSACTION_ID in fields ==> |SequenceBytes(a, fields).value| < |SequenceBytes(b, fields).value|
  {
    if fields != [] { SequenceLength(a, b, fields[1..]); }
  }

  /** A text value that is not canonical is not as long as its canonical form. */
  lemma CanonicalTextLength(raw: bytes)
    requires SelfDelimiting(Text, raw)
    ensures var t := DecodeText(raw);
            t.Ok? && (|raw| == |EncodeText(t.value)| ==> raw == EncodeText(t.value))
  {
    TextShape(raw);
    var x := raw[..|raw| - 1];
    if raw[0] == 0x7F && x != [] {
      assert x == [0x7F] + x[1..] && raw[1..|raw| - 1] == x[1..];
    }
  }

  /** Encoding reads the raw values only. */
  ghost function EncodedWith(headers: HeaderMap, order: seq<byte>, body: Option<MultipartBody>): Result<bytes>
    requires forall f | f in order :: f in headers
    requires body.Some? ==> FIELD_CONTENT_TYPE in headers
  {
    match body
    case None => SequenceBytes(headers, order)
    case Some(b) =>
      var prefix :- SequenceBytes(headers, order);
      Ok(prefix + HeaderBytes(FIELD_CONTENT_TYPE, headers[FIELD_CONTENT_TYPE]) + MultipartBytes(b))
  }

  /** The fields written before the body, if any. */
  ghost function FrontOrder(p: PDU): seq<byte> {
    if p.body.None? then OrderedEmission(MergedHeaders(p), p.headerOrder)
    else OrderedEmission(WithoutContentType(MergedHeaders(p)), p.headerOrder)
  }

  lemma FrontOrderFields(p: PDU)
    ensures forall f :: f in FrontOrder(p) <==>
                        f in MergedHeaders(p) && (p.body.Some? ==> f != FIELD_CONTENT_TYPE)
    ensures WrittenOrder(p) == FrontOrder(p) + (if p.body.None? then [] else [FIELD_CONTENT_TYPE])
    ensures p.body.Some? ==> FIELD_CONTENT_TYPE in MergedHeaders(p)
  {
    hide OrderedEmission;
    OrderedEmissionFields(MergedHeaders(p), p.headerOrder);
    OrderedEmissionFields(WithoutContentType(MergedHeaders(p)), p.headerOrder);
  }

  lemma EncodedAs(p: PDU)
    ensures (forall f | f in FrontOrder(p) :: f in MergedHeaders(p))
    ensures p.body.Some? ==> FIELD_CONTENT_TYPE in MergedHeaders(p)
    ensures EncodePDU(p) == EncodedWith(MergedHeaders(p), FrontOrder(p), p.body)
  {
    hide OrderedEmission, MergedHeaders, MultipartBytes, HeaderBytes, SequenceBytes;
    FrontOrderFields(p);
    if p.body.Some? {
      SequenceOfRaws(WithoutContentType(MergedHeaders(p)), MergedHeaders(p), FrontOrder(p));
    }
  }

  /** Emitting along the written order writes the same fields in the same order. */
  lemma EmissionAlongWritten(headers: HeaderMap, front: seq<byte>, body: bool)
    requires forall f :: f in front <==> f in headers && (body ==> f != FIELD_CONTENT_TYPE)
    requires body ==> FIELD_CONTENT_TYPE in headers
    ensures body ==> OrderedEmission(WithoutContentType(headers), front + [FIELD_CONTENT_TYPE]) == front
    ensures !body ==> OrderedEmission(headers, front) == front
  {
    hide Ascending;
    if body {
      var rest := WithoutContentType(headers);
      var order := front + [FIELD_CONTENT_TYPE];
      PresentConcat(rest, front, [FIELD_CONTENT_TYPE]);
      PresentShape(rest, front);
      assert Present(rest, [FIELD_CONTENT_TYPE]) == [] by { assert [FIELD_CONTENT_TYPE][1..] == []; }
      assert rest.Keys <= FieldSet(order);
      EmissionShape(rest, order);
    } else {
      PresentShape(headers, front);
      assert headers.Keys <= FieldSet(front);
      EmissionShape(headers, front);
      if front == [] {
        assert headers == map[];
        EmissionOfNone(headers, LeadingFields());
      }
    }
  }

  /** What is written when the canonical form is encoded. */
  lemma CanonicalEncodes(p: PDU)
    requires WellFormed(p)
    ensures MergedHeaders(Canonical(p)) == Rewritten(MergedHeaders(p))
    ensures FrontOrder(Canonical(p)) == FrontOrder(p)
  {
    hide OrderedEmission, NormalBody, WellFormedHeader, OverriddenHeaders;
    var headers := MergedHeaders(p);
    FrontOrderFields(p);
    OverriddenAfterDecoding(headers, WrittenOrder(p), Canonical(p).body);
    NamedDiffer();
    assert FIELD_CONTENT_TYPE in headers ==> FIELD_CONTENT_TYPE in Rewritten(headers);
    TransactionPresent(headers);
    assert Rewritten(headers).Keys == headers.Keys;
    assert FrontOrder(p) + [] == FrontOrder(p);
    EmissionAlongWritten(Rewritten(headers), FrontOrder(p), p.body.Some?);
  }

  lemma TransactionPresent(headers: HeaderMap)
    ensures TransactionIn(headers) != [] ==> FIELD_TRANSACTION_ID in headers
    ensures Typed(headers).Keys == headers.Keys
  {
  }

  lemma NamedDiffer()
    ensures FIELD_CONTENT_TYPE != FIELD_TRANSACTION_ID
  {
  }

  /**
   Encoding, decoding and encoding again gives the same bytes exactly when the
   transaction ID, if it has any text, was written canonically.
   */
  lemma CanonicalFixedPoint(p: PDU)
    requires WellFormed(p)
    ensures EncodePDU(p).Ok? && DecodePDU(EncodePDU(p).value) == Ok(Canonical(p))
    ensures EncodePDU(Canonical(p)) == EncodePDU(p) <==> CanonicalTransaction(MergedHeaders(p))
  {
    hide OrderedEmission, NormalBody, WellFormedHeader, OverriddenHeaders, MultipartBytes, HeaderBytes, SequenceBytes,
      FrontOrder, EncodePDU, DecodePDU, MergedHeaders, Canonical;
    var headers := MergedHeaders(p);
    var front := FrontOrder(p);
    PDURoundTrip(p);
    CanonicalEncodes(p);
    EncodedAs(p);
    EncodedAs(Canonical(p));
    FrontOrderFields(p);
    CanonicalBodyEncodes(p);
    RewrittenEncodes(headers, front, p.body);
  }

  lemma CanonicalBodyEncodes(p: PDU)
    requires WellFormed(p)
    ensures match p.body
            case None => Canonical(p).body == None
            case Some(b) => Canonical(p).body.Some? && MultipartBytes(Canonical(p).body.value) == MultipartBytes(b)
  {
    hide MultipartBytes, NormalBody, EncodableBody, MergedHeaders, WrittenOrder;
    if p.body.Some? {
      NormalBodyCanonical(p.body.value);
    }
  }

  lemma RewrittenEncodes(headers: HeaderMap, front: seq<byte>, body: Option<MultipartBody>)
    requires WellFormedHeaders(headers)
    requires forall f :: f in front <==> f in headers && (body.Some? ==> f != FIELD_CONTENT_TYPE)
    requires body.Some? ==> FIELD_CONTENT_TYPE in headers
    ensures Rewritten(headers).Keys == headers.Keys
    ensures EncodedWith(Rewritten(headers), front, body) == EncodedWith(headers, front, body) <==>
            CanonicalTransaction(headers)
  {
    hide HeaderBytes, MultipartBytes, SequenceBytes, WellFormedHeader, EncodeText, DecodeText;
    var again := Rewritten(headers);
    TransactionPresent(headers);
    NamedDiffer();
    if CanonicalTransaction(headers) {
      SequenceOfRaws(headers, again, front);
      ContentTypeHeaderBytes(headers, again);
    } else {
      var raw := headers[FIELD_TRANSACTION_ID].raw;
      var raw' := again[FIELD_TRANSACTION_ID].raw;
      NamedKinds();
      assert WellFormedHeader(FIELD_TRANSACTION_ID, raw);
      TransactionDelimits(raw);
      CanonicalTextLength(raw);
      SequenceAllOk(headers, front);
      RewrittenNotEmpty(headers);
      SequenceNonEmpty(again, front);
      ContentTypeHeaderBytes(headers, again);
      assert FIELD_TRANSACTION_ID in front;
      assert |raw| != |raw'|;
      if |raw| < |raw'| {
        SequenceLength(headers, again, front);
      } else {
        SequenceLength(again, headers, front);
      }
      EncodedLength(headers, front, body);
      EncodedLength(again, front, body);
    }
  }

  lemma EncodedLength(headers: HeaderMap, order: seq<byte>, body: Option<MultipartBody>)
    requires forall f | f in order :: f in headers
    requires body.Some? ==> FIELD_CONTENT_TYPE in headers
    requires SequenceBytes(headers, order).Ok?
    ensures EncodedWith(headers, order, body).Ok?
    ensures |EncodedWith(headers, order, body).value| ==
            |SequenceBytes(headers, order).value|
            + match body
              case None => 0
              case Some(b) => |HeaderBytes(FIELD_CONTENT_TYPE, headers[FIELD_CONTENT_TYPE])| + |MultipartBytes(b)|
  {
    hide HeaderBytes, MultipartBytes, SequenceBytes;
  }

  lemma TransactionDelimits(raw: bytes)
    requires WellFormedHeader(FIELD_TRANSACTION_ID, raw)
    ensures SelfDelimiting(Text, raw)
  {
  }

  lemma ContentTypeHeaderBytes(headers: HeaderMap, again: HeaderMap)
    requires again == Rewritten(headers) && again.Keys == headers.Keys
    ensures FIELD_CONTENT_TYPE in headers ==>
              HeaderBytes(FIELD_CONTENT_TYPE, again[FIELD_CONTENT_TYPE]) ==
              HeaderBytes(FIELD_CONTENT_TYPE, headers[FIELD_CONTENT_TYPE])
  {
  }

  lemma SequenceAllOk(headers: HeaderMap, fields: seq<byte>)
    requires WellFormedHeaders(headers) && forall f | f in fields :: f in headers
    ensures SequenceBytes(headers, fields).Ok?
    ensures forall f | f in headers :: headers[f].raw != []
  {
    hide SequenceBytes, HeaderBytes, WellFormedHeader;
    forall f | f in headers ensures headers[f].raw != [] {
      HeaderParses(f, headers[f], []);
    }
    SequenceNonEmpty(headers, fields);
  }

  lemma RewrittenNotEmpty(headers: HeaderMap)
    requires forall f | f in headers :: headers[f].raw != []
    ensures forall f | f in Rewritten(headers) :: Rewritten(headers)[f].raw != []
  {
  }

  /** Encoding fails on an empty raw value and on nothing else. */
  lemma {:induction false} SequenceNonEmpty(headers: HeaderMap, fields: seq<byte>)
    requires forall f | f in fields :: f in headers
    ensures SequenceBytes(headers, fields).Ok? <==> forall f | f in fields :: headers[f].raw != []
  {
    if fields != [] { SequenceNonEmpty(headers, fields[1..]); }
  }

  // ------------------------------------------------- what decoding produces

  /** Typed headers as the decoder builds them. */
  ghost predicate DecodedHeaders(headers: HeaderMap, order: seq<byte>) {
    && (forall f :: f in headers <==> f in order)
    && (forall f | f in headers ::
          headers[f].field == f && headers[f].kind == KindForField(f) && WellFormedHeader(f, headers[f].raw))
  }

  lemma ParsedHeaderWellFormed(s: bytes)
    requires ParseHeader(s).Ok?
    ensures var h := ParseHeader(s).value.value;
            h.kind == KindForField(h.field) && WellFormedHeader(h.field, h.raw)
  {
    hide ParseHeaderValue;
    var name := ParseHeaderName(s).value;
    var kind := KindForField(name.value);
    HeaderValueReparse(kind, name.rest, []);
    var raw := ParseHeaderValue(kind, name.rest).value.value;
    assert raw + [] == raw;
  }

  lemma {:induction false} SectionsWellFormed(s: bytes, headers: HeaderMap, order: seq<byte>)
    requires DecodedHeaders(headers, order) && FIELD_CONTENT_TYPE !in order
    ensures DecodeSections(s, headers, order).Ok? ==>
              var r := DecodeSections(s, headers, order).value;
              && DecodedHeaders(r.headers, r.order)
              && ContentTypeOnlyLast(r.order)
              && (r.body.Some? ==>
                    && r.order != [] && r.order[|r.order| - 1] == FIELD_CONTENT_TYPE
                    && AllCaseDistinct(r.body.value)
                    && forall p | p in r.body.value.parts :: WritablePart(p))
    decreases |s|
  {
    hide ParseHeader, WellFormedHeader, KindForField, DecodeBody, WritablePart, AllCaseDistinct;
    if s != [] && ParseHeader(s).Ok? {
      var h := ParseHeader(s).value;
      var field := h.value.field;
      ParsedHeaderWellFormed(s);
      var headers' := headers[field := h.value];
      var order' := order + [field];
      assert forall f :: f in order' <==> f in order || f == field;
      if field == FIELD_CONTENT_TYPE {
        if h.rest != [] {
          if DecodeBody(h.rest).Ok? { DecodedBodyWritable(h.rest); }
        } else {
          SectionsAtEnd(headers', order');
        }
      } else {
        SectionsWellFormed(h.rest, headers', order');
      }
    }
  }

  /** With readable headers everything is read back but the body, and the body as it reads on its own. */
  lemma BodyAlone(p: PDU)
    requires p.body.Some? && WellFormedHeaders(MergedHeaders(p))
    ensures EncodePDU(p).Ok?
    ensures DecodePDU(EncodePDU(p).value) ==
            match DecodeBody(MultipartBytes(p.body.value))
            case Ok(b) => Ok(Canonical(p).(body := Some(b)))
            case Err(e) => Err(e)
  {
    hide DecodeSections, WellFormedHeader, HeaderBytes, MultipartBytes, NormalBody, SequenceBytes,
      OrderedEmission, MergedHeaders, NamedFields, DecodeBody, DecodeShortInteger;
    var headers := MergedHeaders(p);
    var front := WithoutContentType(headers);
    MergedHaveContentType(p);
    OrderedEmissionFields(front, p.headerOrder);
    WithBodySections(headers, OrderedEmission(front, p.headerOrder), p.body.value);
    var body := DecodeBody(MultipartBytes(p.body.value));
    if body.Ok? {
      NamedFieldsOfTyped(headers, WrittenOrder(p), Some(body.value));
    }
  }

  lemma TypedWellFormed(headers: HeaderMap)
    ensures WellFormedHeaders(Typed(headers)) ==> WellFormedHeaders(headers)
  {
    hide WellFormedHeader, DecodeShortInteger, KindForField;
    forall f | f in headers
      ensures f in Typed(headers) && Typed(headers)[f].raw == headers[f].raw
    {
    }
  }

  /**
   A PDU is read back in canonical form exactly when it is well-formed. What can go wrong is a
   field code above 0x7F, a header value that ends too early or too late, a Content-Type in the
   middle, or a body with a NUL in its part headers or a length of 2^35.
   */
  lemma PDUExact(p: PDU)
    ensures EncodePDU(p).Ok? && DecodePDU(EncodePDU(p).value) == Ok(Canonical(p)) <==> WellFormed(p)
  {
    if WellFormed(p) {
      PDURoundTrip(p);
    } else if EncodePDU(p).Ok? && DecodePDU(EncodePDU(p).value) == Ok(Canonical(p)) {
      hide DecodeSections, WellFormedHeader, HeaderBytes, MultipartBytes, EncodableBody, NormalBody, SequenceBytes,
        OrderedEmission, MergedHeaders, DecodeBody, DecodeShortInteger, KindForField;
      var data := EncodePDU(p).value;
      var headers := MergedHeaders(p);
      var sections := DecodeSections(data, map[], []).value;
      SectionsWellFormed(data, map[], []);
      NamedVersion(sections);
      TypedWellFormed(headers);
      match p.body
      case None =>
      case Some(body) =>
        var front := WithoutContentType(headers);
        MergedHaveContentType(p);
        OrderedEmissionFields(front, p.headerOrder);
        WithBodySections(headers, OrderedEmission(front, p.headerOrder), body);
        BodyReads(body);
    }
  }

  /** The lengths of every part frame fit the uintvar decoder. */
  ghost predicate FitsFrames(p: PDU) {
    p.body.Some? ==> BodyFits(p.body.value)
  }

  lemma RewrittenWellFormed(headers: HeaderMap)
    requires WellFormedHeaders(headers)
    ensures WellFormedHeaders(Rewritten(headers))
  {
    hide SelfDelimiting, DecodeText, EncodeText, DecodeShortInteger, KindForField;
    TransactionPresent(headers);
    NamedKinds();
    if TransactionIn(headers) != [] {
      DecodedTextHasNoNul(headers[FIELD_TRANSACTION_ID].raw);
      TextDelimits(FIELD_TRANSACTION_ID, TransactionIn(headers));
    }
    assert forall f | f in headers :: WellFormedHeader(f, headers[f].raw);
  }

  /** A decoded body was decoded from what followed the Content-Type. */
  lemma {:induction false} SectionsBody(s: bytes, headers: HeaderMap, order: seq<byte>) returns (tail: bytes)
    ensures DecodeSections(s, headers, order).Ok? && DecodeSections(s, headers, order).value.body.Some? ==>
              |tail| < |s| && DecodeBody(tail) == Ok(DecodeSections(s, headers, order).value.body.value)
    decreases |s|
  {
    hide ParseHeader, DecodeBody;
    tail := [];
    if s != [] && ParseHeader(s).Ok? {
      var h := ParseHeader(s).value;
      if h.value.field == FIELD_CONTENT_TYPE && h.rest != [] {
        tail := h.rest;
      } else {
        tail := SectionsBody(h.rest, headers[h.value.field := h.value], order + [h.value.field]);
      }
    }
  }

  /** An input shorter than 2^28 bytes never decodes to a frame that is too long. */
  lemma ShortInputFits(data: bytes)
    ensures DecodePDU(data).Ok? && |data| < UINTVAR_BOUND / 128 ==> FitsFrames(DecodePDU(data).value)
  {
    hide DecodeSections, DecodeBody, BodyFits;
    var tail := SectionsBody(data, map[], []);
    if |tail| < UINTVAR_BOUND / 128 {
      ShortBodyFits(tail);
    }
  }

  /** Whatever decodes is well-formed exactly if its frames fit, which those of a short input do. */
  lemma DecodedWellFormed(data: bytes)
    ensures DecodePDU(data).Ok? ==> (WellFormed(DecodePDU(data).value) <==> FitsFrames(DecodePDU(data).value))
    ensures DecodePDU(data).Ok? && |data| < UINTVAR_BOUND / 128 ==> WellFormed(DecodePDU(data).value)
  {
    if DecodePDU(data).Ok? {
      hide DecodeSections, WellFormedHeader, OrderedEmission, OverriddenHeaders, DecodeShortInteger, EncodableBody,
        WritablePart, FitsFrame, DecodeBody, FitsFrames, AllCaseDistinct;
      ShortInputFits(data);
      var tail := SectionsBody(data, map[], []);
      DecodedCount(tail);
      var q := DecodePDU(data).value;
      var sections := DecodeSections(data, map[], []).value;
      SectionsWellFormed(data, map[], []);
      NamedVersion(sections);
      var headers := sections.headers;
      assert Typed(headers) == headers;
      NamedFieldsOfTyped(headers, sections.order, sections.body);
      OverriddenAfterDecoding(headers, sections.order, sections.body);
      RewrittenWellFormed(headers);
      TransactionPresent(headers);
      match q.body
      case None =>
        FramesOfNone(q);
        EmissionAlongWritten(Rewritten(headers), sections.order, false);
      case Some(body) =>
        assert FIELD_CONTENT_TYPE in sections.order;
        EncodableIf(q);
    }
  }

  lemma FramesOfNone(p: PDU)
    ensures p.body.None? ==> FitsFrames(p)
  {
  }

  lemma EncodableIf(p: PDU)
    requires p.body.Some? && |p.body.value.parts| < UINTVAR_BOUND
    requires forall part | part in p.body.value.parts :: WritablePart(part)
    ensures EncodableBody(p.body.value) <==> FitsFrames(p)
  {
    hide WritablePart, FitsFrame;
  }

  lemma NamedVersion(s: Sections)
    requires NamedFields(s).Ok? && DecodedHeaders(s.headers, s.order)
    ensures WellFormedHeaders(s.headers)
  {
    hide WellFormedHeader;
    NamedKinds();
  }

  /**
   Decode, encode, decode: the second decoding gives the canonical form of the first exactly if
   the frames fit, as they do for an input shorter than 2^28 bytes, and encoding that form gives
   the same bytes again. No header keys of a decoded part clash, so the bytes are determined.
   */
  lemma DecodeEncodeDecode(data: bytes)
    ensures DecodePDU(data).Ok? ==>
              var q := DecodePDU(data).value;
              && (EncodePDU(q).Ok? && DecodePDU(EncodePDU(q).value) == Ok(Canonical(q)) <==> FitsFrames(q))
              && (|data| < UINTVAR_BOUND / 128 ==> FitsFrames(q))
              && (FitsFrames(q) ==> EncodePDU(Canonical(q)) == EncodePDU(q))
              && (q.body.Some? ==> AllCaseDistinct(q.body.value))
  {
    if DecodePDU(data).Ok? {
      var q := DecodePDU(data).value;
      DecodedBodySettled(data);
      hide DecodePDU, EncodePDU, Canonical, WellFormed, MergedHeaders, FitsFrames;
      DecodedWellFormed(data);
      ShortInputFits(data);
      PDUExact(q);
      if WellFormed(q) {
        CanonicalFixedPoint(q);
        DecodedTransactionCanonical(data);
      }
    }
  }

  lemma DecodedBodySettled(data: bytes)
    ensures DecodePDU(data).Ok? && DecodePDU(data).value.body.Some? ==>
              AllCaseDistinct(DecodePDU(data).value.body.value)
  {
    hide DecodeSections, WellFormedHeader, DecodeShortInteger, AllCaseDistinct;
    SectionsWellFormed(data, map[], []);
  }

  /** A decoded PDU carries its transaction ID as text, so writing it is canonical from then on. */
  lemma DecodedTransactionCanonical(data: bytes)
    ensures DecodePDU(data).Ok? ==> CanonicalTransaction(MergedHeaders(DecodePDU(data).value))
  {
    hide DecodeSections, WellFormedHeader, DecodeShortInteger, EncodeText, DecodeText, WrittenOrder, EncodableBody;
    if DecodePDU(data).Ok? {
      var sections := DecodeSections(data, map[], []).value;
      SectionsWellFormed(data, map[], []);
      NamedVersion(sections);
      var headers := sections.headers;
      assert Typed(headers) == headers;
      NamedFieldsOfTyped(headers, sections.order, sections.body);
      OverriddenAfterDecoding(headers, sections.order, sections.body);
      NamedDiffer();
      if TransactionIn(headers) != [] {
        DecodedTextHasNoNul(headers[FIELD_TRANSACTION_ID].raw);
        TextRoundTrip(TransactionIn(headers));
      }
    }
  }

  // ------------------------------------------------------------ every byte used

  /** Headers one after another, each its name and its raw value. */
  function ListedBytes(values: seq<HeaderValue>): bytes {
    if values == [] then [] else HeaderBytes(values[0].field, values[0]) + ListedBytes(values[1..])
  }

  function FieldsOf(values: seq<HeaderValue>): seq<byte> {
    seq(|values|, i requires 0 <= i < |values| => values[i].field)
  }

  /** The last value of each field. */
  function LastOfEach(values: seq<HeaderValue>, headers: HeaderMap): HeaderMap {
    if values == [] then headers else LastOfEach(values[1..], headers[values[0].field := values[0]])
  }

  /** What a header is read from is its name and its raw value. */
  lemma ParsedHeaderUsed(s: bytes)
    requires ParseHeader(s).Ok?
    ensures var h := ParseHeader(s).value; s == HeaderBytes(h.value.field, h.value) + h.rest
  {
    hide ParseHeaderValue;
    var name := ParseHeaderName(s).value;
    HeaderValueReparse(KindForField(name.value), name.rest, []);
    assert s == [s[0]] + s[1..];
  }

  lemma {:induction false} SectionsPartition(s: bytes, headers: HeaderMap, order: seq<byte>)
    returns (values: seq<HeaderValue>, tail: bytes)
    ensures DecodeSections(s, headers, order).Ok? ==>
              var r := DecodeSections(s, headers, order).value;
              && s == ListedBytes(values) + tail
              && r.order == order + FieldsOf(values)
              && r.headers == LastOfEach(values, headers)
              && (if r.body.None? then tail == [] else tail != [] && DecodeBody(tail) == Ok(r.body.value))
    decreases |s|
  {
    hide ParseHeader, HeaderBytes, DecodeBody;
    values, tail := [], s;
    if DecodeSections(s, headers, order).Ok? {
      if s == [] {
        assert [] + s == s && order + FieldsOf([]) == order;
      } else {
        var h := ParseHeader(s).value;
        ParsedHeaderUsed(s);
        var more: seq<HeaderValue> := [];
        if h.value.field == FIELD_CONTENT_TYPE && h.rest != [] {
          tail := h.rest;
          assert ListedBytes([]) + h.rest == h.rest;
        } else {
          more, tail := SectionsPartition(h.rest, headers[h.value.field := h.value], order + [h.value.field]);
        }
        values := [h.value] + more;
        assert values[1..] == more;
        assert FieldsOf(values) == [h.value.field] + FieldsOf(more);
        ConcatAssociative(HeaderBytes(h.value.field, h.value), ListedBytes(more), tail);
        ConcatAssociative(order, [h.value.field], FieldsOf(more));
      }
    }
  }

  /**
   What is decoded accounts for every byte: the headers in the order kept, each its name and its raw
   value, the last of a field being the one that counts; then the body, if there is one.
   */
  lemma PDUPartition(data: bytes) returns (values: seq<HeaderValue>, tail: bytes)
    ensures DecodePDU(data).Ok? ==>
              var p := DecodePDU(data).value;
              && data == ListedBytes(values) + tail
              && p.headerOrder == FieldsOf(values) && p.headers == LastOfEach(values, map[])
              && (if p.body.None? then tail == [] else tail != [] && DecodeBody(tail) == Ok(p.body.value))
  {
    hide DecodeSections, DecodeBody;
    values, tail := SectionsPartition(data, map[], []);
    assert [] + FieldsOf(values) == FieldsOf(values);
  }
}
