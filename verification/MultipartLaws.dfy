/**
 What the multipart codec guarantees: round trip up to normalisation,
 canonical encodings, and decoding that accounts for every byte.
 */
module MultipartLaws {
  import opened Bytes
  import opened Sorting
  import opened Reader
  import opened Fields
  import opened Headers
  import opened ContentType
  import opened Multipart

  // ----------------------------------------------------------- part contents

  /** Lower-case headers with no NUL; the empty key is never written. */
  predicate EncodableHeaders(lowered: map<text, text>) {
    forall k | k in lowered :: IsLower(k) && 0 !in k && (k != [] ==> 0 !in lowered[k])
  }

  /** No NUL anywhere in what is written of the headers, and parameter keys the encoder can look up. */
  ghost predicate WritablePart(p: Part) {
    && EncodableHeaders(Lowered(p.headers))
    && EncodableParams(p.contentTypeParams)
  }

  /** Said of the headers themselves when no keys clash. */
  lemma WritableDirectly(p: Part)
    requires CaseDistinct(p.headers)
    ensures WritablePart(p) <==>
            && (forall k | k in p.headers && k != [] :: 0 !in k && 0 !in p.headers[k])
            && EncodableParams(p.contentTypeParams)
  {
    var lowered := Lowered(p.headers);
    forall k | k in p.headers
      ensures ToLower(k) in lowered && lowered[ToLower(k)] == p.headers[k]
      ensures 0 in k <==> 0 in ToLower(k)
    {
      assert ToLower(k) in LowerKeys(p.headers);
      assert forall i | 0 <= i < |k| :: k[i] == 0 <==> ToLower(k)[i] == 0;
    }
    forall k | k in lowered
      ensures IsLower(k) && ToLower(OriginalKey(p.headers, k)) == k
    {
      ToLowerIdempotent(OriginalKey(p.headers, k));
    }
  }

  /** Both lengths of the part's frame fit the uintvar decoder. */
  ghost predicate FitsFrame(p: Part) {
    |PartHeaderBlock(p, Lowered(p.headers))| < UINTVAR_BOUND && |p.data| < UINTVAR_BOUND
  }

  ghost predicate EncodableBody(b: MultipartBody) {
    && (forall p | p in b.parts :: WritablePart(p) && FitsFrame(p))
    && |b.parts| < UINTVAR_BOUND
  }

  lemma TextRawParses(value: text, suffix: bytes)
    requires 0 !in value
    ensures ParsePartRaw(PartTextBytes(value) + suffix) == Ok(Parsed(PartTextBytes(value), suffix))
    ensures ParseUntilNull(PartTextBytes(value) + suffix) == Ok(Parsed(PartTextBytes(value), suffix))
    ensures DecodePartText(PartTextBytes(value)) == Ok(value)
  {
    if value == [] {
      QuotedRawParses([], suffix);
    } else {
      EscapedFirst(value);
      TextSelfDelimiting(value, suffix);
      TextRoundTrip(value);
    }
  }

  lemma QuotedRawParses(value: text, suffix: bytes)
    requires 0 !in value
    ensures ParsePartRaw(EncodeQuoted(value) + suffix) == Ok(Parsed(EncodeQuoted(value), suffix))
    ensures ParseUntilNull(EncodeQuoted(value) + suffix) == Ok(Parsed(EncodeQuoted(value), suffix))
    ensures DecodePartText(EncodeQuoted(value)) == Ok(value)
  {
    ParseUntilNullOf([0x22] + value, suffix);
    QuotedRoundTrip(value);
  }

  lemma PartParamRawParses(key: text, value: text, suffix: bytes)
    requires EncodableText(value)
    ensures ParsePartRaw(ParamValueBytes(key, value) + suffix) == Ok(Parsed(ParamValueBytes(key, value), suffix))
  {
    var raw := ParamValueBytes(key, value);
    if key == Ascii("type") && MediaTypeToken(ToLower(value)).Some? {
      TokensNameTheirTexts(ToLower(value));
      ParseNOf(raw, suffix);
    } else {
      assert raw == PartTextBytes(value);
      TextRawParses(value, suffix);
    }
  }

  /** Reading a text string after its first byte has been taken. */
  lemma TextTailParses(key: text, suffix: bytes)
    requires key != [] && 0 !in key
    ensures var s := EncodeText(key) + suffix;
            ParseUntilNullFrom(s[0], s[1..]) == Ok(Parsed(EncodeText(key), suffix))
  {
    hide ParseUntilNull;
    var tail := Escaped(key)[1..];
    ParseUntilNullOf(tail, suffix);
    var s := EncodeText(key) + suffix;
    assert s[1..] == tail + [0] + suffix;
    assert [s[0]] + (tail + [0]) == EncodeText(key);
  }

  lemma PartParamNameParses(key: text, suffix: bytes)
    requires EncodableKey(key)
    ensures ParsePartParamName(ParamNameBytes(key) + suffix) == Ok(Parsed(key, suffix))
  {
    hide DecodeText, ParseUntilNullFrom, MediaTypeToken, MediaTypeName;
    TokensNameTheirTexts(key);
    var s := ParamNameBytes(key) + suffix;
    if ParamToken(key).None? {
      EscapedFirst(key);
      TextTailParses(key, suffix);
      TextRoundTrip(key);
    } else {
      assert s[1..] == suffix;
    }
  }

  lemma {:induction false} PartParamsParse(source: map<text, text>, keys: seq<text>, params: map<text, text>)
    requires EncodableParams(source) && forall k | k in keys :: k in source
    ensures ParsePartParams(ParamsBytes(source, keys), params) == Ok(PutAll(NormalParams(source), keys, params))
    decreases |keys|
  {
    if keys != [] {
      var key := keys[0];
      var value := source[key];
      var tail := ParamsBytes(source, keys[1..]);
      var s := ParamsBytes(source, keys);
      PartParamParses(key, value, tail);
      ConcatAssociative(ParamNameBytes(key), ParamValueBytes(key, value), tail);
      assert ParsePartParam(s) == Ok(Parsed(Some((key, NormalParam(key, value))), tail));
      PartParamsParse(source, keys[1..], params[key := NormalParam(key, value)]);
    }
  }

  lemma PartParamParses(key: text, value: text, tail: bytes)
    requires EncodableKey(key) && EncodableText(value)
    ensures ParsePartParam(ParamNameBytes(key) + (ParamValueBytes(key, value) + tail)) ==
            Ok(Parsed(Some((key, NormalParam(key, value))), tail))
  {
    PartParamNameParses(key, ParamValueBytes(key, value) + tail);
    PartParamRawParses(key, value, tail);
    ParamValueDecodes(key, value);
  }

  /** The part-level decoder inverts the encoder for every encodable value, in front of any suffix. */
  lemma PartContentTypeRoundTrip(v: ContentTypeValue, suffix: bytes)
    requires EncodableContentType(v)
    ensures ParsePartContentType(ContentTypeBytes(v) + suffix) == Ok(Parsed(NormalContentType(v), suffix))
  {
    var mediaType := NormalMediaType(v.mediaType);
    NormalMediaTypeShape(v.mediaType);
    if v.params == map[] {
      ConstrainedMediaParses(mediaType, suffix);
      assert NormalContentType(v) == ContentTypeValue(mediaType, map[]);
    } else {
      var payload := ContentTypePayload(v);
      PartPayloadDecodes(v);
      ConcatAssociative(ValueLengthBytes(|payload|), payload, suffix);
      hide DecodePartPayload, ContentTypePayload, NormalContentType;
      CountedParses(payload, suffix);
    }
  }

  /** A counted payload is cut out and decoded, and what is behind it is left. */
  lemma CountedParses(payload: bytes, suffix: bytes)
    requires |payload| < UINTVAR_BOUND
    ensures ParsePartContentType(ValueLengthBytes(|payload|) + (payload + suffix)) ==
            match DecodePartPayload(payload)
            case Ok(v) => Ok(Parsed(v, suffix))
            case Err(e) => Err(e)
  {
    hide DecodePartPayload, ParseUintvar, Uintvar;
    var s := ValueLengthBytes(|payload|) + (payload + suffix);
    ValueLengthExact(|payload|, payload + suffix);
    assert s[0] <= 0x1F;
    assert (payload + suffix)[..|payload|] == payload && (payload + suffix)[|payload|..] == suffix;
  }

  lemma ConstrainedMediaParses(mediaType: text, suffix: bytes)
    requires mediaType != [] && 0 !in mediaType
    ensures ParsePartContentType(MediaTypeBytes(mediaType) + suffix) ==
            Ok(Parsed(ContentTypeValue(mediaType, map[]), suffix))
  {
    TokensNameTheirTexts(mediaType);
    if MediaTypeToken(mediaType).None? {
      EscapedFirst(mediaType);
      TextSelfDelimiting(mediaType, suffix);
      TextRoundTrip(mediaType);
    } else {
      assert (MediaTypeBytes(mediaType) + suffix)[1..] == suffix;
    }
  }

  lemma PartPayloadDecodes(v: ContentTypeValue)
    requires EncodableContentType(v)
    ensures DecodePartPayload(ContentTypePayload(v)) == Ok(NormalContentType(v))
  {
    NormalMediaTypeShape(v.mediaType);
    MediaTypeParses(NormalMediaType(v.mediaType), ParamsBytes(v.params, ParamKeys(v.params)));
    NormalParamsListed(v.params);
    PartParamsParse(v.params, ParamKeys(v.params), map[]);
  }

  /** The two decoders agree wherever the header-level one can read the value at all. */
  lemma ContentTypeDecodersAgree(v: ContentTypeValue)
    requires EncodableContentType(v) && HeaderReadable(v)
    ensures DecodeContentType(ContentTypeBytes(v)) == Ok(NormalContentType(v))
    ensures ParsePartContentType(ContentTypeBytes(v)) == Ok(Parsed(NormalContentType(v), []))
  {
    hide ContentTypeBytes, ParsePartContentType, DecodeContentType;
    PartContentTypeRoundTrip(v, []);
    assert ContentTypeBytes(v) + [] == ContentTypeBytes(v);
    ContentTypeRoundTrip(v);
  }

  /**
   On other bytes they can differ: a parameter with an unknown token stops one decoder and is
   skipped by the other.
   */
  lemma DecodersDiffer()
    ensures var data: bytes := [3, 0x83, 0x90, 0x81];
            && DecodeContentType(data).Err?
            && ParsePartContentType(data) == Ok(Parsed(ContentTypeValue(Ascii("text/plain"), map[]), []))
  {
    var data: bytes := [3, 0x83, 0x90, 0x81];
    hide Ascii;
    assert data[1..] == [0x83, 0x90, 0x81] && data[1..][..3] == data[1..] && data[1..][3..] == [];
    assert [0x83, 0x90, 0x81][1..] == [0x90, 0x81] && [0x90, 0x81][1..] == [0x81] && [0x81][1..] == [];
  }

  // ------------------------------------------------------------ part headers

  lemma PartHeaderParses(key: text, value: text, tail: bytes)
    requires key != [] && IsLower(key) && 0 !in key && 0 !in value
    ensures PartHeaderBytes(key, value) != []
    ensures ParsePartHeader(PartHeaderBytes(key, value) + tail) ==
            Ok(Parsed(Some((key, NormalHeader(key, value))), tail))
  {
    hide ParsePartHeader;
    if key == ContentId() {
      var cid := EnsureAngleBrackets(value);
      QuotedRawParses(cid, tail);
      KnownHeaderParses(0xC0, EncodeQuoted(cid), tail);
    } else if key == ContentLocation() {
      TextRawParses(value, tail);
      KnownHeaderParses(0x8E, PartTextBytes(value), tail);
    } else {
      TextHeaderParses(key, value, tail);
    }
  }

  lemma KnownHeaderParses(name: byte, raw: bytes, tail: bytes)
    requires name == 0xC0 || name == 0x8E
    requires ParsePartRaw(raw + tail) == Ok(Parsed(raw, tail)) && DecodePartText(raw).Ok?
    ensures ParsePartHeader([name] + raw + tail) ==
            Ok(Parsed(Some((if name == 0xC0 then ContentId() else ContentLocation(), DecodePartText(raw).value)), tail))
  {
    hide ParsePartRaw, DecodePartText;
    assert ([name] + raw + tail)[1..] == raw + tail;
  }

  lemma TextHeaderParses(key: text, value: text, tail: bytes)
    requires key != [] && IsLower(key) && 0 !in key && 0 !in value
    ensures ParsePartHeader(EncodeText(key) + PartTextBytes(value) + tail) == Ok(Parsed(Some((key, value)), tail))
  {
    hide DecodePartText, DecodeText, ParseUntilNull, PartTextBytes;
    ConcatAssociative(EncodeText(key), PartTextBytes(value), tail);
    EscapedFirst(key);
    TextSelfDelimiting(key, PartTextBytes(value) + tail);
    TextRoundTrip(key);
    TextRawParses(value, tail);
  }

  lemma {:induction false} PartHeadersParse(lowered: map<text, text>, keys: seq<text>, headers: map<text, text>)
    requires EncodableHeaders(lowered) && forall k | k in keys :: k in lowered
    ensures ParsePartHeaders(PartHeadersBytes(lowered, keys), headers) ==
            Ok(PutAll(NormalHeaders(lowered), keys, headers))
    decreases |keys|
  {
    hide ParsePartHeader, PartHeaderBytes;
    if keys != [] {
      var key := keys[0];
      var tail := PartHeadersBytes(lowered, keys[1..]);
      if key == [] {
        EmptyHeaderKey(lowered[key]);
        assert PartHeadersBytes(lowered, keys) == tail;
        PartHeadersParse(lowered, keys[1..], headers);
      } else {
        PartHeaderParses(key, lowered[key], tail);
        PartHeadersParse(lowered, keys[1..], headers[key := NormalHeader(key, lowered[key])]);
      }
    }
  }

  lemma EmptyHeaderKey(value: text)
    ensures PartHeaderBytes([], value) == []
  {
  }

  lemma PartHeaderBlockRoundTrip(p: Part)
    requires WritablePart(p) && FitsFrame(p)
    ensures DecodePartHeaderBlock(PartHeaderBlock(p, Lowered(p.headers))) == Ok(NormalPart(p).(data := []))
  {
    hide ParsePartContentType, ContentTypeBytes, Lowered, Ascending;
    var lowered := Lowered(p.headers);
    var keys := Ascending(TextLe, lowered.Keys);
    var v := PartContentType(p);
    TextOrder();
    AscendingShape(TextLe, lowered.Keys);
    forall k ensures k in keys <==> k in lowered {
      assert k in (set x | x in keys) <==> k in lowered.Keys;
    }
    ContentTypeBytesLength(v);
    PartContentTypeRoundTrip(v, PartHeadersBytes(lowered, keys));
    PartHeadersParse(lowered, keys, map[]);
    PutListing(NormalHeaders(lowered), keys);
  }

  lemma ContentTypeBytesLength(v: ContentTypeValue)
    ensures ContentTypeBytes(v) != []
    ensures |ContentTypePayload(v)| <= |ContentTypeBytes(v)|
  {
    if v.params == map[] {
      assert Listing<text>({}) == [];
      assert v.params.Keys == {};
    }
  }

  // ------------------------------------------------------------------ frames

  /** Two lengths that read as described, then block and payload, make a frame. */
  lemma FrameFrom(a: bytes, b: bytes, block: bytes, data: bytes, suffix: bytes)
    requires ParseUintvar(a + (b + (block + data + suffix))) == Ok(Parsed(|block|, b + (block + data + suffix)))
    requires ParseUintvar(b + (block + data + suffix)) == Ok(Parsed(|data|, block + data + suffix))
    ensures ParseFrame(a + (b + (block + data)) + suffix) == Ok(Parsed(Frame(block, data), suffix))
  {
    hide ParseUintvar;
    var rest := block + data + suffix;
    FrameConcat(a, b, block + data, suffix);
    assert rest[..|block|] == block;
    assert rest[|block|..] == data + suffix;
    assert (data + suffix)[..|data|] == data && (data + suffix)[|data|..] == suffix;
  }

  lemma FrameConcat(a: bytes, b: bytes, c: bytes, t: bytes)
    ensures a + (b + (c + t)) == a + (b + c) + t
  {
    ConcatAssociative(a, b + c, t);
    ConcatAssociative(b, c, t);
  }

  lemma FrameRoundTrip(block: bytes, data: bytes, suffix: bytes)
    requires |block| < UINTVAR_BOUND && |data| < UINTVAR_BOUND
    ensures ParseFrame(Uintvar(|block|) + (Uintvar(|data|) + (block + data)) + suffix) ==
            Ok(Parsed(Frame(block, data), suffix))
  {
    hide ParseUintvar, Uintvar, ParseFrame;
    UintvarExact(|block|, Uintvar(|data|) + (block + data + suffix));
    UintvarExact(|data|, block + data + suffix);
    FrameFrom(Uintvar(|block|), Uintvar(|data|), block, data, suffix);
  }

  lemma PartRoundTrip(p: Part, suffix: bytes)
    requires WritablePart(p) && FitsFrame(p)
    ensures ParsePart(PartBytes(p) + suffix) == Ok(Parsed(NormalPart(p), suffix))
  {
    hide ParseFrame, DecodePartHeaderBlock, PartHeaderBlock, Uintvar;
    var block := PartHeaderBlock(p, Lowered(p.headers));
    FrameRoundTrip(block, p.data, suffix);
    PartHeaderBlockRoundTrip(p);
  }

  lemma {:induction false} PartsRoundTrip(parts: seq<Part>, done: seq<Part>, suffix: bytes)
    requires forall p | p in parts :: WritablePart(p) && FitsFrame(p)
    ensures ParseParts(PartsBytes(parts) + suffix, |parts|, done) ==
            Ok(Parsed(done + NormalParts(parts), suffix))
    decreases |parts|
  {
    hide ParsePart, PartBytes, NormalPart, WritablePart, FitsFrame;
    if parts == [] {
      assert PartsBytes(parts) + suffix == suffix;
      assert done + NormalParts(parts) == done;
    } else {
      ConcatAssociative(PartBytes(parts[0]), PartsBytes(parts[1..]), suffix);
      PartRoundTrip(parts[0], PartsBytes(parts[1..]) + suffix);
      PartsRoundTrip(parts[1..], done + [NormalPart(parts[0])], suffix);
      assert done + [NormalPart(parts[0])] + NormalParts(parts[1..]) == done + NormalParts(parts);
    }
  }

  /** Each part takes at least two bytes, so the count passes the decoder's plausibility check. */
  lemma {:induction false} PartsBytesLength(parts: seq<Part>)
    ensures |PartsBytes(parts)| >= 2 * |parts|
  {
    hide PartHeaderBlock;
    if parts != [] { PartsBytesLength(parts[1..]); }
  }

  /** Decoding what was encoded gives the normalised body, whatever follows it. */
  lemma MultipartRoundTrip(b: MultipartBody, suffix: bytes)
    requires EncodableBody(b)
    ensures DecodeBody(MultipartBytes(b) + suffix) == Ok(NormalBody(b))
  {
    hide ParseUintvar, ParseParts, PartsBytes, Uintvar, WritablePart, FitsFrame, NormalParts;
    var count := Uintvar(|b.parts|);
    UintvarNotEmpty(|b.parts|);
    ConcatAssociative(count, PartsBytes(b.parts), suffix);
    UintvarExact(|b.parts|, PartsBytes(b.parts) + suffix);
    PartsBytesLength(b.parts);
    PartsRoundTrip(b.parts, [], suffix);
    assert [] + NormalParts(b.parts) == NormalParts(b.parts);
  }

  lemma UintvarNotEmpty(n: nat)
    ensures Uintvar(n) != []
  {
  }

  // --------------------------------------------------------------- canonical

  lemma AscendingSkipsEmpty(keys: set<text>, empty: text)
    requires empty == [] && empty in keys
    ensures Ascending(TextLe, keys) == [empty] + Ascending(TextLe, keys - {empty})
  {
    hide Ascending;
    TextOrder();
    AscendingShape(TextLe, keys - {empty});
    var rest := Ascending(TextLe, keys - {empty});
    var whole := [empty] + rest;
    assert (set x | x in rest) == keys - {empty};
    assert (set x | x in whole) == {empty} + (set x | x in rest);
    assert empty !in rest by { assert empty !in (set x | x in rest); }
    SortedListing(TextLe, whole, keys);
  }

  lemma {:induction false} PartHeadersCanonical(lowered: map<text, text>, keys: seq<text>)
    requires [] !in keys && forall k | k in keys :: k in lowered
    ensures PartHeadersBytes(NormalHeaders(lowered), keys) == PartHeadersBytes(lowered, keys)
  {
    if keys != [] { PartHeadersCanonical(lowered, keys[1..]); }
  }

  lemma HeadersCanonical(lowered: map<text, text>)
    ensures var normal := NormalHeaders(lowered);
            PartHeadersBytes(normal, Ascending(TextLe, normal.Keys)) ==
            PartHeadersBytes(lowered, Ascending(TextLe, lowered.Keys))
  {
    hide PartHeaderBytes, Ascending;
    var normal := NormalHeaders(lowered);
    var keys := Ascending(TextLe, normal.Keys);
    assert normal.Keys == lowered.Keys - {[]};
    TextOrder();
    AscendingShape(TextLe, normal.Keys);
    forall k ensures k in keys <==> k in normal {
      assert k in (set x | x in keys) <==> k in normal.Keys;
    }
    PartHeadersCanonical(lowered, keys);
    if [] in lowered {
      AscendingSkipsEmpty(lowered.Keys, []);
      EmptyHeaderKey(lowered[[]]);
      assert ([[]] + keys)[1..] == keys;
    } else {
      assert normal.Keys == lowered.Keys;
    }
  }

  lemma LoweredIsLower(m: map<text, text>)
    ensures forall k | k in Lowered(m) :: IsLower(k)
  {
    forall k | k in Lowered(m) ensures IsLower(k) {
      ToLowerIdempotent(OriginalKey(m, k));
    }
  }

  /** The headers of a normalised part are settled. */
  lemma NormalHeadersLowered(lowered: map<text, text>)
    requires forall k | k in lowered :: IsLower(k)
    ensures Lowered(NormalHeaders(lowered)) == NormalHeaders(lowered)
    ensures NormalHeaders(NormalHeaders(lowered)) == NormalHeaders(lowered)
    ensures CaseDistinct(NormalHeaders(lowered))
  {
    LoweredOfLower(NormalHeaders(lowered));
  }

  /** The encoder does not see whether a part was normalised. */
  lemma SameBlock(p: Part)
    ensures PartHeaderBlock(NormalPart(p), Lowered(NormalPart(p).headers)) == PartHeaderBlock(p, Lowered(p.headers))
    ensures FitsFrame(NormalPart(p)) <==> FitsFrame(p)
    ensures PartBytes(NormalPart(p)) == PartBytes(p)
  {
    hide ContentTypeBytes, Ascending, PartHeaderBytes, PartHeadersBytes, Lowered, CaseDistinct, NormalHeaders,
      NormalMediaType, NormalParams, Uintvar, IsLower;
    LoweredIsLower(p.headers);
    NormalHeadersLowered(Lowered(p.headers));
    HeadersCanonical(Lowered(p.headers));
    ContentTypeCanonical(PartContentType(p));
  }

  /** Normalising keeps every NUL and adds none. */
  lemma NormalHeadersEncodable(lowered: map<text, text>)
    requires forall k | k in lowered :: IsLower(k)
    ensures EncodableHeaders(NormalHeaders(lowered)) <==> EncodableHeaders(lowered)
  {
    hide IsLower, ContentId;
    forall k | k in lowered && k != []
      ensures k in NormalHeaders(lowered) && (0 in NormalHeaders(lowered)[k] <==> 0 in lowered[k])
    {
    }
  }

  lemma NormalParamsEncodable(params: map<text, text>)
    ensures EncodableParams(NormalParams(params)) <==> EncodableParams(params)
  {
    forall k | k in params
      ensures k in NormalParams(params) && (0 in NormalParam(k, params[k]) <==> 0 in params[k])
    {
      assert forall i | 0 <= i < |params[k]| :: params[k][i] == 0 <==> ToLower(params[k])[i] == 0;
    }
  }

  lemma SameWritable(p: Part)
    ensures WritablePart(NormalPart(p)) <==> WritablePart(p)
  {
    hide Lowered, CaseDistinct, NormalHeaders, NormalMediaType, NormalParams, EncodableHeaders, EncodableParams,
        IsLower;
    LoweredIsLower(p.headers);
    NormalHeadersLowered(Lowered(p.headers));
    NormalHeadersEncodable(Lowered(p.headers));
    NormalParamsEncodable(p.contentTypeParams);
  }

  /**
   Normalising again changes nothing, the encoder does not see the difference, and it makes no
   part readable that was not.
   */
  lemma PartCanonical(p: Part)
    ensures NormalPart(NormalPart(p)) == NormalPart(p)
    ensures PartBytes(NormalPart(p)) == PartBytes(p)
    ensures WritablePart(NormalPart(p)) <==> WritablePart(p)
    ensures FitsFrame(NormalPart(p)) <==> FitsFrame(p)
  {
    hide PartBytes, WritablePart, FitsFrame, Lowered, NormalHeaders, NormalMediaType, NormalParams;
    SameBlock(p);
    SameWritable(p);
    LoweredIsLower(p.headers);
    NormalHeadersLowered(Lowered(p.headers));
    NormalMediaTypeShape(p.contentType);
    NormalParamsIdempotent(p.contentTypeParams);
  }

  lemma {:induction false} SamePartsBytes(parts: seq<Part>)
    ensures PartsBytes(NormalParts(parts)) == PartsBytes(parts)
  {
    hide PartBytes, NormalPart, WritablePart, FitsFrame;
    if parts != [] {
      SamePartsBytes(parts[1..]);
      PartCanonical(parts[0]);
      var normal := NormalParts(parts);
      assert normal[0] == NormalPart(parts[0]);
      assert normal[1..] == NormalParts(parts[1..]);
      hide NormalParts;
    }
  }

  lemma NormalPartsTwice(parts: seq<Part>)
    ensures NormalParts(NormalParts(parts)) == NormalParts(parts)
  {
    hide PartBytes, NormalPart, WritablePart, FitsFrame;
    forall i | 0 <= i < |parts| ensures NormalParts(NormalParts(parts))[i] == NormalParts(parts)[i] {
      PartCanonical(parts[i]);
    }
  }

  lemma NormalBodyCanonical(b: MultipartBody)
    ensures MultipartBytes(NormalBody(b)) == MultipartBytes(b)
    ensures NormalBody(NormalBody(b)) == NormalBody(b)
  {
    hide PartsBytes, Uintvar;
    SamePartsBytes(b.parts);
    NormalPartsTwice(b.parts);
    assert |NormalParts(b.parts)| == |b.parts|;
  }

  /**
   Bodies with the same normal form have the same encoding, and bodies with the same encoding
   have the same normal form if they can be read back.
   */
  lemma EqualEncodings(a: MultipartBody, b: MultipartBody)
    ensures NormalBody(a) == NormalBody(b) ==> MultipartBytes(a) == MultipartBytes(b)
    ensures EncodableBody(a) && EncodableBody(b) && MultipartBytes(a) == MultipartBytes(b) ==>
              NormalBody(a) == NormalBody(b)
  {
    hide MultipartBytes, NormalBody, EncodableBody;
    NormalBodyCanonical(a);
    NormalBodyCanonical(b);
    assert MultipartBytes(a) + [] == MultipartBytes(a) && MultipartBytes(b) + [] == MultipartBytes(b);
    if EncodableBody(a) && EncodableBody(b) {
      MultipartRoundTrip(a, []);
      MultipartRoundTrip(b, []);
    }
  }

  // ------------------------------------------------- what decoding produces

  lemma UintvarUsed(s: bytes, t: bytes)
    requires ParseUintvar(s).Ok?
    ensures
      var p := ParseUintvar(s).value;
      var used := s[..|s| - |p.rest|];
      && s == used + p.rest
      && ParseUintvar(used + t) == Ok(Parsed(p.value, t))
  {
    UintvarReparse(s, 0, 0, t);
  }

  /** The two length fields of a frame, which read the same in front of any payload. */
  lemma FrameLengths(s: bytes, t: bytes) returns (a: bytes, b: bytes)
    requires ParseFrame(s).Ok?
    ensures
      var p := ParseFrame(s).value;
      var block, data := p.value.block, p.value.data;
      && s == a + (b + (block + data + p.rest))
      && ParseUintvar(a + (b + (block + data + t))) == Ok(Parsed(|block|, b + (block + data + t)))
      && ParseUintvar(b + (block + data + t)) == Ok(Parsed(|data|, block + data + t))
      && |a| >= 1 && |b| >= 1
  {
    hide ParseUintvar;
    var blockLength := ParseUintvar(s).value;
    var dataLength := ParseUintvar(blockLength.rest).value;
    var p := ParseFrame(s).value;
    a := s[..|s| - |blockLength.rest|];
    b := blockLength.rest[..|blockLength.rest| - |dataLength.rest|];
    UintvarUsed(s, b + (p.value.block + p.value.data + t));
    UintvarUsed(blockLength.rest, p.value.block + p.value.data + t);
    assert dataLength.rest == p.value.block + p.value.data + p.rest;
  }

  /** The front of the input a frame was read from; alone it reads as the same frame. */
  lemma FrameUsed(s: bytes, t: bytes) returns (used: bytes)
    requires ParseFrame(s).Ok?
    ensures s == used + ParseFrame(s).value.rest
    ensures ParseFrame(used + t) == Ok(Parsed(ParseFrame(s).value.value, t))
    ensures |used| >= 2
  {
    hide ParseUintvar, ParseFrame;
    var p := ParseFrame(s).value;
    var block, data := p.value.block, p.value.data;
    var a, b := FrameLengths(s, t);
    used := a + (b + (block + data));
    FrameConcat(a, b, block + data, p.rest);
    FrameFrom(a, b, block, data, t);
  }

  /** A list of frames accounts for all that was read, one frame a part. */
  lemma {:induction false} PartsUsed(s: bytes, count: nat, done: seq<Part>) returns (frames: seq<bytes>)
    ensures ParseParts(s, count, done).Ok? ==>
      var p := ParseParts(s, count, done).value;
      && |frames| == count && |p.value| == |done| + count && done <= p.value
      && s == Flatten(frames) + p.rest
      && forall i | 0 <= i < count ::
           |frames[i]| >= 2 && ParsePart(frames[i]) == Ok(Parsed(p.value[|done| + i], []))
    decreases count
  {
    hide ParseFrame, DecodePartHeaderBlock;
    frames := [];
    if count > 0 && ParseParts(s, count, done).Ok? {
      var part := ParsePart(s).value;
      var used := FrameUsed(s, []);
      assert used + [] == used;
      var more := PartsUsed(part.rest, count - 1, done + [part.value]);
      frames := [used] + more;
      var p := ParseParts(s, count, done).value;
      assert frames[1..] == more;
      ConcatAssociative(used, Flatten(more), p.rest);
      assert p.value[|done|] == (done + [part.value])[|done|];
      forall i | 0 <= i < count
        ensures |frames[i]| >= 2 && ParsePart(frames[i]) == Ok(Parsed(p.value[|done| + i], []))
      {
        if i > 0 { assert frames[i] == more[i - 1]; }
      }
    }
  }

  lemma {:induction false} FramesAtLeastTwo(frames: seq<bytes>)
    requires forall i | 0 <= i < |frames| :: |frames[i]| >= 2
    ensures |Flatten(frames)| >= 2 * |frames|
  {
    if frames != [] { FramesAtLeastTwo(frames[1..]); }
  }

  /** A decoded body is a count, one self-contained frame a part, and a tail that is ignored. */
  lemma BodyPartition(data: bytes) returns (count: bytes, frames: seq<bytes>, tail: bytes)
    ensures data != [] && DecodeBody(data).Ok? ==>
      var parts := DecodeBody(data).value.parts;
      && data == count + Flatten(frames) + tail
      && ParseUintvar(count) == Ok(Parsed(|parts|, []))
      && |frames| == |parts| <= (|data| - 1) / 2
      && forall i | 0 <= i < |parts| :: ParsePart(frames[i]) == Ok(Parsed(parts[i], []))
  {
    hide ParseUintvar, ParsePart;
    count, frames, tail := [], [], [];
    if data != [] && DecodeBody(data).Ok? {
      var p := ParseUintvar(data).value;
      count := data[..|data| - |p.rest|];
      UintvarUsed(data, []);
      assert count + [] == count;
      frames := PartsUsed(p.rest, p.value, []);
      tail := ParseParts(p.rest, p.value, []).value.rest;
      FramesAtLeastTwo(frames);
      ConcatAssociative(count, Flatten(frames), tail);
    }
  }

  lemma AsciiHasNoNul(s: string)
    requires forall i | 0 <= i < |s| :: 0 < s[i] as int < 128
    ensures 0 !in Ascii(s)
  {
  }

  lemma LowMediaTypesHaveNoNul(token: byte)
    requires token < 0x9D
    ensures MediaTypeName(token).Some? ==> 0 !in MediaTypeName(token).value
  {
    hide Ascii;
    AsciiHasNoNul("*/*");
    AsciiHasNoNul("text/*");
    AsciiHasNoNul("text/html");
    AsciiHasNoNul("text/plain");
    AsciiHasNoNul("text/x-hdml");
    AsciiHasNoNul("multipart/mixed");
    AsciiHasNoNul("multipart/byteranges");
  }

  lemma HighMediaTypesHaveNoNul(token: byte)
    requires token >= 0x9D
    ensures MediaTypeName(token).Some? ==> 0 !in MediaTypeName(token).value
  {
    hide Ascii;
    AsciiHasNoNul("image/gif");
    AsciiHasNoNul("image/jpeg");
    AsciiHasNoNul("application/vnd.wap.multipart.mixed");
    AsciiHasNoNul("image/png");
    AsciiHasNoNul("multipart/related");
    AsciiHasNoNul("application/vnd.wap.multipart.related");
    AsciiHasNoNul("application/smil");
  }

  lemma MediaTypesHaveNoNul(token: byte)
    ensures MediaTypeName(token).Some? ==> 0 !in MediaTypeName(token).value
  {
    hide MediaTypeName;
    if token < 0x9D { LowMediaTypesHaveNoNul(token); } else { HighMediaTypesHaveNoNul(token); }
  }

  lemma CharsetsHaveNoNul(token: byte)
    ensures CharsetName(token).Some? ==> 0 !in CharsetName(token).value
  {
    hide Ascii;
    AsciiHasNoNul("us-ascii");
    AsciiHasNoNul("iso-8859-1");
    AsciiHasNoNul("utf-8");
  }

  lemma {:induction false} DecimalHasNoNul(n: nat)
    ensures 0 !in Decimal(n)
  {
    if n >= 10 { DecimalHasNoNul(n / 10); }
  }

  lemma PayloadHasNoNul(data: bytes)
    ensures DecodeEncodedPayload(data).Ok? ==> 0 !in DecodeEncodedPayload(data).value
    ensures DecodeTokenOrText(data).Ok? ==> 0 !in DecodeTokenOrText(data).value
  {
    hide DecodeText;
    DecodedTextHasNoNul(data);
    if data != [] {
      DecodedTextHasNoNul(data[1..]);
      var idx := IndexByte(data, 0);
      if 0 <= idx {
        DecodedTextHasNoNul(data[idx + 1..]);
      }
    }
  }

  lemma DecodedStringsHaveNoNul(name: text, data: bytes)
    ensures DecodePartText(data).Ok? ==> 0 !in DecodePartText(data).value
    ensures DecodeParamValue(name, data).Ok? ==> 0 !in DecodeParamValue(name, data).value
  {
    hide DecodeText, DecodeEncodedPayload, DecodeTokenOrText, MediaTypeName, CharsetName, Decimal;
    DecodedTextHasNoNul(data);
    PayloadHasNoNul(data);
    if data != [] {
      MediaTypesHaveNoNul(data[0]);
      CharsetsHaveNoNul(data[0]);
      if data[0] >= 0x80 { DecimalHasNoNul(data[0] - 0x80); }
    }
  }

  lemma {:induction false} ParsedParamsEncodable(s: bytes, params: map<text, text>)
    requires EncodableParams(params)
    ensures ParsePartParams(s, params).Ok? ==> EncodableParams(ParsePartParams(s, params).value)
    decreases |s|
  {
    hide DecodeParamValue, ParsePartRaw;
    if s != [] && ParsePartParam(s).Ok? {
      var p := ParsePartParam(s).value;
      match p.value
      case None => ParsedParamsEncodable(p.rest, params);
      case Some(kv) =>
        ParsedParamNameLower(s);
        DecodedStringsHaveNoNul(kv.0, ParsePartRaw(ParsePartParamName(s).value.rest).value.value);
        ParsedParamsEncodable(p.rest, params[kv.0 := kv.1]);
    }
  }

  lemma ParsedParamNameLower(s: bytes)
    ensures ParsePartParamName(s).Ok? ==>
              IsLower(ParsePartParamName(s).value.value) && 0 !in ParsePartParamName(s).value.value
  {
    if s != [] && ParsePartParamName(s).Ok? {
      if s[0] >= 0x80 {
        ParamNamesAreLower(s[0]);
      } else {
        ToLowerIdempotent(DecodeText(ParseUntilNullFrom(s[0], s[1..]).value.value).value);
      }
    }
  }

  lemma {:induction false} ParsedHeadersEncodable(s: bytes, headers: map<text, text>)
    requires EncodableHeaders(headers)
    ensures ParsePartHeaders(s, headers).Ok? ==> EncodableHeaders(ParsePartHeaders(s, headers).value)
    decreases |s|
  {
    hide ParsePartHeader;
    if s != [] && ParsePartHeader(s).Ok? {
      var p := ParsePartHeader(s).value;
      match p.value
      case None => ParsedHeadersEncodable(p.rest, headers);
      case Some(kv) =>
        ParsedHeaderEncodable(s);
        ParsedHeadersEncodable(p.rest, headers[kv.0 := kv.1]);
    }
  }

  lemma ParsedHeaderEncodable(s: bytes)
    requires s != [] && ParsePartHeader(s).Ok? && ParsePartHeader(s).value.value.Some?
    ensures var kv := ParsePartHeader(s).value.value.value;
            IsLower(kv.0) && 0 !in kv.0 && 0 !in kv.1
  {
    hide DecodePartText, ParsePartRaw;
    if s[0] >= 0x80 {
      DecodedStringsHaveNoNul([], ParsePartRaw(s[1..]).value.value);
      LowerLiteral("content-id");
      LowerLiteral("content-location");
    } else {
      var keyRaw := ParseUntilNull(s).value;
      DecodedStringsHaveNoNul([], ParseUntilNull(keyRaw.rest).value.value);
      ToLowerIdempotent(DecodeText(keyRaw.value).value);
    }
  }

  /** Whatever a header block decodes to can be written again, and no keys clash in it. */
  lemma DecodedPartWritable(block: bytes)
    ensures DecodePartHeaderBlock(block).Ok? ==>
              WritablePart(DecodePartHeaderBlock(block).value)
                && CaseDistinct(DecodePartHeaderBlock(block).value.headers)
  {
    if DecodePartHeaderBlock(block).Ok? {
      var ct := ParsePartContentType(block).value;
      ParsedHeadersEncodable(ct.rest, map[]);
      LoweredOfLower(DecodePartHeaderBlock(block).value.headers);
      if block[0] <= 0x1F {
        var length := ParseValueLength(block).value;
        var payload := length.rest[..length.value];
        ParsedParamsEncodable(ParsePayloadMediaType(payload).value.rest, map[]);
      }
    }
  }

  lemma {:induction false} ParsedPartsWritable(s: bytes, count: nat, done: seq<Part>)
    requires forall p | p in done :: WritablePart(p) && CaseDistinct(p.headers)
    ensures ParseParts(s, count, done).Ok? ==>
              forall p | p in ParseParts(s, count, done).value.value :: WritablePart(p) && CaseDistinct(p.headers)
    decreases count
  {
    hide ParseFrame, DecodePartHeaderBlock, WritablePart, CaseDistinct;
    if count > 0 && ParsePart(s).Ok? {
      var p := ParsePart(s).value;
      DecodedPartWritable(ParseFrame(s).value.value.block);
      WritableWithData(DecodePartHeaderBlock(ParseFrame(s).value.value.block).value, p.value.data);
      ParsedPartsWritable(p.rest, count - 1, done + [p.value]);
    }
  }

  lemma WritableWithData(p: Part, data: bytes)
    requires WritablePart(p)
    ensures WritablePart(p.(data := data))
  {
  }

  /** Decoding any input gives a body that can be written again, lengths permitting. */
  lemma DecodedBodyWritable(data: bytes)
    requires DecodeBody(data).Ok?
    ensures forall p | p in DecodeBody(data).value.parts :: WritablePart(p)
    ensures AllCaseDistinct(DecodeBody(data).value)
  {
    hide ParseParts, ParseUintvar, WritablePart, CaseDistinct;
    if data != [] {
      var count := ParseUintvar(data).value;
      ParsedPartsWritable(count.rest, count.value, []);
    }
  }
}
