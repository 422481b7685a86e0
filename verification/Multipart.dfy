/**
 The length-framed multipart body: internal/mmspdu/multipart.go.
 */
module Multipart {
  import opened Bytes
  import opened Sorting
  import opened Reader
  import opened Fields
  import opened ContentType

  datatype Part = Part(headers: map<text, text>, contentType: text, contentTypeParams: map<text, text>, data: bytes)

  datatype MultipartBody = MultipartBody(parts: seq<Part>)

  function ContentId(): text {
    Ascii("content-id")
  }

  function ContentLocation(): text {
    Ascii("content-location")
  }

  // ---------------------------------------------------------- normalisation

  /** Whether no two keys differ by case alone. */
  predicate CaseDistinct(m: map<text, text>) {
    forall j, k | j in m && k in m && ToLower(j) == ToLower(k) :: j == k
  }

  /** `lowered` is `m` with its keys lower-cased; when keys clash, some one of them wins. */
  ghost predicate IsLowering(m: map<text, text>, lowered: map<text, text>) {
    && (forall j | j in m :: ToLower(j) in lowered)
    && (forall k | k in lowered :: exists j :: j in m && ToLower(j) == k && m[j] == lowered[k])
  }

  function LowerKeys(m: map<text, text>): set<text> {
    set j | j in m :: ToLower(j)
  }

  /** A key of `m` that lower-cases to `k`. */
  ghost function OriginalKey(m: map<text, text>, k: text): (j: text)
    requires k in LowerKeys(m)
    ensures j in m && ToLower(j) == k
  {
    var j :| j in m && ToLower(j) == k;
    j
  }

  /** The lower-cased map, determined when no keys clash. */
  ghost function Lowered(m: map<text, text>): map<text, text> {
    map k | k in LowerKeys(m) :: m[OriginalKey(m, k)]
  }

  lemma LoweringUnique(m: map<text, text>, lowered: map<text, text>)
    requires CaseDistinct(m) && IsLowering(m, lowered)
    ensures lowered == Lowered(m)
  {
    forall k
      ensures k in lowered <==> k in Lowered(m)
      ensures k in lowered ==> lowered[k] == Lowered(m)[k]
    {
    }
  }

  lemma LoweredOfLower(m: map<text, text>)
    requires forall k | k in m :: IsLower(k)
    ensures CaseDistinct(m) && Lowered(m) == m
  {
    assert forall k | k in m :: ToLower(k) == k;
    assert IsLowering(m, m);
    LoweringUnique(m, m);
  }

  /** No part has header keys that differ by case alone. */
  predicate AllCaseDistinct(body: MultipartBody) {
    forall p | p in body.parts :: CaseDistinct(p.headers)
  }

  /** `settled` is `part` as one run of the encoder sees it: header keys lower-cased, clashes decided. */
  ghost predicate SettlesPart(part: Part, settled: Part) {
    settled == part.(headers := settled.headers) && IsLowering(part.headers, settled.headers)
  }

  ghost predicate Settles(body: MultipartBody, settled: MultipartBody) {
    && |settled.parts| == |body.parts|
    && forall i | 0 <= i < |body.parts| :: SettlesPart(body.parts[i], settled.parts[i])
  }

  /** There is nothing left to decide in a settled part. */
  lemma SettledPartLowered(part: Part, settled: Part)
    requires SettlesPart(part, settled)
    ensures CaseDistinct(settled.headers) && Lowered(settled.headers) == settled.headers
    ensures CaseDistinct(part.headers) ==> Lowered(part.headers) == settled.headers
  {
    forall k | k in settled.headers ensures IsLower(k) {
      var j :| j in part.headers && ToLower(j) == k;
      ToLowerIdempotent(j);
    }
    LoweredOfLower(settled.headers);
    if CaseDistinct(part.headers) {
      LoweringUnique(part.headers, settled.headers);
    }
  }

  function EnsureAngleBrackets(cid: text): text {
    if |cid| >= 2 && cid[0] == 0x3C && cid[|cid| - 1] == 0x3E then cid else [0x3C] + cid + [0x3E]
  }

  function NormalHeader(key: text, value: text): text {
    if key == ContentId() then EnsureAngleBrackets(value) else value
  }

  /** Lower-cased keys, the empty key dropped, content-id in angle brackets. */
  function NormalHeaders(lowered: map<text, text>): map<text, text> {
    map k | k in lowered && k != [] :: NormalHeader(k, lowered[k])
  }

  ghost function NormalPart(p: Part): Part {
    Part(NormalHeaders(Lowered(p.headers)), NormalMediaType(p.contentType), NormalParams(p.contentTypeParams), p.data)
  }

  ghost function NormalParts(parts: seq<Part>): seq<Part> {
    seq(|parts|, i requires 0 <= i < |parts| => NormalPart(parts[i]))
  }

  ghost function NormalBody(b: MultipartBody): MultipartBody {
    MultipartBody(NormalParts(b.parts))
  }

  // --------------------------------------------------------------- encoding

  function PartTextBytes(value: text): bytes {
    if value == [] then EncodeQuoted([]) else EncodeText(value)
  }

  function PartHeaderBytes(key: text, value: text): bytes {
    if key == [] then []
    else if key == ContentId() then [0xC0] + EncodeQuoted(EnsureAngleBrackets(value))
    else if key == ContentLocation() then [0x8E] + PartTextBytes(value)
    else EncodeText(key) + PartTextBytes(value)
  }

  function PartHeadersBytes(headers: map<text, text>, keys: seq<text>): bytes {
    if keys == [] then []
    else PartHeaderBytes(keys[0], Lookup(headers, keys[0])) + PartHeadersBytes(headers, keys[1..])
  }

  function PartContentType(p: Part): ContentTypeValue {
    ContentTypeValue(p.contentType, p.contentTypeParams)
  }

  ghost function PartHeaderBlock(p: Part, lowered: map<text, text>): bytes {
    ContentTypeBytes(PartContentType(p)) + PartHeadersBytes(lowered, Ascending(TextLe, lowered.Keys))
  }

  ghost function PartBytes(p: Part): bytes {
    var block := PartHeaderBlock(p, Lowered(p.headers));
    Uintvar(|block|) + (Uintvar(|p.data|) + (block + p.data))
  }

  ghost function PartsBytes(parts: seq<Part>): bytes {
    if parts == [] then [] else PartBytes(parts[0]) + PartsBytes(parts[1..])
  }

  ghost function MultipartBytes(b: MultipartBody): bytes {
    Uintvar(|b.parts|) + PartsBytes(b.parts)
  }

  method NormalizeHeaderMap(headers: map<text, text>) returns (out: map<text, text>)
    ensures IsLowering(headers, out)
  {
    out := map[];
    var left := headers.Keys;
    while left != {}
      invariant left <= headers.Keys
      invariant forall j | j in headers && j !in left :: ToLower(j) in out
      invariant forall k | k in out :: exists j :: j in headers && ToLower(j) == k && headers[j] == out[k]
      decreases left
    {
      var j :| j in left;
      out := out[ToLower(j) := headers[j]];
      left := left - {j};
    }
  }

  method CollectKeys(m: map<text, text>) returns (keys: seq<text>)
    ensures Sort(TextLe, keys) == Ascending(TextLe, m.Keys)
  {
    keys := [];
    var left := m.Keys;
    while left != {}
      invariant left <= m.Keys
      invariant Enumerates(keys, m.Keys - left)
      decreases left
    {
      var key :| key in left;
      assert (set x | x in keys + [key]) == (set x | x in keys) + {key};
      keys := keys + [key];
      left := left - {key};
    }
    TextOrder();
    SortedEnumeration(TextLe, keys, m.Keys);
  }

  lemma {:induction false} PartHeadersBytesAppend(headers: map<text, text>, a: seq<text>, key: text)
    ensures PartHeadersBytes(headers, a + [key]) ==
            PartHeadersBytes(headers, a) + PartHeaderBytes(key, Lookup(headers, key))
  {
    if a != [] {
      assert (a + [key])[1..] == a[1..] + [key] && (a + [key])[0] == a[0];
      PartHeadersBytesAppend(headers, a[1..], key);
      ConcatAssociative(PartHeaderBytes(a[0], Lookup(headers, a[0])), PartHeadersBytes(headers, a[1..]),
                        PartHeaderBytes(key, Lookup(headers, key)));
    } else {
      assert (a + [key])[1..] == [];
    }
  }

  lemma PartHeadersBytesStep(headers: map<text, text>, keys: seq<text>, i: nat, ct: bytes, out: bytes)
    requires i < |keys| && out == ct + PartHeadersBytes(headers, keys[..i])
    ensures out + PartHeaderBytes(keys[i], Lookup(headers, keys[i])) == ct + PartHeadersBytes(headers, keys[..i + 1])
  {
    hide PartHeaderBytes;
    PartHeadersBytesAppend(headers, keys[..i], keys[i]);
    assert keys[..i + 1] == keys[..i] + [keys[i]];
    ConcatAssociative(ct, PartHeadersBytes(headers, keys[..i]), PartHeaderBytes(keys[i], Lookup(headers, keys[i])));
  }

  /** Also returns the lower-cased header map the unspecified iteration order led to. */
  method EncodePartHeaders(part: Part) returns (out: bytes, ghost lowered: map<text, text>)
    ensures IsLowering(part.headers, lowered) && out == PartHeaderBlock(part, lowered)
    ensures CaseDistinct(part.headers) ==> out == PartHeaderBlock(part, Lowered(part.headers))
  {
    hide ContentTypeBytes, PartHeaderBytes, Lowered, IsLowering, CaseDistinct;
    var ct := EncodeContentTypeValue(PartContentType(part));
    out := ct;
    var normalized := NormalizeHeaderMap(part.headers);
    lowered := normalized;
    var keys := CollectKeys(normalized);
    keys := Sort(TextLe, keys);
    var i := 0;
    while i < |keys|
      invariant 0 <= i <= |keys|
      invariant out == ct + PartHeadersBytes(normalized, keys[..i])
    {
      PartHeadersBytesStep(normalized, keys, i, ct, out);
      out := out + PartHeaderBytes(keys[i], Lookup(normalized, keys[i]));
      i := i + 1;
    }
    assert keys[..i] == keys;
    if CaseDistinct(part.headers) {
      LoweringUnique(part.headers, lowered);
    }
  }

  lemma {:induction false} PartsBytesAppend(a: seq<Part>, p: Part)
    ensures PartsBytes(a + [p]) == PartsBytes(a) + PartBytes(p)
  {
    if a != [] {
      assert (a + [p])[1..] == a[1..] + [p] && (a + [p])[0] == a[0];
      PartsBytesAppend(a[1..], p);
      ConcatAssociative(PartBytes(a[0]), PartsBytes(a[1..]), PartBytes(p));
    } else {
      assert (a + [p])[1..] == [];
    }
  }

  lemma PartsBytesStep(settled: seq<Part>, p: Part, count: bytes, out: bytes, block: bytes)
    requires out == count + PartsBytes(settled)
    requires block == PartHeaderBlock(p, Lowered(p.headers))
    ensures out + Uintvar(|block|) + Uintvar(|p.data|) + block + p.data == count + PartsBytes(settled + [p])
  {
    hide PartHeaderBlock, Uintvar;
    PartsBytesAppend(settled, p);
    FrameAppends(out, block, p.data);
    ConcatAssociative(count, PartsBytes(settled), PartBytes(p));
  }

  /** Settling is invisible when no keys clash. */
  lemma SettledPartBytes(part: Part, settled: Part)
    requires SettlesPart(part, settled)
    ensures PartHeaderBlock(part, settled.headers) == PartHeaderBlock(settled, Lowered(settled.headers))
    ensures CaseDistinct(part.headers) ==> PartBytes(settled) == PartBytes(part)
  {
    hide ContentTypeBytes, PartHeadersBytes, Lowered, Ascending;
    SettledPartLowered(part, settled);
  }

  lemma {:induction false} SettledPartsBytes(parts: seq<Part>, settled: seq<Part>)
    requires |settled| == |parts| && forall i | 0 <= i < |parts| :: SettlesPart(parts[i], settled[i])
    requires forall p | p in parts :: CaseDistinct(p.headers)
    ensures PartsBytes(settled) == PartsBytes(parts)
  {
    hide PartBytes, SettlesPart, CaseDistinct;
    if parts != [] {
      SettledPartBytes(parts[0], settled[0]);
      SettledPartsBytes(parts[1..], settled[1..]);
    }
  }

  /** Also returns the body as the unspecified map iteration order settled it. */
  method EncodeMultipart(body: MultipartBody) returns (out: bytes, ghost settled: MultipartBody)
    ensures Settles(body, settled) && out == MultipartBytes(settled)
    ensures AllCaseDistinct(body) ==> out == MultipartBytes(body)
  {
    hide PartHeaderBlock, IsLowering, Lowered, Uintvar, CaseDistinct, SettlesPart;
    var count := Uintvar(|body.parts|);
    out := count;
    ghost var done: seq<Part> := [];
    var i := 0;
    while i < |body.parts|
      invariant 0 <= i <= |body.parts| && |done| == i
      invariant forall j | 0 <= j < i :: SettlesPart(body.parts[j], done[j])
      invariant out == count + PartsBytes(done)
    {
      var part := body.parts[i];
      var block, lowered := EncodePartHeaders(part);
      ghost var p := part.(headers := lowered);
      LoweringSettles(part, lowered);
      SettledPartBytes(part, p);
      PartsBytesStep(done, p, count, out, block);
      out := out + Uintvar(|block|);
      out := out + Uintvar(|part.data|);
      out := out + block;
      out := out + part.data;
      done := done + [p];
      i := i + 1;
    }
    settled := MultipartBody(done);
    if AllCaseDistinct(body) {
      SettledPartsBytes(body.parts, done);
    }
  }

  lemma LoweringSettles(part: Part, lowered: map<text, text>)
    requires IsLowering(part.headers, lowered)
    ensures SettlesPart(part, part.(headers := lowered))
  {
  }

  lemma FrameAppends(out: bytes, block: bytes, data: bytes)
    ensures out + Uintvar(|block|) + Uintvar(|data|) + block + data ==
            out + (Uintvar(|block|) + (Uintvar(|data|) + (block + data)))
  {
    var a, b := Uintvar(|block|), Uintvar(|data|);
    ConcatAssociative(out + a + b, block, data);
    ConcatAssociative(out + a, b, block + data);
    ConcatAssociative(out, a, b + (block + data));
  }

  // --------------------------------------------------------------- decoding

  predicate IsTextStringStart(b: byte) {
    0x20 <= b < 0x80
  }

  function ParsePartRaw(s: bytes): Result<Parsed<bytes>> {
    if s == [] then Err(ShortData)
    else if s[0] <= 31 then
      var length :- ParseValueLength(s);
      ParseN(length.rest, length.value)
    else if s[0] == 0x22 then ParseUntilNull(s)
    else if IsTextStringStart(s[0]) then ParseUntilNull(s)
    else ParseN(s, 1)
  }

  function DecodePartText(data: bytes): Result<text> {
    if data == [] then Err(ShortData)
    else if DecodeQuoted(data).Ok? then DecodeQuoted(data)
    else if DecodeText(data).Ok? then DecodeText(data)
    else if DecodeEncodedPayload(data).Ok? then DecodeEncodedPayload(data)
    else if data[0] >= 0x80 then MediaTypeOf(data[0])
    else Err(ShortData)
  }

  /** The empty name stands for an unknown token. */
  function ParsePartParamName(s: bytes): Result<Parsed<text>> {
    if s == [] then Err(ShortData)
    else if s[0] >= 0x80 then
      Ok(Parsed(match ParamName(s[0]) case Some(name) => name case None => [], s[1..]))
    else
      var raw :- ParseUntilNullFrom(s[0], s[1..]);
      var name :- DecodeText(raw.value);
      Ok(Parsed(ToLower(name), raw.rest))
  }

  function ParsePartParam(s: bytes): (r: Result<Parsed<Option<(text, text)>>>)
    ensures r.Ok? ==> |r.value.rest| < |s|
  {
    var key :- ParsePartParamName(s);
    var raw :- ParsePartRaw(key.rest);
    if key.value == [] then Ok(Parsed(None, raw.rest))
    else
      var value :- DecodeParamValue(key.value, raw.value);
      Ok(Parsed(Some((key.value, value)), raw.rest))
  }

  function ParsePartParams(s: bytes, params: map<text, text>): Result<map<text, text>>
    decreases |s|
  {
    if s == [] then Ok(params)
    else
      var p :- ParsePartParam(s);
      match p.value
      case None => ParsePartParams(p.rest, params)
      case Some(kv) => ParsePartParams(p.rest, params[kv.0 := kv.1])
  }

  function DecodePartPayload(payload: bytes): Result<ContentTypeValue> {
    var mediaType :- ParsePayloadMediaType(payload);
    var params :- ParsePartParams(mediaType.rest, map[]);
    Ok(ContentTypeValue(mediaType.value, params))
  }

  /** The part-level decoder: text, a token, or a counted payload. */
  function ParsePartContentType(s: bytes): Result<Parsed<ContentTypeValue>> {
    if s == [] then Err(ShortData)
    else if IsTextStringStart(s[0]) then
      var raw :- ParseUntilNull(s);
      var mediaType :- DecodeText(raw.value);
      Ok(Parsed(ContentTypeValue(mediaType, map[]), raw.rest))
    else if s[0] >= 0x80 then
      var name :- MediaTypeOf(s[0]);
      Ok(Parsed(ContentTypeValue(name, map[]), s[1..]))
    else
      var length :- ParseValueLength(s);
      if |length.rest| < length.value then Err(ShortData)
      else
        var value :- DecodePartPayload(length.rest[..length.value]);
        Ok(Parsed(value, length.rest[length.value..]))
  }

  /** One header; None for an unknown token, which is skipped with its value. */
  function ParsePartHeader(s: bytes): (r: Result<Parsed<Option<(text, text)>>>)
    requires s != []
    ensures r.Ok? ==> |r.value.rest| < |s|
  {
    if s[0] >= 0x80 then
      var raw :- ParsePartRaw(s[1..]);
      if s[0] == 0x8E then
        var value :- DecodePartText(raw.value);
        Ok(Parsed(Some((ContentLocation(), value)), raw.rest))
      else if s[0] == 0xC0 then
        var value :- DecodePartText(raw.value);
        Ok(Parsed(Some((ContentId(), value)), raw.rest))
      else Ok(Parsed(None, raw.rest))
    else
      var keyRaw :- ParseUntilNull(s);
      var valueRaw :- ParseUntilNull(keyRaw.rest);
      var key :- DecodeText(keyRaw.value);
      var value :- DecodePartText(valueRaw.value);
      Ok(Parsed(Some((ToLower(key), value)), valueRaw.rest))
  }

  function ParsePartHeaders(s: bytes, headers: map<text, text>): Result<map<text, text>>
    decreases |s|
  {
    if s == [] then Ok(headers)
    else
      var p :- ParsePartHeader(s);
      match p.value
      case None => ParsePartHeaders(p.rest, headers)
      case Some(kv) => ParsePartHeaders(p.rest, headers[kv.0 := kv.1])
  }

  function DecodePartHeaderBlock(block: bytes): Result<Part> {
    if block == [] then Err(ShortData)
    else
      var ct :- ParsePartContentType(block);
      var headers :- ParsePartHeaders(ct.rest, map[]);
      Ok(Part(headers, ct.value.mediaType, ct.value.params, []))
  }

  datatype Frame = Frame(block: bytes, data: bytes)

  /** Two lengths, a header block and a payload. */
  function ParseFrame(s: bytes): (r: Result<Parsed<Frame>>)
    ensures r.Ok? ==> |r.value.rest| < |s|
  {
    var blockLength :- ParseUintvar(s);
    var dataLength :- ParseUintvar(blockLength.rest);
    if blockLength.value > |dataLength.rest| then Err(ShortData)
    else
      var afterBlock := dataLength.rest[blockLength.value..];
      if dataLength.value > |afterBlock| then Err(ShortData)
      else Ok(Parsed(Frame(dataLength.rest[..blockLength.value], afterBlock[..dataLength.value]),
                     afterBlock[dataLength.value..]))
  }

  function ParsePart(s: bytes): (r: Result<Parsed<Part>>)
    ensures r.Ok? ==> |r.value.rest| < |s|
  {
    var frame :- ParseFrame(s);
    var part :- DecodePartHeaderBlock(frame.value.block);
    Ok(Parsed(part.(data := frame.value.data), frame.rest))
  }

  function ParseParts(s: bytes, count: nat, parts: seq<Part>): Result<Parsed<seq<Part>>>
    decreases count
  {
    if count == 0 then Ok(Parsed(parts, s))
    else
      var p :- ParsePart(s);
      ParseParts(p.rest, count - 1, parts + [p.value])
  }

  function DecodeBody(data: bytes): Result<MultipartBody> {
    if data == [] then Ok(MultipartBody([]))
    else
      var count :- ParseUintvar(data);
      if count.value > |count.rest| / 2 then Err(CountTooLarge)
      else
        var parts :- ParseParts(count.rest, count.value, []);
        Ok(MultipartBody(parts.value))
  }

  // ------------------------------------------------------ decoding, in place

  method ReadPartRaw(reader: ByteReader) returns (r: Result<bytes>)
    requires reader.Valid()
    modifies reader`pos
    ensures reader.Valid() && reader.Yields(ParsePartRaw(old(reader.Rest())), r)
    ensures old(reader.pos) <= reader.pos
  {
    if reader.Remaining() == 0 {
      return Err(ShortData);
    }
    var b := reader.data[reader.pos];
    if b <= 31 {
      var header := DecodeValueLength(reader.data[reader.pos..]);
      if header.Err? {
        return Err(header.error);
      }
      var (length, consumed) := header.value;
      assert reader.Rest()[consumed..] == reader.data[reader.pos + consumed..];
      reader.pos := reader.pos + consumed;
      r := reader.ReadN(length);
    } else if b == 0x22 {
      r := reader.ReadUntilNull();
    } else if IsTextStringStart(b) {
      r := reader.ReadUntilNull();
    } else {
      r := reader.ReadN(1);
    }
  }

  method ReadPartParamName(reader: ByteReader) returns (r: Result<text>)
    requires reader.Valid()
    modifies reader`pos
    ensures reader.Valid() && reader.Yields(ParsePartParamName(old(reader.Rest())), r)
    ensures old(reader.pos) <= reader.pos
  {
    if reader.Remaining() == 0 {
      return Err(ShortData);
    }
    var b := reader.ReadByte();
    if b.value >= 0x80 {
      var name := ParamName(b.value);
      return Ok(if name.Some? then name.value else []);
    }
    var raw := reader.ReadUntilNullFrom(b.value);
    if raw.Err? {
      return Err(raw.error);
    }
    var name := DecodeText(raw.value);
    r := if name.Err? then Err(name.error) else Ok(ToLower(name.value));
  }

  method DecodePartContentTypePayload(payload: bytes) returns (r: Result<ContentTypeValue>)
    ensures r == DecodePartPayload(payload)
  {
    var reader := new ByteReader(payload);
    var mediaType := ReadPayloadMediaType(reader);
    if mediaType.Err? {
      return Err(mediaType.error);
    }
    ghost var s := reader.Rest();
    var params: map<text, text> := map[];
    while reader.Remaining() > 0
      invariant reader.Valid() && fresh(reader)
      invariant ParsePartParams(reader.Rest(), params) == ParsePartParams(s, map[])
      decreases |reader.Rest()|
    {
      var key := ReadPartParamName(reader);
      if key.Err? {
        return Err(key.error);
      }
      var raw := ReadPartRaw(reader);
      if raw.Err? {
        return Err(raw.error);
      }
      if key.value == [] {
        continue;
      }
      var value := DecodeParamValue(key.value, raw.value);
      if value.Err? {
        return Err(value.error);
      }
      params := params[key.value := value.value];
    }
    r := Ok(ContentTypeValue(mediaType.value, params));
  }

  /** The pair (value, consumed) of decodePartContentTypeValue. */
  method DecodePartContentTypeValue(data: bytes) returns (r: Result<(ContentTypeValue, nat)>)
    ensures match ParsePartContentType(data)
            case Err(e) => r == Err(e)
            case Ok(p) => r.Ok? && r.value.0 == p.value && r.value.1 <= |data| && data[r.value.1..] == p.rest
  {
    if |data| == 0 {
      return Err(ShortData);
    }
    if IsTextStringStart(data[0]) {
      var reader := new ByteReader(data);
      var raw := reader.ReadUntilNull();
      if raw.Err? {
        return Err(raw.error);
      }
      var mediaType := DecodeText(raw.value);
      if mediaType.Err? {
        return Err(mediaType.error);
      }
      return Ok((ContentTypeValue(mediaType.value, map[]), reader.pos));
    }
    if data[0] >= 0x80 {
      var name := MediaTypeOf(data[0]);
      return if name.Err? then Err(name.error) else Ok((ContentTypeValue(name.value, map[]), 1));
    }
    var header := DecodeValueLength(data);
    if header.Err? {
      return Err(header.error);
    }
    var (length, consumed) := header.value;
    if |data| < consumed + length {
      return Err(ShortData);
    }
    assert data[consumed..][..length] == data[consumed..consumed + length];
    assert data[consumed..][length..] == data[consumed + length..];
    var value := DecodePartContentTypePayload(data[consumed..consumed + length]);
    r := if value.Err? then Err(value.error) else Ok((value.value, consumed + length));
  }

  method DecodeWellKnownPartHeader(reader: ByteReader) returns (r: Result<(text, text)>)
    requires reader.Valid() && reader.Rest() != [] && reader.Rest()[0] >= 0x80
    modifies reader`pos
    ensures reader.Valid() && old(reader.pos) <= reader.pos
    ensures match ParsePartHeader(old(reader.Rest()))
            case Err(e) => r == Err(e)
            case Ok(p) =>
              && reader.Rest() == p.rest
              && r == Ok(match p.value case Some(kv) => kv case None => ([], []))
  {
    var name := reader.ReadByte();
    var raw := ReadPartRaw(reader);
    if raw.Err? {
      return Err(raw.error);
    }
    if name.value == 0x8E {
      var value := DecodePartText(raw.value);
      return if value.Err? then Err(value.error) else Ok((ContentLocation(), value.value));
    } else if name.value == 0xC0 {
      var value := DecodePartText(raw.value);
      return if value.Err? then Err(value.error) else Ok((ContentId(), value.value));
    }
    r := Ok(([], []));
  }

  method DecodePartHeaders(data: bytes) returns (r: Result<Part>)
    ensures r == DecodePartHeaderBlock(data)
  {
    hide ParsePartContentType, DecodeText, DecodePartText, ParseUntilNull;
    if |data| == 0 {
      return Err(ShortData);
    }
    var ct := DecodePartContentTypeValue(data);
    if ct.Err? {
      return Err(ct.error);
    }
    var reader := new ByteReader(data[ct.value.1..]);
    ghost var s := reader.Rest();
    var headers: map<text, text> := map[];
    while reader.Remaining() > 0
      invariant reader.Valid() && fresh(reader)
      invariant ParsePartHeaders(reader.Rest(), headers) == ParsePartHeaders(s, map[])
      decreases |reader.Rest()|
    {
      if reader.data[reader.pos] >= 0x80 {
        var entry := DecodeWellKnownPartHeader(reader);
        if entry.Err? {
          return Err(entry.error);
        }
        if entry.value.0 != [] {
          headers := headers[entry.value.0 := entry.value.1];
        }
        continue;
      }
      var keyRaw := reader.ReadUntilNull();
      if keyRaw.Err? {
        return Err(keyRaw.error);
      }
      var valueRaw := reader.ReadUntilNull();
      if valueRaw.Err? {
        return Err(valueRaw.error);
      }
      var key := DecodeText(keyRaw.value);
      if key.Err? {
        return Err(key.error);
      }
      var value := DecodePartText(valueRaw.value);
      if value.Err? {
        return Err(value.error);
      }
      headers := headers[ToLower(key.value) := value.value];
    }
    r := Ok(Part(headers, ct.value.0.mediaType, ct.value.0.params, []));
  }

  method ReadUintvar(reader: ByteReader) returns (r: Result<nat>)
    requires reader.Valid()
    modifies reader`pos
    ensures reader.Valid() && reader.Yields(ParseUintvar(old(reader.Rest())), r)
    ensures old(reader.pos) <= reader.pos
  {
    if reader.Remaining() == 0 {
      return Err(ShortData);
    }
    var value := DecodeUintvar(reader.data[reader.pos..]);
    if value.Err? {
      return Err(value.error);
    }
    assert reader.Rest()[value.value.1..] == reader.data[reader.pos + value.value.1..];
    reader.pos := reader.pos + value.value.1;
    r := Ok(value.value.0);
  }

  method ReadFrame(reader: ByteReader) returns (r: Result<Frame>)
    requires reader.Valid()
    modifies reader`pos
    ensures reader.Valid() && reader.Yields(ParseFrame(old(reader.Rest())), r)
    ensures old(reader.pos) <= reader.pos
  {
    var blockLength := ReadUintvar(reader);
    if blockLength.Err? {
      return Err(blockLength.error);
    }
    var dataLength := ReadUintvar(reader);
    if dataLength.Err? {
      return Err(dataLength.error);
    }
    if blockLength.value > reader.Remaining() {
      return Err(ShortData);
    }
    var block := reader.ReadN(blockLength.value);
    if dataLength.value > reader.Remaining() {
      return Err(ShortData);
    }
    var payload := reader.ReadN(dataLength.value);
    r := Ok(Frame(block.value, payload.value));
  }

  method ReadPart(reader: ByteReader) returns (r: Result<Part>)
    requires reader.Valid()
    modifies reader`pos
    ensures reader.Valid() && reader.Yields(ParsePart(old(reader.Rest())), r)
    ensures old(reader.pos) <= reader.pos
  {
    var frame := ReadFrame(reader);
    if frame.Err? {
      return Err(frame.error);
    }
    var part := DecodePartHeaders(frame.value.block);
    if part.Err? {
      return Err(part.error);
    }
    r := Ok(part.value.(data := frame.value.data));
  }

  method DecodeMultipart(data: bytes) returns (r: Result<MultipartBody>)
    ensures r == DecodeBody(data)
  {
    hide ParsePart;
    if |data| == 0 {
      return Ok(MultipartBody([]));
    }
    var reader := new ByteReader(data);
    var count := ReadUintvar(reader);
    if count.Err? {
      return Err(count.error);
    }
    if count.value > reader.Remaining() / 2 {
      return Err(CountTooLarge);
    }
    ghost var s := reader.Rest();
    var parts: seq<Part> := [];
    var i := 0;
    while i < count.value
      invariant 0 <= i <= count.value && reader.Valid() && fresh(reader)
      invariant ParseParts(reader.Rest(), count.value - i, parts) == ParseParts(s, count.value, [])
    {
      var part := ReadPart(reader);
      if part.Err? {
        return Err(part.error);
      }
      parts := parts + [part.value];
      i := i + 1;
    }
    r := Ok(MultipartBody(parts));
  }
}
