/**
 Content-Type values: internal/mmspdu/content_type.go. A value is a single
 token, a text string, or a counted payload holding a media type and parameters.
 */
module ContentType {
  import opened Bytes
  import opened Sorting
  import opened Reader
  import opened Fields
  import opened Headers

  datatype ContentTypeValue = ContentTypeValue(mediaType: text, params: map<text, text>)

  // ----------------------------------------------------------------- tables

  function MediaTypeName(token: byte): Option<text> {
    match token
    case 0x80 => Some(Ascii("*/*"))
    case 0x81 => Some(Ascii("text/*"))
    case 0x82 => Some(Ascii("text/html"))
    case 0x83 => Some(Ascii("text/plain"))
    case 0x84 => Some(Ascii("text/x-hdml"))
    case 0x8C => Some(Ascii("multipart/mixed"))
    case 0x8E => Some(Ascii("multipart/byteranges"))
    case 0x9D => Some(Ascii("image/gif"))
    case 0x9E => Some(Ascii("image/jpeg"))
    case 0xA3 => Some(Ascii("application/vnd.wap.multipart.mixed"))
    case 0xA9 => Some(Ascii("image/png"))
    case 0xB3 => Some(Ascii("multipart/related"))
    case 0xB4 => Some(Ascii("application/vnd.wap.multipart.related"))
    case 0xB8 => Some(Ascii("application/smil"))
    case _ => None
  }

  function MediaTypeToken(name: text): Option<byte> {
    if name == Ascii("*/*") then Some(0x80)
    else if name == Ascii("text/*") then Some(0x81)
    else if name == Ascii("text/html") then Some(0x82)
    else if name == Ascii("text/plain") then Some(0x83)
    else if name == Ascii("text/x-hdml") then Some(0x84)
    else if name == Ascii("multipart/mixed") then Some(0x8C)
    else if name == Ascii("multipart/byteranges") then Some(0x8E)
    else if name == Ascii("image/gif") then Some(0x9D)
    else if name == Ascii("image/jpeg") then Some(0x9E)
    else if name == Ascii("application/vnd.wap.multipart.mixed") then Some(0xA3)
    else if name == Ascii("image/png") then Some(0xA9)
    else if name == Ascii("multipart/related") then Some(0xB3)
    else if name == Ascii("application/vnd.wap.multipart.related") then Some(0xB4)
    else if name == Ascii("application/smil") then Some(0xB8)
    else None
  }

  function ParamName(token: byte): Option<text> {
    match token
    case 0x81 => Some(Ascii("charset"))
    case 0x85 => Some(Ascii("name"))
    case 0x89 => Some(Ascii("type"))
    case 0x8A => Some(Ascii("start"))
    case _ => None
  }

  function ParamToken(name: text): Option<byte> {
    if name == Ascii("charset") then Some(0x81)
    else if name == Ascii("name") then Some(0x85)
    else if name == Ascii("type") then Some(0x89)
    else if name == Ascii("start") then Some(0x8A)
    else None
  }

  function CharsetName(token: byte): Option<text> {
    match token
    case 0x83 => Some(Ascii("us-ascii"))
    case 0x84 => Some(Ascii("iso-8859-1"))
    case 0xEA => Some(Ascii("utf-8"))
    case _ => None
  }

  lemma TokensNameTheirTexts(name: text)
    ensures MediaTypeToken(name).Some? ==>
              MediaTypeToken(name).value >= 0x80 && MediaTypeName(MediaTypeToken(name).value) == Some(name)
    ensures ParamToken(name).Some? ==>
              ParamToken(name).value >= 0x80 && ParamName(ParamToken(name).value) == Some(name)
  {
    hide Ascii;
  }

  /** The names that have the same length. */
  lemma NamesDiffer()
    ensures Ascii("text/html") != Ascii("image/gif") && Ascii("text/html") != Ascii("image/png")
    ensures Ascii("image/gif") != Ascii("image/png")
    ensures Ascii("text/plain") != Ascii("image/jpeg") && Ascii("name") != Ascii("type")
  {
    assert Ascii("text/html")[0] == 0x74 && Ascii("image/gif")[6] == 0x67 && Ascii("image/png")[6] == 0x70;
    assert Ascii("image/gif")[0] == 0x69 && Ascii("image/png")[0] == 0x69;
    assert Ascii("text/plain")[0] == 0x74 && Ascii("image/jpeg")[0] == 0x69;
    assert Ascii("name")[0] == 0x6E && Ascii("type")[0] == 0x74;
  }

  lemma LowTokenChosen(token: byte)
    requires token < 0x9D
    ensures MediaTypeName(token).Some? ==> MediaTypeToken(MediaTypeName(token).value) == Some(token)
  {
    hide Ascii;
    NamesDiffer();
  }

  lemma HighTokenChosen(token: byte)
    requires token >= 0x9D
    ensures MediaTypeName(token).Some? ==> MediaTypeToken(MediaTypeName(token).value) == Some(token)
  {
    hide Ascii;
    NamesDiffer();
  }

  /** And every token is the one chosen for its text. */
  lemma TextsChooseTheirTokens(token: byte)
    ensures MediaTypeName(token).Some? ==> MediaTypeToken(MediaTypeName(token).value) == Some(token)
    ensures ParamName(token).Some? ==> ParamToken(ParamName(token).value) == Some(token)
  {
    hide Ascii, MediaTypeName, MediaTypeToken;
    NamesDiffer();
    if token < 0x9D { LowTokenChosen(token); } else { HighTokenChosen(token); }
  }

  // ---------------------------------------------------------- normalisation

  predicate IsValidMediaTypeText(value: text) {
    value != [] && forall i | 0 <= i < |value| :: 0x20 <= value[i] < 0x7F
  }

  function OctetStream(): text {
    Ascii("application/octet-stream")
  }

  function NormalMediaType(mediaType: text): text {
    var m := ToLower(TrimSpace(mediaType));
    if IsValidMediaTypeText(m) then m else OctetStream()
  }

  /** What the encoder makes of a parameter value: known media types in "type" are lower-cased. */
  function NormalParam(key: text, value: text): text {
    if key == Ascii("type") && MediaTypeToken(ToLower(value)).Some? then ToLower(value) else value
  }

  function NormalParams(params: map<text, text>): map<text, text> {
    map k | k in params :: NormalParam(k, params[k])
  }

  function NormalContentType(v: ContentTypeValue): ContentTypeValue {
    ContentTypeValue(NormalMediaType(v.mediaType), NormalParams(v.params))
  }

  lemma OctetStreamIsNormal()
    ensures IsValidMediaTypeText(OctetStream()) && IsLower(OctetStream()) && IsTrimmed(OctetStream())
  {
    var s := "application/octet-stream";
    assert forall i | 0 <= i < |s| :: 'a' <= s[i] <= 'z' || s[i] == '/' || s[i] == '-';
    LowerLiteral(s);
  }

  lemma LowerLiteral(s: string)
    requires s != [] && forall i | 0 <= i < |s| :: 'a' <= s[i] <= 'z' || s[i] == '/' || s[i] == '-'
    ensures IsValidMediaTypeText(Ascii(s)) && IsLower(Ascii(s)) && IsTrimmed(Ascii(s))
  {
  }

  /** The encoder's media type: valid, lower-case, trimmed, and left alone a second time. */
  lemma NormalMediaTypeShape(mediaType: text)
    ensures IsValidMediaTypeText(NormalMediaType(mediaType))
    ensures 0 !in NormalMediaType(mediaType)
    ensures NormalMediaType(NormalMediaType(mediaType)) == NormalMediaType(mediaType)
    ensures IsLower(NormalMediaType(mediaType)) && IsTrimmed(NormalMediaType(mediaType))
  {
    OctetStreamIsNormal();
    TrimSpaceShape(mediaType);
    ToLowerIdempotent(TrimSpace(mediaType));
    var m := NormalMediaType(mediaType);
    TrimSpaceShape(m);
  }

  lemma NormalParamsIdempotent(params: map<text, text>)
    ensures NormalParams(NormalParams(params)) == NormalParams(params)
  {
    forall k | k in params
      ensures NormalParam(k, NormalParam(k, params[k])) == NormalParam(k, params[k])
    {
      ToLowerIdempotent(params[k]);
    }
  }

  // --------------------------------------------------------------- encoding

  function MediaTypeBytes(mediaType: text): bytes {
    match MediaTypeToken(mediaType)
    case Some(token) => [token]
    case None => EncodeText(mediaType)
  }

  function ParamNameBytes(key: text): bytes {
    match ParamToken(key)
    case Some(token) => [token]
    case None => EncodeText(key)
  }

  function ParamValueBytes(key: text, value: text): bytes {
    if key == Ascii("type") && MediaTypeToken(ToLower(value)).Some? then [MediaTypeToken(ToLower(value)).value]
    else if value == [] then EncodeQuoted([])
    else EncodeText(value)
  }

  /** A Go map lookup: the zero value when the key is absent. */
  function Lookup(m: map<text, text>, key: text): text {
    if key in m then m[key] else []
  }

  function ParamBytes(params: map<text, text>, key: text): bytes {
    ParamNameBytes(key) + ParamValueBytes(key, Lookup(params, key))
  }

  function ParamsBytes(params: map<text, text>, keys: seq<text>): bytes {
    if keys == [] then [] else ParamBytes(params, keys[0]) + ParamsBytes(params, keys[1..])
  }

  function LowerAll(keys: seq<text>): seq<text> {
    if keys == [] then [] else [ToLower(keys[0])] + LowerAll(keys[1..])
  }

  /** The lower-cased keys in ascending order, duplicates kept. */
  ghost function ParamKeys(params: map<text, text>): seq<text> {
    Sort(TextLe, LowerAll(Listing(params.Keys)))
  }

  function ValueLengthBytes(n: nat): bytes {
    if n <= 30 then [n] else [0x1F] + Uintvar(n)
  }

  ghost function ContentTypePayload(v: ContentTypeValue): bytes {
    MediaTypeBytes(NormalMediaType(v.mediaType)) + ParamsBytes(v.params, ParamKeys(v.params))
  }

  ghost function ContentTypeBytes(v: ContentTypeValue): bytes {
    if v.params == map[] then MediaTypeBytes(NormalMediaType(v.mediaType))
    else ValueLengthBytes(|ContentTypePayload(v)|) + ContentTypePayload(v)
  }

  /** A media type with a token and no parameters is written as the token. */
  lemma TokenWritten(mediaType: text, token: byte)
    requires NormalMediaType(mediaType) == mediaType && MediaTypeName(token) == Some(mediaType)
    ensures ContentTypeBytes(ContentTypeValue(mediaType, map[])) == [token]
  {
    TextsChooseTheirTokens(token);
    hide NormalMediaType, MediaTypeName, MediaTypeToken;
  }

  lemma {:induction false} LowerAllAppend(a: seq<text>, b: seq<text>)
    ensures LowerAll(a + b) == LowerAll(a) + LowerAll(b)
  {
    if a == [] {
      assert a + b == b;
    } else {
      assert (a + b)[1..] == a[1..] + b;
      LowerAllAppend(a[1..], b);
    }
  }

  lemma {:induction false} LowerAllPermutation(a: seq<text>, b: seq<text>)
    requires multiset(a) == multiset(b)
    ensures multiset(LowerAll(a)) == multiset(LowerAll(b))
    decreases |a|
  {
    if a == [] {
      assert |multiset(b)| == 0;
    } else {
      assert a[0] in multiset(b);
      var j :| 0 <= j < |b| && b[j] == a[0];
      var rest := b[..j] + b[j + 1..];
      RemoveSame(a, b, j);
      LowerAllWithout(b, j);
      LowerAllPermutation(a[1..], rest);
    }
  }

  lemma RemoveSame(a: seq<text>, b: seq<text>, j: nat)
    requires a != [] && multiset(a) == multiset(b) && j < |b| && b[j] == a[0]
    ensures multiset(a[1..]) == multiset(b[..j] + b[j + 1..])
  {
    assert a == [a[0]] + a[1..];
    assert b == b[..j] + [b[j]] + b[j + 1..];
    assert multiset(a) == multiset{a[0]} + multiset(a[1..]);
    assert multiset(b) == multiset(b[..j]) + multiset{b[j]} + multiset(b[j + 1..]);
    assert multiset(a[1..]) == multiset(a) - multiset{a[0]};
    assert multiset(b[..j] + b[j + 1..]) == multiset(b) - multiset{b[j]};
  }

  lemma LowerAllWithout(b: seq<text>, j: nat)
    requires j < |b|
    ensures multiset(LowerAll(b)) == multiset{ToLower(b[j])} + multiset(LowerAll(b[..j] + b[j + 1..]))
  {
    assert b == b[..j] + b[j..];
    LowerAllAppend(b[..j], b[j..]);
    LowerAllAppend(b[..j], b[j + 1..]);
    assert b[j..][1..] == b[j + 1..];
  }

  lemma {:induction false} LowerAllOfLower(keys: seq<text>)
    requires forall k | k in keys :: IsLower(k)
    ensures LowerAll(keys) == keys
  {
    if keys != [] {
      assert IsLower(keys[0]);
      LowerAllOfLower(keys[1..]);
    }
  }

  /** Whatever order the map is iterated in, the sorted keys are the same. */
  lemma ParamKeysOfListing(params: map<text, text>, visited: seq<text>)
    requires Enumerates(visited, params.Keys)
    ensures Sort(TextLe, LowerAll(visited)) == ParamKeys(params)
  {
    TextOrder();
    EnumerationMultiset(visited, params.Keys);
    EnumerationMultiset(Listing(params.Keys), params.Keys);
    LowerAllPermutation(visited, Listing(params.Keys));
    SortOfPermutation(TextLe, LowerAll(visited), LowerAll(Listing(params.Keys)));
  }

  lemma ParamKeysOfLower(params: map<text, text>)
    requires forall k | k in params :: IsLower(k)
    ensures ParamKeys(params) == Ascending(TextLe, params.Keys)
    ensures Enumerates(ParamKeys(params), params.Keys)
  {
    LowerAllOfLower(Listing(params.Keys));
    TextOrder();
    AscendingShape(TextLe, params.Keys);
  }

  lemma {:induction false} ParamsBytesAppend(params: map<text, text>, a: seq<text>, key: text)
    ensures ParamsBytes(params, a + [key]) == ParamsBytes(params, a) + ParamBytes(params, key)
  {
    if a != [] {
      assert (a + [key])[1..] == a[1..] + [key] && (a + [key])[0] == a[0];
      ParamsBytesAppend(params, a[1..], key);
      ConcatAssociative(ParamBytes(params, a[0]), ParamsBytes(params, a[1..]), ParamBytes(params, key));
    } else {
      assert (a + [key])[1..] == [];
    }
  }

  lemma ParamsBytesStep(params: map<text, text>, keys: seq<text>, i: nat, payload: bytes, front: bytes)
    requires i < |keys| && payload == front + ParamsBytes(params, keys[..i])
    ensures payload + ParamNameBytes(keys[i]) + ParamValueBytes(keys[i], Lookup(params, keys[i])) ==
            front + ParamsBytes(params, keys[..i + 1])
  {
    ParamsBytesAppend(params, keys[..i], keys[i]);
    assert keys[..i + 1] == keys[..i] + [keys[i]];
    ConcatAssociative(payload, ParamNameBytes(keys[i]), ParamValueBytes(keys[i], Lookup(params, keys[i])));
    ConcatAssociative(front, ParamsBytes(params, keys[..i]), ParamBytes(params, keys[i]));
  }

  method CollectLowerKeys(m: map<text, text>) returns (keys: seq<text>)
    ensures Sort(TextLe, keys) == ParamKeys(m)
  {
    keys := [];
    var left := m.Keys;
    ghost var visited: seq<text> := [];
    while left != {}
      invariant left <= m.Keys
      invariant Enumerates(visited, m.Keys - left)
      invariant keys == LowerAll(visited)
      decreases left
    {
      var key :| key in left;
      keys := keys + [ToLower(key)];
      LowerAllAppend(visited, [key]);
      assert (set x | x in visited + [key]) == (set x | x in visited) + {key};
      visited := visited + [key];
      left := left - {key};
    }
    ParamKeysOfListing(m, visited);
  }

  method EncodeContentTypeValue(v: ContentTypeValue) returns (out: bytes)
    ensures out == ContentTypeBytes(v)
  {
    var mediaType := NormalMediaType(v.mediaType);
    if |v.params| == 0 {
      return MediaTypeBytes(mediaType);
    }
    var payload := MediaTypeBytes(mediaType);
    var keys := CollectLowerKeys(v.params);
    keys := Sort(TextLe, keys);
    var i := 0;
    while i < |keys|
      invariant 0 <= i <= |keys|
      invariant payload == MediaTypeBytes(mediaType) + ParamsBytes(v.params, keys[..i])
    {
      ParamsBytesStep(v.params, keys, i, payload, MediaTypeBytes(mediaType));
      payload := payload + ParamNameBytes(keys[i]);
      payload := payload + ParamValueBytes(keys[i], Lookup(v.params, keys[i]));
      i := i + 1;
    }
    assert keys[..i] == keys;
    out := ValueLengthBytes(|payload|) + payload;
  }

  // --------------------------------------------------------------- decoding

  function ParseValueLength(s: bytes): (r: Result<Parsed<nat>>)
    ensures r.Ok? ==> |r.value.rest| < |s|
  {
    if s == [] then Err(ShortData)
    else if s[0] <= 30 then Ok(Parsed(s[0], s[1..]))
    else if s[0] == 0x1F then
      if |s| < 2 then Err(ShortData) else ParseUintvar(s[1..])
    else Err(InvalidLength)
  }

  /** The pair (length, consumed) of decodeValueLength. */
  method DecodeValueLength(data: bytes) returns (r: Result<(nat, nat)>)
    ensures match ParseValueLength(data)
            case Err(e) => r == Err(e)
            case Ok(p) => r.Ok? && r.value.0 == p.value && 1 <= r.value.1 <= |data| && data[r.value.1..] == p.rest
  {
    if |data| == 0 {
      return Err(ShortData);
    }
    if data[0] <= 30 {
      return Ok((data[0], 1));
    }
    if data[0] == 0x1F {
      if |data| < 2 {
        return Err(ShortData);
      }
      var length := DecodeUintvar(data[1..]);
      if length.Err? {
        return Err(length.error);
      }
      assert data[1..][length.value.1..] == data[1 + length.value.1..];
      return Ok((length.value.0, 1 + length.value.1));
    }
    r := Err(InvalidLength);
  }

  function MediaTypeOf(token: byte): Result<text> {
    match MediaTypeName(token)
    case Some(name) => Ok(name)
    case None => Err(UnsupportedToken)
  }

  function ParsePayloadMediaType(s: bytes): Result<Parsed<text>> {
    if s == [] then Err(ShortData)
    else if s[0] >= 0x80 then
      var name :- MediaTypeOf(s[0]);
      Ok(Parsed(name, s[1..]))
    else
      var raw :- ParseUntilNull(s);
      var name :- DecodeText(raw.value);
      Ok(Parsed(name, raw.rest))
  }

  function Decimal(n: nat): text {
    if n < 10 then [0x30 + n] else Decimal(n / 10) + [0x30 + n % 10]
  }

  function DecodeTokenOrText(data: bytes): Result<text> {
    if data == [] then Err(ShortData)
    else if DecodeQuoted(data).Ok? then DecodeQuoted(data)
    else if DecodeText(data).Ok? then DecodeText(data)
    else if DecodeEncodedPayload(data).Ok? then DecodeEncodedPayload(data)
    else if |data| == 1 && data[0] >= 0x80 then Err(UnsupportedToken)
    else Err(ShortData)
  }

  function DecodeParamValue(name: text, data: bytes): Result<text> {
    if ToLower(name) == Ascii("type") then
      if |data| == 1 && data[0] >= 0x80 then MediaTypeOf(data[0]) else DecodeTokenOrText(data)
    else if ToLower(name) == Ascii("charset") then
      if data == [] then Err(ShortData)
      else if |data| == 1 && data[0] >= 0x80 then
        match CharsetName(data[0])
        case Some(charset) => Ok(charset)
        case None => Ok(Decimal(data[0] - 0x80))
      else DecodeTokenOrText(data)
    else DecodeTokenOrText(data)
  }

  /** A parameter name; None for an unknown token, whose value is skipped. */
  function ParseParamName(s: bytes): Result<Parsed<Option<text>>>
    requires s != []
  {
    if s[0] >= 0x80 then Ok(Parsed(ParamName(s[0]), s[1..]))
    else
      var raw :- ParseUntilNull(s);
      var name :- DecodeText(raw.value);
      Ok(Parsed(Some(ToLower(name)), raw.rest))
  }

  function ParseParamRaw(s: bytes): Result<Parsed<bytes>> {
    if s != [] && s[0] >= 0x80 then Ok(Parsed([s[0]], s[1..])) else ParseUntilNull(s)
  }

  function ParseParam(s: bytes): (r: Result<Parsed<Option<(text, text)>>>)
    requires s != []
    ensures r.Ok? ==> |r.value.rest| < |s|
  {
    var name :- ParseParamName(s);
    match name.value
    case None =>
      var skipped :- ParseUntilNull(name.rest);
      Ok(Parsed(None, skipped.rest))
    case Some(key) =>
      var raw :- ParseParamRaw(name.rest);
      var value :- DecodeParamValue(key, raw.value);
      Ok(Parsed(Some((key, value)), raw.rest))
  }

  function ParseParams(s: bytes, params: map<text, text>): Result<map<text, text>>
    decreases |s|
  {
    if s == [] then Ok(params)
    else
      var p :- ParseParam(s);
      match p.value
      case None => ParseParams(p.rest, params)
      case Some(kv) => ParseParams(p.rest, params[kv.0 := kv.1])
  }

  function DecodePayload(payload: bytes): Result<ContentTypeValue> {
    var mediaType :- ParsePayloadMediaType(payload);
    var params :- ParseParams(mediaType.rest, map[]);
    Ok(ContentTypeValue(mediaType.value, params))
  }

  /** The header-level decoder: a token, or a counted payload. */
  function DecodeContentType(data: bytes): Result<ContentTypeValue> {
    if data == [] then Err(ShortData)
    else if data[0] >= 0x80 then
      var name :- MediaTypeOf(data[0]);
      Ok(ContentTypeValue(name, map[]))
    else
      var length :- ParseValueLength(data);
      if |length.rest| < length.value then Err(ShortData) else DecodePayload(length.rest[..length.value])
  }

  method ReadPayloadMediaType(r: ByteReader) returns (name: Result<text>)
    requires r.Valid()
    modifies r`pos
    ensures r.Valid() && r.Yields(ParsePayloadMediaType(old(r.Rest())), name)
    ensures old(r.pos) <= r.pos
  {
    if r.Remaining() == 0 {
      return Err(ShortData);
    }
    if r.data[r.pos] >= 0x80 {
      var b := r.ReadByte();
      return MediaTypeOf(b.value);
    }
    var raw := r.ReadUntilNull();
    if raw.Err? {
      return Err(raw.error);
    }
    name := DecodeText(raw.value);
  }

  method DecodeContentTypeValue(data: bytes) returns (r: Result<ContentTypeValue>)
    ensures r == DecodeContentType(data)
  {
    if |data| == 0 {
      return Err(ShortData);
    }
    if data[0] >= 0x80 {
      var name := MediaTypeName(data[0]);
      return if name.Some? then Ok(ContentTypeValue(name.value, map[])) else Err(UnsupportedToken);
    }
    var header := DecodeValueLength(data);
    if header.Err? {
      return Err(header.error);
    }
    var (length, consumed) := header.value;
    if |data| < consumed + length {
      return Err(ShortData);
    }
    var payload := data[consumed..consumed + length];
    assert data[consumed..][..length] == payload;
    var reader := new ByteReader(payload);
    var mediaType := ReadPayloadMediaType(reader);
    if mediaType.Err? {
      return Err(mediaType.error);
    }
    var params := DecodeParams(reader);
    r := if params.Err? then Err(params.error) else Ok(ContentTypeValue(mediaType.value, params.value));
  }

  method DecodeParams(reader: ByteReader) returns (r: Result<map<text, text>>)
    requires reader.Valid()
    modifies reader`pos
    ensures reader.Valid() && r == ParseParams(old(reader.Rest()), map[])
  {
    hide DecodeText, DecodeParamValue, ParamName, ToLower, ParseUntilNull;
    var params: map<text, text> := map[];
    while reader.Remaining() > 0
      invariant reader.Valid()
      invariant ParseParams(reader.Rest(), params) == ParseParams(old(reader.Rest()), map[])
      decreases |reader.Rest()|
    {
      ghost var s := reader.Rest();
      var name: text := [];
      if reader.data[reader.pos] >= 0x80 {
        var b := reader.ReadByte();
        var known := ParamName(b.value);
        if known.None? {
          var skipped := reader.ReadUntilNull();
          if skipped.Err? {
            return Err(skipped.error);
          }
          continue;
        }
        name := known.value;
      } else {
        var keyRaw := reader.ReadUntilNull();
        if keyRaw.Err? {
          return Err(keyRaw.error);
        }
        var key := DecodeText(keyRaw.value);
        if key.Err? {
          return Err(key.error);
        }
        name := ToLower(key.value);
      }
      var valueRaw: Result<bytes>;
      if reader.Remaining() > 0 && reader.data[reader.pos] >= 0x80 {
        var b := reader.ReadByte();
        valueRaw := Ok([b.value]);
      } else {
        valueRaw := reader.ReadUntilNull();
      }
      if valueRaw.Err? {
        return Err(valueRaw.error);
      }
      var value := DecodeParamValue(name, valueRaw.value);
      if value.Err? {
        return Err(value.error);
      }
      params := params[name := value.value];
    }
    r := Ok(params);
  }

  // ------------------------------------------------------------ round trips

  predicate EncodableText(value: text) {
    0 !in value
  }

  /** Parameters the header-level decoder reads back. */
  predicate ReadableParams(params: map<text, text>) {
    forall k | k in params :: IsLower(k) && 0 !in k && EncodableText(params[k])
  }

  predicate EncodableKey(key: text) {
    key != [] && IsLower(key) && 0 !in key
  }

  /** Parameters that both decoders read back: the one of a part drops an empty key. */
  predicate EncodableParams(params: map<text, text>) {
    forall k | k in params :: EncodableKey(k) && EncodableText(params[k])
  }

  ghost predicate EncodableContentType(v: ContentTypeValue) {
    && EncodableParams(v.params)
    && |ContentTypePayload(v)| < UINTVAR_BOUND
  }

  lemma ValueLengthExact(n: nat, suffix: bytes)
    requires n < UINTVAR_BOUND
    ensures ParseValueLength(ValueLengthBytes(n) + suffix) == Ok(Parsed(n, suffix))
  {
    var s := ValueLengthBytes(n) + suffix;
    if n > 30 {
      UintvarExact(n, suffix);
      assert s[1..] == Uintvar(n) + suffix;
    } else {
      assert s[1..] == suffix;
    }
  }

  lemma EscapedFirst(value: text)
    requires value != []
    ensures 0x20 <= EncodeText(value)[0] < 0x80 && EncodeText(value)[0] != 0x22
    ensures |EncodeText(value)| >= 2
  {
  }

  lemma MediaTypeParses(mediaType: text, suffix: bytes)
    requires mediaType != [] && 0 !in mediaType
    ensures ParsePayloadMediaType(MediaTypeBytes(mediaType) + suffix) == Ok(Parsed(mediaType, suffix))
  {
    TokensNameTheirTexts(mediaType);
    if MediaTypeToken(mediaType).None? {
      EscapedFirst(mediaType);
      TextSelfDelimiting(mediaType, suffix);
      TextRoundTrip(mediaType);
    } else {
      assert (MediaTypeBytes(mediaType) + suffix)[1..] == suffix;
    }
  }

  lemma ParamNameParses(key: text, suffix: bytes)
    requires IsLower(key) && 0 !in key
    ensures ParseParamName(ParamNameBytes(key) + suffix) == Ok(Parsed(Some(key), suffix))
  {
    TokensNameTheirTexts(key);
    if ParamToken(key).None? {
      if key != [] { EscapedFirst(key); }
      TextSelfDelimiting(key, suffix);
      TextRoundTrip(key);
    } else {
      assert (ParamNameBytes(key) + suffix)[1..] == suffix;
    }
  }

  /** The written form of a value decodes, in its parameter's context, to the normalised value. */
  lemma ParamValueDecodes(key: text, value: text)
    requires IsLower(key) && EncodableText(value)
    ensures DecodeParamValue(key, ParamValueBytes(key, value)) == Ok(NormalParam(key, value))
  {
    TokensNameTheirTexts(ToLower(value));
    if value == [] {
      QuotedRoundTrip([]);
    } else {
      EscapedFirst(value);
      TextRoundTrip(value);
    }
  }

  lemma ParamRawParses(key: text, value: text, suffix: bytes)
    requires EncodableText(value)
    ensures ParseParamRaw(ParamValueBytes(key, value) + suffix) == Ok(Parsed(ParamValueBytes(key, value), suffix))
  {
    TokensNameTheirTexts(ToLower(value));
    var raw := ParamValueBytes(key, value);
    if raw[0] >= 0x80 {
      assert (raw + suffix)[1..] == suffix;
      if value != [] { EscapedFirst(value); }
    } else if value == [] {
      ParseUntilNullOf([0x22], suffix);
      assert raw == [0x22] + [0];
    } else {
      TextSelfDelimiting(value, suffix);
    }
  }

  lemma {:induction false} ParamsParse(source: map<text, text>, keys: seq<text>, params: map<text, text>)
    requires ReadableParams(source) && forall k | k in keys :: k in source
    ensures ParseParams(ParamsBytes(source, keys), params) == Ok(PutAll(NormalParams(source), keys, params))
    decreases |keys|
  {
    if keys != [] {
      var key := keys[0];
      var value := source[key];
      var tail := ParamsBytes(source, keys[1..]);
      var s := ParamsBytes(source, keys);
      ConcatAssociative(ParamNameBytes(key), ParamValueBytes(key, value), tail);
      ParamNameParses(key, ParamValueBytes(key, value) + tail);
      ParamRawParses(key, value, tail);
      ParamValueDecodes(key, value);
      assert ParseParam(s) == Ok(Parsed(Some((key, NormalParam(key, value))), tail));
      ParamsParse(source, keys[1..], params[key := NormalParam(key, value)]);
    }
  }

  lemma NormalParamsListed(params: map<text, text>)
    requires forall k | k in params :: IsLower(k)
    ensures PutAll(NormalParams(params), ParamKeys(params), map[]) == NormalParams(params)
    ensures forall k | k in ParamKeys(params) :: k in params
  {
    ParamKeysOfLower(params);
    var keys := ParamKeys(params);
    forall k ensures k in keys <==> k in params {
      assert k in (set x | x in keys) <==> k in params.Keys;
    }
    PutListing(NormalParams(params), keys);
  }

  lemma PayloadDecodes(v: ContentTypeValue)
    requires ReadableParams(v.params)
    ensures DecodePayload(ContentTypePayload(v)) == Ok(NormalContentType(v))
  {
    var mediaType := NormalMediaType(v.mediaType);
    NormalMediaTypeShape(v.mediaType);
    MediaTypeParses(mediaType, ParamsBytes(v.params, ParamKeys(v.params)));
    NormalParamsListed(v.params);
    ParamsParse(v.params, ParamKeys(v.params), map[]);
  }

  /** A value the header-level decoder can read: parameters, or a token for its media type. */
  predicate HeaderReadable(v: ContentTypeValue) {
    v.params != map[] || MediaTypeToken(NormalMediaType(v.mediaType)).Some?
  }

  /** The header-level decoder inverts the encoder exactly on the readable values. */
  lemma ContentTypeRoundTrip(v: ContentTypeValue)
    requires v.params != map[] ==> ReadableParams(v.params) && |ContentTypePayload(v)| < UINTVAR_BOUND
    ensures DecodeContentType(ContentTypeBytes(v)) == Ok(NormalContentType(v)) <==> HeaderReadable(v)
    ensures !HeaderReadable(v) ==> DecodeContentType(ContentTypeBytes(v)).Err?
  {
    var mediaType := NormalMediaType(v.mediaType);
    NormalMediaTypeShape(v.mediaType);
    TokensNameTheirTexts(mediaType);
    if v.params != map[] {
      var payload := ContentTypePayload(v);
      ValueLengthExact(|payload|, payload);
      PayloadDecodes(v);
      assert payload[..|payload|] == payload;
    } else if MediaTypeToken(mediaType).None? {
      EscapedFirst(mediaType);
    }
  }

  /** For one, "image/webp" has no token: its text is neither read back nor whole inside a PDU. */
  lemma BareTextFails()
    ensures var v := ContentTypeValue(Ascii("image/webp"), map[]);
            && DecodeContentType(ContentTypeBytes(v)).Err?
            && !SelfDelimiting(Octets, ContentTypeBytes(v))
  {
    var s := "image/webp";
    var v := ContentTypeValue(Ascii(s), map[]);
    assert forall i | 0 <= i < |s| :: 'a' <= s[i] <= 'z' || s[i] == '/' || s[i] == '-';
    LowerLiteral(s);
    TrimSpaceShape(Ascii(s));
    assert NormalMediaType(Ascii(s)) == Ascii(s);
    WebpHasNoToken();
    assert !HeaderReadable(v);
    hide MediaTypeToken, Ascii, NormalMediaType, MediaTypeBytes;
    ContentTypeRoundTrip(v);
    ContentTypeDelimits(v);
  }

  lemma WebpHasNoToken()
    ensures MediaTypeToken(Ascii("image/webp")).None?
  {
    assert Ascii("image/webp")[0] == 0x69 && Ascii("image/webp")[6] == 0x77;
    assert Ascii("text/plain")[0] == 0x74 && Ascii("image/jpeg")[6] == 0x6A;
  }

  /** It delimits itself inside a PDU in exactly the same cases. */
  lemma ContentTypeDelimits(v: ContentTypeValue)
    requires v.params != map[] ==> |ContentTypePayload(v)| < UINTVAR_BOUND
    ensures SelfDelimiting(Octets, ContentTypeBytes(v)) <==> HeaderReadable(v)
  {
    if v.params == map[] {
      ConstrainedDelimits(NormalMediaType(v.mediaType));
      NormalMediaTypeShape(v.mediaType);
    } else {
      CountedDelimits(ContentTypePayload(v));
    }
  }

  lemma ConstrainedDelimits(mediaType: text)
    requires mediaType != []
    ensures SelfDelimiting(Octets, MediaTypeBytes(mediaType)) <==> MediaTypeToken(mediaType).Some?
  {
    TokensNameTheirTexts(mediaType);
    if MediaTypeToken(mediaType).None? {
      EscapedFirst(mediaType);
    } else {
      assert MediaTypeBytes(mediaType)[1..] == [];
    }
  }

  lemma CountedDelimits(payload: bytes)
    requires |payload| < UINTVAR_BOUND
    ensures SelfDelimiting(Octets, ValueLengthBytes(|payload|) + payload)
  {
    hide ParseCounted, ParseQuotedLength, ParseUntilNull, ParseLongForm, Uintvar;
    var raw := ValueLengthBytes(|payload|) + payload;
    if |payload| <= 30 {
      assert raw[1..] == payload;
      CountedWhole(raw);
    } else {
      QuotedWhole(payload);
      ConcatAssociative([0x1F], Uintvar(|payload|), payload);
      assert raw[1..] == Uintvar(|payload|) + payload;
    }
  }

  lemma QuotedWhole(payload: bytes)
    requires |payload| < UINTVAR_BOUND
    ensures ParseQuotedLength(Uintvar(|payload|) + payload) ==
            Ok(Parsed([0x1F] + Uintvar(|payload|) + payload, []))
  {
    var s := Uintvar(|payload|) + payload;
    UintvarExact(|payload|, payload);
    assert s[..|s| - |payload|] == Uintvar(|payload|);
    assert payload[..|payload|] == payload && payload[|payload|..] == [];
  }

  /** Encoding sees only the normalised value. */
  lemma ContentTypeCanonical(v: ContentTypeValue)
    ensures ContentTypeBytes(NormalContentType(v)) == ContentTypeBytes(v)
    ensures NormalContentType(NormalContentType(v)) == NormalContentType(v)
  {
    NormalMediaTypeShape(v.mediaType);
    NormalParamsIdempotent(v.params);
    assert NormalParams(v.params).Keys == v.params.Keys;
    ParamsCanonical(v.params, ParamKeys(v.params));
    assert NormalParams(v.params) == map[] <==> v.params == map[] by {
      if v.params != map[] {
        var k :| k in v.params;
        assert k in NormalParams(v.params);
      }
    }
  }

  lemma {:induction false} ParamsCanonical(params: map<text, text>, keys: seq<text>)
    ensures ParamsBytes(NormalParams(params), keys) == ParamsBytes(params, keys)
  {
    if keys != [] {
      ToLowerIdempotent(Lookup(params, keys[0]));
      ParamsCanonical(params, keys[1..]);
    }
  }

  // ------------------------------------------------- what decoding produces

  lemma ParamNamesAreLower(token: byte)
    ensures ParamName(token).Some? ==> EncodableKey(ParamName(token).value)
  {
    LowerLiteral("charset");
    LowerLiteral("name");
    LowerLiteral("type");
    LowerLiteral("start");
  }

  lemma {:induction false} ParsedKeysAreLower(s: bytes, params: map<text, text>)
    requires forall k | k in params :: IsLower(k)
    ensures ParseParams(s, params).Ok? ==> forall k | k in ParseParams(s, params).value :: IsLower(k)
    decreases |s|
  {
    if s != [] && ParseParam(s).Ok? {
      var p := ParseParam(s).value;
      match p.value
      case None => ParsedKeysAreLower(p.rest, params);
      case Some(kv) =>
        if s[0] >= 0x80 {
          ParamNamesAreLower(s[0]);
        } else {
          ToLowerIdempotent(DecodeText(ParseUntilNull(s).value.value).value);
        }
        ParsedKeysAreLower(p.rest, params[kv.0 := kv.1]);
    }
  }

  /** For one: a parameter called "Name" does not come back. */
  lemma CapitalKeyFails()
    ensures var v := ContentTypeValue(Ascii("text/plain"), map[Ascii("Name") := Ascii("a")]);
            DecodeContentType(ContentTypeBytes(v)) != Ok(NormalContentType(v))
  {
    var key, value := Ascii("Name"), Ascii("a");
    var v := ContentTypeValue(Ascii("text/plain"), map[key := value]);
    assert key[0] == 0x4E && ToLower(key)[0] == 0x6E;
    assert !IsLower(key) && key in NormalContentType(v).params;
    DecodedKeysAreLower(ContentTypeBytes(v));
  }

  lemma DecodedKeysAreLower(data: bytes)
    ensures DecodeContentType(data).Ok? ==>
              forall k | k in DecodeContentType(data).value.params :: IsLower(k)
  {
    if DecodeContentType(data).Ok? && data[0] < 0x80 {
      var length := ParseValueLength(data).value;
      var payload := length.rest[..length.value];
      ParsedKeysAreLower(ParsePayloadMediaType(payload).value.rest, map[]);
    }
  }
}
