/**
 How much longer a decoded part can get when it is written again: a bound in the
 length of the input, so that whatever is decoded from a short enough input can
 always be written and read again.
 */
module MultipartBounds {
  import opened Bytes
  import opened Sorting
  import opened Reader
  import opened Fields
  import opened ContentType
  import opened Multipart
  import opened MultipartLaws
  import opened MultipartExact

  // ------------------------------------------------------- weight of a table

  /** No entry of a header or parameter table takes more bytes than this. */
  function Cost(key: text, value: text): nat {
    |key| + |value| + 5
  }

  ghost function AnyKey(m: map<text, text>): (k: text)
    requires m != map[]
    ensures k in m
  {
    assert m.Keys != {};
    var k :| k in m.Keys;
    k
  }

  ghost function Weight(m: map<text, text>): nat
    decreases |m|
  {
    if m == map[] then 0
    else
      var k := AnyKey(m);
      assert |m - {k}| < |m| by { Fewer(m, k); }
      Cost(k, m[k]) + Weight(m - {k})
  }

  lemma Fewer(m: map<text, text>, k: text)
    requires k in m
    ensures |m - {k}| < |m|
  {
    assert (m - {k}).Keys == m.Keys - {k};
  }

  /** Any entry can be weighed first. */
  lemma {:induction false} WeightTake(m: map<text, text>, k: text)
    requires k in m
    ensures Weight(m) == Cost(k, m[k]) + Weight(m - {k})
    decreases |m|
  {
    hide Cost;
    var j := AnyKey(m);
    if j != k {
      Fewer(m, j);
      Fewer(m, k);
      WeightTake(m - {j}, k);
      WeightTake(m - {k}, j);
      assert m - {j} - {k} == m - {k} - {j};
    }
  }

  lemma WeightPut(m: map<text, text>, k: text, v: text)
    ensures Weight(m[k := v]) <= Weight(m) + Cost(k, v)
  {
    hide Cost, Weight;
    WeightTake(m[k := v], k);
    assert m[k := v] - {k} == m - {k};
    if k in m {
      WeightTake(m, k);
    } else {
      assert m - {k} == m;
    }
  }

  lemma PartHeaderLength(key: text, value: text)
    ensures |PartHeaderBytes(key, value)| <= Cost(key, value)
  {
    hide ContentId, ContentLocation;
  }

  lemma {:induction false} PartHeadersLength(m: map<text, text>, keys: seq<text>, left: map<text, text>)
    requires Enumerates(keys, left.Keys) && forall k | k in keys :: k in m && k in left && m[k] == left[k]
    ensures |PartHeadersBytes(m, keys)| <= Weight(left)
    decreases |keys|
  {
    hide PartHeaderBytes, Cost, Weight;
    if keys != [] {
      var k := keys[0];
      assert k in keys;
      PartHeaderLength(k, m[k]);
      WeightTake(left, k);
      TailEnumerates(keys, left.Keys);
      assert (left - {k}).Keys == left.Keys - {k};
      PartHeadersLength(m, keys[1..], left - {k});
    }
  }

  lemma TailEnumerates(keys: seq<text>, elements: set<text>)
    requires Enumerates(keys, elements) && keys != []
    ensures Enumerates(keys[1..], elements - {keys[0]})
    ensures forall k | k in keys[1..] :: k in keys && k != keys[0]
  {
    assert keys == [keys[0]] + keys[1..];
    assert forall x :: x in keys <==> x == keys[0] || x in keys[1..];
    forall x ensures x in keys[1..] <==> x in elements && x != keys[0] {
      assert x in (set y | y in keys) <==> x in elements;
    }
  }

  lemma ParamLength(params: map<text, text>, key: text)
    requires key in params
    ensures |ParamBytes(params, key)| <= Cost(key, params[key])
  {
    hide Ascii, MediaTypeToken, ParamToken;
  }

  lemma {:induction false} ParamsLength(m: map<text, text>, keys: seq<text>, left: map<text, text>)
    requires Enumerates(keys, left.Keys) && forall k | k in keys :: k in m && k in left && m[k] == left[k]
    ensures |ParamsBytes(m, keys)| <= Weight(left)
    decreases |keys|
  {
    hide ParamBytes, Cost, Weight;
    if keys != [] {
      var k := keys[0];
      assert k in keys;
      ParamLength(m, k);
      WeightTake(left, k);
      TailEnumerates(keys, left.Keys);
      assert (left - {k}).Keys == left.Keys - {k};
      ParamsLength(m, keys[1..], left - {k});
    }
  }

  lemma ListedKeys(keys: seq<text>, m: map<text, text>)
    requires Enumerates(keys, m.Keys)
    ensures forall k | k in keys :: k in m
  {
    forall k | k in keys ensures k in m {
      assert k in (set x | x in keys);
    }
  }

  // --------------------------------------------------------- decoded strings

  lemma NamesShort(token: byte)
    ensures MediaTypeName(token).Some? ==> |MediaTypeName(token).value| <= 40
    ensures ParamName(token).Some? ==> |ParamName(token).value| <= 10
    ensures CharsetName(token).Some? ==> |CharsetName(token).value| <= 10
    ensures |OctetStream()| <= 40 && |ContentId()| <= 16 && |ContentLocation()| <= 16
  {
    hide Ascii;
  }

  lemma DecimalShort(n: nat)
    requires n < 128
    ensures |Decimal(n)| <= 3
  {
    if n >= 10 {
      assert |Decimal(n)| == |Decimal(n / 10)| + 1;
      if n / 10 >= 10 {
        assert n / 10 / 10 < 10;
        assert |Decimal(n / 10)| == |Decimal(n / 10 / 10)| + 1;
      }
    }
  }

  lemma TextShort(data: bytes)
    ensures DecodeText(data).Ok? ==> |DecodeText(data).value| <= |data|
    ensures DecodeQuoted(data).Ok? ==> |DecodeQuoted(data).value| <= |data|
  {
  }

  lemma EncodedPayloadShort(data: bytes)
    ensures DecodeEncodedPayload(data).Ok? ==> |DecodeEncodedPayload(data).value| <= |data|
  {
    hide DecodeText, IndexByte;
    TextShort(data);
    if data != [] {
      TextShort(data[1..]);
      var idx := IndexByte(data, 0);
      if 0 <= idx { TextShort(data[idx + 1..]); }
    }
  }

  lemma PayloadShort(data: bytes)
    ensures DecodeEncodedPayload(data).Ok? ==> |DecodeEncodedPayload(data).value| <= |data|
    ensures DecodeTokenOrText(data).Ok? ==> |DecodeTokenOrText(data).value| <= |data|
  {
    hide DecodeText, DecodeQuoted, DecodeEncodedPayload;
    TextShort(data);
    EncodedPayloadShort(data);
  }

  lemma StringsShort(name: text, data: bytes)
    ensures DecodePartText(data).Ok? ==> |DecodePartText(data).value| <= |data| + 40
    ensures DecodeParamValue(name, data).Ok? ==> |DecodeParamValue(name, data).value| <= |data| + 40
  {
    hide DecodeText, DecodeQuoted, DecodeEncodedPayload, DecodeTokenOrText, MediaTypeName, CharsetName, Decimal, Ascii;
    TextShort(data);
    PayloadShort(data);
    if data != [] {
      NamesShort(data[0]);
      if data[0] >= 0x80 { DecimalShort(data[0] - 0x80); }
    }
  }

  lemma UntilNullUsed(s: bytes)
    ensures ParseUntilNull(s).Ok? ==>
              |ParseUntilNull(s).value.value| + |ParseUntilNull(s).value.rest| == |s|
                && |ParseUntilNull(s).value.value| >= 1
  {
  }

  lemma PartRawUsed(s: bytes)
    ensures ParsePartRaw(s).Ok? ==> |ParsePartRaw(s).value.value| + |ParsePartRaw(s).value.rest| <= |s|
  {
    hide ParseUntilNull;
    UntilNullUsed(s);
  }

  // ------------------------------------------------------------ what is read

  lemma PartParamCost(s: bytes)
    ensures ParsePartParam(s).Ok? && ParsePartParam(s).value.value.Some? ==>
              var kv := ParsePartParam(s).value.value.value;
              Cost(kv.0, kv.1) + 64 * |ParsePartParam(s).value.rest| <= 64 * |s|
  {
    hide ParsePartRaw, DecodeParamValue, ParseUntilNull, DecodeText, ParamName;
    if ParsePartParam(s).Ok? {
      var key := ParsePartParamName(s).value;
      PartRawUsed(key.rest);
      StringsShort(key.value, ParsePartRaw(key.rest).value.value);
      NamesShort(s[0]);
      UntilNullUsed(s[1..]);
      if s[0] < 0x80 { TextShort(ParseUntilNullFrom(s[0], s[1..]).value.value); }
    }
  }

  lemma {:induction false} PartParamsCost(s: bytes, params: map<text, text>)
    ensures ParsePartParams(s, params).Ok? ==> Weight(ParsePartParams(s, params).value) <= Weight(params) + 64 * |s|
    decreases |s|
  {
    hide ParsePartParam, Cost, Weight;
    if s != [] && ParsePartParam(s).Ok? {
      PartParamCost(s);
      var p := ParsePartParam(s).value;
      match p.value
      case None => PartParamsCost(p.rest, params);
      case Some(kv) =>
        WeightPut(params, kv.0, kv.1);
        PartParamsCost(p.rest, params[kv.0 := kv.1]);
    }
  }

  lemma PartHeaderCost(s: bytes)
    requires s != []
    ensures ParsePartHeader(s).Ok? && ParsePartHeader(s).value.value.Some? ==>
              var kv := ParsePartHeader(s).value.value.value;
              Cost(kv.0, kv.1) + 64 * |ParsePartHeader(s).value.rest| <= 64 * |s|
  {
    hide ParsePartRaw, DecodePartText, ParseUntilNull, DecodeText, ContentId, ContentLocation;
    if ParsePartHeader(s).Ok? {
      NamesShort(0);
      if s[0] >= 0x80 {
        PartRawUsed(s[1..]);
        StringsShort([], ParsePartRaw(s[1..]).value.value);
      } else {
        var key := ParseUntilNull(s).value;
        UntilNullUsed(s);
        UntilNullUsed(key.rest);
        TextShort(key.value);
        StringsShort([], ParseUntilNull(key.rest).value.value);
      }
    }
  }

  lemma {:induction false} PartHeadersCost(s: bytes, headers: map<text, text>)
    ensures ParsePartHeaders(s, headers).Ok? ==>
              Weight(ParsePartHeaders(s, headers).value) <= Weight(headers) + 64 * |s|
    decreases |s|
  {
    hide ParsePartHeader, Cost, Weight;
    if s != [] && ParsePartHeader(s).Ok? {
      PartHeaderCost(s);
      var p := ParsePartHeader(s).value;
      match p.value
      case None => PartHeadersCost(p.rest, headers);
      case Some(kv) =>
        WeightPut(headers, kv.0, kv.1);
        PartHeadersCost(p.rest, headers[kv.0 := kv.1]);
    }
  }

  // ------------------------------------------------------------ content type

  lemma MediaTypeLength(mediaType: text)
    ensures |MediaTypeBytes(NormalMediaType(mediaType))| <= |mediaType| + 42
  {
    hide MediaTypeToken, Ascii;
    NamesShort(0);
    TrimRightShape(TrimLeft(mediaType));
    TrimLeftLength(mediaType);
  }

  lemma {:induction false} TrimLeftLength(t: text)
    ensures |TrimLeft(t)| <= |t|
  {
    if t != [] && IsSpace(t[0]) { TrimLeftLength(t[1..]); }
  }

  lemma {:induction false} ContinuedShort(n: nat)
    ensures |Continued(n)| <= n
  {
    if n > 0 { ContinuedShort(n / 128); }
  }

  lemma ValueLengthLength(n: nat)
    ensures |ValueLengthBytes(n)| <= 2 + n / 128
  {
    ContinuedShort(n / 128);
  }

  lemma ContentTypeLength(v: ContentTypeValue, used: nat)
    requires forall k | k in v.params :: IsLower(k)
    requires v.params != map[] ==> |v.mediaType| + 42 + Weight(v.params) <= 64 * used
    requires |v.mediaType| <= used + 40 && used >= 1
    ensures |ContentTypeBytes(v)| <= 128 * used
  {
    hide ValueLengthBytes, ParamsBytes, MediaTypeBytes, NormalMediaType, ParamKeys, IsLower, Weight;
    MediaTypeLength(v.mediaType);
    if v.params != map[] {
      ParamKeysOfLower(v.params);
      ListedKeys(ParamKeys(v.params), v.params);
      ParamsLength(v.params, ParamKeys(v.params), v.params);
      ValueLengthLength(|ContentTypePayload(v)|);
    }
  }

  lemma PayloadMediaTypeUsed(s: bytes)
    ensures ParsePayloadMediaType(s).Ok? ==>
              && |ParsePayloadMediaType(s).value.rest| < |s|
              && |ParsePayloadMediaType(s).value.value| + |ParsePayloadMediaType(s).value.rest| <= |s| + 40
  {
    hide ParseUntilNull, DecodeText, MediaTypeName;
    if s != [] {
      NamesShort(s[0]);
      UntilNullUsed(s);
      if ParseUntilNull(s).Ok? { TextShort(ParseUntilNull(s).value.value); }
    }
  }

  /** A counted payload: what it holds, against its length. */
  lemma PartPayloadCost(payload: bytes)
    ensures DecodePartPayload(payload).Ok? ==>
              var v := DecodePartPayload(payload).value;
              && |v.mediaType| <= |payload| + 40
              && |v.mediaType| + 42 + Weight(v.params) <= 64 * (|payload| + 1)
  {
    hide ParsePayloadMediaType, ParsePartParams, Weight;
    if DecodePartPayload(payload).Ok? {
      PayloadMediaTypeUsed(payload);
      PartParamsCost(ParsePayloadMediaType(payload).value.rest, map[]);
      EmptyWeight();
    }
  }

  lemma EmptyWeight()
    ensures Weight(map[]) == 0
  {
  }

  lemma PartContentTypeCost(s: bytes)
    ensures ParsePartContentType(s).Ok? ==>
              var p := ParsePartContentType(s).value;
              && |p.rest| < |s|
              && (forall k | k in p.value.params :: IsLower(k))
              && |p.value.mediaType| <= |s| - |p.rest| + 40
              && (p.value.params != map[] ==>
                    |p.value.mediaType| + 42 + Weight(p.value.params) <= 64 * (|s| - |p.rest|))
  {
    hide DecodePartPayload, ParseUntilNull, DecodeText, MediaTypeName, Weight, ParseUintvar, IsLower;
    if ParsePartContentType(s).Ok? {
      NamesShort(s[0]);
      UntilNullUsed(s);
      if ParseUntilNull(s).Ok? { TextShort(ParseUntilNull(s).value.value); }
      if s[0] <= 0x1F {
        var length := ParseValueLength(s).value;
        var payload := length.rest[..length.value];
        PartPayloadCost(payload);
        PayloadKeysLower(payload);
      }
    }
  }

  lemma PayloadKeysLower(payload: bytes)
    ensures DecodePartPayload(payload).Ok? ==> forall k | k in DecodePartPayload(payload).value.params :: IsLower(k)
  {
    hide ParsePayloadMediaType, ParsePartParams, IsLower;
    if DecodePartPayload(payload).Ok? {
      ParsedParamsEncodable(ParsePayloadMediaType(payload).value.rest, map[]);
    }
  }

  // ------------------------------------------------------------------- parts

  /** A decoded header block is written again in at most 128 times its length. */
  lemma BlockGrowth(block: bytes)
    ensures DecodePartHeaderBlock(block).Ok? ==>
              var p := DecodePartHeaderBlock(block).value;
              |PartHeaderBlock(p, Lowered(p.headers))| <= 128 * |block|
  {
    hide ParsePartContentType, ParsePartHeaders, ContentTypeBytes, PartHeadersBytes, Ascending, Weight, Lowered,
      WritablePart, IsLower;
    if DecodePartHeaderBlock(block).Ok? {
      var ct := ParsePartContentType(block).value;
      var p := DecodePartHeaderBlock(block).value;
      PartContentTypeCost(block);
      ContentTypeLength(ct.value, |block| - |ct.rest|);
      PartHeadersCost(ct.rest, map[]);
      EmptyWeight();
      ParsedHeadersEncodable(ct.rest, map[]);
      LoweredOfLower(p.headers);
      TextOrder();
      AscendingShape(TextLe, p.headers.Keys);
      var keys := Ascending(TextLe, p.headers.Keys);
      ListedKeys(keys, p.headers);
      PartHeadersLength(p.headers, keys, p.headers);
    }
  }

  lemma PartGrowth(s: bytes)
    requires |s| < UINTVAR_BOUND / 128
    ensures ParsePart(s).Ok? ==> FitsFrame(ParsePart(s).value.value)
  {
    hide DecodePartHeaderBlock, ContentTypeBytes, PartHeadersBytes, Ascending, ParseUintvar, Lowered;
    if ParsePart(s).Ok? {
      var frame := ParseFrame(s).value;
      BlockGrowth(frame.value.block);
    }
  }

  lemma {:induction false} FlattenLonger(frames: seq<bytes>, i: nat)
    requires i < |frames|
    ensures |frames[i]| <= |Flatten(frames)|
  {
    if i > 0 { FlattenLonger(frames[1..], i - 1); }
  }

  /** The lengths of every part frame fit the uintvar decoder. */
  ghost predicate BodyFits(b: MultipartBody) {
    forall p | p in b.parts :: FitsFrame(p)
  }

  lemma DecodedCount(data: bytes)
    ensures DecodeBody(data).Ok? ==> |DecodeBody(data).value.parts| < UINTVAR_BOUND
  {
    hide ParsePart;
    if data != [] && DecodeBody(data).Ok? {
      UintvarBytesConsumed(data, 0, 0);
      var count := ParseUintvar(data).value;
      var _ := PartsUsed(count.rest, count.value, []);
    }
  }

  /** Every body decoded from less than 2^28 bytes can be written so that it is read again. */
  lemma ShortBodyFits(data: bytes)
    requires |data| < UINTVAR_BOUND / 128
    ensures DecodeBody(data).Ok? ==> BodyFits(DecodeBody(data).value)
  {
    hide ParsePart, FitsFrame, ParseUintvar;
    if data != [] && DecodeBody(data).Ok? {
      var parts := DecodeBody(data).value.parts;
      var count, frames, tail := BodyPartition(data);
      hide DecodeBody;
      forall i | 0 <= i < |parts| ensures FitsFrame(parts[i]) {
        FlattenLonger(frames, i);
        PartGrowth(frames[i]);
      }
    }
  }

  /**
   A decoded body is written so that it is read again, normalised, exactly if its frames fit,
   which those of a short input do; and writing the normalised body gives the same bytes.
   */
  lemma ReencodingStable(data: bytes)
    ensures DecodeBody(data).Ok? ==>
              var b := DecodeBody(data).value;
              && (DecodeBody(MultipartBytes(b)) == Ok(NormalBody(b)) <==> BodyFits(b))
              && (|data| < UINTVAR_BOUND / 128 ==> BodyFits(b))
              && MultipartBytes(NormalBody(b)) == MultipartBytes(b)
  {
    if DecodeBody(data).Ok? {
      hide DecodeBody, MultipartBytes, NormalBody, WritablePart, FitsFrame;
      var b := DecodeBody(data).value;
      DecodedCount(data);
      DecodedBodyWritable(data);
      BodyExact(b, []);
      assert MultipartBytes(b) + [] == MultipartBytes(b);
      NormalBodyCanonical(b);
      if |data| < UINTVAR_BOUND / 128 { ShortBodyFits(data); }
    }
  }
}
