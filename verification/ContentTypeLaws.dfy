/**
 When the header-level decoder of content types gives back what was encoded,
 for any value at all.
 */
module ContentTypeLaws {
  import opened Bytes
  import opened Reader
  import opened Fields
  import opened ContentType
  import opened MultipartLaws

  lemma ParsedParamHasNoNul(s: bytes)
    requires s != []
    ensures ParseParam(s).Ok? && ParseParam(s).value.value.Some? ==>
              var kv := ParseParam(s).value.value.value; 0 !in kv.0 && 0 !in kv.1
  {
    hide DecodeParamValue, ParseParamRaw;
    if ParseParam(s).Ok? && ParseParam(s).value.value.Some? {
      var name := ParseParamName(s).value;
      if s[0] >= 0x80 {
        ParamNamesAreLower(s[0]);
      } else {
        var raw := ParseUntilNull(s).value.value;
        DecodedTextHasNoNul(raw);
        ToLowerIdempotent(DecodeText(raw).value);
      }
      DecodedStringsHaveNoNul(name.value.value, ParseParamRaw(name.rest).value.value);
    }
  }

  lemma {:induction false} ParsedParamsHaveNoNul(s: bytes, params: map<text, text>)
    requires forall k | k in params :: 0 !in k && 0 !in params[k]
    ensures ParseParams(s, params).Ok? ==>
              forall k | k in ParseParams(s, params).value :: 0 !in k && 0 !in ParseParams(s, params).value[k]
    decreases |s|
  {
    hide ParseParam;
    if s != [] && ParseParam(s).Ok? {
      ParsedParamHasNoNul(s);
      var p := ParseParam(s).value;
      match p.value
      case None => ParsedParamsHaveNoNul(p.rest, params);
      case Some(kv) => ParsedParamsHaveNoNul(p.rest, params[kv.0 := kv.1]);
    }
  }

  /** Whatever decodes has lower-case keys and no NUL. */
  lemma DecodedParamsReadable(data: bytes)
    ensures DecodeContentType(data).Ok? ==> ReadableParams(DecodeContentType(data).value.params)
  {
    DecodedKeysAreLower(data);
    if DecodeContentType(data).Ok? && data[0] < 0x80 {
      var length := ParseValueLength(data).value;
      var payload := length.rest[..length.value];
      ParsedParamsHaveNoNul(ParsePayloadMediaType(payload).value.rest, map[]);
    }
  }

  lemma NormalReadable(params: map<text, text>)
    requires ReadableParams(NormalParams(params))
    ensures ReadableParams(params)
  {
    forall k | k in params ensures IsLower(k) && 0 !in k && 0 !in params[k] {
      assert k in NormalParams(params);
      var low := ToLower(params[k]);
      assert forall i | 0 <= i < |params[k]| :: params[k][i] == 0 ==> low[i] == 0;
    }
  }

  lemma LongLengthFails(n: nat, suffix: bytes)
    requires n >= UINTVAR_BOUND
    ensures ParseValueLength(ValueLengthBytes(n) + suffix).Err?
    ensures ValueLengthBytes(n) != [] && ValueLengthBytes(n)[0] == 0x1F
  {
    UintvarExact(n, suffix);
    var s := ValueLengthBytes(n) + suffix;
    assert s[1..] == Uintvar(n) + suffix;
  }

  lemma LongPayloadFails(v: ContentTypeValue)
    requires v.params != map[] && |ContentTypePayload(v)| >= UINTVAR_BOUND
    ensures DecodeContentType(ContentTypeBytes(v)).Err?
  {
    hide ContentTypePayload, ValueLengthBytes, ParseValueLength;
    var payload := ContentTypePayload(v);
    LongLengthFails(|payload|, payload);
    assert ContentTypeBytes(v)[0] == 0x1F;
  }

  /**
   The header-level decoder inverts the encoder exactly on a bare media type with a token, and
   on parameters that are lower-case and NUL-free and short enough to be counted.
   */
  lemma ContentTypeExact(v: ContentTypeValue)
    ensures DecodeContentType(ContentTypeBytes(v)) == Ok(NormalContentType(v)) <==>
            if v.params == map[] then MediaTypeToken(NormalMediaType(v.mediaType)).Some?
            else ReadableParams(v.params) && |ContentTypePayload(v)| < UINTVAR_BOUND
  {
    hide DecodeContentType, ContentTypeBytes, ContentTypePayload;
    if v.params == map[] || (ReadableParams(v.params) && |ContentTypePayload(v)| < UINTVAR_BOUND) {
      ContentTypeRoundTrip(v);
    } else if |ContentTypePayload(v)| >= UINTVAR_BOUND {
      LongPayloadFails(v);
    } else if DecodeContentType(ContentTypeBytes(v)) == Ok(NormalContentType(v)) {
      DecodedParamsReadable(ContentTypeBytes(v));
      NormalReadable(v.params);
    }
  }
}
