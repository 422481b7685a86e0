/**
 What the bytes of a content type, a parameter and a body part mean, form by form, and one whole
 part as it stands on the wire (internal/mmspdu/content_type.go and multipart.go).
 */
module ContentForms {
  import opened Bytes
  import opened Reader
  import opened Fields
  import opened Headers
  import opened Sorting
  import opened ContentType
  import opened Multipart
  import opened WireForms

  // ---------------------------------------------------------------------- tokens

  /** The media type behind each token, at the level of the header and of a part; others are refused. */
  lemma MediaTypesMean(token: byte)
    requires token >= 0x80
    ensures MediaTypeOf(0x80) == Ok(Ascii("*/*")) && MediaTypeOf(0x81) == Ok(Ascii("text/*"))
    ensures MediaTypeOf(0x82) == Ok(Ascii("text/html")) && MediaTypeOf(0x83) == Ok(Ascii("text/plain"))
    ensures MediaTypeOf(0x84) == Ok(Ascii("text/x-hdml"))
    ensures MediaTypeOf(0x8C) == Ok(Ascii("multipart/mixed")) && MediaTypeOf(0x8E) == Ok(Ascii("multipart/byteranges"))
    ensures MediaTypeOf(0x9D) == Ok(Ascii("image/gif")) && MediaTypeOf(0x9E) == Ok(Ascii("image/jpeg"))
    ensures MediaTypeOf(0xA9) == Ok(Ascii("image/png")) && MediaTypeOf(0xB3) == Ok(Ascii("multipart/related"))
    ensures MediaTypeOf(0xA3) == Ok(Ascii("application/vnd.wap.multipart.mixed"))
    ensures MediaTypeOf(0xB4) == Ok(Ascii("application/vnd.wap.multipart.related"))
    ensures MediaTypeOf(0xB8) == Ok(Ascii("application/smil"))
    ensures token !in {0x80, 0x81, 0x82, 0x83, 0x84, 0x8C, 0x8E, 0x9D, 0x9E, 0xA3, 0xA9, 0xB3, 0xB4, 0xB8} ==>
              MediaTypeOf(token) == Err(UnsupportedToken)
    ensures DecodeContentType([token]) ==
            (match MediaTypeOf(token)
             case Ok(name) => Ok(ContentTypeValue(name, map[]))
             case Err(e) => Err(e))
  {
    hide Ascii, MediaTypeOf, DecodePayload;
    TextTypesMean(token);
    OtherTypesMean();
  }

  lemma TextTypesMean(token: byte)
    ensures MediaTypeOf(0x80) == Ok(Ascii("*/*")) && MediaTypeOf(0x81) == Ok(Ascii("text/*"))
    ensures MediaTypeOf(0x82) == Ok(Ascii("text/html")) && MediaTypeOf(0x83) == Ok(Ascii("text/plain"))
    ensures MediaTypeOf(0x84) == Ok(Ascii("text/x-hdml"))
    ensures MediaTypeOf(0x8C) == Ok(Ascii("multipart/mixed")) && MediaTypeOf(0x8E) == Ok(Ascii("multipart/byteranges"))
    ensures token !in {0x80, 0x81, 0x82, 0x83, 0x84, 0x8C, 0x8E, 0x9D, 0x9E, 0xA3, 0xA9, 0xB3, 0xB4, 0xB8} ==>
              MediaTypeOf(token) == Err(UnsupportedToken)
  {
    hide Ascii;
  }

  lemma OtherTypesMean()
    ensures MediaTypeOf(0x9D) == Ok(Ascii("image/gif")) && MediaTypeOf(0x9E) == Ok(Ascii("image/jpeg"))
    ensures MediaTypeOf(0xA9) == Ok(Ascii("image/png")) && MediaTypeOf(0xB3) == Ok(Ascii("multipart/related"))
    ensures MediaTypeOf(0xA3) == Ok(Ascii("application/vnd.wap.multipart.mixed"))
    ensures MediaTypeOf(0xB4) == Ok(Ascii("application/vnd.wap.multipart.related"))
    ensures MediaTypeOf(0xB8) == Ok(Ascii("application/smil"))
  {
    hide Ascii;
  }

  /** A media type is trimmed and in small letters, and octet-stream when it is not printable ASCII or empty. */
  lemma MediaTypeWritten(mediaType: text)
    ensures var m := ToLower(TrimSpace(mediaType));
            NormalMediaType(mediaType) ==
            if m != [] && forall i | 0 <= i < |m| :: 0x20 <= m[i] <= 0x7E then m else Ascii("application/octet-stream")
  {
    hide Ascii, TrimSpace, ToLower;
  }

  /** The value of a decimal number. */
  function Worth(digits: text): nat
    requires forall i | 0 <= i < |digits| :: 0x30 <= digits[i] <= 0x39
  {
    if digits == [] then 0 else Worth(digits[..|digits| - 1]) * 10 + digits[|digits| - 1] as int - 0x30
  }

  lemma {:induction false} DecimalMeans(n: nat)
    ensures Decimal(n) != [] && forall i | 0 <= i < |Decimal(n)| :: 0x30 <= Decimal(n)[i] <= 0x39
    ensures Worth(Decimal(n)) == n
    ensures Decimal(n)[0] == 0x30 ==> n == 0
  {
    if n < 10 {
      assert [0x30 + n][..0] == [];
    } else {
      DecimalMeans(n / 10);
      assert Decimal(n)[..|Decimal(n)| - 1] == Decimal(n / 10);
    }
  }

  // ---------------------------------------------------------------------- values

  /** A value without the quotation mark, or else the quote byte, that may stand in front of it. */
  function Bare(x: bytes): text {
    if x != [] && x[0] == 0x22 then x[1..] else Unquoted(x)
  }

  /** A text value, whatever it begins with. */
  lemma ValueMeans(x: bytes)
    requires 0 !in x
    ensures DecodeTokenOrText(x + [0]) == Ok(Bare(x))
    ensures DecodePartText(x + [0]) == Ok(Bare(x))
  {
    hide DecodeEncodedPayload;
    TextOf(x);
    var data := x + [0];
    if x != [] && x[0] == 0x22 {
      assert data[1..|data| - 1] == x[1..];
    }
  }

  /** A value with a charset in front is read without it. */
  lemma CharsetValueMeans(charset: bytes, x: bytes)
    requires 0 !in charset && 0 !in x && charset != [] && charset[0] < 0x80 && charset[0] != 0x22
    ensures DecodeTokenOrText(charset + [0] + (x + [0])) == Ok(Unquoted(x))
    ensures DecodePartText(charset + [0] + (x + [0])) == Ok(Unquoted(x))
  {
    EncodedStringMeans(charset, x);
    var data := charset + [0] + (x + [0]);
    TextMeans(data);
    assert data[..|data| - 1][|charset|] == 0;
    hide DecodeEncodedPayload, DecodeText;
  }

  /** A value of one byte from 0x80 on is a media type in a part, and nothing in a parameter. */
  lemma TokenValueMeans(v: byte)
    requires v >= 0x80
    ensures DecodeTokenOrText([v]) == Err(UnsupportedToken)
    ensures DecodePartText([v]) == MediaTypeOf(v)
    ensures DecodeTokenOrText([]) == Err(ShortData) && DecodePartText([]) == Err(ShortData)
  {
    hide MediaTypeOf;
  }

  /**
   A charset is us-ascii, iso-8859-1 or utf-8 by token, the number of any other token, or a text; a
   type is a media type by token, or a text; and any other parameter is a text.
   */
  lemma ParamValueMeans(name: text, v: byte, x: bytes)
    requires v >= 0x80 && 0 !in x
    ensures ToLower(name) == Ascii("charset") ==>
              DecodeParamValue(name, [v]) ==
              Ok(if v == 0x83 then Ascii("us-ascii")
                 else if v == 0x84 then Ascii("iso-8859-1")
                 else if v == 0xEA then Ascii("utf-8")
                 else Decimal(v - 0x80))
    ensures ToLower(name) == Ascii("type") ==> DecodeParamValue(name, [v]) == MediaTypeOf(v)
    ensures ToLower(name) !in {Ascii("charset"), Ascii("type")} ==> DecodeParamValue(name, [v]) == Err(UnsupportedToken)
    ensures x != [] || ToLower(name) !in {Ascii("charset"), Ascii("type")} ==>
              DecodeParamValue(name, x + [0]) == Ok(Bare(x))
  {
    assert |Ascii("type")| == 4 && |Ascii("charset")| == 7;
    TokenValueMeans(v);
    ValueMeans(x);
    hide ToLower, Ascii, DecodeTokenOrText, Decimal, MediaTypeOf;
  }

  // ------------------------------------------------------------------ parameters

  /** The name of a parameter: a token, or a text in small letters; an unknown token has none. */
  lemma ParamNameMeans(token: byte, k: bytes, rest: bytes)
    requires 0 !in k && k != [] && k[0] < 0x80
    ensures ParseParamName([0x81] + rest) == Ok(Parsed(Some(Ascii("charset")), rest))
    ensures ParseParamName([0x85] + rest) == Ok(Parsed(Some(Ascii("name")), rest))
    ensures ParseParamName([0x89] + rest) == Ok(Parsed(Some(Ascii("type")), rest))
    ensures ParseParamName([0x8A] + rest) == Ok(Parsed(Some(Ascii("start")), rest))
    ensures token >= 0x80 && token !in {0x81, 0x85, 0x89, 0x8A} ==>
              ParseParamName([token] + rest) == Ok(Parsed(None, rest))
    ensures ParseParamName(k + [0] + rest) == Ok(Parsed(Some(ToLower(Unquoted(k))), rest))
  {
    hide Ascii, ToLower;
    forall t: byte ensures ([t] + rest)[1..] == rest {
    }
    ParseUntilNullOf(k, rest);
    TextOf(k);
    assert (k + [0] + rest)[0] == k[0];
  }

  /** A parameter: its name, and a token or a text; one without a name is skipped with its text. */
  lemma ParamMeans(name: bytes, key: Option<text>, v: byte, x: bytes, rest: bytes)
    requires name != [] && v >= 0x80 && 0 !in x && (x == [] || x[0] < 0x80)
    requires forall s: bytes :: ParseParamName(name + s) == Ok(Parsed(key, s))
    ensures key.None? ==> ParseParam(name + (x + [0] + rest)) == Ok(Parsed(None, rest))
    ensures key.Some? && DecodeParamValue(key.value, [v]).Ok? ==>
              ParseParam(name + ([v] + rest)) ==
              Ok(Parsed(Some((key.value, DecodeParamValue(key.value, [v]).value)), rest))
    ensures key.Some? && DecodeParamValue(key.value, x + [0]).Ok? ==>
              ParseParam(name + (x + [0] + rest)) ==
              Ok(Parsed(Some((key.value, DecodeParamValue(key.value, x + [0]).value)), rest))
  {
    hide DecodeParamValue, ParseParamName, ParseUntilNull;
    ParseUntilNullOf(x, rest);
    assert ParseParamRaw([v] + rest) == Ok(Parsed([v], rest)) by { assert ([v] + rest)[1..] == rest; }
    assert ParseParamRaw(x + [0] + rest) == Ok(Parsed(x + [0], rest)) by { assert (x + [0] + rest)[0] < 0x80; }
    hide ParseParamRaw;
    assert ParseParamName(name + ([v] + rest)) == Ok(Parsed(key, [v] + rest));
    assert ParseParamName(name + (x + [0] + rest)) == Ok(Parsed(key, x + [0] + rest));
  }

  /**
   A multipart.related type as handsets write it, with the start and the type of its presentation:
   a token, a text or a quoted text each.
   */
  lemma RelatedMeans(start: bytes, presentation: bytes)
    requires 0 !in start && 0 !in presentation && start != [] && presentation != []
    requires start[0] < 0x80 && presentation[0] < 0x80
    ensures var payload := [0xB3] + ([0x8A] + (start + [0] + ([0x89] + (presentation + [0]))));
            && DecodePayload(payload) ==
                 Ok(ContentTypeValue(Ascii("multipart/related"),
                                     map[Ascii("start") := Bare(start), Ascii("type") := Bare(presentation)]))
            && (|payload| <= 30 ==> DecodeContentType([|payload|] + payload) == DecodePayload(payload))
            && (|payload| <= 127 ==> DecodeContentType([0x1F, |payload|] + payload) == DecodePayload(payload))
  {
    var afterType := presentation + [0];
    var afterStart := start + [0] + ([0x89] + afterType);
    var payload := [0xB3] + ([0x8A] + afterStart);
    CountedPayload(payload);
    StartAndType(start, presentation);
    OtherTypesMean();
    hide DecodeContentType, MediaTypeOf, ParseParams, Ascii, Bare;
    assert payload[1..] == [0x8A] + afterStart;
  }

  lemma CountedPayload(payload: bytes)
    ensures |payload| <= 30 ==> DecodeContentType([|payload|] + payload) == DecodePayload(payload)
    ensures |payload| <= 127 ==> DecodeContentType([0x1F, |payload|] + payload) == DecodePayload(payload)
  {
    hide DecodePayload;
    if |payload| <= 30 {
      assert ([|payload|] + payload)[1..] == payload && payload[..|payload|] == payload;
    }
    if |payload| <= 127 {
      var s := [0x1F, |payload|] + payload;
      assert s[1..] == [|payload|] + payload && ([|payload|] + payload)[1..] == payload;
      assert UintvarFrom([|payload|] + payload, 0, 0) == Ok(Parsed(|payload|, payload));
      assert payload[..|payload|] == payload;
    }
  }

  lemma StartAndType(start: bytes, presentation: bytes)
    requires 0 !in start && 0 !in presentation && start != [] && presentation != []
    requires start[0] < 0x80 && presentation[0] < 0x80
    ensures ParseParams([0x8A] + (start + [0] + ([0x89] + (presentation + [0]))), map[]) ==
            Ok(map[Ascii("start") := Bare(start), Ascii("type") := Bare(presentation)])
  {
    assert ToLower(Ascii("start")) == Ascii("start") && ToLower(Ascii("type")) == Ascii("type");
    assert |Ascii("start")| == 5 && |Ascii("type")| == 4 && |Ascii("charset")| == 7;
    hide Ascii, ToLower, ParseParam, DecodeParamValue, Bare;
    var s2 := [0x89] + (presentation + [0]);
    forall s: bytes ensures ParseParamName([0x8A] + s) == Ok(Parsed(Some(Ascii("start")), s))
      ensures ParseParamName([0x89] + s) == Ok(Parsed(Some(Ascii("type")), s))
    {
      ParamNameMeans(0x80, [0x61], s);
    }
    hide ParseParamName;
    ParamValueMeans(Ascii("start"), 0x80, start);
    ParamValueMeans(Ascii("type"), 0x80, presentation);
    ParamMeans([0x8A], Some(Ascii("start")), 0x80, start, s2);
    ParamMeans([0x89], Some(Ascii("type")), 0x80, presentation, []);
    assert presentation + [0] + [] == presentation + [0];
    var none: map<text, text> := map[];
    var one := none[Ascii("start") := Bare(start)];
    assert ParseParams([0x8A] + (start + [0] + s2), none) == ParseParams(s2, one);
    assert ParseParams(s2, one) == ParseParams([], one[Ascii("type") := Bare(presentation)]);
  }

  // ----------------------------------------------------------------------- parts

  /** In a part a value is counted, by a byte up to 30 or behind a length quote; or a text; or one byte. */
  lemma PartValueMeans(x: bytes, v: byte, rest: bytes)
    requires v >= 0x80
    ensures |x| <= 30 ==> ParsePartRaw([|x|] + x + rest) == Ok(Parsed(x, rest))
    ensures |x| <= 127 ==> ParsePartRaw([0x1F, |x|] + x + rest) == Ok(Parsed(x, rest))
    ensures x != [] && 0x20 <= x[0] < 0x80 && 0 !in x ==> ParsePartRaw(x + [0] + rest) == Ok(Parsed(x + [0], rest))
    ensures ParsePartRaw([v] + rest) == Ok(Parsed([v], rest))
    ensures ParsePartRaw([]) == Err(ShortData)
  {
    hide ParseUntilNull;
    ParseNOf(x, rest);
    ParseNOf([v], rest);
    if |x| <= 30 { assert ([|x|] + x + rest)[1..] == x + rest; }
    if |x| <= 127 {
      assert ([0x1F, |x|] + x + rest)[1..] == [|x|] + (x + rest) && ([|x|] + (x + rest))[1..] == x + rest;
      assert UintvarFrom([|x|] + (x + rest), 0, 0) == Ok(Parsed(|x|, x + rest));
    }
    if 0 !in x { ParseUntilNullOf(x, rest); }
  }

  /**
   A header of a part: the content location behind 0x8E, the content ID behind 0xC0, any other token
   skipped with its value, and texts for any other header, the name in small letters.
   */
  lemma PartHeaderMeans(s: bytes, raw: bytes, k: bytes, x: bytes, token: byte, rest: bytes)
    requires ParsePartRaw(s) == Ok(Parsed(raw, rest)) && token >= 0x80
    requires 0 !in k && k != [] && k[0] < 0x80 && 0 !in x
    ensures DecodePartText(raw).Ok? ==>
              ParsePartHeader([0x8E] + s) ==
              Ok(Parsed(Some((Ascii("content-location"), DecodePartText(raw).value)), rest))
    ensures DecodePartText(raw).Ok? ==>
              ParsePartHeader([0xC0] + s) == Ok(Parsed(Some((Ascii("content-id"), DecodePartText(raw).value)), rest))
    ensures token !in {0x8E, 0xC0} ==> ParsePartHeader([token] + s) == Ok(Parsed(None, rest))
    ensures ParsePartHeader(k + [0] + (x + [0] + rest)) == Ok(Parsed(Some((ToLower(Unquoted(k)), Bare(x))), rest))
  {
    hide ParsePartRaw, DecodePartText, Ascii, ToLower, ParseUntilNull, Bare;
    forall t: byte ensures ([t] + s)[1..] == s {
    }
    ParseUntilNullOf(k, x + [0] + rest);
    ParseUntilNullOf(x, rest);
    TextOf(k);
    ValueMeans(x);
    assert (k + [0] + (x + [0] + rest))[0] == k[0];
  }

  /** The type of a part: a text, a token, or counted with parameters. */
  lemma PartTypeMeans(x: bytes, payload: bytes, v: byte, rest: bytes)
    requires v >= 0x80 && 0 !in x && x != [] && 0x20 <= x[0] < 0x80 && |payload| <= 30
    ensures ParsePartContentType(x + [0] + rest) == Ok(Parsed(ContentTypeValue(Unquoted(x), map[]), rest))
    ensures MediaTypeOf(v).Ok? ==>
              ParsePartContentType([v] + rest) == Ok(Parsed(ContentTypeValue(MediaTypeOf(v).value, map[]), rest))
    ensures DecodePartPayload(payload).Ok? ==>
              ParsePartContentType([|payload|] + payload + rest) == Ok(Parsed(DecodePartPayload(payload).value, rest))
  {
    hide ParseUntilNull, MediaTypeOf, DecodePartPayload, DecodeText;
    ParseUntilNullOf(x, rest);
    TextOf(x);
    assert ([v] + rest)[1..] == rest;
    assert ([|payload|] + payload + rest)[1..] == payload + rest;
    assert (payload + rest)[..|payload|] == payload && (payload + rest)[|payload|..] == rest;
  }

  /** One header of a part is read after another. */
  lemma OnePartHeader(s: bytes, kv: (text, text), rest: bytes, headers: map<text, text>)
    requires s != [] && ParsePartHeader(s) == Ok(Parsed(Some(kv), rest))
    ensures ParsePartHeaders(s, headers) == ParsePartHeaders(rest, headers[kv.0 := kv.1])
  {
    hide ParsePartHeader;
  }

  /** The header block of an image with a content ID and a content location. */
  function ImageBlock(cid: text, location: text): bytes {
    [0x9E] + ([0xC0, 0x22] + cid + [0] + ([0x8E] + (location + [0])))
  }

  predicate PlainText(x: text) {
    0 !in x && x != [] && 0x20 <= x[0] < 0x7F && x[0] != 0x22
  }

  /** It is read as one. */
  lemma ImageBlockRead(cid: text, location: text)
    requires 0 !in cid && PlainText(location)
    ensures DecodePartHeaderBlock(ImageBlock(cid, location)) ==
            Ok(Part(map[Ascii("content-id") := cid, Ascii("content-location") := location],
                    Ascii("image/jpeg"), map[], []))
  {
    hide Ascii, ParsePartHeader, ParsePartRaw, DecodePartText, MediaTypeOf, ParsePartContentType, ParsePartHeaders;
    var s3 := location + [0];
    var s2 := [0x8E] + s3;
    var quoted := [0x22] + cid;
    var s1 := [0xC0] + (quoted + [0] + s2);
    OtherTypesMean();
    PartTypeMeans([0x61], [], 0x9E, s1);
    assert ImageBlock(cid, location) == [0x9E] + s1;
    PartValueMeans(quoted, 0x80, s2);
    ValueMeans(quoted);
    PartHeaderMeans(quoted + [0] + s2, quoted + [0], [0x61], [], 0x80, s2);
    PartValueMeans(location, 0x80, []);
    ValueMeans(location);
    assert s3 + [] == s3;
    PartHeaderMeans(s3, s3, [0x61], [], 0x80, []);
    OnePartHeader(s1, (Ascii("content-id"), cid), s2, map[]);
    var first: map<text, text> := map[Ascii("content-id") := cid];
    OnePartHeader(s2, (Ascii("content-location"), location), [], first);
    NoPartHeader(first[Ascii("content-location") := location]);
    assert quoted[1..] == cid;
  }

  lemma NoPartHeader(headers: map<text, text>)
    ensures ParsePartHeaders([], headers) == Ok(headers)
  {
  }

  // ------------------------------------------------------------------ a whole body

  /** A body of one part: the number of parts, two lengths, the block and the data. */
  function OneFrame(block: bytes, data: bytes): bytes
    requires |block| < 128 && |data| < 128
  {
    [0x01] + ([|block|] + ([|data|] + (block + data)))
  }

  lemma OneFrameRead(block: bytes, data: bytes)
    requires |block| < 128 && |data| < 128
    ensures DecodeBody(OneFrame(block, data)) ==
            match DecodePartHeaderBlock(block)
            case Err(e) => Err(e)
            case Ok(part) => Ok(MultipartBody([part.(data := data)]))
  {
    hide DecodePartHeaderBlock;
    var frames := [|block|] + ([|data|] + (block + data));
    assert UintvarFrom(OneFrame(block, data), 0, 0) == Ok(Parsed(1, frames)) by {
      assert OneFrame(block, data)[1..] == frames;
    }
    FrameRead(block, data);
    hide ParseFrame, UintvarFrom;
    var none: seq<Part> := [];
    assert ParseParts(frames, 1, none) ==
           match DecodePartHeaderBlock(block)
           case Err(e) => Err(e)
           case Ok(part) => Ok(Parsed([part.(data := data)], [])) by {
      if DecodePartHeaderBlock(block).Ok? {
        var part := DecodePartHeaderBlock(block).value.(data := data);
        assert none + [part] == [part];
        assert ParseParts([], 0, [part]) == Ok(Parsed([part], []));
      }
    }
  }

  lemma FrameRead(block: bytes, data: bytes)
    requires |block| < 128 && |data| < 128
    ensures ParseFrame([|block|] + ([|data|] + (block + data))) == Ok(Parsed(Frame(block, data), []))
  {
    var s := [|block|] + ([|data|] + (block + data));
    assert s[1..] == [|data|] + (block + data) && s[1..][1..] == block + data;
    assert UintvarFrom(s, 0, 0) == Ok(Parsed(|block|, s[1..]));
    assert UintvarFrom(s[1..], 0, 0) == Ok(Parsed(|data|, block + data));
    assert (block + data)[..|block|] == block && (block + data)[|block|..] == data;
    assert data[..|data|] == data && data[|data|..] == [];
  }

  /** An image with an ID and a location, as the encoder and the decoder see it. */
  function Image(cid: text, location: text, data: bytes): Part {
    Part(map[Ascii("content-id") := cid, Ascii("content-location") := location], Ascii("image/jpeg"), map[], data)
  }

  lemma ImageKeys()
    ensures ContentId() != ContentLocation() && IsLower(ContentId()) && IsLower(ContentLocation())
    ensures Ascending(TextLe, {ContentId(), ContentLocation()}) == [ContentId(), ContentLocation()]
  {
    IdFirst();
    hide ContentId, ContentLocation, IsLower, TextLe;
    TextOrder();
    SortedListing(TextLe, [ContentId(), ContentLocation()], {ContentId(), ContentLocation()});
  }

  lemma IdLower()
    ensures IsLower(ContentId()) && IsLower(ContentLocation())
  {
    LowerLiteral("content-id");
    LowerLiteral("content-location");
    hide IsLower, Ascii;
  }

  lemma IdFirst()
    ensures ContentId() != ContentLocation() && IsLower(ContentId()) && IsLower(ContentLocation())
    ensures TextLe(ContentId(), ContentLocation())
  {
    var c, l := ContentId(), ContentLocation();
    IdLower();
    assert |c| == 10 && |l| == 16;
    assert c[8] == 0x69 && l[8] == 0x6C && forall i | 0 <= i < 8 :: c[i] == l[i];
    assert c[..8] == l[..8];
    hide ContentId, ContentLocation, IsLower, TextLe, IsTrimmed, IsValidMediaTypeText;
    TextLeMeans(c, l);
  }

  /** A body with one image is written and read in these bytes, its ID in angle brackets. */
  lemma ImageBody(cid: text, location: text, data: bytes)
    requires 0 !in cid && PlainText(location) && |cid| + |location| < 120 && |data| < 128
    ensures var block := ImageBlock([0x3C] + cid + [0x3E], location);
            && |block| < 128
            && MultipartBytes(MultipartBody([Image([0x3C] + cid + [0x3E], location, data)])) == OneFrame(block, data)
            && DecodeBody(OneFrame(block, data)) ==
                 Ok(MultipartBody([Image([0x3C] + cid + [0x3E], location, data)]))
  {
    hide ImageBlock, DecodeBody, PartBytes, Ascii, DecodePartHeaderBlock, Uintvar;
    var id := [0x3C] + cid + [0x3E];
    BlockLength(id, location);
    OneFrameRead(ImageBlock(id, location), data);
    ImageBlockRead(id, location);
    ImageWritten(id, location, data);
    SmallUintvar(1);
    OnePartBytes(Image(id, location, data));
  }

  lemma BlockLength(id: text, location: text)
    ensures |ImageBlock(id, location)| == |id| + |location| + 6
  {
  }

  lemma OnePartBytes(part: Part)
    ensures PartsBytes([part]) == PartBytes(part)
  {
    hide PartBytes;
    assert [part][1..] == [];
    assert PartBytes(part) + [] == PartBytes(part);
  }

  lemma SmallUintvar(n: nat)
    requires n < 128
    ensures Uintvar(n) == [n]
  {
  }

  lemma ImageWritten(id: text, location: text, data: bytes)
    requires |id| >= 2 && id[0] == 0x3C && id[|id| - 1] == 0x3E
    requires PlainText(location) && |ImageBlock(id, location)| < 128 && |data| < 128
    ensures PartBytes(Image(id, location, data)) ==
            [|ImageBlock(id, location)|] + ([|data|] + (ImageBlock(id, location) + data))
  {
    hide Lowered, Uintvar, PartHeaderBlock, ImageBlock, Image;
    var part := Image(id, location, data);
    ImageLowered(id, location, data);
    ImageBlockWritten(part, id, location);
    SmallUintvar(|ImageBlock(id, location)|);
    SmallUintvar(|data|);
  }

  lemma ImageLowered(id: text, location: text, data: bytes)
    ensures Lowered(Image(id, location, data).headers) == Image(id, location, data).headers
    ensures Image(id, location, data).data == data
  {
    IdFirst();
    var headers := Image(id, location, data).headers;
    assert forall k | k in headers :: k == ContentId() || k == ContentLocation();
    hide Ascii, ContentId, ContentLocation, Lowered, IsLower, TextLe;
    LoweredOfLower(headers);
  }

  lemma ImageBlockWritten(part: Part, id: text, location: text)
    requires |id| >= 2 && id[0] == 0x3C && id[|id| - 1] == 0x3E && PlainText(location)
    requires part == Image(id, location, part.data)
    ensures PartHeaderBlock(part, part.headers) == ImageBlock(id, location)
  {
    ImageTypeWritten();
    ImageKeys();
    assert part.headers.Keys == {ContentId(), ContentLocation()};
    hide Ascii, ContentId, ContentLocation, ContentTypeBytes, Ascending, PartHeadersBytes;
    TwoPartHeaders(part.headers, ContentId(), ContentLocation());
    ImageHeadersWritten(id, location);
  }

  lemma TwoPartHeaders(headers: map<text, text>, k: text, l: text)
    requires k in headers && l in headers
    ensures PartHeadersBytes(headers, [k, l]) == PartHeaderBytes(k, headers[k]) + PartHeaderBytes(l, headers[l])
  {
    hide PartHeaderBytes;
    assert [k, l][1..] == [l] && [l][1..] == [];
    assert PartHeadersBytes(headers, [l]) == PartHeaderBytes(l, headers[l]) + [];
  }

  lemma ImageHeadersWritten(id: text, location: text)
    requires |id| >= 2 && id[0] == 0x3C && id[|id| - 1] == 0x3E && PlainText(location)
    ensures PartHeaderBytes(ContentId(), id) == [0xC0, 0x22] + id + [0]
    ensures PartHeaderBytes(ContentLocation(), location) == [0x8E] + (location + [0])
  {
    IdFirst();
    assert |ContentId()| == 10 && |ContentLocation()| == 16;
    hide Ascii, ContentId, ContentLocation, TextLe, IsLower;
    assert [0xC0] + ([0x22] + id + [0]) == [0xC0, 0x22] + id + [0];
  }

  lemma ImageTypeWritten()
    ensures ContentTypeBytes(ContentTypeValue(Ascii("image/jpeg"), map[])) == [0x9E]
  {
    LowerLiteral("image/jpeg");
    TrimSpaceShape(Ascii("image/jpeg"));
    assert NormalMediaType(Ascii("image/jpeg")) == Ascii("image/jpeg");
    hide Ascii, NormalMediaType;
    TokenWritten(Ascii("image/jpeg"), 0x9E);
  }
}
