/**
 What the bytes of an MMS PDU mean, byte by byte: every form a text, a string, an address, an
 integer and a header can be read in, and a whole m-send-req as a handset writes it
 (internal/mmspdu/fields.go, header.go, codec.go and the field table of types.go).
 */
module WireForms {
  import opened Bytes
  import opened Reader
  import opened Fields
  import opened Headers
  import opened Multipart
  import opened Codec

  // ---------------------------------------------------------- texts and strings

  /** A text without the quote byte that may stand in front of it. */
  function Unquoted(x: bytes): text {
    if x != [] && x[0] == 0x7F then x[1..] else x
  }

  /** A text is what stands in front of its final NUL; without one it is cut short, with another it is invalid. */
  lemma TextMeans(data: bytes)
    ensures DecodeText(data) ==
            if data == [] || data[|data| - 1] != 0 then Err(ShortData)
            else if 0 in data[..|data| - 1] then Err(InvalidText)
            else Ok(Unquoted(data[..|data| - 1]))
  {
    if data != [] && data[|data| - 1] == 0 && data[0] == 0x7F {
      var front := data[..|data| - 1];
      assert front == [0x7F] + front[1..];
      assert data[1..][..|data| - 2] == front[1..];
    }
  }

  lemma TextOf(x: bytes)
    requires 0 !in x
    ensures DecodeText(x + [0]) == Ok(Unquoted(x))
  {
    TextMeans(x + [0]);
    assert (x + [0])[..|x|] == x;
  }

  /** A string may have a charset in front of it, as a token or as a text; the charset is skipped. */
  lemma EncodedStringMeans(charset: bytes, x: bytes)
    requires 0 !in charset && 0 !in x
    ensures x == [] || x[0] < 0x80 ==> DecodeEncodedPayload(x + [0]) == Ok(Unquoted(x))
    ensures |charset| == 1 && charset[0] >= 0x80 ==> DecodeEncodedPayload(charset + (x + [0])) == Ok(Unquoted(x))
    ensures charset == [] || charset[0] < 0x80 ==>
              DecodeEncodedPayload(charset + [0] + (x + [0])) == Ok(Unquoted(x))
  {
    TextOf(x);
    if |charset| == 1 { assert (charset + (x + [0]))[1..] == x + [0]; }
    if charset == [] || charset[0] < 0x80 { CharsetTextMeans(charset, x + [0]); }
  }

  lemma CharsetTextMeans(charset: bytes, s: bytes)
    requires 0 !in charset && (charset == [] || charset[0] < 0x80) && s != [] && s[|s| - 1] == 0
    ensures DecodeEncodedPayload(charset + [0] + s) == DecodeText(s)
  {
    var named := charset + [0] + s;
    assert named[|charset|] == 0 && named[..|named| - 1][|charset|] == 0;
    assert named[|charset| + 1..] == s;
    TextMeans(named);
    FirstNul(charset, s);
    hide DecodeText, IndexByte;
  }

  lemma FirstNul(x: bytes, rest: bytes)
    requires 0 !in x
    ensures IndexByte(x + [0] + rest, 0) == |x|
  {
    var s := x + [0] + rest;
    assert s[..|x|] == x;
    FirstAt(s, 0, |x|);
  }

  /** A string may be counted, by a byte up to 30; then nothing behind it matters. */
  lemma CountedStringMeans(n: byte, s: bytes)
    requires n <= 30
    ensures DecodeEncodedString([n] + s) == if |s| < n then Err(ShortData) else DecodeEncodedPayload(s[..n])
    ensures s != [] && s[0] > 30 ==> DecodeEncodedString(s) == DecodeEncodedPayload(s)
    ensures DecodeEncodedString([]) == Err(ShortData)
  {
    if n <= |s| { assert ([n] + s)[1..1 + n] == s[..n]; }
  }

  // ------------------------------------------------------------------ addresses

  /**
   An address is a plain text; or counted, with an address-present token and perhaps a counted string
   with a charset token in it; or the insert-address token, which names nobody.
   */
  lemma AddressMeans(charset: byte, x: bytes)
    requires 0 !in x && x != [] && 30 < x[0] < 0x80
    ensures DecodeAddressString(x + [0]) == Ok(Unquoted(x))
    ensures |x| <= 28 ==> DecodeAddressString([|x| + 2, 0x80] + (x + [0])) == Ok(Unquoted(x))
    ensures |x| <= 26 && charset > 0x80 ==>
              DecodeAddressString([|x| + 4, 0x80, |x| + 2, charset] + (x + [0])) == Ok(Unquoted(x))
    ensures DecodeAddressString([0x01, 0x81]) == Err(InsertAddress)
    ensures DecodeAddressString([]) == Err(ShortData)
  {
    hide DecodeAddressValue, Unquoted;
    PlainAddressMeans(x);
    CountedForms(charset, x);
    if |x| <= 28 {
      CountedAddress([0x80] + (x + [0]));
      InFront(|x| + 2, [0x80], x + [0]);
    }
    if |x| <= 26 && charset > 0x80 {
      CountedAddress([0x80, |x| + 2, charset] + (x + [0]));
      InFront(|x| + 4, [0x80, |x| + 2, charset], x + [0]);
    }
  }

  lemma InFront(b: byte, front: bytes, s: bytes)
    ensures [b] + (front + s) == [b] + front + s
    ensures |front| == 1 ==> [b] + front == [b, front[0]]
    ensures |front| == 3 ==> [b] + front == [b, front[0], front[1], front[2]]
  {
  }

  lemma PlainAddressMeans(x: bytes)
    requires 0 !in x && x != [] && 30 < x[0] < 0x80
    ensures DecodeAddressString(x + [0]) == DecodeAddressValue(x + [0]) == Ok(Unquoted(x))
  {
    hide DecodeEncodedPayload;
    EncodedStringMeans([], x);
    assert (x + [0])[0] == x[0];
  }

  /** Behind the address-present token: the text, or its counted form with a charset. */
  lemma CountedForms(charset: byte, x: bytes)
    requires 0 !in x && x != [] && 30 < x[0] < 0x80
    ensures DecodeAddressValue([0x80] + (x + [0])) == Ok(Unquoted(x))
    ensures |x| <= 26 && charset > 0x80 ==>
              DecodeAddressValue([0x80, |x| + 2, charset] + (x + [0])) == Ok(Unquoted(x))
  {
    hide DecodeAddressValue, DecodeAddressString, Unquoted;
    PlainAddressMeans(x);
    TokenStripped(x + [0]);
    if |x| <= 26 && charset > 0x80 { CharsetForm(charset, x); }
  }

  lemma CharsetForm(charset: byte, x: bytes)
    requires 0 !in x && |x| <= 26 && charset > 0x80
    ensures DecodeAddressValue([0x80, |x| + 2, charset] + (x + [0])) == Ok(Unquoted(x))
  {
    hide DecodeAddressValue, DecodeAddressString, Unquoted;
    var s := [charset] + (x + [0]);
    CharsetString(charset, x);
    assert [0x80, |x| + 2, charset] + (x + [0]) == [0x80] + ([|x| + 2] + s);
    assert |s| == |x| + 2 && s[0] != 0x01;
    CountedAddress(s);
    TokenStripped([|x| + 2] + s);
  }

  lemma CharsetString(charset: byte, x: bytes)
    requires 0 !in x && charset > 0x80
    ensures DecodeAddressValue([charset] + (x + [0])) == Ok(Unquoted(x))
  {
    hide DecodeEncodedPayload;
    EncodedStringMeans([charset], x);
  }

  lemma TokenStripped(s: bytes)
    ensures DecodeAddressValue([0x80] + s) == DecodeAddressValue(s)
  {
    assert ([0x80] + s)[1..] == s;
  }

  lemma CountedAddress(payload: bytes)
    requires 2 <= |payload| <= 30 && payload != [0x01, 0x81]
    ensures DecodeAddressValue([|payload|] + payload) == DecodeAddressValue(payload)
    ensures DecodeAddressString([|payload|] + payload) == DecodeAddressValue(payload)
  {
    assert ([|payload|] + payload)[1..1 + |payload|] == payload;
  }

  /**
   How an address is written: as it is when it has a type already, in any letter case; with the EMAIL
   type when it has an "@"; and otherwise as a number with its plus sign and the PLMN type.
   */
  lemma AddressWritten(value: text)
    ensures (exists i: nat :: TypeMarkAt(value, i)) ==> NormalizeAddress(value) == value
    ensures (forall i: nat :: !TypeMarkAt(value, i)) ==>
              NormalizeAddress(value) ==
              if 0x40 in value then value + Ascii("/TYPE=EMAIL")
              else if value != [] && value[0] == 0x2B then value + Ascii("/TYPE=PLMN")
              else [0x2B] + value + Ascii("/TYPE=PLMN")
  {
    assert forall i: nat | TypeMarkAt(value, i) :: i <= |value|;
    hide Index, TypeMarkAt, EqualFold;
    forall i: nat | i <= |value| ensures HasPrefix(ToUpper(value)[i..], Ascii("/TYPE=")) <==> TypeMarkAt(value, i) {
      MarkInUpper(value, i);
    }
    hide HasPrefix, Ascii;
  }

  // ------------------------------------------------------------------- integers

  /** Digits stand behind their count, eight at most; the first of several must not be a date token. */
  lemma IntegerMeans(digits: bytes)
    requires 1 <= |digits| <= 8 && (|digits| == 1 || digits[0] !in {0x80, 0x81})
    ensures DecodeInteger([|digits|] + digits) == Ok(FromBE(digits))
  {
    CountedDigits(digits);
    hide DecodeLongInteger, FromBE;
    assert |digits| > 1 ==> ([|digits|] + digits)[1] == digits[0];
  }

  /** Behind a date token, absolute or relative, stands a counted integer, and both are counted. */
  lemma DateMeans(digits: bytes, token: byte)
    requires 1 <= |digits| <= 8 && token in {0x80, 0x81}
    ensures DecodeInteger([|digits| + 2, token] + ([|digits|] + digits)) == Ok(FromBE(digits))
  {
    CountedDigits(digits);
    hide DecodeLongInteger, FromBE;
    assert ([|digits| + 2, token] + ([|digits|] + digits))[2..] == [|digits|] + digits;
  }

  lemma CountedDigits(digits: bytes)
    requires 1 <= |digits| <= 8
    ensures DecodeLongInteger([|digits|] + digits) == Ok(FromBE(digits))
  {
    assert ([|digits|] + digits)[1..] == digits;
    FromBEPadded(8 - |digits|, digits);
  }

  /** No digits, more than eight, or another number of them than announced. */
  lemma BadIntegers(n: byte, digits: bytes)
    requires n == 0 || n > 8 || n != |digits|
    ensures DecodeLongInteger([n] + digits) == Err(InvalidInteger)
    ensures DecodeLongInteger([]) == Err(ShortData)
  {
  }

  // -------------------------------------------------------------------- headers

  /** The kind of field behind each code. */
  lemma KindsByCode(f: byte)
    ensures f in {0x06, 0x0A, 0x0C, 0x0F, 0x10, 0x11, 0x12, 0x14, 0x15, 0x19, 0x1B} ==> KindForField(f) == Token
    ensures f in {0x03, 0x0B, 0x18} ==> KindForField(f) == Text
    ensures f in {0x13, 0x16, 0x1A} ==> KindForField(f) == EncodedString
    ensures f in {0x05, 0x07, 0x08} ==> KindForField(f) == Date
    ensures f in {0x01, 0x02, 0x09, 0x17} ==> KindForField(f) == Address
    ensures KindForField(0x04) == Octets && KindForField(0x0D) == ShortInteger && KindForField(0x0E) == LongInt
    ensures f == 0 || f > 0x1B ==> KindForField(f) == Unknown
  {
  }

  lemma HeaderRead(f: byte, kind: FieldKind, s: bytes, raw: bytes, rest: bytes)
    requires f < 128 && KindForField(f) == kind && ParseHeaderValue(kind, s) == Ok(Parsed(raw, rest))
    ensures ParseHeader([0x80 + f] + s) == Ok(Parsed(HeaderValue(f, kind, raw), rest))
  {
    hide KindForField, ParseHeaderValue;
    assert ([0x80 + f] + s)[1..] == s;
  }

  /** Fields of one byte: Delivery-Report, Message-Class, Message-Type, Priority, Read-Reply and the like. */
  lemma TokenFields(f: byte, v: byte, rest: bytes)
    requires f in {0x06, 0x0A, 0x0C, 0x0F, 0x10, 0x11, 0x12, 0x14, 0x15, 0x19, 0x1B}
    ensures ParseHeader([0x80 + f] + ([v] + rest)) == Ok(Parsed(HeaderValue(f, Token, [v]), rest))
  {
    hide KindForField, ParseHeader;
    KindsByCode(f);
    ParseNOf([v], rest);
    HeaderRead(f, Token, [v] + rest, [v], rest);
  }

  /** MMS-Version. */
  lemma VersionField(v: byte, rest: bytes)
    ensures ParseHeader([0x8D] + ([v] + rest)) == Ok(Parsed(HeaderValue(0x0D, ShortInteger, [v]), rest))
  {
    hide KindForField, ParseHeader;
    KindsByCode(0x0D);
    ParseNOf([v], rest);
    HeaderRead(0x0D, ShortInteger, [v] + rest, [v], rest);
  }

  /** Content-Location, Message-ID and Transaction-Id are texts; Response-Text, Subject and Retrieve-Text strings. */
  lemma TextFields(f: byte, x: bytes, rest: bytes)
    requires f in {0x03, 0x0B, 0x18, 0x13, 0x16, 0x1A} && 0 !in x
    ensures ParseHeader([0x80 + f] + (x + [0] + rest)) ==
            Ok(Parsed(HeaderValue(f, if f in {0x03, 0x0B, 0x18} then Text else EncodedString, x + [0]), rest))
  {
    hide KindForField, ParseHeader, ParseUntilNull;
    KindsByCode(f);
    ParseUntilNullOf(x, rest);
    HeaderRead(f, KindForField(f), x + [0] + rest, x + [0], rest);
  }

  /** Message-Size is an integer; Date, Delivery-Time and Expiry are dates. Both count their bytes. */
  lemma IntegerFields(f: byte, x: bytes, rest: bytes)
    requires f in {0x0E, 0x05, 0x07, 0x08} && |x| < 256
    ensures ParseHeader([0x80 + f] + ([|x|] + x + rest)) ==
            Ok(Parsed(HeaderValue(f, if f == 0x0E then LongInt else Date, [|x|] + x), rest))
  {
    hide KindForField, ParseHeader, ParseLongForm;
    KindsByCode(f);
    LongFormOf(x, rest);
    HeaderRead(f, KindForField(f), [|x|] + x + rest, [|x|] + x, rest);
  }

  lemma LongFormOf(x: bytes, rest: bytes)
    requires |x| < 256
    ensures ParseLongForm([|x|] + x + rest) == Ok(Parsed([|x|] + x, rest))
    ensures ParseCounted(|x|, x + rest) == Ok(Parsed([|x|] + x, rest))
    ensures |x| <= 30 ==> ParseHeaderValue(Address, [|x|] + x + rest) == Ok(Parsed([|x|] + x, rest))
    ensures |x| <= 30 ==> ParseHeaderValue(Octets, [|x|] + x + rest) == Ok(Parsed([|x|] + x, rest))
  {
    var s := [|x|] + x + rest;
    assert s[1..] == x + rest && s[..1] == [|x|];
    ParseNOf(x, rest);
  }

  /** Bcc, Cc, From and To are counted, by a byte up to 30, or end with a NUL. */
  lemma AddressFields(f: byte, x: bytes, rest: bytes)
    requires f in {0x01, 0x02, 0x09, 0x17}
    ensures |x| <= 30 ==>
              ParseHeader([0x80 + f] + ([|x|] + x + rest)) == Ok(Parsed(HeaderValue(f, Address, [|x|] + x), rest))
    ensures x != [] && x[0] > 30 && 0 !in x ==>
              ParseHeader([0x80 + f] + (x + [0] + rest)) == Ok(Parsed(HeaderValue(f, Address, x + [0]), rest))
  {
    hide KindForField, ParseHeader, ParseHeaderValue, ParseUntilNull, ParseLongForm, ParseCounted;
    KindsByCode(f);
    if |x| <= 30 {
      LongFormOf(x, rest);
      HeaderRead(f, Address, [|x|] + x + rest, [|x|] + x, rest);
    }
    if x != [] && x[0] > 30 && 0 !in x {
      PlainAddress(x, rest);
      HeaderRead(f, Address, x + [0] + rest, x + [0], rest);
    }
  }

  lemma PlainAddress(x: bytes, rest: bytes)
    requires x != [] && x[0] > 30 && 0 !in x
    ensures ParseHeaderValue(Address, x + [0] + rest) == Ok(Parsed(x + [0], rest))
  {
    AddressTextDelimits(x + [0] + rest);
    ParseUntilNullOf(x, rest);
  }

  /** Content-Type is counted, by a byte up to 30 or behind a length quote, or is one byte. */
  lemma ContentTypeField(x: bytes, v: byte, rest: bytes)
    ensures |x| <= 30 ==>
              ParseHeader([0x84] + ([|x|] + x + rest)) == Ok(Parsed(HeaderValue(0x04, Octets, [|x|] + x), rest))
    ensures v > 31 ==> ParseHeader([0x84] + ([v] + rest)) == Ok(Parsed(HeaderValue(0x04, Octets, [v]), rest))
    ensures |x| < 128 ==>
              ParseHeader([0x84] + ([0x1F, |x|] + x + rest)) ==
              Ok(Parsed(HeaderValue(0x04, Octets, [0x1F, |x|] + x), rest))
  {
    hide KindForField, ParseHeader, ParseHeaderValue, ParseLongForm, ParseCounted;
    KindsByCode(0x04);
    if |x| <= 30 {
      LongFormOf(x, rest);
      HeaderRead(0x04, Octets, [|x|] + x + rest, [|x|] + x, rest);
    }
    if v > 31 {
      OneOctet(v, rest);
      HeaderRead(0x04, Octets, [v] + rest, [v], rest);
    }
    if |x| < 128 {
      QuotedOctets(x, rest);
      HeaderRead(0x04, Octets, [0x1F, |x|] + x + rest, [0x1F, |x|] + x, rest);
    }
  }

  lemma OneOctet(v: byte, rest: bytes)
    requires v > 31
    ensures ParseHeaderValue(Octets, [v] + rest) == Ok(Parsed([v], rest))
  {
    assert ([v] + rest)[1..] == rest;
  }

  lemma QuotedOctets(x: bytes, rest: bytes)
    requires |x| < 128
    ensures ParseHeaderValue(Octets, [0x1F, |x|] + x + rest) == Ok(Parsed([0x1F, |x|] + x, rest))
  {
    hide ParseQuotedLength;
    assert ([0x1F, |x|] + x + rest)[1..] == [|x|] + (x + rest);
    ShortQuotedLength(x, rest);
  }

  lemma ShortQuotedLength(x: bytes, rest: bytes)
    requires |x| < 128
    ensures ParseQuotedLength([|x|] + (x + rest)) == Ok(Parsed([0x1F, |x|] + x, rest))
  {
    var s := [|x|] + (x + rest);
    assert s[1..] == x + rest;
    assert UintvarFrom(s, 0, 0) == Ok(Parsed(|x|, x + rest));
    assert s[..1] == [|x|] && [0x1F] + [|x|] + x == [0x1F, |x|] + x;
    ParseNOf(x, rest);
  }

  /** No other code is known, and a name below 0x80 is none. */
  lemma OtherFields(f: byte, rest: bytes)
    requires f < 128
    ensures f == 0 || f > 0x1B ==> ParseHeader([0x80 + f] + rest) == Err(UnsupportedKind)
    ensures ParseHeader([f] + rest) == Err(UnsupportedName)
    ensures ParseHeader([]) == Err(Eof)
  {
    hide KindForField;
    KindsByCode(f);
    assert ParseHeaderName([f] + rest) == Err(UnsupportedName);
    assert ([0x80 + f] + rest)[1..] == rest;
    assert ParseHeaderName([0x80 + f] + rest) == Ok(Parsed(f, rest));
    assert ParseHeaderValue(Unknown, rest) == Err(UnsupportedKind);
  }

  // ------------------------------------------------------------------ the PDU

  /** The version behind each byte, and the byte for each version; any other version is written as 1.3. */
  lemma VersionsMean(b: byte, version: text)
    ensures DecodeVersion(0x10) == Ascii("1.0") && DecodeVersion(0x11) == Ascii("1.1")
    ensures DecodeVersion(0x12) == Ascii("1.2") && DecodeVersion(0x13) == Ascii("1.3")
    ensures b !in {0x10, 0x11, 0x12, 0x13} ==> DecodeVersion(b) == []
    ensures DecodeVersion(EncodeVersion(version)) ==
            if version in {Ascii("1.0"), Ascii("1.1"), Ascii("1.2"), Ascii("1.3")} then version else Ascii("1.3")
  {
    hide Ascii;
  }

  lemma OneHeader(s: bytes, v: HeaderValue, rest: bytes, headers: HeaderMap, order: seq<byte>, order': seq<byte>)
    requires ParseHeader(s) == Ok(Parsed(v, rest)) && (v.field != 0x04 || rest == [])
    requires order' == order + [v.field]
    ensures DecodeSections(s, headers, order) == DecodeSections(rest, headers[v.field := v], order')
  {
    hide DecodeBody;
    assert s != [];
  }

  /** What stands behind the Content-Type is the body, to the end. */
  lemma BodyBehind(s: bytes, v: HeaderValue, rest: bytes, headers: HeaderMap, order: seq<byte>)
    requires ParseHeader(s) == Ok(Parsed(v, rest)) && v.field == 0x04 && rest != []
    ensures DecodeSections(s, headers, order) ==
            match DecodeBody(rest)
            case Err(e) => Err(e)
            case Ok(body) => Ok(Sections(headers[v.field := v], order + [v.field], Some(body)))
  {
    hide DecodeBody;
    assert s != [];
  }

  /**
   An m-send-req as a handset writes it: transaction ID, version 1.2, priority, delivery report and
   read reply, then a multipart.mixed body.
   */
  function SendRequest(id: text, priority: byte, report: byte, readReply: byte, body: bytes): bytes {
    [0x8C] + ([0x80] + ([0x98] + (id + [0] + ([0x8D] + ([0x92] + ([0x8F] + ([priority] + ([0x86] + ([report]
    + ([0x90] + ([readReply] + ([0x84] + ([0xA3] + body)))))))))))))
  }

  function SendRequestHeaders(id: text, priority: byte, report: byte, readReply: byte): HeaderMap {
    map[0x0C := HeaderValue(0x0C, Token, [0x80]), 0x18 := HeaderValue(0x18, Text, id + [0]),
        0x0D := HeaderValue(0x0D, ShortInteger, [0x92]), 0x0F := HeaderValue(0x0F, Token, [priority]),
        0x06 := HeaderValue(0x06, Token, [report]), 0x10 := HeaderValue(0x10, Token, [readReply]),
        0x04 := HeaderValue(0x04, Octets, [0xA3])]
  }

  /** It is read as it was meant: every header in its place, and the body on its own. */
  lemma SendRequestRead(id: text, priority: byte, report: byte, readReply: byte, body: bytes)
    requires 0 !in id
    ensures DecodePDU(SendRequest(id, priority, report, readReply, body)) ==
            var headers := SendRequestHeaders(id, priority, report, readReply);
            var order := [0x0C, 0x18, 0x0D, 0x0F, 0x06, 0x10, 0x04];
            if body == [] then Ok(PDU(0x80, Unquoted(id), Ascii("1.2"), headers, order, None))
            else match DecodeBody(body)
              case Err(e) => Err(e)
              case Ok(b) => Ok(PDU(0x80, Unquoted(id), Ascii("1.2"), headers, order, Some(b)))
  {
    hide DecodeSections, DecodeBody, Unquoted, SendRequest, Ascii, NamedFields;
    SendRequestSections(id, priority, report, readReply, body);
    var headers := SendRequestHeaders(id, priority, report, readReply);
    var order := [0x0C, 0x18, 0x0D, 0x0F, 0x06, 0x10, 0x04];
    SendRequestNamed(Sections(headers, order, None), id, priority, report, readReply);
    if DecodeBody(body).Ok? {
      SendRequestNamed(Sections(headers, order, Some(DecodeBody(body).value)), id, priority, report, readReply);
    }
  }

  lemma SendRequestNamed(s: Sections, id: text, priority: byte, report: byte, readReply: byte)
    requires 0 !in id && s.headers == SendRequestHeaders(id, priority, report, readReply)
    ensures NamedFields(s) == Ok(PDU(0x80, Unquoted(id), Ascii("1.2"), s.headers, s.order, s.body))
  {
    TextOf(id);
    VersionsMean(0x12, []);
    hide DecodeText, DecodeVersion, Ascii, Unquoted;
    assert s.headers[FIELD_MESSAGE_TYPE].GetToken() == Ok(0x80);
    assert s.headers[FIELD_TRANSACTION_ID].GetText() == Ok(Unquoted(id));
    assert s.headers[FIELD_MMS_VERSION].GetInteger() == Ok(0x12);
  }

  lemma SendRequestSections(id: text, priority: byte, report: byte, readReply: byte, body: bytes)
    requires 0 !in id
    ensures DecodeSections(SendRequest(id, priority, report, readReply, body), map[], []) ==
            var headers := SendRequestHeaders(id, priority, report, readReply);
            var order := [0x0C, 0x18, 0x0D, 0x0F, 0x06, 0x10, 0x04];
            if body == [] then Ok(Sections(headers, order, None))
            else match DecodeBody(body)
              case Err(e) => Err(e)
              case Ok(b) => Ok(Sections(headers, order, Some(b)))
  {
    hide ParseHeader, DecodeSections, DecodeBody;
    var s6 := [0x84] + ([0xA3] + body);
    var s5 := [0x90] + ([readReply] + s6);
    var s4 := [0x86] + ([report] + s5);
    var s3 := [0x8F] + ([priority] + s4);
    var s2 := [0x8D] + ([0x92] + s3);
    var s1 := [0x98] + (id + [0] + s2);
    TokenFields(0x0C, 0x80, s1);
    TextFields(0x18, id, s2);
    VersionField(0x92, s3);
    TokenFields(0x0F, priority, s4);
    TokenFields(0x06, report, s5);
    TokenFields(0x10, readReply, s6);
    ContentTypeField([], 0xA3, body);
    var h0: HeaderMap := map[];
    var all := SendRequestHeaders(id, priority, report, readReply);
    OneHeader([0x8C] + ([0x80] + s1), all[0x0C], s1, h0, [], [0x0C]);
    var h1 := h0[0x0C := all[0x0C]];
    OneHeader(s1, all[0x18], s2, h1, [0x0C], [0x0C, 0x18]);
    var h2 := h1[0x18 := all[0x18]];
    OneHeader(s2, all[0x0D], s3, h2, [0x0C, 0x18], [0x0C, 0x18, 0x0D]);
    var h3 := h2[0x0D := all[0x0D]];
    OneHeader(s3, all[0x0F], s4, h3, [0x0C, 0x18, 0x0D], [0x0C, 0x18, 0x0D, 0x0F]);
    var h4 := h3[0x0F := all[0x0F]];
    OneHeader(s4, all[0x06], s5, h4, [0x0C, 0x18, 0x0D, 0x0F], [0x0C, 0x18, 0x0D, 0x0F, 0x06]);
    var h5 := h4[0x06 := all[0x06]];
    OneHeader(s5, all[0x10], s6, h5, [0x0C, 0x18, 0x0D, 0x0F, 0x06], [0x0C, 0x18, 0x0D, 0x0F, 0x06, 0x10]);
    var h6 := h5[0x10 := all[0x10]];
    assert h6[0x04 := all[0x04]] == all;
    var o6 := [0x0C, 0x18, 0x0D, 0x0F, 0x06, 0x10];
    assert o6 + [0x04] == [0x0C, 0x18, 0x0D, 0x0F, 0x06, 0x10, 0x04];
    if body == [] {
      OneHeader(s6, all[0x04], [], h6, o6, [0x0C, 0x18, 0x0D, 0x0F, 0x06, 0x10, 0x04]);
      NothingLeft(all, [0x0C, 0x18, 0x0D, 0x0F, 0x06, 0x10, 0x04]);
    } else {
      BodyBehind(s6, all[0x04], body, h6, o6);
    }
  }

  lemma NothingLeft(headers: HeaderMap, order: seq<byte>)
    ensures DecodeSections([], headers, order) == Ok(Sections(headers, order, None))
  {
  }
}
