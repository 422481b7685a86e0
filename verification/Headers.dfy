/**
 PDU header names and self-delimiting header values: internal/mmspdu/header.go
 and the field table of internal/mmspdu/types.go.
 */
module Headers {
  import opened Bytes
  import opened Reader
  import opened Fields

  const FIELD_CONTENT_TYPE: byte := 0x04
  const FIELD_MESSAGE_TYPE: byte := 0x0C
  const FIELD_MMS_VERSION: byte := 0x0D
  const FIELD_TRANSACTION_ID: byte := 0x18

  function KindForField(field: byte): FieldKind {
    match field
    case 0x01 => Address         // Bcc
    case 0x02 => Address         // Cc
    case 0x03 => Text            // X-Mms-Content-Location
    case 0x04 => Octets          // Content-Type
    case 0x05 => Date
    case 0x06 => Token           // X-Mms-Delivery-Report
    case 0x07 => Date            // X-Mms-Delivery-Time
    case 0x08 => Date            // X-Mms-Expiry
    case 0x09 => Address         // From
    case 0x0A => Token           // X-Mms-Message-Class
    case 0x0B => Text            // Message-ID
    case 0x0C => Token           // X-Mms-Message-Type
    case 0x0D => ShortInteger    // X-Mms-MMS-Version
    case 0x0E => LongInt         // X-Mms-Message-Size
    case 0x0F => Token           // X-Mms-Priority
    case 0x10 => Token           // X-Mms-Read-Reply
    case 0x11 => Token           // X-Mms-Report-Allowed
    case 0x12 => Token           // X-Mms-Response-Status
    case 0x13 => EncodedString   // X-Mms-Response-Text
    case 0x14 => Token           // X-Mms-Sender-Visibility
    case 0x15 => Token           // X-Mms-Status
    case 0x16 => EncodedString   // Subject
    case 0x17 => Address         // To
    case 0x18 => Text            // X-Mms-Transaction-Id
    case 0x19 => Token           // X-Mms-Retrieve-Status
    case 0x1A => EncodedString   // X-Mms-Retrieve-Text
    case 0x1B => Token           // X-Mms-Read-Status
    case _ => Unknown
  }

  // ------------------------------------------------------------------ names

  function EncodeHeaderName(field: byte): bytes {
    if field <= 0x7F then [0x80 + field] else EncodeText([field])
  }

  function ParseHeaderName(s: bytes): Result<Parsed<byte>> {
    var p :- ParseByte(s);
    if p.value >= 0x80 then Ok(Parsed(p.value - 0x80, p.rest)) else Err(UnsupportedName)
  }

  method DecodeHeaderName(r: ByteReader) returns (name: Result<byte>)
    requires r.Valid()
    modifies r`pos
    ensures r.Valid() && r.Yields(ParseHeaderName(old(r.Rest())), name)
    ensures old(r.pos) <= r.pos
  {
    var b := r.ReadByte();
    if b.Err? {
      return Err(b.error);
    }
    name := if b.value >= 0x80 then Ok(b.value - 0x80) else Err(UnsupportedName);
  }

  /** Only the short form of a name is read back. */
  lemma HeaderNameRoundTrip(field: byte, rest: bytes)
    ensures ParseHeaderName(EncodeHeaderName(field) + rest) ==
            if field <= 0x7F then Ok(Parsed(field, rest)) else Err(UnsupportedName)
  {
    if field <= 0x7F {
      assert ([0x80 + field] + rest)[1..] == rest;
    }
  }

  // ----------------------------------------------------------------- values

  /** One length byte and that many bytes, the length byte already read. */
  function ParseCounted(first: byte, s: bytes): Result<Parsed<bytes>> {
    var p :- ParseN(s, first);
    Ok(Parsed([first] + p.value, p.rest))
  }

  /** Length-quote form, the quote already read. */
  function ParseQuotedLength(s: bytes): Result<Parsed<bytes>> {
    var length :- ParseUintvar(s);
    var p :- ParseN(length.rest, length.value);
    Ok(Parsed([0x1F] + s[..|s| - |length.rest|] + p.value, p.rest))
  }

  function ParseHeaderValue(kind: FieldKind, s: bytes): Result<Parsed<bytes>> {
    match kind
    case Text => ParseUntilNull(s)
    case EncodedString => ParseUntilNull(s)
    case Address =>
      var first :- ParseByte(s);
      if first.value <= 30 then ParseCounted(first.value, first.rest)
      else ParseUntilNullFrom(first.value, first.rest)
    case Token => ParseN(s, 1)
    case ShortInteger => ParseN(s, 1)
    case LongInt => ParseLongForm(s)
    case Date => ParseLongForm(s)
    case Octets =>
      var first :- ParseByte(s);
      if first.value <= 30 then ParseCounted(first.value, first.rest)
      else if first.value == 0x1F then ParseQuotedLength(first.rest)
      else Ok(Parsed([first.value], first.rest))
    case Unknown => Err(UnsupportedKind)
  }

  function ParseLongForm(s: bytes): Result<Parsed<bytes>> {
    var first :- ParseN(s, 1);
    ParseCounted(first.value[0], first.rest)
  }

  method DecodeHeaderValue(r: ByteReader, kind: FieldKind) returns (raw: Result<bytes>)
    requires r.Valid()
    modifies r`pos
    ensures r.Valid() && r.Yields(ParseHeaderValue(kind, old(r.Rest())), raw)
    ensures old(r.pos) <= r.pos
  {
    match kind {
      case Text =>
        raw := r.ReadUntilNull();
      case EncodedString =>
        raw := r.ReadUntilNull();
      case Address =>
        var first := r.ReadByte();
        if first.Err? {
          return Err(first.error);
        }
        if first.value <= 30 {
          var rest := r.ReadN(first.value);
          if rest.Err? {
            return Err(rest.error);
          }
          return Ok([first.value] + rest.value);
        }
        raw := r.ReadUntilNullFrom(first.value);
      case Token =>
        raw := r.ReadN(1);
      case ShortInteger =>
        raw := r.ReadN(1);
      case LongInt =>
        raw := DecodeLongForm(r);
      case Date =>
        raw := DecodeLongForm(r);
      case Octets =>
        var first := r.ReadByte();
        if first.Err? {
          return Err(first.error);
        }
        if first.value <= 30 {
          var rest := r.ReadN(first.value);
          if rest.Err? {
            return Err(rest.error);
          }
          return Ok([first.value] + rest.value);
        }
        if first.value == 0x1F {
          raw := DecodeQuotedLength(r);
          return;
        }
        raw := Ok([first.value]);
      case Unknown =>
        raw := Err(UnsupportedKind);
    }
  }

  method DecodeLongForm(r: ByteReader) returns (raw: Result<bytes>)
    requires r.Valid()
    modifies r`pos
    ensures r.Valid() && r.Yields(ParseLongForm(old(r.Rest())), raw)
    ensures old(r.pos) <= r.pos
  {
    var first := r.ReadN(1);
    if first.Err? {
      return Err(first.error);
    }
    var rest := r.ReadN(first.value[0]);
    if rest.Err? {
      return Err(rest.error);
    }
    raw := Ok(first.value + rest.value);
    assert first.value == [first.value[0]];
  }

  method DecodeQuotedLength(r: ByteReader) returns (raw: Result<bytes>)
    requires r.Valid()
    modifies r`pos
    ensures r.Valid() && r.Yields(ParseQuotedLength(old(r.Rest())), raw)
    ensures old(r.pos) <= r.pos
  {
    ghost var s := r.Rest();
    var length := DecodeUintvar(r.data[r.pos..]);
    if length.Err? {
      return Err(length.error);
    }
    var n := length.value.1;
    var uintvarRaw := r.data[r.pos..r.pos + n];
    assert uintvarRaw == s[..n] && s[n..] == r.data[r.pos + n..];
    r.pos := r.pos + n;
    var rest := r.ReadN(length.value.0);
    if rest.Err? {
      return Err(rest.error);
    }
    raw := Ok([0x1F] + uintvarRaw + rest.value);
  }

  // ------------------------------------------------------- self-delimitation

  /** Reading `raw` consumes all of it and nothing else. */
  predicate SelfDelimiting(kind: FieldKind, raw: bytes) {
    ParseHeaderValue(kind, raw) == Ok(Parsed(raw, []))
  }

  lemma {:induction false} UintvarReparse(s: bytes, acc: nat, i: nat, t: bytes)
    requires UintvarFrom(s, acc, i).Ok?
    ensures
      var p := UintvarFrom(s, acc, i).value;
      var used := s[..|s| - |p.rest|];
      && s == used + p.rest
      && UintvarFrom(used + t, acc, i) == Ok(Parsed(p.value, t))
    decreases |s|
  {
    var p := UintvarFrom(s, acc, i).value;
    var used := s[..|s| - |p.rest|];
    if s[0] < 128 {
      assert used == [s[0]];
    } else {
      UintvarReparse(s[1..], acc * 128 + s[0] % 128, i + 1, t);
      assert used[1..] == s[1..][..|s| - 1 - |p.rest|];
    }
    assert (used + t)[1..] == used[1..] + t;
  }

  lemma ParseNOf(x: bytes, t: bytes)
    ensures ParseN(x + t, |x|) == Ok(Parsed(x, t))
  {
    assert (x + t)[..|x|] == x && (x + t)[|x|..] == t;
  }

  lemma CountedReparse(first: byte, s: bytes, t: bytes)
    requires ParseCounted(first, s).Ok?
    ensures
      var p := ParseCounted(first, s).value;
      && [first] + s == p.value + p.rest && p.value != []
      && ParseCounted(first, p.value[1..] + t) == Ok(Parsed(p.value, t))
      && (p.value + t)[1..] == p.value[1..] + t
  {
    var p := ParseCounted(first, s).value;
    assert p.value[1..] == s[..first];
    ParseNOf(s[..first], t);
  }

  lemma UntilNullReparse(s: bytes, t: bytes)
    requires ParseUntilNull(s).Ok?
    ensures
      var p := ParseUntilNull(s).value;
      && s == p.value + p.rest && p.value != []
      && ParseUntilNull(p.value + t) == Ok(Parsed(p.value, t))
  {
    ParseUntilNullSound(s);
    var v := ParseUntilNull(s).value.value;
    var x := v[..|v| - 1];
    assert v == x + [0];
    ParseUntilNullOf(x, t);
  }

  lemma QuotedLengthReparse(s: bytes, t: bytes)
    requires ParseQuotedLength(s).Ok?
    ensures
      var p := ParseQuotedLength(s).value;
      && [0x1F] + s == p.value + p.rest && p.value != []
      && ParseQuotedLength(p.value[1..] + t) == Ok(Parsed(p.value, t))
      && (p.value + t)[1..] == p.value[1..] + t
  {
    hide UintvarFrom;
    var length := ParseUintvar(s).value;
    var used := s[..|s| - |length.rest|];
    var body := length.rest[..length.value];
    var p := ParseQuotedLength(s).value;
    UintvarReparse(s, 0, 0, body + t);
    assert p.value == [0x1F] + (used + body);
    var again := p.value[1..] + t;
    assert again == used + (body + t);
    ParseNOf(body, t);
    assert again[..|again| - |body + t|] == used;
  }

  /**
   Whatever was read is the front of the input, is not empty, and is read back
   the same in front of any other input.
   */
  lemma HeaderValueReparse(kind: FieldKind, s: bytes, t: bytes)
    requires ParseHeaderValue(kind, s).Ok?
    ensures
      var p := ParseHeaderValue(kind, s).value;
      && s == p.value + p.rest && p.value != []
      && ParseHeaderValue(kind, p.value + t) == Ok(Parsed(p.value, t))
  {
    hide ParseCounted, ParseQuotedLength, ParseLongForm, ParseUntilNull;
    var p := ParseHeaderValue(kind, s).value;
    match kind
    case Text => UntilNullReparse(s, t);
    case EncodedString => UntilNullReparse(s, t);
    case Token => ParseNOf(s[..1], t);
    case ShortInteger => ParseNOf(s[..1], t);
    case LongInt => LongFormReparse(s, t);
    case Date => LongFormReparse(s, t);
    case Address =>
      assert s == [s[0]] + s[1..];
      if s[0] <= 30 {
        CountedReparse(s[0], s[1..], t);
      } else {
        UntilNullReparse(s[1..], t);
        assert p.value[1..] == ParseUntilNull(s[1..]).value.value;
        assert (p.value + t)[1..] == p.value[1..] + t;
      }
    case Octets =>
      assert s == [s[0]] + s[1..];
      if s[0] <= 30 {
        CountedReparse(s[0], s[1..], t);
      } else if s[0] == 0x1F {
        QuotedLengthReparse(s[1..], t);
      } else {
        assert (p.value + t)[1..] == t;
      }
  }

  lemma LongFormReparse(s: bytes, t: bytes)
    requires ParseLongForm(s).Ok?
    ensures
      var p := ParseLongForm(s).value;
      && s == p.value + p.rest && p.value != []
      && ParseLongForm(p.value + t) == Ok(Parsed(p.value, t))
  {
    assert s == [s[0]] + s[1..];
    CountedReparse(s[0], s[1..], t);
  }

  lemma SelfDelimitingExtends(kind: FieldKind, raw: bytes, t: bytes)
    requires SelfDelimiting(kind, raw)
    ensures raw != []
    ensures ParseHeaderValue(kind, raw + t) == Ok(Parsed(raw, t))
  {
    HeaderValueReparse(kind, raw, t);
  }

  // ------------------------------- which constructed values delimit themselves

  lemma TextDelimits(field: byte, value: text)
    ensures SelfDelimiting(Text, NewTextValue(field, value).raw) <==> 0 !in value
    ensures SelfDelimiting(EncodedString, NewEncodedStringValue(field, value).raw) <==> 0 !in value
  {
    TerminatedDelimits(Escaped(value));
  }

  lemma TerminatedDelimits(x: bytes)
    ensures SelfDelimiting(Text, x + [0]) <==> 0 !in x
  {
    var raw := x + [0];
    assert raw[..|raw| - 1] == x;
    ParseUntilNullSound(raw);
    if 0 !in x {
      ParseUntilNullOf(x, []);
      assert raw + [] == raw;
    }
  }

  lemma TokenDelimits(field: byte, value: byte)
    ensures SelfDelimiting(Token, NewTokenValue(field, value).raw)
    ensures value <= 0x7F ==> SelfDelimiting(ShortInteger, NewShortIntegerValue(field, value).raw)
  {
    assert [value] + [] == [value];
    ParseNOf([value], []);
    if value <= 0x7F {
      var raw := EncodeShortInteger(value);
      assert raw + [] == raw;
      ParseNOf(raw, []);
    }
  }

  lemma IntegerDelimits(field: byte, value: uint64)
    ensures SelfDelimiting(LongInt, NewLongIntegerValue(field, value).raw)
    ensures SelfDelimiting(Date, NewDateValue(field, value).raw)
    ensures SelfDelimiting(Date, NewRelativeDateValue(field, value).raw)
  {
    LongIntegerShape(value);
    var raw := LongInteger(value);
    assert |raw| - 1 == raw[0];
    CountedWhole(raw);
    var date := NewRelativeDateValue(field, value).raw;
    assert |date| - 1 == date[0];
    CountedWhole(date);
  }

  lemma CountedWhole(raw: bytes)
    requires raw != [] && |raw| - 1 == raw[0]
    ensures ParseLongForm(raw) == Ok(Parsed(raw, []))
    ensures ParseCounted(raw[0], raw[1..]) == Ok(Parsed(raw, []))
  {
    assert raw[1..][..raw[0]] == raw[1..];
    assert raw == [raw[0]] + raw[1..];
    assert raw[1..][raw[0]..] == [];
    assert raw[..1][0] == raw[0];
  }

  lemma AddressDelimits(field: byte, value: text)
    ensures SelfDelimiting(Address, NewAddressValue(field, value).raw) <==> 0 !in value
  {
    var address := NormalizeAddress(value);
    NormalizedAddressShape(value);
    AddressTextDelimits(EncodeText(address));
    TextDelimits(field, address);
  }

  /** Behind a first byte above 30, an address is read as text. */
  lemma AddressTextDelimits(raw: bytes)
    requires raw != [] && raw[0] > 30
    ensures ParseHeaderValue(Address, raw) == ParseHeaderValue(Text, raw)
  {
    var i, j := IndexByte(raw, 0), IndexByte(raw[1..], 0);
    assert 0 <= i ==> raw[1..][i - 1] == 0;
    assert 0 <= j ==> raw[j + 1] == 0;
    assert raw == [raw[0]] + raw[1..];
    assert forall k | 0 <= k < i :: raw[..i][k] == raw[k];
    assert forall k | 0 <= k < j :: raw[1..][..j][k] == raw[k + 1];
    if 0 <= i && 0 <= j {
      assert i == j + 1;
      assert raw[..i + 1] == [raw[0]] + raw[1..][..j + 1];
      assert raw[i + 1..] == raw[1..][j + 1..];
    }
  }

  /**
   A From value delimits itself exactly when its length byte is right, or when that is no short
   length and the address has no NUL.
   */
  lemma FromDelimits(value: text)
    ensures SelfDelimiting(Address, NewFromValue(value).raw) <==> FromDelimited(value)
  {
    NormalizedAddressShape(value);
    if value == Ascii("#insert") {
      CountedWhole([0x01, 0x81]);
    } else {
      FromDelimitsOf(NormalizeAddress(value), FromPayload(value), NewFromValue(value).raw);
    }
  }

  predicate FromDelimited(value: text) {
    var n := |FromPayload(value)|;
    value == Ascii("#insert") || n <= 30 || (n % 256 > 30 && 0 !in value)
  }

  lemma FromDelimitsOf(address: text, payload: bytes, raw: bytes)
    requires |address| >= 6
    requires payload == [0x80] + EncodeText(address)
    requires raw == [|payload| % 256] + payload
    ensures SelfDelimiting(Address, raw) <==> (|payload| <= 30 || (|payload| % 256 > 30 && 0 !in address))
  {
    assert raw[1..] == payload;
    if |payload| <= 30 {
      CountedWhole(raw);
    } else if raw[0] > 30 {
      assert raw == [raw[0], 0x80] + Escaped(address) + [0];
      UncountedDelimits(raw[0], address);
    } else {
      ShortCountedIsPartial(raw);
    }
  }

  /** A length byte that is none is read as text, and so is the rest. */
  lemma UncountedDelimits(first: byte, address: text)
    requires first > 30
    ensures SelfDelimiting(Address, [first, 0x80] + Escaped(address) + [0]) <==> 0 !in address
  {
    hide ParseHeaderValue;
    var front := [first, 0x80] + Escaped(address);
    AddressTextDelimits(front + [0]);
    TerminatedDelimits(front);
    assert 0 in front <==> 0 in Escaped(address);
  }

  lemma ShortCountedIsPartial(raw: bytes)
    requires raw != [] && raw[0] <= 30 && |raw| - 1 > raw[0]
    ensures !SelfDelimiting(Address, raw)
  {
  }

  /** A concrete one that does not: an address of 243 digits, whose payload has 256 bytes. */
  lemma LongFromOverruns()
    ensures !SelfDelimiting(Address, NewFromValue(seq(243, i => 0x31)).raw)
  {
    var value: text := seq(243, i => 0x31);
    DigitsNormalized(value);
    FromDelimits(value);
  }
}
