/**
 Field encodings of internal/mmspdu/fields.go: uintvars, long integers, text,
 quoted, encoded-string and address values, and the header value accessors.
 */
module Fields {
  import opened Bytes
  import opened Reader

  const UINT64_BOUND: nat := 0x1_0000_0000_0000_0000
  /** The decoder accepts five septets. */
  const UINTVAR_BOUND: nat := 0x8_0000_0000

  type uint64 = v: nat | v < UINT64_BOUND

  // ---------------------------------------------------------------- uintvar

  /** Base-128 digits, most significant first; none for zero. */
  function Septets(v: nat): seq<byte> {
    if v == 0 then [] else Septets(v / 128) + [v % 128]
  }

  /** Digits with the continuation bit set. */
  function Continued(v: nat): seq<byte> {
    if v == 0 then [] else Continued(v / 128) + [128 + v % 128]
  }

  function Uintvar(v: nat): (s: bytes)
    ensures |s| >= 1
  {
    Continued(v / 128) + [v % 128]
  }

  function Pow128(n: nat): (p: nat)
    ensures p > 0
  {
    if n == 0 then 1 else 128 * Pow128(n - 1)
  }

  lemma Pow128Of10()
    ensures Pow128(10) > UINT64_BOUND
  {
    assert Pow128(5) == 128 * (128 * (128 * (128 * (128 * Pow128(0)))));
    assert Pow128(10) == 128 * (128 * (128 * (128 * (128 * Pow128(5)))));
  }

  lemma {:induction false} ContinuedMarks(v: nat)
    ensures |Continued(v)| == |Septets(v)|
    ensures forall i | 0 <= i < |Septets(v)| :: Septets(v)[i] < 128 && Continued(v)[i] == Septets(v)[i] + 128
  {
    if v != 0 { ContinuedMarks(v / 128); }
  }

  lemma {:induction false} ContinuedLength(v: nat, n: nat)
    ensures |Continued(v)| <= n <==> v < Pow128(n)
  {
    if v != 0 && n > 0 { ContinuedLength(v / 128, n - 1); }
  }

  lemma SeptetsStep(v: nat, tail: bytes, i: nat)
    requires 0 < v < Pow128(i)
    ensures i > 0 && v / 128 < Pow128(i - 1)
    ensures Septets(v) + tail == Septets(v / 128) + ([v % 128] + tail)
  {
  }

  method EncodeUintvar(value: uint64) returns (out: bytes)
    ensures out == Uintvar(value)
  {
    if value == 0 {
      assert Uintvar(0) == [0];
      return [0];
    }
    var parts := new byte[10](_ => 0);
    var i := 10;
    var v: nat := value;
    Pow128Of10();
    while v > 0
      invariant 0 <= i <= 10
      invariant v < Pow128(i)
      invariant Septets(value) == Septets(v) + parts[i..]
    {
      SeptetsStep(v, parts[i..], i);
      i := i - 1;
      parts[i] := v % 128;
      assert parts[i..] == [v % 128] + parts[i + 1..];
      v := v / 128;
    }
    var digits := parts[i..];
    assert Septets(0) + digits == digits;
    UintvarMarks(value);
    out := SetContinuation(digits);
  }

  /** Every digit but the last gets bit 7. */
  function Marked(digits: seq<byte>): bytes
    requires forall k | 0 <= k < |digits| :: digits[k] < 128
  {
    seq(|digits|, k requires 0 <= k < |digits| => if k < |digits| - 1 then digits[k] + 128 else digits[k])
  }

  method SetContinuation(digits: seq<byte>) returns (out: bytes)
    requires forall k | 0 <= k < |digits| :: digits[k] < 128
    ensures out == Marked(digits)
  {
    out := digits;
    var j := 0;
    while j < |out| - 1
      invariant 0 <= j && (j < |out| || |out| == j == 0) && |out| == |digits|
      invariant forall k | 0 <= k < j :: out[k] == digits[k] + 128
      invariant forall k | j <= k < |out| :: out[k] == digits[k]
    {
      out := out[j := out[j] + 128];
      j := j + 1;
    }
  }

  lemma UintvarMarks(v: nat)
    requires v > 0
    ensures forall k | 0 <= k < |Septets(v)| :: Septets(v)[k] < 128
    ensures Marked(Septets(v)) == Uintvar(v)
  {
    ContinuedMarks(v);
    ContinuedMarks(v / 128);
    assert Septets(v) == Septets(v / 128) + [v % 128];
    assert Marked(Septets(v)) == Uintvar(v);
  }

  /** The decoder: `i` digits read so far, worth `acc`. */
  function UintvarFrom(s: bytes, acc: nat, i: nat): (r: Result<Parsed<nat>>)
    ensures r.Ok? ==> |r.value.rest| < |s|
    decreases |s|
  {
    if s == [] then Err(ShortData)
    else if i == 5 then Err(InvalidUintvar)
    else
      var value := acc * 128 + s[0] % 128;
      if s[0] < 128 then Ok(Parsed(value, s[1..])) else UintvarFrom(s[1..], value, i + 1)
  }

  function ParseUintvar(s: bytes): (r: Result<Parsed<nat>>)
    ensures r.Ok? ==> |r.value.rest| < |s|
  {
    UintvarFrom(s, 0, 0)
  }

  lemma {:induction false} UintvarBytesConsumed(s: bytes, acc: nat, i: nat)
    requires i <= 5 && acc < Pow128(i)
    ensures UintvarFrom(s, acc, i).Ok? ==>
              var p := UintvarFrom(s, acc, i).value;
              && p.value < UINTVAR_BOUND
              && |s| - 5 <= |p.rest| < |s|
              && s == s[..|s| - |p.rest|] + p.rest
    decreases |s|
  {
    if s != [] && i < 5 {
      var value := acc * 128 + s[0] % 128;
      UintvarSmall(i + 1);
      if s[0] >= 128 {
        UintvarTail(s[1..], value, i + 1);
        UintvarBytesConsumed(s[1..], value, i + 1);
      }
    }
  }

  lemma UintvarSmall(i: nat)
    requires i <= 5
    ensures Pow128(i) <= UINTVAR_BOUND
  {
    assert Pow128(5) == 128 * (128 * (128 * (128 * (128 * Pow128(0)))));
    assert i == 0 || i == 1 || i == 2 || i == 3 || i == 4 || i == 5;
    assert Pow128(4) == 128 * (128 * (128 * (128 * Pow128(0))));
  }

  lemma {:induction false} UintvarTail(s: bytes, acc: nat, i: nat)
    requires i <= 5
    ensures UintvarFrom(s, acc, i).Ok? ==> |s| - |UintvarFrom(s, acc, i).value.rest| <= 5 - i
    decreases |s|
  {
    if s != [] && i < 5 && s[0] >= 128 {
      UintvarTail(s[1..], acc * 128 + s[0] % 128, i + 1);
    }
  }

  method DecodeUintvar(data: bytes) returns (r: Result<(uint64, nat)>)
    ensures match ParseUintvar(data)
            case Err(e) => r == Err(e)
            case Ok(p) => r.Ok? && r.value.0 == p.value && r.value.1 <= |data| && data[r.value.1..] == p.rest
  {
    var value: nat := 0;
    var i := 0;
    while i < |data|
      invariant 0 <= i <= |data| && i <= 5
      invariant value < Pow128(i)
      invariant UintvarFrom(data[i..], value, i) == ParseUintvar(data)
    {
      if i == 5 {
        return Err(InvalidUintvar);
      }
      var b := data[i];
      assert data[i..][1..] == data[i + 1..];
      value := value * 128 + b % 128;
      UintvarSmall(i + 1);
      if b < 128 {
        return Ok((value, i + 1));
      }
      i := i + 1;
    }
    r := Err(ShortData);
  }

  lemma {:induction false} DecodeContinued(v: nat, tail: bytes)
    requires tail != []
    ensures UintvarFrom(Continued(v) + tail, 0, 0) ==
            if |Continued(v)| <= 5 then UintvarFrom(tail, v, |Continued(v)|) else Err(InvalidUintvar)
  {
    if v == 0 {
      assert Continued(v) + tail == tail;
    } else {
      var digit: byte := 128 + v % 128;
      DecodeContinued(v / 128, [digit] + tail);
      assert Continued(v) + tail == Continued(v / 128) + ([digit] + tail);
      assert ([digit] + tail)[1..] == tail;
    }
  }

  /** Exact reach of the five-septet decoder. */
  lemma UintvarExact(v: nat, suffix: bytes)
    ensures ParseUintvar(Uintvar(v) + suffix) ==
            if v < UINTVAR_BOUND then Ok(Parsed(v, suffix)) else Err(InvalidUintvar)
  {
    var tail: bytes := [v % 128] + suffix;
    DecodeContinued(v / 128, tail);
    assert Uintvar(v) + suffix == Continued(v / 128) + tail;
    assert tail[1..] == suffix;
    ContinuedLength(v / 128, 4);
    ContinuedLength(v / 128, 5);
    assert Pow128(4) == 128 * (128 * (128 * (128 * Pow128(0))));
    assert Pow128(5) == 128 * Pow128(4);
  }

  // ------------------------------------------------------------ long integer

  function TrimZeros(s: bytes): bytes {
    if s != [] && s[0] == 0 then TrimZeros(s[1..]) else s
  }

  function LongInteger(v: uint64): bytes {
    if v == 0 then [1, 0]
    else
      var digits := TrimZeros(FixedBE(v, 8));
      [|digits| % 256] + digits
  }

  method EncodeLongInteger(value: uint64) returns (out: bytes)
    ensures out == LongInteger(value)
  {
    if value == 0 {
      return [1, 0];
    }
    var raw := FixedBE(value, 8);
    var first := 0;
    while first < |raw| && raw[first] == 0
      invariant 0 <= first <= |raw|
      invariant TrimZeros(raw) == TrimZeros(raw[first..])
    {
      first := first + 1;
    }
    var digits := raw[first..];
    out := [|digits| % 256] + digits;
  }

  function DecodeLongInteger(data: bytes): Result<uint64> {
    if data == [] then Err(ShortData)
    else
      var length := data[0];
      if length == 0 || length > 8 || |data| != length + 1 then Err(InvalidInteger)
      else
        var padded := FixedBE(0, 8 - length) + data[1..];
        FromBEBound(padded);
        Pow256Of8();
        Ok(FromBE(padded))
  }

  lemma Pow256Of8()
    ensures Pow256(8) == UINT64_BOUND
  {
    assert Pow256(4) == 256 * (256 * (256 * (256 * Pow256(0))));
    assert Pow256(8) == 256 * (256 * (256 * (256 * Pow256(4))));
  }

  lemma {:induction false} FromBELeadingZero(s: bytes)
    requires s != [] && s[0] == 0
    ensures FromBE(s) == FromBE(s[1..])
  {
    if |s| > 1 {
      FromBELeadingZero(s[..|s| - 1]);
      assert s[..|s| - 1][1..] == s[1..][..|s| - 2];
    }
  }

  lemma {:induction false} TrimZerosKeepsValue(s: bytes)
    ensures FromBE(TrimZeros(s)) == FromBE(s)
    ensures |TrimZeros(s)| <= |s|
    ensures TrimZeros(s) != [] ==> TrimZeros(s)[0] != 0
    ensures TrimZeros(s) == [] <==> FromBE(s) == 0
  {
    if s != [] && s[0] == 0 {
      FromBELeadingZero(s);
      TrimZerosKeepsValue(s[1..]);
    } else if s != [] {
      FromBEPositive(s);
    }
  }

  lemma {:induction false} FromBEPositive(s: bytes)
    requires s != [] && s[0] != 0
    ensures FromBE(s) > 0
  {
    if |s| > 1 { FromBEPositive(s[..|s| - 1]); }
  }

  lemma {:induction false} FromBEPadded(zeros: nat, s: bytes)
    ensures FromBE(FixedBE(0, zeros) + s) == FromBE(s)
  {
    if zeros > 0 {
      ZerosFront(zeros);
      ZerosFront(zeros - 1);
      var padded := FixedBE(0, zeros) + s;
      assert padded[1..] == FixedBE(0, zeros - 1) + s;
      FromBELeadingZero(padded);
      FromBEPadded(zeros - 1, s);
    } else {
      assert FixedBE(0, zeros) + s == s;
    }
  }

  lemma {:induction false} ZerosFront(n: nat)
    ensures forall i | 0 <= i < n :: FixedBE(0, n)[i] == 0
  {
    if n > 0 { ZerosFront(n - 1); }
  }

  /** The value bytes of a long integer. */
  lemma LongIntegerShape(v: uint64)
    ensures v != 0 ==>
              var digits := TrimZeros(FixedBE(v, 8));
              && 1 <= |digits| <= 8
              && LongInteger(v) == [|digits|] + digits
              && FromBE(digits) == v
  {
    hide FixedBE, FromBE, TrimZeros, Pow256;
    Pow256Of8();
    FixedBERoundTrip(v, 8);
    TrimZerosKeepsValue(FixedBE(v, 8));
  }

  lemma LongIntegerRoundTrip(v: uint64)
    ensures DecodeLongInteger(LongInteger(v)) == Ok(v)
  {
    if v == 0 {
      FromBEPadded(7, [0]);
      assert LongInteger(v)[1..] == [0];
    } else {
      var digits := TrimZeros(FixedBE(v, 8));
      LongIntegerShape(v);
      FromBEPadded(8 - |digits|, digits);
      assert LongInteger(v)[1..] == digits;
    }
  }

  // ------------------------------------------------------------------- text

  predicate NeedsQuote(value: text) {
    value != [] && (value[0] < 0x20 || value[0] == 0x22 || value[0] >= 0x7F)
  }

  /** A quote byte goes before a first byte that could be read as something else. */
  function Escaped(value: text): bytes {
    if NeedsQuote(value) then [0x7F] + value else value
  }

  function EncodeText(value: text): bytes {
    Escaped(value) + [0]
  }

  function DecodeText(data: bytes): Result<text> {
    if data == [] || data[|data| - 1] != 0 then Err(ShortData)
    else
      var body := if data[0] == 0x7F then data[1..] else data;
      if 0 in body[..|body| - 1] then Err(InvalidText) else Ok(body[..|body| - 1])
  }

  /** A text value survives exactly when it has no NUL. */
  lemma TextRoundTrip(value: text)
    ensures DecodeText(EncodeText(value)) == Ok(value) <==> 0 !in value
    ensures 0 in value ==> DecodeText(EncodeText(value)) == Err(InvalidText)
  {
    var data := EncodeText(value);
    var body := if data[0] == 0x7F then data[1..] else data;
    assert body == value + [0];
    assert body[..|body| - 1] == value;
  }

  /** Read from a longer input, a NUL-free text value stops at its own end. */
  lemma TextSelfDelimiting(value: text, suffix: bytes)
    requires 0 !in value
    ensures ParseUntilNull(EncodeText(value) + suffix) == Ok(Parsed(EncodeText(value), suffix))
  {
    ParseUntilNullOf(Escaped(value), suffix);
  }

  lemma DecodedTextHasNoNul(data: bytes)
    ensures DecodeText(data).Ok? ==> 0 !in DecodeText(data).value
  {
  }

  function EncodeQuoted(value: text): bytes {
    [0x22] + value + [0]
  }

  function DecodeQuoted(data: bytes): Result<text> {
    if |data| < 2 || data[0] != 0x22 || data[|data| - 1] != 0 then Err(ShortData)
    else if 0 in data[1..|data| - 1] then Err(InvalidText)
    else Ok(data[1..|data| - 1])
  }

  lemma QuotedRoundTrip(value: text)
    ensures DecodeQuoted(EncodeQuoted(value)) == Ok(value) <==> 0 !in value
  {
    var data := EncodeQuoted(value);
    assert data[1..|data| - 1] == value;
  }

  // -------------------------------------------------- encoded string, address

  function DecodeEncodedPayload(data: bytes): Result<text> {
    if data == [] then Err(ShortData)
    else if data[0] >= 0x80 then
      if |data| < 2 then Err(ShortData) else DecodeText(data[1..])
    else if DecodeText(data).Ok? then DecodeText(data)
    else
      var idx := IndexByte(data, 0);
      if idx >= 0 then
        if idx + 1 >= |data| then Err(ShortData) else DecodeText(data[idx + 1..])
      else DecodeText(data)
  }

  function DecodeEncodedString(data: bytes): Result<text> {
    if data == [] then Err(ShortData)
    else if data[0] <= 30 then
      if |data| < data[0] + 1 then Err(ShortData) else DecodeEncodedPayload(data[1..1 + data[0]])
    else DecodeEncodedPayload(data)
  }

  /** Encoded strings share the text encoding; the empty one does not decode. */
  lemma EncodedStringRoundTrip(value: text)
    ensures DecodeEncodedString(EncodeText(value)) == Ok(value) <==> value != [] && 0 !in value
  {
    var data := EncodeText(value);
    TextRoundTrip(value);
    if value != [] && 0 in value && DecodeEncodedString(data).Ok? {
      var idx := IndexByte(data, 0);
      assert idx >= 0;
      assert |DecodeText(data[idx + 1..]).value| < |data| - idx - 1;
    }
  }

  predicate IsInsertAddressToken(data: bytes) {
    |data| == 2 && data[0] == 0x01 && data[1] == 0x81
  }

  function DecodeAddressValue(data: bytes): Result<text>
    decreases |data|
  {
    if data == [] then Err(ShortData)
    else if data[0] <= 30 then
      if |data| < data[0] + 1 then Err(ShortData)
      else
        var payload := data[1..1 + data[0]];
        if IsInsertAddressToken(payload) then Err(InsertAddress) else DecodeAddressValue(payload)
    else if data[0] == 0x80 then DecodeAddressValue(data[1..])
    else DecodeEncodedPayload(data)
  }

  function DecodeAddressString(data: bytes): Result<text> {
    if IsInsertAddressToken(data) then Err(InsertAddress)
    else if data == [] then Err(ShortData)
    else DecodeAddressValue(data)
  }

  function NormalizeAddress(value: text): text {
    if Index(ToUpper(value), Ascii("/TYPE=")) >= 0 then value
    else if 0x40 in value then value + Ascii("/TYPE=EMAIL")
    else (if value != [] && value[0] == 0x2B then value else [0x2B] + value) + Ascii("/TYPE=PLMN")
  }

  // ----------------------------------------------------------- header values

  datatype FieldKind =
    | Unknown | Octets | Text | EncodedString | Token | ShortInteger | LongInt | Date | Address

  datatype HeaderValue = HeaderValue(field: byte, kind: FieldKind, raw: bytes) {
    function GetText(): Result<text> {
      match kind
      case Text => DecodeText(raw)
      case Address => DecodeAddressString(raw)
      case EncodedString => DecodeEncodedString(raw)
      case _ => Err(WrongKind)
    }

    function GetToken(): Result<byte> {
      if |raw| != 1 then Err(InvalidLength) else Ok(raw[0])
    }

    function GetInteger(): Result<uint64> {
      match kind
      case ShortInteger => DecodeShortInteger(raw)
      case LongInt => DecodeInteger(raw)
      case Date => DecodeInteger(raw)
      case _ => Err(WrongKind)
    }
  }

  /** Bit 7 marks a short integer. */
  function EncodeShortInteger(value: byte): bytes
    requires value <= 0x7F
  {
    [0x80 + value]
  }

  function DecodeShortInteger(data: bytes): Result<uint64> {
    if |data| != 1 || data[0] < 0x80 then Err(InvalidInteger) else Ok(data[0] - 0x80)
  }

  /** A leading 0x80 or 0x81 value byte is taken for an absolute or relative token. */
  function DecodeInteger(raw: bytes): Result<uint64> {
    if |raw| >= 3 && raw[0] <= 30 && |raw| == raw[0] + 1 && (raw[1] == 0x80 || raw[1] == 0x81)
    then DecodeLongInteger(raw[2..])
    else DecodeLongInteger(raw)
  }

  const FIELD_FROM: byte := 0x09

  function NewTextValue(field: byte, value: text): HeaderValue {
    HeaderValue(field, Text, EncodeText(value))
  }

  function NewEncodedStringValue(field: byte, value: text): HeaderValue {
    HeaderValue(field, EncodedString, EncodeText(value))
  }

  function NewTokenValue(field: byte, value: byte): HeaderValue {
    HeaderValue(field, Token, [value])
  }

  function NewShortIntegerValue(field: byte, value: byte): HeaderValue
    requires value <= 0x7F
  {
    HeaderValue(field, ShortInteger, EncodeShortInteger(value))
  }

  function NewLongIntegerValue(field: byte, value: uint64): HeaderValue {
    HeaderValue(field, LongInt, LongInteger(value))
  }

  function NewDateValue(field: byte, seconds: uint64): HeaderValue {
    HeaderValue(field, Date, LongInteger(seconds))
  }

  function NewRelativeDateValue(field: byte, seconds: uint64): HeaderValue {
    var payload := [0x81] + LongInteger(seconds);
    HeaderValue(field, Date, [|payload| % 256] + payload)
  }

  /** Address-present form: a length byte, the 0x80 token and the address. */
  function FromPayload(value: text): bytes {
    [0x80] + EncodeText(NormalizeAddress(value))
  }

  function NewFromValue(value: text): HeaderValue {
    if value == Ascii("#insert") then HeaderValue(FIELD_FROM, Address, [0x01, 0x81])
    else HeaderValue(FIELD_FROM, Address, [|FromPayload(value)| % 256] + FromPayload(value))
  }

  function NewAddressValue(field: byte, value: text): HeaderValue {
    HeaderValue(field, Address, EncodeText(NormalizeAddress(value)))
  }

  // ---------------------------------------------------- accessor round trips

  lemma ShortIntegerRoundTrip(field: byte, value: byte)
    requires value <= 0x7F
    ensures NewShortIntegerValue(field, value).GetInteger() == Ok(value)
  {
  }

  /** The digits a value is written with start with an absolute or relative token. */
  predicate LooksLikeDateToken(value: uint64) {
    var digits := TrimZeros(FixedBE(value, 8));
    |digits| >= 2 && (digits[0] == 0x80 || digits[0] == 0x81)
  }

  lemma {:induction false} FromBEMonotone(s: bytes)
    requires s != [] && s[0] != 0
    ensures FromBE(s) > FromBE(s[1..])
  {
    if |s| > 1 {
      FromBEMonotone(s[..|s| - 1]);
      assert s[..|s| - 1][1..] == s[1..][..|s| - 2];
    }
  }

  /** Integer() returns the value it was built from exactly when the top digit is no date token. */
  lemma LongIntegerAccessor(field: byte, value: uint64)
    ensures NewLongIntegerValue(field, value).GetInteger() == Ok(value) <==> !LooksLikeDateToken(value)
  {
    hide TrimZeros, FixedBE, FromBE, DecodeLongInteger, UINT64_BOUND;
    LongIntegerRoundTrip(value);
    LongIntegerShape(value);
    if value == 0 {
      ZeroHasNoDigits();
    } else if LooksLikeDateToken(value) {
      var digits := TrimZeros(FixedBE(value, 8));
      TrimZerosKeepsValue(FixedBE(value, 8));
      DateTokenMisread(digits, LongInteger(value));
    }
  }

  /** A date is read like any long integer. */
  lemma DateAccessor(field: byte, seconds: uint64)
    ensures NewDateValue(field, seconds).GetInteger() == Ok(seconds) <==> !LooksLikeDateToken(seconds)
  {
    hide LongInteger, DecodeInteger, LooksLikeDateToken;
    LongIntegerAccessor(field, seconds);
  }

  /** The first date that is misread: 0x80000000 seconds, in January 2038. */
  lemma DateAccessorFails(field: byte)
    ensures NewDateValue(field, 0x8000_0000).GetInteger() != Ok(0x8000_0000)
  {
    hide LongInteger, DecodeInteger, TrimZeros;
    assert FixedBE(0x8000_0000, 8) == [0, 0, 0, 0, 0x80, 0, 0, 0];
    assert FixedBE(0x8000_0000, 8) == [0, 0, 0, 0] + [0x80, 0, 0, 0];
    FourZeros([0x80, 0, 0, 0]);
    DateAccessor(field, 0x8000_0000);
  }

  lemma FourZeros(digits: bytes)
    requires |digits| == 4 && digits[0] != 0
    ensures TrimZeros([0, 0, 0, 0] + digits) == digits
  {
    assert ([0, 0, 0, 0] + digits)[1..] == [0, 0, 0] + digits;
    assert ([0, 0, 0] + digits)[1..] == [0, 0] + digits;
    assert ([0, 0] + digits)[1..] == [0] + digits;
    assert ([0] + digits)[1..] == digits;
    assert TrimZeros(digits) == digits;
    assert TrimZeros([0] + digits) == digits;
    assert TrimZeros([0, 0] + digits) == digits;
    assert TrimZeros([0, 0, 0] + digits) == digits;
  }

  lemma ZeroHasNoDigits()
    ensures TrimZeros(FixedBE(0, 8)) == []
  {
    TrimZerosKeepsValue(FixedBE(0, 8));
    Pow256Of8();
    FixedBERoundTrip(0, 8);
  }

  /** What is decoded instead is a proper suffix of the digits, worth less. */
  lemma DateTokenMisread(digits: bytes, raw: bytes)
    requires 2 <= |digits| <= 8 && digits[0] != 0 && raw == [|digits|] + digits
    ensures DecodeLongInteger(raw[2..]).Ok? ==> DecodeLongInteger(raw[2..]).value < FromBE(digits)
  {
    var rest := raw[2..];
    assert rest == digits[1..];
    if DecodeLongInteger(rest).Ok? {
      FromBEPadded(8 - rest[0], rest[1..]);
      FromBEMonotone(digits);
      FromBESuffix(rest);
    }
  }

  lemma {:induction false} FromBESuffix(s: bytes)
    requires s != []
    ensures FromBE(s) >= FromBE(s[1..])
  {
    if |s| > 1 {
      FromBESuffix(s[..|s| - 1]);
      assert s[..|s| - 1][1..] == s[1..][..|s| - 2];
    }
  }

  /** A concrete value that Integer() does not return: 0x8000. */
  lemma LongIntegerAccessorFails(field: byte)
    ensures NewLongIntegerValue(field, 0x8000).GetInteger() != Ok(0x8000)
  {
    assert FixedBE(0x8000, 8) == [0, 0, 0, 0, 0, 0, 0x80, 0x00];
    assert TrimZeros([0, 0, 0, 0, 0, 0, 0x80, 0x00]) == TrimZeros([0, 0, 0, 0, 0, 0x80, 0x00]);
    assert TrimZeros([0, 0, 0, 0, 0, 0x80, 0x00]) == TrimZeros([0, 0, 0, 0, 0x80, 0x00]);
    assert TrimZeros([0, 0, 0, 0, 0x80, 0x00]) == TrimZeros([0, 0, 0, 0x80, 0x00]);
    assert TrimZeros([0, 0, 0, 0x80, 0x00]) == TrimZeros([0, 0, 0x80, 0x00]);
    assert TrimZeros([0, 0, 0x80, 0x00]) == TrimZeros([0, 0x80, 0x00]);
    assert TrimZeros([0, 0x80, 0x00]) == [0x80, 0x00];
    LongIntegerAccessor(field, 0x8000);
  }

  lemma RelativeDateAccessor(field: byte, seconds: uint64)
    ensures NewRelativeDateValue(field, seconds).GetInteger() == Ok(seconds)
  {
    hide TrimZeros, FixedBE, FromBE, DecodeLongInteger;
    LongIntegerRoundTrip(seconds);
    LongIntegerShape(seconds);
    var raw := NewRelativeDateValue(field, seconds).raw;
    assert raw[2..] == LongInteger(seconds);
  }

  lemma NormalizedAddressShape(value: text)
    ensures |NormalizeAddress(value)| >= 6
    ensures 0 in NormalizeAddress(value) <==> 0 in value
  {
    var marker := Ascii("/TYPE=");
    if Index(ToUpper(value), marker) < 0 {
      var email, plmn := Ascii("/TYPE=EMAIL"), Ascii("/TYPE=PLMN");
      assert forall i | 0 <= i < |email| :: email[i] != 0;
      assert forall i | 0 <= i < |plmn| :: plmn[i] != 0;
    }
  }

  /** An address value gives back the normalised address exactly when it has no NUL. */
  lemma AddressAccessor(field: byte, value: text)
    ensures NewAddressValue(field, value).GetText() == Ok(NormalizeAddress(value)) <==> 0 !in value
  {
    var address := NormalizeAddress(value);
    NormalizedAddressShape(value);
    TextAddressExact(address);
  }

  lemma TextAddressExact(address: text)
    requires |address| >= 6
    ensures DecodeAddressString(EncodeText(address)) == DecodeAddressValue(EncodeText(address))
    ensures DecodeAddressValue(EncodeText(address)) == Ok(address) <==> 0 !in address
  {
    var data := EncodeText(address);
    TextRoundTrip(address);
    assert data[0] > 30 && data[0] < 0x80;
    if 0 in address && DecodeAddressValue(data).Ok? {
      var idx := IndexByte(data, 0);
      assert |DecodeText(data[idx + 1..]).value| < |data| - idx - 1;
    }
  }

  /** Length byte of a From value, as written (the length modulo 256). */
  predicate FromLengthRecoverable(value: text) {
    var n := |FromPayload(value)|;
    n <= 30 || n % 256 == 0x80
  }

  /**
   A From value gives back the normalised address exactly when that has no NUL and the one-byte
   length is a short length, or happens to read as the address-present token. The value
   "#insert" asks the network to insert the address.
   */
  lemma FromAccessor(value: text)
    ensures value == Ascii("#insert") ==> NewFromValue(value).GetText() == Err(InsertAddress)
    ensures value != Ascii("#insert") ==>
              (NewFromValue(value).GetText() == Ok(NormalizeAddress(value)) <==>
                0 !in value && FromLengthRecoverable(value))
  {
    if value != Ascii("#insert") {
      NormalizedAddressShape(value);
      var raw := NewFromValue(value).raw;
      if 0 in value {
        AddressHasNoNul(raw);
      } else {
        FromAccessorOf(NormalizeAddress(value), FromPayload(value), raw);
      }
    }
  }

  /** No address that is read has a NUL. */
  lemma {:induction false} AddressHasNoNul(data: bytes)
    ensures DecodeAddressValue(data).Ok? ==> 0 !in DecodeAddressValue(data).value
    decreases |data|
  {
    if data != [] {
      if data[0] <= 30 {
        if |data| >= data[0] + 1 { AddressHasNoNul(data[1..1 + data[0]]); }
      } else if data[0] == 0x80 {
        AddressHasNoNul(data[1..]);
      }
    }
  }

  /** A concrete one that is lost: a number of forty digits. */
  lemma LongFromLost()
    ensures var value := seq(40, i => 0x31);
            NewFromValue(value).GetText() != Ok(NormalizeAddress(value))
  {
    var value: text := seq(40, i => 0x31);
    DigitsNormalized(value);
    assert |Escaped(NormalizeAddress(value))| == 51;
    assert |Ascii("#insert")| == 7;
    FromAccessor(value);
  }

  /** Digits get a plus sign in front and the type behind. */
  lemma DigitsNormalized(value: text)
    requires value != [] && forall i | 0 <= i < |value| :: IsDigit(value[i])
    ensures NormalizeAddress(value) == [0x2B] + value + Ascii("/TYPE=PLMN")
    ensures |FromPayload(value)| == |value| + 13 && value != Ascii("#insert")
  {
    var upper := ToUpper(value);
    assert 0x2F !in upper;
    FoundFirst(upper, Ascii("/TYPE="));
    assert Ascii("/TYPE=")[0] == 0x2F;
    assert Ascii("#insert")[0] == 0x23;
  }

  lemma FoundFirst(s: text, pattern: text)
    requires pattern != []
    ensures Index(s, pattern) >= 0 ==> pattern[0] in s
  {
    var at := Index(s, pattern);
    assert at >= 0 ==> s[at..][..|pattern|][0] in s;
  }

  lemma FromAccessorOf(address: text, payload: bytes, raw: bytes)
    requires |address| >= 6 && 0 !in address
    requires payload == [0x80] + EncodeText(address)
    requires raw == [|payload| % 256] + payload
    ensures DecodeAddressString(raw) == Ok(address) <==> |payload| <= 30 || |payload| % 256 == 0x80
  {
    assert raw[1..] == payload;
    if |payload| <= 30 || raw[0] == 0x80 {
      FromWrapped(address, payload);
      FromShort(address, payload, raw);
    } else if raw[0] <= 30 {
      assert raw[1..1 + raw[0]] == payload[..raw[0]];
      FromTruncated(address, payload[..raw[0]]);
    } else {
      FromMisread(address, raw);
    }
  }

  lemma FromShort(address: text, payload: bytes, raw: bytes)
    requires |payload| >= 3 && |raw| == |payload| + 1 && raw[1..] == payload && payload[0] == 0x80
    requires raw[0] == |payload| <= 30 || raw[0] == 0x80
    ensures DecodeAddressString(raw) == DecodeAddressValue(payload)
  {
    if raw[0] <= 30 {
      assert raw[1..1 + raw[0]] == payload;
    }
  }

  lemma FromWrapped(address: text, payload: bytes)
    requires |address| >= 6 && 0 !in address
    requires payload == [0x80] + EncodeText(address)
    ensures DecodeAddressValue(payload) == Ok(address)
  {
    assert payload[1..] == EncodeText(address);
    TextAddressExact(address);
  }

  /** A truncated payload has no terminator, so it never decodes. */
  lemma FromTruncated(address: text, cut: bytes)
    requires |address| >= 6 && 0 !in address
    requires cut <= [0x80] + EncodeText(address) && |cut| <= |address| + 1
    ensures DecodeAddressValue(cut).Err?
    ensures !IsInsertAddressToken(cut)
  {
    if cut != [] {
      assert cut[0] == 0x80;
      var inner := cut[1..];
      var data := EncodeText(address);
      assert inner <= data;
      if inner != [] {
        assert inner[0] == data[0];
        assert forall i | 0 <= i < |inner| :: inner[i] == data[i] && inner[i] != 0;
        assert inner[|inner| - 1] != 0;
        assert DecodeText(inner) == Err(ShortData);
        assert IndexByte(inner, 0) < 0;
      }
    }
  }

  /** Any other length byte is read as part of the text. */
  lemma FromMisread(address: text, raw: bytes)
    requires |address| >= 6 && 0 !in address
    requires |raw| > 30 && raw[1..] == [0x80] + EncodeText(address) && raw[0] > 30 && raw[0] != 0x80
    ensures DecodeAddressString(raw) != Ok(address)
  {
    var data := EncodeText(address);
    assert raw == [raw[0], 0x80] + data;
    assert raw[|raw| - 1] == 0;
    assert |raw| == |data| + 2;
    assert forall i | 0 <= i < |raw| - 1 :: raw[i] != 0;
    if raw[0] >= 0x80 {
      assert raw[1..][0] == 0x80;
      assert DecodeText(raw[1..]).Ok? && |DecodeText(raw[1..]).value| == |raw| - 2;
      assert DecodeText(raw[1..]).value[0] == 0x80;
    } else {
      assert DecodeText(raw).Ok?;
    }
  }
}
