/**
 Byte strings, results and the string helpers shared by every layer.

 A Go string is an immutable byte sequence, so `text` and `bytes` are the same
 type. Case conversion and trimming follow the ASCII rules.
 */
module Bytes {

  type byte = b: int | 0 <= b < 256
  type bytes = seq<byte>
  type text = seq<byte>

  datatype Option<+T> = None | Some(value: T)

  datatype Error =
    | Eof
    | ShortData
    | InvalidInteger
    | InvalidUintvar
    | InvalidText
    | InsertAddress
    | UnsupportedName
    | UnsupportedKind
    | UnsupportedToken
    | WrongKind
    | EmptyValue
    | MissingContentType
    | CountTooLarge
    | WrongPduType
    | TooManySegments
    | UnsupportedCommand
    | TooLarge
    | InvalidLength
    | NotFound
    | Mixed
    | MultiplePeers

  /** A value, or the error a Go function returns beside a nil value. */
  datatype Result<+T> = Ok(value: T) | Err(error: Error) {
    predicate IsFailure() {
      Err?
    }

    function PropagateFailure<U>(): Result<U>
      requires Err?
    {
      Err(error)
    }

    function Extract(): T
      requires Ok?
    {
      value
    }
  }

  /** What a read yields: the value and the input that is left. */
  datatype Parsed<+T> = Parsed(value: T, rest: bytes)

  /** The bytes of a string literal. */
  function Ascii(s: string): (t: text)
    ensures |t| == |s|
  {
    seq(|s|, i requires 0 <= i < |s| => s[i] as int % 256)
  }

  /** Position of the first `b` in `s`, or -1. */
  function IndexByte(s: bytes, b: byte): (i: int)
    ensures -1 <= i < |s|
    ensures i < 0 ==> b !in s
    ensures 0 <= i ==> s[i] == b && b !in s[..i]
  {
    if s == [] then -1
    else if s[0] == b then 0
    else
      var i := IndexByte(s[1..], b);
      if i < 0 then -1 else
        assert s[..i + 1] == [s[0]] + s[1..][..i];
        i + 1
  }

  /** Position of the last `b` in `s`, or -1. */
  function LastIndexByte(s: bytes, b: byte): (i: int)
    ensures -1 <= i < |s|
    ensures i < 0 ==> b !in s
    ensures 0 <= i ==> s[i] == b && b !in s[i + 1..]
  {
    if s == [] then -1
    else if s[|s| - 1] == b then |s| - 1
    else LastIndexByte(s[..|s| - 1], b)
  }

  lemma {:induction false} FirstAt(s: bytes, b: byte, i: nat)
    requires i < |s| && s[i] == b && b !in s[..i]
    ensures IndexByte(s, b) == i
  {
    if i > 0 {
      assert s[..i] == [s[0]] + s[1..][..i - 1];
      FirstAt(s[1..], b, i - 1);
    }
  }

  lemma {:induction false} LastAt(s: bytes, b: byte, i: nat)
    requires i < |s| && s[i] == b && b !in s[i + 1..]
    ensures LastIndexByte(s, b) == i
  {
    if i < |s| - 1 {
      var init := s[..|s| - 1];
      assert s[i + 1..][|s| - i - 2] == s[|s| - 1];
      assert init[i + 1..] == s[i + 1..][..|s| - i - 2];
      LastAt(init, b, i);
    }
  }

  predicate HasPrefix(s: text, prefix: text) {
    |prefix| <= |s| && s[..|prefix|] == prefix
  }

  /** Position of the first occurrence of `pattern` in `s`, or -1. */
  function Index(s: text, pattern: text): (i: int)
    ensures i < 0 ==> forall j | 0 <= j <= |s| :: !HasPrefix(s[j..], pattern)
    ensures -1 <= i <= |s|
    ensures 0 <= i ==> HasPrefix(s[i..], pattern) && forall j | 0 <= j < i :: !HasPrefix(s[j..], pattern)
  {
    if HasPrefix(s, pattern) then
      assert s[0..] == s;
      0
    else if s == [] then -1
    else
      var i := Index(s[1..], pattern);
      assert forall j | 1 <= j <= |s| :: s[j..] == s[1..][j - 1..];
      assert s[0..] == s;
      if i < 0 then -1 else i + 1
  }

  predicate IsDigit(b: byte) {
    0x30 <= b <= 0x39
  }

  function LowerByte(b: byte): byte {
    if 0x41 <= b <= 0x5A then b + 32 else b
  }

  function UpperByte(b: byte): byte {
    if 0x61 <= b <= 0x7A then b - 32 else b
  }

  function ToLower(t: text): text {
    seq(|t|, i requires 0 <= i < |t| => LowerByte(t[i]))
  }

  function ToUpper(t: text): text {
    seq(|t|, i requires 0 <= i < |t| => UpperByte(t[i]))
  }

  predicate IsLower(t: text) {
    ToLower(t) == t
  }

  predicate EqualFold(a: text, b: text) {
    ToLower(a) == ToLower(b)
  }

  /** Folding up is as good as folding down. */
  lemma SameUpper(a: text, b: text)
    ensures EqualFold(a, b) <==> ToUpper(a) == ToUpper(b)
  {
    var la, lb, ua, ub := ToLower(a), ToLower(b), ToUpper(a), ToUpper(b);
    if |a| == |b| {
      assert forall i | 0 <= i < |a| :: la[i] == LowerByte(a[i]) && lb[i] == LowerByte(b[i]);
      assert forall i | 0 <= i < |a| :: ua[i] == UpperByte(a[i]) && ub[i] == UpperByte(b[i]);
      assert forall i | 0 <= i < |a| :: la[i] == lb[i] <==> ua[i] == ub[i];
    } else {
      assert |la| != |lb| && |ua| != |ub|;
    }
  }

  /** The six characters at position i spell "/TYPE=" in some letter case. */
  predicate TypeMarkAt(address: text, i: nat) {
    i + 6 <= |address| && EqualFold(address[i..i + 6], Ascii("/TYPE="))
  }

  lemma MarkInUpper(address: text, i: nat)
    requires i <= |address|
    ensures HasPrefix(ToUpper(address)[i..], Ascii("/TYPE=")) <==> TypeMarkAt(address, i)
  {
    var mark := Ascii("/TYPE=");
    if i + 6 <= |address| {
      var piece := address[i..i + 6];
      assert ToUpper(address)[i..][..6] == ToUpper(piece);
      SameUpper(piece, mark);
      assert mark == [0x2F, 0x54, 0x59, 0x50, 0x45, 0x3D];
      assert ToUpper(mark) == mark;
    }
  }

  predicate IsSpace(b: byte) {
    b == 0x20 || 0x09 <= b <= 0x0D
  }

  function TrimLeft(t: text): text {
    if t != [] && IsSpace(t[0]) then TrimLeft(t[1..]) else t
  }

  function TrimRight(t: text): text {
    if t != [] && IsSpace(t[|t| - 1]) then TrimRight(t[..|t| - 1]) else t
  }

  function TrimSpace(t: text): text {
    TrimRight(TrimLeft(t))
  }

  predicate IsTrimmed(t: text) {
    t == [] || (!IsSpace(t[0]) && !IsSpace(t[|t| - 1]))
  }

  lemma {:induction false} TrimLeftShape(t: text)
    ensures TrimLeft(t) == [] || !IsSpace(TrimLeft(t)[0])
    ensures IsTrimmed(t) ==> TrimLeft(t) == t
  {
    if t != [] && IsSpace(t[0]) { TrimLeftShape(t[1..]); }
  }

  lemma {:induction false} TrimRightShape(t: text)
    ensures TrimRight(t) <= t
    ensures TrimRight(t) == [] || !IsSpace(TrimRight(t)[|TrimRight(t)| - 1])
    ensures IsTrimmed(t) ==> TrimRight(t) == t
  {
    if t != [] && IsSpace(t[|t| - 1]) { TrimRightShape(t[..|t| - 1]); }
  }

  lemma TrimSpaceShape(t: text)
    ensures IsTrimmed(TrimSpace(t))
    ensures IsTrimmed(t) ==> TrimSpace(t) == t
  {
    TrimLeftShape(t);
    TrimRightShape(TrimLeft(t));
  }

  /** White space: tab, line feed, vertical tab, form feed, carriage return and space. */
  predicate AllSpace(t: text) {
    forall i | 0 <= i < |t| :: t[i] in {0x09, 0x0A, 0x0B, 0x0C, 0x0D, 0x20}
  }

  lemma {:induction false} TrimLeftMeans(t: text)
    ensures |TrimLeft(t)| <= |t|
    ensures var n := |t| - |TrimLeft(t)|; AllSpace(t[..n]) && TrimLeft(t) == t[n..]
  {
    if t != [] && IsSpace(t[0]) {
      TrimLeftMeans(t[1..]);
      var n := |t| - |TrimLeft(t)|;
      assert t[..n] == [t[0]] + t[1..][..n - 1];
    }
  }

  lemma {:induction false} TrimRightMeans(t: text)
    ensures |TrimRight(t)| <= |t|
    ensures var n := |TrimRight(t)|; AllSpace(t[n..]) && TrimRight(t) == t[..n]
  {
    if t != [] && IsSpace(t[|t| - 1]) {
      var init := t[..|t| - 1];
      TrimRightMeans(init);
      var n := |TrimRight(t)|;
      assert t[n..] == init[n..] + [t[|t| - 1]];
    }
  }

  /** Trimming takes white space off both ends, and all of it. */
  lemma TrimSpaceMeans(t: text) returns (before: text, after: text)
    ensures t == before + TrimSpace(t) + after && AllSpace(before) && AllSpace(after)
    ensures var kept := TrimSpace(t);
            kept == [] || {kept[0], kept[|kept| - 1]} !! {0x09, 0x0A, 0x0B, 0x0C, 0x0D, 0x20}
  {
    hide TrimLeft, TrimRight, AllSpace;
    var left := TrimLeft(t);
    TrimLeftMeans(t);
    TrimRightMeans(left);
    EndsKept(t);
    before, after := t[..|t| - |left|], left[|TrimRight(left)|..];
    assert t == before + left && left == TrimRight(left) + after;
    ConcatAssociative(before, TrimRight(left), after);
  }

  lemma EndsKept(t: text)
    ensures var kept := TrimSpace(t);
            kept == [] || {kept[0], kept[|kept| - 1]} !! {0x09, 0x0A, 0x0B, 0x0C, 0x0D, 0x20}
  {
    TrimSpaceShape(t);
    hide TrimSpace;
  }

  /** Two texts fold to the same when they differ in the case of ASCII letters alone. */
  lemma FoldMeans(a: text, b: text)
    ensures EqualFold(a, b) <==>
            && |a| == |b|
            && forall i | 0 <= i < |a| ::
                 || a[i] == b[i]
                 || (a[i] as int - b[i] == 32 && 0x41 <= b[i] <= 0x5A)
                 || (b[i] as int - a[i] == 32 && 0x41 <= a[i] <= 0x5A)
  {
    var la, lb := ToLower(a), ToLower(b);
    if |a| == |b| {
      assert forall i | 0 <= i < |a| :: la[i] == LowerByte(a[i]) && lb[i] == LowerByte(b[i]);
    } else {
      assert |la| != |lb|;
    }
  }

  lemma ToLowerIdempotent(t: text)
    ensures IsLower(ToLower(t))
    ensures |ToLower(t)| == |t|
    ensures IsTrimmed(t) ==> IsTrimmed(ToLower(t))
    ensures 0 !in t ==> 0 !in ToLower(t)
  {
  }

  /** Concatenation of a list of byte strings. */
  function Flatten(chunks: seq<bytes>): bytes {
    if chunks == [] then [] else chunks[0] + Flatten(chunks[1..])
  }

  lemma ConcatAssociative<T>(a: seq<T>, b: seq<T>, c: seq<T>)
    ensures (a + b) + c == a + (b + c)
  {
  }

  lemma {:induction false} FlattenAppend(a: seq<bytes>, b: seq<bytes>)
    ensures Flatten(a + b) == Flatten(a) + Flatten(b)
  {
    if a == [] {
      assert a + b == b;
    } else {
      FlattenAppend(a[1..], b);
      assert (a + b)[1..] == a[1..] + b && (a + b)[0] == a[0];
      ConcatAssociative(a[0], Flatten(a[1..]), Flatten(b));
    }
  }

  lemma FlattenSnoc(a: seq<bytes>, x: bytes)
    ensures Flatten(a + [x]) == Flatten(a) + x
  {
    FlattenAppend(a, [x]);
    assert Flatten([x]) == x + Flatten([]);
  }

  /** Fixed-width big-endian form, as written by binary.BigEndian. */
  function FixedBE(v: nat, width: nat): (s: bytes)
    ensures |s| == width
  {
    if width == 0 then [] else FixedBE(v / 256, width - 1) + [v % 256]
  }

  function FromBE(s: bytes): nat {
    if s == [] then 0 else FromBE(s[..|s| - 1]) * 256 + s[|s| - 1]
  }

  function Pow256(n: nat): (p: nat)
    ensures p > 0
  {
    if n == 0 then 1 else 256 * Pow256(n - 1)
  }

  lemma {:induction false} FixedBERoundTrip(v: nat, width: nat)
    requires v < Pow256(width)
    ensures FromBE(FixedBE(v, width)) == v
  {
    if width > 0 {
      FixedBERoundTrip(v / 256, width - 1);
      assert FixedBE(v, width)[..width - 1] == FixedBE(v / 256, width - 1);
    }
  }

  lemma {:induction false} FromBEBound(s: bytes)
    ensures FromBE(s) < Pow256(|s|)
  {
    if s != [] { FromBEBound(s[..|s| - 1]); }
  }

  /** Four bytes are worth what their order says, both ways. */
  lemma FourDigits(a: byte, b: byte, c: byte, d: byte)
    ensures FromBE([a, b, c, d]) == 0x100_0000 * a + 0x1_0000 * b + 0x100 * c + d
    ensures FixedBE(0x100_0000 * a + 0x1_0000 * b + 0x100 * c + d, 4) == [a, b, c, d]
  {
    hide FromBE, FixedBE;
    FourWorth(a, b, c, d);
    FixedStep(0x1_0000 * a + 0x100 * b + c, d, 3);
    FixedStep(0x100 * a + b, c, 2);
    FixedStep(a, b, 1);
    FixedStep(0, a, 0);
    assert FixedBE(0, 0) == [];
  }

  lemma FourWorth(a: byte, b: byte, c: byte, d: byte)
    ensures FromBE([a, b, c, d]) == 0x100_0000 * a + 0x1_0000 * b + 0x100 * c + d
  {
    assert [a, b, c, d][..3] == [a, b, c] && [a, b, c][..2] == [a, b] && [a, b][..1] == [a] && [a][..0] == [];
    assert FromBE([a]) == a;
    assert FromBE([a, b]) == 0x100 * a + b;
    assert FromBE([a, b, c]) == 0x1_0000 * a + 0x100 * b + c;
  }

  lemma FixedStep(v: nat, d: byte, width: nat)
    ensures FixedBE(0x100 * v + d, width + 1) == FixedBE(v, width) + [d]
  {
  }
}
