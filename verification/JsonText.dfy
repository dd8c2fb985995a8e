/** Text as JavaScript sees it, a sequence of UTF-16 code units, with its ordering, and the two
    scalar token shapes of RFC 8259 that need work: strings (section 7) and numbers (section 6). */
module JsonText {
  import opened Basics

  newtype CodeUnit = c: int | 0 <= c < 0x1_0000

  type Text = seq<CodeUnit>

  const QUOTE: CodeUnit := 0x22
  const BACKSLASH: CodeUnit := 0x5C
  const LETTER_U: CodeUnit := 0x75
  const LETTER_E: CodeUnit := 0x65
  const MINUS: CodeUnit := 0x2D
  const PLUS: CodeUnit := 0x2B
  const DOT: CodeUnit := 0x2E
  const ZERO: CodeUnit := 0x30

  lemma Regroup4(a: Text, b: Text, c: Text, d: Text)
    ensures a + b + c + d == a + (b + c + d)
  {}

  lemma TailOfCons(u: CodeUnit, t: Text)
    ensures var c := [u] + t; c[0] == u && c[1..] == t
  {}

  // ---- Ordering: the `<` that the entry comparator applies to two keys -------------------

  predicate Less(x: Text, y: Text) {
    if x == [] then y != []
    else y != [] && (x[0] < y[0] || (x[0] == y[0] && Less(x[1..], y[1..])))
  }

  lemma {:induction false} LessIsIrreflexive(x: Text)
    ensures !Less(x, x)
  {
    if x != [] { LessIsIrreflexive(x[1..]); }
  }

  lemma {:induction false} LessIsTotal(x: Text, y: Text)
    requires x != y
    ensures Less(x, y) || Less(y, x)
  {
    if x != [] && y != [] && x[0] == y[0] {
      assert x == [x[0]] + x[1..] && y == [y[0]] + y[1..];
      LessIsTotal(x[1..], y[1..]);
    }
  }

  lemma {:induction false} LessIsTransitive(x: Text, y: Text, z: Text)
    requires Less(x, y) && Less(y, z)
    ensures Less(x, z)
  {
    if x != [] && x[0] == y[0] && y[0] == z[0] { LessIsTransitive(x[1..], y[1..], z[1..]); }
  }

  /** `<` of two strings: at the first place they differ the smaller unit decides, and a proper prefix comes first. */
  lemma {:induction false} LessExactly(x: Text, y: Text)
    ensures Less(x, y) <==> exists k: nat :: LessAt(x, y, k)
  {
    forall k: nat | LessAt(x, y, k) && k > 0 ensures x != [] && y != [] && x[0] == y[0] {
      assert x[..k][0] == x[0] && y[..k][0] == y[0];
    }
    if x != [] && y != [] && x[0] == y[0] {
      LessExactly(x[1..], y[1..]);
      if k: nat :| LessAt(x[1..], y[1..], k) {
        assert x == [x[0]] + x[1..] && y == [y[0]] + y[1..];
        assert x[..k + 1] == [x[0]] + x[1..][..k] && y[..k + 1] == [y[0]] + y[1..][..k];
        assert LessAt(x, y, k + 1);
      }
      if k: nat :| LessAt(x, y, k) {
        assert k > 0;
        assert x[1..][..k - 1] == x[..k][1..] && y[1..][..k - 1] == y[..k][1..];
        assert LessAt(x[1..], y[1..], k - 1);
      }
    } else {
      assert x[..0] == y[..0];
      if Less(x, y) { assert LessAt(x, y, 0); }
    }
  }

  predicate LessAt(x: Text, y: Text, k: nat) {
    k <= |x| && k < |y| && x[..k] == y[..k] && (k < |x| ==> x[k] < y[k])
  }

  /** A text spelled in plain characters. */
  function Ascii(s: string): Text
    requires forall i | 0 <= i < |s| :: s[i] as int < 0x80
  {
    seq(|s|, i requires 0 <= i < |s| => s[i] as int as CodeUnit)
  }

  // ---- Strings -----------------------------------------------------------------------------

  predicate IsHighSurrogate(u: CodeUnit) { 0xD800 <= u < 0xDC00 }

  predicate IsLowSurrogate(u: CodeUnit) { 0xDC00 <= u < 0xE000 }

  function HexDigit(d: CodeUnit): CodeUnit
    requires d < 16
  {
    if d < 10 then ZERO + d else 87 + d
  }

  /** Four lower-case hexadecimal digits after `\u`. */
  function UnicodeEscape(u: CodeUnit): Text {
    [BACKSLASH, LETTER_U, HexDigit(u / 4096), HexDigit(u / 256 % 16), HexDigit(u / 16 % 16), HexDigit(u % 16)]
  }

  /** The letter of a two-unit escape, for the seven units that have one. */
  function ShortEscape(u: CodeUnit): Option<CodeUnit> {
    if u == 8 then Some(0x62)
    else if u == 9 then Some(0x74)
    else if u == 10 then Some(0x6E)
    else if u == 12 then Some(0x66)
    else if u == 13 then Some(0x72)
    else if u == QUOTE || u == BACKSLASH then Some(u)
    else None
  }

  function EscapeUnit(u: CodeUnit): Text {
    match ShortEscape(u)
    case Some(letter) => [BACKSLASH, letter]
    case None =>
      if u < 0x20 || IsHighSurrogate(u) || IsLowSurrogate(u) then UnicodeEscape(u) else [u]
  }

  /** A surrogate pair is one code point and stays literal; a lone surrogate is escaped. */
  function Escape(s: Text): Text {
    if s == [] then []
    else if |s| > 1 && IsHighSurrogate(s[0]) && IsLowSurrogate(s[1]) then [s[0], s[1]] + Escape(s[2..])
    else EscapeUnit(s[0]) + Escape(s[1..])
  }

  function Quote(s: Text): Text { [QUOTE] + Escape(s) + [QUOTE] }

  /** The escapes, spelled out: two units for seven of them, six for the other controls and lone surrogates. */
  lemma EscapesSpelled(u: CodeUnit)
    ensures EscapeUnit(0x22) == Ascii("\\\"") && EscapeUnit(0x5C) == Ascii("\\\\")
    ensures EscapeUnit(8) == Ascii("\\b") && EscapeUnit(9) == Ascii("\\t") && EscapeUnit(10) == Ascii("\\n")
    ensures EscapeUnit(12) == Ascii("\\f") && EscapeUnit(13) == Ascii("\\r")
    ensures EscapeUnit(0x1F) == Ascii("\\u001f") && EscapeUnit(0xD83D) == Ascii("\\ud83d")
    ensures 0x20 <= u && u != 0x22 && u != 0x5C && !(0xD800 <= u < 0xE000) ==> EscapeUnit(u) == [u]
  {
  }

  /** A surrogate pair stays as it is. */
  lemma PairsStayLiteral(high: CodeUnit, low: CodeUnit, rest: Text)
    requires 0xD800 <= high < 0xDC00 && 0xDC00 <= low < 0xE000
    ensures Escape([high, low] + rest) == [high, low] + Escape(rest)
  {
    assert ([high, low] + rest)[2..] == rest;
  }

  function HexValue(c: CodeUnit): (r: Option<int>)
    ensures r.Some? ==> 0 <= r.value < 16
  {
    if 0x30 <= c <= 0x39 then Some(c as int - 0x30)
    else if 0x61 <= c <= 0x66 then Some(c as int - 87)
    else if 0x41 <= c <= 0x46 then Some(c as int - 55)
    else None
  }

  function ShortUnescape(letter: CodeUnit): Option<CodeUnit> {
    if letter == 0x62 then Some(8)
    else if letter == 0x74 then Some(9)
    else if letter == 0x6E then Some(10)
    else if letter == 0x66 then Some(12)
    else if letter == 0x72 then Some(13)
    else if letter == QUOTE || letter == BACKSLASH || letter == 0x2F then Some(letter)
    else None
  }

  /** One character of a string body and the text after it. */
  function ReadUnit(t: Text): (r: Option<(CodeUnit, Text)>)
    ensures r.Some? ==> |r.value.1| < |t|
  {
    if t == [] || t[0] == QUOTE || t[0] < 0x20 then None
    else if t[0] != BACKSLASH then Some((t[0], t[1..]))
    else if |t| < 2 then None
    else if t[1] != LETTER_U then
      match ShortUnescape(t[1]) { case None => None case Some(u) => Some((u, t[2..])) }
    else if |t| < 6 then None
    else
      match (HexValue(t[2]), HexValue(t[3]), HexValue(t[4]), HexValue(t[5])) {
        case (Some(a), Some(b), Some(c), Some(d)) =>
          Some(((4096 * a + 256 * b + 16 * c + d) as CodeUnit, t[6..]))
        case _ => None
      }
  }

  /** A string body up to its closing quote, and the text after the quote. */
  function ReadString(t: Text): (r: Option<(Text, Text)>)
    ensures r.Some? ==> |r.value.1| < |t|
    decreases |t|
  {
    if t != [] && t[0] == QUOTE then Some(([], t[1..]))
    else
      match ReadUnit(t)
      case None => None
      case Some((u, rest)) =>
        match ReadString(rest)
        case None => None
        case Some((s, after)) => Some(([u] + s, after))
  }

  lemma HexValueInvertsDigit(d: CodeUnit)
    requires d < 16
    ensures HexValue(HexDigit(d)) == Some(d as int)
  {}

  lemma NibblesRecompose(u: int)
    requires 0 <= u < 0x1_0000
    ensures 4096 * (u / 4096) + 256 * (u / 256 % 16) + 16 * (u / 16 % 16) + u % 16 == u
  {
    assert u / 256 == u / 16 / 16 && u / 4096 == u / 16 / 16 / 16;
  }

  lemma ReadUnitInvertsEscape(u: CodeUnit, rest: Text)
    ensures ReadUnit(EscapeUnit(u) + rest) == Some((u, rest))
  {
    var t := EscapeUnit(u) + rest;
    if ShortEscape(u).Some? {
      assert t[2..] == rest;
    } else if u < 0x20 || IsHighSurrogate(u) || IsLowSurrogate(u) {
      HexValueInvertsDigit(u / 4096);
      HexValueInvertsDigit(u / 256 % 16);
      HexValueInvertsDigit(u / 16 % 16);
      HexValueInvertsDigit(u % 16);
      NibblesRecompose(u as int);
      hide HexValue, HexDigit;
      assert t == UnicodeEscape(u) + rest && t[6..] == rest;
    } else {
      assert t[1..] == rest;
    }
  }

  lemma EscapeUnitIsNotQuote(u: CodeUnit)
    ensures EscapeUnit(u) != [] && EscapeUnit(u)[0] != QUOTE
  {}

  lemma ReadStringStep(t: Text, u: CodeUnit, tail: Text, s: Text, rest: Text)
    requires ReadUnit(t) == Some((u, tail)) && ReadString(tail) == Some((s, rest))
    ensures ReadString(t) == Some(([u] + s, rest))
  {}

  lemma {:induction false} ReadStringInvertsQuote(s: Text, rest: Text)
    ensures ReadString(Escape(s) + [QUOTE] + rest) == Some((s, rest))
  {
    if s == [] {
      Regroup([], [QUOTE], rest);
      TailOfCons(QUOTE, rest);
    } else if |s| > 1 && IsHighSurrogate(s[0]) && IsLowSurrogate(s[1]) {
      var tail := Escape(s[2..]) + [QUOTE] + rest;
      ReadStringInvertsQuote(s[2..], rest);
      Regroup4([s[0], s[1]], Escape(s[2..]), [QUOTE], rest);
      Regroup([s[0]], [s[1]], tail);
      TailOfCons(s[1], tail);
      TailOfCons(s[0], [s[1]] + tail);
      assert s == [s[0]] + ([s[1]] + s[2..]);
      hide Escape, ReadString;
      ReadStringStep([s[1]] + tail, s[1], tail, s[2..], rest);
      ReadStringStep([s[0]] + ([s[1]] + tail), s[0], [s[1]] + tail, [s[1]] + s[2..], rest);
    } else {
      var tail := Escape(s[1..]) + [QUOTE] + rest;
      ReadStringInvertsQuote(s[1..], rest);
      ReadUnitInvertsEscape(s[0], tail);
      Regroup4(EscapeUnit(s[0]), Escape(s[1..]), [QUOTE], rest);
      assert s == [s[0]] + s[1..];
      EscapeUnitIsNotQuote(s[0]);
      hide ReadString, ReadUnit, EscapeUnit;
      ReadStringStep(EscapeUnit(s[0]) + tail, s[0], tail, s[1..], rest);
    }
  }

  // ---- Numbers -----------------------------------------------------------------------------

  newtype Digit = d: int | 0 <= d < 10

  /** A JavaScript number, finite ones by the shortest decimal digits that name them: the value is
      0.d1d2..dk times ten to the power `point`, neither d1 nor dk zero. ECMA-262 fixes exactly one
      such digit string per finite non-zero number, so two of these are equal exactly when the
      numbers are. */
  datatype Number =
    | NotANumber
    | Infinity(negative: bool)
    | Zero(negative: bool)
    | Finite(negative: bool, digits: seq<Digit>, point: int)
  {
    predicate Valid() {
      Finite? ==> digits != [] && digits[0] != 0 && digits[|digits| - 1] != 0
    }
  }

  function Zeros(n: nat): seq<Digit> { seq(n, _ => 0) }

  function Digits(n: nat): (ds: seq<Digit>)
    ensures ds != []
  {
    if n < 10 then [n as Digit] else Digits(n / 10) + [(n % 10) as Digit]
  }

  function DigitsValue(ds: seq<Digit>): nat {
    if ds == [] then 0 else 10 * DigitsValue(ds[..|ds| - 1]) + ds[|ds| - 1] as int
  }

  lemma {:induction false} DigitsValueInvertsDigits(n: nat)
    ensures DigitsValue(Digits(n)) == n
  {
    if n >= 10 {
      DigitsValueInvertsDigits(n / 10);
      assert (Digits(n / 10) + [(n % 10) as Digit])[..|Digits(n)| - 1] == Digits(n / 10);
    }
  }

  function DigitText(ds: seq<Digit>): (t: Text)
    ensures |t| == |ds| && forall i :: 0 <= i < |ds| ==> t[i] == ZERO + ds[i] as CodeUnit
  {
    seq(|ds|, i requires 0 <= i < |ds| => ZERO + ds[i] as CodeUnit)
  }

  function ExponentText(e: int): Text {
    [LETTER_E] + (if e < 0 then [MINUS] + DigitText(Digits(-e)) else [PLUS] + DigitText(Digits(e)))
  }

  /** Number::toString of ECMA-262, magnitude part: plain digits, a point inside, leading zeros, or
      exponent form, chosen by where the point falls. */
  function MagnitudeText(digits: seq<Digit>, point: int): Text
    requires digits != []
  {
    var k := |digits|;
    if k <= point <= 21 then DigitText(digits + Zeros(point - k))
    else if 0 < point <= 21 then DigitText(digits[..point]) + [DOT] + DigitText(digits[point..])
    else if -6 < point <= 0 then DigitText([0]) + [DOT] + DigitText(Zeros(-point) + digits)
    else if k == 1 then DigitText(digits) + ExponentText(point - 1)
    else DigitText(digits[..1]) + [DOT] + DigitText(digits[1..]) + ExponentText(point - 1)
  }

  /** `JSON.stringify` of a number: non-finite ones are `null`, both zeros are `0`. */
  function NumberText(n: Number): Text
    requires n.Valid()
  {
    match n
    case NotANumber => NULL_TEXT
    case Infinity(_) => NULL_TEXT
    case Zero(_) => [ZERO]
    case Finite(negative, digits, point) =>
      (if negative then [MINUS] else []) + MagnitudeText(digits, point)
  }

  const NULL_TEXT: Text := [0x6E, 0x75, 0x6C, 0x6C]

  /** The spellings at work: a whole number, a point inside, leading zeros, an exponent. */
  lemma WholeNumberSpelled()
    ensures NumberText(Finite(false, [1], 3)) == Ascii("100")
  {
    assert [1] + Zeros(2) == [1, 0, 0];
  }

  lemma PointInsideSpelled()
    ensures NumberText(Finite(true, [1, 5], 1)) == Ascii("-1.5")
  {
    assert DigitText([1, 5][..1]) == Ascii("1") && DigitText([1, 5][1..]) == Ascii("5");
    hide DigitText;
  }

  lemma SmallNumberSpelled()
    ensures NumberText(Finite(false, [2, 5], -1)) == Ascii("0.025")
  {
    assert Zeros(1) + [2, 5] == [0, 2, 5];
  }

  lemma ExponentSpelled()
    ensures NumberText(Finite(false, [1], 22)) == Ascii("1e+21")
  {
    DigitsOf21();
    assert DigitText([1]) == Ascii("1") && DigitText([2, 1]) == Ascii("21");
    hide DigitText, Digits;
  }

  lemma DigitsOf21()
    ensures Digits(21) == [2, 1]
  {
    assert Digits(2) == [2];
  }

  predicate IsDigitUnit(c: CodeUnit) { 0x30 <= c <= 0x39 }

  /** The longest run of digits at the front, and the text after it. */
  function ReadDigits(t: Text): (r: (seq<Digit>, Text))
    ensures |r.0| + |r.1| == |t|
  {
    if t == [] || !IsDigitUnit(t[0]) then ([], t)
    else var (ds, rest) := ReadDigits(t[1..]); ([(t[0] - ZERO) as Digit] + ds, rest)
  }

  function LeadingZeros(ds: seq<Digit>): (n: nat)
    ensures n <= |ds| && (n < |ds| ==> ds[n] != 0)
  {
    if ds == [] || ds[0] != 0 then 0 else 1 + LeadingZeros(ds[1..])
  }

  function DropTrailingZeros(ds: seq<Digit>): seq<Digit> {
    if ds != [] && ds[|ds| - 1] == 0 then DropTrailingZeros(ds[..|ds| - 1]) else ds
  }

  /** The number a decimal token names, whichever of its many spellings it is: integer part,
      fraction part, power of ten. */
  function NumberOf(negative: bool, whole: seq<Digit>, fraction: seq<Digit>, exponent: int): Number {
    var all := whole + fraction;
    var skip := LeadingZeros(all);
    if skip == |all| then Zero(negative)
    else Finite(negative, DropTrailingZeros(all[skip..]), |whole| + exponent - skip)
  }

  /** An optional fraction: a point and at least one digit. */
  function ReadFraction(t: Text): (r: Option<(seq<Digit>, Text)>)
    ensures r.Some? ==> |r.value.1| <= |t|
  {
    if t == [] || t[0] != DOT then Some(([], t))
    else
      var (ds, rest) := ReadDigits(t[1..]);
      if ds == [] then None else Some((ds, rest))
  }

  /** An optional exponent: e, an optional sign, at least one digit. */
  function ReadExponent(t: Text): (r: Option<(int, Text)>)
    ensures r.Some? ==> |r.value.1| <= |t|
  {
    if t == [] || (t[0] != LETTER_E && t[0] != 0x45) then Some((0, t))
    else
      var signed := |t| > 1 && (t[1] == MINUS || t[1] == PLUS);
      var (ds, rest) := ReadDigits(if signed then t[2..] else t[1..]);
      var magnitude: int := DigitsValue(ds);
      if ds == [] then None
      else Some((if signed && t[1] == MINUS then -magnitude else magnitude, rest))
  }

  /** A number token after its sign. */
  function ReadMagnitude(negative: bool, t: Text): (r: Option<(Number, Text)>)
    ensures r.Some? ==> |r.value.1| < |t|
  {
    var (whole, afterWhole) := ReadDigits(t);
    if whole == [] then None
    else
      match ReadFraction(afterWhole)
      case None => None
      case Some((fraction, afterFraction)) =>
        match ReadExponent(afterFraction)
        case None => None
        case Some((exponent, rest)) => Some((NumberOf(negative, whole, fraction, exponent), rest))
  }

  /** A number token of RFC 8259, section 6, except that surplus leading zeros are tolerated. */
  function ReadNumber(t: Text): (r: Option<(Number, Text)>)
    ensures r.Some? ==> |r.value.1| < |t|
  {
    if t != [] && t[0] == MINUS then ReadMagnitude(true, t[1..]) else ReadMagnitude(false, t)
  }

  /** What may follow a number token without being read as part of it. */
  predicate EndsNumber(t: Text) {
    t == [] || !(IsDigitUnit(t[0]) || t[0] == DOT || t[0] == LETTER_E || t[0] == 0x45)
  }

  predicate NoDigitFirst(t: Text) { t == [] || !IsDigitUnit(t[0]) }

  lemma {:induction false} ReadDigitsInvertsDigitText(ds: seq<Digit>, rest: Text)
    requires NoDigitFirst(rest)
    ensures ReadDigits(DigitText(ds) + rest) == (ds, rest)
  {
    var t := DigitText(ds) + rest;
    if ds == [] {
      assert t == rest;
    } else {
      assert t[1..] == DigitText(ds[1..]) + rest;
      ReadDigitsInvertsDigitText(ds[1..], rest);
      assert ds == [ds[0]] + ds[1..];
    }
  }

  lemma ReadExponentInvertsText(e: int, rest: Text)
    requires NoDigitFirst(rest)
    ensures ReadExponent(ExponentText(e) + rest) == Some((e, rest))
  {
    hide ReadDigits, DigitText;
    var ds := Digits(if e < 0 then -e else e);
    var sign := if e < 0 then MINUS else PLUS;
    assert ExponentText(e) == [LETTER_E, sign] + DigitText(ds) by { Regroup([LETTER_E], [sign], DigitText(ds)); }
    Regroup([LETTER_E, sign], DigitText(ds), rest);
    assert (ExponentText(e) + rest)[2..] == DigitText(ds) + rest;
    ReadDigitsInvertsDigitText(ds, rest);
    DigitsValueInvertsDigits(if e < 0 then -e else e);
  }

  lemma {:induction false} DropTrailingZerosOfPadded(digits: seq<Digit>, n: nat)
    requires digits != [] && digits[|digits| - 1] != 0
    ensures DropTrailingZeros(digits + Zeros(n)) == digits
  {
    if n == 0 {
      assert digits + Zeros(0) == digits;
    } else {
      assert (digits + Zeros(n))[..|digits| + n - 1] == digits + Zeros(n - 1);
      DropTrailingZerosOfPadded(digits, n - 1);
    }
  }

  lemma {:induction false} LeadingZerosOfPadded(n: nat, ds: seq<Digit>)
    requires ds != [] && ds[0] != 0
    ensures LeadingZeros(Zeros(n) + ds) == n
  {
    if n == 0 {
      assert Zeros(0) + ds == ds;
    } else {
      assert (Zeros(n) + ds)[1..] == Zeros(n - 1) + ds;
      LeadingZerosOfPadded(n - 1, ds);
    }
  }

  /** A token's spelling does not matter: extra zeros on either side are absorbed by the point. */
  lemma NumberOfPadded(negative: bool, whole: seq<Digit>, fraction: seq<Digit>, exponent: int,
                       before: nat, digits: seq<Digit>, after: nat)
    requires digits != [] && digits[0] != 0 && digits[|digits| - 1] != 0
    requires whole + fraction == Zeros(before) + digits + Zeros(after)
    ensures NumberOf(negative, whole, fraction, exponent) == Finite(negative, digits, |whole| + exponent - before)
  {
    var all := whole + fraction;
    assert all == Zeros(before) + (digits + Zeros(after));
    LeadingZerosOfPadded(before, digits + Zeros(after));
    assert all[before..] == digits + Zeros(after);
    DropTrailingZerosOfPadded(digits, after);
  }

  /** Fraction part of a token: nothing, or a point and the digits. */
  function FractionText(ds: seq<Digit>): Text {
    if ds == [] then [] else [DOT] + DigitText(ds)
  }

  lemma ReadFractionInvertsText(fraction: seq<Digit>, rest: Text)
    requires NoDigitFirst(rest) && (rest == [] || rest[0] != DOT)
    ensures ReadFraction(FractionText(fraction) + rest) == Some((fraction, rest))
  {
    if fraction == [] {
      assert FractionText(fraction) + rest == rest;
    } else {
      hide ReadDigits, DigitText;
      Regroup([DOT], DigitText(fraction), rest);
      TailOfCons(DOT, DigitText(fraction) + rest);
      ReadDigitsInvertsDigitText(fraction, rest);
    }
  }

  /** Any token built of digits, an optional fraction and a tail the exponent reader accepts. */
  lemma ReadMagnitudeOf(negative: bool, whole: seq<Digit>, fraction: seq<Digit>, tail: Text, exponent: int, rest: Text)
    requires whole != [] && NoDigitFirst(tail) && (tail == [] || tail[0] != DOT)
    requires ReadExponent(tail) == Some((exponent, rest))
    ensures ReadMagnitude(negative, DigitText(whole) + (FractionText(fraction) + tail))
         == Some((NumberOf(negative, whole, fraction, exponent), rest))
  {
    ReadDigitsInvertsDigitText(whole, FractionText(fraction) + tail);
    ReadFractionInvertsText(fraction, tail);
  }

  /** A token written from its parts reads back as the padded digits those parts spell. */
  lemma ReadSpelling(negative: bool, digits: seq<Digit>, point: int, whole: seq<Digit>, fraction: seq<Digit>,
                     tail: Text, exponent: int, before: nat, after: nat, rest: Text)
    requires Finite(negative, digits, point).Valid()
    requires whole != [] && whole + fraction == Zeros(before) + digits + Zeros(after)
    requires NoDigitFirst(tail) && (tail == [] || tail[0] != DOT)
    requires ReadExponent(tail) == Some((exponent, rest))
    requires point == |whole| + exponent - before
    ensures ReadMagnitude(negative, DigitText(whole) + FractionText(fraction) + tail)
         == Some((Finite(negative, digits, point), rest))
  {
    hide ReadMagnitude, NumberOf, FractionText, DigitText;
    ReadMagnitudeOf(negative, whole, fraction, tail, exponent, rest);
    NumberOfPadded(negative, whole, fraction, exponent, before, digits, after);
    Regroup(DigitText(whole), FractionText(fraction), tail);
  }

  lemma Unpadded(digits: seq<Digit>, at: nat)
    requires at <= |digits|
    ensures digits[..at] + digits[at..] == Zeros(0) + digits + Zeros(0)
  {}

  lemma ZeroPrepended(n: nat, digits: seq<Digit>)
    ensures [0] + (Zeros(n) + digits) == Zeros(n + 1) + digits + Zeros(0)
  {}

  lemma ReadWhole(negative: bool, digits: seq<Digit>, point: int, rest: Text)
    requires Finite(negative, digits, point).Valid() && EndsNumber(rest)
    requires |digits| <= point <= 21
    ensures ReadMagnitude(negative, MagnitudeText(digits, point) + rest) == Some((Finite(negative, digits, point), rest))
  {
    hide ReadMagnitude, DigitText;
    var whole := digits + Zeros(point - |digits|);
    assert MagnitudeText(digits, point) + rest == DigitText(whole) + FractionText([]) + rest;
    assert whole + [] == Zeros(0) + digits + Zeros(point - |digits|);
    ReadSpelling(negative, digits, point, whole, [], rest, 0, 0, point - |digits|, rest);
  }

  lemma ReadPointInside(negative: bool, digits: seq<Digit>, point: int, rest: Text)
    requires Finite(negative, digits, point).Valid() && EndsNumber(rest)
    requires 0 < point < |digits| && point <= 21
    ensures ReadMagnitude(negative, MagnitudeText(digits, point) + rest) == Some((Finite(negative, digits, point), rest))
  {
    hide ReadMagnitude, DigitText;
    var whole, fraction := digits[..point], digits[point..];
    assert MagnitudeText(digits, point) == DigitText(whole) + FractionText(fraction) by { Regroup(DigitText(whole), [DOT], DigitText(fraction)); }
    Unpadded(digits, point);
    ReadSpelling(negative, digits, point, whole, fraction, rest, 0, 0, 0, rest);
  }

  lemma ReadPointBefore(negative: bool, digits: seq<Digit>, point: int, rest: Text)
    requires Finite(negative, digits, point).Valid() && EndsNumber(rest)
    requires -6 < point <= 0
    ensures ReadMagnitude(negative, MagnitudeText(digits, point) + rest) == Some((Finite(negative, digits, point), rest))
  {
    hide ReadMagnitude, DigitText;
    var fraction := Zeros(-point) + digits;
    assert fraction != [];
    assert MagnitudeText(digits, point) == DigitText([0]) + FractionText(fraction) by { Regroup(DigitText([0]), [DOT], DigitText(fraction)); }
    ZeroPrepended(-point, digits);
    ReadSpelling(negative, digits, point, [0], fraction, rest, 0, 1 - point, 0, rest);
  }

  lemma ExponentTextStart(e: int)
    ensures ExponentText(e) != [] && ExponentText(e)[0] == LETTER_E
  {}

  lemma ReadScientific(negative: bool, digits: seq<Digit>, point: int, rest: Text)
    requires Finite(negative, digits, point).Valid() && EndsNumber(rest)
    requires !(-6 < point <= 21)
    ensures ReadMagnitude(negative, MagnitudeText(digits, point) + rest) == Some((Finite(negative, digits, point), rest))
  {
    hide ReadMagnitude, DigitText, ExponentText, ReadExponent;
    var exponent := ExponentText(point - 1);
    var mantissa := DigitText(digits[..1]) + FractionText(digits[1..]);
    assert MagnitudeText(digits, point) == mantissa + exponent by {
      if |digits| == 1 {
        assert digits[..1] == digits && FractionText(digits[1..]) == [];
      } else {
        Regroup(DigitText(digits[..1]), [DOT], DigitText(digits[1..]));
      }
    }
    Regroup(mantissa, exponent, rest);
    ExponentTextStart(point - 1);
    ReadExponentInvertsText(point - 1, rest);
    Unpadded(digits, 1);
    ReadSpelling(negative, digits, point, digits[..1], digits[1..], exponent + rest, point - 1, 0, 0, rest);
  }

  lemma MagnitudeStartsWithDigit(digits: seq<Digit>, point: int)
    requires digits != []
    ensures MagnitudeText(digits, point) != [] && IsDigitUnit(MagnitudeText(digits, point)[0])
  {}

  lemma ReadMagnitudeInvertsText(negative: bool, digits: seq<Digit>, point: int, rest: Text)
    requires Finite(negative, digits, point).Valid() && EndsNumber(rest)
    ensures ReadMagnitude(negative, MagnitudeText(digits, point) + rest) == Some((Finite(negative, digits, point), rest))
  {
    hide ReadMagnitude, MagnitudeText;
    if |digits| <= point <= 21 { ReadWhole(negative, digits, point, rest); }
    else if 0 < point <= 21 { ReadPointInside(negative, digits, point, rest); }
    else if -6 < point <= 0 { ReadPointBefore(negative, digits, point, rest); }
    else { ReadScientific(negative, digits, point, rest); }
  }

  lemma ReadZero(rest: Text)
    requires EndsNumber(rest)
    ensures ReadNumber([ZERO] + rest) == Some((Zero(false), rest))
  {
    assert ReadMagnitude(false, DigitText([0]) + (FractionText([]) + rest)) == Some((Zero(false), rest)) by {
      hide ReadMagnitude;
      ReadMagnitudeOf(false, [0], [], rest, 0, rest);
      assert [0] + [] == [0 as Digit] && LeadingZeros([0]) == 1;
    }
    assert DigitText([0]) + (FractionText([]) + rest) == [ZERO] + rest;
  }

  /** Printing then reading a finite number gives the same number, so distinct numbers have distinct
      tokens; the two zeros share one. */
  lemma ReadNumberInvertsText(n: Number, rest: Text)
    requires n.Valid() && (n.Zero? || n.Finite?) && EndsNumber(rest)
    ensures ReadNumber(NumberText(n) + rest) == Some((if n.Zero? then Zero(false) else n, rest))
  {
    match n
    case Zero(_) => ReadZero(rest);
    case Finite(negative, digits, point) =>
      hide ReadMagnitude, MagnitudeText;
      var magnitude := MagnitudeText(digits, point);
      ReadMagnitudeInvertsText(negative, digits, point, rest);
      MagnitudeStartsWithDigit(digits, point);
      if negative {
        Regroup([MINUS], magnitude, rest);
        assert ([MINUS] + (magnitude + rest))[1..] == magnitude + rest;
      } else {
        assert [] + magnitude == magnitude;
      }
  }
}
