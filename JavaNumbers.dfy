/** `Integer.parseInt` and `Double.parseDouble` as partial functions on strings.
    A failed parse (Java's NumberFormatException) is `None`. */
module JavaNumbers {
  import opened Wrappers
  import JavaText

  /** The range of a Java `int`. */
  const IntMin: int := -0x8000_0000
  const IntMax: int := 0x7fff_ffff

  predicate InIntRange(n: int) {
    IntMin <= n <= IntMax
  }

  predicate IsDigit(c: char) {
    '0' <= c <= '9'
  }

  predicate IsDigits(s: string) {
    forall i | 0 <= i < |s| :: IsDigit(s[i])
  }

  function DigitValue(c: char): nat
    requires IsDigit(c)
  {
    c as int - '0' as int
  }

  function DigitChar(d: nat): (c: char)
    requires d < 10
    ensures IsDigit(c) && DigitValue(c) == d
  {
    ('0' as int + d) as char
  }

  /** The value of a string of decimal digits, most significant first. */
  function DigitsValue(s: string): nat
    requires IsDigits(s)
  {
    if s == [] then 0 else DigitsValue(s[..|s| - 1]) * 10 + DigitValue(s[|s| - 1])
  }

  function Pow10(n: nat): (r: nat)
    ensures r >= 1
  {
    if n == 0 then 1 else 10 * Pow10(n - 1)
  }

  // ---------------------------------------------------------------------------
  // Integer.parseInt and Integer.toString

  /** `Integer.parseInt(s)`: an optional `-` or `+`, then one or more decimal digits, and the
      value must fit in an `int`; anything else (the empty string, a lone sign, a blank, a
      decimal point, an overflow) fails. */
  function ParseInt(s: string): (r: Option<int>)
    ensures r.Some? ==> InIntRange(r.value)
    ensures r.Some? ==> s != [] && IsDigits(s[1..]) && (IsDigit(s[0]) || s[0] == '-' || s[0] == '+')
  {
    if s == [] then None
    else
      var signed := s[0] == '-' || s[0] == '+';
      var digits := if signed then s[1..] else s;
      if digits == [] || !IsDigits(digits) then None
      else
        var magnitude: int := DigitsValue(digits);
        var v := if s[0] == '-' then -magnitude else magnitude;
        if InIntRange(v) then Some(v) else None
  }

  /** The canonical decimal spelling of a natural number, no leading zeros. */
  function ShowNat(n: nat): (r: string)
    ensures r != [] && IsDigits(r) && DigitsValue(r) == n
    ensures |r| > 1 ==> r[0] != '0'
  {
    if n < 10 then [DigitChar(n)]
    else
      var r := ShowNat(n / 10) + [DigitChar(n % 10)];
      assert r[..|r| - 1] == ShowNat(n / 10);
      r
  }

  /** `Integer.toString(n)`. */
  function ShowInt(n: int): string {
    if n < 0 then "-" + ShowNat(-n) else ShowNat(n)
  }

  /** parseInt inverts toString on every `int`, and rejects every spelled-out value beyond it. */
  lemma ParseIntShowInt(n: int)
    ensures ParseInt(ShowInt(n)) == if InIntRange(n) then Some(n) else None
  {
    var s := ShowInt(n);
    if n < 0 {
      assert s[1..] == ShowNat(-n);
    } else {
      assert IsDigit(s[0]);
    }
  }

  /** Every spelling parseInt accepts, read the other way: one or more digits, with no sign,
      a `+` or a `-`, parse to their value exactly when that value fits in an `int`. */
  lemma ParseIntOfDigits(d: string)
    requires d != [] && IsDigits(d)
    ensures ParseInt(d) == if InIntRange(DigitsValue(d)) then Some(DigitsValue(d)) else None
    ensures ParseInt("+" + d) == ParseInt(d)
    ensures ParseInt("-" + d) == var v := -(DigitsValue(d) as int); if InIntRange(v) then Some(v) else None
  {
    assert IsDigit(d[0]);
    assert ("+" + d)[1..] == d && ("-" + d)[1..] == d;
  }

  /** A leading zero adds nothing to the value of a digit string. */
  lemma {:induction false} LeadingZero(d: string)
    requires IsDigits(d)
    ensures IsDigits("0" + d) && DigitsValue("0" + d) == DigitsValue(d)
  {
    var z := "0" + d;
    if d == [] {
      assert z[..0] == [];
    } else {
      var init := d[..|d| - 1];
      LeadingZero(init);
      assert z[..|z| - 1] == "0" + init;
      assert z[|z| - 1] == d[|d| - 1];
    }
  }

  /** A `+` sign and leading zeros, also after a `-`, never change what parseInt reads. */
  lemma ParseIntSignAndZeros(d: string)
    requires d != [] && IsDigits(d)
    ensures ParseInt("+" + d) == ParseInt(d)
    ensures ParseInt("0" + d) == ParseInt(d)
    ensures ParseInt("-0" + d) == ParseInt("-" + d)
  {
    var z := "0" + d;
    LeadingZero(d);
    ParseIntOfDigits(d);
    ParseIntOfDigits(z);
    assert "-0" + d == "-" + z;
  }

  // ---------------------------------------------------------------------------
  // Double.parseDouble

  /** What `Double.parseDouble` can return, with finite values kept exact. */
  datatype Double = Finite(value: real) | NaN | Infinity(negative: bool)

  /** The first index holding one of the characters `cs`, or `|s|` when there is none. */
  function Find(s: string, cs: set<char>): (k: nat)
    ensures k <= |s|
    ensures forall i | 0 <= i < k :: s[i] !in cs
    ensures k < |s| ==> s[k] in cs
  {
    if s == [] || s[0] in cs then 0 else 1 + Find(s[1..], cs)
  }

  /** Multiplication by ten to the power `x`, for a signed exponent. */
  function Scale(x: int): (r: real)
    ensures r > 0.0
  {
    if x >= 0 then Pow10(x) as real else 1.0 / Pow10(-x) as real
  }

  /** The signed decimal exponent after `e` or `E`: an optional sign and one or more digits. */
  function ParseExponent(s: string): (r: Option<int>)
    ensures r.Some? ==> s != []
  {
    if s == [] then None
    else
      var digits := if s[0] == '-' || s[0] == '+' then s[1..] else s;
      if digits == [] || !IsDigits(digits) then None
      else if s[0] == '-' then Some(-(DigitsValue(digits) as int))
      else Some(DigitsValue(digits))
  }

  predicate IsTypeSuffix(c: char) {
    c == 'f' || c == 'F' || c == 'd' || c == 'D'
  }

  /** The exact value of `<whole>.<fraction>`. */
  function DecimalValue(whole: string, fraction: string): real
    requires IsDigits(whole) && IsDigits(fraction)
  {
    DigitsValue(whole) as real + DigitsValue(fraction) as real / Pow10(|fraction|) as real
  }

  /** Digits with at most one `.` and at least one digit: `12`, `12.`, `.5`, `12.50`. */
  function ParseMantissa(m: string): Option<real> {
    var d := Find(m, {'.'});
    MantissaParts(m[..d], if d < |m| then m[d + 1..] else [])
  }

  /** The two sides of the point, which must both be digits and not both empty. */
  function MantissaParts(whole: string, fraction: string): Option<real> {
    if !IsDigits(whole) || !IsDigits(fraction) || |whole| + |fraction| == 0 then None
    else Some(DecimalValue(whole, fraction))
  }

  /** An unsigned decimal floating-point literal: a mantissa, an optional exponent, and an
      optional `f`, `F`, `d` or `D` as the very last character. */
  function ParseUnsignedDecimal(b: string): Option<real> {
    var m := if b != [] && IsTypeSuffix(b[|b| - 1]) then b[..|b| - 1] else b;
    var e := Find(m, {'e', 'E'});
    var exponent := if e < |m| then ParseExponent(m[e + 1..]) else Some(0);
    match (ParseMantissa(m[..e]), exponent)
    case (Some(v), Some(x)) => Some(v * Scale(x))
    case _ => None
  }

  /** The literal after trimming: an optional sign, then `NaN`, `Infinity` or a decimal literal. */
  function ParseFloating(t: string): Option<Double> {
    if t == [] then None
    else
      var negative := t[0] == '-';
      var body := if t[0] == '-' || t[0] == '+' then t[1..] else t;
      if body == "NaN" then Some(NaN)
      else if body == "Infinity" then Some(Infinity(negative))
      else
        match ParseUnsignedDecimal(body)
        case None => None
        case Some(v) => Some(Finite(if negative then -v else v))
  }

  /** `Double.parseDouble(s)`: the argument is trimmed first, then read as a literal. */
  function ParseDouble(s: string): Option<Double> {
    ParseFloating(JavaText.Trim(s))
  }

  /** Blanks around a number never change what parseDouble reads. */
  lemma ParseDoubleIgnoresTrim(s: string)
    ensures ParseDouble(JavaText.Trim(s)) == ParseDouble(s)
  {
    JavaText.TrimIdempotent(s);
  }

  /** Find on a string with none of the characters is its length. */
  lemma {:induction false} FindAbsent(s: string, cs: set<char>)
    requires forall i | 0 <= i < |s| :: s[i] !in cs
    ensures Find(s, cs) == |s|
  {
    if s != [] {
      FindAbsent(s[1..], cs);
    }
  }

  /** Find skips a prefix holding none of the characters. */
  lemma {:induction false} FindAfter(a: string, b: string, cs: set<char>)
    requires Find(a, cs) == |a|
    ensures Find(a + b, cs) == |a| + Find(b, cs)
  {
    if a != [] {
      assert (a + b)[0] == a[0] && (a + b)[1..] == a[1..] + b;
      FindAfter(a[1..], b, cs);
    } else {
      assert a + b == b;
    }
  }

  /** Digits alone make a mantissa with no fraction. */
  lemma MantissaOfDigits(w: string)
    requires w != [] && IsDigits(w)
    ensures ParseMantissa(w) == Some(DigitsValue(w) as real)
  {
    assert DecimalValue(w, []) == DigitsValue(w) as real;
    FindAbsent(w, {'.'});
    assert w[..|w|] == w;
  }

  /** `<digits>.<digits>` makes a mantissa with a fraction. */
  lemma MantissaWithPoint(w: string, f: string)
    requires w != [] && IsDigits(w) && IsDigits(f)
    ensures ParseMantissa(w + "." + f) == Some(DecimalValue(w, f))
  {
    var m := w + "." + f;
    FindAbsent(w, {'.'});
    assert m == w + ("." + f);
    FindAfter(w, "." + f, {'.'});
    assert m[..|w|] == w;
    assert m[|w| + 1..] == f;
    MantissaSplitAt(m, w, f);
  }

  /** The mantissa read at its first point. */
  lemma MantissaSplitAt(m: string, w: string, f: string)
    requires IsDigits(w) && IsDigits(f)
    requires Find(m, {'.'}) == |w| < |m|
    requires m[..|w|] == w && m[|w| + 1..] == f
    ensures ParseMantissa(m) == MantissaParts(w, f)
  {
  }

  /** A literal with no exponent and no type suffix is read as its mantissa. */
  lemma DecimalWithoutExponent(b: string)
    requires b != [] && !IsTypeSuffix(b[|b| - 1])
    requires 'e' !in b && 'E' !in b
    ensures ParseUnsignedDecimal(b) == ParseMantissa(b)
  {
    FindAbsent(b, {'e', 'E'});
    assert b[..|b|] == b;
    assert Scale(0) == 1.0;
  }

  /** A literal that starts with a digit and ends with a digit or a point is unsigned and
      untouched by trimming. */
  lemma FloatingOfPlain(s: string)
    requires s != [] && IsDigit(s[0]) && (IsDigit(s[|s| - 1]) || s[|s| - 1] == '.')
    requires 'e' !in s && 'E' !in s
    ensures ParseDouble(s) == match ParseMantissa(s) case Some(v) => Some(Finite(v)) case None => None
  {
    JavaText.TrimKeeps(s);
    assert s != "NaN" && s != "Infinity" by {
      assert IsDigit(s[0]);
    }
    DecimalWithoutExponent(s);
  }

  /** A whole number written in decimal reads back as itself. */
  lemma ParseDoubleShowNat(n: nat)
    ensures ParseDouble(ShowNat(n)) == Some(Finite(n as real))
  {
    var s := ShowNat(n);
    assert 'e' !in s && 'E' !in s by {
      assert forall i | 0 <= i < |s| :: IsDigit(s[i]);
    }
    FloatingOfPlain(s);
    MantissaOfDigits(s);
  }

  /** A literal `<whole>.<fraction>` reads back as the exact decimal value it spells. */
  lemma ParseDoublePoint(w: string, f: string)
    requires w != [] && IsDigits(w) && IsDigits(f)
    ensures ParseDouble(w + "." + f) == Some(Finite(DecimalValue(w, f)))
  {
    PointLiteralShape(w, f);
    FloatingOfPlain(w + "." + f);
    MantissaWithPoint(w, f);
  }

  lemma PointLiteralShape(w: string, f: string)
    requires w != [] && IsDigits(w) && IsDigits(f)
    ensures var s := w + "." + f;
      IsDigit(s[0]) && (IsDigit(s[|s| - 1]) || s[|s| - 1] == '.') && 'e' !in s && 'E' !in s
  {
    var s := w + "." + f;
    assert s[0] == w[0];
    assert IsDigit(s[|s| - 1]) || s[|s| - 1] == '.' by {
      if f == [] { assert s[|s| - 1] == '.'; } else { assert s[|s| - 1] == f[|f| - 1]; }
    }
    forall i | 0 <= i < |s| ensures s[i] != 'e' && s[i] != 'E' {
      if i < |w| { assert s[i] == w[i]; }
      else if i > |w| { assert s[i] == f[i - |w| - 1]; }
    }
  }
}
