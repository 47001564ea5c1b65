/** JavaScript number parsing as the importers use it: `parseInt(s, 10)`,
    `parseFloat(s)`, truthiness for `x || fallback`, and the decimal rendering
    of integers (`String(n)`). Values are exact: IEEE-754 rounding is not modelled. */
module Numbers {
  import opened Text

  /** A JavaScript number as produced by the parsers: not-a-number, an infinity, or a finite value. */
  datatype Num = NaN | Inf(negative: bool) | Fin(value: real)

  /** `Boolean(n)`: NaN and zero are falsy, everything else is truthy. */
  predicate Truthy(n: Num) {
    !n.NaN? && n != Fin(0.0)
  }

  /** `n || fallback` for a number and a non-zero finite fallback. */
  function OrElse(n: Num, fallback: real): (r: Num)
    requires fallback != 0.0
    ensures Truthy(r)
    ensures Truthy(n) ==> r == n
    ensures !Truthy(n) ==> r == Fin(fallback)
  {
    if Truthy(n) then n else Fin(fallback)
  }

  predicate IsDigit(c: char) {
    '0' <= c <= '9'
  }

  function DigitValue(c: char): (d: nat)
    requires IsDigit(c)
    ensures d < 10
  {
    (c as int) - ('0' as int)
  }

  function DigitChar(d: nat): (c: char)
    requires d < 10
    ensures IsDigit(c) && DigitValue(c) == d
  {
    (('0' as int) + d) as char
  }

  predicate AllDigits(s: string) {
    forall i :: 0 <= i < |s| ==> IsDigit(s[i])
  }

  /** Length of the run of decimal digits at the start of `s`. */
  function DigitRun(s: string): (n: nat)
    ensures n <= |s| && AllDigits(s[..n])
    ensures n < |s| ==> !IsDigit(s[n])
  {
    if |s| > 0 && IsDigit(s[0]) then
      var m := DigitRun(s[1..]);
      assert forall i :: 1 <= i < 1 + m ==> s[i] == s[1..][..m][i - 1];
      1 + m
    else 0
  }

  function Pow10(n: nat): (p: nat)
    ensures p > 0
  {
    if n == 0 then 1 else 10 * Pow10(n - 1)
  }

  /** `10 ** e` as an exact real, for negative exponents too. */
  function Scale(e: int): (r: real)
    ensures r > 0.0
  {
    if e >= 0 then Pow10(e) as real else 1.0 / (Pow10(-e) as real)
  }

  /** The value of a string of decimal digits, most significant first. */
  function DigitsValue(d: string): nat
    requires AllDigits(d)
  {
    if |d| == 0 then 0 else 10 * DigitsValue(d[..|d| - 1]) + DigitValue(d[|d| - 1])
  }

  /** `String(n)` for a natural number: its shortest decimal digits. */
  function ShowNat(n: nat): (s: string)
    ensures |s| > 0 && AllDigits(s)
    ensures DigitsValue(s) == n
    ensures s[0] != '0' || n == 0
  {
    if n < 10 then [DigitChar(n)]
    else
      var p := ShowNat(n / 10);
      var s := p + [DigitChar(n % 10)];
      assert s[..|s| - 1] == p;
      s
  }

  /** `String(n)` for an integer (magnitudes below 10^21, where JavaScript switches to exponent form). */
  function ShowInt(n: int): (s: string)
    ensures |s| > 0 && !IsWhitespace(s[0])
  {
    if n < 0 then "-" + ShowNat(-n) else ShowNat(n)
  }

  /** Removes one leading `-` (reporting it) or `+`. */
  function StripSign(t: string): (r: (bool, string))
    ensures |r.1| <= |t|
  {
    if |t| > 0 && t[0] == '-' then (true, t[1..])
    else if |t| > 0 && t[0] == '+' then (false, t[1..])
    else (false, t)
  }

  function Signed(negative: bool, x: real): real {
    if negative then -x else x
  }

  /** `parseInt(s, 10)`: skip leading whitespace, take one optional sign, then the
      longest run of decimal digits; no digit at all gives NaN. Trailing text is ignored. */
  function ParseInt(s: string): (r: Num)
    ensures !r.Inf?
    ensures r.Fin? ==> r.value == r.value.Floor as real
    ensures var (negative, u) := StripSign(TrimStart(s));
      && (r.NaN? <==> !(|u| > 0 && IsDigit(u[0])))
      && (r.Fin? && !negative ==> r.value >= 0.0)
      && (r.Fin? && negative ==> r.value <= 0.0)
  {
    var t := StripSign(TrimStart(s));
    var n := DigitRun(t.1);
    if n == 0 then NaN
    else
      var k: int := DigitsValue(t.1[..n]);
      Fin((if t.0 then -k else k) as real)
  }

  /** An unsigned decimal literal cut into its integer digits, its fraction
      digits (after a `.`) and the text that follows them. */
  datatype Decimal = Decimal(intDigits: string, fracDigits: string, rest: string)

  function SplitDecimal(u: string): (d: Decimal)
    ensures AllDigits(d.intDigits) && AllDigits(d.fracDigits)
  {
    var a := DigitRun(u);
    var rest := u[a..];
    if |rest| > 0 && rest[0] == '.' then
      var b := DigitRun(rest[1..]);
      Decimal(u[..a], rest[1..][..b], rest[1..][b..])
    else Decimal(u[..a], "", rest)
  }

  /** Text that begins a JavaScript number: `Infinity`, a digit, or a point followed by a digit. */
  predicate StartsNumber(u: string) {
    || StartsWith(u, "Infinity")
    || (|u| > 0 && IsDigit(u[0]))
    || (|u| > 1 && u[0] == '.' && IsDigit(u[1]))
  }

  /** `parseFloat` after the sign: `Infinity`, or digits with an optional fraction
      and an optional exponent; at least one digit before or after the point. */
  function UnsignedFloat(u: string): (r: Num)
    ensures r.NaN? <==> !StartsNumber(u)
    ensures r.Inf? ==> !r.negative
    ensures r.Fin? ==> r.value >= 0.0
  {
    if StartsWith(u, "Infinity") then Inf(false)
    else
      var d := SplitDecimal(u);
      if |d.intDigits| == 0 && |d.fracDigits| == 0 then NaN
      else Fin(Magnitude(d))
  }

  /** The exact value of a split decimal literal, exponent included. */
  function Magnitude(d: Decimal): (x: real)
    requires AllDigits(d.intDigits) && AllDigits(d.fracDigits)
    ensures x >= 0.0
  {
    Shifted(DigitsValue(d.intDigits + d.fracDigits), Exponent(d.rest) - |d.fracDigits|)
  }

  /** `m * 10 ** e` as an exact real. */
  function Shifted(m: nat, e: int): (x: real)
    ensures x >= 0.0
  {
    (m as real) * Scale(e)
  }

  function Negate(negative: bool, n: Num): Num {
    if !negative then n
    else match n
      case NaN => NaN
      case Inf(_) => Inf(true)
      case Fin(x) => Fin(-x)
  }

  /** `parseFloat(s)`: skip leading whitespace, then the longest prefix that is a
      decimal literal with an optional sign; no such prefix gives NaN. */
  function ParseFloat(s: string): (r: Num)
    ensures var (negative, u) := StripSign(TrimStart(s));
      && (r.NaN? <==> !StartsNumber(u))
      && (r.Inf? ==> r.negative == negative)
      && (r.Fin? && !negative ==> r.value >= 0.0)
      && (r.Fin? && negative ==> r.value <= 0.0)
  {
    var t := StripSign(TrimStart(s));
    Negate(t.0, UnsignedFloat(t.1))
  }

  /** A leading minus negates what the rest parses to, when the rest starts
      with neither white space nor another sign. */
  lemma ParseFloatOfNegative(u: string)
    requires |u| == 0 || (!IsWhitespace(u[0]) && u[0] != '-' && u[0] != '+')
    ensures ParseFloat("-" + u) == Negate(true, ParseFloat(u))
  {
    MinusText(u);
    UnsignedText(u);
  }

  lemma MinusText(u: string)
    ensures StripSign(TrimStart("-" + u)) == (true, u)
  {
    var s := "-" + u;
    assert s[0] == '-' && s[1..] == u;
    assert TrimStart(s) == s;
  }

  lemma UnsignedText(u: string)
    requires |u| == 0 || (!IsWhitespace(u[0]) && u[0] != '-' && u[0] != '+')
    ensures StripSign(TrimStart(u)) == (false, u)
  {
    assert TrimStart(u) == u;
  }

  /** The exponent part `e[+-]digits` at the start of `s`, or 0 when there is none. */
  function Exponent(s: string): int {
    if |s| > 0 && (s[0] == 'e' || s[0] == 'E') then
      var t := StripSign(s[1..]);
      var c := DigitRun(t.1);
      if c == 0 then 0
      else if t.0 then -(DigitsValue(t.1[..c]) as int)
      else DigitsValue(t.1[..c])
    else 0
  }

  lemma {:induction false} TrimStartSkipsWhitespace(w: string, s: string)
    requires forall i :: 0 <= i < |w| ==> IsWhitespace(w[i])
    requires |s| == 0 || !IsWhitespace(s[0])
    ensures TrimStart(w + s) == s
  {
    if |w| > 0 {
      assert (w + s)[1..] == w[1..] + s;
      TrimStartSkipsWhitespace(w[1..], s);
    }
  }

  lemma {:induction false} DigitRunOfDigits(d: string, rest: string)
    requires AllDigits(d)
    requires |rest| == 0 || !IsDigit(rest[0])
    ensures DigitRun(d + rest) == |d|
  {
    if |d| > 0 {
      assert (d + rest)[1..] == d[1..] + rest;
      DigitRunOfDigits(d[1..], rest);
    }
  }

  lemma {:induction false} DigitsValueAppend(a: string, b: string)
    requires AllDigits(a) && AllDigits(b)
    ensures DigitsValue(a + b) == DigitsValue(a) * Pow10(|b|) + DigitsValue(b)
  {
    if |b| > 0 {
      var b' := b[..|b| - 1];
      var last := DigitValue(b[|b| - 1]);
      assert (a + b)[..|a + b| - 1] == a + b';
      assert DigitsValue(a + b) == 10 * DigitsValue(a + b') + last;
      DigitsValueAppend(a, b');
      ShiftDigit(DigitsValue(a), Pow10(|b'|), DigitsValue(b'), last);
    } else {
      assert a + b == a;
    }
  }

  /** One more digit on the right: `10 * (x * q + y) + d == x * (10 * q) + (10 * y + d)`. */
  lemma ShiftDigit(x: nat, q: nat, y: nat, d: nat)
    ensures 10 * (x * q + y) + d == x * (10 * q) + (10 * y + d)
  {
    assert x * (10 * q) == 10 * (x * q);
  }

  /** `parseInt` reads back what `String(n)` wrote, whatever whitespace precedes it
      and whatever non-digit text follows it. */
  lemma ParseIntOfShowInt(w: string, n: int, rest: string)
    requires forall i :: 0 <= i < |w| ==> IsWhitespace(w[i])
    requires |rest| == 0 || !IsDigit(rest[0])
    ensures ParseInt(w + ShowInt(n) + rest) == Fin(n as real)
  {
    var m: nat := if n < 0 then -n else n;
    var digits := ShowNat(m);
    var u := digits + rest;
    var shown := ShowInt(n) + rest;
    assert w + ShowInt(n) + rest == w + shown;
    TrimStartSkipsWhitespace(w, shown);
    StripSignOfShowInt(n, rest);
    var t := StripSign(shown);
    DigitRunOfDigits(digits, rest);
    assert t.1[..|digits|] == digits;
    assert DigitsValue(t.1[..DigitRun(t.1)]) == m;
  }

  /** `parseInt` of white space, an optional sign, a run of digits and then
      any text not starting with a digit: the value of the digits, leading
      zeros included, negated only for a minus sign. */
  lemma ParseIntOfDigits(w: string, sign: string, digits: string, rest: string)
    requires forall i :: 0 <= i < |w| ==> IsWhitespace(w[i])
    requires sign == "" || sign == "+" || sign == "-"
    requires |digits| > 0 && AllDigits(digits)
    requires |rest| == 0 || !IsDigit(rest[0])
    ensures ParseInt(w + sign + digits + rest)
      == Fin((if sign == "-" then -(DigitsValue(digits) as int) else DigitsValue(digits)) as real)
  {
    StrippedDigits(w, sign, digits, rest);
    ParseIntOfParts(w + sign + digits + rest, sign == "-", digits, rest);
  }

  lemma StrippedDigits(w: string, sign: string, digits: string, rest: string)
    requires forall i :: 0 <= i < |w| ==> IsWhitespace(w[i])
    requires sign == "" || sign == "+" || sign == "-"
    requires |digits| > 0 && AllDigits(digits)
    ensures StripSign(TrimStart(w + sign + digits + rest)) == (sign == "-", digits + rest)
  {
    AppendAssociates(w + sign, digits, rest);
    SignedDigitsText(w, sign, digits + rest);
  }

  /** `parseInt` once the white space and sign are stripped, leaving a digit run and non-digit text. */
  lemma ParseIntOfParts(s: string, negative: bool, digits: string, rest: string)
    requires StripSign(TrimStart(s)) == (negative, digits + rest)
    requires |digits| > 0 && AllDigits(digits)
    requires |rest| == 0 || !IsDigit(rest[0])
    ensures ParseInt(s) == Fin((if negative then -(DigitsValue(digits) as int) else DigitsValue(digits)) as real)
  {
    DigitRunOfDigits(digits, rest);
    assert (digits + rest)[..|digits|] == digits;
  }

  /** White space and a sign in front of text starting with a digit are what
      `parseInt` and `parseFloat` skip. */
  lemma SignedDigitsText(w: string, sign: string, u: string)
    requires forall i :: 0 <= i < |w| ==> IsWhitespace(w[i])
    requires sign == "" || sign == "+" || sign == "-"
    requires |u| > 0 && IsDigit(u[0])
    ensures w + sign + u == w + (sign + u)
    ensures StripSign(TrimStart(w + sign + u)) == (sign == "-", u)
  {
    var t := sign + u;
    SignedText(sign, u);
    TrimStartSkipsWhitespace(w, t);
    AppendAssociates(w, sign, u);
  }

  lemma AppendAssociates(a: string, b: string, c: string)
    ensures a + b + c == a + (b + c)
  {
  }

  lemma SignedText(sign: string, u: string)
    requires sign == "" || sign == "+" || sign == "-"
    requires |u| > 0 && IsDigit(u[0])
    ensures |sign + u| > 0 && !IsWhitespace((sign + u)[0])
    ensures StripSign(sign + u) == (sign == "-", u)
  {
    if sign == "" {
      assert sign + u == u;
    } else {
      assert (sign + u)[0] == sign[0];
      assert (sign + u)[1..] == u;
    }
  }

  lemma StripSignOfShowInt(n: int, rest: string)
    ensures StripSign(ShowInt(n) + rest) == (n < 0, ShowNat(if n < 0 then -n else n) + rest)
  {
    if n < 0 {
      StripSignOfNegative(n, rest);
    } else {
      StripSignOfNonNegative(n, rest);
    }
  }

  lemma StripSignOfNegative(n: int, rest: string)
    requires n < 0
    ensures StripSign(ShowInt(n) + rest) == (true, ShowNat(-n) + rest)
  {
    var u := ShowNat(-n) + rest;
    assert ShowInt(n) + rest == "-" + u;
    assert ("-" + u)[1..] == u;
  }

  lemma StripSignOfNonNegative(n: int, rest: string)
    requires n >= 0
    ensures StripSign(ShowInt(n) + rest) == (false, ShowNat(n) + rest)
  {
    var d := ShowNat(n);
    assert ShowInt(n) == d;
    assert IsDigit(d[0]);
    assert (d + rest)[0] == d[0];
  }

  /** `String(n)` splits as a decimal with no fraction and nothing after it. */
  lemma SplitDecimalOfDigits(digits: string)
    requires AllDigits(digits)
    ensures SplitDecimal(digits) == Decimal(digits, "", "")
  {
    DigitRunOfDigits(digits, "");
    assert digits + "" == digits;
  }

  /** A digit string followed by `.` and fraction digits splits at the point. */
  lemma SplitDecimalOfPoint(digits: string, frac: string)
    requires AllDigits(digits) && AllDigits(frac)
    ensures SplitDecimal(digits + "." + frac) == Decimal(digits, frac, "")
  {
    var s := digits + "." + frac;
    assert s == digits + ("." + frac);
    DigitRunOfDigits(digits, "." + frac);
    var rest := s[|digits|..];
    assert rest == "." + frac;
    assert rest[1..] == frac + "";
    DigitRunOfDigits(frac, "");
    assert s[..|digits|] == digits;
  }

  /** `parseFloat` reads back `String(n)` for an integer `n`. */
  lemma ParseFloatOfShowInt(n: int)
    ensures ParseFloat(ShowInt(n)) == Fin(n as real)
  {
    var m: nat := if n < 0 then -n else n;
    var digits := ShowNat(m);
    assert TrimStart(ShowInt(n)) == ShowInt(n);
    StripSignOfShowInt(n, "");
    assert ShowInt(n) + "" == ShowInt(n) && digits + "" == digits;
    UnsignedFloatOfDigits(digits);
    MagnitudeWithoutExponent(digits, "");
    ShiftedByZero(m);
  }

  lemma UnsignedFloatOfDigits(digits: string)
    requires |digits| > 0 && AllDigits(digits)
    ensures UnsignedFloat(digits) == Fin(Magnitude(Decimal(digits, "", "")))
  {
    assert !StartsWith(digits, "Infinity") by {
      assert IsDigit(digits[0]);
    }
    SplitDecimalOfDigits(digits);
  }

  /** The value of the decimal `whole.frac`. */
  function DecimalOf(whole: nat, frac: string): real
    requires AllDigits(frac)
  {
    whole as real + (DigitsValue(frac) as real) / (Pow10(|frac|) as real)
  }

  /** `parseFloat` reads back a plain decimal `whole.frac`, as JavaScript writes
      the coordinates of the city table. */
  lemma ParseFloatOfDecimal(whole: nat, frac: string)
    requires |frac| > 0 && AllDigits(frac)
    ensures ParseFloat(ShowNat(whole) + "." + frac) == Fin(DecimalOf(whole, frac))
  {
    var digits := ShowNat(whole);
    var s := digits + "." + frac;
    assert TrimStart(s) == s by { assert !IsWhitespace(s[0]); }
    assert StripSign(s) == (false, s);
    assert ParseFloat(s) == UnsignedFloat(s);
    UnsignedFloatOfPoint(digits, frac);
    MagnitudeWithoutExponent(digits, frac);
    ShiftedIsDecimal(whole, frac);
  }

  lemma ShiftedIsDecimal(whole: nat, frac: string)
    requires AllDigits(frac)
    ensures Shifted(DigitsValue(ShowNat(whole) + frac), -|frac|) == DecimalOf(whole, frac)
  {
    DigitsValueAppend(ShowNat(whole), frac);
    DecimalValue(whole, DigitsValue(frac), |frac|);
  }

  lemma UnsignedFloatOfPoint(digits: string, frac: string)
    requires |digits| > 0 && AllDigits(digits) && AllDigits(frac)
    ensures UnsignedFloat(digits + "." + frac) == Fin(Magnitude(Decimal(digits, frac, "")))
  {
    var s := digits + "." + frac;
    assert !StartsWith(s, "Infinity") by {
      assert IsDigit(s[0]);
    }
    SplitDecimalOfPoint(digits, frac);
  }

  lemma MagnitudeWithoutExponent(digits: string, frac: string)
    requires AllDigits(digits) && AllDigits(frac)
    ensures Magnitude(Decimal(digits, frac, "")) == Shifted(DigitsValue(digits + frac), -|frac|)
  {
    assert Exponent("") == 0;
  }

  lemma ShiftedByZero(m: nat)
    ensures Shifted(m, 0) == m as real
  {
    assert Scale(0) == 1.0;
  }

  lemma DecimalValue(whole: nat, f: nat, k: nat)
    ensures Shifted(whole * Pow10(k) + f, -(k as int)) == whole as real + (f as real) / (Pow10(k) as real)
  {
    var p := Pow10(k) as real;
    var m := whole * Pow10(k) + f;
    assert Shifted(m, -(k as int)) == (m as real) * (1.0 / p);
    RealOfSum(whole, Pow10(k), f);
    DivideSum(whole as real, f as real, p);
  }

  lemma RealOfSum(w: nat, p: nat, f: nat)
    ensures ((w * p + f) as real) == (w as real) * (p as real) + (f as real)
  {
  }

  lemma DivideSum(w: real, f: real, p: real)
    requires p > 0.0
    ensures (w * p + f) * (1.0 / p) == w + f / p
  {
    assert (w * p + f) * (1.0 / p) == w * (p * (1.0 / p)) + f * (1.0 / p);
    assert p * (1.0 / p) == 1.0;
  }

  lemma ParseIntOfUnsigned(s: string)
    requires |s| > 0 && !IsWhitespace(s[0]) && !IsDigit(s[0]) && s[0] != '+' && s[0] != '-'
    ensures ParseInt(s) == NaN
  {
  }

  /** A missing column reaches the parsers as the text `"undefined"`, which is NaN for both. */
  lemma UndefinedIsNaN()
    ensures ParseInt("undefined") == NaN
    ensures ParseFloat("undefined") == NaN
  {
    var s := "undefined";
    assert s[0] == 'u';
    assert TrimStart(s) == s;
    assert StripSign(s) == (false, s);
    assert !StartsWith(s, "Infinity") by { assert s[0] != "Infinity"[0]; }
    assert DigitRun(s) == 0;
    assert SplitDecimal(s).intDigits == "";
    assert s[0..] == s;
  }
}
