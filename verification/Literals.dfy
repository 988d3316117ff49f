/** Decimal number literals (`numericLiteralRational`, `numericLiteralWholeValue` in `src/types.ts`):
    the exact rational a literal denotes, in lowest terms. */
module Literals {
  import opened Wrappers
  import opened Decimals
  import opened Strings

  // ---------------------------------------------------------------- the literal's grammar

  predicate IsRunChar(c: char) {
    IsDigit(c) || c == '_'
  }

  /** `[0-9][0-9_]*` */
  predicate IsRun(s: string) {
    s != "" && IsDigit(s[0]) && forall c :: c in s ==> IsRunChar(c)
  }

  datatype Sign = NoSign | Plus | Minus
  datatype Exponent = Exponent(mark: char, sign: Sign, run: string)
  datatype Literal = Literal(whole: string, fraction: Option<string>, exponent: Option<Exponent>)

  predicate WellFormed(l: Literal) {
    && IsRun(l.whole)
    && (l.fraction.Some? ==> IsRun(l.fraction.value))
    && (l.exponent.Some? ==> IsRun(l.exponent.value.run) && l.exponent.value.mark in "eE")
  }

  function FractionText(fraction: Option<string>): string {
    match fraction
    case Some(run) => "." + run
    case None => ""
  }

  function ExponentText(exponent: Option<Exponent>): string {
    match exponent
    case Some(Exponent(mark, sign, run)) =>
      [mark] + (match sign case NoSign => "" case Plus => "+" case Minus => "-") + run
    case None => ""
  }

  function Text(l: Literal): string {
    l.whole + (FractionText(l.fraction) + ExponentText(l.exponent))
  }

  // ---------------------------------------------------------------- the matcher

  /** Length of the longest prefix of digits and underscores. */
  function RunLength(s: string): (n: nat)
    ensures n <= |s|
  {
    if s != "" && IsRunChar(s[0]) then 1 + RunLength(s[1..]) else 0
  }

  /** A run at the start of `s`, and what follows it. */
  function TakeRun(s: string): (r: Option<(string, string)>)
    ensures r.Some? ==> s == r.value.0 + r.value.1 && r.value.0 != ""
  {
    var n := RunLength(s);
    if n > 0 && IsDigit(s[0]) then Some((s[..n], s[n..])) else None
  }

  function MatchExponent(s: string): Option<Option<Exponent>> {
    if s == "" then Some(None)
    else if s[0] !in "eE" then None
    else
      var sign := if |s| > 1 && s[1] == '+' then Plus else if |s| > 1 && s[1] == '-' then Minus else NoSign;
      match TakeRun(if sign.NoSign? then s[1..] else s[2..])
      case Some((run, rest)) => if rest == "" then Some(Some(Exponent(s[0], sign, run))) else None
      case None => None
  }

  /** The optional fraction and exponent. */
  function MatchTail(rest: string): Option<(Option<string>, Option<Exponent>)> {
    if rest != "" && rest[0] == '.' then
      match TakeRun(rest[1..])
      case None => None
      case Some((fraction, rest')) =>
        match MatchExponent(rest')
        case Some(exponent) => Some((Some(fraction), exponent))
        case None => None
    else
      match MatchExponent(rest)
      case Some(exponent) => Some((None, exponent))
      case None => None
  }

  /** The regular expression's groups, if the whole text matches. */
  function Match(text: string): Option<Literal> {
    match TakeRun(text)
    case None => None
    case Some((whole, rest)) =>
      match MatchTail(rest)
      case Some((fraction, exponent)) => Some(Literal(whole, fraction, exponent))
      case None => None
  }

  lemma {:induction false} RunLengthConcat(run: string, rest: string)
    requires (forall c :: c in run ==> IsRunChar(c)) && (rest == "" || !IsRunChar(rest[0]))
    ensures RunLength(run + rest) == |run|
  {
    if run == "" {
      assert run + rest == rest;
    } else {
      assert run + rest == [run[0]] + (run[1..] + rest);
      RunLengthConcat(run[1..], rest);
    }
  }

  lemma {:induction false} RunLengthIsRun(s: string)
    ensures forall c :: c in s[..RunLength(s)] ==> IsRunChar(c)
  {
    if s != "" && IsRunChar(s[0]) {
      RunLengthIsRun(s[1..]);
      assert s[..RunLength(s)] == [s[0]] + s[1..][..RunLength(s[1..])];
    }
  }

  lemma TakesRun(run: string, rest: string)
    requires IsRun(run) && (rest == "" || !IsRunChar(rest[0]))
    ensures TakeRun(run + rest) == Some((run, rest))
  {
    RunLengthConcat(run, rest);
    assert (run + rest)[..|run|] == run && (run + rest)[|run|..] == rest;
  }

  lemma TakenIsRun(s: string)
    requires TakeRun(s).Some?
    ensures IsRun(TakeRun(s).value.0)
  {
    RunLengthIsRun(s);
  }

  lemma MatchesExponent(exponent: Option<Exponent>)
    requires exponent.Some? ==> IsRun(exponent.value.run) && exponent.value.mark in "eE"
    ensures MatchExponent(ExponentText(exponent)) == Some(exponent)
    ensures ExponentText(exponent) == "" || (!IsRunChar(ExponentText(exponent)[0]) && ExponentText(exponent)[0] != '.')
  {
    if exponent.Some? {
      var Exponent(mark, sign, run) := exponent.value;
      var s := ExponentText(exponent);
      TakesRun(run, "");
      assert run + "" == run;
      match sign
      case NoSign => assert s == [mark] + run && s[1..] == run;
      case Plus => assert s == [mark] + (['+'] + run) && s[2..] == run;
      case Minus => assert s == [mark] + (['-'] + run) && s[2..] == run;
    }
  }

  lemma MatchedExponent(s: string)
    requires MatchExponent(s).Some?
    ensures var e := MatchExponent(s).value;
            (e.Some? ==> IsRun(e.value.run) && e.value.mark in "eE") && ExponentText(e) == s
  {
    if s != "" {
      var e := MatchExponent(s).value.value;
      TakenIsRun(if e.sign.NoSign? then s[1..] else s[2..]);
      assert s == [s[0]] + s[1..];
      if !e.sign.NoSign? {
        assert s == [s[0]] + [s[1]] + s[2..];
      }
    }
  }

  lemma MatchesTail(fraction: Option<string>, exponent: Option<Exponent>)
    requires fraction.Some? ==> IsRun(fraction.value)
    requires exponent.Some? ==> IsRun(exponent.value.run) && exponent.value.mark in "eE"
    ensures MatchTail(FractionText(fraction) + ExponentText(exponent)) == Some((fraction, exponent))
    ensures var s := FractionText(fraction) + ExponentText(exponent); s == "" || !IsRunChar(s[0])
  {
    var tail := ExponentText(exponent);
    MatchesExponent(exponent);
    if fraction.Some? {
      Assoc(['.'], fraction.value, tail);
      HeadTail('.', fraction.value + tail);
      TakesRun(fraction.value, tail);
    } else {
      assert FractionText(fraction) + tail == tail;
    }
  }

  lemma MatchedTail(rest: string)
    requires MatchTail(rest).Some?
    ensures var (f, e) := MatchTail(rest).value;
            && (f.Some? ==> IsRun(f.value))
            && (e.Some? ==> IsRun(e.value.run) && e.value.mark in "eE")
            && FractionText(f) + ExponentText(e) == rest
  {
    if rest != "" && rest[0] == '.' {
      TakenIsRun(rest[1..]);
      var (fraction, rest') := TakeRun(rest[1..]).value;
      MatchedExponent(rest');
      Uncons(rest);
      Assoc(['.'], fraction, rest');
    } else {
      MatchedExponent(rest);
      assert FractionText(None) + rest == rest;
    }
  }

  /** The matcher accepts exactly the texts of well-formed literals, and reads each one back. */
  lemma MatchReadsText(l: Literal)
    requires WellFormed(l)
    ensures Match(Text(l)) == Some(l)
  {
    MatchesTail(l.fraction, l.exponent);
    TakesRun(l.whole, FractionText(l.fraction) + ExponentText(l.exponent));
  }

  lemma MatchedIsText(text: string)
    requires Match(text).Some?
    ensures WellFormed(Match(text).value) && Text(Match(text).value) == text
  {
    TakenIsRun(text);
    MatchedTail(TakeRun(text).value.1);
  }

  // ---------------------------------------------------------------- what a literal denotes

  function Strip(run: string): (s: string)
    requires forall c :: c in run ==> IsRunChar(c)
    ensures AllDigits(s)
  {
    if run == "" then ""
    else
      assert run[0] in run && forall c :: c in run[1..] ==> c in run;
      if run[0] == '_' then Strip(run[1..])
      else
        var rest := Strip(run[1..]);
        assert IsDigit(run[0]) by { assert IsRunChar(run[0]); }
        assert forall c :: c in [run[0]] + rest ==> c == run[0] || c in rest;
        [run[0]] + rest
  }

  function WholeDigits(l: Literal): (s: string)
    requires WellFormed(l)
    ensures AllDigits(s)
  {
    Strip(l.whole)
  }

  function FractionDigits(l: Literal): (s: string)
    requires WellFormed(l)
    ensures AllDigits(s)
  {
    match l.fraction
    case Some(run) => Strip(run)
    case None => ""
  }

  function ExponentOf(l: Literal): int
    requires WellFormed(l)
  {
    match l.exponent
    case Some(Exponent(_, sign, run)) => if sign == Minus then 0 - Value(Strip(run)) else Value(Strip(run))
    case None => 0
  }

  /** The positional value of the digits behind a decimal point. */
  function FractionValue(s: string): real
    requires AllDigits(s)
  {
    if s == "" then 0.0 else (DigitValue(s[0]) as real + FractionValue(s[1..])) / 10.0
  }

  /** The number the literal denotes: whole part plus fraction, scaled by the power of ten. */
  function Denotes(l: Literal): real
    requires WellFormed(l)
  {
    var v := Value(WholeDigits(l)) as real + FractionValue(FractionDigits(l));
    var e := ExponentOf(l);
    if e >= 0 then v * Pow10(e) as real else v / Pow10(-e) as real
  }

  lemma TenthOf(d: real, f: real, p: real)
    ensures (d + f) / 10.0 * (10.0 * p) == d * p + f * p
  { }

  lemma ProductAsReal(m: nat, n: nat)
    ensures (m * n) as real == m as real * n as real
  { }

  lemma {:induction false} FractionValueScaled(s: string)
    requires AllDigits(s)
    ensures FractionValue(s) * Pow10(|s|) as real == Value(s) as real
  {
    if s != "" {
      var d, rest := DigitValue(s[0]), s[1..];
      FractionValueScaled(rest);
      assert Pow10(|s|) == 10 * Pow10(|rest|) && Value(s) == d * Pow10(|rest|) + Value(rest);
      assert FractionValue(s) == (d as real + FractionValue(rest)) / 10.0;
      hide Pow10, Value, FractionValue;
      TenthOf(d as real, FractionValue(rest), Pow10(|rest|) as real);
      ProductAsReal(d, Pow10(|rest|));
    }
  }

  // ---------------------------------------------------------------- what the source computes first

  const CAP := 4096

  /** The digits with the decimal point removed, and the power of ten left to apply. */
  function Digits(l: Literal): (s: string)
    requires WellFormed(l)
    ensures AllDigits(s)
  {
    WholeDigits(l) + FractionDigits(l)
  }

  function Shift(l: Literal): int
    requires WellFormed(l)
  {
    ExponentOf(l) - |FractionDigits(l)|
  }

  function Unreduced(l: Literal): (nat, nat)
    requires WellFormed(l)
  {
    var shift := Shift(l);
    if shift >= 0 then (Value(Digits(l)) * Pow10(shift), 1) else (Value(Digits(l)), Pow10(-shift))
  }

  lemma ScaledSum(w: real, f: real, p: real, n: real, d: real)
    requires d == w * p + n && f * p == n
    ensures (w + f) * p == d
  { }

  lemma DigitsScaled(l: Literal)
    requires WellFormed(l)
    ensures (Value(WholeDigits(l)) as real + FractionValue(FractionDigits(l))) * Pow10(|FractionDigits(l)|) as real
            == Value(Digits(l)) as real
  {
    hide Value, FractionValue, Pow10, WholeDigits, FractionDigits;
    var w, f := WholeDigits(l), FractionDigits(l);
    ValueConcat(w, f);
    FractionValueScaled(f);
    ProductAsReal(Value(w), Pow10(|f|));
    ScaledSum(Value(w) as real, FractionValue(f), Pow10(|f|) as real, Value(f) as real, Value(w + f) as real);
  }

  lemma PowProduct(m: nat, n: nat)
    ensures Pow10(m + n) as real == Pow10(m) as real * Pow10(n) as real
  {
    Pow10Sum(m, n);
    ProductAsReal(Pow10(m), Pow10(n));
  }

  lemma ShiftUp(v: real, e: real, k: real, shift: real, d: real)
    requires e == shift * k && v * k == d
    ensures v * e == d * shift
  {
    assert v * (shift * k) == (v * k) * shift;
  }

  lemma ShiftDown(v: real, e: real, k: real, shift: real, d: real)
    requires k == e * shift && v * k == d
    ensures (v * e) * shift == d
  {
    assert v * (e * shift) == (v * e) * shift;
  }

  lemma ShiftFarDown(v: real, e: real, k: real, shift: real, d: real)
    requires shift == e * k && v * k == d && e > 0.0
    ensures (v / e) * shift == d
  {
    var q := v / e;
    assert q * e == v;
    assert q * (e * k) == (q * e) * k;
  }

  /** The unreduced quotient is exact. */
  lemma UnreducedIsExact(l: Literal)
    requires WellFormed(l)
    ensures Unreduced(l).1 > 0 && Denotes(l) * Unreduced(l).1 as real == Unreduced(l).0 as real
  {
    hide Value, FractionValue, Pow10, WholeDigits, FractionDigits, Digits, ExponentOf;
    var v := Value(WholeDigits(l)) as real + FractionValue(FractionDigits(l));
    var e, k, shift := ExponentOf(l), |FractionDigits(l)|, Shift(l);
    var d := Value(Digits(l));
    DigitsScaled(l);
    if shift >= 0 {
      PowProduct(shift, k);
      ProductAsReal(d, Pow10(shift));
      ShiftUp(v, Pow10(e) as real, Pow10(k) as real, Pow10(shift) as real, d as real);
    } else if e >= 0 {
      PowProduct(e, -shift);
      ShiftDown(v, Pow10(e) as real, Pow10(k) as real, Pow10(-shift) as real, d as real);
    } else {
      PowProduct(-e, k);
      ShiftFarDown(v, Pow10(-e) as real, Pow10(k) as real, Pow10(-shift) as real, d as real);
    }
  }

  // ---------------------------------------------------------------- lowest terms

  predicate Divides(d: nat, n: nat) {
    d > 0 && n % d == 0
  }

  lemma DividesProduct(d: nat, n: nat, k: int)
    requires d > 0 && n == d * k
    ensures Divides(d, n) && n / d == k
  {
    var q: int, r: int := n / d, n % d;
    assert d * (k - q) == r;
    assert k - q >= 1 ==> d * (k - q) >= d;
    assert q - k >= 1 ==> d * (q - k) >= d;
    assert d * (q - k) == -(d * (k - q));
  }

  /** One step of Euclid's loop keeps the common divisors. */
  lemma EuclidStep(d: nat, a: nat, b: nat)
    requires b > 0
    ensures Divides(d, a) && Divides(d, b) <==> Divides(d, b) && Divides(d, a % b)
  {
    if d > 0 && b % d == 0 {
      var q, m := a / b, b / d;
      assert b == d * m;
      assert a == b * q + a % b;
      if a % d == 0 {
        assert a == d * (a / d);
        assert a % b == d * (a / d) - (d * m) * q == d * (a / d - m * q);
        assert d * (a / d - m * q) >= 0;
        DividesProduct(d, a % b, a / d - m * q);
      }
      if a % b % d == 0 {
        var k := a % b / d;
        assert a % b == d * k;
        assert a == (d * m) * q + d * k == d * (m * q + k);
        DividesProduct(d, a, m * q + k);
      }
    }
  }

  datatype Rational = Rational(num: nat, den: nat)

  /** No common divisor but 1. */
  ghost predicate Coprime(a: nat, b: nat) {
    forall d :: Divides(d, a) && Divides(d, b) ==> d == 1
  }

  ghost predicate SameDivisor(k: nat, a: nat, b: nat, c: nat, d: nat) {
    Divides(k, a) && Divides(k, b) <==> Divides(k, c) && Divides(k, d)
  }

  /** `g` is the greatest common divisor: it divides both, and every common divisor divides it. */
  ghost predicate IsGcd(g: nat, a: nat, b: nat) {
    g > 0 && forall k {:trigger Divides(k, g)} :: Divides(k, a) && Divides(k, b) <==> Divides(k, g)
  }

  /** The source's loop: `[a, b] = [b, a % b]` until `b` is 0. */
  method Euclid(num: nat, den: nat) returns (a: nat)
    requires den > 0
    ensures IsGcd(a, num, den)
  {
    a := num;
    var b: nat := den;
    while b != 0
      invariant a > 0 || b > 0
      invariant forall k :: SameDivisor(k, num, den, a, b)
    {
      forall k: nat ensures SameDivisor(k, num, den, b, a % b) {
        assert SameDivisor(k, num, den, a, b);
        EuclidStep(k, a, b);
      }
      a, b := b, a % b;
    }
    forall k: nat ensures Divides(k, num) && Divides(k, den) <==> Divides(k, a) {
      assert SameDivisor(k, num, den, a, 0);
    }
  }

  lemma DividesSelf(g: nat)
    requires g > 0
    ensures Divides(g, g)
  {
    DividesProduct(g, g, 1);
  }

  /** Dividing both sides by their greatest common divisor leaves lowest terms. */
  lemma LowestTerms(num: nat, den: nat, g: nat)
    requires den > 0 && IsGcd(g, num, den)
    ensures num / g * g == num && den / g * g == den && den / g > 0
    ensures Coprime(num / g, den / g)
    ensures den / g == 1 <==> num % den == 0
    ensures den / g == 1 ==> num / g == num / den
  {
    DividesSelf(g);
    var m, n := num / g, den / g;
    assert num == g * m && den == g * n;
    forall d | Divides(d, m) && Divides(d, n) ensures d == 1 {
      CommonDivisorIsOne(g, m, n, d, num, den);
    }
    if num % den == 0 {
      DividesSelf(den);
      assert Divides(den, num) && Divides(den, den);
      assert Divides(den, g);
      DividesAtMost(den, g);
      DividesAtMost(g, den);
    }
    if n == 1 {
      assert den == g;
    }
  }

  lemma DividesAtMost(d: nat, n: nat)
    requires Divides(d, n) && n > 0
    ensures d <= n
  { }

  lemma CommonDivisorIsOne(g: nat, m: nat, n: nat, d: nat, num: nat, den: nat)
    requires IsGcd(g, num, den) && num == g * m && den == g * n
    requires Divides(d, m) && Divides(d, n)
    ensures d == 1
  {
    var i, j, p := m / d, n / d, g * d;
    assert m == d * i && n == d * j;
    Products(g, d, i);
    Products(g, d, j);
    hide Divides;
    DividesProduct(p, num, i);
    DividesProduct(p, den, j);
    assert Divides(p, g);
    DividesAtMost(p, g);
  }

  lemma Products(g: nat, d: nat, i: nat)
    requires g > 0 && d > 0
    ensures g * (d * i) == (g * d) * i && g * d > 0 && (g * d <= g ==> d == 1)
  {
    assert d >= 2 ==> g * d >= g * 2;
  }

  // ---------------------------------------------------------------- the two entry points

  lemma ScaleBack(x: real, num: nat, den: nat, g: nat, m: nat, n: nat)
    requires g > 0 && num == m * g && den == n * g && x * den as real == num as real
    ensures x * n as real == m as real
  {
    ProductAsReal(m, g);
    ProductAsReal(n, g);
    var p := g as real;
    assert (x * n as real) * p == x * (n as real * p);
    assert (x * n as real - m as real) * p == 0.0;
  }

  /** The literal a text is, if it is one. */
  function Parse(text: string): (l: Option<Literal>)
    ensures l.Some? ==> WellFormed(l.value) && Text(l.value) == text
  {
    var l := Match(text);
    if l.Some? then MatchedIsText(text); l else None
  }

  /** The guard against pathological exponents. */
  predicate WithinCap(l: Literal)
    requires WellFormed(l)
  {
    -CAP <= Shift(l) <= CAP
  }

  // ---------------------------------------------------------------- the value, read off the text

  /** The digits of a run, read from left to right onto `acc`; underscores are passed over. */
  function Read(run: string, acc: nat): nat
    requires forall c :: c in run ==> IsRunChar(c)
  {
    if run == "" then acc
    else
      assert run[0] in run && forall c :: c in run[1..] ==> c in run;
      if '0' <= run[0] <= '9' then Read(run[1..], 10 * acc + (run[0] - '0') as nat) else Read(run[1..], acc)
  }

  function CountDigits(run: string): nat {
    if run == "" then 0 else (if '0' <= run[0] <= '9' then 1 else 0) + CountDigits(run[1..])
  }

  function FractionRun(l: Literal): string {
    if l.fraction.Some? then l.fraction.value else ""
  }

  /** The power of ten for any whole exponent. */
  function Ten(n: int): (p: real)
    ensures p > 0.0
    decreases if n < 0 then -n else n
  {
    if n == 0 then 1.0 else if n > 0 then 10.0 * Ten(n - 1) else Ten(n + 1) / 10.0
  }

  /** The exponent, negative exactly if it is written with a minus sign. */
  function WrittenExponent(l: Literal): int
    requires WellFormed(l)
  {
    match l.exponent
    case None => 0
    case Some(Exponent(_, Minus, run)) => 0 - Read(run, 0)
    case Some(Exponent(_, _, run)) => Read(run, 0)
  }

  /** What a literal means: its fraction's digits count from the tenths on, and the exponent moves the point. */
  function Meaning(l: Literal): real
    requires WellFormed(l)
  {
    var fraction := FractionRun(l);
    (Read(l.whole, 0) as real + Read(fraction, 0) as real * Ten(0 - CountDigits(fraction))) * Ten(WrittenExponent(l))
  }

  /** The power of ten left once the point is removed. */
  function NetExponent(l: Literal): int
    requires WellFormed(l)
  {
    WrittenExponent(l) - CountDigits(FractionRun(l))
  }

  lemma {:induction false} ReadIs(run: string, acc: nat)
    requires forall c :: c in run ==> IsRunChar(c)
    ensures CountDigits(run) == |Strip(run)|
    ensures Read(run, acc) == acc * Pow10(|Strip(run)|) + Value(Strip(run))
  {
    if run != "" {
      assert run[0] in run && forall c :: c in run[1..] ==> c in run;
      assert IsRunChar(run[0]);
      if IsDigit(run[0]) {
        var d, rest := DigitValue(run[0]), Strip(run[1..]);
        ReadIs(run[1..], 10 * acc + d);
        assert Strip(run) == [run[0]] + rest && Strip(run)[1..] == rest;
        assert Pow10(|rest| + 1) == 10 * Pow10(|rest|) && Value(Strip(run)) == d * Pow10(|rest|) + Value(rest);
        hide Pow10, Value, Strip;
        Distribute(acc, 10, d, Pow10(|rest|));
      } else {
        ReadIs(run[1..], acc);
      }
    }
  }

  lemma {:induction false} TenIs(n: nat)
    ensures Ten(n) == Pow10(n) as real && Ten(0 - n) * Pow10(n) as real == 1.0
  {
    if n > 0 {
      TenIs(n - 1);
      ProductAsReal(10, Pow10(n - 1));
      assert Ten(0 - n) == Ten(1 - n) / 10.0;
      Tenth(Ten(1 - n), Pow10(n - 1) as real);
    } else {
      assert Ten(0) == 1.0;
    }
  }

  lemma Tenth(t: real, p: real)
    requires t * p == 1.0
    ensures t / 10.0 * (10.0 * p) == 1.0
  { }

  lemma Inverse(x: real, p: real, f: real, v: real)
    requires p > 0.0 && x * p == 1.0 && f * p == v
    ensures v * x == f
  {
    assert v * x == f * (p * x);
  }

  lemma ExponentIsWritten(l: Literal)
    requires WellFormed(l)
    ensures ExponentOf(l) == WrittenExponent(l) && Shift(l) == NetExponent(l)
  {
    if l.exponent.Some? {
      ReadIs(l.exponent.value.run, 0);
    }
    if l.fraction.Some? {
      ReadIs(l.fraction.value, 0);
    }
  }

  lemma ReadsDigits(run: string)
    requires forall c :: c in run ==> IsRunChar(c)
    ensures Read(run, 0) == Value(Strip(run)) && CountDigits(run) == |Strip(run)|
  {
    ReadIs(run, 0);
  }

  lemma DigitsOfRuns(l: Literal)
    requires WellFormed(l)
    ensures forall c :: c in FractionRun(l) ==> IsRunChar(c)
    ensures FractionDigits(l) == Strip(FractionRun(l)) && WholeDigits(l) == Strip(l.whole)
  {
    assert Strip("") == "";
  }

  lemma ReadFraction(f: string, v: nat)
    requires AllDigits(f) && v == Value(f)
    ensures FractionValue(f) == v as real * Ten(0 - |f|)
  {
    hide *;
    FractionValueScaled(f);
    TenIs(|f|);
    var x, p, fraction := Ten(0 - |f|), Pow10(|f|) as real, FractionValue(f);
    assert p > 0.0 && x * p == 1.0 && fraction * p == v as real;
    Inverse(x, p, fraction, v as real);
  }

  lemma Scaled(v: real, e: int)
    ensures v * Ten(e) == if e >= 0 then v * Pow10(e) as real else v / Pow10(-e) as real
  {
    if e >= 0 {
      TenIs(e);
    } else {
      TenIs(-e);
      hide Pow10, Ten;
      Inverse(Ten(e), Pow10(-e) as real, v / Pow10(-e) as real, v);
    }
  }

  /** The denoted value is what the text means. */
  lemma DenotesMeaning(l: Literal)
    requires WellFormed(l)
    ensures Denotes(l) == Meaning(l)
  {
    hide Value, Pow10, Read, Strip, FractionValue, Ten, CountDigits, WrittenExponent, ExponentOf;
    DigitsOfRuns(l);
    hide FractionDigits, WholeDigits, FractionRun;
    ExponentIsWritten(l);
    ReadsDigits(l.whole);
    ReadsDigits(FractionRun(l));
    ReadFraction(FractionDigits(l), Value(FractionDigits(l)));
    Scaled(Value(WholeDigits(l)) as real + FractionValue(FractionDigits(l)), ExponentOf(l));
  }

  /** The text is that of a literal whose exponent is within the cap. */
  ghost predicate Denotable(text: string, l: Literal) {
    WellFormed(l) && Text(l) == text && -4096 <= NetExponent(l) <= 4096
  }

  lemma DenotableIff(text: string, l: Literal)
    ensures Denotable(text, l) <==> Parse(text) == Some(l) && WithinCap(l)
  {
    if WellFormed(l) {
      ExponentIsWritten(l);
      if Text(l) == text {
        MatchReadsText(l);
      }
    }
  }

  /** The exact value, in lowest terms with a positive denominator. */
  ghost predicate InLowestTerms(q: Rational, x: real) {
    q.den > 0 && x * q.den as real == q.num as real && Coprime(q.num, q.den)
  }

  ghost predicate IsReduced(q: Rational, l: Literal)
    requires WellFormed(l)
  {
    InLowestTerms(q, Denotes(l))
  }

  /** The literal's exact value in lowest terms, or nothing for a text that is no decimal literal or
      whose net exponent exceeds the cap. */
  method NumericLiteralRational(text: string) returns (r: Option<Rational>)
    ensures r.Some? <==> Parse(text).Some? && WithinCap(Parse(text).value)
    ensures r.Some? ==> IsReduced(r.value, Parse(text).value)
    ensures r.Some? <==> exists l :: Denotable(text, l)
    ensures r.Some? ==> forall l :: Denotable(text, l) ==> InLowestTerms(r.value, Meaning(l))
  {
    hide Value, Pow10, Digits, Denotes, Parse, ExponentOf, FractionDigits, Meaning, Denotable;
    forall l ensures Denotable(text, l) <==> Parse(text) == Some(l) && WithinCap(l) {
      DenotableIff(text, l);
    }
    var m := Parse(text);
    if m.None? {
      return None;
    }
    var l := m.value;
    var shift := Shift(l);
    if shift > CAP || -shift > CAP {
      return None;
    }
    var num: nat, den: nat := Value(Digits(l)), 1;
    if shift >= 0 {
      num := num * Pow10(shift);
    } else {
      den := Pow10(-shift);
    }
    UnreducedIsExact(l);
    DenotesMeaning(l);
    var g := Euclid(num, den);
    LowestTerms(num, den, g);
    ScaleBack(Denotes(l), num, den, g, num / g, den / g);
    return Some(Rational(num / g, den / g));
  }

  function WholeOf(num: nat, den: nat): Option<nat>
    requires den > 0
  {
    if num % den == 0 then Some(num / den) else None
  }

  /** The integer a literal denotes, if it denotes one. */
  function NumericLiteralWholeValue(text: string): Option<nat> {
    match Parse(text)
    case None => None
    case Some(l) =>
      if !WithinCap(l) then None
      else if Shift(l) >= 0 then Some(Unreduced(l).0)
      else WholeOf(Value(Digits(l)), Pow10(-Shift(l)))
  }

  lemma WholeIffIntegral(num: nat, den: nat, q: Rational, v: nat)
    requires den > 0 && q.den > 0 && Coprime(q.num, q.den) && q.num * den == num * q.den
    ensures WholeOf(num, den) == Some(v) <==> q == Rational(v, 1)
  {
    if num % den == 0 {
      var k := num / den;
      assert num == den * k;
      assert q.num * den == (k * q.den) * den;
      assert q.num == k * q.den;
      DividesProduct(q.den, q.num, k);
      DividesSelf(q.den);
      assert Divides(q.den, q.num) && Divides(q.den, q.den);
      assert q.den == 1;
    }
    if q.den == 1 {
      DividesProduct(den, num, q.num);
    }
  }

  /** The two readings of a literal agree: it has an integer value exactly when its reduced
      denominator is 1, and then that value is the reduced numerator. */
  lemma WholeValueAgrees(text: string, q: Rational, v: nat)
    requires Parse(text).Some? && WithinCap(Parse(text).value) && IsReduced(q, Parse(text).value)
    ensures NumericLiteralWholeValue(text) == Some(v) <==> q == Rational(v, 1)
  {
    hide Value, Pow10, Digits, Denotes, Parse, ExponentOf, FractionDigits, WholeOf, Coprime;
    var l := Parse(text).value;
    UnreducedIsExact(l);
    var (num, den) := Unreduced(l);
    CrossMultiply(Denotes(l), num, den, q.num, q.den);
    WholeIffIntegral(num, den, q, v);
    if Shift(l) >= 0 {
      WholeOfOne(num);
    }
  }

  /** On every text: the result is `v` exactly if the text is a literal within the cap that means `v`. */
  lemma WholeValueMeaning(text: string, v: nat)
    ensures NumericLiteralWholeValue(text) == Some(v) <==> exists l :: Denotable(text, l) && Meaning(l) == v as real
  {
    hide Value, Pow10, Digits, Denotes, Parse, ExponentOf, FractionDigits, WholeOf, Meaning, Denotable;
    forall l ensures Denotable(text, l) <==> Parse(text) == Some(l) && WithinCap(l) {
      DenotableIff(text, l);
    }
    if Parse(text).Some? {
      var l := Parse(text).value;
      var (num, den) := Unreduced(l);
      UnreducedIsExact(l);
      DenotesMeaning(l);
      ExactQuotient(Meaning(l), num, den, v);
      WholeOfIff(num, den, v);
      if Shift(l) >= 0 {
        WholeOfOne(num);
      }
    }
  }

  lemma WholeOfIff(num: nat, den: nat, v: nat)
    requires den > 0
    ensures WholeOf(num, den) == Some(v) <==> num == den * v
  {
    if num == den * v {
      DividesProduct(den, num, v);
    }
  }

  lemma ExactQuotient(x: real, num: nat, den: nat, v: nat)
    requires den > 0 && x * den as real == num as real
    ensures x == v as real <==> num == den * v
  {
    ProductAsReal(den, v);
    if num == den * v {
      assert (x - v as real) * den as real == 0.0;
    }
  }

  lemma WholeOfOne(n: nat)
    ensures WholeOf(n, 1) == Some(n)
  { }

  lemma CrossMultiply(x: real, a: nat, b: nat, c: nat, d: nat)
    requires x * b as real == a as real && x * d as real == c as real
    ensures c * b == a * d
  {
    ProductAsReal(c, b);
    ProductAsReal(a, d);
    assert (x * d as real) * b as real == (x * b as real) * d as real;
  }
}
