/** asn_strtol_lim: decimal text to a long of 64 bits. */
module Strtol {
  /** `Overflow`: the computation leaves the range of a long, where C gives no result. */
  datatype Outcome = Success | ExtraData | ErrorRange | ErrorInval | ExpectMore | Overflow

  const LONG_MAX: int := 0x7fff_ffff_ffff_ffff
  const LONG_MIN: int := -0x8000_0000_0000_0000

  predicate InLong(v: int) { LONG_MIN <= v <= LONG_MAX }

  predicate IsDigit(c: char) { '0' <= c <= '9' }

  function DigitOf(c: char): nat
    requires IsDigit(c)
  {
    c as nat - '0' as nat
  }

  predicate AllDigits(s: string) { forall i :: 0 <= i < |s| ==> IsDigit(s[i]) }

  /** The number written by a string of digits. */
  ghost function Value(s: string): nat
    requires AllDigits(s)
  {
    if s == [] then 0 else 10 * Value(s[..|s| - 1]) + DigitOf(s[|s| - 1])
  }

  /** The longest prefix of digits. */
  ghost function DigitPrefix(s: string): string
    ensures AllDigits(DigitPrefix(s)) && DigitPrefix(s) <= s
    ensures |DigitPrefix(s)| < |s| ==> !IsDigit(s[|DigitPrefix(s)|])
  {
    if s == [] || !IsDigit(s[0]) then [] else [s[0]] + DigitPrefix(s[1..])
  }

  /** A proper prefix of the digits of a negative number already reaches LONG_MIN up to the last digit:
      the sign has then been folded into the number, and one digit more overflows. */
  ghost predicate PassesBoundary(digits: string)
    requires AllDigits(digits)
  {
    exists k :: 0 <= k < |digits| && AtBoundary(digits[..k])
  }

  ghost predicate AtBoundary(digits: string)
    requires AllDigits(digits)
  {
    Boundary(Value(digits))
  }

  predicate Boundary(v: nat) { 9223372036854775800 <= v <= 9223372036854775808 }

  lemma ValueStep(s: string, k: nat)
    requires AllDigits(s) && k < |s|
    ensures Value(s[..k + 1]) == 10 * Value(s[..k]) + DigitOf(s[k])
  {
    assert s[..k + 1][..k] == s[..k];
  }

  lemma {:induction false} ValueGrows(s: string, j: nat, k: nat)
    requires AllDigits(s) && j <= k <= |s|
    ensures Value(s[..j]) <= Value(s[..k])
    ensures j < k ==> 10 * Value(s[..j]) + DigitOf(s[j]) <= Value(s[..k])
    decreases k
  {
    if j < k {
      ValueGrows(s, j, k - 1);
      ValueStep(s, k - 1);
    }
  }

  /** What is parsed: the text after a sign, its digits, and the number they make. */
  function Body(s: string): string {
    if s != [] && (s[0] == '-' || s[0] == '+') then s[1..] else s
  }

  ghost function Number(s: string): int {
    var v: int := Value(DigitPrefix(Body(s)));
    if s != [] && s[0] == '-' then -v else v
  }

  /** Exactly the inputs on which the number is computed without overflow. */
  ghost predicate Defined(s: string) {
    s != [] && s[0] == '-' ==> !PassesBoundary(DigitPrefix(Body(s)))
  }

  // ---------- one digit ----------

  /** The running number and sign, or why there is none. */
  datatype Step = Next(l: int, sign: int) | OutOfRange | Overflowing

  /** One turn of the loop of asn_strtol_lim on a digit. */
  function Push(l: int, sign: int, lastDigitMax: int, d: nat): Step {
    if l < LONG_MAX / 10 then
      if InLong(l * 10 + d) then Next(l * 10 + d, sign) else Overflowing
    else if l == LONG_MAX / 10 then
      if d > lastDigitMax then OutOfRange
      else if sign > 0 then Next(l * 10 + d, sign)
      else Next(-l * 10 - d, 1)
    else OutOfRange
  }

  /** `l` and `sign` stand for the digits so far, of value `v`: at the boundary of a negative number the
      sign has been folded in. */
  predicate Stands(neg: bool, v: nat, l: int, sign: int) {
    if neg && sign == 1 then l + v == 0 && Boundary(v)
    else l == v && l <= LONG_MAX && sign == (if neg then -1 else 1) && (neg ==> !Boundary(v))
  }

  lemma PushStands(neg: bool, v: nat, l: int, sign: int, d: nat)
    requires Stands(neg, v, l, sign) && d <= 9
    ensures var step := Push(l, sign, if neg then 8 else 7, d);
      (step.Overflowing? <==> neg && sign == 1) &&
      (step.Next? ==> InLong(step.l) && Stands(neg, 10 * v + d, step.l, step.sign)) &&
      (step.OutOfRange? ==> 10 * v + d > if neg then 9223372036854775808 else LONG_MAX)
  {
  }

  /** The digits before `end` fit a long, those up to and with it do not. */
  ghost predicate OutAt(s: string, end: nat) {
    var d, limit := DigitPrefix(Body(s)), if s != [] && s[0] == '-' then 9223372036854775808 else LONG_MAX;
    var i := end - (|s| - |Body(s)|);
    0 <= i < |d| && Value(d[..i]) <= limit < Value(d[..i + 1])
  }

  /** asn_strtol_lim on the text from `str` to `*end`: the new `*end` as an offset, and `*lp`. */
  method StrtolLim(s: string) returns (r: Outcome, end: nat, lp: int)
    ensures r == ErrorInval <==> s == ""
    ensures r == ExpectMore <==> s != "" && Body(s) == "" && (s[0] == '-' || s[0] == '+')
    ensures r == Overflow <==> !Defined(s)
    ensures Body(s) != "" && Defined(s) ==> (r == ErrorRange <==> !InLong(Number(s)))
    ensures Body(s) != "" && Defined(s) && InLong(Number(s)) ==>
      lp == Number(s) && end == |s| - |Body(s)| + |DigitPrefix(Body(s))| && (r == Success <==> end == |s|)
    ensures r == ErrorRange ==> OutAt(s, end)
    ensures (r == ErrorInval ==> end == 0) && (r == ExpectMore ==> end == 1) && end <= |s|
  {
    hide Value, DigitPrefix, Stands, Push, Boundary;
    lp, end := 0, |s|;
    if s == [] {
      NoDigits();
      return ErrorInval, |s|, 0;
    }
    var sign, lastDigitMax, str := 1, LONG_MAX % 10, 0;
    if s[0] == '-' {
      lastDigitMax, sign := lastDigitMax + 1, -1;
    }
    if s[0] == '-' || s[0] == '+' {
      str := 1;
      if |s| == 1 {
        NoDigits();
        return ExpectMore, 1, 0;
      }
    }
    var l: int := 0;
    ghost var t, d, start, neg := Body(s), DigitPrefix(Body(s)), str, s[0] == '-';
    assert t == s[start..];
    NothingYet(neg, d);
    while str < |s|
      invariant start <= str <= |s| && str - start <= |d|
      invariant Stands(neg, Value(d[..str - start]), l, sign)
      invariant neg ==> forall k :: 0 <= k < str - start ==> !AtBoundary(d[..k])
    {
      ghost var i := str - start;
      assert s[str] == t[i];
      NextDigit(t, i);
      if !IsDigit(s[str]) {
        assert d[..i] == d;
        NumberStands(s, l, sign);
        return ExtraData, str, sign * l;
      }
      var digit := DigitOf(s[str]);
      PushStands(neg, Value(d[..i]), l, sign, digit);
      ValueStep(d, i);
      var step := Push(l, sign, lastDigitMax, digit);
      match step {
        case Overflowing =>
          FoldedAtBoundary(d, i, neg, l, sign);
          return Overflow, str, 0;
        case OutOfRange =>
          NotFolded(d, i, neg, l, sign);
          RangeFails(d, i, neg);
          OutHere(s, i, l, sign);
          return ErrorRange, str, 0;
        case Next(l', sign') =>
          NotFolded(d, i, neg, l, sign);
          l, sign := l', sign';
      }
      str := str + 1;
    }
    assert |d| == str - start by { WholeDigits(t, str - start); }
    assert d[..str - start] == d;
    NumberStands(s, l, sign);
    r, end, lp := Success, str, sign * l;
  }

  lemma NoDigits()
    ensures DigitPrefix("") == "" && Value("") == 0
  {
  }

  lemma NothingYet(neg: bool, d: string)
    requires AllDigits(d)
    ensures Stands(neg, Value(d[..0]), 0, if neg then -1 else 1)
  {
  }

  lemma NextDigit(t: string, i: nat)
    requires i < |t| && i <= |DigitPrefix(t)|
    ensures IsDigit(t[i]) ==> i < |DigitPrefix(t)| && DigitPrefix(t)[i] == t[i]
    ensures !IsDigit(t[i]) ==> i == |DigitPrefix(t)|
  {
    if i < |DigitPrefix(t)| { assert DigitPrefix(t)[i] == t[i]; }
  }

  lemma WholeDigits(t: string, n: nat)
    requires n == |t| && n <= |DigitPrefix(t)|
    ensures n == |DigitPrefix(t)|
  {
  }

  /** At the end of the digits `sign * l` is their number. */
  lemma NumberStands(s: string, l: int, sign: int)
    requires s != [] && Stands(s[0] == '-', Value(DigitPrefix(Body(s))), l, sign)
    ensures sign * l == Number(s) && InLong(Number(s))
  {
    hide Value, DigitPrefix;
  }

  lemma FoldedAtBoundary(d: string, i: nat, neg: bool, l: int, sign: int)
    requires AllDigits(d) && i < |d| && Stands(neg, Value(d[..i]), l, sign) && neg && sign == 1
    ensures PassesBoundary(d)
  {
    assert AtBoundary(d[..i]);
  }

  lemma NotFolded(d: string, i: nat, neg: bool, l: int, sign: int)
    requires AllDigits(d) && i < |d| && Stands(neg, Value(d[..i]), l, sign) && !(neg && sign == 1)
    ensures neg ==> !AtBoundary(d[..i])
  {
  }

  lemma OutHere(s: string, i: nat, l: int, sign: int)
    requires s != [] && i < |DigitPrefix(Body(s))|
    requires Stands(s[0] == '-', Value(DigitPrefix(Body(s))[..i]), l, sign) && !(s[0] == '-' && sign == 1)
    requires Value(DigitPrefix(Body(s))[..i + 1]) > if s[0] == '-' then 9223372036854775808 else LONG_MAX
    ensures OutAt(s, i + (|s| - |Body(s)|))
  {
    hide Value, DigitPrefix;
  }

  /** Digits past the range stay past it, and past the boundary. */
  lemma RangeFails(d: string, i: nat, neg: bool)
    requires AllDigits(d) && i < |d| && Value(d[..i + 1]) > if neg then 9223372036854775808 else LONG_MAX
    requires neg ==> forall k :: 0 <= k <= i ==> !AtBoundary(d[..k])
    ensures Value(d) > if neg then 9223372036854775808 else LONG_MAX
    ensures neg ==> !PassesBoundary(d)
  {
    ValueGrows(d, i + 1, |d|);
    assert d[..|d|] == d;
    forall k | i < k <= |d|
      ensures neg ==> !AtBoundary(d[..k])
    {
      ValueGrows(d, i + 1, k);
    }
  }

  // ---------- printed numbers ----------

  function DigitChar(d: nat): char
    requires d < 10
  {
    '0' + d as char
  }

  /** The decimal text of a number, as printf writes it. */
  function Decimal(v: nat): string {
    if v < 10 then [DigitChar(v)] else Decimal(v / 10) + [DigitChar(v % 10)]
  }

  function SignedDecimal(v: int): string {
    if v < 0 then "-" + Decimal(-v) else Decimal(v)
  }

  lemma {:induction false} DecimalValue(v: nat)
    ensures AllDigits(Decimal(v)) && Decimal(v) != "" && Value(Decimal(v)) == v
    decreases v
  {
    var s := Decimal(v);
    if v < 10 {
      assert s[..0] == "";
    } else {
      DecimalValue(v / 10);
      assert s[..|s| - 1] == Decimal(v / 10);
    }
  }

  lemma {:induction false} DecimalShortest(v: nat)
    ensures Decimal(v) != "" && (v > 0 ==> Decimal(v)[0] != '0') && (v == 0 ==> Decimal(v) == "0")
    decreases v
  {
    if v >= 10 { DecimalShortest(v / 10); }
  }

  /** The text printed for a number is parsed back to it. */
  lemma SignedDecimalParses(v: int)
    ensures Body(SignedDecimal(v)) != "" && DigitPrefix(Body(SignedDecimal(v))) == Body(SignedDecimal(v))
    ensures Number(SignedDecimal(v)) == v && (InLong(v) ==> Defined(SignedDecimal(v)))
  {
    hide Value, DigitPrefix, Decimal, Boundary;
    var d := Decimal(if v < 0 then -v else v);
    DecimalValue(if v < 0 then -v else v);
    assert IsDigit(d[0]);
    assert Body(SignedDecimal(v)) == d;
    AllDigitsTaken(d);
    if v < 0 && InLong(v) { NoBoundaryInside(d); }
  }

  lemma NoBoundaryInside(d: string)
    requires AllDigits(d) && Value(d) <= 9223372036854775808
    ensures !PassesBoundary(d)
  {
    forall k | 0 <= k < |d|
      ensures !AtBoundary(d[..k])
    {
      ValueGrows(d, k, |d|);
      assert d[..|d|] == d;
    }
  }

  /** One digit after LONG_MIN, "-92233720368547758080": the number does not fit, but the computation
      overflows before a range error is given. */
  lemma DigitAfterMinimum()
    ensures var s := SignedDecimal(LONG_MIN) + "0"; !Defined(s) && !InLong(Number(s))
  {
    hide Value, DigitPrefix, Decimal;
    var m := Decimal(-LONG_MIN);
    var d := m + "0";
    DecimalValue(-LONG_MIN);
    assert Body(SignedDecimal(LONG_MIN) + "0") == d;
    AllDigitsTaken(d);
    ValueStep(d, |m|);
    assert d[..|m|] == m && d[..|m| + 1] == d;
    assert AtBoundary(d[..|m|]);
  }

  lemma {:induction false} AllDigitsTaken(d: string)
    requires AllDigits(d)
    ensures DigitPrefix(d) == d
    decreases d
  {
    if d != [] {
      AllDigitsTaken(d[1..]);
      assert d == [d[0]] + d[1..];
    }
  }

  // ---------- characters ----------

  const DIGITS := "0123456789"

  /** A digit has the value of its place in the alphabet, and there are no others. */
  lemma DigitsAre(c: char, d: nat)
    ensures d < 10 ==> IsDigit(DIGITS[d]) && DigitOf(DIGITS[d]) == d && DigitChar(d) == DIGITS[d]
    ensures IsDigit(c) <==> c in DIGITS
  {
    if IsDigit(c) { assert DIGITS[DigitOf(c)] == c; }
  }

  /** A number may have one sign: plus changes nothing, minus negates. */
  lemma SignsAre(v: nat)
    ensures var d := Decimal(v);
      Number(d) == v && Number("+" + d) == v && Number("-" + d) + v == 0 &&
      Body(d) == Body("+" + d) == Body("-" + d) == d && Defined(d) && Defined("+" + d)
  {
    hide Value, DigitPrefix, Decimal;
    DecimalValue(v);
    AllDigitsTaken(Decimal(v));
  }
}
