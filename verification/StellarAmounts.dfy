/** Stroop amounts in `src/clients/horizon-contract-client.ts` and `src/utils/amount.ts`: the printed
    decimal, the two parsers that read it, and the slippage guard. */
module StellarAmounts {
  import opened Results
  import opened Decimal
  import JsText

  const STROOPS_PER_XLM := 10_000_000
  const MAX_MINOR_AMOUNT := 100_000_000_000_000

  datatype Amount = Missing | Number(value: real) | Text(text: string)

  datatype AmountError = InvalidAmount

  // ---------------------------------------------------------------- printing

  function FormatXlm(stroops: int): string {
    var sign := if stroops < 0 then "-" else "";
    var abs := if stroops < 0 then -stroops else stroops;
    sign + ToString(abs / STROOPS_PER_XLM) + "." + PadStart(ToString(abs % STROOPS_PER_XLM), 7)
  }

  // ---------------------------------------------------------------- parsing

  /** The position of the first dot, or the length. */
  function FirstDot(s: string): (i: nat)
    ensures i <= |s|
    ensures i < |s| ==> s[i] == '.'
    ensures forall k :: 0 <= k < i ==> s[k] != '.'
  {
    if s == "" || s[0] == '.' then 0 else 1 + FirstDot(s[1..])
  }

  /** Digits, a dot and one to seven digits. */
  predicate IsFraction(s: string) {
    var d := FirstDot(s);
    && 0 < d < |s| && AllDigits(s[..d])
    && 1 <= |s| - d - 1 <= 7 && AllDigits(s[d + 1..])
  }

  lemma {:induction false} PadEndDigits(s: string, n: nat)
    requires AllDigits(s) && |s| <= n
    ensures |PadEnd(s, n)| == n && AllDigits(PadEnd(s, n))
    ensures ParseInt(PadEnd(s, n)) == ParseInt(s) * Pow10(n - |s|)
    decreases n - |s|
  {
    if |s| < n {
      var t := s + "0";
      PadEndDigits(t, n);
      assert t[..|s|] == s;
      assert ParseInt(t) == 10 * ParseInt(s);
      MoveTen(ParseInt(s), Pow10(n - |t|));
    }
  }

  lemma MoveTen(a: nat, b: nat)
    ensures 10 * a * b == a * (10 * b) == 10 * (a * b)
  {
  }

  function ParseFraction(s: string): nat
    requires IsFraction(s)
  {
    var d := FirstDot(s);
    PadEndDigits(s[d + 1..], 7);
    ParseInt(s[..d]) * STROOPS_PER_XLM + ParseInt(PadEnd(s[d + 1..], 7))
  }

  function Trunc(x: real): int {
    if x >= 0.0 then x.Floor else -((-x).Floor)
  }

  /** Plain digits are taken as stroops, a number with a dot as XLM. */
  function ParseStellarAmount(amount: Amount): Result<int, AmountError> {
    match amount
    case Missing => Ok(0)
    case Number(value) => Ok(Trunc(value))
    case Text(text) =>
      var s := JsText.Trim(text);
      if s == "" then Ok(0)
      else if AllDigits(s) then Ok(ParseInt(s))
      else if IsFraction(s) then Ok(ParseFraction(s))
      else Err(InvalidAmount)
  }

  /** `parseFromMajorString` for XLM: no trimming, digits are XLM too, and zero is refused. */
  function ParseFromMajorString(s: string): Result<int, AmountError> {
    if s == "" || !(AllDigits(s) || IsFraction(s)) then Err(InvalidAmount)
    else
      var total := if AllDigits(s) then ParseInt(s) * STROOPS_PER_XLM else ParseFraction(s);
      if 0 < total <= MAX_MINOR_AMOUNT then Ok(total) else Err(InvalidAmount)
  }

  // ---------------------------------------------------------------- what a decimal means

  lemma {:induction false} ParseConcat(s: string, t: string)
    requires AllDigits(s) && AllDigits(t)
    ensures AllDigits(s + t) && ParseInt(s + t) == ParseInt(s) * Pow10(|t|) + ParseInt(t)
  {
    if t == "" {
      assert s + t == s;
    } else {
      var n := |t| - 1;
      ParseConcat(s, t[..n]);
      assert (s + t)[..|s + t| - 1] == s + t[..n];
      Horner(ParseInt(s), Pow10(n), ParseInt(t[..n]), DigitValue(t[n]));
    }
  }

  lemma Horner(x: nat, p: nat, y: nat, d: nat)
    ensures 10 * (x * p + y) + d == x * (10 * p) + (10 * y + d)
  {
    MoveTen(x, p);
  }

  lemma {:induction false} Pow10Sum(a: nat, b: nat)
    ensures Pow10(a + b) == Pow10(a) * Pow10(b)
  {
    if a > 0 {
      Pow10Sum(a - 1, b);
      assert Pow10(a + b) == 10 * Pow10(a - 1 + b);
      MoveTen(Pow10(a - 1), Pow10(b));
    }
  }

  lemma SevenZeros()
    ensures Pow10(7) == STROOPS_PER_XLM
  {
    assert Pow10(3) == 1000;
    assert Pow10(6) == 1000 * Pow10(3);
  }

  lemma SplitAtDot(whole: string, fraction: string)
    requires AllDigits(whole)
    ensures var s := whole + "." + fraction;
            FirstDot(s) == |whole| && s[..|whole|] == whole && s[|whole| + 1..] == fraction
  {
    var s := whole + "." + fraction;
    assert s[|whole|] == '.';
    assert forall k :: 0 <= k < |whole| ==> s[k] == whole[k] && s[k] != '.';
  }

  /** Both parsers read whole.fraction as the number the digits spell: without the dot the digits are
      the stroops times ten to the number of digits left out of seven. */
  lemma DecimalMeaning(whole: string, fraction: string)
    requires AllDigits(whole) && whole != "" && AllDigits(fraction) && 1 <= |fraction| <= 7
    ensures var s := whole + "." + fraction;
            && IsFraction(s) && AllDigits(whole + fraction)
            && ParseFraction(s) == ParseInt(whole + fraction) * Pow10(7 - |fraction|)
  {
    SplitAtDot(whole, fraction);
    ParseConcat(whole, fraction);
    PadEndDigits(fraction, 7);
    SevenZeros();
    Pow10Sum(|fraction|, 7 - |fraction|);
    Distribute(ParseInt(whole), Pow10(|fraction|), ParseInt(fraction), Pow10(7 - |fraction|), STROOPS_PER_XLM);
  }

  lemma Distribute(a: nat, b: nat, c: nat, d: nat, product: nat)
    requires product == b * d
    ensures (a * b + c) * d == a * product + c * d
  {
    assert (a * b) * d == a * (b * d);
  }

  // ---------------------------------------------------------------- round trips

  lemma PrintedParts(n: nat)
    ensures var whole, fraction := ToString(n / STROOPS_PER_XLM), PadStart(ToString(n % STROOPS_PER_XLM), 7);
            && FormatXlm(n) == whole + "." + fraction
            && AllDigits(whole) && whole != "" && AllDigits(fraction) && |fraction| == 7
            && ParseInt(whole) == n / STROOPS_PER_XLM && ParseInt(fraction) == n % STROOPS_PER_XLM
  {
    ToStringDigits(n / STROOPS_PER_XLM);
    ToStringDigits(n % STROOPS_PER_XLM);
    SevenZeros();
    ToStringLength(n % STROOPS_PER_XLM, 7);
    PadStartKeepsValue(ToString(n % STROOPS_PER_XLM), 7);
    assert "" + ToString(n / STROOPS_PER_XLM) == ToString(n / STROOPS_PER_XLM);
  }

  lemma PrintedParses(n: nat)
    ensures IsFraction(FormatXlm(n)) && ParseFraction(FormatXlm(n)) == n
  {
    PrintedParts(n);
    var whole, fraction := ToString(n / STROOPS_PER_XLM), PadStart(ToString(n % STROOPS_PER_XLM), 7);
    SplitAtDot(whole, fraction);
    assert PadEnd(fraction, 7) == fraction;
  }

  lemma FractionIsTrimmed(s: string)
    requires IsFraction(s)
    ensures JsText.Trim(s) == s && !AllDigits(s) && s != ""
  {
    var d := FirstDot(s);
    assert s[0] == s[..d][0];
    assert s[|s| - 1] == s[d + 1..][|s| - d - 2];
    JsText.TrimmedIffFixed(s);
    assert !IsDigit(s[d]);
  }

  lemma NegativeIsRefused(n: int)
    requires n < 0
    ensures var s := FormatXlm(n); JsText.Trim(s) == s && s != "" && !AllDigits(s) && !IsFraction(s)
  {
    FractionEnds(-n);
    NegativePrint(-n);
    SignedIsRefused(FormatXlm(-n));
  }

  lemma NegativePrint(n: int)
    requires n > 0
    ensures FormatXlm(-n) == "-" + FormatXlm(n)
  {
    var whole, fraction := ToString(n / STROOPS_PER_XLM), PadStart(ToString(n % STROOPS_PER_XLM), 7);
    assert FormatXlm(n) == "" + whole + "." + fraction;
    assert "-" + whole + "." + fraction == "-" + ("" + whole + "." + fraction);
  }

  lemma SignedIsRefused(t: string)
    requires t != "" && IsDigit(t[|t| - 1])
    ensures var s := "-" + t; JsText.Trim(s) == s && s != "" && !AllDigits(s) && !IsFraction(s)
  {
    var s := "-" + t;
    assert s[0] == '-' && s[|s| - 1] == t[|t| - 1];
    JsText.TrimmedIffFixed(s);
    FractionStarts(s);
  }

  lemma FractionStarts(s: string)
    ensures IsFraction(s) ==> IsDigit(s[0])
  {
    if IsFraction(s) {
      assert s[0] == s[..FirstDot(s)][0];
    }
  }

  lemma FractionEnds(n: nat)
    ensures FormatXlm(n) != "" && IsDigit(FormatXlm(n)[|FormatXlm(n)| - 1])
  {
    PrintedParts(n);
    var fraction := PadStart(ToString(n % STROOPS_PER_XLM), 7);
    assert FormatXlm(n)[|FormatXlm(n)| - 1] == fraction[6];
  }

  /** Reading back what was printed gives the same stroops exactly for non-negative amounts. */
  lemma PrintThenParse(n: int)
    ensures ParseStellarAmount(Text(FormatXlm(n))) == Ok(n) <==> n >= 0
    ensures n < 0 ==> ParseStellarAmount(Text(FormatXlm(n))) == Err(InvalidAmount)
  {
    if n >= 0 {
      PrintedParses(n);
      FractionIsTrimmed(FormatXlm(n));
    } else {
      NegativeIsRefused(n);
    }
  }

  /** The stricter parser reads back exactly the positive amounts up to its limit. */
  lemma PrintThenParseMajor(n: int)
    ensures ParseFromMajorString(FormatXlm(n)) == Ok(n) <==> 0 < n <= MAX_MINOR_AMOUNT
  {
    if n >= 0 {
      PrintedParses(n);
      FractionIsTrimmed(FormatXlm(n));
    } else {
      NegativeIsRefused(n);
    }
  }

  predicate CanonicalWhole(s: string) {
    s != "" && AllDigits(s) && (|s| > 1 ==> s[0] != '0')
  }

  lemma {:induction false} LeadingDigitShows(s: string)
    requires AllDigits(s) && s != "" && s[0] != '0'
    ensures ParseInt(s) >= 1
  {
    if |s| > 1 {
      LeadingDigitShows(s[..|s| - 1]);
    }
  }

  lemma {:induction false} ParseThenToString(s: string)
    requires CanonicalWhole(s)
    ensures ToString(ParseInt(s)) == s
  {
    var n := |s| - 1;
    assert s == s[..n] + [s[n]];
    if n > 0 {
      LeadingDigitShows(s[..n]);
      ParseThenToString(s[..n]);
      assert ParseInt(s) / 10 == ParseInt(s[..n]) && ParseInt(s) % 10 == DigitValue(s[n]);
    } else {
      assert ParseInt(s[..n]) == 0;
    }
  }

  /** Printing what was read gives the same text for every canonical seven-digit decimal. */
  lemma ParseThenPrint(whole: string, fraction: string)
    requires CanonicalWhole(whole) && AllDigits(fraction) && |fraction| == 7
    ensures var s := whole + "." + fraction;
            IsFraction(s) && ParseStellarAmount(Text(s)) == Ok(ParseFraction(s)) && FormatXlm(ParseFraction(s)) == s
  {
    var s := whole + "." + fraction;
    SplitAtDot(whole, fraction);
    FractionIsTrimmed(s);
    assert PadEnd(fraction, 7) == fraction;
    ParseBound(fraction);
    SevenZeros();
    var n := ParseFraction(s);
    assert n == ParseInt(whole) * STROOPS_PER_XLM + ParseInt(fraction);
    assert n / STROOPS_PER_XLM == ParseInt(whole) && n % STROOPS_PER_XLM == ParseInt(fraction);
    ParseThenToString(whole);
    PrintedParts(n);
    ParseInjective(PadStart(ToString(n % STROOPS_PER_XLM), 7), fraction);
  }

  // ---------------------------------------------------------------- the slippage guard

  /** BigInt division truncates toward zero. */
  function TruncDiv(a: int, b: int): int
    requires b > 0
  {
    if a >= 0 then a / b else -((-a) / b)
  }

  function MinDestStroops(quoted: int, toleranceBps: int): int {
    TruncDiv(quoted * (10000 - toleranceBps), 10000)
  }

  /** The least whole amount within the tolerance, rounded down. */
  predicate IsFloorOfTolerance(min: int, quoted: int, toleranceBps: int) {
    10000 * min <= quoted * (10000 - toleranceBps) < 10000 * (min + 1)
  }

  /** The guard rounds down exactly when the tolerance is at most 100 percent or nothing is cut off. */
  lemma GuardRoundsDown(quoted: nat, toleranceBps: int)
    ensures IsFloorOfTolerance(MinDestStroops(quoted, toleranceBps), quoted, toleranceBps) <==>
            toleranceBps <= 10000 || quoted * (toleranceBps - 10000) % 10000 == 0
  {
    var product := quoted * (10000 - toleranceBps);
    assert quoted * (toleranceBps - 10000) == -product;
    if toleranceBps <= 10000 {
      assert product >= 0;
    } else {
      assert product <= 0;
    }
  }

  /** One stroop at 100.01 percent: the guard is zero, one more than rounding down gives. */
  lemma GuardRoundsUp()
    ensures MinDestStroops(1, 10001) == 0 && IsFloorOfTolerance(-1, 1, 10001) && !IsFloorOfTolerance(0, 1, 10001)
  {
    assert TruncDiv(-1, 10000) == 0;
  }

  /** Within 0 to 100 percent the guard lies between nothing and the quote, is the quote at zero
      tolerance, and every payment inside the tolerance meets it. */
  lemma GuardBounds(quoted: nat, toleranceBps: nat, paid: int)
    requires toleranceBps <= 10000
    ensures 0 <= MinDestStroops(quoted, toleranceBps) <= quoted
    ensures MinDestStroops(quoted, 0) == quoted && MinDestStroops(quoted, 10000) == 0
    ensures 10000 * paid >= quoted * (10000 - toleranceBps) ==> paid >= MinDestStroops(quoted, toleranceBps)
    ensures paid >= MinDestStroops(quoted, toleranceBps) ==> 10000 * (paid + 1) > quoted * (10000 - toleranceBps)
  {
    GuardRoundsDown(quoted, toleranceBps);
    assert 0 <= quoted * (10000 - toleranceBps) <= quoted * 10000;
  }

  /** More tolerance never raises the guard. */
  lemma GuardIsAntitone(quoted: nat, a: nat, b: nat)
    requires a <= b <= 10000
    ensures MinDestStroops(quoted, b) <= MinDestStroops(quoted, a)
  {
    assert 0 <= quoted * (10000 - b) <= quoted * (10000 - a);
  }

  /** The guard sent out as text is the guard that was computed. */
  lemma GuardSurvivesPrinting(quoted: nat, toleranceBps: nat)
    requires toleranceBps <= 10000
    ensures ParseStellarAmount(Text(FormatXlm(MinDestStroops(quoted, toleranceBps)))) ==
            Ok(MinDestStroops(quoted, toleranceBps))
  {
    GuardBounds(quoted, toleranceBps, 0);
    PrintThenParse(MinDestStroops(quoted, toleranceBps));
  }
}
