/** Decimal notation of natural numbers. */
module Decimal {

  predicate IsDigit(c: char) {
    '0' <= c <= '9'
  }

  predicate AllDigits(s: string) {
    forall i :: 0 <= i < |s| ==> IsDigit(s[i])
  }

  function DigitChar(d: nat): char
    requires d < 10
  {
    (d + '0' as int) as char
  }

  function DigitValue(c: char): nat
    requires IsDigit(c)
  {
    c as int - '0' as int
  }

  /** `n.toString()`. */
  function ToString(n: nat): string {
    if n < 10 then [DigitChar(n)] else ToString(n / 10) + [DigitChar(n % 10)]
  }

  /** `Number.parseInt(s, 10)` on a string of digits. */
  function ParseInt(s: string): nat
    requires AllDigits(s)
  {
    if s == [] then 0 else 10 * ParseInt(s[..|s| - 1]) + DigitValue(s[|s| - 1])
  }

  /** `s.padStart(n, "0")`. */
  function PadStart(s: string, n: nat): string
    decreases n - |s|
  {
    if |s| >= n then s else PadStart("0" + s, n)
  }

  /** `s.padEnd(n, "0")`. */
  function PadEnd(s: string, n: nat): string
    decreases n - |s|
  {
    if |s| >= n then s else PadEnd(s + "0", n)
  }

  lemma {:induction false} ToStringDigits(n: nat)
    ensures AllDigits(ToString(n)) && ToString(n) != [] && ParseInt(ToString(n)) == n
    ensures n > 0 ==> ToString(n)[0] != '0'
  {
    if n >= 10 {
      ToStringDigits(n / 10);
      var s := ToString(n);
      assert s[..|s| - 1] == ToString(n / 10);
    }
  }

  lemma {:induction false} LeadingZero(s: string)
    requires AllDigits(s)
    ensures AllDigits("0" + s) && ParseInt("0" + s) == ParseInt(s)
  {
    var t := "0" + s;
    if s == [] {
      assert t[..|t| - 1] == [];
    } else {
      LeadingZero(s[..|s| - 1]);
      assert t[..|t| - 1] == "0" + s[..|s| - 1];
    }
  }

  lemma {:induction false} PadStartKeepsValue(s: string, n: nat)
    requires AllDigits(s)
    ensures AllDigits(PadStart(s, n)) && ParseInt(PadStart(s, n)) == ParseInt(s)
    ensures |PadStart(s, n)| == if |s| >= n then |s| else n
    decreases n - |s|
  {
    if |s| < n {
      LeadingZero(s);
      PadStartKeepsValue("0" + s, n);
    }
  }

  function Pow10(n: nat): nat {
    if n == 0 then 1 else 10 * Pow10(n - 1)
  }

  lemma {:induction false} ParseBound(s: string)
    requires AllDigits(s)
    ensures ParseInt(s) < Pow10(|s|)
  {
    if s != [] {
      ParseBound(s[..|s| - 1]);
    }
  }

  /** The number of digits grows with the value, so small numbers have few of them. */
  lemma {:induction false} ToStringLength(n: nat, k: nat)
    requires k > 0 && n < Pow10(k)
    ensures |ToString(n)| <= k
  {
    if n >= 10 {
      ToStringLength(n / 10, k - 1);
    }
  }

  /** Digit strings of equal length are equal when their values are. */
  lemma {:induction false} ParseInjective(s: string, t: string)
    requires AllDigits(s) && AllDigits(t) && |s| == |t| && ParseInt(s) == ParseInt(t)
    ensures s == t
  {
    if s != [] {
      var n := |s| - 1;
      ParseInjective(s[..n], t[..n]);
      assert s == s[..n] + [s[n]] && t == t[..n] + [t[n]];
    }
  }
}
