/** Decimal numerals, as the conversions %d, %i and %lu write them. */
module Decimal {
  import opened CText

  function Digits(n: nat): (t: string)
    ensures t != "" && AllDigits(t)
    ensures n > 0 ==> t[0] != '0'
  {
    if n < 10 then [('0' as nat + n) as char] else Digits(n / 10) + [('0' as nat + n % 10) as char]
  }

  predicate AllDigits(t: string) {
    forall i | 0 <= i < |t| :: IsDigit(t[i])
  }

  function IntText(n: int): string {
    if n < 0 then "-" + Digits(-n) else Digits(n)
  }

  /** The number that a row of digits continues to from `n`: each digit multiplies by ten and adds. */
  function Accumulate(n: nat, t: string): nat
    requires AllDigits(t)
    decreases |t|
  {
    if t == "" then n else Accumulate(n * 10 + DigitValue(t[0]), t[1..])
  }

  function DigitsValue(t: string): nat
    requires AllDigits(t)
  {
    Accumulate(0, t)
  }

  lemma {:induction false} AccumulateConcat(n: nat, s: string, t: string)
    requires AllDigits(s) && AllDigits(t)
    ensures AllDigits(s + t)
    ensures Accumulate(n, s + t) == Accumulate(Accumulate(n, s), t)
    decreases |s|
  {
    if s == "" {
      assert s + t == t;
    } else {
      assert (s + t)[1..] == s[1..] + t;
      AccumulateConcat(n * 10 + DigitValue(s[0]), s[1..], t);
    }
  }

  lemma AccumulateOne(n: nat, d: nat)
    requires d < 10
    ensures var t := [('0' as nat + d) as char]; AllDigits(t) && Accumulate(n, t) == n * 10 + d
  {
    var t := [('0' as nat + d) as char];
    assert t[1..] == "";
    assert Accumulate(n, t) == Accumulate(n * 10 + d, "");
  }

  /** Reading a numeral back gives its number. */
  lemma {:induction false} DigitsValueOfDigits(n: nat)
    ensures DigitsValue(Digits(n)) == n
  {
    if n < 10 {
      AccumulateOne(0, n);
    } else {
      DigitsValueOfDigits(n / 10);
      AccumulateConcat(0, Digits(n / 10), [('0' as nat + n % 10) as char]);
      AccumulateOne(n / 10, n % 10);
    }
  }

  lemma {:induction false} DigitsLength(n: nat, k: nat, bound: nat)
    requires k >= 1 && n < bound && bound == Pow10(k)
    ensures |Digits(n)| <= k
    decreases k
  {
    if n >= 10 {
      var tenth := Pow10(k - 1);
      assert bound == 10 * tenth;
      assert k > 1;
      DigitsLength(n / 10, k - 1, tenth);
    }
  }

  function Pow10(k: nat): nat {
    if k == 0 then 1 else 10 * Pow10(k - 1)
  }

  /** Every 32-bit integer fits the 21 bytes that are set aside for it. */
  lemma IntTextFits(n: int)
    requires -0x8000_0000 <= n < 0x8000_0000
    ensures |IntText(n)| <= 11
  {
    assert Pow10(10) == 10_000_000_000;
    DigitsLength(if n < 0 then -n else n, 10, 10_000_000_000);
  }

  // ----- Runs of digits -----

  /** Length of the row of digits that a text starts with. */
  function DigitRun(s: string): (k: nat)
    ensures k <= |s| && AllDigits(s[..k]) && !IsDigit(At(s, k))
    decreases |s|
  {
    if s != "" && IsDigit(s[0]) then 1 + DigitRun(s[1..]) else 0
  }

  lemma {:induction false} DigitRunOfDigits(t: string, rest: string)
    requires AllDigits(t) && !IsDigit(At(rest, 0))
    ensures DigitRun(t + rest) == |t|
  {
    if t == "" {
      assert t + rest == rest;
    } else {
      assert (t + rest)[1..] == t[1..] + rest;
      DigitRunOfDigits(t[1..], rest);
    }
  }

  /** Reads digits into an accumulator and moves past them. */
  method ReadDigits(n0: nat, s0: string) returns (n: nat, s: string)
    ensures n == Accumulate(n0, s0[..DigitRun(s0)]) && s == s0[DigitRun(s0)..]
  {
    n, s := n0, s0;
    while s != "" && IsDigit(s[0])
      invariant s[DigitRun(s)..] == s0[DigitRun(s0)..]
      invariant Accumulate(n, s[..DigitRun(s)]) == Accumulate(n0, s0[..DigitRun(s0)])
      decreases |s|
    {
      assert s[..DigitRun(s)][1..] == s[1..][..DigitRun(s[1..])];
      n, s := n * 10 + DigitValue(s[0]), s[1..];
    }
  }
}
