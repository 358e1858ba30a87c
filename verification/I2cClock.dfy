/** The clock divider of the I2C controller. */
module I2cClock {
  import opened Base
  import opened Division

  /** The prescaler that calcdivisor takes for a quotient of clock and wanted frequency. */
  function Prescaler(q: nat): nat
  {
    if q > 256 then 512 else 16
  }

  /** `divs` is the least divider that, with the prescaler, divides by `q` or more. */
  predicate IsLeastDivider(divs: nat, q: nat)
  {
    divs >= 1 && divs * Prescaler(q) >= q && forall d :: 1 <= d < divs ==> d * Prescaler(q) < q
  }

  /** Rounding up the quotient `q` on 32-bit words, and the limits of the divider field. */
  function DividerFor(q: nat): nat
  {
    var d := ((q + Prescaler(q) - 1) % TWO32) / Prescaler(q);
    if d == 0 then 1 else if d > 17 then 17 else d
  }

  lemma DividerIsLeast(q: nat)
    requires q < TWO32
    ensures 1 <= DividerFor(q) <= 17
    ensures IsLeastDivider(DividerFor(q), q) <==> q <= 17 * Prescaler(q)
    ensures 17 * Prescaler(q) < q ==> DividerFor(q) == if q + 511 < TWO32 then 17 else 1
  {
  }

  /** A setting of the hardware: one of two prescalers, and a divider of four bits. */
  predicate IsSetting(p: nat, d: nat)
  {
    (p == 16 || p == 512) && 1 <= d <= 16
  }

  /** Of the settings that reach the quotient, none divides by less. */
  ghost predicate IsBestSetting(factor: nat, q: nat)
  {
    forall p: nat, d: nat :: IsSetting(p, d) && p * d >= q ==> q <= factor <= p * d
  }

  lemma SettingIsBest(q: nat)
    requires q < TWO32
    ensures IsBestSetting(DividerFor(q) * Prescaler(q), q)
  {
    forall p: nat, d: nat | IsSetting(p, d) && p * d >= q
      ensures q <= DividerFor(q) * Prescaler(q) <= p * d
    {
      BestAgainst(q, p, d);
    }
  }

  lemma BestAgainst(q: nat, p: nat, d: nat)
    requires q < TWO32 && IsSetting(p, d) && p * d >= q
    ensures q <= DividerFor(q) * Prescaler(q) <= p * d
  {
    DividerIsLeast(q);
    var v := DividerFor(q);
    hide DividerFor;
    if p == 16 || q > 256 {
      assert Prescaler(q) == p;
      MulMono(d, 16, p);
      assert d * Prescaler(q) >= q;
      MulMono(v, d, p);
    } else {
      assert Prescaler(q) == 16 && 512 <= p * d;
    }
  }

  /** And none comes closer to the wanted frequency from below. */
  ghost predicate IsClosest(n: nat, q: nat, freq: nat)
  {
    forall p: nat, d: nat :: IsSetting(p, d) && p * d >= q ==> n / (p * d) <= freq
  }

  lemma NoneCloser(n: nat, q: nat, factor: nat)
    requires IsBestSetting(factor, q) && factor > 0
    ensures IsClosest(n, q, n / factor)
  {
    forall p: nat, d: nat | IsSetting(p, d) && p * d >= q
      ensures n / (p * d) <= n / factor
    {
      MulMono(1, d, p);
      QuotientAntitone(n, factor, p * d);
    }
  }

  /** The largest quotient wraps around to the smallest divider. */
  lemma DividerWraps()
    ensures DividerFor(TWO32 - 1) == 1 && !IsLeastDivider(1, TWO32 - 1)
  {
  }

  /** 1616 kHz and a target of 100 kHz: the quotient of 16 is exact for the divider, and gives 101 kHz. */
  lemma ExactAboveTarget()
    ensures DividerFor(1616 / 100) * Prescaler(1616 / 100) == 1616 / 100 && DividedBy(1616, 100, 16, 101)
  {
  }

  lemma QuotientBound(n: nat, w: nat, p: nat)
    requires w > 0 && p > n / w
    ensures n / p <= w
  {
    DivReaches(n, w, n / w + 1);
    MulMono(n / w + 1, p, w);
    assert (w + 1) * p == p * w + p;
    DivReaches(n, p, w + 1);
  }

  lemma QuotientSmaller(n: nat, w: nat)
    requires w > 0
    ensures n / w <= n
  {
    DivReaches(n, w, n + 1);
    MulMono(1, w, n + 1);
  }

  lemma QuotientExact(n: nat, w: nat)
    requires w > 0 && n / w > 0
    ensures n / (n / w) == w + (n % w) / (n / w)
  {
    var q, r := n / w, n % w;
    var t := r / q;
    assert n == q * w + r;
    DivReaches(r, q, t);
    DivReaches(r, q, t + 1);
    assert (w + t) * q == q * w + t * q;
    assert (w + t + 1) * q == q * w + (t + 1) * q;
    DivReaches(n, q, w + t);
    DivReaches(n, q, w + t + 1);
  }

  /** The frequency `f` that a division by `p` gives, against `w`, whose quotient is `n / w`. */
  predicate DividedBy(n: nat, w: nat, p: nat, f: nat)
    requires w > 0 && p > 0
  {
    && f == n / p
    && (p > n / w ==> f <= w)
    && (p == n / w ==> f == w + (n % w) / (n / w))
  }

  lemma FrequencyBy(n: nat, w: nat, p: nat)
    requires w > 0 && p > 0
    ensures DividedBy(n, w, p, n / p)
  {
    if p > n / w {
      QuotientBound(n, w, p);
    } else if p == n / w {
      QuotientExact(n, w);
    }
  }

  /** The prescaler and the divider for a quotient, rounded up on 32-bit words. */
  method RoundUp(q: nat) returns (div1: nat, divs: nat)
    requires q < TWO32
    ensures div1 == Prescaler(q) && 1 <= divs <= 17 && divs * div1 > 0
    ensures IsLeastDivider(divs, q) <==> q <= 17 * div1
    ensures 17 * div1 < q ==> divs == if q + 511 < TWO32 then 17 else 1
    ensures IsBestSetting(divs * div1, q)
  {
    divs := q;
    if divs > 16 * 16 {
      div1 := 512;
    } else {
      div1 := 16;
    }
    divs := (divs + div1 - 1) % TWO32;
    divs := divs / div1;
    if divs == 0 {
      divs := 1;
    }
    if divs > 17 {
      divs := 17;
    }
    assert divs == DividerFor(q);
    DividerIsLeast(q);
    SettingIsBest(q);
    MulMono(1, divs, div1);
  }

  /**
   * s3c24xx_i2c_calcdivisor on 32-bit words. With `q` the quotient of the frequencies, the
   * divider is the least one reaching it, unless limited to 17; the rounding up wraps around
   * only for quotients within 511 of the word size.
   */
  method CalcDivisor(clkin: nat, wanted: nat) returns (freq: nat, div1: nat, divs: nat)
    requires clkin < TWO32 && 0 < wanted < TWO32
    ensures (div1 == 16 || div1 == 512) && 1 <= divs <= 17
    ensures IsBestSetting(divs * div1, clkin / wanted) && IsClosest(clkin, clkin / wanted, freq)
    ensures div1 == Prescaler(clkin / wanted)
    ensures IsLeastDivider(divs, clkin / wanted) <==> clkin / wanted <= 17 * div1
    ensures 17 * div1 < clkin / wanted ==> divs == if clkin / wanted + 511 < TWO32 then 17 else 1
    ensures divs * div1 > 0 && DividedBy(clkin, wanted, divs * div1, freq)
  {
    hide IsLeastDivider, DividedBy, IsBestSetting, IsClosest;
    QuotientSmaller(clkin, wanted);
    var quotient := clkin / wanted;
    div1, divs := RoundUp(quotient);
    NoneCloser(clkin, quotient, divs * div1);
    freq := Divide(clkin, wanted, divs * div1);
  }

  method Divide(clkin: nat, wanted: nat, factor: nat) returns (freq: nat)
    requires wanted > 0 && factor > 0
    ensures DividedBy(clkin, wanted, factor, freq) && freq == clkin / factor
  {
    FrequencyBy(clkin, wanted, factor);
    freq := clkin / factor;
  }

  /**
   * s3c24xx_i2c_clockrate: `rate` and `desired` in Hz, the rest in kHz. Success means a
   * frequency no higher than the target; an exact division may exceed it by its remainder.
   */
  method ClockRate(rate: nat, desired: nat) returns (err: int, got: nat, div1: nat, divs: nat)
    requires rate < TWO32 && desired < TWO32 && (desired == 0 || desired >= 1000)
    ensures var clkin, target := rate / 1000, (if desired == 0 then 100000 else desired) / 1000;
            var q := clkin / target;
            && (err == 0 || err == -EINVAL)
            && (err == 0 ==> got <= target && divs * div1 > 0 && got == clkin / (divs * div1))
            && (q <= 17 * div1 ==> IsLeastDivider(divs, q))
            && (q <= 17 * div1 ==> (err == 0 <==> divs * div1 > q || clkin % target < q))
            && (q > 17 * div1 ==> (err == 0 <==> clkin / (17 * 512) <= target))
    // no setting that reaches the quotient comes closer to the target
    ensures var clkin, target := rate / 1000, (if desired == 0 then 100000 else desired) / 1000;
            err == 0 ==> IsClosest(clkin, clkin / target, got)
  {
    hide IsClosest, IsBestSetting;
    var clkin := rate / 1000;
    var target := (if desired != 0 then desired else 100000) / 1000;
    var freq;
    freq, div1, divs := CalcDivisor(clkin, target);
    got := 0;
    QuotientSmaller(clkin, target);
    if divs * div1 == clkin / target {
      DivReaches(clkin % target, clkin / target, 1);
    }
    if freq > target {
      return -EINVAL, got, div1, divs;
    }
    got := freq;
    return 0, got, div1, divs;
  }
}
