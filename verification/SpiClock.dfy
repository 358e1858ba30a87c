/** The speed that s3c64xx_spi_setup settles on when the controller divides the clock itself. */
module SpiClock {
  import opened Base
  import opened Division

  const PSR_MASK: nat := 255

  /** Outcome of the negotiation: the error, the speed then stored, and the divider taken. */
  datatype Deal = Deal(err: int, speed: nat, divider: nat)

  /** The speed block of s3c64xx_spi_setup, for a source clock of `clk` Hz. */
  function Negotiate(clk: nat, request: nat): (r: Deal)
    requires clk >= 2 && request > 0
  {
    var half := clk / 2;
    var asked := Min(request, half);
    var psr0 := (half / asked - 1) % 256;
    var psr := if psr0 == PSR_MASK then psr0 - 1 else psr0;
    if asked < half / (psr + 1) && !(psr + 1 < PSR_MASK) then
      Deal(-EINVAL, asked, 0)
    else
      var psr1 := if asked < half / (psr + 1) then psr + 1 else psr;
      DivReaches(half, psr1 + 1, 0);
      var speed := half / (psr1 + 1);
      if asked >= speed then Deal(0, speed, psr1 + 1) else Deal(-EINVAL, asked, 0)
  }

  /** The prescaler field that s3c64xx_spi_config writes, with its own order of divisions. */
  function ConfigPrescaler(clk: nat, speed: nat): nat
    requires speed > 0
  {
    (clk / speed / 2 - 1) % 256
  }

  /** `speed` is what some divider makes of the clock, and no divider comes closer from below. */
  predicate Best(half: nat, request: nat, speed: nat)
  {
    && speed <= request
    && (exists d :: 1 <= d <= 255 && speed == half / d)
    && (forall d :: 1 <= d <= 255 && half / d <= request ==> half / d <= speed)
  }

  predicate Attainable(half: nat, request: nat)
  {
    exists d :: 1 <= d <= 255 && half / d <= request
  }

  /** The slowest speed belongs to the largest divider. */
  lemma AttainableBySlowest(half: nat, request: nat)
    ensures Attainable(half, request) <==> half / 255 <= request
  {
    if d :| 1 <= d <= 255 && half / d <= request {
      QuotientAntitone(half, d, 255);
    }
  }

  /** The quotient of the clock and the speed asked for brackets that speed. */
  lemma Bracket(half: nat, asked: nat)
    requires 0 < asked <= half
    ensures var q := half / asked;
            q >= 1 && half / q >= asked && half / (q + 1) < asked
  {
    var q := half / asked;
    DivReaches(half, asked, 1);
    DivReaches(half, asked, q);
    DivReaches(half, q, asked);
    DivReaches(half, asked, q + 1);
    DivReaches(half, q + 1, asked);
  }

  /** Up to 254, the quotient or its successor is the divider, and it is the best one. */
  lemma SmallQuotient(clk: nat, request: nat)
    requires clk >= 2 && request > 0
    requires (clk / 2) / Min(request, clk / 2) <= 254
    ensures var r := Negotiate(clk, request);
            && r.err == 0 && 1 <= r.divider <= 255 && r.speed == (clk / 2) / r.divider && r.speed > 0
            && Best(clk / 2, request, r.speed)
            && var asked := Min(request, clk / 2);
               var q := (clk / 2) / asked;
               r.divider == if (clk / 2) / q == asked then q else q + 1
  {
    var half := clk / 2;
    var asked := Min(request, half);
    var q := half / asked;
    Bracket(half, asked);
    var r := Negotiate(clk, request);
    assert r.divider == if half / q == asked then q else q + 1;
    DivReaches(half, q, asked + 1);
    MulMono(2, asked + 1, q);
    DivReaches(half, q + 1, 1);
    forall d | 1 <= d <= 255 && half / d <= request
      ensures half / d <= r.speed
    {
      QuotientAntitone(half, 1, d);
      if d < r.divider {
        QuotientAntitone(half, d, q);
      } else {
        QuotientAntitone(half, r.divider, d);
      }
    }
  }

  lemma EdgeDeal(clk: nat, request: nat)
    requires clk >= 2 && request > 0
    requires 255 <= (clk / 2) / Min(request, clk / 2) <= 256
    ensures var half, asked := clk / 2, Min(request, clk / 2);
            Negotiate(clk, request) ==
              if asked < half / 255 then Deal(-EINVAL, asked, 0) else Deal(0, half / 255, 255)
  {
  }

  /** At 255 and 256 only the largest divider is tried. */
  lemma EdgeQuotient(clk: nat, request: nat)
    requires clk >= 2 && request > 0
    requires 255 <= (clk / 2) / Min(request, clk / 2) <= 256
    ensures var half, r := clk / 2, Negotiate(clk, request);
            && (r.err == 0 <==> half / 255 <= request)
            && (r.err == 0 ==> r.divider == 255 && r.speed == half / 255 && r.speed > 0 && Best(half, request, r.speed))
  {
    hide Negotiate;
    EdgeDeal(clk, request);
    var half := clk / 2;
    var asked := Min(request, half);
    Bracket(half, asked);
    QuotientAntitone(half, 1, 255);
    QuotientAntitone(half, 255, half / asked);
    if half / 255 <= request {
      forall d | 1 <= d <= 255 && half / d <= request
        ensures half / d <= half / 255
      {
        QuotientAntitone(half, 1, d);
        QuotientAntitone(half, d, 255);
      }
    }
  }

  /** From 257 on the prescaler wraps around and the request is always refused. */
  lemma LargeQuotient(clk: nat, request: nat)
    requires clk >= 2 && request > 0
    requires (clk / 2) / Min(request, clk / 2) >= 257
    ensures Negotiate(clk, request).err != 0
  {
    var half := clk / 2;
    var asked := Min(request, half);
    var q := half / asked;
    var psr0 := (q - 1) % 256;
    var d := if psr0 == 255 then 255 else psr0 + 1;
    DivReaches(half, asked, q);
    assert q >= 256 + d;
    TooFast(half, asked, q, d);
    if d < 255 {
      TooFast(half, asked, q, d + 1);
    }
  }

  lemma TooFast(half: nat, asked: nat, q: nat, d: nat)
    requires half >= q * asked && asked > 0 && 1 <= d <= 255 && q >= 255 + d
    ensures half / d > asked
  {
    MulMono(255 + d, q, asked);
    MulMono(1, asked, 255);
    assert (255 + d) * asked == 255 * asked + d * asked;
    assert (asked + 1) * d == d * asked + d;
    DivReaches(half, d, asked + 1);
  }

  /**
   * Main result. An accepted speed is the best attainable one; a request is accepted exactly
   * if some divider attains it and the quotient does not exceed 256; and a refused request is
   * left at the clock's limit.
   */
  lemma NegotiateExact(clk: nat, request: nat)
    requires clk >= 2 && request > 0
    ensures var half, r := clk / 2, Negotiate(clk, request);
            && (r.err == 0 <==> Attainable(half, request) && half / Min(request, half) <= 256)
            && (r.err == 0 ==> Best(half, request, r.speed) && r.speed > 0)
            && (r.err == 0 ==> 1 <= r.divider <= 255 && r.speed == half / r.divider)
            && (r.err != 0 ==> r.err == -EINVAL && r.speed == Min(request, half))
  {
    hide Negotiate, Best, Attainable;
    var half := clk / 2;
    var asked := Min(request, half);
    var q := half / asked;
    AttainableBySlowest(half, request);
    if q <= 254 {
      SmallQuotient(clk, request);
      DivReaches(half, asked, 255);
      DivReaches(half, 255, asked + 1);
    } else if q <= 256 {
      EdgeQuotient(clk, request);
    } else {
      LargeQuotient(clk, request);
    }
    DealShape(clk, request);
  }

  lemma DealShape(clk: nat, request: nat)
    requires clk >= 2 && request > 0
    ensures var half, r := clk / 2, Negotiate(clk, request);
            && (r.err == 0 ==> r.divider > 0 && r.speed == half / r.divider)
            && (r.err != 0 ==> r.err == -EINVAL && r.speed == Min(request, half))
  {
  }

  /** A speed that some divider attains, refused because the prescaler wraps around. */
  lemma AttainableRefused()
    ensures Attainable(300, 1) && Negotiate(600, 1).err == -EINVAL
  {
    hide Negotiate, Attainable;
    AttainableBySlowest(300, 1);
    LargeQuotient(600, 1);
    DealShape(600, 1);
  }

  /** With a clock of 130050 Hz or more, refusal means that no divider attains the request. */
  lemma FastClockRefusal(clk: nat, request: nat)
    requires clk / 2 >= 65025 && request > 0
    ensures Negotiate(clk, request).err == 0 <==> Attainable(clk / 2, request)
  {
    hide Negotiate, Best, Attainable;
    var half := clk / 2;
    var asked := Min(request, half);
    NegotiateExact(clk, request);
    AttainableBySlowest(half, request);
    if half / 255 <= request {
      DivReaches(half, 255, asked + 1);
      DivReaches(half, asked, 257);
    }
  }

  /** Where the divider `q + 1` is taken because `q` is too fast, the new quotient is at most one more. */
  lemma NextDivider(half: nat, asked: nat, q: nat)
    requires 0 < asked <= half && q == half / asked && q > 0 && half / q > asked
    ensures half / (q + 1) > 0 && half / (half / (q + 1)) <= q + 2
  {
    DivReaches(half, asked, q + 1);
    DivReaches(half, q, asked + 1);
    QuotientBelow(half, asked, q);
    MulMono(q + 1, asked + 1, q);
    DivReaches(half, q + 1, q);
    var v := half / (q + 1);
    DivReaches(half, q + 1, v + 1);
    Spread(v, q);
    DivReaches(half, v, q + 3);
  }

  lemma QuotientBelow(half: nat, asked: nat, q: nat)
    requires q * (asked + 1) <= half < (q + 1) * asked
    ensures q < asked
  {
  }

  lemma Spread(v: nat, q: nat)
    requires v >= q > 0
    ensures (v + 1) * (q + 1) <= (q + 3) * v
  {
  }

  /** The quotient of an accepted speed is again at most 256. */
  lemma QuotientKept(clk: nat, request: nat)
    requires clk >= 2 && request > 0 && Negotiate(clk, request).err == 0
    ensures Negotiate(clk, request).speed > 0 && (clk / 2) / Negotiate(clk, request).speed <= 256
  {
    hide Negotiate;
    var half := clk / 2;
    var asked := Min(request, half);
    var q := half / asked;
    Bracket(half, asked);
    NegotiateExact(clk, request);
    if q <= 254 {
      SmallQuotient(clk, request);
      if half / q > asked {
        NextDivider(half, asked, q);
      }
    } else {
      EdgeDeal(clk, request);
      DivReaches(half, asked, 255);
      DivReaches(half, 255, asked);
    }
  }

  /** A second setup accepts an accepted speed again, and leaves it alone. */
  lemma SecondSetup(clk: nat, request: nat)
    requires clk >= 2 && request > 0 && Negotiate(clk, request).err == 0
    ensures var speed := Negotiate(clk, request).speed;
            speed > 0 && Negotiate(clk, speed).err == 0 && Negotiate(clk, speed).speed == speed && Settled(clk, speed)
  {
    hide Negotiate;
    var half := clk / 2;
    NegotiateExact(clk, request);
    var r := Negotiate(clk, request);
    QuotientAntitone(half, 1, r.divider);
    QuotientKept(clk, request);
    NegotiateExact(clk, r.speed);
    assert half / r.divider <= r.speed;
  }

  /** A speed that setup leaves as it is; every speed that it has accepted is one, see `SecondSetup`. */
  predicate Settled(clk: nat, speed: nat)
    requires clk >= 2 && speed > 0
  {
    Negotiate(clk, speed).err == 0 && Negotiate(clk, speed).speed == speed
  }

  /** Dividing by the speed and then by two is dividing half the clock by the speed. */
  lemma DivisionOrder(clk: nat, speed: nat)
    requires speed > 0
    ensures clk / speed / 2 == (clk / 2) / speed
  {
    var k, m := clk / speed / 2, (clk / 2) / speed;
    DivReaches(clk, speed, 2 * k);
    DivReaches(clk / 2, speed, k);
    assert (2 * k) * speed == 2 * (k * speed);
    DivReaches(clk / 2, speed, m);
    DivReaches(clk, speed, 2 * m);
    assert (2 * m) * speed == 2 * (m * speed);
  }

  /**
   * The divider that s3c64xx_spi_config works out, with its own order of divisions, gives the
   * very speed that setup has stored. It is the divider that setup has taken exactly if no
   * larger one gives that speed, and always with a clock of 130050 Hz or more, where a second
   * setup takes it again.
   */
  lemma ConfigRecoversDivider(clk: nat, request: nat)
    requires clk >= 2 && request > 0 && Negotiate(clk, request).err == 0
    ensures var half, r := clk / 2, Negotiate(clk, request);
            && r.speed > 0 && half / (ConfigPrescaler(clk, r.speed) + 1) == r.speed
            && (ConfigPrescaler(clk, r.speed) + 1 == r.divider <==> half / (r.divider + 1) < r.speed)
            && (half >= 65025 ==> ConfigPrescaler(clk, r.speed) + 1 == r.divider && Negotiate(clk, r.speed) == r)
  {
    hide Negotiate;
    var half := clk / 2;
    NegotiateExact(clk, request);
    var r := Negotiate(clk, request);
    QuotientKept(clk, request);
    DivisionOrder(clk, r.speed);
    QuotientAntitone(half, 1, r.divider);
    LargestDivider(half, r.divider);
    if half >= 65025 {
      DividerRecovered(half, r.divider);
      SecondSetup(clk, request);
      NegotiateExact(clk, r.speed);
      DividerRecovered(half, Negotiate(clk, r.speed).divider);
    }
  }

  /** Of the dividers that give the same speed, the quotient by that speed is the largest. */
  lemma LargestDivider(half: nat, d: nat)
    requires d > 0 && half / d > 0
    ensures var v := half / d;
            && half / v > 0 && half / (half / v) == v
            && (half / v == d <==> half / (d + 1) < v)
  {
    var v := half / d;
    QuotientAntitone(half, 1, d);
    Bracket(half, v);
    var q := half / v;
    DivReaches(half, d, v);
    DivReaches(half, v, d);
    QuotientAntitone(half, d, q);
    if q != d {
      QuotientAntitone(half, d + 1, q);
    }
  }

  /**
   * The speed that config gives to a transfer, for any speed that it asks for: exactly that one
   * if and only if some divider gives it and the quotient is from 1 to 256, and otherwise a
   * faster one, except that a speed above the clock gets the slowest.
   */
  lemma OwnSpeedExact(clk: nat, speed: nat)
    requires clk >= 2 && speed > 0
    ensures var half, got := clk / 2, (clk / 2) / (ConfigPrescaler(clk, speed) + 1);
            && (got == speed <==> half / speed <= 256 && IsAttained(half, speed))
            && (speed <= half ==> got >= speed)
            && (speed > half ==> got == half / 256)
  {
    hide ConfigPrescaler;
    DivisionOrder(clk, speed);
    PrescalerOf(clk, speed);
    OwnSpeedBy(clk / 2, speed, ConfigPrescaler(clk, speed) + 1);
  }

  lemma OwnSpeedBy(half: nat, speed: nat, e: nat)
    requires speed > 0 && IsPrescaler(half / speed, e)
    ensures half / e == speed <==> half / speed <= 256 && IsAttained(half, speed)
    ensures speed <= half ==> half / e >= speed
    ensures speed > half ==> half / e == half / 256
  {
    hide IsAttained;
    DivReaches(half, speed, 1);
    if half < speed {
      NotAttained(half, speed);
    } else if half / speed <= 256 {
      AttainedByQuotient(half, speed);
    } else {
      WrappedTooFast(half, speed, e);
    }
  }

  /** The divider that the eight bits of the prescaler make of a quotient. */
  predicate IsPrescaler(q: nat, e: nat)
  {
    1 <= e <= 256 && (q == 0 ==> e == 256) && (1 <= q <= 256 ==> e == q) && (q > 256 ==> q >= 256 + e)
  }

  ghost predicate IsAttained(half: nat, speed: nat)
  {
    exists d :: d > 0 && half / d == speed
  }

  lemma NotAttained(half: nat, speed: nat)
    requires speed > half
    ensures !IsAttained(half, speed) && half / 256 < speed
  {
    forall d | d > 0
      ensures half / d != speed
    {
      QuotientAntitone(half, 1, d);
    }
    QuotientAntitone(half, 1, 256);
  }

  lemma AttainedByQuotient(half: nat, speed: nat)
    requires 0 < speed <= half
    ensures half / speed > 0 && half / (half / speed) >= speed
    ensures half / (half / speed) == speed <==> IsAttained(half, speed)
  {
    Bracket(half, speed);
    if d :| d > 0 && half / d == speed {
      LargestDivider(half, d);
    }
  }

  lemma PrescalerOf(clk: nat, speed: nat)
    requires clk >= 2 && speed > 0 && clk / speed / 2 == (clk / 2) / speed
    ensures IsPrescaler((clk / 2) / speed, ConfigPrescaler(clk, speed) + 1)
  {
  }

  lemma WrappedTooFast(half: nat, speed: nat, e: nat)
    requires speed > 0 && 1 <= e <= 256 && half / speed >= 256 + e
    ensures half / e > speed
  {
    DivReaches(half, speed, 256 + e);
    MulMono(1, speed, 256);
    assert (256 + e) * speed == 256 * speed + e * speed;
    assert (speed + 1) * e == e * speed + e;
    DivReaches(half, e, speed + 1);
  }

  /** With a clock of 2000 Hz, a transfer that asks for 300 Hz runs at 333. */
  lemma OwnSpeedTooFast()
    ensures 1000 / (ConfigPrescaler(2000, 300) + 1) == 333
  {
  }

  /** A clock of 16 Hz and a request for 3: setup takes a divider of 3, config one of 4, for the same speed. */
  lemma OtherDivider()
    ensures Negotiate(16, 3) == Deal(0, 2, 3) && ConfigPrescaler(16, 2) + 1 == 4 && 8 / 4 == 2
  {
    assert ConfigPrescaler(16, 2) == 3;
    hide ConfigPrescaler;
    assert 8 / Min(3, 8) == 2 && 8 / 2 == 4;
    assert 8 / 3 == 2;
  }

  lemma DividerRecovered(half: nat, d: nat)
    requires half >= 65025 && 1 <= d <= 255
    ensures half / d > 0 && half / (half / d) == d
  {
    var v := half / d;
    QuotientAntitone(half, d, 255);
    DivReaches(half, d, v);
    DivReaches(half, d, v + 1);
    assert (d + 1) * v == v * d + v;
    assert (v + 1) * d == v * d + d;
    DivReaches(half, v, d);
    DivReaches(half, v, d + 1);
  }

  /** The speed block of s3c64xx_spi_setup, statement by statement. */
  method SettleSpeed(clk: nat, request: nat) returns (err: int, maxSpeed: nat)
    requires clk >= 2 && request > 0
    ensures var deal := Negotiate(clk, request); err == deal.err && maxSpeed == deal.speed
    ensures err == 0 <==> Attainable(clk / 2, request) && (clk / 2) / Min(request, clk / 2) <= 256
    ensures err == 0 ==> Best(clk / 2, request, maxSpeed) && maxSpeed > 0
    ensures err != 0 ==> err == -EINVAL && maxSpeed == Min(request, clk / 2)
  {
    hide Best, Attainable;
    NegotiateExact(clk, request);
    var half := clk / 2;
    var asked: int := request;
    var speed: int := half / (0 + 1);
    if asked > speed {
      asked := speed;
    }
    var psr: int := (half / asked - 1) % 256;
    if psr == PSR_MASK {
      psr := psr - 1;
    }
    speed := half / (psr + 1);
    if asked < speed {
      if psr + 1 < PSR_MASK {
        psr := psr + 1;
      } else {
        return -EINVAL, asked;
      }
    }
    DivReaches(half, psr + 1, 0);
    speed := half / (psr + 1);
    if asked >= speed {
      asked := speed;
      return 0, asked;
    }
    return -EINVAL, asked;
  }
}
