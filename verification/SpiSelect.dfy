/** Chip selects: what enable_cs and disable_cs do to them, over the transfers of a message and over messages. */
module SpiSelect {
  import opened SpiConfig
  import opened SpiTransfers

  /** The devices selected, and the one left selected because of a hint (tgl_spi). */
  datatype Cs = Cs(selected: set<SpiDevice>, hinted: SpiDevice?)

  /** Dropping the hinted device works if it has the polarity of the next one. */
  predicate SamePolarity(hinted: SpiDevice?, spi: SpiDevice)
  {
    hinted != null ==> hinted.mode.csHigh == spi.mode.csHigh
  }

  /** enable_cs: the device left selected is dropped with the polarity of the next one. */
  function Enabled(c: Cs, spi: SpiDevice): Cs
  {
    var rest :=
      if c.hinted == null || c.hinted == spi then c.selected
      else if SamePolarity(c.hinted, spi) then c.selected - {c.hinted}
      else c.selected + {c.hinted};
    Cs(rest + {spi}, null)
  }

  /** disable_cs. */
  function Disabled(c: Cs, spi: SpiDevice): Cs
  {
    Cs(c.selected - {spi}, if c.hinted == spi then null else c.hinted)
  }

  /** The other devices that are selected during the transfers of a message for `spi`. */
  function Others(c: Cs, spi: SpiDevice): set<SpiDevice>
  {
    Enabled(c, spi).selected - {spi}
  }

  /** The device stays selected from one transfer to the next, unless a hint drops it. */
  function GapAfter(xs: seq<Transfer>, j: nat, spi: SpiDevice, others: set<SpiDevice>): set<SpiDevice>
    requires j < |xs|
  {
    if j < |xs| - 1 && xs[j].csChange then others else others + {spi}
  }

  /**
   * Beside `others`, exactly the message's device is selected during each transfer, and between
   * them it is as the hints say.
   */
  predicate Selection(xs: seq<Transfer>, spi: SpiDevice, others: set<SpiDevice>,
    shots: seq<Shot>, gaps: seq<set<SpiDevice>>)
  {
    && |gaps| <= |xs|
    && (forall j :: 0 <= j < |shots| ==> shots[j].selected == others + {spi})
    && (forall j :: 0 <= j < |gaps| ==> gaps[j] == GapAfter(xs, j, spi, others))
  }

  lemma SelectionStart(xs: seq<Transfer>, spi: SpiDevice, others: set<SpiDevice>)
    ensures Selection(xs, spi, others, [], [])
  {
  }

  lemma SelectionNext(xs: seq<Transfer>, spi: SpiDevice, others: set<SpiDevice>, t: Tally,
    shot: seq<Shot>, gap: seq<set<SpiDevice>>)
    requires |t.shots| == |t.gaps| < |xs| && |gap| <= 1 && |shot| <= 1
    requires Selection(xs, spi, others, t.shots, t.gaps)
    requires shot != [] ==> shot[0].selected == others + {spi}
    requires gap != [] ==> gap[0] == GapAfter(xs, |t.gaps|, spi, others)
    ensures Selection(xs, spi, others, t.shots + shot, t.gaps + gap)
  {
  }

  /** What surrounds the transfers of a message: other devices, a high-speed bit from before, mappings. */
  datatype Around = Around(spi: SpiDevice, others: set<SpiDevice>, highSpeed: bool, live: multiset<Mapping>)

  ghost predicate RanIn(xs: seq<Transfer>, a: Around, t: Tally)
  {
    Selection(xs, a.spi, a.others, t.shots, t.gaps) && LeftOvers(t.shots, a.highSpeed) && RanWith(t.shots, a.live)
  }

  lemma RanInStart(xs: seq<Transfer>, a: Around, length0: nat)
    ensures RanIn(xs, a, Tally(0, false, length0, [], []))
  {
  }

  lemma RanInNext(xs: seq<Transfer>, a: Around, t: Tally, t': Tally, shot: seq<Shot>, gap: seq<set<SpiDevice>>)
    requires |t.shots| == |t.gaps| < |xs| && |gap| <= 1 && |shot| <= 1 && RanIn(xs, a, t)
    requires shot != [] ==> shot[0].selected == a.others + {a.spi} && shot[0].live == a.live
    requires shot != [] ==> (shot[0].leftOver <==> t.shots == [] && a.highSpeed)
    requires gap != [] ==> gap[0] == GapAfter(xs, |t.gaps|, a.spi, a.others)
    requires t'.shots == t.shots + shot && t'.gaps == t.gaps + gap
    ensures RanIn(xs, a, t')
  {
    hide Selection, LeftOvers, RanWith;
    SelectionNext(xs, a.spi, a.others, t, shot, gap);
    LeftOversNext(t.shots, a.highSpeed, shot);
    RanNext(t.shots, a.live, shot);
  }

  /** Once a transfer has started, the others are those still selected. */
  lemma OthersStay(c: Cs, spi: SpiDevice)
    ensures Others(Enabled(c, spi), spi) == Others(c, spi)
    ensures Enabled(c, spi) == Cs(Others(c, spi) + {spi}, null) && spi !in Others(c, spi)
    ensures c.hinted == null ==> Others(c, spi) == c.selected - {spi}
  {
  }

  /** Chip selects after a message. */
  function AfterMsg(c: Cs, spi: SpiDevice, t: Tally): Cs
  {
    if t.shots == [] then Disabled(c, spi)
    else if t.toggle then Cs(Others(c, spi) + {spi}, spi)
    else Cs(Others(c, spi), null)
  }

  /** The device is still selected after the last transfer, if it completed with a hint. */
  lemma EndedSelection(board: Board, fifo: nat, base: Settings, xs: seq<Transfer>, env: Env, length0: nat,
    status: int, t: Tally, spi: SpiDevice, c: Cs, c': Cs)
    requires WordsOk(base, xs) && Ended(board, fifo, base, xs, env, length0, status, t)
    requires Selection(xs, spi, Others(c, spi), t.shots, t.gaps)
    requires if t.shots == [] then c' == c
             else
               && c'.hinted == null
               && c'.selected == if |t.shots| > t.k then Others(c, spi) + {spi} else t.gaps[t.k - 1]
    ensures AfterMsg(c, spi, t) == if t.toggle then c'.(hinted := spi) else Disabled(c', spi)
  {
  }

  /** Only the hinted device is selected. */
  predicate Clean(c: Cs)
  {
    c.selected == if c.hinted == null then {} else {c.hinted}
  }

  /** Chip selects before, between and after the messages of `ts`, for the first devices of `spis`. */
  ghost predicate IsCsRun(css: seq<Cs>, spis: seq<SpiDevice>, ts: seq<Tally>)
  {
    && |css| == |ts| + 1 && |ts| <= |spis|
    && forall i :: 0 <= i < |ts| ==> css[i + 1] == AfterMsg(css[i], spis[i], ts[i])
  }

  function Devices(msgs: seq<SpiMessage>): (spis: seq<SpiDevice>)
    ensures |spis| == |msgs| && forall i :: 0 <= i < |msgs| ==> spis[i] == msgs[i].spi
  {
    seq(|msgs|, i requires 0 <= i < |msgs| => msgs[i].spi)
  }

  /** One more message. */
  lemma CsRunOn(css: seq<Cs>, spis: seq<SpiDevice>, ts: seq<Tally>, t: Tally, c: Cs)
    requires IsCsRun(css, spis, ts) && |ts| < |spis| && c == AfterMsg(css[|ts|], spis[|ts|], t)
    ensures IsCsRun(css + [c], spis, ts + [t])
  {
  }

  /** Message `i` starts a transfer with no other device selected. */
  predicate Alone(css: seq<Cs>, spis: seq<SpiDevice>, ts: seq<Tally>, i: nat)
    requires i < |css| && i < |spis| && i < |ts|
  {
    ts[i].shots != [] ==> Others(css[i], spis[i]) == {}
  }

  predicate Matched(css: seq<Cs>, spis: seq<SpiDevice>, ts: seq<Tally>, i: nat)
    requires i < |css| && i < |spis| && i < |ts|
  {
    ts[i].shots != [] ==> SamePolarity(css[i].hinted, spis[i])
  }

  ghost predicate AllAlone(css: seq<Cs>, spis: seq<SpiDevice>, ts: seq<Tally>)
    requires IsCsRun(css, spis, ts)
  {
    forall i :: 0 <= i < |ts| ==> Alone(css, spis, ts, i)
  }

  ghost predicate AllMatched(css: seq<Cs>, spis: seq<SpiDevice>, ts: seq<Tally>)
    requires IsCsRun(css, spis, ts)
  {
    forall i :: 0 <= i < |ts| ==> Matched(css, spis, ts, i)
  }

  lemma CleanStep(c: Cs, spi: SpiDevice, t: Tally)
    requires Clean(c)
    ensures Others(c, spi) == {} <==> SamePolarity(c.hinted, spi)
    ensures t.shots == [] || SamePolarity(c.hinted, spi) ==> Clean(AfterMsg(c, spi, t))
  {
    if c.hinted != null && c.hinted != spi && !SamePolarity(c.hinted, spi) {
      assert c.hinted in Others(c, spi);
    }
  }

  /**
   * Main result. Over any sequence of messages, every transfer has its device selected alone if
   * and only if each device left selected by a hint has the polarity of the next one to start.
   */
  lemma {:induction false} AloneExactly(css: seq<Cs>, spis: seq<SpiDevice>, ts: seq<Tally>)
    requires IsCsRun(css, spis, ts) && Clean(css[0])
    ensures AllAlone(css, spis, ts) <==> AllMatched(css, spis, ts)
    ensures AllMatched(css, spis, ts) ==> Clean(css[|ts|])
  {
    hide Others, AfterMsg, SamePolarity, Clean;
    if n: nat :| n < |ts| && !Matched(css, spis, ts, n) && forall i :: 0 <= i < n ==> Matched(css, spis, ts, i) {
      CleanSoFar(css, spis, ts, n);
      CleanStep(css[n], spis[n], ts[n]);
      assert !Alone(css, spis, ts, n);
    } else {
      NoneUnmatched(css, spis, ts, |ts|);
      forall i | 0 <= i < |ts|
        ensures Alone(css, spis, ts, i)
      {
        assert Matched(css, spis, ts, i);
        CleanSoFar(css, spis, ts, i);
        CleanStep(css[i], spis[i], ts[i]);
      }
      CleanSoFar(css, spis, ts, |ts|);
    }
  }

  /** If there is no first message that does not match, all match. */
  lemma {:induction false} NoneUnmatched(css: seq<Cs>, spis: seq<SpiDevice>, ts: seq<Tally>, n: nat)
    requires IsCsRun(css, spis, ts) && n <= |ts|
    requires forall k: nat :: k < |ts| && (forall i :: 0 <= i < k ==> Matched(css, spis, ts, i)) ==>
               Matched(css, spis, ts, k)
    ensures forall i :: 0 <= i < n ==> Matched(css, spis, ts, i)
  {
    if n > 0 {
      NoneUnmatched(css, spis, ts, n - 1);
    }
  }

  lemma {:induction false} CleanSoFar(css: seq<Cs>, spis: seq<SpiDevice>, ts: seq<Tally>, n: nat)
    requires IsCsRun(css, spis, ts) && Clean(css[0]) && n <= |ts|
    requires forall i :: 0 <= i < n ==> Matched(css, spis, ts, i)
    ensures Clean(css[n])
  {
    if n > 0 {
      var m := n - 1;
      CleanSoFar(css, spis, ts, m);
      assert Matched(css, spis, ts, m) && css[m + 1] == AfterMsg(css[m], spis[m], ts[m]);
      CleanStep(css[m], spis[m], ts[m]);
    }
  }

  /** A device of the other polarity, left selected, stays selected beside the next one. */
  lemma OtherPolarityStays(a: SpiDevice, b: SpiDevice)
    requires a.mode.csHigh != b.mode.csHigh
    ensures Others(Cs({a}, a), b) == {a}
  {
  }
}
