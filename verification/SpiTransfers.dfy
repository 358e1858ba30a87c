/**
 * Messages and their transfers: what starts, what completes, what stays selected in between,
 * what it does to the settings, and which DMA mappings it needs.
 */
module SpiTransfers {
  import opened Base
  import opened SpiClock
  import opened SpiConfig
  import opened SpiReading

  // XFER_DMAADDR_INVALID
  const INVALID: nat := 0xffff_ffff

  /** struct spi_transfer; zero for `bpw` or `speed` takes the device's setting. */
  datatype Transfer = Transfer(tx: bool, rx: bool, len: nat, bpw: nat, speed: nat, csChange: bool)

  datatype Direction = ToDevice | FromDevice

  datatype Mapping = Mapping(addr: nat, len: nat, dir: Direction)

  /** What the DMA layer and the hardware answer: an address or a failure for each buffer; the wait. */
  datatype Env = Env(txMap: nat -> Option<nat>, rxMap: nat -> Option<nat>, waitOk: nat -> bool)

  class SpiDevice {
    const mode: Mode
    var bpw: nat
    var maxSpeed: nat

    constructor (mode: Mode, bpw: nat, maxSpeed: nat)
      ensures this.mode == mode && this.bpw == bpw && this.maxSpeed == maxSpeed
    {
      this.mode, this.bpw, this.maxSpeed := mode, bpw, maxSpeed;
    }
  }

  class SpiMessage {
    const spi: SpiDevice
    const xfers: seq<Transfer>
    const isDmaMapped: bool
    var txDma: seq<nat>
    var rxDma: seq<nat>
    var status: int
    var actualLength: nat
    var completions: nat

    constructor (spi: SpiDevice, xfers: seq<Transfer>, isDmaMapped: bool, txDma: seq<nat>, rxDma: seq<nat>)
      ensures this.spi == spi && this.xfers == xfers && this.isDmaMapped == isDmaMapped
      ensures this.txDma == txDma && this.rxDma == rxDma
      ensures status == 0 && actualLength == 0 && completions == 0
    {
      this.spi, this.xfers, this.isDmaMapped, this.txDma, this.rxDma := spi, xfers, isDmaMapped, txDma, rxDma;
      status, actualLength, completions := 0, 0, 0;
    }
  }

  /** What a message counts: the length transferred so far, and its completions. */
  datatype Counts = Counts(length: nat, completions: nat)

  function CountsOf(msg: SpiMessage): Counts
    reads msg
  {
    Counts(msg.actualLength, msg.completions)
  }

  function AllCounts(msgs: seq<SpiMessage>): (counts: seq<Counts>)
    reads msgs
    ensures |counts| == |msgs| && forall i :: 0 <= i < |msgs| ==> counts[i] == CountsOf(msgs[i])
  {
    seq(|msgs|, i requires 0 <= i < |msgs| reads msgs => CountsOf(msgs[i]))
  }

  /** The settings a transfer runs with: only word size and speed can be its own. */
  function Effective(base: Settings, x: Transfer): Settings
  {
    base.(bpw := if x.bpw != 0 then x.bpw else base.bpw, speed := if x.speed != 0 then x.speed else base.speed)
  }

  /** The length is a multiple of the effective word size. */
  predicate Whole(base: Settings, x: Transfer)
    requires Effective(base, x).bpw >= 8
  {
    x.len % (Effective(base, x).bpw / 8) == 0
  }

  /** The driver divides by the word size in bytes, so it has to be at least one. */
  predicate WordsOk(base: Settings, xs: seq<Transfer>)
  {
    base.bpw >= 8 && base.speed > 0 && forall i :: 0 <= i < |xs| ==> xs[i].bpw == 0 || xs[i].bpw >= 8
  }

  function SumLen(xs: seq<Transfer>, n: nat): nat
    requires n <= |xs|
  {
    if n == 0 then 0 else SumLen(xs, n - 1) + xs[n - 1].len
  }

  /** Unsigned 32-bit arithmetic. */
  function Wrap(x: nat): nat
  {
    x % TWO32
  }

  lemma WrapAdd(x: nat, y: nat)
    ensures Wrap(Wrap(x) + y) == Wrap(x + y)
  {
  }

  /**
   * A started transfer: registers, settings, selected devices and DMA mappings when its signals
   * start, and whether the high-speed bit was left over from before.
   */
  datatype Shot = Shot(
    regs: Regs, cur: Settings, selected: set<SpiDevice>, dma: bool, leftOver: bool, live: multiset<Mapping>)

  function PathOf(fifo: nat, x: Transfer): Path
  {
    Path(x.tx, x.rx, x.len, Long(fifo, x))
  }

  function StartOps(fifo: nat, base: Settings, x: Transfer): seq<Op>
  {
    [Need(Effective(base, x)), Datapath(PathOf(fifo, x))]
  }

  /** The transfer has a whole number of words and runs with its settings, channels and DMA as needed. */
  predicate ShotOk(board: Board, fifo: nat, base: Settings, x: Transfer, shot: Shot)
  {
    && Effective(base, x).bpw >= 8 && Whole(base, x)
    && shot.cur == Effective(base, x) && shot.cur.speed > 0
    && Decodes(board, shot.regs, shot.cur)
    && shot.dma == Long(fifo, x)
    && (TXCH_ON <= shot.regs.ch <==> x.tx)
    && (RXCH_ON <= shot.regs.ch <==> x.rx || !shot.dma)
    && (TXDMA_ON <= shot.regs.mode <==> x.tx && shot.dma)
    && (RXDMA_ON <= shot.regs.mode <==> x.rx && shot.dma)
    && (x.rx || !shot.dma ==> shot.regs.packets == Some(Packets(x.len, shot.cur.bpw)))
    && (HighSpeed(shot.regs) <==> FastRead(board, shot.cur, PathOf(fifo, x)) || shot.leftOver)
  }

  /**
   * What transfer `x`, for a device with this mode, word size and speed, asks of the hardware, bit
   * by bit: its own word size and speed where it has them and the device's where not, whatever
   * transfers before it had, at exactly that speed if setup accepts it; its channels; DMA if it is
   * longer than half the FIFO and one; a whole number of words, and that number; and high speed
   * for a fast read, or if left over.
   */
  predicate RunsAsAsked(board: Board, fifo: nat, mode: Mode, bpw: nat, speed: nat, x: Transfer, shot: Shot)
  {
    && shot.cur.mode == mode
    && (x.bpw != 0 ==> shot.cur.bpw == x.bpw) && (x.bpw == 0 ==> shot.cur.bpw == bpw)
    && (x.speed != 0 ==> shot.cur.speed == x.speed) && (x.speed == 0 ==> shot.cur.speed == speed)
    && shot.cur.bpw >= 8 && x.len % (shot.cur.bpw / 8) == 0
    && shot.cur.speed > 0 && Reads(board, shot.regs, shot.cur)
    && (!board.clkFromCmu && board.clkRate >= 2 && Settled(board.clkRate, shot.cur.speed) ==>
          (board.clkRate / 2) / (Field(shot.regs.clk, 0, 8) + 1) == shot.cur.speed)
    && (shot.dma <==> x.len > fifo / 2 + 1)
    && (0 in shot.regs.ch <==> x.tx) && (1 in shot.regs.ch <==> x.rx || !shot.dma)
    && (1 in shot.regs.mode <==> x.tx && shot.dma) && (2 in shot.regs.mode <==> x.rx && shot.dma)
    && (x.rx || !shot.dma ==> shot.regs.packets == Some((x.len * 8 / shot.cur.bpw) % 0x1_0000))
    && (6 in shot.regs.ch <==>
          shot.leftOver || (x.rx && board.highSpeed && shot.cur.speed >= 30000000 && !mode.cpha))
  }

  lemma ShotRuns(board: Board, fifo: nat, base: Settings, x: Transfer, shot: Shot)
    requires ShotOk(board, fifo, base, x, shot)
    ensures RunsAsAsked(board, fifo, base.mode, base.bpw, base.speed, x, shot)
  {
    hide Decodes, Clocked, MovesWords, Settled, Field;
    DecodesReads(board, shot.regs, shot.cur);
    if !board.clkFromCmu && board.clkRate >= 2 && Settled(board.clkRate, shot.cur.speed) {
      ReadsDelivers(board, shot.regs, shot.cur.speed);
    }
  }

  predicate AllAsAsked(board: Board, fifo: nat, mode: Mode, bpw: nat, speed: nat, xs: seq<Transfer>, shots: seq<Shot>)
  {
    |shots| <= |xs| && forall j :: 0 <= j < |shots| ==> RunsAsAsked(board, fifo, mode, bpw, speed, xs[j], shots[j])
  }

  lemma ShotsRun(board: Board, fifo: nat, base: Settings, xs: seq<Transfer>, shots: seq<Shot>)
    requires ShotsOk(board, fifo, base, xs, shots)
    ensures AllAsAsked(board, fifo, base.mode, base.bpw, base.speed, xs, shots)
  {
    hide ShotOk, RunsAsAsked;
    forall j | 0 <= j < |shots|
      ensures RunsAsAsked(board, fifo, base.mode, base.bpw, base.speed, xs[j], shots[j])
    {
      ShotRuns(board, fifo, base, xs[j], shots[j]);
    }
  }

  /** A high-speed bit that was set before the message is left over to its first transfer only. */
  predicate LeftOvers(shots: seq<Shot>, before: bool)
  {
    forall j :: 0 <= j < |shots| ==> (shots[j].leftOver <==> j == 0 && before)
  }

  /** The high-speed bit after the transfers of `t`: cleared by the last flush, or as the failed transfer had it. */
  predicate HighSpeedAfter(t: Tally, before: bool, after: bool)
  {
    after <==> if t.shots == [] then before else |t.shots| > t.k && HighSpeed(t.shots[|t.shots| - 1].regs)
  }

  lemma LeftOversNext(shots: seq<Shot>, before: bool, shot: seq<Shot>)
    requires LeftOvers(shots, before) && |shot| <= 1
    requires shot != [] ==> (shot[0].leftOver <==> shots == [] && before)
    ensures LeftOvers(shots + shot, before)
  {
  }

  lemma StartOpsRun(board: Board, c: Ctl, fifo: nat, base: Settings, x: Transfer)
    requires base.speed > 0 && Agrees(board, c)
    requires Effective(base, x).bpw >= 8 && Whole(base, x)
    ensures var want, p := Effective(base, x), PathOf(fifo, x);
            var c1 := Apply(board, c, Need(want), false);
            var c2 := Apply(board, c1, Datapath(p), false);
            && c1.cur == want && c2.cur == want && c2.regs == EnableDatapath(board, c1.regs, want, p)
            && Positive(StartOps(fifo, base, x)) && RunOps(board, c, StartOps(fifo, base, x), false) == c2
            && Agrees(board, c2)
            && forall sel, live ::
                 ShotOk(board, fifo, base, x, Shot(c2.regs, want, sel, Long(fifo, x), HighSpeed(c.regs), live))
  {
    hide Config, EnableDatapath, Decodes, FastRead, Packets;
    var want, p := Effective(base, x), PathOf(fifo, x);
    var c1 := Apply(board, c, Need(want), false);
    ApplyAgrees(board, c, Need(want));
    ApplyAgrees(board, c1, Datapath(p));
    assert RunOps(board, c, [], false) == c;
    RunOpsOn(board, c, [], Need(want), false);
    assert [] + [Need(want)] == [Need(want)];
    RunOpsOn(board, c, [Need(want)], Datapath(p), false);
    assert [Need(want)] + [Datapath(p)] == StartOps(fifo, base, x);
    DatapathExact(board, c1.regs, want, p);
    ConfigKeepsHighSpeed(board, c.regs, want);
  }

  /** Transfer `i` cannot complete. */
  predicate Fails(base: Settings, x: Transfer, env: Env, i: nat)
    requires Effective(base, x).bpw >= 8
  {
    !Whole(base, x) || !env.waitOk(i)
  }

  /** Exactly the first `k` transfers complete. */
  predicate Stops(base: Settings, xs: seq<Transfer>, env: Env, k: nat)
    requires WordsOk(base, xs)
  {
    k <= |xs| && (forall j :: 0 <= j < k ==> !Fails(base, xs[j], env, j)) && (k < |xs| ==> Fails(base, xs[k], env, k))
  }

  /** How many transfers start if `k` complete: one more if the next has a proper length. */
  function Started(base: Settings, xs: seq<Transfer>, k: nat): nat
    requires WordsOk(base, xs) && k <= |xs|
  {
    if k < |xs| && Whole(base, xs[k]) then k + 1 else k
  }

  /** What a message does to the settings until `k` of its transfers have completed. */
  function MessageOps(fifo: nat, base: Settings, xs: seq<Transfer>, k: nat): seq<Op>
    requires k <= |xs|
  {
    if k == 0 then [Need(base)] else MessageOps(fifo, base, xs, k - 1) + StartOps(fifo, base, xs[k - 1]) + [Flush]
  }

  function RunSoFar(fifo: nat, base: Settings, xs: seq<Transfer>, k: nat, started: nat): seq<Op>
    requires k <= |xs| && started <= |xs|
  {
    MessageOps(fifo, base, xs, k) + if started > k then StartOps(fifo, base, xs[k]) else []
  }

  lemma {:induction false} MessageOpsPositive(fifo: nat, base: Settings, xs: seq<Transfer>, k: nat, started: nat)
    requires k <= |xs| && started <= |xs| && base.speed > 0
    ensures Positive(MessageOps(fifo, base, xs, k)) && Positive(RunSoFar(fifo, base, xs, k, started))
    ensures k < |xs| ==> Positive(StartOps(fifo, base, xs[k]))
  {
    if k > 0 {
      MessageOpsPositive(fifo, base, xs, k - 1, started);
    }
  }

  /** The head of handle_msg. */
  lemma HeadRun(board: Board, c: Ctl, fifo: nat, base: Settings, xs: seq<Transfer>)
    requires base.speed > 0 && Agrees(board, c)
    ensures Positive(MessageOps(fifo, base, xs, 0)) && RunSoFar(fifo, base, xs, 0, 0) == MessageOps(fifo, base, xs, 0)
    ensures RunOps(board, c, MessageOps(fifo, base, xs, 0), false) == Apply(board, c, Need(base), false)
    ensures Agrees(board, Apply(board, c, Need(base), false)) && Apply(board, c, Need(base), false).cur == base
  {
    ApplyAgrees(board, c, Need(base));
    RunOpsOn(board, c, [], Need(base), false);
    assert [] + [Need(base)] == MessageOps(fifo, base, xs, 0);
    NotStarted(fifo, base, xs);
  }

  lemma NotStarted(fifo: nat, base: Settings, xs: seq<Transfer>)
    ensures RunSoFar(fifo, base, xs, 0, 0) == MessageOps(fifo, base, xs, 0)
  {
  }

  /** Adding a started and a completed transfer to the run. */
  lemma OpsOn(board: Board, c: Ctl, fifo: nat, base: Settings, xs: seq<Transfer>, i: nat)
    requires i < |xs| && base.speed > 0
    requires Positive(MessageOps(fifo, base, xs, i)) && Positive(StartOps(fifo, base, xs[i]))
    requires Positive(RunSoFar(fifo, base, xs, i, i + 1)) && Positive(RunSoFar(fifo, base, xs, i + 1, i + 1))
    ensures var c1 := RunOps(board, c, MessageOps(fifo, base, xs, i), false);
            var c2 := RunOps(board, c1, StartOps(fifo, base, xs[i]), false);
            && RunSoFar(fifo, base, xs, i, i) == MessageOps(fifo, base, xs, i)
            && RunOps(board, c, RunSoFar(fifo, base, xs, i, i + 1), false) == c2
            && RunOps(board, c, RunSoFar(fifo, base, xs, i + 1, i + 1), false) == Apply(board, c2, Flush, false)
  {
    hide RunOps, Apply, StartOps;
    var m, o := MessageOps(fifo, base, xs, i), StartOps(fifo, base, xs[i]);
    RunOpsConcat(board, c, m, o, false);
    assert RunSoFar(fifo, base, xs, i, i + 1) == m + o;
    assert RunSoFar(fifo, base, xs, i + 1, i + 1) == m + o + [Flush];
    RunOpsOn(board, c, m + o, Flush, false);
  }

  predicate ShotsOk(board: Board, fifo: nat, base: Settings, xs: seq<Transfer>, shots: seq<Shot>)
  {
    |shots| <= |xs| && forall j :: 0 <= j < |shots| ==> ShotOk(board, fifo, base, xs[j], shots[j])
  }

  /** Where the loop over the transfers has got to. */
  datatype Tally = Tally(k: nat, toggle: bool, length: nat, shots: seq<Shot>, gaps: seq<set<SpiDevice>>)

  /**
   * The loop has ended at the first transfer that cannot complete, or after the last: what it
   * reports, which transfers started, and how it has counted their lengths.
   */
  predicate Ended(board: Board, fifo: nat, base: Settings, xs: seq<Transfer>, env: Env, length0: nat,
    status: int, t: Tally)
    requires WordsOk(base, xs)
  {
    && Stops(base, xs, env, t.k)
    && status == (if t.k == |xs| then 0 else -EIO)
    && (t.toggle <==> t.k == |xs| > 0 && xs[t.k - 1].csChange)
    && t.length == (length0 + SumLen(xs, t.k)) % 0x1_0000_0000
    && |t.gaps| == t.k && |t.shots| == Started(base, xs, t.k)
    && ShotsOk(board, fifo, base, xs, t.shots)
  }

  lemma EndedBounds(board: Board, fifo: nat, base: Settings, xs: seq<Transfer>, env: Env, length0: nat,
    status: int, t: Tally)
    requires WordsOk(base, xs) && Ended(board, fifo, base, xs, env, length0, status, t)
    ensures t.k <= |xs| && |t.shots| <= |xs| && (t.toggle ==> status == 0)
  {
  }

  /** The first `i` transfers have completed. */
  predicate Running(board: Board, fifo: nat, base: Settings, xs: seq<Transfer>, env: Env, length0: nat,
    i: nat, t: Tally)
    requires WordsOk(base, xs) && i <= |xs|
  {
    && t.k == i == |t.shots| == |t.gaps| && (forall j :: 0 <= j < i ==> !Fails(base, xs[j], env, j))
    && (t.toggle <==> i == |xs| > 0 && xs[i - 1].csChange)
    && t.length == Wrap(length0 + SumLen(xs, i))
    && ShotsOk(board, fifo, base, xs, t.shots)
  }

  lemma RunningStart(board: Board, fifo: nat, base: Settings, xs: seq<Transfer>, env: Env, length0: nat)
    requires WordsOk(base, xs) && length0 < TWO32
    ensures Running(board, fifo, base, xs, env, length0, 0, Tally(0, false, length0, [], []))
  {
  }

  lemma RunningEnd(board: Board, fifo: nat, base: Settings, xs: seq<Transfer>, env: Env, length0: nat, t: Tally)
    requires WordsOk(base, xs) && Running(board, fifo, base, xs, env, length0, |xs|, t)
    ensures Ended(board, fifo, base, xs, env, length0, 0, t)
    ensures |t.shots| == |t.gaps| == t.k == |xs|
  {
    hide ShotsOk, Whole;
  }

  lemma RunningNext(board: Board, fifo: nat, base: Settings, xs: seq<Transfer>, env: Env, length0: nat, i: nat,
    t: Tally, ok: bool, t': Tally, shot: seq<Shot>, gap: seq<set<SpiDevice>>)
    requires WordsOk(base, xs) && i < |xs| && Running(board, fifo, base, xs, env, length0, i, t)
    requires ok <==> !Fails(base, xs[i], env, i)
    requires |gap| == (if ok then 1 else 0) && |shot| == (if Whole(base, xs[i]) then 1 else 0)
    requires shot != [] ==> ShotOk(board, fifo, base, xs[i], shot[0])
    requires t' == Tally(t.k + |gap|, ok && i == |xs| - 1 && xs[i].csChange,
                         if ok then Wrap(t.length + xs[i].len) else t.length, t.shots + shot, t.gaps + gap)
    ensures ok ==> Running(board, fifo, base, xs, env, length0, i + 1, t') && |shot| == 1
    ensures !ok ==> Ended(board, fifo, base, xs, env, length0, -EIO, t')
  {
    hide ShotOk, Whole;
    WrapAdd(length0 + SumLen(xs, i), xs[i].len);
  }

  // DMA mappings

  predicate Long(fifo: nat, x: Transfer)
  {
    x.len > fifo / 2 + 1
  }

  predicate MapsOk(fifo: nat, x: Transfer, env: Env, i: nat)
  {
    Long(fifo, x) ==> (x.tx ==> env.txMap(i).Some?) && (x.rx ==> env.rxMap(i).Some?)
  }

  predicate AllMap(fifo: nat, xs: seq<Transfer>, env: Env, n: nat)
    requires n <= |xs|
  {
    forall i :: 0 <= i < n ==> MapsOk(fifo, xs[i], env, i)
  }

  /** The first mapping to fail is that of a transfer that only receives. */
  predicate RxOnlyFailsFirst(fifo: nat, xs: seq<Transfer>, env: Env)
  {
    exists i :: 0 <= i < |xs| && AllMap(fifo, xs, env, i) && !MapsOk(fifo, xs[i], env, i) && !xs[i].tx
  }

  /** The DMA layer never hands out the address that the driver takes as invalid. */
  ghost predicate EnvOk(env: Env)
  {
    forall i :: env.txMap(i) != Some(0xffff_ffff) && env.rxMap(i) != Some(0xffff_ffff)
  }

  /** Every buffer of a long transfer has a valid address. */
  predicate Addressed(fifo: nat, xs: seq<Transfer>, t: seq<nat>, r: seq<nat>, n: nat)
    requires n <= |xs| == |t| == |r|
  {
    forall i :: 0 <= i < n && Long(fifo, xs[i]) ==> (xs[i].tx ==> t[i] != INVALID) && (xs[i].rx ==> r[i] != INVALID)
  }

  /** The buffers of a transfer are mapped, at the addresses, with its length and in the right direction. */
  predicate Backed(x: Transfer, txDma: nat, rxDma: nat, live: multiset<Mapping>)
  {
    && (x.tx ==> txDma != INVALID && Mapping(txDma, x.len, ToDevice) in live)
    && (x.rx ==> rxDma != INVALID && Mapping(rxDma, x.len, FromDevice) in live)
  }

  predicate AllBacked(fifo: nat, xs: seq<Transfer>, t: seq<nat>, r: seq<nat>, live: multiset<Mapping>)
    requires |xs| == |t| == |r|
  {
    forall i :: 0 <= i < |xs| && xs[i].len > fifo / 2 + 1 ==> Backed(xs[i], t[i], r[i], live)
  }

  lemma MappedBacks(fifo: nat, xs: seq<Transfer>, t: seq<nat>, r: seq<nat>, live: multiset<Mapping>)
    requires |xs| == |t| == |r| && Addressed(fifo, xs, t, r, |xs|) && Mapped(fifo, xs, t, r, |xs|) <= live
    ensures AllBacked(fifo, xs, t, r, live)
  {
    forall i | 0 <= i < |xs| && xs[i].len > fifo / 2 + 1
      ensures Backed(xs[i], t[i], r[i], live)
    {
      MappedWithin(fifo, xs, t, r, i + 1, |xs|);
      assert MappedBy(fifo, xs[i], t[i], r[i]) <= Mapped(fifo, xs, t, r, i + 1);
    }
  }

  /** The mappings with which transfers ran. */
  ghost predicate RanWith(shots: seq<Shot>, live: multiset<Mapping>)
  {
    forall j :: 0 <= j < |shots| ==> shots[j].live == live
  }

  lemma RanNext(shots: seq<Shot>, live: multiset<Mapping>, shot: seq<Shot>)
    requires RanWith(shots, live) && |shot| <= 1 && (shot != [] ==> shot[0].live == live)
    ensures RanWith(shots + shot, live)
  {
  }

  lemma MapOutcome(fifo: nat, xs: seq<Transfer>, env: Env, i: nat, ok: bool)
    requires i < |xs| && AllMap(fifo, xs, env, i) && (ok <==> MapsOk(fifo, xs[i], env, i))
    ensures ok ==> AllMap(fifo, xs, env, i + 1)
    ensures !ok ==> !AllMap(fifo, xs, env, |xs|)
    ensures !ok ==> (RxOnlyFailsFirst(fifo, xs, env) <==> !xs[i].tx)
  {
    hide MapsOk;
  }

  lemma AllMapNotRxOnly(fifo: nat, xs: seq<Transfer>, env: Env)
    requires AllMap(fifo, xs, env, |xs|)
    ensures !RxOnlyFailsFirst(fifo, xs, env)
  {
  }

  /** The mappings recorded in the address fields of the first `n` transfers. */
  function Mapped(fifo: nat, xs: seq<Transfer>, txDma: seq<nat>, rxDma: seq<nat>, n: nat): multiset<Mapping>
    requires n <= |xs| == |txDma| == |rxDma|
  {
    if n == 0 then multiset{} else
      Mapped(fifo, xs, txDma, rxDma, n - 1) + MappedBy(fifo, xs[n - 1], txDma[n - 1], rxDma[n - 1])
  }

  function MappedBy(fifo: nat, x: Transfer, tx: nat, rx: nat): multiset<Mapping>
  {
    Part(fifo, x, x.tx, tx, ToDevice) + Part(fifo, x, x.rx, rx, FromDevice)
  }

  /** The mapping of one buffer of a transfer, if it has one. */
  function Part(fifo: nat, x: Transfer, used: bool, addr: nat, dir: Direction): multiset<Mapping>
  {
    if Long(fifo, x) && used && addr != INVALID then multiset{Mapping(addr, x.len, dir)} else multiset{}
  }

  lemma {:induction false} MappedFrame(fifo: nat, xs: seq<Transfer>, t: seq<nat>, r: seq<nat>,
    t': seq<nat>, r': seq<nat>, n: nat)
    requires n <= |xs| == |t| == |r| == |t'| == |r'|
    requires forall i :: 0 <= i < n ==> t'[i] == t[i] && r'[i] == r[i]
    ensures Mapped(fifo, xs, t', r', n) == Mapped(fifo, xs, t, r, n)
  {
    hide MappedBy;
    if n > 0 {
      MappedFrame(fifo, xs, t, r, t', r', n - 1);
    }
  }

  /** Transfers whose address fields are invalid add nothing. */
  lemma {:induction false} NothingMapped(fifo: nat, xs: seq<Transfer>, t: seq<nat>, r: seq<nat>, m: nat, n: nat)
    requires m <= n <= |xs| == |t| == |r|
    requires forall i :: m <= i < n ==> t[i] == INVALID && r[i] == INVALID
    ensures Mapped(fifo, xs, t, r, n) == Mapped(fifo, xs, t, r, m)
  {
    hide MappedBy;
    if m < n {
      NothingMapped(fifo, xs, t, r, m, n - 1);
      InvalidMapsNothing(fifo, xs[n - 1]);
    }
  }

  lemma MappedNone(fifo: nat, xs: seq<Transfer>, t: seq<nat>, r: seq<nat>)
    requires |xs| == |t| == |r|
    ensures Mapped(fifo, xs, t, r, 0) == multiset{}
  {
  }

  lemma Assoc(l: multiset<Mapping>, a: multiset<Mapping>, b: multiset<Mapping>)
    ensures (l + a) + b == l + (a + b)
    ensures (l - a) - b == l - (a + b)
    ensures a + b <= l ==> b <= l - a
  {
  }

  lemma MappedStep(fifo: nat, xs: seq<Transfer>, t: seq<nat>, r: seq<nat>, i: nat, tx: nat, rx: nat)
    requires i < |xs| == |t| == |r|
    ensures Mapped(fifo, xs, t[i := tx], r[i := rx], i + 1) == Mapped(fifo, xs, t, r, i) + MappedBy(fifo, xs[i], tx, rx)
  {
    MappedFrame(fifo, xs, t, r, t[i := tx], r[i := rx], i);
  }

  lemma InvalidMapsNothing(fifo: nat, x: Transfer)
    ensures MappedBy(fifo, x, INVALID, INVALID) == multiset{}
  {
  }

  lemma {:induction false} MappedWithin(fifo: nat, xs: seq<Transfer>, t: seq<nat>, r: seq<nat>, m: nat, n: nat)
    requires m <= n <= |xs| == |t| == |r|
    ensures Mapped(fifo, xs, t, r, m) <= Mapped(fifo, xs, t, r, n)
  {
    hide MappedBy;
    if m < n {
      MappedWithin(fifo, xs, t, r, m, n - 1);
    }
  }

  lemma Blank(fifo: nat, x: Transfer, l: multiset<Mapping>)
    ensures l + MappedBy(fifo, x, INVALID, INVALID) == l
    ensures Part(fifo, x, x.tx, INVALID, ToDevice) == multiset{} == Part(fifo, x, x.rx, INVALID, FromDevice)
    ensures !Long(fifo, x) ==> forall t, r :: MappedBy(fifo, x, t, r) == multiset{}
  {
  }

  /** The mapping loop before transfer `i`: all went well so far, the rest is still invalid. */
  predicate MappedSoFar(fifo: nat, xs: seq<Transfer>, env: Env, t: seq<nat>, r: seq<nat>, i: nat)
    requires i <= |xs| == |t| == |r|
  {
    && AllMap(fifo, xs, env, i) && Addressed(fifo, xs, t, r, i)
    && (forall j :: i <= j < |xs| ==> t[j] == INVALID && r[j] == INVALID)
    && (i == |xs| ==> !RxOnlyFailsFirst(fifo, xs, env))
  }

  lemma NoneMapped(fifo: nat, xs: seq<Transfer>, env: Env, t: seq<nat>, r: seq<nat>)
    requires |xs| == |t| == |r| && forall j :: 0 <= j < |xs| ==> t[j] == INVALID && r[j] == INVALID
    ensures MappedSoFar(fifo, xs, env, t, r, 0) && Mapped(fifo, xs, t, r, 0) == multiset{}
  {
  }

  lemma OneMapped(fifo: nat, xs: seq<Transfer>, env: Env, t: seq<nat>, r: seq<nat>, i: nat,
    tx: nat, rx: nat, ok: bool, l: multiset<Mapping>)
    requires i < |xs| == |t| == |r| && MappedSoFar(fifo, xs, env, t, r, i)
    requires ok <==> MapsOk(fifo, xs[i], env, i)
    requires ok && Long(fifo, xs[i]) ==> (xs[i].tx ==> tx != INVALID) && (xs[i].rx ==> rx != INVALID)
    ensures var t', r' := t[i := tx], r[i := rx];
            && (l + Mapped(fifo, xs, t, r, i)) + MappedBy(fifo, xs[i], tx, rx) == l + Mapped(fifo, xs, t', r', i + 1)
            && (ok ==> MappedSoFar(fifo, xs, env, t', r', i + 1))
            && (!ok ==> Mapped(fifo, xs, t', r', |xs|) == Mapped(fifo, xs, t', r', i + 1))
            && (!ok ==> !AllMap(fifo, xs, env, |xs|) && (RxOnlyFailsFirst(fifo, xs, env) <==> !xs[i].tx))
  {
    hide Mapped, MappedBy, MapsOk, Long;
    var t', r' := t[i := tx], r[i := rx];
    MappedStep(fifo, xs, t, r, i, tx, rx);
    Assoc(l, Mapped(fifo, xs, t, r, i), MappedBy(fifo, xs[i], tx, rx));
    MapOutcome(fifo, xs, env, i, ok);
    if ok {
      if i + 1 == |xs| {
        AllMapNotRxOnly(fifo, xs, env);
      }
    } else {
      NothingMapped(fifo, xs, t', r', i + 1, |xs|);
    }
  }

  /** At the end of the loop, and before it if there is nothing to map. */
  lemma EndMapped(fifo: nat, xs: seq<Transfer>, env: Env, t: seq<nat>, r: seq<nat>)
    requires |xs| == |t| == |r| && MappedSoFar(fifo, xs, env, t, r, |xs|)
    ensures AllMap(fifo, xs, env, |xs|) && Addressed(fifo, xs, t, r, |xs|) && !RxOnlyFailsFirst(fifo, xs, env)
  {
  }

  lemma MappedBack(l: multiset<Mapping>, m: multiset<Mapping>)
    ensures (l + m) - m == l && m <= l + m
  {
  }

  lemma MappedNext(fifo: nat, xs: seq<Transfer>, t: seq<nat>, r: seq<nat>, i: nat, l: multiset<Mapping>)
    requires i < |xs| == |t| == |r| && Mapped(fifo, xs, t, r, |xs|) <= l
    ensures var a, b := Mapped(fifo, xs, t, r, i), MappedBy(fifo, xs[i], t[i], r[i]);
            b <= l - a && (l - a) - b == l - Mapped(fifo, xs, t, r, i + 1)
  {
    hide MappedBy;
    MappedWithin(fifo, xs, t, r, i + 1, |xs|);
    Assoc(l, Mapped(fifo, xs, t, r, i), MappedBy(fifo, xs[i], t[i], r[i]));
  }
}
