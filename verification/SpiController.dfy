/**
 * The SPI controller while it handles one message: settings, chip-select lines, DMA
 * mappings and lengths. Messages come from the worker, one at a time.
 */
module SpiController {
  import opened Base
  import opened SpiClock
  import opened SpiConfig
  import opened SpiSelect
  import opened SpiTransfers

  class Controller {
    const board: Board
    const fifo: nat // fifo_lvl_mask
    var regs: Regs
    var cur: Settings
    var tgl: SpiDevice?
    var lines: map<SpiDevice, bool>
    var live: multiset<Mapping>
    var stray: nat

    constructor (board: Board, fifo: nat, regs: Regs, mode: Mode)
      ensures this.board == board && this.fifo == fifo
      ensures cur == Settings(mode, 8, 0) && tgl == null && lines == map[] && live == multiset{} && stray == 0
    {
      this.board, this.fifo, this.regs := board, fifo, regs;
      cur, tgl, lines, live, stray := Settings(mode, 8, 0), null, map[], multiset{}, 0;
    }

    // DMA layer: an address that is not mapped is counted as a stray unmap.

    method DmaMap(answer: Option<nat>, len: nat, dir: Direction) returns (addr: nat)
      requires answer.Some? ==> answer.value != INVALID
      modifies `live
      ensures answer.None? ==> addr == INVALID && live == old(live)
      ensures answer.Some? ==> addr == answer.value && live == old(live) + multiset{Mapping(addr, len, dir)}
    {
      addr := INVALID;
      if answer.Some? {
        addr := answer.value;
        live := live + multiset{Mapping(addr, len, dir)};
      }
    }

    method DmaUnmap(addr: nat, len: nat, dir: Direction)
      modifies `live, `stray
      ensures Mapping(addr, len, dir) in old(live) ==>
        live == old(live) - multiset{Mapping(addr, len, dir)} && stray == old(stray)
      ensures Mapping(addr, len, dir) !in old(live) ==> live == old(live) && stray == old(stray) + 1
    {
      if Mapping(addr, len, dir) in live {
        live := live - multiset{Mapping(addr, len, dir)};
      } else {
        stray := stray + 1;
      }
    }

    ghost predicate NoInvalid()
      reads `live
    {
      forall m :: m in live ==> m.addr != INVALID
    }

    predicate MapFails(msg: SpiMessage, env: Env)
    {
      !msg.isDmaMapped && !AllMap(fifo, msg.xfers, env, |msg.xfers|)
    }

    predicate UnmapsAstray(msg: SpiMessage, env: Env)
    {
      !msg.isDmaMapped && RxOnlyFailsFirst(fifo, msg.xfers, env)
    }

    /** s3c64xx_spi_map_mssg. */
    method MapMsg(msg: SpiMessage, env: Env) returns (err: int)
      requires |msg.txDma| == |msg.rxDma| == |msg.xfers|
      requires EnvOk(env) && NoInvalid()
      modifies `live, `stray, msg`txDma, msg`rxDma
      ensures |msg.txDma| == |msg.rxDma| == |msg.xfers|
      ensures err == 0 || err == -ENOMEM
      ensures (err != 0 <==> MapFails(msg, env)) && stray == old(stray) + (if UnmapsAstray(msg, env) then 1 else 0)
      ensures msg.isDmaMapped ==> err == 0 && live == old(live)
      ensures msg.isDmaMapped ==> msg.txDma == old(msg.txDma) && msg.rxDma == old(msg.rxDma)
      ensures !msg.isDmaMapped ==>
        && live == old(live) + Mapped(fifo, msg.xfers, msg.txDma, msg.rxDma, |msg.xfers|)
        && (err == 0 ==> Addressed(fifo, msg.xfers, msg.txDma, msg.rxDma, |msg.xfers|))
    {
      if msg.isDmaMapped {
        return 0;
      }
      err := MapAll(msg, env);
    }

    /** One long transfer that only receives, and a DMA layer that maps nothing. */
    method RxOnlyGoesAstray(spi: SpiDevice, len: nat, waitOk: nat -> bool) returns (err: int)
      requires NoInvalid() && len > fifo / 2 + 1
      modifies `live, `stray
      ensures err == -ENOMEM && stray == old(stray) + 1
    {
      var msg := new SpiMessage(spi, [Transfer(false, true, len, 0, 0, false)], false, [INVALID], [INVALID]);
      var env := Env(_ => None, _ => None, waitOk);
      assert AllMap(fifo, msg.xfers, env, 0) && !MapsOk(fifo, msg.xfers[0], env, 0);
      err := MapMsg(msg, env);
    }

    method MapAll(msg: SpiMessage, env: Env) returns (err: int)
      requires |msg.txDma| == |msg.rxDma| == |msg.xfers|
      requires EnvOk(env) && NoInvalid()
      modifies `live, `stray, msg`txDma, msg`rxDma
      ensures |msg.txDma| == |msg.rxDma| == |msg.xfers|
      ensures (err == 0 || err == -ENOMEM) && (err == 0 <==> AllMap(fifo, msg.xfers, env, |msg.xfers|))
      ensures live == old(live) + Mapped(fifo, msg.xfers, msg.txDma, msg.rxDma, |msg.xfers|)
      ensures stray == old(stray) + (if RxOnlyFailsFirst(fifo, msg.xfers, env) then 1 else 0)
      ensures err == 0 ==> Addressed(fifo, msg.xfers, msg.txDma, msg.rxDma, |msg.xfers|)
    {
      hide Mapped, MappedBy, RxOnlyFailsFirst, AllMap, Addressed, MappedSoFar;
      var n := |msg.xfers|;
      ghost var l0 := live;
      msg.txDma, msg.rxDma := seq(n, _ => INVALID), seq(n, _ => INVALID);
      NoneMapped(fifo, msg.xfers, env, msg.txDma, msg.rxDma);
      for i := 0 to n
        invariant |msg.txDma| == |msg.rxDma| == n && NoInvalid()
        invariant MappedSoFar(fifo, msg.xfers, env, msg.txDma, msg.rxDma, i)
        invariant live == l0 + Mapped(fifo, msg.xfers, msg.txDma, msg.rxDma, i)
        invariant stray == old(stray)
      {
        ghost var t0, r0 := msg.txDma, msg.rxDma;
        var ok, t, r := MapOne(msg.xfers[i], env.txMap(i), env.rxMap(i));
        msg.txDma, msg.rxDma := msg.txDma[i := t], msg.rxDma[i := r];
        OneMapped(fifo, msg.xfers, env, t0, r0, i, t, r, ok, l0);
        if !ok {
          return -ENOMEM;
        }
      }
      EndMapped(fifo, msg.xfers, env, msg.txDma, msg.rxDma);
      return 0;
    }

    /** The body of the mapping loop: whether to go on, and the two address fields. */
    method MapOne(x: Transfer, tx: Option<nat>, rx: Option<nat>) returns (ok: bool, txDma: nat, rxDma: nat)
      requires tx != Some(INVALID) && rx != Some(INVALID) && NoInvalid()
      modifies `live, `stray
      ensures NoInvalid()
      ensures ok <==> (Long(fifo, x) ==> (x.tx ==> tx.Some?) && (x.rx ==> rx.Some?))
      ensures live == old(live) + MappedBy(fifo, x, txDma, rxDma)
      ensures ok && Long(fifo, x) ==> (x.tx ==> txDma != INVALID) && (x.rx ==> rxDma != INVALID)
      ensures stray == old(stray) + (if !ok && !x.tx then 1 else 0)
    {
      hide Part;
      ghost var l0 := live;
      txDma, rxDma := INVALID, INVALID;
      Blank(fifo, x, l0);
      if !Long(fifo, x) {
        return true, INVALID, INVALID;
      }
      ok, txDma := MapBuffer(x, x.tx, tx, ToDevice);
      Assoc(l0, Part(fifo, x, x.tx, txDma, ToDevice), Part(fifo, x, x.rx, INVALID, FromDevice));
      if !ok {
        return;
      }
      ghost var l1 := live;
      ok, rxDma := MapBuffer(x, x.rx, rx, FromDevice);
      Assoc(l0, Part(fifo, x, x.tx, txDma, ToDevice), Part(fifo, x, x.rx, rxDma, FromDevice));
      if !ok {
        UnmapTx(x, txDma, l0);
        txDma := INVALID;
      }
    }

    method MapBuffer(x: Transfer, used: bool, answer: Option<nat>, dir: Direction) returns (ok: bool, addr: nat)
      requires answer != Some(INVALID) && NoInvalid() && Long(fifo, x)
      modifies `live
      ensures NoInvalid() && live == old(live) + Part(fifo, x, used, addr, dir)
      ensures ok <==> (used ==> answer.Some?)
      ensures addr != INVALID <==> used && ok
    {
      addr, ok := INVALID, true;
      if used {
        addr := DmaMap(answer, x.len, dir);
        ok := answer.Some?;
      }
    }

    /** The dma_unmap_single of a failed Rx mapping: it goes astray if the transfer has no Tx buffer. */
    method UnmapTx(x: Transfer, txDma: nat, ghost l0: multiset<Mapping>)
      requires Long(fifo, x) && NoInvalid() && (txDma != INVALID <==> x.tx)
      requires live == l0 + Part(fifo, x, x.tx, txDma, ToDevice)
      modifies `live, `stray
      ensures live == l0 && stray == old(stray) + (if x.tx then 0 else 1)
      ensures NoInvalid()
    {
      DmaUnmap(txDma, x.len, ToDevice);
    }

    /** s3c64xx_spi_unmap_mssg. */
    method UnmapMsg(msg: SpiMessage)
      requires |msg.txDma| == |msg.rxDma| == |msg.xfers|
      requires !msg.isDmaMapped ==> Mapped(fifo, msg.xfers, msg.txDma, msg.rxDma, |msg.xfers|) <= live
      modifies `live, `stray
      ensures stray == old(stray)
      ensures live == if msg.isDmaMapped then old(live) else
        old(live) - Mapped(fifo, msg.xfers, msg.txDma, msg.rxDma, |msg.xfers|)
    {
      if !msg.isDmaMapped {
        UnmapAll(msg);
      }
    }

    method UnmapAll(msg: SpiMessage)
      requires |msg.txDma| == |msg.rxDma| == |msg.xfers|
      requires Mapped(fifo, msg.xfers, msg.txDma, msg.rxDma, |msg.xfers|) <= live
      modifies `live, `stray
      ensures stray == old(stray)
      ensures live == old(live) - Mapped(fifo, msg.xfers, msg.txDma, msg.rxDma, |msg.xfers|)
    {
      hide Mapped, MappedBy;
      var n := |msg.xfers|;
      ghost var t, r, l0 := msg.txDma, msg.rxDma, live;
      MappedNone(fifo, msg.xfers, t, r);
      for i := 0 to n
        invariant live == l0 - Mapped(fifo, msg.xfers, t, r, i)
        invariant stray == old(stray)
      {
        MappedNext(fifo, msg.xfers, t, r, i, l0);
        UnmapOne(msg.xfers[i], msg.txDma[i], msg.rxDma[i]);
      }
    }

    method UnmapOne(x: Transfer, tx: nat, rx: nat)
      requires MappedBy(fifo, x, tx, rx) <= live
      modifies `live, `stray
      ensures live == old(live) - MappedBy(fifo, x, tx, rx) && stray == old(stray)
    {
      if !Long(fifo, x) {
        return;
      }
      if x.rx && rx != INVALID {
        DmaUnmap(rx, x.len, FromDevice);
      }
      if x.tx && tx != INVALID {
        DmaUnmap(tx, x.len, ToDevice);
      }
    }

    // Chip-select lines. A device is selected if its line is at the level of its own polarity.

    ghost function Selected(): set<SpiDevice>
      reads `lines
    {
      set d | d in lines && lines[d] == d.mode.csHigh
    }

    ghost function CsState(): Cs
      reads `lines, `tgl
    {
      Cs(Selected(), tgl)
    }

    /**
     * enable_cs. With only the hinted device selected before, the device is selected alone exactly
     * if polarities agree.
     */
    method EnableCs(spi: SpiDevice)
      modifies `lines, `tgl
      ensures CsState() == Enabled(old(CsState()), spi)
      ensures spi in lines && lines[spi] == spi.mode.csHigh
      ensures old(Clean(CsState())) ==> (Selected() == {spi} <==> SamePolarity(old(tgl), spi))
    {
      if tgl != null {
        if tgl != spi {
          lines := lines[tgl := if spi.mode.csHigh then false else true];
        }
        tgl := null;
      }
      lines := lines[spi := if spi.mode.csHigh then true else false];
    }

    /** disable_cs. */
    method DisableCs(spi: SpiDevice)
      modifies `lines, `tgl
      ensures CsState() == Disabled(old(CsState()), spi)
      ensures spi in lines && lines[spi] == !spi.mode.csHigh
    {
      if tgl == spi {
        tgl := null;
      }
      lines := lines[spi := if spi.mode.csHigh then false else true];
    }

    // Settings

    ghost function Control(): Ctl
      reads `regs, `cur
    {
      Ctl(regs, cur)
    }

    /** The test at the head of handle_msg. */
    method Reconfigure(want: Settings)
      requires want.speed > 0
      modifies `regs, `cur
      ensures Control() == Apply(board, old(Control()), Need(want), false)
      ensures HighSpeed(regs) <==> HighSpeed(old(regs))
    {
      ConfigKeepsHighSpeed(board, regs, want);
      if cur.speed != want.speed || cur.mode != want.mode || cur.bpw != want.bpw {
        cur := want;
        regs := Config(board, regs, cur);
      }
    }

    /** The test for each transfer, which takes the mode as unchanged. */
    method Retune(want: Settings)
      requires want.speed > 0 && want.mode == cur.mode
      modifies `regs, `cur
      ensures Control() == Apply(board, old(Control()), Need(want), false)
    {
      if want.bpw != cur.bpw || want.speed != cur.speed {
        cur := cur.(bpw := want.bpw, speed := want.speed);
        regs := Config(board, regs, cur);
      }
    }

    /** A transfer up to the point where its signals start. */
    method StartTransfer(spi: SpiDevice, base: Settings, x: Transfer) returns (ghost shot: Shot)
      requires base.speed > 0 && cur.mode == base.mode && Agrees(board, Control())
      requires Effective(base, x).bpw >= 8 && Whole(base, x)
      modifies `regs, `cur, `lines, `tgl
      ensures Agrees(board, Control()) && cur == Effective(base, x)
      ensures Control() == RunOps(board, old(Control()), StartOps(fifo, base, x), false)
      ensures ShotOk(board, fifo, base, x, shot) && shot.selected == Selected()
      ensures shot.regs == regs && shot.leftOver == HighSpeed(old(regs)) && shot.live == live
      ensures RunsAsAsked(board, fifo, base.mode, base.bpw, base.speed, x, shot)
      ensures CsState() == Enabled(old(CsState()), spi)
    {
      hide Config, EnableDatapath, RunOps, ShotOk, Agrees, Whole, StartOps, Enabled, RunsAsAsked;
      ghost var c0 := Control();
      var want := Effective(base, x);
      Retune(want);
      StartOpsRun(board, c0, fifo, base, x);
      regs := EnableDatapath(board, regs, cur, PathOf(fifo, x));
      EnableCs(spi);
      shot := Shot(regs, cur, Selected(), Long(fifo, x), HighSpeed(old(regs)), live);
      ShotRuns(board, fifo, base, x, shot);
    }

    /** A transfer after its wait has succeeded. */
    method FinishTransfer(msg: SpiMessage, base: Settings, i: nat) returns (toggle: bool, ghost gap: set<SpiDevice>)
      requires i < |msg.xfers| && Agrees(board, Control()) && tgl == null
      modifies `regs, `lines, `tgl, msg`actualLength
      ensures toggle <==> msg.xfers[i].csChange && i == |msg.xfers| - 1
      ensures msg.actualLength == Wrap(old(msg.actualLength) + msg.xfers[i].len)
      ensures Agrees(board, Control()) && Control() == Apply(board, old(Control()), Flush, false)
      ensures tgl == null && gap == Selected() && !HighSpeed(regs)
      ensures forall others | old(Selected()) == others + {msg.spi} && msg.spi !in others ::
        gap == GapAfter(msg.xfers, i, msg.spi, others)
    {
      ApplyAgrees(board, Control(), Flush);
      toggle := false;
      if msg.xfers[i].csChange {
        if i == |msg.xfers| - 1 {
          toggle := true;
        } else {
          DisableCs(msg.spi);
        }
      }
      msg.actualLength := Wrap(msg.actualLength + msg.xfers[i].len);
      regs := FlushFifo(regs);
      gap := Selected();
    }

    /** One pass of the loop over the transfers; `shot` and `gap` are empty if it does not get there. */
    method OneTransfer(msg: SpiMessage, base: Settings, env: Env, i: nat, ghost c0: Ctl)
      returns (ok: bool, toggle: bool, ghost shot: seq<Shot>, ghost gap: seq<set<SpiDevice>>)
      requires WordsOk(base, msg.xfers) && i < |msg.xfers|
      requires Agrees(board, Control()) && cur.mode == base.mode
      requires Positive(MessageOps(fifo, base, msg.xfers, i))
      requires Control() == RunOps(board, c0, MessageOps(fifo, base, msg.xfers, i), false)
      modifies `regs, `cur, `lines, `tgl, msg`actualLength
      ensures ok <==> !Fails(base, msg.xfers[i], env, i)
      ensures |gap| == (if ok then 1 else 0) && |shot| == (if Whole(base, msg.xfers[i]) then 1 else 0)
      ensures toggle <==> ok && msg.xfers[i].csChange && i == |msg.xfers| - 1
      ensures msg.actualLength == if ok then Wrap(old(msg.actualLength) + msg.xfers[i].len) else old(msg.actualLength)
      ensures Agrees(board, Control()) && cur.mode == base.mode
      ensures Positive(RunSoFar(fifo, base, msg.xfers, i + |gap|, i + |shot|))
      ensures Control() == RunOps(board, c0, RunSoFar(fifo, base, msg.xfers, i + |gap|, i + |shot|), false)
      ensures shot == [] ==> tgl == old(tgl) && lines == old(lines) && regs == old(regs)
      ensures shot != [] ==> tgl == null && ShotOk(board, fifo, base, msg.xfers[i], shot[0])
      ensures shot != [] ==> shot[0].leftOver == HighSpeed(old(regs)) && shot[0].live == live
      ensures if ok then !HighSpeed(regs) else shot != [] ==> regs == shot[0].regs
      ensures var others := Others(old(CsState()), msg.spi);
              && Others(CsState(), msg.spi) == others
              && (shot != [] ==> shot[0].selected == others + {msg.spi})
              && (shot != [] ==> Selected() == if ok then gap[0] else others + {msg.spi})
              && (ok ==> gap[0] == GapAfter(msg.xfers, i, msg.spi, others))
    {
      hide ShotOk, RunOps, Apply, Agrees, MessageOps, StartOps, RunSoFar, Selected, Enabled, Others;
      hide RunsAsAsked;
      ghost var cs0 := CsState();
      OthersStay(cs0, msg.spi);
      ghost var xs := msg.xfers;
      MessageOpsPositive(fifo, base, xs, i, i);
      MessageOpsPositive(fifo, base, xs, i, i + 1);
      MessageOpsPositive(fifo, base, xs, i + 1, i + 1);
      OpsOn(board, c0, fifo, base, xs, i);
      var x := msg.xfers[i];
      if x.len % (Effective(base, x).bpw / 8) != 0 {
        return false, false, [], [];
      }
      var started := StartTransfer(msg.spi, base, x);
      shot := [started];
      if !env.waitOk(i) {
        return false, false, shot, [];
      }
      ghost var after;
      toggle, after := FinishTransfer(msg, base, i);
      OthersStay(CsState(), msg.spi);
      return true, toggle, shot, [after];
    }

    /** The loop over the transfers. */
    method RunTransfers(msg: SpiMessage, base: Settings, env: Env, ghost c0: Ctl)
      returns (status: int, toggle: bool, ghost t: Tally)
      requires WordsOk(base, msg.xfers) && cur == base && Agrees(board, Control()) && msg.actualLength < TWO32
      requires Control() == RunOps(board, c0, MessageOps(fifo, base, msg.xfers, 0), false)
      modifies `regs, `cur, `lines, `tgl, msg`actualLength
      ensures Ended(board, fifo, base, msg.xfers, env, old(msg.actualLength), status, t)
      ensures toggle == t.toggle && msg.actualLength == t.length
      ensures Agrees(board, Control()) && Positive(RunSoFar(fifo, base, msg.xfers, t.k, |t.shots|))
      ensures Control() == RunOps(board, c0, RunSoFar(fifo, base, msg.xfers, t.k, |t.shots|), false)
      ensures t.shots == [] ==> tgl == old(tgl) && lines == old(lines)
      ensures t.shots != [] ==> tgl == null
      ensures RanIn(msg.xfers, Around(msg.spi, Others(old(CsState()), msg.spi), HighSpeed(old(regs)), live), t)
      ensures HighSpeedAfter(t, HighSpeed(old(regs)), HighSpeed(regs))
      ensures t.shots != [] ==>
        Selected() == if |t.shots| > t.k then Others(old(CsState()), msg.spi) + {msg.spi} else t.gaps[t.k - 1]
    {
      hide ShotOk, Whole, RunOps, Agrees, MessageOps, StartOps, Selected, Enabled;
      hide Others, Wrap, Running, Fails, RanIn, HighSpeed, GapAfter, ShotsOk;
      ghost var xs, len0 := msg.xfers, msg.actualLength;
      ghost var around := Around(msg.spi, Others(CsState(), msg.spi), HighSpeed(regs), live);
      t, toggle, status := Tally(0, false, len0, [], []), false, 0;
      MessageOpsPositive(fifo, base, xs, 0, 0);
      NotStarted(fifo, base, xs);
      RunningStart(board, fifo, base, xs, env, len0);
      RanInStart(xs, around, len0);
      for i := 0 to |msg.xfers|
        invariant Running(board, fifo, base, xs, env, len0, i, t) && RanIn(xs, around, t)
        invariant toggle == t.toggle && msg.actualLength == t.length && t.k == |t.shots| == |t.gaps| == i
        invariant Agrees(board, Control()) && cur.mode == base.mode
        invariant Positive(RunSoFar(fifo, base, xs, i, i))
        invariant Control() == RunOps(board, c0, RunSoFar(fifo, base, xs, i, i), false)
        invariant if i == 0 then tgl == old(tgl) && lines == old(lines) else tgl == null
        invariant if i == 0 then regs == old(regs) else !HighSpeed(regs)
        invariant Others(CsState(), msg.spi) == around.others && (i > 0 ==> Selected() == t.gaps[i - 1])
      {
        assert RunSoFar(fifo, base, xs, i, i) == MessageOps(fifo, base, xs, i);
        ghost var shot, gap;
        var ok;
        ok, toggle, shot, gap := OneTransfer(msg, base, env, i, c0);
        ghost var t' := Tally(i + |gap|, toggle, msg.actualLength, t.shots + shot, t.gaps + gap);
        RunningNext(board, fifo, base, xs, env, len0, i, t, ok, t', shot, gap);
        RanInNext(xs, around, t, t', shot, gap);
        t := t';
        if !ok {
          return -EIO, false, t;
        }
      }
      RunningEnd(board, fifo, base, xs, env, len0, t);
    }

    function BaseOf(spi: SpiDevice): Settings
      requires spi.bpw > 0
      reads spi
    {
      Settings(spi.mode, spi.bpw, spi.maxSpeed)
    }

    /** While the transfers of a message ran, its DMA buffers were mapped, unless the client maps them. */
    ghost predicate Backs(msg: SpiMessage, t: Tally)
      reads msg`txDma, msg`rxDma
    {
      && |msg.txDma| == |msg.rxDma| == |msg.xfers|
      && (!msg.isDmaMapped ==> forall j :: 0 <= j < |t.shots| ==>
            AllBacked(fifo, msg.xfers, msg.txDma, msg.rxDma, t.shots[j].live))
    }

    /** With what settings and mappings the transfers of a message ran, before `out`. */
    lemma HandledAsAsked(msg: SpiMessage, env: Env, length0: nat, status: int, t: Tally)
      requires msg.spi.bpw > 0 && WordsOk(BaseOf(msg.spi), msg.xfers) && |msg.txDma| == |msg.rxDma| == |msg.xfers|
      requires MapFails(msg, env) ==> t.shots == []
      requires !MapFails(msg, env) ==>
        Ended(board, fifo, BaseOf(msg.spi), msg.xfers, env, length0, status, t)
      requires t.shots != [] && !msg.isDmaMapped ==> Addressed(fifo, msg.xfers, msg.txDma, msg.rxDma, |msg.xfers|)
      requires !msg.isDmaMapped ==> Mapped(fifo, msg.xfers, msg.txDma, msg.rxDma, |msg.xfers|) <= live
      requires RanWith(t.shots, live)
      ensures AllAsAsked(board, fifo, msg.spi.mode, msg.spi.bpw, msg.spi.maxSpeed, msg.xfers, t.shots)
      ensures Backs(msg, t)
    {
      hide Mapped, Addressed, AllMap, AllBacked, ShotOk, RunsAsAsked, Started, Stops;
      ShotsRun(board, fifo, BaseOf(msg.spi), msg.xfers, t.shots);
      if t.shots != [] && !msg.isDmaMapped {
        MappedBacks(fifo, msg.xfers, msg.txDma, msg.rxDma, live);
      }
    }

    /** handle_msg up to the label `out`. */
    method Attempt(msg: SpiMessage, env: Env) returns (status: int, toggle: bool, ghost t: Tally)
      requires msg.spi.bpw > 0 && WordsOk(BaseOf(msg.spi), msg.xfers) && msg.actualLength < TWO32
      requires |msg.txDma| == |msg.rxDma| == |msg.xfers|
      requires EnvOk(env) && NoInvalid() && Agrees(board, Control())
      modifies `regs, `cur, `lines, `tgl, `live, `stray, msg`txDma, msg`rxDma, msg`actualLength
      ensures |msg.txDma| == |msg.rxDma| == |msg.xfers|
      ensures live == if msg.isDmaMapped then old(live) else
        old(live) + Mapped(fifo, msg.xfers, msg.txDma, msg.rxDma, |msg.xfers|)
      ensures stray == old(stray) + (if UnmapsAstray(msg, env) then 1 else 0)
      ensures t.shots != [] && !msg.isDmaMapped ==> Addressed(fifo, msg.xfers, msg.txDma, msg.rxDma, |msg.xfers|)
      ensures Backs(msg, t) && AllAsAsked(board, fifo, msg.spi.mode, msg.spi.bpw, msg.spi.maxSpeed, msg.xfers, t.shots)
      ensures MapFails(msg, env) ==>
        status == -ENOMEM && msg.actualLength == old(msg.actualLength) && t == Tally(0, false, msg.actualLength, [], [])
      ensures !MapFails(msg, env) ==>
        Ended(board, fifo, BaseOf(msg.spi), msg.xfers, env, old(msg.actualLength), status, t)
      ensures msg.actualLength == t.length && toggle == t.toggle && (toggle ==> status == 0)
      ensures Agrees(board, Control()) && t.k <= |msg.xfers| && |t.shots| <= |msg.xfers|
      ensures Positive(RunSoFar(fifo, BaseOf(msg.spi), msg.xfers, t.k, |t.shots|))
      ensures Control() ==
        RunOps(board, old(Control()), RunSoFar(fifo, BaseOf(msg.spi), msg.xfers, t.k, |t.shots|), false)
      ensures if t.shots == [] then tgl == old(tgl) && lines == old(lines) else tgl == null
      ensures LeftOvers(t.shots, HighSpeed(old(regs))) && HighSpeedAfter(t, HighSpeed(old(regs)), HighSpeed(regs))
      ensures Selection(msg.xfers, msg.spi, Others(old(CsState()), msg.spi), t.shots, t.gaps)
      ensures AfterMsg(old(CsState()), msg.spi, t) ==
        if toggle then CsState().(hinted := msg.spi) else Disabled(CsState(), msg.spi)
    {
      hide RunOps, RunSoFar, MessageOps, Agrees, Selection, Addressed, RxOnlyFailsFirst, AllMap, Mapped;
      hide Ended, Selected, Apply, NoInvalid, Others, HighSpeed, ShotsOk, AllAsAsked, Backs;
      ghost var c0, base, cs0 := Control(), BaseOf(msg.spi), CsState();
      t := Tally(0, false, msg.actualLength, [], []);
      Reconfigure(BaseOf(msg.spi));
      HeadRun(board, c0, fifo, base, msg.xfers);
      SelectionStart(msg.xfers, msg.spi, Others(cs0, msg.spi));
      var err := MapMsg(msg, env);
      if err != 0 {
        assert RanWith(t.shots, live);
        HandledAsAsked(msg, env, old(msg.actualLength), -ENOMEM, t);
        return -ENOMEM, false, t;
      }
      status, toggle, t := RunTransfers(msg, BaseOf(msg.spi), env, c0);
      HandledAsAsked(msg, env, old(msg.actualLength), status, t);
      EndedBounds(board, fifo, base, msg.xfers, env, old(msg.actualLength), status, t);
      EndedSelection(board, fifo, base, msg.xfers, env, old(msg.actualLength), status, t, msg.spi, cs0, CsState());
    }

    /** handle_msg from the label `out` on. */
    method Conclude(msg: SpiMessage, status: int, toggle: bool)
      requires |msg.txDma| == |msg.rxDma| == |msg.xfers|
      requires !msg.isDmaMapped ==> Mapped(fifo, msg.xfers, msg.txDma, msg.rxDma, |msg.xfers|) <= live
      modifies `lines, `tgl, `live, `stray, msg`status, msg`completions
      ensures stray == old(stray)
      ensures live == if msg.isDmaMapped then old(live) else
        old(live) - Mapped(fifo, msg.xfers, msg.txDma, msg.rxDma, |msg.xfers|)
      ensures msg.status == status && msg.completions == old(msg.completions) + 1
      ensures CsState() ==
        if toggle && status == 0 then old(CsState()).(hinted := msg.spi) else Disabled(old(CsState()), msg.spi)
    {
      hide Mapped, Disabled, Selected;
      if !toggle || status != 0 {
        DisableCs(msg.spi);
      } else {
        tgl := msg.spi;
      }
      UnmapMsg(msg);
      msg.status := status;
      msg.completions := msg.completions + 1;
    }

    /** handle_msg: `t` tells what happened to the transfers. */
    method HandleMsg(msg: SpiMessage, env: Env) returns (ghost t: Tally)
      requires msg.spi.bpw > 0 && WordsOk(BaseOf(msg.spi), msg.xfers) && msg.actualLength < TWO32
      requires |msg.txDma| == |msg.rxDma| == |msg.xfers|
      requires EnvOk(env) && NoInvalid() && Agrees(board, Control())
      modifies `regs, `cur, `lines, `tgl, `live, `stray
      modifies msg`txDma, msg`rxDma, msg`status, msg`actualLength, msg`completions
      ensures msg.completions == old(msg.completions) + 1
      // DMA: nothing stays mapped, and an unmap goes astray only in one case
      ensures live == old(live) && |msg.txDma| == |msg.rxDma| == |msg.xfers|
      ensures stray == old(stray) + (if UnmapsAstray(msg, env) then 1 else 0)
      ensures t.shots != [] && !msg.isDmaMapped ==> Addressed(fifo, msg.xfers, msg.txDma, msg.rxDma, |msg.xfers|)
      ensures Backs(msg, t)
      // transfers: which complete, the status, and their lengths
      ensures MapFails(msg, env) ==> msg.status == -ENOMEM && msg.actualLength == old(msg.actualLength) && t.shots == []
      ensures !MapFails(msg, env) ==>
        && Ended(board, fifo, BaseOf(msg.spi), msg.xfers, env, old(msg.actualLength), msg.status, t)
        && msg.actualLength == t.length
      ensures AllAsAsked(board, fifo, msg.spi.mode, msg.spi.bpw, msg.spi.maxSpeed, msg.xfers, t.shots)
      // settings: registers and cache as if every message and transfer had been configured
      ensures Agrees(board, Control()) && t.k <= |msg.xfers| && |t.shots| <= |msg.xfers|
      ensures Positive(RunSoFar(fifo, BaseOf(msg.spi), msg.xfers, t.k, |t.shots|))
      ensures Control() ==
        RunOps(board, old(Control()), RunSoFar(fifo, BaseOf(msg.spi), msg.xfers, t.k, |t.shots|), true)
      ensures LeftOvers(t.shots, HighSpeed(old(regs))) && HighSpeedAfter(t, HighSpeed(old(regs)), HighSpeed(regs))
      // chip select
      ensures CsState() == AfterMsg(old(CsState()), msg.spi, t)
      ensures Selection(msg.xfers, msg.spi, Others(old(CsState()), msg.spi), t.shots, t.gaps)
    {
      hide RunOps, RunSoFar, Agrees, Addressed, RxOnlyFailsFirst, AllMap, Mapped;
      hide ShotsOk, Started, NoInvalid, Positive, Wrap;
      hide Selected, Others, Disabled, AfterMsg, Selection, WordsOk, Stops, Long, Effective;
      hide HighSpeed, LeftOvers, HighSpeedAfter, AllAsAsked, Backs, BaseOf;
      ghost var l0, c0 := live, Control();
      var status, toggle;
      status, toggle, t := Attempt(msg, env);
      LazyIsEager(board, c0, RunSoFar(fifo, BaseOf(msg.spi), msg.xfers, t.k, |t.shots|));
      MappedBack(l0, Mapped(fifo, msg.xfers, msg.txDma, msg.rxDma, |msg.xfers|));
      Conclude(msg, status, toggle);
    }

    /** A message as a client may queue it. */
    ghost predicate Fit(msg: SpiMessage)
      reads msg, msg.spi
    {
      && msg.spi.bpw > 0 && WordsOk(BaseOf(msg.spi), msg.xfers) && msg.actualLength < TWO32
      && |msg.txDma| == |msg.rxDma| == |msg.xfers|
    }

    /** Between messages: the cache is right. */
    ghost predicate AtRest()
      reads `regs, `cur, `live
    {
      NoInvalid() && Agrees(board, Control())
    }

    /**
     * What became of a message: it was completed once more, its transfers were as `t` tells, with
     * its own device selected beside what `cs` left, and status and length are those of a failed
     * mapping or of the first failed transfer.
     */
    ghost predicate Outcome(msg: SpiMessage, env: Env, before: Counts, cs: Cs, t: Tally)
      reads msg, msg.spi
    {
      && msg.spi.bpw > 0 && WordsOk(BaseOf(msg.spi), msg.xfers)
      && msg.completions == before.completions + 1
      && Selection(msg.xfers, msg.spi, Others(cs, msg.spi), t.shots, t.gaps)
      && AllAsAsked(board, fifo, msg.spi.mode, msg.spi.bpw, msg.spi.maxSpeed, msg.xfers, t.shots)
      && (if MapFails(msg, env) then
            msg.status == -ENOMEM && msg.actualLength == before.length && t.shots == []
          else
            && Ended(board, fifo, BaseOf(msg.spi), msg.xfers, env, before.length, msg.status, t)
            && msg.actualLength == t.length)
    }

    /** A message leaves the controller at rest. */
    method HandleNext(msg: SpiMessage, env: Env) returns (ghost t: Tally)
      requires Fit(msg) && EnvOk(env) && AtRest()
      modifies `regs, `cur, `lines, `tgl, `live, `stray
      modifies msg`txDma, msg`rxDma, msg`status, msg`actualLength, msg`completions
      ensures AtRest() && live == old(live)
      ensures stray == old(stray) + (if UnmapsAstray(msg, env) then 1 else 0)
      ensures CsState() == AfterMsg(old(CsState()), msg.spi, t)
      ensures Outcome(msg, env, old(CountsOf(msg)), old(CsState()), t)
    {
      hide Agrees, NoInvalid, EnvOk, Ended, RunOps, RunSoFar, Selection, Addressed, WordsOk, Positive;
      hide RxOnlyFailsFirst, AllMap, LeftOvers, HighSpeedAfter, AfterMsg, Others, Selected, AllAsAsked, Backs;
      t := HandleMsg(msg, env);
    }

    function Strays(msgs: seq<SpiMessage>, envs: nat -> Env, n: nat): nat
      requires n <= |msgs|
    {
      if n == 0 then 0 else Strays(msgs, envs, n - 1) + if UnmapsAstray(msgs[n - 1], envs(n - 1)) then 1 else 0
    }

    /**
     * The worker's messages one after another; `ts[i]` tells what happened to the transfers of
     * message `i`, `css[i]` which devices were selected before it. Every transfer has its device
     * selected alone exactly if hints never meet a device of the other polarity.
     */
    method HandleAll(msgs: seq<SpiMessage>, envs: nat -> Env) returns (ghost ts: seq<Tally>, ghost css: seq<Cs>)
      requires forall i :: 0 <= i < |msgs| ==> Fit(msgs[i])
      requires forall i, j :: 0 <= i < j < |msgs| ==> msgs[i] != msgs[j]
      requires AtRest() && forall i :: EnvOk(envs(i))
      modifies `regs, `cur, `lines, `tgl, `live, `stray, msgs
      ensures AtRest() && live == old(live) && stray == old(stray) + Strays(msgs, envs, |msgs|)
      ensures |ts| == |msgs| && IsCsRun(css, Devices(msgs), ts) && css[0] == old(CsState()) && css[|msgs|] == CsState()
      ensures forall i :: 0 <= i < |msgs| ==> Outcome(msgs[i], envs(i), old(CountsOf(msgs[i])), css[i], ts[i])
      ensures old(Clean(CsState())) ==> (AllAlone(css, Devices(msgs), ts) <==> AllMatched(css, Devices(msgs), ts))
    {
      ghost var counts, spis := AllCounts(msgs), Devices(msgs);
      ts, css := [], [CsState()];
      hide AtRest, Fit, EnvOk, Outcome, UnmapsAstray, CountsOf, AfterMsg, Selected, Clean, AllAlone, AllMatched;
      hide Devices, AllCounts;
      for i := 0 to |msgs|
        invariant AtRest() && live == old(live) && stray == old(stray) + Strays(msgs, envs, i)
        invariant IsCsRun(css, spis, ts) && |ts| == i && css[0] == old(CsState()) && css[i] == CsState()
        invariant forall j :: 0 <= j < i ==> Outcome(msgs[j], envs(j), counts[j], css[j], ts[j])
        invariant forall j :: i <= j < |msgs| ==> Fit(msgs[j]) && CountsOf(msgs[j]) == counts[j]
      {
        ghost var t := HandleNext(msgs[i], envs(i));
        CsRunOn(css, spis, ts, t, CsState());
        ts, css := ts + [t], css + [CsState()];
      }
      if old(Clean(CsState())) {
        AloneExactly(css, spis, ts);
      }
    }

    /** s3c64xx_spi_setup; `queued` are the devices of the messages in the queue. */
    method Setup(spi: SpiDevice, hasCs: bool, queued: seq<SpiDevice>, suspended: bool) returns (err: int)
      requires !board.clkFromCmu ==> board.clkRate >= 2 && spi.maxSpeed > 0
      modifies `lines, `tgl, spi`maxSpeed
      ensures spi.bpw == old(spi.bpw)
      ensures !hasCs ==> err == -ENODEV
      ensures hasCs && spi in queued ==> err == -EBUSY
      ensures hasCs && spi !in queued && suspended ==> err == -ESHUTDOWN
      ensures !hasCs || spi in queued || suspended ==>
        lines == old(lines) && tgl == old(tgl) && spi.maxSpeed == old(spi.maxSpeed)
      ensures hasCs && spi !in queued && !suspended ==>
        && CsState() == Disabled(old(CsState()), spi) && (old(Clean(CsState())) ==> Clean(CsState()))
        && (if !(spi.bpw in {8, 16, 32}) then err == -EINVAL && spi.maxSpeed == old(spi.maxSpeed)
            else if board.clkFromCmu then err == 0 && spi.maxSpeed == old(spi.maxSpeed)
            else var deal := Negotiate(board.clkRate, old(spi.maxSpeed));
              err == deal.err && spi.maxSpeed == deal.speed)
    {
      if !hasCs {
        return -ENODEV;
      }
      for i := 0 to |queued|
        invariant spi !in queued[..i]
      {
        if queued[i] == spi {
          return -EBUSY;
        }
      }
      assert queued[..|queued|] == queued;
      if suspended {
        return -ESHUTDOWN;
      }
      err := 0;
      if spi.bpw != 8 && spi.bpw != 16 && spi.bpw != 32 {
        err := -EINVAL;
      } else if !board.clkFromCmu {
        err, spi.maxSpeed := SettleSpeed(board.clkRate, spi.maxSpeed);
      }
      DisableCs(spi);
    }

    /** The end of s3c64xx_spi_suspend: the clock has stopped. */
    method Halted()
      requires Agrees(board, Control())
      modifies `cur
      ensures Control() == Apply(board, old(Control()), Halt, true) && Agrees(board, Control()) && cur.speed == 0
    {
      cur := cur.(speed := 0);
    }

    /** s3c64xx_spi_hwinit. */
    method HwInitialize(src: Reg)
      modifies `regs, `cur
      ensures Control() == Apply(board, old(Control()), Reset(src), true) && Agrees(board, Control()) && cur.speed == 0
      ensures forall i :: (i in regs.mode <==> 19 <= i <= 28) && (i in regs.ch ==> i !in {0, 1, 5, 6})
      ensures regs.packets == None && (!board.clkFromCmu ==> regs.clk == src)
    {
      cur := cur.(speed := 0);
      regs := HwInit(board, regs, src);
    }
  }
}
