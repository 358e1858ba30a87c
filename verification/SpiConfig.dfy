/** The controller's configuration registers, and when they are left alone. */
module SpiConfig {
  import opened Base
  import opened SpiClock

  datatype Mode = Mode(cpol: bool, cpha: bool, csHigh: bool)

  type Word = n: nat | n > 0 witness 8

  /** cur_mode, cur_bpw and cur_speed; a speed of zero says that nothing is known. */
  datatype Settings = Settings(mode: Mode, bpw: Word, speed: nat)

  /** What the platform fixes: who divides the clock, its rate, and whether fast reads are possible. */
  datatype Board = Board(clkFromCmu: bool, clkRate: nat, highSpeed: bool)

  /** A register, as the set of the bit positions that are one. */
  type Reg = set<nat>

  /**
   * CH_CFG, CLK_CFG, MODE_CFG; PACKET_CNT, which counts only if enabled; and the rate and
   * the gate of the source clock where the CMU provides it.
   */
  datatype Regs = Regs(ch: Reg, clk: Reg, mode: Reg, packets: Option<nat>, srcRate: nat, srcOn: bool)

  // CH_CFG
  const HS_EN: Reg := {6}
  const SW_RST: Reg := {5}
  const SLAVE: Reg := {4}
  const CPOL_L: Reg := {3}
  const CPHA_B: Reg := {2}
  const RXCH_ON: Reg := {1}
  const TXCH_ON: Reg := {0}
  // CLK_CFG
  const ENCLK: Reg := {8}
  const PSR: Reg := {0, 1, 2, 3, 4, 5, 6, 7}
  // MODE_CFG
  const CH_TSZ_MASK: Reg := {29, 30}
  const CH_TSZ_HALF: Reg := {29}
  const CH_TSZ_WORD: Reg := {30}
  const BUS_TSZ_MASK: Reg := {17, 18}
  const BUS_TSZ_HALF: Reg := {17}
  const BUS_TSZ_WORD: Reg := {18}
  const RXDMA_ON: Reg := {2}
  const TXDMA_ON: Reg := {1}
  const BURST4: Reg := {0}
  const TRAILCNT: Reg := {19, 20, 21, 22, 23, 24, 25, 26, 27, 28}

  function ModeBits(m: Mode): Reg
  {
    (if m.cpol then CPOL_L else {}) + (if m.cpha then CPHA_B else {})
  }

  function SizeBits(bpw: nat): Reg
  {
    if bpw == 32 then BUS_TSZ_WORD + CH_TSZ_WORD
    else if bpw == 16 then BUS_TSZ_HALF + CH_TSZ_HALF
    else {}
  }

  /** What fits into bits `lo` to 7. */
  function Top(lo: nat): nat
    requires lo <= 8
    decreases 8 - lo
  {
    if lo == 8 then 1 else 2 * Top(lo + 1)
  }

  /** The ones of `n` when its lowest bit is put at position `lo` of a byte. */
  function Bits(n: nat, lo: nat): (r: Reg)
    requires lo <= 8 && n < Top(lo)
    ensures forall i :: i in r ==> lo <= i < 8
    decreases 8 - lo
  {
    if lo == 8 then {} else (if n % 2 == 1 then {lo} else {}) + Bits(n / 2, lo + 1)
  }

  /** The prescaler field that s3c64xx_spi_config works out for a speed. */
  function PsrBits(board: Board, speed: nat): (r: Reg)
    requires speed > 0
    ensures r <= PSR
  {
    ByteTop();
    Bits(ConfigPrescaler(board.clkRate, speed), 0)
  }

  lemma ByteTop()
    ensures Top(0) == 256
  {
    assert Top(6) == 4 && Top(4) == 16 && Top(2) == 64;
  }

  /** s3c64xx_spi_config, register by register. */
  function Config(board: Board, r: Regs, s: Settings): Regs
    requires s.speed > 0
  {
    var r1 := if board.clkFromCmu then r.(srcOn := false) else r.(clk := r.clk - ENCLK);
    var r2 := r1.(ch := r1.ch - (SLAVE + CPOL_L + CPHA_B) + ModeBits(s.mode));
    var r3 := r2.(mode := r2.mode - (BUS_TSZ_MASK + CH_TSZ_MASK) + SizeBits(s.bpw));
    if board.clkFromCmu then
      r3.(srcRate := s.speed * 2, srcOn := true)
    else
      var r4 := r3.(clk := r3.clk - PSR + PsrBits(board, s.speed));
      r4.(clk := r4.clk + ENCLK)
  }

  /** The registers read back as the settings: polarity and phase, word size, and clock. */
  predicate Decodes(board: Board, r: Regs, s: Settings)
    requires s.speed > 0
  {
    && r.ch * (SLAVE + CPOL_L + CPHA_B) == ModeBits(s.mode)
    && r.mode * (BUS_TSZ_MASK + CH_TSZ_MASK) == SizeBits(s.bpw)
    && (if board.clkFromCmu then r.srcRate == s.speed * 2 && r.srcOn
        else r.clk * (PSR + ENCLK) == PsrBits(board, s.speed) + ENCLK)
  }

  /** A transfer as enable_datapath sees it. */
  datatype Path = Path(tx: bool, rx: bool, len: nat, dma: bool)

  predicate FastRead(board: Board, s: Settings, p: Path)
  {
    p.rx && board.highSpeed && s.speed >= 30000000 && !s.mode.cpha
  }

  /** enable_datapath on the registers. */
  function EnableDatapath(board: Board, r: Regs, s: Settings, p: Path): Regs
  {
    var m0 := r.mode - (TXDMA_ON + RXDMA_ON);
    var c0 := r.ch - TXCH_ON;
    var c1 := if p.dma then c0 - RXCH_ON else c0 + RXCH_ON;
    var c2 := if p.tx then c1 + TXCH_ON else c1;
    var m2 := if p.tx && p.dma then m0 + TXDMA_ON else m0;
    var c3 := if FastRead(board, s, p) then c2 + HS_EN else c2;
    var c4 := if p.rx && p.dma then c3 + RXCH_ON else c3;
    var m4 := if p.rx && p.dma then m2 + RXDMA_ON else m2;
    var packets := if !p.dma || p.rx then Some(Packets(p.len, s.bpw)) else r.packets;
    r.(mode := m4, ch := c4, packets := packets)
  }

  /** flush_fifo on the registers. */
  function FlushFifo(r: Regs): Regs
  {
    var c1 := r.ch + SW_RST - HS_EN;
    var c2 := c1 - SW_RST;
    r.(packets := None, mode := r.mode - (TXDMA_ON + RXDMA_ON), ch := c2 - (RXCH_ON + TXCH_ON))
  }

  /** s3c64xx_spi_hwinit on the registers; `src` is the board's clock source selection. */
  function HwInit(board: Board, r: Regs, src: Reg): Regs
  {
    var r1 := if board.clkFromCmu then r else r.(clk := src);
    FlushFifo(r1.(mode := {} - BURST4 - TRAILCNT + TRAILCNT, packets := None))
  }

  /** Writing the settings makes the registers read as them, and is idle exactly if they did before. */
  lemma ConfigExact(board: Board, r: Regs, s: Settings)
    requires s.speed > 0
    ensures Decodes(board, Config(board, r, s), s)
    ensures Decodes(board, r, s) <==> Config(board, r, s) == r
  {
    hide PsrBits;
    var c := Config(board, r, s);
    assert c.ch * (SLAVE + CPOL_L + CPHA_B) == ModeBits(s.mode);
    assert c.mode * (BUS_TSZ_MASK + CH_TSZ_MASK) == SizeBits(s.bpw);
    if !board.clkFromCmu {
      assert c.clk * (PSR + ENCLK) == PsrBits(board, s.speed) + ENCLK;
    }
    if Decodes(board, r, s) {
      assert c.ch == r.ch && c.mode == r.mode && c.clk == r.clk;
    }
  }

  /** The data path and the settings live in different bits. */
  lemma DatapathKeeps(board: Board, r: Regs, s: Settings, p: Path, t: Settings)
    requires t.speed > 0
    ensures Decodes(board, EnableDatapath(board, r, s, p), t) <==> Decodes(board, r, t)
  {
    hide PsrBits, ModeBits, SizeBits, FastRead, Packets;
    var e := EnableDatapath(board, r, s, p);
    assert e.ch * (SLAVE + CPOL_L + CPHA_B) == r.ch * (SLAVE + CPOL_L + CPHA_B);
    assert e.mode * (BUS_TSZ_MASK + CH_TSZ_MASK) == r.mode * (BUS_TSZ_MASK + CH_TSZ_MASK);
  }

  lemma FlushKeeps(board: Board, r: Regs, t: Settings)
    requires t.speed > 0
    ensures Decodes(board, FlushFifo(r), t) <==> Decodes(board, r, t)
  {
    hide PsrBits, ModeBits, SizeBits;
    var e := FlushFifo(r);
    assert e.ch * (SLAVE + CPOL_L + CPHA_B) == r.ch * (SLAVE + CPOL_L + CPHA_B);
    assert e.mode * (BUS_TSZ_MASK + CH_TSZ_MASK) == r.mode * (BUS_TSZ_MASK + CH_TSZ_MASK);
  }

  lemma {:induction false} BitsInjective(m: nat, n: nat, lo: nat)
    requires lo <= 8 && m < Top(lo) && n < Top(lo) && Bits(m, lo) == Bits(n, lo)
    ensures m == n
    decreases 8 - lo
  {
    if lo < 8 {
      assert lo in Bits(m, lo) <==> m % 2 == 1;
      assert lo in Bits(n, lo) <==> n % 2 == 1;
      assert Bits(m / 2, lo + 1) == Bits(m, lo) - {lo};
      assert Bits(n / 2, lo + 1) == Bits(n, lo) - {lo};
      BitsInjective(m / 2, n / 2, lo + 1);
    }
  }

  /** Registers read as one polarity and phase, one word size and one clock only. */
  lemma DecodesUnique(board: Board, r: Regs, s: Settings, t: Settings)
    requires s.speed > 0 && t.speed > 0 && Decodes(board, r, s) && Decodes(board, r, t)
    ensures s.mode.cpol == t.mode.cpol && s.mode.cpha == t.mode.cpha
    ensures (s.bpw == 16 <==> t.bpw == 16) && (s.bpw == 32 <==> t.bpw == 32)
    ensures board.clkFromCmu ==> s.speed == t.speed
    ensures !board.clkFromCmu ==> ConfigPrescaler(board.clkRate, s.speed) == ConfigPrescaler(board.clkRate, t.speed)
  {
    hide Bits;
    assert 3 in ModeBits(s.mode) <==> 3 in ModeBits(t.mode);
    assert 2 in ModeBits(s.mode) <==> 2 in ModeBits(t.mode);
    assert 17 in SizeBits(s.bpw) <==> 17 in SizeBits(t.bpw);
    assert 18 in SizeBits(s.bpw) <==> 18 in SizeBits(t.bpw);
    if !board.clkFromCmu {
      var p, q := PsrBits(board, s.speed), PsrBits(board, t.speed);
      assert p == (p + ENCLK) * PSR && q == (q + ENCLK) * PSR;
      ByteTop();
      BitsInjective(ConfigPrescaler(board.clkRate, s.speed), ConfigPrescaler(board.clkRate, t.speed), 0);
    }
  }

  /**
   * The bits of a started transfer: channels and DMA as its buffers say. The high-speed bit is
   * set for a fast read, but also if it was still set from before.
   */
  lemma DatapathExact(board: Board, r: Regs, s: Settings, p: Path)
    ensures var e := EnableDatapath(board, r, s, p);
            && (TXCH_ON <= e.ch <==> p.tx)
            && (RXCH_ON <= e.ch <==> p.rx || !p.dma)
            && (TXDMA_ON <= e.mode <==> p.tx && p.dma)
            && (RXDMA_ON <= e.mode <==> p.rx && p.dma)
            && (HS_EN <= e.ch <==> FastRead(board, s, p) || HS_EN <= r.ch)
            && (p.rx || !p.dma ==> e.packets == Some(Packets(p.len, s.bpw)))
  {
  }

  /** The value that the sixteen-bit packet counter takes for a length. */
  function Packets(len: nat, bpw: Word): nat
  {
    (len * 8 / bpw) % 0x1_0000
  }

  /**
   * The packet counter is set to the number of words of a transfer; its sixteen bits hold that
   * number exactly up to 65535 words.
   */
  lemma PacketsExact(len: nat, bpw: Word)
    requires bpw in {8, 16, 32} && len % (bpw / 8) == 0
    ensures Packets(len, bpw) * (bpw / 8) == len <==> len / (bpw / 8) < 0x1_0000
  {
    if bpw == 8 {
      assert Packets(len, 8) == len % 0x1_0000;
    } else if bpw == 16 {
      assert Packets(len, 16) == (len / 2) % 0x1_0000;
    } else {
      assert Packets(len, 32) == (len / 4) % 0x1_0000;
    }
  }

  /** 65536 bytes are counted as none. */
  lemma PacketsWrap()
    ensures Packets(0x1_0000, 8) == 0
  {
  }

  lemma FlushClears(r: Regs)
    ensures var e := FlushFifo(r);
            && HS_EN !! e.ch && TXCH_ON !! e.ch && RXCH_ON !! e.ch
            && TXDMA_ON !! e.mode && RXDMA_ON !! e.mode && SW_RST !! e.ch && e.packets == None
  {
  }

  predicate HighSpeed(r: Regs)
  {
    HS_EN <= r.ch
  }

  lemma ConfigKeepsHighSpeed(board: Board, r: Regs, s: Settings)
    requires s.speed > 0
    ensures HighSpeed(Config(board, r, s)) <==> HighSpeed(r)
  {
    hide PsrBits;
  }

  // Runs: what the driver does to registers and cached settings, one operation after another.

  datatype Ctl = Ctl(regs: Regs, cur: Settings)

  /** `Need` asks for settings, `Halt` is the end of suspend, `Reset` is hwinit. */
  datatype Op = Need(want: Settings) | Datapath(path: Path) | Flush | Reset(src: Reg) | Halt

  function Apply(board: Board, c: Ctl, op: Op, always: bool): Ctl
    requires op.Need? ==> op.want.speed > 0
  {
    match op
    case Need(want) =>
      if always || c.cur != want then Ctl(Config(board, c.regs, want), want) else c
    case Datapath(p) => c.(regs := EnableDatapath(board, c.regs, c.cur, p))
    case Flush => c.(regs := FlushFifo(c.regs))
    case Reset(src) => Ctl(HwInit(board, c.regs, src), c.cur.(speed := 0))
    case Halt => c.(cur := c.cur.(speed := 0))
  }

  predicate Positive(ops: seq<Op>)
  {
    forall i :: 0 <= i < |ops| && ops[i].Need? ==> ops[i].want.speed > 0
  }

  /** A run that writes the settings only when they differ from the cache, or always. */
  function RunOps(board: Board, c: Ctl, ops: seq<Op>, always: bool): Ctl
    requires Positive(ops)
  {
    if ops == [] then c else Apply(board, RunOps(board, c, ops[..|ops| - 1], always), ops[|ops| - 1], always)
  }

  /** The cache is right whenever it claims anything. */
  predicate Agrees(board: Board, c: Ctl)
  {
    c.cur.speed > 0 ==> Decodes(board, c.regs, c.cur)
  }

  lemma ApplyAgrees(board: Board, c: Ctl, op: Op)
    requires Agrees(board, c) && (op.Need? ==> op.want.speed > 0)
    ensures Apply(board, c, op, false) == Apply(board, c, op, true)
    ensures Agrees(board, Apply(board, c, op, false))
    ensures op.Need? ==> Apply(board, c, op, false).cur == op.want
  {
    hide Decodes, Config, EnableDatapath, FlushFifo, HwInit;
    match op
    case Need(want) =>
      ConfigExact(board, c.regs, want);
    case Datapath(p) =>
      if c.cur.speed > 0 {
        DatapathKeeps(board, c.regs, c.cur, p, c.cur);
      }
    case Flush =>
      if c.cur.speed > 0 {
        FlushKeeps(board, c.regs, c.cur);
      }
    case Reset(src) =>
    case Halt =>
  }

  /** Main result. Configuring lazily and configuring always give the same registers, on every run. */
  lemma {:induction false} LazyIsEager(board: Board, c: Ctl, ops: seq<Op>)
    requires Agrees(board, c) && Positive(ops)
    ensures RunOps(board, c, ops, false) == RunOps(board, c, ops, true)
    ensures Agrees(board, RunOps(board, c, ops, false))
  {
    if ops != [] {
      var n := |ops| - 1;
      LazyIsEager(board, c, ops[..n]);
      ApplyAgrees(board, RunOps(board, c, ops[..n], false), ops[n]);
    }
  }

  /** One more operation. */
  lemma RunOpsOn(board: Board, c: Ctl, ops: seq<Op>, op: Op, always: bool)
    requires Positive(ops) && (op.Need? ==> op.want.speed > 0)
    ensures Positive(ops + [op])
    ensures RunOps(board, c, ops + [op], always) == Apply(board, RunOps(board, c, ops, always), op, always)
  {
    assert (ops + [op])[..|ops|] == ops;
  }

  /** A run can be cut in two. */
  lemma {:induction false} RunOpsConcat(board: Board, c: Ctl, a: seq<Op>, b: seq<Op>, always: bool)
    requires Positive(a) && Positive(b) && Positive(a + b)
    ensures RunOps(board, c, a + b, always) == RunOps(board, RunOps(board, c, a, always), b, always)
  {
    if b == [] {
      assert a + b == a;
    } else {
      var b', op := b[..|b| - 1], b[|b| - 1];
      assert a + b == (a + b') + [op] && b == b' + [op];
      assert Positive(a + b') by {
        assert forall i :: 0 <= i < |a + b'| ==> (a + b')[i] == (a + b)[i];
      }
      RunOpsConcat(board, c, a, b', always);
      RunOpsOn(board, c, a + b', op, always);
      RunOpsOn(board, RunOps(board, c, a, always), b', op, always);
    }
  }

  lemma RunOpsFour(board: Board, c: Ctl, a: Op, b: Op, d: Op, e: Op, always: bool)
    requires (a.Need? ==> a.want.speed > 0) && (b.Need? ==> b.want.speed > 0)
    requires (d.Need? ==> d.want.speed > 0) && (e.Need? ==> e.want.speed > 0)
    ensures var c2 := Apply(board, Apply(board, c, a, always), b, always);
            RunOps(board, c, [a, b, d, e], always) == Apply(board, Apply(board, c2, d, always), e, always)
  {
    hide Apply;
    RunOpsOn(board, c, [], a, always);
    RunOpsOn(board, c, [a], b, always);
    RunOpsOn(board, c, [a, b], d, always);
    RunOpsOn(board, c, [a, b, d], e, always);
    assert [] + [a] == [a] && [a] + [b] == [a, b] && [a, b] + [d] == [a, b, d] && [a, b, d] + [e] == [a, b, d, e];
  }

  /** A fast read that fails is not followed by a flush, and leaves its bit to the next transfer. */
  lemma StaleHighSpeed(board: Board, c: Ctl, fast: Settings, read: Path, slow: Settings, next: Path, always: bool)
    requires fast.speed > 0 && FastRead(board, fast, read)
    requires slow.speed > 0 && !FastRead(board, slow, next)
    ensures var ops := [Need(fast), Datapath(read), Need(slow), Datapath(next)];
            var c' := RunOps(board, c, ops, always);
            c'.cur == slow && HighSpeed(c'.regs)
  {
    hide RunOps, Config, EnableDatapath, HighSpeed, FastRead;
    var c1 := Apply(board, c, Need(fast), always);
    var c2 := Apply(board, c1, Datapath(read), always);
    var c3 := Apply(board, c2, Need(slow), always);
    DatapathHighSpeed(board, c1.regs, c1.cur, read);
    ConfigKeepsHighSpeed(board, c2.regs, slow);
    DatapathHighSpeed(board, c3.regs, c3.cur, next);
    RunOpsFour(board, c, Need(fast), Datapath(read), Need(slow), Datapath(next), always);
  }

  lemma DatapathHighSpeed(board: Board, r: Regs, s: Settings, p: Path)
    ensures HighSpeed(EnableDatapath(board, r, s, p)) <==> FastRead(board, s, p) || HighSpeed(r)
  {
    DatapathExact(board, r, s, p);
  }
}
