/** What the registers mean to the hardware, read bit by bit. */
module SpiReading {
  import opened Base
  import opened SpiClock
  import opened SpiConfig

  /** Bits `lo` to `hi - 1` of a register as a number. */
  function Field(r: Reg, lo: nat, hi: nat): nat
    decreases hi - lo
  {
    if lo >= hi then 0 else (if lo in r then 1 else 0) + 2 * Field(r, lo + 1, hi)
  }

  /** Bus and channel move words of the same size: bytes, halfwords or words. */
  predicate MovesWords(mode: Reg, bpw: nat)
  {
    && Field(mode, 17, 19) == Field(mode, 29, 31)
    && Field(mode, 29, 31) == if bpw == 32 then 2 else if bpw == 16 then 1 else 0
  }

  /** The clock runs and is divided for a speed. */
  predicate Clocked(board: Board, r: Regs, speed: nat)
    requires speed > 0
  {
    if board.clkFromCmu then r.srcOn && r.srcRate == 2 * speed
    else 8 in r.clk && Field(r.clk, 0, 8) == (board.clkRate / speed / 2 - 1) % 256
  }

  /** As master, with the polarity and phase, word size and speed of `s`. */
  predicate Reads(board: Board, r: Regs, s: Settings)
    requires s.speed > 0
  {
    && 4 !in r.ch && (3 in r.ch <==> s.mode.cpol) && (2 in r.ch <==> s.mode.cpha)
    && MovesWords(r.mode, s.bpw) && Clocked(board, r, s.speed)
  }

  lemma {:induction false} FieldFrame(r: Reg, r': Reg, lo: nat, hi: nat)
    requires forall i :: lo <= i < hi ==> (i in r <==> i in r')
    ensures Field(r, lo, hi) == Field(r', lo, hi)
    decreases hi - lo
  {
    if lo < hi {
      FieldFrame(r, r', lo + 1, hi);
    }
  }

  /** Writing a number into the low byte and reading it back. */
  lemma {:induction false} BitsRead(n: nat, lo: nat)
    requires lo <= 8 && n < Top(lo)
    ensures Field(Bits(n, lo), lo, 8) == n
    decreases 8 - lo
  {
    if lo < 8 {
      BitsRead(n / 2, lo + 1);
      FieldFrame(Bits(n, lo), Bits(n / 2, lo + 1), lo + 1, 8);
    }
  }

  lemma PairRead(r: Reg, lo: nat)
    ensures Field(r, lo, lo + 2) == (if lo in r then 1 else 0) + (if lo + 1 in r then 2 else 0)
  {
    assert Field(r, lo + 1, lo + 2) == if lo + 1 in r then 1 else 0;
  }

  /** Registers that decode to settings mean these settings to the hardware. */
  lemma DecodesReads(board: Board, r: Regs, s: Settings)
    requires s.speed > 0 && Decodes(board, r, s)
    ensures Reads(board, r, s)
  {
    hide PsrBits, SizeBits, Field;
    assert forall i :: i in {2, 3, 4} ==> (i in r.ch <==> i in r.ch * (SLAVE + CPOL_L + CPHA_B));
    SizeReads(r.mode, s.bpw);
    if !board.clkFromCmu {
      ClockReads(board, r.clk, s.speed);
    }
  }

  lemma SizeReads(mode: Reg, bpw: nat)
    requires mode * (BUS_TSZ_MASK + CH_TSZ_MASK) == SizeBits(bpw)
    ensures MovesWords(mode, bpw)
  {
    hide Field;
    PairRead(mode, 17);
    PairRead(mode, 29);
    assert forall i :: i in {17, 18, 29, 30} ==> (i in mode <==> i in SizeBits(bpw));
  }

  lemma ClockReads(board: Board, clk: Reg, speed: nat)
    requires speed > 0 && clk * (PSR + ENCLK) == PsrBits(board, speed) + ENCLK
    ensures 8 in clk && Field(clk, 0, 8) == (board.clkRate / speed / 2 - 1) % 256
  {
    hide Field, Bits;
    ByteTop();
    var n := ConfigPrescaler(board.clkRate, speed);
    BitsRead(n, 0);
    assert forall i :: 0 <= i < 8 ==> (i in clk <==> i in clk * (PSR + ENCLK));
    FieldFrame(clk, Bits(n, 0), 0, 8);
  }

  /** Main result. After config the hardware runs with the settings, whatever the registers held. */
  lemma ConfigReads(board: Board, r: Regs, s: Settings)
    requires s.speed > 0
    ensures Reads(board, Config(board, r, s), s)
  {
    hide Config, Decodes, Reads;
    ConfigExact(board, r, s);
    DecodesReads(board, Config(board, r, s), s);
  }

  /** For a speed that setup has accepted, the divider in the registers delivers that speed. */
  lemma ReadsDelivers(board: Board, r: Regs, speed: nat)
    requires speed > 0 && Clocked(board, r, speed) && !board.clkFromCmu && board.clkRate >= 2
    requires Settled(board.clkRate, speed)
    ensures (board.clkRate / 2) / (Field(r.clk, 0, 8) + 1) == speed
  {
    hide Negotiate, Field;
    ConfigRecoversDivider(board.clkRate, speed);
  }

  /** Other bits are left alone: by config, */
  lemma ConfigLeaves(board: Board, r: Regs, s: Settings, i: nat)
    requires s.speed > 0
    ensures var e := Config(board, r, s);
            && e.packets == r.packets
            && (i !in {2, 3, 4} ==> (i in e.ch <==> i in r.ch))
            && (i !in {17, 18, 29, 30} ==> (i in e.mode <==> i in r.mode))
            && (i > 8 ==> (i in e.clk <==> i in r.clk))
  {
  }

  /** by enable_datapath, of which this is all that it does, */
  lemma DatapathReads(board: Board, r: Regs, s: Settings, p: Path, i: nat)
    ensures var e := EnableDatapath(board, r, s, p);
            && (0 in e.ch <==> p.tx) && (1 in e.ch <==> p.rx || !p.dma)
            && (1 in e.mode <==> p.tx && p.dma) && (2 in e.mode <==> p.rx && p.dma)
            && (6 in e.ch <==> 6 in r.ch || (p.rx && board.highSpeed && s.speed >= 30000000 && !s.mode.cpha))
            && (i !in {0, 1, 6} ==> (i in e.ch <==> i in r.ch))
            && (i !in {1, 2} ==> (i in e.mode <==> i in r.mode))
            && e == r.(ch := e.ch, mode := e.mode, packets := e.packets)
            && (p.dma && !p.rx ==> e.packets == r.packets)
  {
  }

  /** and by flush_fifo. */
  lemma FlushReads(r: Regs, i: nat)
    ensures var e := FlushFifo(r);
            && (i in e.ch <==> i in r.ch && i !in {0, 1, 5, 6})
            && (i in e.mode <==> i in r.mode && i !in {1, 2})
            && e == r.(ch := e.ch, mode := e.mode, packets := None)
  {
  }

  /**
   * Hardware setup: no channel, DMA or high speed, no packet counter, byte-sized words with the
   * longest trailing count, and the board's clock source.
   */
  lemma HwInitReads(board: Board, r: Regs, src: Reg, i: nat)
    ensures var e := HwInit(board, r, src);
            && (i in e.ch <==> i in r.ch && i !in {0, 1, 5, 6})
            && (i in e.mode <==> 19 <= i <= 28)
            && e.packets == None && e.clk == (if board.clkFromCmu then r.clk else src)
            && e.srcRate == r.srcRate && e.srcOn == r.srcOn
  {
  }
}
