/** The I2C driver proper: fields, interrupt handler, transfer and retry loop. */
module I2cDriver {
  import opened Base
  import opened I2cMessages
  import opened I2cEngine
  import opened I2cRun

  /** struct i2c_msg with its buffer in memory. */
  class MsgObj {
    const addr: nat
    const rd: bool
    const noStart: bool
    const ignoreNak: bool
    const revDirAddr: bool
    const buf: array<Byte>

    constructor (addr: nat, rd: bool, noStart: bool, ignoreNak: bool, revDirAddr: bool, buf: array<Byte>)
      ensures this.addr == addr && this.rd == rd && this.noStart == noStart
      ensures this.ignoreNak == ignoreNak && this.revDirAddr == revDirAddr && this.buf == buf
    {
      this.addr, this.rd, this.noStart := addr, rd, noStart;
      this.ignoreNak, this.revDirAddr, this.buf := ignoreNak, revDirAddr, buf;
    }
  }

  function Bufs(msgs: seq<MsgObj>): set<array<Byte>>
  {
    set i | 0 <= i < |msgs| :: msgs[i].buf
  }

  predicate Separate(msgs: seq<MsgObj>)
  {
    forall i, j :: 0 <= i < j < |msgs| ==> msgs[i].buf != msgs[j].buf
  }

  function Contents(msgs: seq<MsgObj>): (r: seq<Msg>)
    reads Bufs(msgs)
    ensures |r| == |msgs|
  {
    seq(|msgs|, i requires 0 <= i < |msgs| reads Bufs(msgs) => MsgOf(msgs[i]))
  }

  function MsgOf(m: MsgObj): Msg
    reads m.buf
  {
    Msg(m.addr, m.rd, m.noStart, m.ignoreNak, m.revDirAddr, m.buf[..])
  }

  /** Up to the bytes in the buffers, `seen` are the messages `msgs`. */
  ghost predicate Alike(seen: seq<Msg>, msgs: seq<MsgObj>)
  {
    |seen| == |msgs| && forall i :: 0 <= i < |msgs| ==> AlikeAt(seen[i], msgs[i])
  }

  ghost predicate AlikeAt(s: Msg, m: MsgObj)
  {
    s == Msg(m.addr, m.rd, m.noStart, m.ignoreNak, m.revDirAddr, s.buf) && |s.buf| == m.buf.Length
  }

  lemma ContentsAlike(msgs: seq<MsgObj>)
    ensures Alike(Contents(msgs), msgs)
  {
  }

  /** One call of doxfer, seen from outside: the bus-busy bits polled, the interrupts that arrive. */
  datatype Attempt = Attempt(busy: nat -> bool, irqs: seq<Irq>)

  class S3c24xxI2c {
    var state: State
    var msgs: seq<MsgObj>
    var msg: Ptr
    var num: nat
    var idx: int
    var ptr: nat
    var ackEn: bool
    var irqEn: bool
    var trace: seq<Event>
    var fault: bool
    var suspended: bool
    var clkEnabled: int
    const hdmiphy: bool
    /** The messages as the transfer sees them: where buffers are shared, memory shows the last byte stored. */
    ghost var seen: seq<Msg>

    ghost function View(): Engine
      reads this
    {
      Engine(state, seen, msg, num, idx, ptr, ackEn, irqEn, trace, fault)
    }

    /** As long as nothing was read, memory holds what is seen, even if messages share buffers. */
    ghost predicate Tied()
      reads this, Bufs(msgs)
    {
      Alike(seen, msgs) && (state == Starting || state == Writing ==> seen == Contents(msgs))
    }

    constructor (hdmiphy: bool)
      ensures View() == Engine(Idle, [], Null, 0, 0, 0, false, false, [], false)
      ensures Tied() && !suspended && clkEnabled == 0 && this.hdmiphy == hdmiphy
    {
      state, msgs, msg, num, idx, ptr := Idle, [], Null, 0, 0, 0;
      ackEn, irqEn, trace, fault := false, false, [], false;
      suspended, clkEnabled, this.hdmiphy, seen := false, 0, hdmiphy, [];
    }

    method MasterComplete(ret: int)
      modifies `ptr, `msg, `idx, `num
      ensures View() == I2cEngine.MasterComplete(old(View()), ret)
    {
      ptr := 0;
      msg := Null;
      idx := idx + 1;
      num := 0;
      if ret != 0 {
        idx := ret;
      }
    }

    method StopTransfer(ret: int)
      modifies `trace, `state, `ptr, `msg, `idx, `num, `irqEn
      ensures View() == StopXfer(old(View()), ret)
    {
      trace := trace + [Stop];
      state := Stopped;
      MasterComplete(ret);
      irqEn := false;
    }

    method StartMessage(m: MsgObj)
      modifies `ackEn, `trace
      ensures View() == MessageStart(old(View()), MsgOf(m))
    {
      var addr := (m.addr % 128) * 2;
      if m.rd {
        addr := addr + 1;
      }
      if m.revDirAddr {
        addr := if addr % 2 == 1 then addr - 1 else addr + 1;
      }
      ackEn := true;
      trace := trace + [Start(addr, m.rd)];
    }

    // The three questions of the interrupt handler about the current message.

    predicate HasMsg()
      requires Alike(seen, msgs)
      reads this
      ensures HasMsg() <==> Readable(View())
    {
      msg.At? && msg.i < |msgs|
    }

    predicate AtLastMsg()
      reads this
      ensures AtLastMsg() <==> IsLastMsg(View())
    {
      idx >= num - 1
    }

    predicate AtLastByte()
      requires Alike(seen, msgs) && HasMsg()
      reads this
      ensures AtLastByte() <==> IsMsgLast(View())
    {
      ptr == msgs[msg.i].buf.Length - 1
    }

    predicate AtMsgEnd()
      requires Alike(seen, msgs) && HasMsg()
      reads this
      ensures AtMsgEnd() <==> IsMsgEnd(View())
    {
      ptr >= msgs[msg.i].buf.Length
    }

    method AdvanceMsg()
      requires msg.At?
      modifies `ptr, `idx, `msg
      ensures View() == NextMsg(old(View()))
    {
      ptr := 0;
      idx := idx + 1;
      msg := At(msg.i + 1);
    }

    /** The code from retry_write on, whose goto is the loop. */
    method WriteNext()
      requires Tied() && state == Writing
      modifies `state, `msg, `num, `idx, `ptr, `ackEn, `irqEn, `trace, `fault
      ensures Tied() && View() == RetryWrite(old(View()))
    {
      ghost var target := RetryWrite(View());
      var retry := true;
      while retry
        invariant Tied() && (retry && msg.At? ==> state == Writing)
        invariant if retry then RetryWrite(View()) == target else View() == target
        decreases retry, |msgs| - (if msg.At? then msg.i else |msgs|)
      {
        retry := WritePass();
      }
    }

    /** One pass from retry_write on; `retry` if it ends in the goto. */
    method WritePass() returns (retry: bool)
      requires Tied() && (msg.At? ==> state == Writing)
      modifies `state, `msg, `num, `idx, `ptr, `ackEn, `irqEn, `trace, `fault
      ensures Tied() && (retry && msg.At? ==> state == Writing)
      ensures !retry ==> View() == RetryWrite(old(View()))
      ensures retry ==> RetryWrite(View()) == RetryWrite(old(View()))
      ensures retry ==> old(HasMsg()) && (msg.At? ==> msg.i == old(msg.i) + 1)
    {
      if !HasMsg() {
        fault := true;
        return false;
      }
      var m := msgs[msg.i];
      if !AtMsgEnd() {
        trace := trace + [Put(m.buf[ptr])];
        ptr := ptr + 1;
        return false;
      }
      if AtLastMsg() {
        StopTransfer(0);
        return false;
      }
      AdvanceMsg();
      if !HasMsg() {
        fault := true;
        return false;
      }
      m := msgs[msg.i];
      if m.noStart {
        if m.rd {
          StopTransfer(-EINVAL);
        }
        return true;
      }
      StartMessage(m);
      state := Starting;
      return false;
    }

    /** The code from prepare_read on. */
    method ReadNext()
      requires Alike(seen, msgs) && HasMsg() && state == Reading
      modifies `state, `msg, `num, `idx, `ptr, `ackEn, `irqEn, `trace, `fault
      ensures Tied() && View() == PrepareRead(old(View()))
    {
      if AtLastByte() {
        if AtLastMsg() {
          ackEn := false;
        }
      } else if AtMsgEnd() {
        if AtLastMsg() {
          StopTransfer(0);
        } else {
          AdvanceMsg();
        }
      }
    }

    /** i2c_s3c_irq_nextbyte, with the NAK bit of IICSTAT and the byte in IICDS. */
    method IrqNextByte(nak: bool, data: Byte)
      requires Tied()
      modifies `state, `msg, `num, `idx, `ptr, `ackEn, `irqEn, `trace, `fault, `seen, Bufs(msgs)
      ensures Tied() && View() == Step(old(View()), Irq(nak, data))
      ensures old(state) == Idle || old(fault) ==> View() == old(View())
      ensures old(state) == Stopped && !old(fault) ==> View() == old(View()).(irqEn := false)
      ensures Separate(msgs) && old(seen == Contents(msgs)) ==> seen == Contents(msgs)
    {
      hide RetryWrite, PrepareRead, OnStart, Contents, Separate;
      if fault || state == Idle {
        return;
      }
      if state == Stopped {
        irqEn := false;
        return;
      }
      if !HasMsg() {
        fault := true;
        return;
      }
      if state == Starting {
        var fallThrough := AddressSent(nak);
        if !fallThrough {
          return;
        }
      }
      if state == Writing {
        if !msgs[msg.i].ignoreNak && nak {
          StopTransfer(-ECONNREFUSED);
          return;
        }
        WriteNext();
      } else {
        ReadByte(data);
      }
    }

    /** STATE_START, which a write leaves by falling through to STATE_WRITE. */
    method AddressSent(nak: bool) returns (fallThrough: bool)
      requires Tied() && HasMsg() && state == Starting
      modifies `state, `msg, `num, `idx, `ptr, `ackEn, `irqEn, `trace, `fault
      ensures Tied() && (fallThrough ==> HasMsg() && state == Writing && fault == old(fault))
      ensures forall data ::
                var irq := Irq(nak, data);
                OnStart(old(View()), irq) == if fallThrough then OnWrite(View(), irq) else View()
    {
      hide RetryWrite, PrepareRead, Alike;
      var m := msgs[msg.i];
      assert AlikeAt(seen[msg.i], m);
      if nak && !m.ignoreNak {
        StopTransfer(-ENXIO);
        return false;
      }
      state := if m.rd then Reading else Writing;
      if AtLastMsg() && m.buf.Length == 0 {
        StopTransfer(0);
        return false;
      }
      if state == Reading {
        ReadNext();
        return false;
      }
      return true;
    }

    /** STATE_READ: store the byte that has arrived. */
    method ReadByte(data: Byte)
      requires Tied() && HasMsg() && state == Reading
      modifies `state, `msg, `num, `idx, `ptr, `ackEn, `irqEn, `trace, `fault, `seen, Bufs(msgs)
      ensures Tied() && View() == OnRead(old(View()), Irq(false, data))
      ensures Separate(msgs) && old(seen == Contents(msgs)) ==> seen == Contents(msgs)
    {
      hide PrepareRead, Contents;
      if AtMsgEnd() {
        fault := true;
        return;
      }
      StoreByte(data);
      trace := trace + [Get(data, ackEn)];
      ptr := ptr + 1;
      ReadNext();
    }

    method StoreByte(data: Byte)
      requires Alike(seen, msgs) && HasMsg() && !AtMsgEnd()
      modifies `seen, msgs[msg.i].buf
      ensures Alike(seen, msgs)
      ensures var m := old(seen[msg.i]);
              seen == old(seen)[msg.i := m.(buf := m.buf[ptr := data])]
      ensures Separate(msgs) && old(seen == Contents(msgs)) ==> seen == Contents(msgs)
    {
      var b := msgs[msg.i].buf;
      b[ptr] := data;
      seen := seen[msg.i := seen[msg.i].(buf := seen[msg.i].buf[ptr := data])];
    }

    // Transfers. What the bus, the clock and the wait do is given by the caller.

    function PollLimit(): nat
    {
      if hdmiphy then 10 else 400
    }

    /** The bus is seen free in one of the polls, or the controller can be reset. */
    ghost predicate BusFree(busy: nat -> bool)
    {
      hdmiphy || exists i :: 0 <= i < 400 && !busy(i)
    }

    /** s3c24xx_i2c_set_master: `busy(i)` is the bus-busy bit at the i-th poll. */
    method SetMaster(busy: nat -> bool) returns (ret: int)
      modifies `ackEn, `irqEn
      ensures ret == 0 || ret == -ETIMEDOUT
      ensures ret == 0 <==> BusFree(busy)
      ensures ret != 0 ==> ackEn == old(ackEn) && irqEn == old(irqEn)
      ensures if hdmiphy && (forall i :: 0 <= i < 10 ==> busy(i)) then !ackEn && !irqEn
              else ackEn == old(ackEn) && irqEn == old(irqEn)
    {
      var timeout: int := PollLimit();
      while timeout > 0
        invariant 0 <= timeout <= PollLimit()
        invariant forall i :: 0 <= i < PollLimit() - timeout ==> busy(i)
        invariant ackEn == old(ackEn) && irqEn == old(irqEn)
      {
        timeout := timeout - 1;
        if !busy(PollLimit() - timeout - 1) {
          return 0;
        }
      }
      if hdmiphy {
        ackEn, irqEn := false, false;
        return 0;
      }
      return -ETIMEDOUT;
    }

    /**
     * s3c24xx_i2c_doxfer: `irqs` are the interrupts that arrive before the wait times out.
     * `used` of them are taken; `ran` says that the transfer was started at all.
     */
    method DoXfer(ms: seq<MsgObj>, busy: nat -> bool, irqs: seq<Irq>)
      returns (ret: int, ghost ran: bool, used: nat)
      requires ms != []
      modifies `msgs, `state, `msg, `num, `idx, `ptr, `ackEn, `irqEn, `trace, `fault, `seen, Bufs(ms)
      ensures ran <==> !suspended && BusFree(busy)
      ensures !ran ==> View() == old(View()) && msgs == old(msgs) && Contents(ms) == old(Contents(ms))
      ensures !ran ==> ret == if suspended then -EIO else -EAGAIN
      ensures ran ==> used <= |irqs| && (used == |irqs| || num == 0)
      ensures ran ==> msgs == ms && View() == Run(Begin(old(View()), old(Contents(ms))), irqs[..used])
      ensures ran && Separate(ms) ==> seen == Contents(ms)
      ensures ran ==> ret == idx && ret != -EAGAIN
    {
      hide Run, Begin, CodeOk, BusFree, MsgOf, Alike, Separate;
      if suspended {
        return -EIO, false, 0;
      }
      ghost var e0 := View();
      ret := SetMaster(busy);
      if ret != 0 {
        return -EAGAIN, false, 0;
      }
      BeginForgets(e0, View(), old(Contents(ms)));
      BeginXfer(ms);
      used := WaitXfer(irqs);
      NeverTryAgain(e0, old(Contents(ms)), irqs[..used]);
      return idx, true, used;
    }

    method BeginXfer(ms: seq<MsgObj>)
      requires ms != []
      modifies `msgs, `state, `msg, `num, `idx, `ptr, `ackEn, `irqEn, `trace, `seen
      ensures msgs == ms && Tied() && seen == Contents(ms)
      ensures View() == Begin(old(View()), old(Contents(ms)))
    {
      hide Alike, MessageStart;
      TakeMessages(ms);
      msg, num, ptr, idx, state := At(0), |ms|, 0, 0, Starting;
      irqEn := true;
      StartMessage(ms[0]);
    }

    method TakeMessages(ms: seq<MsgObj>)
      modifies `msgs, `seen
      ensures msgs == ms && seen == Contents(ms) == old(Contents(ms)) && Alike(seen, msgs)
    {
      ContentsAlike(ms);
      msgs, seen := ms, Contents(ms);
    }

    /** wait_event_timeout: interrupts are taken until msg_num is zero or no more arrive in time. */
    method WaitXfer(irqs: seq<Irq>) returns (used: nat)
      requires Tied()
      modifies `state, `msg, `num, `idx, `ptr, `ackEn, `irqEn, `trace, `fault, `seen, Bufs(msgs)
      ensures used <= |irqs| && (used == |irqs| || num == 0)
      ensures Tied() && View() == Run(old(View()), irqs[..used])
      ensures Separate(msgs) && old(seen == Contents(msgs)) ==> seen == Contents(msgs)
    {
      hide Alike, Step, Separate, MsgOf;
      used := 0;
      while used < |irqs| && num != 0
        invariant used <= |irqs|
        invariant Tied() && View() == Run(old(View()), irqs[..used])
        invariant Separate(msgs) && old(seen == Contents(msgs)) ==> seen == Contents(msgs)
      {
        assert irqs[..used + 1][..used] == irqs[..used];
        IrqNextByte(irqs[used].nak, irqs[used].data);
        used := used + 1;
      }
    }

    /**
     * s3c24xx_i2c_xfer: `attempts(i)` is what happens in the i-th call of doxfer. At most one
     * transfer is started, whatever the retry limit, and the clock is left as it was found.
     * For what the code says of the transfer see `CodeMeans`.
     */
    method Xfer(ms: seq<MsgObj>, retries: int, attempts: nat -> Attempt)
      returns (ret: int, ghost ran: bool, ghost irqs: seq<Irq>)
      requires ms != []
      modifies this, Bufs(ms)
      ensures clkEnabled == old(clkEnabled) && suspended == old(suspended)
      ensures ran <==> !suspended && exists r: nat :: r < retries && BusFree(attempts(r).busy)
      ensures !ran ==> View() == old(View()) && msgs == old(msgs) && Contents(ms) == old(Contents(ms))
      ensures !ran ==> ret == if old(suspended) && retries > 0 then -EIO else -EREMOTEIO
      ensures ran ==> View() == Run(Begin(old(View()), old(Contents(ms))), irqs) && ret == idx
      ensures ran && Separate(ms) ==> seen == Contents(ms)
      ensures ran && !old(fault) ==> CodeMeans(old(Contents(ms)), old(trace), irqs, old(View()), View(), ret)
    {
      hide Run, Begin, BusFree, CodeMeans, MsgOf, Separate;
      ghost var e0, orig := View(), Contents(ms);
      ran, irqs := false, [];
      clkEnabled := clkEnabled + 1;
      var retry := 0;
      while retry < retries
        invariant retry >= 0 && clkEnabled == old(clkEnabled) + 1 && suspended == old(suspended)
        invariant forall r: nat :: r < retry ==> !BusFree(attempts(r).busy)
        invariant View() == e0 && msgs == old(msgs) && Contents(ms) == old(Contents(ms))
        invariant !ran && (retry > 0 ==> !suspended)
      {
        var used;
        ret, ran, used := DoXfer(ms, attempts(retry).busy, attempts(retry).irqs);
        if ret != -EAGAIN {
          clkEnabled := clkEnabled - 1;
          if ran {
            irqs := attempts(retry).irqs[..used];
            if !e0.fault {
              CodeMeaning(e0, orig, irqs);
            }
          }
          return;
        }
        retry := retry + 1;
      }
      clkEnabled := clkEnabled - 1;
      ret := -EREMOTEIO;
    }
  }

  /**
   * What the code `ret` of a transfer of `orig` says, unless the driver crashed on the list:
   * a negative one that the slave refused a byte, the full count that the list was delivered
   * or, the list not being supported, that the driver read through its last writes, and any
   * count that the messages counted were transferred, if the list is supported up to there.
   */
  ghost predicate CodeMeans(orig: seq<Msg>, pre: seq<Event>, irqs: seq<Irq>, before: Engine, after: Engine, ret: int)
    requires orig != []
  {
    && (after.fault ==> Crashing(orig))
    && (!after.fault ==>
          && ret <= |orig|
          && (ret < 0 <==> !Accepted(Begin(before, orig), irqs))
          && (ret == |orig| ==> if Supported(orig) then Delivered(orig, pre, after) else SilentTurn(orig))
          && (Delivered(orig, pre, after) ==> ret == |orig|)
          && (0 <= ret < |orig| ==> (Partial(orig, pre, after) <==> SupportedUpTo(orig, ret)))
          && (0 <= ret ==> (Sent(orig, pre, after, ret) <==> ret == 0 || SupportedUpTo(orig, ret - 1))))
  }

  lemma CodeMeaning(e: Engine, orig: seq<Msg>, irqs: seq<Irq>)
    requires orig != [] && !e.fault
    ensures var e' := Run(Begin(e, orig), irqs);
            CodeMeans(orig, e.trace, irqs, e, e', e'.idx)
  {
    hide Run, Begin, Accepted, Supported, SilentTurn, Delivered, Partial, Sent, SupportedUpTo;
    ReturnCode(e, orig, irqs);
    if !Run(Begin(e, orig), irqs).fault {
      NegativeExactly(e, orig, irqs);
    }
  }
}
