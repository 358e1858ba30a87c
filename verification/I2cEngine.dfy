/** The interrupt-driven transfer engine: what one interrupt does to the driver's state. */
module I2cEngine {
  import opened Base
  import opened I2cMessages

  datatype State = Idle | Starting | Reading | Writing | Stopped

  /** i2c->msg: a pointer into the caller's array of messages. */
  datatype Ptr = Null | At(i: nat)

  /**
   * The driver's fields, the caller's messages and the bus. `fault` says that the driver
   * has dereferenced a null or stray message pointer or stored outside a buffer.
   */
  datatype Engine = Engine(
    state: State, msgs: seq<Msg>, msg: Ptr, num: nat, idx: int, ptr: nat,
    ackEn: bool, irqEn: bool, trace: seq<Event>, fault: bool)

  /** One interrupt: the NAK bit of the status register, and the data register. */
  datatype Irq = Irq(nak: bool, data: Byte)

  predicate Readable(e: Engine)
  {
    e.msg.At? && e.msg.i < |e.msgs|
  }

  function Cur(e: Engine): Msg
    requires Readable(e)
  {
    e.msgs[e.msg.i]
  }

  // The driver compares msg_idx and msg_num unsigned; msg_num is 0 only while msg is null.

  predicate IsLastMsg(e: Engine)
  {
    e.idx >= e.num - 1
  }

  predicate IsMsgLast(e: Engine)
    requires Readable(e)
  {
    e.ptr == |Cur(e).buf| - 1
  }

  predicate IsMsgEnd(e: Engine)
    requires Readable(e)
  {
    e.ptr >= |Cur(e).buf|
  }

  function Crash(e: Engine): Engine
  {
    e.(fault := true)
  }

  function MessageStart(e: Engine, m: Msg): Engine
  {
    var addr := (m.addr % 128) * 2;
    var addr1 := if m.rd then addr + 1 else addr;
    var addr2 := if m.revDirAddr then (if addr1 % 2 == 1 then addr1 - 1 else addr1 + 1) else addr1;
    e.(ackEn := true, trace := e.trace + [Start(addr2, m.rd)])
  }

  function MasterComplete(e: Engine, ret: int): Engine
  {
    e.(ptr := 0, msg := Null, idx := if ret != 0 then ret else e.idx + 1, num := 0)
  }

  function StopXfer(e: Engine, ret: int): Engine
  {
    MasterComplete(e.(trace := e.trace + [Stop], state := Stopped), ret).(irqEn := false)
  }

  /** From doxfer: take the caller's messages and start the first one. */
  function Begin(e: Engine, msgs: seq<Msg>): Engine
    requires |msgs| > 0
  {
    var e1 := e.(msgs := msgs, msg := At(0), num := |msgs|, ptr := 0, idx := 0, state := Starting, irqEn := true);
    MessageStart(e1, msgs[0])
  }

  function NextMsg(e: Engine): Engine
    requires e.msg.At?
  {
    e.(ptr := 0, idx := e.idx + 1, msg := At(e.msg.i + 1))
  }

  /** From the label retry_write on. */
  function RetryWrite(e: Engine): Engine
    decreases |e.msgs| - (if e.msg.At? then e.msg.i else |e.msgs|)
  {
    if !Readable(e) then
      Crash(e)
    else if !IsMsgEnd(e) then
      e.(ptr := e.ptr + 1, trace := e.trace + [Put(Cur(e).buf[e.ptr])])
    else if !IsLastMsg(e) then
      var e1 := NextMsg(e);
      if !Readable(e1) then
        Crash(e1)
      else if Cur(e1).noStart then
        RetryWrite(if Cur(e1).rd then StopXfer(e1, -EINVAL) else e1)
      else
        MessageStart(e1, Cur(e1)).(state := Starting)
    else
      StopXfer(e, 0)
  }

  function OnWrite(e: Engine, irq: Irq): Engine
    requires Readable(e)
  {
    if !Cur(e).ignoreNak && irq.nak then StopXfer(e, -ECONNREFUSED) else RetryWrite(e)
  }

  /** From the label prepare_read on. */
  function PrepareRead(e: Engine): Engine
    requires Readable(e)
  {
    if IsMsgLast(e) then
      if IsLastMsg(e) then e.(ackEn := false) else e
    else if IsMsgEnd(e) then
      if IsLastMsg(e) then StopXfer(e, 0) else NextMsg(e)
    else
      e
  }

  function OnRead(e: Engine, irq: Irq): Engine
  {
    if !Readable(e) || e.ptr >= |Cur(e).buf| then
      Crash(e)
    else
      var m := Cur(e);
      var m' := m.(buf := m.buf[e.ptr := irq.data]);
      PrepareRead(e.(msgs := e.msgs[e.msg.i := m'], ptr := e.ptr + 1, trace := e.trace + [Get(irq.data, e.ackEn)]))
  }

  function OnStart(e: Engine, irq: Irq): Engine
    requires Readable(e)
  {
    if irq.nak && !Cur(e).ignoreNak then
      StopXfer(e, -ENXIO)
    else
      var e1 := e.(state := if Cur(e).rd then Reading else Writing);
      if IsLastMsg(e1) && Cur(e1).buf == [] then
        StopXfer(e1, 0)
      else if e1.state == Reading then
        PrepareRead(e1)
      else
        OnWrite(e1, irq)
  }

  /** i2c_s3c_irq_nextbyte; nothing follows a fault. */
  function Step(e: Engine, irq: Irq): Engine
  {
    if e.fault then e else
    match e.state
    case Idle => e
    case Stopped => e.(irqEn := false)
    case Starting => if Readable(e) then OnStart(e, irq) else Crash(e)
    case Writing => if Readable(e) then OnWrite(e, irq) else Crash(e)
    case Reading => OnRead(e, irq)
  }

  function Run(e: Engine, irqs: seq<Irq>): Engine
  {
    if irqs == [] then e else Step(Run(e, irqs[..|irqs| - 1]), irqs[|irqs| - 1])
  }

  /** The slave acknowledges, or the message says not to care; reads have nothing to acknowledge. */
  predicate Accepts(e: Engine, irq: Irq)
  {
    irq.nak && (e.state == Starting || e.state == Writing) && Readable(e) ==> Cur(e).ignoreNak
  }

  predicate Accepted(e: Engine, irqs: seq<Irq>)
  {
    irqs != [] ==>
      var n := |irqs| - 1;
      Accepted(e, irqs[..n]) && Accepts(Run(e, irqs[..n]), irqs[n])
  }
}
