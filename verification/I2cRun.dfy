/**
 * Whole runs of interrupts: what is on the bus, when the transfer ends, and with which
 * code. `orig` is the message list as the caller gave it, `pre` the bus before the transfer.
 */
module I2cRun {
  import opened Base
  import opened I2cMessages
  import opened I2cEngine

  /** The transfer is under way: what was sent is exactly the progress the fields describe. */
  ghost predicate Tracking(orig: seq<Msg>, pre: seq<Event>, e: Engine)
  {
    && !e.fault && e.irqEn && SameShapes(orig, e.msgs)
    && 0 <= e.idx < |orig| == e.num && e.msg == At(e.idx) && e.ptr <= |e.msgs[e.idx].buf|
    && SupportedUpTo(orig, e.idx)
    && (match e.state
        case Starting => e.ptr == 0 && e.ackEn && Opens(orig, e.idx)
        case Writing => !orig[e.idx].rd
        case Reading => orig[e.idx].rd && e.ptr < |e.msgs[e.idx].buf| && e.ackEn == Acked(orig, e.idx, e.ptr)
        case _ => false)
    && e.trace == pre + Progress(e.msgs, e.idx, e.ptr)
  }

  /** Between interrupts, a write has at least one byte out for which it awaits the acknowledge. */
  ghost predicate Waiting(orig: seq<Msg>, pre: seq<Event>, e: Engine)
  {
    Tracking(orig, pre, e) && (e.state == Writing ==> e.ptr > 0)
  }

  ghost predicate SupportedUpTo(orig: seq<Msg>, n: nat)
    requires n < |orig|
  {
    forall j :: 0 < j <= n ==> SupportedAt(orig, j)
  }

  /** The transfer ended well: the bus has seen the flattened list. */
  ghost predicate Delivered(orig: seq<Msg>, pre: seq<Event>, e: Engine)
  {
    && !e.fault && e.state == Stopped && e.idx == |orig| && e.num == 0 && e.msg == Null && !e.irqEn
    && SameShapes(orig, e.msgs) && e.trace == pre + Flatten(e.msgs)
  }

  /** The transfer ended with an error: STOP followed an unacknowledged byte of message `k`. */
  ghost predicate Refused(orig: seq<Msg>, pre: seq<Event>, e: Engine, k: int, p: nat)
  {
    && !e.fault && e.state == Stopped && e.num == 0 && e.msg == Null && !e.irqEn
    && SameShapes(orig, e.msgs) && 0 <= k < |orig| && p <= |orig[k].buf| && !orig[k].ignoreNak
    && e.idx == (if p == 0 then -ENXIO else -ECONNREFUSED)
    && (p == 0 ==> Opens(orig, k)) && (p > 0 ==> !orig[k].rd)
    && e.trace == pre + Progress(e.msgs, k, p) + [Stop]
  }

  /** Steps of work left until the transfer ends. */
  function Left(e: Engine): int
    requires 0 <= e.idx < |e.msgs|
  {
    Work(e.msgs, e.idx) - e.ptr + if e.state == Starting then 1 else 0
  }

  lemma BeginTracks(e: Engine, msgs: seq<Msg>)
    requires msgs != [] && !e.fault
    ensures Tracking(msgs, e.trace, Begin(e, msgs))
    ensures Left(Begin(e, msgs)) == Work(msgs, 0) + 1
  {
    ProgressStarts(msgs, 0);
  }

  /** Of the state before it, a transfer sees only the bus. */
  lemma BeginForgets(e: Engine, e': Engine, msgs: seq<Msg>)
    requires msgs != [] && e.trace == e'.trace && e.fault == e'.fault
    ensures Begin(e, msgs) == Begin(e', msgs)
  {
  }

  /** The address byte that message_start computes is the one the bus specification asks for. */
  lemma StartByte(e: Engine, m: Msg)
    ensures MessageStart(e, m) == e.(ackEn := true, trace := e.trace + [Start(AddressByte(m), m.rd)])
    ensures AddressByte(m) / 2 == m.addr % 128
    ensures AddressByte(m) % 2 == 1 <==> (m.rd && !m.revDirAddr) || (!m.rd && m.revDirAddr)
  {
  }

  /** From a message whose bytes are all on the bus to the next one. */
  lemma MessageDone(msgs: seq<Msg>, j: nat)
    requires j < |msgs|
    ensures Progress(msgs, j, |msgs[j].buf|) == Flat(msgs, j + 1)
    ensures j + 1 < |msgs| ==> Progress(msgs, j + 1, 0) == Flat(msgs, j + 1) + Opening(msgs, j + 1)
  {
    if j + 1 < |msgs| {
      ProgressStarts(msgs, j + 1);
    }
  }

  /** Going on to a next message that is supported, with or without a START. */
  lemma NextTracks(orig: seq<Msg>, pre: seq<Event>, e: Engine)
    requires Tracking(orig, pre, e) && e.state == Writing
    requires e.ptr == |Cur(e).buf| && e.idx < e.num - 1 && SupportedAt(orig, e.idx + 1)
    ensures var e1 := NextMsg(e);
            var e2 := if Cur(e1).noStart then e1 else MessageStart(e1, Cur(e1)).(state := Starting);
            Tracking(orig, pre, e2) && Left(e2) < Left(e)
  {
    hide Progress, Flat, Bytes, MessageStart, AddressByte;
    var e1 := NextMsg(e);
    MessageDone(e.msgs, e.idx);
    StartByte(e1, Cur(e1));
    if Cur(e1).noStart {
      assert Opening(e.msgs, e1.idx) == [];
    }
  }

  // What the engine does with a list that it does not support.

  /**
   * Message `j` is the first unsupported one, and a write after a read: the engine goes on
   * reading, into the buffer that should have been written.
   */
  ghost predicate TurnAt(orig: seq<Msg>, j: nat)
  {
    0 < j < |orig| && SupportedUpTo(orig, j - 1) && orig[j - 1].rd && !orig[j].rd
  }

  /** From message `j` up to message `k` there is no empty buffer. */
  ghost predicate NonEmpty(orig: seq<Msg>, j: nat, k: nat)
    requires k <= |orig|
  {
    forall i :: j <= i < k ==> orig[i].buf != []
  }

  /** The engine reads on from such a message to the end of the list, and nobody notices. */
  ghost predicate SilentTurn(orig: seq<Msg>)
  {
    exists j: nat :: TurnAt(orig, j) && NonEmpty(orig, j, |orig|)
  }

  /** The engine ends up using a stray pointer or storing outside a buffer. */
  ghost predicate Crashing(orig: seq<Msg>)
  {
    !Supported(orig) && !SilentTurn(orig)
  }

  /** The first unsupported message decides what becomes of the list. */
  lemma FirstUnsupported(orig: seq<Msg>, j: nat)
    requires 0 < j < |orig| && SupportedUpTo(orig, j - 1) && !SupportedAt(orig, j)
    ensures !Supported(orig)
    ensures SilentTurn(orig) <==> orig[j - 1].rd && !orig[j].rd && NonEmpty(orig, j, |orig|)
  {
    forall i: nat | TurnAt(orig, i) ensures i == j {
      assert !SupportedAt(orig, i);
    }
    if orig[j - 1].rd && !orig[j].rd {
      assert TurnAt(orig, j);
    }
  }

  lemma {:induction false} WriteTracks(orig: seq<Msg>, pre: seq<Event>, e: Engine)
    requires Tracking(orig, pre, e) && e.state == Writing
    ensures var e' := RetryWrite(e);
            || (Waiting(orig, pre, e') && Left(e') < Left(e))
            || (Delivered(orig, pre, e') && Supported(orig))
            || (e'.fault && Crashing(orig))
    decreases |orig| - e.idx
  {
    hide Progress, Flat, Bytes, MessageStart, AddressByte, Work, SilentTurn;
    if e.ptr < |Cur(e).buf| {
      ProgressByte(e.msgs, e.idx, e.ptr);
    } else if e.idx == e.num - 1 {
      MessageDone(e.msgs, e.idx);
    } else {
      var e1 := NextMsg(e);
      if !SupportedAt(orig, e.idx + 1) {
        FirstUnsupported(orig, e.idx + 1);
        assert RetryWrite(StopXfer(e1, -EINVAL)).fault;
      } else {
        NextTracks(orig, pre, e);
        if Cur(e1).noStart {
          WriteTracks(orig, pre, e1);
        }
      }
    }
  }

  /** The engine is about to read, but the next message is not one it can read into. */
  ghost predicate Doomed(orig: seq<Msg>, pre: seq<Event>, e: Engine)
  {
    && !e.fault && e.state == Reading && SameShapes(orig, e.msgs)
    && 0 < e.idx < |orig| == e.num && e.msg == At(e.idx) && e.ptr == 0
    && orig[e.idx - 1].rd && SupportedUpTo(orig, e.idx - 1) && !SupportedAt(orig, e.idx)
    && e.trace == pre + Flat(e.msgs, e.idx)
  }

  /** Before prepare_read: as under way, but the acknowledge bit not yet decided. */
  ghost predicate Preparing(orig: seq<Msg>, pre: seq<Event>, e: Engine)
  {
    && !e.fault && e.irqEn && SameShapes(orig, e.msgs)
    && 0 <= e.idx < |orig| == e.num && e.msg == At(e.idx) && e.ptr <= |e.msgs[e.idx].buf|
    && SupportedUpTo(orig, e.idx)
    && e.state == Reading && orig[e.idx].rd
    && (e.ptr == 0 ==> Opens(orig, e.idx))
    && (e.ptr < |e.msgs[e.idx].buf| - 1 || e.idx < |orig| - 1 ==> e.ackEn)
    && (e.ptr == |e.msgs[e.idx].buf| - 1 ==> e.ackEn)
    && e.trace == pre + Progress(e.msgs, e.idx, e.ptr)
  }

  lemma PrepareTracks(orig: seq<Msg>, pre: seq<Event>, e: Engine)
    requires Preparing(orig, pre, e)
    ensures var e' := PrepareRead(e);
            || (Waiting(orig, pre, e') && Left(e') <= Left(e))
            || (Delivered(orig, pre, e') && Supported(orig))
            || (Doomed(orig, pre, e') && Left(e') <= Left(e))
  {
    hide Progress, Flat, Bytes;
    var e' := PrepareRead(e);
    if e.ptr < |Cur(e).buf| {
      assert Tracking(orig, pre, e');
    } else if e.idx == e.num - 1 {
      MessageDone(e.msgs, e.idx);
      assert Delivered(orig, pre, e');
    } else {
      MessageDone(e.msgs, e.idx);
      if SupportedAt(orig, e.idx + 1) {
        assert Opening(e.msgs, e.idx + 1) == [];
        assert Tracking(orig, pre, e');
      } else {
        assert Doomed(orig, pre, e');
      }
    }
  }

  lemma ReadTracks(orig: seq<Msg>, pre: seq<Event>, e: Engine, irq: Irq)
    requires Tracking(orig, pre, e) && e.state == Reading
    ensures var e' := OnRead(e, irq);
            || (Waiting(orig, pre, e') && Left(e') < Left(e))
            || (Delivered(orig, pre, e') && Supported(orig))
            || (Doomed(orig, pre, e') && Left(e') < Left(e))
  {
    hide Progress, Flat, Bytes, Work;
    var m := Cur(e);
    var m' := m.(buf := m.buf[e.ptr := irq.data]);
    var e1 := e.(msgs := e.msgs[e.idx := m'], ptr := e.ptr + 1, trace := e.trace + [Get(irq.data, e.ackEn)]);
    ProgressFrame(e.msgs, e.idx, e.ptr, irq.data);
    WorkFrame(e.msgs, e1.msgs, e.idx);
    PrepareTracks(orig, pre, e1);
  }

  lemma StartTracks(orig: seq<Msg>, pre: seq<Event>, e: Engine, irq: Irq)
    requires Tracking(orig, pre, e) && e.state == Starting
    ensures var e' := OnStart(e, irq);
            || (Waiting(orig, pre, e') && Left(e') < Left(e))
            || (Delivered(orig, pre, e') && Supported(orig))
            || (Doomed(orig, pre, e') && Left(e') < Left(e))
            || (e'.fault && Crashing(orig))
            || (!Accepts(e, irq) && Refused(orig, pre, e', e.idx, 0))
  {
    hide Progress, Flat, Bytes, Work, Crashing;
    var e1 := e.(state := if Cur(e).rd then Reading else Writing);
    if irq.nak && !Cur(e).ignoreNak {
    } else if IsLastMsg(e) && Cur(e).buf == [] {
      MessageDone(e.msgs, e.idx);
    } else if Cur(e).rd {
      PrepareTracks(orig, pre, e1);
    } else {
      WriteTracks(orig, pre, e1);
    }
  }

  /** One interrupt of a transfer under way. */
  lemma StepTracks(orig: seq<Msg>, pre: seq<Event>, e: Engine, irq: Irq)
    requires Waiting(orig, pre, e)
    ensures var e' := Step(e, irq);
            || (Waiting(orig, pre, e') && Left(e') < Left(e))
            || (Delivered(orig, pre, e') && Supported(orig))
            || (Doomed(orig, pre, e') && Left(e') < Left(e))
            || (e'.fault && Crashing(orig))
            || (!Accepts(e, irq) && Refused(orig, pre, e', e.idx, e.ptr))
  {
    hide Progress, Flat, Flatten, Work, RetryWrite, PrepareRead, Crashing;
    match e.state
    case Starting => StartTracks(orig, pre, e, irq);
    case Reading => ReadTracks(orig, pre, e, irq);
    case Writing =>
      if Cur(e).ignoreNak || !irq.nak {
        WriteTracks(orig, pre, e);
      }
  }

  lemma {:induction false} RetryGrows(e: Engine)
    ensures e.trace <= RetryWrite(e).trace && RetryWrite(e).msgs == e.msgs
    decreases |e.msgs| - (if e.msg.At? then e.msg.i else |e.msgs|)
  {
    if Readable(e) && IsMsgEnd(e) && !IsLastMsg(e) && Readable(NextMsg(e)) {
      var e1 := NextMsg(e);
      RetryGrows(if Cur(e1).rd then StopXfer(e1, -EINVAL) else e1);
    }
  }

  lemma PrepareGrows(e: Engine)
    requires Readable(e)
    ensures e.trace <= PrepareRead(e).trace && PrepareRead(e).msgs == e.msgs && PrepareRead(e).fault == e.fault
  {
  }

  lemma ReadGrows(e: Engine, irq: Irq)
    ensures e.trace <= OnRead(e, irq).trace && SameHeads(e.msgs, OnRead(e, irq).msgs)
  {
    hide PrepareRead;
    if Readable(e) && e.ptr < |Cur(e).buf| {
      var m' := Cur(e).(buf := Cur(e).buf[e.ptr := irq.data]);
      PrepareGrows(e.(msgs := e.msgs[e.msg.i := m'], ptr := e.ptr + 1, trace := e.trace + [Get(irq.data, e.ackEn)]));
    }
  }

  lemma StartGrows(e: Engine, irq: Irq)
    requires Readable(e)
    ensures e.trace <= OnStart(e, irq).trace && OnStart(e, irq).msgs == e.msgs
  {
    hide RetryWrite, PrepareRead;
    PrepareGrows(e.(state := Reading));
    RetryGrows(e.(state := Writing));
  }

  /** No interrupt takes anything back from the bus, or changes a message but for buffer bytes. */
  lemma StepGrows(e: Engine, irq: Irq)
    ensures e.trace <= Step(e, irq).trace && SameHeads(e.msgs, Step(e, irq).msgs)
  {
    hide RetryWrite, OnRead, OnStart;
    ReadGrows(e, irq);
    if Readable(e) {
      StartGrows(e, irq);
      RetryGrows(e);
    }
  }

  /** Messages 0 to `k - 1` are on the bus, and in their buffers, as they should be. */
  ghost predicate Sent(orig: seq<Msg>, pre: seq<Event>, e: Engine, k: nat)
    requires k <= |orig|
  {
    && |e.msgs| == |orig| && (forall i :: 0 <= i < k ==> SameShape(orig[i], e.msgs[i]))
    && pre + Flat(e.msgs, k) <= e.trace
  }

  /** The transfer broke off in message `idx`, with `ptr` bytes of it on the bus. */
  ghost predicate Partial(orig: seq<Msg>, pre: seq<Event>, e: Engine)
  {
    && SameShapes(orig, e.msgs) && 0 <= e.idx < |orig| && e.ptr <= |e.msgs[e.idx].buf|
    && e.trace == pre + Progress(e.msgs, e.idx, e.ptr)
    && (e.ptr < |e.msgs[e.idx].buf| || e.state == Starting || e.state == Writing)
  }

  /** All went well up to message `j`; where that needs a START, the bus has seen a received byte. */
  ghost predicate WrongTurn(orig: seq<Msg>, pre: seq<Event>, e: Engine, j: nat)
  {
    && 0 < j < |orig| && orig[j].rd != orig[j - 1].rd && SameHeads(orig, e.msgs) && Sent(orig, pre, e, j)
    && |pre| + |Flat(e.msgs, j)| < |e.trace|
    && e.trace[|pre| + |Flat(e.msgs, j)|].Get?
  }

  /** The engine reads from the turn at `j` on, or has read to the end of the list. */
  ghost predicate Straying(orig: seq<Msg>, e: Engine, j: nat)
  {
    && TurnAt(orig, j) && !e.fault && SameHeads(orig, e.msgs)
    && (match e.state
        case Reading =>
          && j <= e.idx < |orig| == e.num && e.msg == At(e.idx) && NonEmpty(orig, j, e.idx)
          && (e.ptr == 0 || e.ptr < |e.msgs[e.idx].buf|)
        case Stopped => e.idx == |orig| && e.num == 0 && e.msg == Null && NonEmpty(orig, j, |orig|)
        case _ => false)
  }

  ghost predicate Strayed(orig: seq<Msg>, pre: seq<Event>, e: Engine)
  {
    exists j: nat :: Straying(orig, e, j) && WrongTurn(orig, pre, e, j)
  }

  lemma StrayingPrepare(orig: seq<Msg>, e: Engine, j: nat)
    requires TurnAt(orig, j) && !e.fault && SameHeads(orig, e.msgs) && e.state == Reading
    requires j <= e.idx < |orig| == e.num && e.msg == At(e.idx) && NonEmpty(orig, j, e.idx)
    requires 0 < e.ptr <= |e.msgs[e.idx].buf|
    ensures var e' := PrepareRead(e);
            Straying(orig, e', j) && (e'.state == Reading ==> Left(e') <= Left(e))
  {
    hide TurnAt;
  }

  lemma StrayingStep(orig: seq<Msg>, e: Engine, irq: Irq, j: nat)
    requires Straying(orig, e, j) && e.state == Reading && Cur(e).buf != []
    ensures var e' := Step(e, irq);
            Straying(orig, e', j) && (e'.state == Reading ==> Left(e') < Left(e))
  {
    hide PrepareRead, Work, TurnAt;
    var m' := Cur(e).(buf := Cur(e).buf[e.ptr := irq.data]);
    var e1 := e.(msgs := e.msgs[e.idx := m'], ptr := e.ptr + 1, trace := e.trace + [Get(irq.data, e.ackEn)]);
    WorkFrame(e.msgs, e1.msgs, e.idx);
    StrayingPrepare(orig, e1, j);
  }

  /** The transfer is not over: under way, or on its way to going wrong. */
  ghost predicate Live(orig: seq<Msg>, pre: seq<Event>, e: Engine)
  {
    Waiting(orig, pre, e) || Doomed(orig, pre, e) || (Strayed(orig, pre, e) && e.state == Reading)
  }

  /** The transfer is over without a refusal: delivered, silently wrong, or crashed. */
  ghost predicate Ended(orig: seq<Msg>, pre: seq<Event>, e: Engine)
  {
    || (Delivered(orig, pre, e) && Supported(orig))
    || (Strayed(orig, pre, e) && e.state == Stopped)
    || (e.fault && Crashing(orig))
  }

  lemma LiveInRange(orig: seq<Msg>, pre: seq<Event>, e: Engine)
    requires Live(orig, pre, e)
    ensures 0 <= e.idx < |e.msgs| && Left(e) > 0 && !e.fault
  {
    hide Progress, Flat;
  }

  lemma StrayedStep(orig: seq<Msg>, pre: seq<Event>, e: Engine, irq: Irq)
    requires Strayed(orig, pre, e) && e.state == Reading
    ensures var e' := Step(e, irq);
            Ended(orig, pre, e') || (Strayed(orig, pre, e') && e'.state == Reading && Left(e') < Left(e))
  {
    hide Flat, PrepareRead, Delivered, Work, Left, SilentTurn, Step;
    var j: nat :| Straying(orig, e, j) && WrongTurn(orig, pre, e, j);
    if Cur(e).buf == [] {
      FirstUnsupported(orig, j);
      EmptyReadCrashes(e, irq);
    } else {
      StrayingStep(orig, e, irq, j);
      ReadsOneByte(e, irq);
      FlatFrame(e.msgs, Step(e, irq).msgs, j);
      assert WrongTurn(orig, pre, Step(e, irq), j);
    }
  }

  lemma EmptyReadCrashes(e: Engine, irq: Irq)
    requires e.state == Reading && Readable(e) && Cur(e).buf == []
    ensures Step(e, irq).fault
  {
  }

  lemma DoomedStep(orig: seq<Msg>, pre: seq<Event>, e: Engine, irq: Irq)
    requires Doomed(orig, pre, e)
    ensures var e' := Step(e, irq);
            Ended(orig, pre, e') || (Strayed(orig, pre, e') && e'.state == Reading && Left(e') < Left(e))
  {
    hide Flat, PrepareRead, Delivered, Work, Left, SilentTurn, Step;
    FirstUnsupported(orig, e.idx);
    if Cur(e).buf == [] {
      EmptyReadCrashes(e, irq);
    } else {
      StrayingStep(orig, e, irq, e.idx);
      ReadsOneByte(e, irq);
      FlatFrame(e.msgs, Step(e, irq).msgs, e.idx);
      assert WrongTurn(orig, pre, Step(e, irq), e.idx);
    }
  }

  lemma ReadsOneByte(e: Engine, irq: Irq)
    requires !e.fault && e.state == Reading && Readable(e) && e.ptr < |Cur(e).buf|
    ensures e.trace + [Get(irq.data, e.ackEn)] <= Step(e, irq).trace
    ensures Step(e, irq).msgs == e.msgs[e.msg.i := Cur(e).(buf := Cur(e).buf[e.ptr := irq.data])]
  {
    hide PrepareRead;
    var m' := Cur(e).(buf := Cur(e).buf[e.ptr := irq.data]);
    PrepareGrows(e.(msgs := e.msgs[e.msg.i := m'], ptr := e.ptr + 1, trace := e.trace + [Get(irq.data, e.ackEn)]));
  }

  lemma OpensWithStart(msgs: seq<Msg>, j: nat)
    requires j < |msgs| && Opens(msgs, j)
    ensures |Flat(msgs, j)| < |Flat(msgs, j + 1)| && Flat(msgs, j + 1)[|Flat(msgs, j)|].Start?
  {
  }

  /** A message that needs a START gets it, on the way to any later message and beyond. */
  lemma StartsWhereItShould(msgs: seq<Msg>, j: nat, n: nat)
    requires j < n <= |msgs| && Opens(msgs, j)
    ensures |Flat(msgs, j)| < |Flat(msgs, n)| && Flat(msgs, n)[|Flat(msgs, j)|].Start?
  {
    hide Flat, Opens;
    FlatPrefix(msgs, j + 1, n);
    OpensWithStart(msgs, j);
  }

  lemma ProgressOpens(msgs: seq<Msg>, j: nat, n: nat, k: nat)
    requires j <= n < |msgs| && Opens(msgs, j) && k <= |msgs[n].buf|
    ensures |Flat(msgs, j)| < |Progress(msgs, n, k)| && Progress(msgs, n, k)[|Flat(msgs, j)|].Start?
  {
    hide Flat;
    if j < n {
      StartsWhereItShould(msgs, j, n);
    }
  }

  lemma StrayedIsNotDelivered(orig: seq<Msg>, pre: seq<Event>, e: Engine)
    requires Strayed(orig, pre, e)
    ensures !e.fault && !Delivered(orig, pre, e) && !Supported(orig)
    ensures e.state == Stopped ==> SilentTurn(orig) && e.idx == |orig|
    ensures e.state == Reading ==> 0 <= e.idx < |orig| && !SupportedUpTo(orig, e.idx)
  {
    hide Flat;
    var j: nat :| Straying(orig, e, j) && WrongTurn(orig, pre, e, j);
    assert !SupportedAt(orig, j);
    StartsWhereItShould(e.msgs, j, |orig|);
  }

  /** Past the turn, the count is one too many unless the message of the turn is the current one. */
  lemma StrayedCount(orig: seq<Msg>, pre: seq<Event>, e: Engine)
    requires Strayed(orig, pre, e)
    ensures 0 < e.idx <= |orig| && (Sent(orig, pre, e, e.idx) <==> SupportedUpTo(orig, e.idx - 1))
    ensures !Partial(orig, pre, e)
  {
    hide Flat, Progress, SameShapes;
    var j: nat :| Straying(orig, e, j) && WrongTurn(orig, pre, e, j);
    assert !SupportedAt(orig, j);
    if j < e.idx {
      StartsWhereItShould(e.msgs, j, e.idx);
    }
    if e.state == Reading && e.ptr <= |e.msgs[e.idx].buf| {
      ProgressOpens(e.msgs, j, e.idx, e.ptr);
    }
  }

  lemma DoomedCount(orig: seq<Msg>, pre: seq<Event>, e: Engine)
    requires Doomed(orig, pre, e)
    ensures Sent(orig, pre, e, e.idx) && !Partial(orig, pre, e)
  {
    hide Flat, Progress;
    ProgressStarts(e.msgs, e.idx);
    if orig[e.idx].rd {
    } else {
      ProgressOpens(e.msgs, e.idx, e.idx, 0);
    }
  }

  lemma WaitingCount(orig: seq<Msg>, pre: seq<Event>, e: Engine)
    requires Waiting(orig, pre, e)
    ensures Sent(orig, pre, e, e.idx) && Partial(orig, pre, e)
  {
    hide Flat;
  }

  lemma DeliveredCount(orig: seq<Msg>, pre: seq<Event>, e: Engine)
    requires Delivered(orig, pre, e)
    ensures Sent(orig, pre, e, |orig|)
  {
    hide Flat;
  }

  /**
   * Where a run from `Begin` can be: under way or about to go wrong, over, or refused for a
   * message. The ways to go wrong are open to unsupported lists only.
   */
  ghost predicate Phase(orig: seq<Msg>, pre: seq<Event>, e: Engine)
  {
    Live(orig, pre, e) || Ended(orig, pre, e) || exists k: int, p: nat :: Refused(orig, pre, e, k, p)
  }

  /** Every run of interrupts, acknowledged or not, stays in one of the phases. */
  lemma {:induction false} RunPhase(e: Engine, msgs: seq<Msg>, irqs: seq<Irq>)
    requires msgs != [] && !e.fault
    ensures Phase(msgs, e.trace, Run(Begin(e, msgs), irqs))
  {
    BeginTracks(e, msgs);
    if irqs != [] {
      var n := |irqs| - 1;
      RunPhase(e, msgs, irqs[..n]);
      PhaseStep(msgs, e.trace, Run(Begin(e, msgs), irqs[..n]), irqs[n]);
    }
  }

  lemma PhaseStep(orig: seq<Msg>, pre: seq<Event>, e: Engine, irq: Irq)
    requires Phase(orig, pre, e)
    ensures Phase(orig, pre, Step(e, irq))
  {
    hide Live, Ended, Refused, Step;
    if Live(orig, pre, e) {
      LiveStep(orig, pre, e, irq);
    } else if Ended(orig, pre, e) {
      EndedStep(orig, pre, e, irq);
    } else {
      var k: int, p: nat :| Refused(orig, pre, e, k, p);
      RefusedStep(orig, pre, e, irq, k, p);
    }
  }

  /** Each interrupt brings a transfer that is not over closer to its end, or ends it. */
  lemma LiveStep(orig: seq<Msg>, pre: seq<Event>, e: Engine, irq: Irq)
    requires Live(orig, pre, e)
    ensures var e' := Step(e, irq);
            || Ended(orig, pre, e')
            || (Live(orig, pre, e') && 0 <= e.idx < |e.msgs| && 0 <= e'.idx < |e'.msgs| && Left(e') < Left(e))
            || (!Accepts(e, irq) && exists k: int, p: nat :: Refused(orig, pre, e', k, p))
  {
    hide Waiting, Doomed, Strayed, Step, Left, Delivered, Crashing;
    var e' := Step(e, irq);
    LiveInRange(orig, pre, e);
    if Waiting(orig, pre, e) {
      StepTracks(orig, pre, e, irq);
    } else if Doomed(orig, pre, e) {
      DoomedStep(orig, pre, e, irq);
    } else {
      StrayedStep(orig, pre, e, irq);
    }
    if Live(orig, pre, e') {
      LiveInRange(orig, pre, e');
    }
  }

  lemma EndedStep(orig: seq<Msg>, pre: seq<Event>, e: Engine, irq: Irq)
    requires Ended(orig, pre, e)
    ensures Ended(orig, pre, Step(e, irq))
  {
    hide Flat, Flatten;
    if Strayed(orig, pre, e) && e.state == Stopped {
      var j: nat :| Straying(orig, e, j) && WrongTurn(orig, pre, e, j);
      assert Straying(orig, Step(e, irq), j) && WrongTurn(orig, pre, Step(e, irq), j);
    }
  }

  lemma RefusedStep(orig: seq<Msg>, pre: seq<Event>, e: Engine, irq: Irq, k: int, p: nat)
    requires Refused(orig, pre, e, k, p)
    ensures Refused(orig, pre, Step(e, irq), k, p)
  {
  }

  /**
   * While all bytes are acknowledged, after each interrupt either less work is left or the
   * transfer is over, whatever the list.
   */
  lemma {:induction false} AcceptedRun(e: Engine, msgs: seq<Msg>, irqs: seq<Irq>)
    requires msgs != [] && !e.fault
    requires Accepted(Begin(e, msgs), irqs)
    ensures var e' := Run(Begin(e, msgs), irqs);
            || Ended(msgs, e.trace, e')
            || (Live(msgs, e.trace, e') && 0 <= e'.idx < |e'.msgs| && Left(e') + |irqs| <= Work(msgs, 0) + 1)
  {
    BeginTracks(e, msgs);
    if irqs != [] {
      var n := |irqs| - 1;
      AcceptedRun(e, msgs, irqs[..n]);
      var e1 := Run(Begin(e, msgs), irqs[..n]);
      hide Live, Ended, Begin, Accepts, Work, Left, Step;
      if Ended(msgs, e.trace, e1) {
        EndedStep(msgs, e.trace, e1, irqs[n]);
      } else {
        LiveStep(msgs, e.trace, e1, irqs[n]);
      }
    }
  }

  /**
   * Main result. Run for long enough with every byte acknowledged, the driver delivers
   * exactly the flattened list if and only if the list is supported. It crashes, or counts
   * all messages, exactly for the lists that say so.
   */
  lemma {:induction false} DeliversExactly(e: Engine, msgs: seq<Msg>, irqs: seq<Irq>)
    requires msgs != [] && !e.fault
    requires Accepted(Begin(e, msgs), irqs) && |irqs| > Work(msgs, 0)
    ensures var e' := Run(Begin(e, msgs), irqs);
            && (Delivered(msgs, e.trace, e') <==> Supported(msgs))
            && (!e'.fault && e'.idx == |msgs| <==> Supported(msgs) || SilentTurn(msgs))
            && (e'.fault <==> Crashing(msgs))
  {
    hide Delivered, Live, Supported, SilentTurn, Strayed, Begin, Run, Accepted, Left, Work;
    var e' := Run(Begin(e, msgs), irqs);
    AcceptedRun(e, msgs, irqs);
    if Live(msgs, e.trace, e') {
      LiveInRange(msgs, e.trace, e');
    }
    EndedMeans(msgs, e.trace, e');
  }

  lemma EndedMeans(orig: seq<Msg>, pre: seq<Event>, e: Engine)
    requires Ended(orig, pre, e)
    ensures Delivered(orig, pre, e) <==> Supported(orig)
    ensures !e.fault && e.idx == |orig| <==> Supported(orig) || SilentTurn(orig)
    ensures e.fault <==> Crashing(orig)
  {
    hide Strayed, SilentTurn, Supported, Flatten;
    SilentUnsupported(orig);
    if Strayed(orig, pre, e) && e.state == Stopped {
      StrayedIsNotDelivered(orig, pre, e);
    }
  }

  lemma SilentUnsupported(orig: seq<Msg>)
    ensures SilentTurn(orig) ==> !Supported(orig)
  {
    if SilentTurn(orig) {
      var j: nat :| TurnAt(orig, j) && NonEmpty(orig, j, |orig|);
      assert !SupportedAt(orig, j);
    }
  }

  /** Reading the only byte of a message that is not the last. */
  lemma OneByteRead(e: Engine, b: Byte)
    requires !e.fault && e.state == Reading && Readable(e) && e.ptr == 0 && |Cur(e).buf| == 1 && !IsLastMsg(e)
    ensures Step(e, Irq(false, b)) == e.(msgs := e.msgs[e.msg.i := Cur(e).(buf := [b])], ptr := 0, idx := e.idx + 1,
                                         msg := At(e.msg.i + 1), trace := e.trace + [Get(b, e.ackEn)])
  {
    assert Cur(e).buf[0 := b] == [b];
  }

  /**
   * The full count for a list of which half was not sent: a write after a read is never
   * started, and its buffer is overwritten with a byte read.
   */
  lemma FullCountUndelivered(e: Engine, addr: nat, out: Byte, x: Byte, y: Byte)
    requires !e.fault
    ensures var read := Msg(addr, true, false, false, false, [0]);
            var write := Msg(addr, false, false, false, false, [out]);
            var irqs := [Irq(false, 0), Irq(false, x), Irq(false, y)];
            var e' := Run(Begin(e, [read, write]), irqs);
            && Accepted(Begin(e, [read, write]), irqs)
            && e'.state == Stopped && !e'.fault && e'.idx == 2
            && e'.trace == e.trace + [Start(AddressByte(read), true), Get(x, true), Get(y, true), Stop]
            && e'.msgs == [read.(buf := [x]), write.(buf := [y])]
            && SilentTurn([read, write])
  {
    var read := Msg(addr, true, false, false, false, [0]);
    var write := Msg(addr, false, false, false, false, [out]);
    var e0 := Begin(e, [read, write]);
    var e1 := e0.(state := Reading);
    var e2 := e1.(msgs := [read.(buf := [x]), write], ptr := 0, idx := 1, msg := At(1),
                  trace := e1.trace + [Get(x, true)]);
    assert Step(e0, Irq(false, 0)) == e1;
    OneByteRead(e1, x);
    assert e1.msgs[0 := read.(buf := [x])] == e2.msgs;
    assert [out][0 := y] == [y];
    assert e2.msgs[1 := write.(buf := [y])] == [read.(buf := [x]), write.(buf := [y])];
    assert TurnAt([read, write], 1);
    hide Begin;
    RunOfThree(e0, Irq(false, 0), Irq(false, x), Irq(false, y));
  }

  lemma RunOfThree(e: Engine, a: Irq, b: Irq, c: Irq)
    ensures Run(e, [a, b, c]) == Step(Step(Step(e, a), b), c)
    ensures Accepted(e, [a, b, c]) <==>
            Accepts(e, a) && Accepts(Step(e, a), b) && Accepts(Step(Step(e, a), b), c)
  {
    hide Step, Accepts;
    assert [a, b, c][..2] == [a, b] && [a, b][..1] == [a] && [a][..0] == [];
    assert Run(e, [a]) == Step(e, a) && Run(e, [a, b]) == Step(Step(e, a), b);
    assert Run(e, []) == e && (Accepted(e, [a]) <==> Accepts(e, a));
    assert Accepted(e, [a, b]) <==> Accepts(e, a) && Accepts(Step(e, a), b);
  }

  lemma CountRun(e: Engine, read: Msg, write: Msg, x: Byte, y: Byte)
    requires !e.fault && read.rd && !write.rd && !read.ignoreNak && |read.buf| == |write.buf| == 1
    ensures var msgs, irqs := [read, write, read], [Irq(false, 0), Irq(false, x), Irq(false, y)];
            var e' := Run(Begin(e, msgs), irqs);
            && Accepted(Begin(e, msgs), irqs) && !e'.fault && e'.idx == 2
            && e'.trace == e.trace + [Start(AddressByte(read), true), Get(x, true), Get(y, true)]
            && e'.msgs == [read.(buf := [x]), write.(buf := [y]), read]
  {
    hide AddressByte;
    var msgs := [read, write, read];
    var e0 := Begin(e, msgs);
    var e1 := e0.(state := Reading);
    StartByte(e0, read);
    assert Step(e0, Irq(false, 0)) == e1;
    OneByteRead(e1, x);
    var e2 := Step(e1, Irq(false, x));
    assert e2.msgs == [read.(buf := [x]), write, read];
    OneByteRead(e2, y);
    var e3 := Step(e2, Irq(false, y));
    assert e3.msgs == [read.(buf := [x]), write.(buf := [y]), read];
    assert e0.trace == e.trace + [Start(AddressByte(read), true)] by {
      StartByte(e.(msgs := msgs, msg := At(0), num := 3, ptr := 0, idx := 0, state := Starting, irqEn := true), read);
    }
    hide Step, Begin;
    RunOfThree(e0, Irq(false, 0), Irq(false, x), Irq(false, y));
  }

  /**
   * A count that is too high: of a read, a write and a read of one byte each, two are counted
   * when the third has not begun, and the write was not sent.
   */
  lemma CountUndelivered(e: Engine, addr: nat, out: Byte, x: Byte, y: Byte)
    requires !e.fault
    ensures var read := Msg(addr, true, false, false, false, [0]);
            var write := Msg(addr, false, false, false, false, [out]);
            var msgs, irqs := [read, write, read], [Irq(false, 0), Irq(false, x), Irq(false, y)];
            var e' := Run(Begin(e, msgs), irqs);
            && Accepted(Begin(e, msgs), irqs) && !e'.fault && e'.idx == 2
            && e'.trace == e.trace + [Start(AddressByte(read), true), Get(x, true), Get(y, true)]
            && !Sent(msgs, e.trace, e', 2) && Sent(msgs, e.trace, e', 1)
  {
    hide Begin, Run, Accepted, Sent;
    var read := Msg(addr, true, false, false, false, [0]);
    var write := Msg(addr, false, false, false, false, [out]);
    var msgs, irqs := [read, write, read], [Irq(false, 0), Irq(false, x), Irq(false, y)];
    CountRun(e, read, write, x, y);
    FirstReadOnly(e.trace, msgs, Run(Begin(e, msgs), irqs), x);
  }

  lemma FirstReadOnly(pre: seq<Event>, orig: seq<Msg>, e: Engine, x: Byte)
    requires |orig| == |e.msgs| == 3 && SameShape(orig[0], e.msgs[0])
    requires orig[0].rd && e.msgs[0].buf == [x] && e.msgs[0].rd && !e.msgs[1].rd
    requires |e.trace| == |pre| + 3 && e.trace[|pre| + 2].Get?
    requires e.trace[..|pre| + 2] == pre + [Start(AddressByte(e.msgs[0]), true), Get(x, true)]
    ensures Sent(orig, pre, e, 1) && !Sent(orig, pre, e, 2)
  {
    assert Bytes(e.msgs, 0, 1) == [Get(x, true)];
    assert Flat(e.msgs, 1) == [Start(AddressByte(e.msgs[0]), true), Get(x, true)];
    hide Flat;
    StartsWhereItShould(e.msgs, 1, 2);
  }

  /**
   * The return code of doxfer, read from msg_idx after any interrupts whatever, for any list
   * on which the driver does not crash. A count `k` says that messages 0 to k-1 were
   * transferred exactly if the list is supported up to message k-1, and that of message `k` a
   * byte or an acknowledge is outstanding exactly if it is supported up to `k`. The number of
   * messages is returned exactly on clean completion, or after a silent turn.
   */
  lemma ReturnCode(e: Engine, msgs: seq<Msg>, irqs: seq<Irq>)
    requires msgs != [] && !e.fault
    ensures var e' := Run(Begin(e, msgs), irqs);
            && (e'.fault ==> Crashing(msgs))
            && (!e'.fault ==>
                  && -ECONNREFUSED <= e'.idx <= |msgs| && e'.idx != -EAGAIN
                  && (e'.idx < 0 <==> exists k: int, p: nat :: Refused(msgs, e.trace, e', k, p))
                  && (e'.idx == |msgs| ==> if Supported(msgs) then Delivered(msgs, e.trace, e') else SilentTurn(msgs))
                  && (Delivered(msgs, e.trace, e') ==> e'.idx == |msgs| && Supported(msgs))
                  && (0 <= e'.idx < |msgs| ==> (Partial(msgs, e.trace, e') <==> SupportedUpTo(msgs, e'.idx)))
                  && (0 <= e'.idx ==>
                        (Sent(msgs, e.trace, e', e'.idx) <==> e'.idx == 0 || SupportedUpTo(msgs, e'.idx - 1))))
  {
    hide Begin, Run;
    RunPhase(e, msgs, irqs);
    CodeOfPhase(msgs, e.trace, Run(Begin(e, msgs), irqs));
  }

  lemma CodeOfPhase(orig: seq<Msg>, pre: seq<Event>, e: Engine)
    requires orig != [] && Phase(orig, pre, e)
    ensures e.fault ==> Crashing(orig)
    ensures !e.fault ==>
              && -ECONNREFUSED <= e.idx <= |orig| && e.idx != -EAGAIN
              && (e.idx < 0 <==> exists k: int, p: nat :: Refused(orig, pre, e, k, p))
              && (e.idx == |orig| ==> if Supported(orig) then Delivered(orig, pre, e) else SilentTurn(orig))
              && (Delivered(orig, pre, e) ==> e.idx == |orig| && Supported(orig))
              && (0 <= e.idx < |orig| ==> (Partial(orig, pre, e) <==> SupportedUpTo(orig, e.idx)))
              && (0 <= e.idx ==> (Sent(orig, pre, e, e.idx) <==> e.idx == 0 || SupportedUpTo(orig, e.idx - 1)))
  {
    hide Progress, Flatten, Flat, SameShapes, Strayed, SilentTurn, Supported, Left, Partial, Sent;
    if Waiting(orig, pre, e) {
      WaitingCount(orig, pre, e);
    } else if Doomed(orig, pre, e) {
      DoomedCount(orig, pre, e);
    } else if Strayed(orig, pre, e) {
      StrayedIsNotDelivered(orig, pre, e);
      StrayedCount(orig, pre, e);
    } else if Delivered(orig, pre, e) {
      DeliveredCount(orig, pre, e);
      SupportedToTheEnd(orig);
    }
  }

  lemma SupportedToTheEnd(orig: seq<Msg>)
    requires orig != []
    ensures Supported(orig) <==> SupportedUpTo(orig, |orig| - 1)
  {
  }

  /** As long as the driver does not crash, the code is negative exactly if some byte was refused. */
  lemma {:induction false} NegativeExactly(e: Engine, msgs: seq<Msg>, irqs: seq<Irq>)
    requires msgs != [] && !e.fault && !Run(Begin(e, msgs), irqs).fault
    ensures Run(Begin(e, msgs), irqs).idx < 0 <==> !Accepted(Begin(e, msgs), irqs)
  {
    if irqs != [] {
      var n := |irqs| - 1;
      var e1 := Run(Begin(e, msgs), irqs[..n]);
      hide Begin, Step, Accepts, Live, Ended, Left;
      FaultStays(e1, irqs[n]);
      NegativeExactly(e, msgs, irqs[..n]);
      if Accepted(Begin(e, msgs), irqs) {
        AcceptedRun(e, msgs, irqs);
        NotNegative(msgs, e.trace, Run(Begin(e, msgs), irqs));
      } else if Accepted(Begin(e, msgs), irqs[..n]) {
        AcceptedRun(e, msgs, irqs[..n]);
        RefusalStep(msgs, e.trace, e1, irqs[n]);
      } else {
        RunPhase(e, msgs, irqs[..n]);
        CodeOfPhase(msgs, e.trace, e1);
        StoppedStep(e1, irqs[n]);
      }
    }
  }

  lemma NotNegative(orig: seq<Msg>, pre: seq<Event>, e: Engine)
    requires Live(orig, pre, e) || Ended(orig, pre, e)
    ensures e.fault || e.idx >= 0
  {
    hide Progress, Flat, Flatten;
  }

  lemma FaultStays(e: Engine, irq: Irq)
    ensures e.fault ==> Step(e, irq).fault
  {
  }

  /** Only a transfer under way can be refused. */
  lemma RefusalStep(orig: seq<Msg>, pre: seq<Event>, e: Engine, irq: Irq)
    requires (Live(orig, pre, e) || Ended(orig, pre, e)) && !Accepts(e, irq)
    ensures e.fault || Step(e, irq).idx < 0
  {
    hide Progress, Flat, Flatten;
  }

  lemma StoppedStep(e: Engine, irq: Irq)
    ensures e.state == Stopped ==> Step(e, irq).idx == e.idx
  {
  }

  /** msg_idx counts messages, or holds one of three error codes after a STOP. */
  predicate CodeOk(e: Engine)
  {
    e.idx >= 0 || ((e.state == Stopped || e.fault) && e.idx in {-ENXIO, -ECONNREFUSED, -EINVAL})
  }

  lemma {:induction false} RetryCode(e: Engine)
    requires e.idx >= 0
    ensures CodeOk(RetryWrite(e))
    decreases |e.msgs| - (if e.msg.At? then e.msg.i else |e.msgs|)
  {
    if Readable(e) && IsMsgEnd(e) && !IsLastMsg(e) && Readable(NextMsg(e)) {
      var e1 := NextMsg(e);
      if Cur(e1).rd {
        assert RetryWrite(StopXfer(e1, -EINVAL)) == Crash(StopXfer(e1, -EINVAL));
      } else {
        RetryCode(e1);
      }
    }
  }

  lemma StepCode(e: Engine, irq: Irq)
    requires CodeOk(e)
    ensures CodeOk(Step(e, irq))
  {
    hide RetryWrite, MessageStart;
    if e.idx >= 0 {
      RetryCode(e);
      RetryCode(e.(state := Writing));
    }
  }

  /** No run of interrupts, on any list whatever, leaves -EAGAIN in msg_idx. */
  lemma {:induction false} NeverTryAgain(e: Engine, msgs: seq<Msg>, irqs: seq<Irq>)
    requires msgs != []
    ensures CodeOk(Run(Begin(e, msgs), irqs)) && Run(Begin(e, msgs), irqs).idx != -EAGAIN
  {
    if irqs != [] {
      var n := |irqs| - 1;
      NeverTryAgain(e, msgs, irqs[..n]);
      StepCode(Run(Begin(e, msgs), irqs[..n]), irqs[n]);
    }
  }
}
