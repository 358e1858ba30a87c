/** I2C messages, what is seen on the bus, and the trace that a message list stands for. */
module I2cMessages {
  import opened Base

  /** struct i2c_msg: the flags one by one, and the buffer as its contents. */
  datatype Msg = Msg(
    addr: nat, rd: bool, noStart: bool, ignoreNak: bool, revDirAddr: bool, buf: seq<Byte>)

  /** `Start` covers repeated STARTs; `receive` is the controller's transfer mode. */
  datatype Event = Start(addrByte: Byte, receive: bool) | Put(data: Byte) | Get(data: Byte, acked: bool) | Stop

  /**
   * The first byte after a START (UM10204, section 3.1.10): seven address bits, then
   * R/W with 1 for a read, or the reverse if the message asks for that.
   */
  function AddressByte(m: Msg): Byte
  {
    2 * (m.addr % 128) + if m.rd != m.revDirAddr then 1 else 0
  }

  /** Message `j` is opened by a START: a first one, a change of direction, or a plain write. */
  predicate Opens(msgs: seq<Msg>, j: nat)
    requires j < |msgs|
  {
    j == 0 || msgs[j].rd != msgs[j - 1].rd || (!msgs[j].rd && !msgs[j].noStart)
  }

  /** The acknowledge bit of the very last byte of the list, if that byte is read. */
  predicate LateNak(msgs: seq<Msg>)
    requires |msgs| > 0
  {
    var j := |msgs| - 1;
    msgs[j].rd && |msgs[j].buf| == 1 && !Opens(msgs, j)
  }

  predicate Acked(msgs: seq<Msg>, j: nat, i: nat)
    requires j < |msgs|
  {
    j < |msgs| - 1 || i < |msgs[j].buf| - 1 || LateNak(msgs)
  }

  function Opening(msgs: seq<Msg>, j: nat): seq<Event>
    requires j < |msgs|
  {
    if Opens(msgs, j) then [Start(AddressByte(msgs[j]), msgs[j].rd)] else []
  }

  /** The first `k` bytes of message `j` on the bus. */
  function Bytes(msgs: seq<Msg>, j: nat, k: nat): (r: seq<Event>)
    requires j < |msgs| && k <= |msgs[j].buf|
    ensures |r| == k
  {
    seq(k, i requires 0 <= i < k => ByteEvent(msgs, j, i))
  }

  /** The first `n` messages on the bus. */
  function Flat(msgs: seq<Msg>, n: nat): seq<Event>
    requires n <= |msgs|
  {
    if n == 0 then [] else Flat(msgs, n - 1) + Opening(msgs, n - 1) + Bytes(msgs, n - 1, |msgs[n - 1].buf|)
  }

  /** The whole list on the bus. */
  function Flatten(msgs: seq<Msg>): seq<Event>
  {
    Flat(msgs, |msgs|) + [Stop]
  }

  /** The same message, except for what a read has put into its buffer. */
  predicate SameShape(m: Msg, m': Msg)
  {
    && m' == m.(buf := m'.buf)
    && |m'.buf| == |m.buf|
    && (!m.rd ==> m'.buf == m.buf)
  }

  predicate SameShapes(msgs: seq<Msg>, msgs': seq<Msg>)
  {
    |msgs'| == |msgs| && forall j :: 0 <= j < |msgs| ==> SameShape(msgs[j], msgs'[j])
  }

  /**
   * What the controller can do after message `j - 1`: from a read it goes on reading only,
   * into buffers that are not empty; from a write it changes direction only by a START.
   */
  predicate SupportedAt(msgs: seq<Msg>, j: nat)
    requires 0 < j < |msgs|
  {
    if msgs[j - 1].rd then msgs[j].rd && msgs[j].buf != [] else msgs[j].rd ==> !msgs[j].noStart
  }

  predicate Supported(msgs: seq<Msg>)
  {
    forall j :: 0 < j < |msgs| ==> SupportedAt(msgs, j)
  }

  /** Bytes left from message `j` on, with a surcharge of two for each message. */
  function Work(msgs: seq<Msg>, j: nat): nat
    requires j <= |msgs|
    decreases |msgs| - j
  {
    if j == |msgs| then 0 else |msgs[j].buf| + 2 + Work(msgs, j + 1)
  }

  /** The bus after messages 0 to `j - 1` and the first `k` bytes of message `j`. */
  function Progress(msgs: seq<Msg>, j: nat, k: nat): seq<Event>
    requires j < |msgs| && k <= |msgs[j].buf|
  {
    Flat(msgs, j) + Opening(msgs, j) + Bytes(msgs, j, k)
  }

  lemma ProgressStarts(msgs: seq<Msg>, j: nat)
    requires j < |msgs|
    ensures Progress(msgs, j, 0) == Flat(msgs, j) + Opening(msgs, j)
  {
  }

  /** Byte `i` of message `j` as it appears on the bus. */
  function ByteEvent(msgs: seq<Msg>, j: nat, i: nat): Event
    requires j < |msgs| && i < |msgs[j].buf|
  {
    if msgs[j].rd then Get(msgs[j].buf[i], Acked(msgs, j, i)) else Put(msgs[j].buf[i])
  }

  lemma ProgressByte(msgs: seq<Msg>, j: nat, k: nat)
    requires j < |msgs| && k < |msgs[j].buf|
    ensures Progress(msgs, j, k + 1) == Progress(msgs, j, k) + [ByteEvent(msgs, j, k)]
  {
    assert Bytes(msgs, j, k + 1) == Bytes(msgs, j, k) + [ByteEvent(msgs, j, k)];
  }

  /** The same message, except perhaps for the bytes in its buffer. */
  predicate SameHead(m: Msg, m': Msg)
  {
    m' == m.(buf := m'.buf) && |m'.buf| == |m.buf|
  }

  predicate SameHeads(msgs: seq<Msg>, msgs': seq<Msg>)
  {
    |msgs'| == |msgs| && forall j :: 0 <= j < |msgs| ==> SameHead(msgs[j], msgs'[j])
  }

  /** A byte received into message `j` does not change what went before on the bus. */
  lemma ProgressFrame(msgs: seq<Msg>, j: nat, k: nat, b: Byte)
    requires j < |msgs| && msgs[j].rd && k < |msgs[j].buf|
    ensures var msgs' := msgs[j := msgs[j].(buf := msgs[j].buf[k := b])];
            && SameShapes(msgs, msgs')
            && Progress(msgs', j, k) == Progress(msgs, j, k)
            && Progress(msgs', j, k + 1) == Progress(msgs, j, k) + [Get(b, Acked(msgs, j, k))]
  {
    var msgs' := msgs[j := msgs[j].(buf := msgs[j].buf[k := b])];
    FlatFrame(msgs, msgs', j);
    assert Bytes(msgs', j, k) == Bytes(msgs, j, k);
    ProgressByte(msgs', j, k);
  }

  lemma {:induction false} FlatFrame(msgs: seq<Msg>, msgs': seq<Msg>, n: nat)
    requires SameHeads(msgs, msgs') && n <= |msgs|
    requires forall j :: 0 <= j < n ==> msgs'[j] == msgs[j]
    ensures Flat(msgs', n) == Flat(msgs, n)
  {
    if n > 0 {
      FlatFrame(msgs, msgs', n - 1);
      assert Bytes(msgs', n - 1, |msgs[n - 1].buf|) == Bytes(msgs, n - 1, |msgs[n - 1].buf|);
    }
  }

  lemma {:induction false} FlatPrefix(msgs: seq<Msg>, n: nat, m: nat)
    requires n <= m <= |msgs|
    ensures Flat(msgs, n) <= Flat(msgs, m)
  {
    if n < m {
      FlatPrefix(msgs, n, m - 1);
    }
  }

  lemma {:induction false} WorkFrame(msgs: seq<Msg>, msgs': seq<Msg>, j: nat)
    requires SameHeads(msgs, msgs') && j <= |msgs|
    ensures Work(msgs', j) == Work(msgs, j)
    decreases |msgs| - j
  {
    if j < |msgs| {
      WorkFrame(msgs, msgs', j + 1);
    }
  }

  /** All bytes received before message `n` are acknowledged, if `n` is not past the last. */
  lemma {:induction false} FlatAcks(msgs: seq<Msg>, n: nat)
    requires n < |msgs|
    ensures forall p :: 0 <= p < |Flat(msgs, n)| && Flat(msgs, n)[p].Get? ==> Flat(msgs, n)[p].acked
  {
    if n > 0 {
      FlatAcks(msgs, n - 1);
    }
  }

  /** UM10204, section 3.1.6: of what it receives, the master leaves the last byte unacknowledged. */
  predicate OnlyLastNaked(trace: seq<Event>)
  {
    forall p :: 0 <= p < |trace| && trace[p].Get? ==> (trace[p].acked <==> p < |trace| - 2)
  }

  /**
   * The acknowledge discipline is kept over the whole list, unless the list ends in a read of
   * one byte that goes on from another read: that byte is acknowledged.
   */
  lemma AcknowledgeDiscipline(msgs: seq<Msg>)
    requires msgs != [] && Supported(msgs)
    ensures OnlyLastNaked(Flatten(msgs)) <==> !LateNak(msgs)
  {
    hide Supported, Flat, OnlyLastNaked, LateNak;
    if LateNak(msgs) {
      LateNakShows(msgs);
    } else {
      OthersAcked(msgs);
    }
  }

  lemma LateNakShows(msgs: seq<Msg>)
    requires msgs != [] && LateNak(msgs)
    ensures !OnlyLastNaked(Flatten(msgs))
  {
    hide Flat;
    var j := |msgs| - 1;
    var f := Flat(msgs, j);
    assert Flat(msgs, |msgs|) == f + Opening(msgs, j) + Bytes(msgs, j, 1) by {
      FlatStep(msgs, j);
    }
    assert Flatten(msgs) == f + [ByteEvent(msgs, j, 0), Stop];
    assert Flatten(msgs)[|f|] == ByteEvent(msgs, j, 0);
  }

  lemma FlatStep(msgs: seq<Msg>, j: nat)
    requires j < |msgs|
    ensures Flat(msgs, j + 1) == Flat(msgs, j) + Opening(msgs, j) + Bytes(msgs, j, |msgs[j].buf|)
  {
  }

  lemma OthersAcked(msgs: seq<Msg>)
    requires msgs != [] && Supported(msgs) && !LateNak(msgs)
    ensures OnlyLastNaked(Flatten(msgs))
  {
    hide Flat, Supported;
    var j := |msgs| - 1;
    var f, o, b := Flat(msgs, j), Opening(msgs, j), Bytes(msgs, j, |msgs[j].buf|);
    FlatAcks(msgs, j);
    FlatStep(msgs, j);
    assert Flatten(msgs) == f + o + b + [Stop];
    if b == [] && o == [] {
      EndsInPut(msgs, j);
    }
  }

  /** An empty message that goes on from another goes on from a write, of which the bus ends in a byte or a START. */
  lemma {:induction false} EndsInPut(msgs: seq<Msg>, j: nat)
    requires 0 < j < |msgs| && Supported(msgs) && Opening(msgs, j) == [] && msgs[j].buf == []
    ensures Flat(msgs, j) != [] && !Flat(msgs, j)[|Flat(msgs, j)| - 1].Get?
  {
    hide Flat, Bytes;
    assert SupportedAt(msgs, j);
    var m := msgs[j - 1];
    FlatStep(msgs, j - 1);
    BytesOfWrite(msgs, j - 1);
    if m.buf == [] && Opening(msgs, j - 1) == [] {
      EndsInPut(msgs, j - 1);
    }
  }

  lemma BytesOfWrite(msgs: seq<Msg>, j: nat)
    requires j < |msgs| && !msgs[j].rd
    ensures var b := Bytes(msgs, j, |msgs[j].buf|);
            b != [] ==> !b[|b| - 1].Get?
  {
  }

  /** Two reads of one byte each: both bytes are acknowledged. */
  lemma LateNakOnBus(addr: nat, x: Byte, y: Byte)
    ensures var first := Msg(addr, true, false, false, false, [x]);
            var msgs := [first, first.(buf := [y])];
            && Supported(msgs)
            && Flatten(msgs) == [Start(AddressByte(first), true), Get(x, true), Get(y, true), Stop]
            && !OnlyLastNaked(Flatten(msgs))
  {
    var first := Msg(addr, true, false, false, false, [x]);
    var msgs := [first, first.(buf := [y])];
    assert Bytes(msgs, 0, 1) == [Get(x, true)] && Bytes(msgs, 1, 1) == [Get(y, true)];
    assert Flat(msgs, 1) == [Start(AddressByte(first), true), Get(x, true)];
    assert Flatten(msgs)[2] == Get(y, true);
  }
}
