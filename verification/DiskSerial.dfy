/** Two writes at the same time: when they leave the disk as one of them after the other does. */
module DiskSerial {
  import opened Base
  import opened DiskStore
  import opened DiskPasses
  import opened DiskThreads

  ghost predicate TwoWrites(s0: Sys)
  {
    Started(s0) && |s0.reqs| == 2 && s0.reqs[0].write && s0.reqs[1].write
  }

  /** The disk of `s` is that of one write followed by the other. */
  ghost predicate InOrder(s0: Sys, s: Sys, first: nat, second: nat)
    requires first < |s0.reqs| && second < |s0.reqs|
  {
    forall i: nat ::
      ByteAt(s.store, i) == Over(s0.reqs[second], i, Over(s0.reqs[first], i, ByteAt(s0.store, i)))
  }

  ghost predicate Serial(s0: Sys, s: Sys)
    requires |s0.reqs| == 2
  {
    InOrder(s0, s, 0, 1) || InOrder(s0, s, 1, 0)
  }

  predicate Clash(r: Request, q: Request, i: nat)
  {
    InRange(r, i) && InRange(q, i) && r.buf[i - r.pos] != q.buf[i - q.pos]
  }

  /** The bytes on which the two buffers disagree all lie in one segment of 16 KiB. */
  ghost predicate OneSegment(r: Request, q: Request)
  {
    forall i: nat, j: nat :: Clash(r, q, i) && Clash(r, q, j) ==> i / 16384 == j / 16384
  }

  /**
   * Main result. Two writes are serializable, under every complete schedule, if and only if
   * they disagree within one segment at most.
   */
  lemma {:induction false} SerialExactly(s0: Sys)
    requires TwoWrites(s0)
    ensures (forall run, sched :: CompleteRun(s0, run, sched) ==> Serial(s0, run[|sched|]))
        <==> OneSegment(s0.reqs[0], s0.reqs[1])
  {
    hide InOrder, OneSegment, Finished, Winner;
    if OneSegment(s0.reqs[0], s0.reqs[1]) {
      forall run, sched | CompleteRun(s0, run, sched)
        ensures Serial(s0, run[|sched|])
      {
        LastPassWins(s0, run, sched);
      }
    } else {
      var run, sched := TornApart(s0);
      assert CompleteRun(s0, run, sched);
    }
  }

  // Within a segment the last pass wins.

  ghost predicate SameTwo(s0: Sys, s: Sys)
  {
    && |s0.reqs| == |s.reqs| == 2
    && forall t :: 0 <= t < 2 ==>
         && s.reqs[t] == s0.reqs[t].(done := s.reqs[t].done, failed := s.reqs[t].failed)
         && s.reqs[t].done <= |s.reqs[t].buf| && s.reqs[t].write
         && (s.reqs[t].failed ==> s.reqs[t].done < |s.reqs[t].buf|)
         && (!s.reqs[t].failed ==> OnBoundary(s.reqs[t]))
  }

  /** What has been written so far, with request `w` on top. */
  ghost predicate Blend(s0: Sys, s: Sys, w: nat)
    requires w < 2 && |s0.reqs| == |s.reqs| == 2
  {
    forall i: nat ::
      ByteAt(s.store, i) == OverDone(s.reqs[w], i, OverDone(s.reqs[1 - w], i, ByteAt(s0.store, i)))
  }

  /** Byte `i` before and after a pass of `r`, with `r` or with the other request `q` on top. */
  lemma BlendByte(r: Request, r': Request, q: Request, i: nat, init: Byte, was: Byte, now: Byte)
    requires r.write && r.done <= r'.done <= |r.buf| && r' == r.(done := r'.done, failed := r'.failed)
    requires was == OverDone(r, i, OverDone(q, i, init)) || was == OverDone(q, i, OverDone(r, i, init))
    requires now == if r.pos + r.done <= i < r.pos + r'.done then r.buf[i - r.pos] else was
    ensures !Clash(r, q, i) || !Covers(r, i) ==> now == OverDone(r', i, OverDone(q, i, init))
    ensures !Clash(r, q, i) ==> now == OverDone(q, i, OverDone(r', i, init))
  {
  }

  ghost predicate ClashIn(r: Request, q: Request, k: nat)
  {
    exists c: nat :: Clash(r, q, c) && c / SEG_SIZE == k
  }

  /** A pass in the segment of a clash puts its request on top; any other leaves the order as it was. */
  lemma BlendStep(s0: Sys, s: Sys, s': Sys, t: nat, w: nat)
    requires SameTwo(s0, s) && Step(s, s', t) && w < 2 && Blend(s0, s, w)
    requires OneSegment(s0.reqs[0], s0.reqs[1])
    ensures |s'.reqs| == 2
    ensures Blend(s0, s', if ClashIn(s0.reqs[0], s0.reqs[1], PassSegment(s.reqs[t])) then t else w)
  {
    hide ByteAt, Pass, OneSegment, Clash, Covers, OverDone, OnBoundary;
    PassOver(s, s', t);
    var r, r', q := s.reqs[t], s'.reqs[t], s.reqs[1 - t];
    var k := PassSegment(r);
    ClashesAgree(s0, s, t);
    if ClashIn(s0.reqs[0], s0.reqs[1], k) {
      var c: nat :| Clash(s0.reqs[0], s0.reqs[1], c) && c / SEG_SIZE == k;
      assert Clash(r, q, c);
      forall i: nat
        ensures ByteAt(s'.store, i) == OverDone(r', i, OverDone(q, i, ByteAt(s0.store, i)))
      {
        BlendByte(r, r', q, i, ByteAt(s0.store, i), ByteAt(s.store, i), ByteAt(s'.store, i));
        if i / SEG_SIZE == k {
          NothingThere(r, i);
        }
      }
    } else {
      forall i: nat
        ensures ByteAt(s'.store, i) == OverDone(s'.reqs[w], i, OverDone(s'.reqs[1 - w], i, ByteAt(s0.store, i)))
      {
        BlendByte(r, r', q, i, ByteAt(s0.store, i), ByteAt(s.store, i), ByteAt(s'.store, i));
        if i / SEG_SIZE != k {
          NotThere(r, r', i);
        } else {
          assert !Clash(s0.reqs[0], s0.reqs[1], i);
        }
      }
    }
  }

  lemma NotThere(r: Request, r': Request, i: nat)
    requires r' == r.(done := r'.done, failed := r'.failed) && r.done <= r'.done <= |r.buf|
    requires !(r.pos + r.done <= i < r.pos + r'.done)
    ensures forall below :: OverDone(r', i, below) == OverDone(r, i, below)
  {
  }

  /** The requests clash now where they did at the start, in one segment. */
  lemma ClashesAgree(s0: Sys, s: Sys, t: nat)
    requires SameTwo(s0, s) && t < 2 && OneSegment(s0.reqs[0], s0.reqs[1])
    ensures forall i: nat, j: nat :: Clash(s.reqs[t], s.reqs[1 - t], i) && Clash(s.reqs[t], s.reqs[1 - t], j) ==>
      i / SEG_SIZE == j / SEG_SIZE
    ensures forall i: nat :: Clash(s.reqs[t], s.reqs[1 - t], i) <==> Clash(s0.reqs[0], s0.reqs[1], i)
  {
    forall i: nat, j: nat | Clash(s.reqs[t], s.reqs[1 - t], i) && Clash(s.reqs[t], s.reqs[1 - t], j)
      ensures i / SEG_SIZE == j / SEG_SIZE
    {
      assert t == 0 || t == 1;
      assert Clash(s0.reqs[0], s0.reqs[1], i) && Clash(s0.reqs[0], s0.reqs[1], j);
    }
  }

  lemma SameTwoStep(s0: Sys, s: Sys, s': Sys, t: nat)
    requires SameTwo(s0, s) && Step(s, s', t)
    ensures SameTwo(s0, s')
  {
    hide ByteAt, Pass, OnBoundary;
    PassOver(s, s', t);
  }

  /** The request that had the last pass in the segment of a clash. */
  ghost function Winner(run: seq<Sys>, sched: seq<nat>): (w: nat)
    requires IsRun(run, sched) && |run[0].reqs| == 2
    ensures w < 2
  {
    if sched == [] then
      0
    else
      var n := |sched| - 1;
      assert Step(run[n], run[n + 1], sched[n]);
      SameCount(run, sched, n);
      if ClashIn(run[0].reqs[0], run[0].reqs[1], PassSegment(run[n].reqs[sched[n]])) then sched[n]
      else Winner(run[..n + 1], sched[..n])
  }

  lemma {:induction false} SameCount(run: seq<Sys>, sched: seq<nat>, i: nat)
    requires IsRun(run, sched) && i <= |sched|
    ensures |run[i].reqs| == |run[0].reqs|
  {
    if i > 0 {
      SameCount(run, sched, i - 1);
      assert Step(run[i - 1], run[i], sched[i - 1]);
    }
  }

  lemma {:induction false} BlendRun(run: seq<Sys>, sched: seq<nat>)
    requires IsRun(run, sched) && TwoWrites(run[0]) && OneSegment(run[0].reqs[0], run[0].reqs[1])
    ensures SameTwo(run[0], run[|sched|])
    ensures Blend(run[0], run[|sched|], Winner(run, sched))
  {
    hide ByteAt, Pass, OneSegment;
    if sched != [] {
      var n := |sched| - 1;
      BlendRun(run[..n + 1], sched[..n]);
      assert Step(run[n], run[n + 1], sched[n]);
      BlendStep(run[0], run[n], run[n + 1], sched[n], Winner(run[..n + 1], sched[..n]));
      SameTwoStep(run[0], run[n], run[n + 1], sched[n]);
    }
  }

  /** If the buffers disagree within one segment only, the last pass there decides the order. */
  lemma LastPassWins(s0: Sys, run: seq<Sys>, sched: seq<nat>)
    requires TwoWrites(s0) && OneSegment(s0.reqs[0], s0.reqs[1]) && CompleteRun(s0, run, sched)
    ensures InOrder(s0, run[|sched|], 1 - Winner(run, sched), Winner(run, sched))
  {
    hide ByteAt, OneSegment, Winner;
    BlendRun(run, sched);
  }

  // Across segments, another write can come in between.

  /** Either order is the outcome of some complete run. */
  lemma EitherOrder(s0: Sys, first: nat) returns (run: seq<Sys>, sched: seq<nat>)
    requires TwoWrites(s0) && first < 2
    ensures CompleteRun(s0, run, sched) && InOrder(s0, run[|sched|], first, 1 - first)
  {
    hide ByteAt, Valid, Step;
    var r, q := s0.reqs[first], s0.reqs[1 - first];
    run, sched := PassesTo(s0, first, r.pos + |r.buf|);
    var run1, sched1 := PassesTo(run[|sched|], 1 - first, q.pos + |q.buf|);
    RunsOn(run, sched, run1, sched1);
    run, sched := run + run1[1..], sched + sched1;
  }

  /**
   * For any two bytes in different segments that both requests write there is a schedule
   * which leaves the first as one request wrote it and the second as the other did.
   */
  lemma TornRun(s0: Sys, i: nat, j: nat) returns (run: seq<Sys>, sched: seq<nat>)
    requires TwoWrites(s0) && i / SEG_SIZE < j / SEG_SIZE
    requires InRange(s0.reqs[0], i) && InRange(s0.reqs[0], j) && InRange(s0.reqs[1], i) && InRange(s0.reqs[1], j)
    ensures CompleteRun(s0, run, sched)
    ensures ByteAt(run[|sched|].store, i) == s0.reqs[0].buf[i - s0.reqs[0].pos]
    ensures ByteAt(run[|sched|].store, j) == s0.reqs[1].buf[j - s0.reqs[1].pos]
  {
    hide ByteAt, Valid;
    var r, q := s0.reqs[0], s0.reqs[1];
    var end := (i / SEG_SIZE + 1) * SEG_SIZE;
    assert i < end <= j;
    run, sched := PassesTo(s0, 1, end);
    var run1, sched1 := PassesTo(run[|sched|], 0, r.pos + |r.buf|);
    RunsOn(run, sched, run1, sched1);
    run, sched := run + run1[1..], sched + sched1;
    var run2, sched2 := PassesTo(run[|sched|], 1, q.pos + |q.buf|);
    RunsOn(run, sched, run2, sched2);
    run, sched := run + run2[1..], sched + sched2;
  }

  /** Two writes that disagree in two segments, and a run after which the disk is in neither order. */
  lemma TornApart(s0: Sys) returns (run: seq<Sys>, sched: seq<nat>)
    requires TwoWrites(s0) && !OneSegment(s0.reqs[0], s0.reqs[1])
    ensures CompleteRun(s0, run, sched) && !Serial(s0, run[|sched|])
  {
    hide ByteAt, Valid, Step;
    var i: nat, j: nat :| Clash(s0.reqs[0], s0.reqs[1], i) && Clash(s0.reqs[0], s0.reqs[1], j)
                          && i / SEG_SIZE != j / SEG_SIZE;
    if i / SEG_SIZE > j / SEG_SIZE {
      i, j := j, i;
    }
    run, sched := TornRun(s0, i, j);
    var s := run[|sched|];
    assert ByteAt(s.store, i) != Over(s0.reqs[1], i, Over(s0.reqs[0], i, ByteAt(s0.store, i)));
    assert ByteAt(s.store, j) != Over(s0.reqs[0], j, Over(s0.reqs[1], j, ByteAt(s0.store, j)));
  }

  /** Two writes of two bytes each, across the end of the first 16 KiB, can leave half of each. */
  lemma OverlappingWritesTear(store: Store, a: Byte, b: Byte) returns (run: seq<Sys>, sched: seq<nat>)
    requires Valid(store)
    ensures var s0 := Sys(store, [Request(true, 16383, [a, a], 0, false), Request(true, 16383, [b, b], 0, false)]);
            && CompleteRun(s0, run, sched)
            && ByteAt(run[|sched|].store, 16383) == a && ByteAt(run[|sched|].store, 16384) == b
            && (a != b ==> !Serial(s0, run[|sched|]))
  {
    hide ByteAt, Valid, CompleteRun;
    var s0 := Sys(store, [Request(true, 16383, [a, a], 0, false), Request(true, 16383, [b, b], 0, false)]);
    run, sched := TornRun(s0, 16383, 16384);
  }
}
