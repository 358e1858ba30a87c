/** A read while another request writes: when it returns what was there before or afterwards. */
module DiskReads {
  import opened Base
  import opened DiskStore
  import opened DiskPasses
  import opened DiskThreads

  /** Request 0 reads, request 1 writes; nothing is said of their places or of the schedule. */
  ghost predicate ReadAndWrite(s0: Sys)
  {
    Started(s0) && |s0.reqs| == 2 && !s0.reqs[0].write && s0.reqs[1].write
  }

  /** Byte `i` before the write, or after all of it. */
  ghost function BeforeOrAfter(s0: Sys, i: nat, after: bool): Byte
    requires |s0.reqs| == 2
  {
    if after then Over(s0.reqs[1], i, ByteAt(s0.store, i)) else ByteAt(s0.store, i)
  }

  /** The read has returned the whole of one of the two. */
  ghost predicate Returned(s0: Sys, s: Sys, after: bool)
    requires |s0.reqs| == 2
  {
    && |s.reqs| == 2 && |s.reqs[0].buf| == |s0.reqs[0].buf|
    && forall i: nat :: InRange(s0.reqs[0], i) ==> s.reqs[0].buf[i - s0.reqs[0].pos] == BeforeOrAfter(s0, i, after)
  }

  ghost predicate Atomic(s0: Sys, s: Sys)
    requires |s0.reqs| == 2
  {
    Returned(s0, s, false) || Returned(s0, s, true)
  }

  /** The write changes byte `i` of what the read asks for. */
  ghost predicate Changes(s0: Sys, i: nat)
    requires |s0.reqs| == 2
  {
    InRange(s0.reqs[0], i) && BeforeOrAfter(s0, i, true) != BeforeOrAfter(s0, i, false)
  }

  ghost predicate ChangesInOneSegment(s0: Sys)
    requires |s0.reqs| == 2
  {
    forall i: nat, j: nat :: Changes(s0, i) && Changes(s0, j) ==> i / 16384 == j / 16384
  }

  /**
   * Main result. A read returns, under every complete schedule, what was there before a write
   * or what is there after it, if and only if the bytes that the write changes in its range
   * lie in one segment.
   */
  lemma {:induction false} AtomicExactly(s0: Sys)
    requires ReadAndWrite(s0)
    ensures (forall run, sched :: CompleteRun(s0, run, sched) ==> Atomic(s0, run[|sched|])) <==> ChangesInOneSegment(s0)
  {
    hide Returned, ChangesInOneSegment, Finished;
    if ChangesInOneSegment(s0) {
      forall run, sched | CompleteRun(s0, run, sched)
        ensures Atomic(s0, run[|sched|])
      {
        OneSegmentAtomic(s0, run, sched);
      }
    } else {
      var run, sched := TornRead(s0);
      assert CompleteRun(s0, run, sched);
    }
  }

  // Within a segment the read comes before the write or after it.

  /** No pass has failed so far, so that the requests stand at boundaries. */
  ghost predicate OnTheWay(s0: Sys, s: Sys)
  {
    && |s0.reqs| == |s.reqs| == 2
    && SameRequest(s0.reqs[0], s.reqs[0]) && SameRequest(s0.reqs[1], s.reqs[1])
    && s.reqs[1].buf == s0.reqs[1].buf && OnBoundary(s.reqs[0]) && OnBoundary(s.reqs[1])
  }

  ghost predicate Written(s0: Sys, s: Sys)
    requires |s0.reqs| == |s.reqs| == 2
  {
    forall i: nat :: ByteAt(s.store, i) == OverDone(s.reqs[1], i, ByteAt(s0.store, i))
  }

  /** What has been read so far is from before the write, or from after it. */
  ghost predicate Fetching(s0: Sys, s: Sys, after: bool)
    requires OnTheWay(s0, s)
  {
    forall i: nat :: s.reqs[0].pos <= i < s.reqs[0].pos + s.reqs[0].done ==>
      s.reqs[0].buf[i - s.reqs[0].pos] == BeforeOrAfter(s0, i, after)
  }

  /** One whole pass of a read. */
  lemma ReadOver(s: Sys, s': Sys, t: nat)
    requires Step(s, s', t) && !s.reqs[t].write && !s'.reqs[t].failed
    ensures var r, q := s.reqs[t], s'.reqs[t];
            && s'.store == s.store && s'.reqs == s.reqs[t := q] && q == r.(buf := q.buf, done := q.done)
            && |q.buf| == |r.buf| && r.done < q.done <= |q.buf| && OnBoundary(q)
            && (forall i: nat :: r.pos + r.done <= i < r.pos + q.done ==>
                  i / SEG_SIZE == PassSegment(r) && q.buf[i - r.pos] == ByteAt(s.store, i))
            && (forall i: nat :: InRange(r, i) && i < r.pos + r.done ==> q.buf[i - r.pos] == r.buf[i - r.pos])
  {
    var r, q := s.reqs[t], s'.reqs[t];
    forall i: nat | r.pos + r.done <= i < r.pos + q.done
      ensures i / SEG_SIZE == PassSegment(r)
    {
      WithinSegment(r.pos + r.done, i - (r.pos + r.done));
    }
  }

  /** Of one segment, a write between two passes has written all that it will write, or nothing. */
  lemma SameSide(w: Request, i: nat, c: nat)
    requires w.write && w.done <= |w.buf| && OnBoundary(w) && InRange(w, i) && InRange(w, c)
    requires i / SEG_SIZE == c / SEG_SIZE
    ensures Covers(w, i) <==> Covers(w, c)
  {
  }

  /** What a pass of the read has fetched of byte `i`, as far as it lies in the pass. */
  lemma FetchedByte(s0: Sys, s: Sys, i: nat, c: nat, after: bool)
    requires ReadAndWrite(s0) && OnTheWay(s0, s) && Written(s0, s) && InRange(s0.reqs[0], i)
    requires Changes(s0, i) ==> Changes(s0, c) && i / SEG_SIZE == c / SEG_SIZE && (after <==> Covers(s.reqs[1], c))
    ensures ByteAt(s.store, i) == BeforeOrAfter(s0, i, after)
  {
    hide ByteAt;
    if Changes(s0, i) {
      SameSide(s.reqs[1], i, c);
    }
  }

  /** Before its pass in a segment, a read has fetched nothing there. */
  lemma FetchedElsewhere(r: Request, i: nat)
    requires OnBoundary(r) && r.done < |r.buf| && r.pos <= i < r.pos + r.done
    ensures i / SEG_SIZE != PassSegment(r)
  {
  }

  lemma ReadPass(s0: Sys, s: Sys, s': Sys, after: bool) returns (after': bool)
    requires ReadAndWrite(s0) && ChangesInOneSegment(s0)
    requires OnTheWay(s0, s) && Written(s0, s) && Fetching(s0, s, after)
    requires Step(s, s', 0) && !s'.reqs[0].failed
    ensures OnTheWay(s0, s') && Written(s0, s') && Fetching(s0, s', after')
  {
    hide ByteAt, Pass, Covers, OnBoundary, ChangesInOneSegment, Changes, BeforeOrAfter;
    ReadOver(s, s', 0);
    var r, q := s.reqs[0], s'.reqs[0];
    var k := PassSegment(r);
    after' := after;
    ghost var c: nat := 0;
    if d: nat :| Changes(s0, d) && d / SEG_SIZE == k {
      c := d;
      after' := Covers(s.reqs[1], d);
    }
    forall i: nat | q.pos <= i < q.pos + q.done
      ensures q.buf[i - q.pos] == BeforeOrAfter(s0, i, after')
    {
      if i < r.pos + r.done {
        FetchedElsewhere(r, i);
        assert InRange(r, i) && InRange(s0.reqs[0], i);
        if after' != after {
          Unchanged(s0, i, c);
        }
      } else {
        FetchedByte(s0, s, i, c, after');
      }
    }
  }

  lemma Unchanged(s0: Sys, i: nat, c: nat)
    requires |s0.reqs| == 2 && ChangesInOneSegment(s0) && Changes(s0, c) && i / SEG_SIZE != c / SEG_SIZE
    requires InRange(s0.reqs[0], i)
    ensures BeforeOrAfter(s0, i, true) == BeforeOrAfter(s0, i, false)
  {
    assert !Changes(s0, i);
  }

  lemma WritePass(s0: Sys, s: Sys, s': Sys, after: bool)
    requires ReadAndWrite(s0) && OnTheWay(s0, s) && Written(s0, s) && Fetching(s0, s, after)
    requires Step(s, s', 1) && !s'.reqs[1].failed
    ensures OnTheWay(s0, s') && Written(s0, s') && Fetching(s0, s', after)
  {
    hide ByteAt, Pass, OnBoundary;
    PassOver(s, s', 1);
  }

  /** A request that has failed never finishes. */
  lemma {:induction false} FailedForGood(run: seq<Sys>, sched: seq<nat>, k: nat, t: nat)
    requires IsRun(run, sched) && k <= |sched| && t < |run[k].reqs|
    requires run[k].reqs[t].failed && run[k].reqs[t].done < |run[k].reqs[t].buf|
    ensures !Finished(run[|sched|])
    decreases |sched| - k
  {
    if k < |sched| {
      assert Step(run[k], run[k + 1], sched[k]);
      assert run[k + 1].reqs[t] == run[k].reqs[t];
      FailedForGood(run, sched, k + 1, t);
    } else {
      assert run[|sched|].reqs[t].done < |run[|sched|].reqs[t].buf|;
    }
  }

  lemma {:induction false} OneSegmentRun(run: seq<Sys>, sched: seq<nat>, k: nat) returns (after: bool)
    requires IsRun(run, sched) && Finished(run[|sched|]) && k <= |sched|
    requires ReadAndWrite(run[0]) && ChangesInOneSegment(run[0])
    ensures OnTheWay(run[0], run[k]) && Written(run[0], run[k]) && Fetching(run[0], run[k], after)
    decreases k
  {
    hide ByteAt, Pass, ChangesInOneSegment, Finished, Written, Fetching;
    if k == 0 {
      after := false;
      StartOnTheWay(run[0]);
    } else {
      after := OneSegmentRun(run, sched, k - 1);
      var s, s', t := run[k - 1], run[k], sched[k - 1];
      assert Step(s, s', t);
      if s'.reqs[t].failed {
        FailedShort(s, s', t);
        FailedForGood(run, sched, k, t);
      } else if t == 0 {
        after := ReadPass(run[0], s, s', after);
      } else {
        WritePass(run[0], s, s', after);
      }
    }
  }

  lemma StartOnTheWay(s0: Sys)
    requires ReadAndWrite(s0)
    ensures OnTheWay(s0, s0) && Written(s0, s0) && Fetching(s0, s0, false)
  {
  }

  lemma FailedShort(s: Sys, s': Sys, t: nat)
    requires Step(s, s', t) && s'.reqs[t].failed
    ensures s'.reqs[t].done < |s'.reqs[t].buf|
  {
    hide ByteAt;
  }

  lemma OneSegmentAtomic(s0: Sys, run: seq<Sys>, sched: seq<nat>)
    requires ReadAndWrite(s0) && ChangesInOneSegment(s0) && CompleteRun(s0, run, sched)
    ensures Atomic(s0, run[|sched|])
  {
    hide ByteAt, ChangesInOneSegment, BeforeOrAfter;
    var after := OneSegmentRun(run, sched, |sched|);
    assert Returned(s0, run[|sched|], after);
  }

  // Across segments, the write can come in between.

  /** Byte `x` of a buffer after a read into it. */
  lemma ReadByte(s: Store, s': Store, at: nat, b: seq<Byte>, b': seq<Byte>, p: nat, n: nat, x: nat)
    requires Moved(false, s, s', at, b, b', p, n) && x < |b|
    ensures s' == s && |b'| == |b|
    ensures b'[x] == if p <= x < p + n then ByteAt(s, at + (x - p)) else b[x]
  {
    hide ByteAt;
  }

  /**
   * A read stops at the end of a segment while all of the write is done: byte `i` is from
   * before the write, byte `j` from after it.
   */
  lemma TornBetween(s0: Sys, i: nat, j: nat) returns (run: seq<Sys>, sched: seq<nat>)
    requires ReadAndWrite(s0) && InRange(s0.reqs[0], i) && InRange(s0.reqs[0], j) && i / SEG_SIZE < j / SEG_SIZE
    ensures CompleteRun(s0, run, sched)
    ensures var r, s := s0.reqs[0], run[|sched|];
            && |s.reqs| == 2 && |s.reqs[0].buf| == |r.buf|
            && s.reqs[0].buf[i - r.pos] == BeforeOrAfter(s0, i, false)
            && s.reqs[0].buf[j - r.pos] == BeforeOrAfter(s0, j, true)
  {
    hide ByteAt, Valid, Step, Moved;
    var r, w := s0.reqs[0], s0.reqs[1];
    var end := (i / SEG_SIZE + 1) * SEG_SIZE;
    assert i < end <= j;
    run, sched := PassesTo(s0, 0, end);
    var s1 := run[|sched|];
    var run1, sched1 := PassesTo(s1, 1, w.pos + |w.buf|);
    var s2 := run1[|sched1|];
    RunsOn(run, sched, run1, sched1);
    run, sched := run + run1[1..], sched + sched1;
    var run2, sched2 := PassesTo(s2, 0, r.pos + |r.buf|);
    var s3 := run2[|sched2|];
    RunsOn(run, sched, run2, sched2);
    run, sched := run + run2[1..], sched + sched2;
    ReadByte(s0.store, s1.store, r.pos, r.buf, s1.reqs[0].buf, 0, end - r.pos, i - r.pos);
    ReadByte(s2.store, s3.store, end, s1.reqs[0].buf, s3.reqs[0].buf, end - r.pos, r.pos + |r.buf| - end, i - r.pos);
    ReadByte(s2.store, s3.store, end, s1.reqs[0].buf, s3.reqs[0].buf, end - r.pos, r.pos + |r.buf| - end, j - r.pos);
    WrittenByte(s1.store, s2.store, w, s2.reqs[1].buf, j);
  }

  lemma WrittenByte(s: Store, s': Store, w: Request, b: seq<Byte>, j: nat)
    requires Moved(true, s, s', w.pos, w.buf, b, 0, |w.buf|)
    ensures ByteAt(s', j) == Over(w, j, ByteAt(s, j))
  {
    hide ByteAt;
  }

  lemma TornRead(s0: Sys) returns (run: seq<Sys>, sched: seq<nat>)
    requires ReadAndWrite(s0) && !ChangesInOneSegment(s0)
    ensures CompleteRun(s0, run, sched) && !Atomic(s0, run[|sched|])
  {
    hide ByteAt, Valid, Step, BeforeOrAfter;
    var i: nat, j: nat :| Changes(s0, i) && Changes(s0, j) && i / SEG_SIZE != j / SEG_SIZE;
    if i / SEG_SIZE > j / SEG_SIZE {
      i, j := j, i;
    }
    run, sched := TornBetween(s0, i, j);
  }
}
