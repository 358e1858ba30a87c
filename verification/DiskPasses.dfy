/** Passes of interleaved requests: what each does, how they make up runs, and what the last one leaves. */
module DiskPasses {
  import opened Base
  import opened DiskStore
  import opened DiskThreads

  predicate InRange(r: Request, i: nat)
  {
    r.pos <= i < r.pos + |r.buf|
  }

  /** Byte `i` once the whole of write `r` is laid over `below`. */
  function Over(r: Request, i: nat, below: Byte): Byte
  {
    if InRange(r, i) then r.buf[i - r.pos] else below
  }

  /** Byte `i` once the part of write `r` done so far is laid over `below`. */
  function OverDone(r: Request, i: nat, below: Byte): Byte
  {
    if Covers(r, i) then r.buf[i - r.pos] else below
  }

  ghost predicate CompleteRun(s0: Sys, run: seq<Sys>, sched: seq<nat>)
  {
    IsRun(run, sched) && run[0] == s0 && Finished(run[|sched|])
  }

  /** A pass starts with the request or with a segment. */
  predicate OnBoundary(r: Request)
  {
    r.done == 0 || r.done == |r.buf| || (r.pos + r.done) % SEG_SIZE == 0
  }

  /** The segment of the next pass of a request. */
  function PassSegment(r: Request): nat
  {
    (r.pos + r.done) / SEG_SIZE
  }

  /** What one pass of a write does: it stays in a segment, lays bytes, and ends on a boundary. */
  lemma PassOver(s: Sys, s': Sys, t: nat)
    requires Step(s, s', t) && s.reqs[t].write
    ensures var r, q := s.reqs[t], s'.reqs[t];
            && s'.reqs == s.reqs[t := q] && q == r.(done := q.done, failed := q.failed)
            && r.done <= q.done <= |r.buf| && (q.failed ==> q.done < |q.buf|)
            && (!q.failed ==> OnBoundary(q))
            && Laid(s.store, s'.store, r, q.done)
  {
    var r, q := s.reqs[t], s'.reqs[t];
    forall i: nat | r.pos + r.done <= i < r.pos + q.done
      ensures i / SEG_SIZE == (r.pos + r.done) / SEG_SIZE
    {
      WithinSegment(r.pos + r.done, i - (r.pos + r.done));
    }
  }

  /** Bytes `done` to `upTo` of write `r` were laid over `s`, all in one segment. */
  ghost predicate Laid(s: Store, s': Store, r: Request, upTo: nat)
    requires r.done <= upTo <= |r.buf|
  {
    forall i: nat ::
      if r.pos + r.done <= i < r.pos + upTo then
        ByteAt(s', i) == r.buf[i - r.pos] && i / SEG_SIZE == (r.pos + r.done) / SEG_SIZE
      else
        ByteAt(s', i) == ByteAt(s, i)
  }

  /** A pass that starts on a boundary finds nothing of its request in its segment. */
  lemma NothingThere(r: Request, i: nat)
    requires OnBoundary(r) && r.done < |r.buf| && i / SEG_SIZE == (r.pos + r.done) / SEG_SIZE
    ensures !Covers(r, i)
  {
  }

  // Any requests: the last pass over a byte decides.

  /** Byte `i` as the last pass that wrote it has left it. */
  ghost function LastByte(run: seq<Sys>, sched: seq<nat>, i: nat): Byte
    requires IsRun(run, sched)
  {
    if sched == [] then
      ByteAt(run[0].store, i)
    else
      var n := |sched| - 1;
      assert Step(run[n], run[n + 1], sched[n]);
      var r, q := run[n].reqs[sched[n]], run[n + 1].reqs[sched[n]];
      if r.write && r.pos + r.done <= i < r.pos + q.done then r.buf[i - r.pos]
      else LastByte(run[..n + 1], sched[..n], i)
  }

  /**
   * Main result, for any number of requests, overlapping or not, and whatever fails: each byte
   * of the disk is that of the last pass that wrote it, or the initial one.
   */
  lemma {:induction false} ByteOfLastPass(run: seq<Sys>, sched: seq<nat>, i: nat)
    requires IsRun(run, sched)
    ensures ByteAt(run[|sched|].store, i) == LastByte(run, sched, i)
  {
    hide ByteAt, Pass;
    if sched != [] {
      var n := |sched| - 1;
      ByteOfLastPass(run[..n + 1], sched[..n], i);
      assert Step(run[n], run[n + 1], sched[n]);
      if run[n].reqs[sched[n]].write {
        PassOver(run[n], run[n + 1], sched[n]);
      } else {
        SameCoverage(run[n], run[n + 1], sched[n]);
      }
    }
  }

  /** No pass changes what a request asks for, nor what a write writes. */
  lemma {:induction false} RequestsKept(run: seq<Sys>, sched: seq<nat>, t: nat)
    requires IsRun(run, sched) && Started(run[0]) && t < |run[0].reqs|
    ensures |run[|sched|].reqs| == |run[0].reqs|
    ensures var r0, r := run[0].reqs[t], run[|sched|].reqs[t];
            && SameRequest(r0, r) && (r.write ==> r.buf == r0.buf)
            && (r.failed ==> r.done < |r.buf|) && (!r.failed ==> OnBoundary(r))
  {
    if sched != [] {
      var n := |sched| - 1;
      RequestsKept(run[..n + 1], sched[..n], t);
      assert Step(run[n], run[n + 1], sched[n]);
    }
  }

  // Building runs

  lemma {:induction false} FreshGroup(used: set<nat>) returns (g: nat)
    ensures forall x :: x in used ==> x < g
  {
    g := 0;
    if x :| x in used {
      g := FreshGroup(used - {x});
      assert forall y :: y in used ==> y == x || y in used - {x};
      if g <= x {
        g := x + 1;
      }
    }
  }

  /** The store once segment `k` has a group. */
  lemma WithSegment(s: Store, k: nat) returns (s': Store)
    requires Valid(s)
    ensures Valid(s') && Grew(s, s', k) && Wrote(s, s', 0, []) && k in s'.tree
  {
    hide ByteAt;
    s' := s;
    if k !in s.tree {
      var g := FreshGroup(s.mem.Keys);
      NewSegment(s, k, g);
      s' := Store(s.mem[g := Group(k, seq(SEG_SIZE, _ => 0))], s.tree[k := g]);
    }
  }

  /** If no service fails, a request can take a whole pass. */
  lemma Advance(s: Sys, t: nat) returns (s': Sys)
    requires Valid(s.store) && t < |s.reqs| && !s.reqs[t].failed && s.reqs[t].done < |s.reqs[t].buf|
    ensures var r := s.reqs[t];
            var cnt := ChunkLen(r.pos + r.done, |r.buf| - r.done);
            && Step(s, s', t) && s'.reqs[t] == r.(buf := s'.reqs[t].buf, done := r.done + cnt)
            && |s'.reqs[t].buf| == |r.buf|
  {
    hide ByteAt, Splice, Moved;
    var r := s.reqs[t];
    var at := r.pos + r.done;
    var cnt := ChunkLen(at, |r.buf| - r.done);
    if r.write {
      var store := AdvanceWrite(s.store, at, r.buf, r.done, cnt);
      s' := Sys(store, s.reqs[t := r.(done := r.done + cnt)]);
    } else {
      var b := AdvanceRead(s.store, at, r.buf, r.done, cnt);
      s' := Sys(s.store, s.reqs[t := r.(buf := b, done := r.done + cnt)]);
    }
  }

  lemma AdvanceWrite(s: Store, at: nat, b: seq<Byte>, p: nat, cnt: nat) returns (s': Store)
    requires Valid(s) && at % SEG_SIZE + cnt <= SEG_SIZE && p + cnt <= |b|
    ensures Valid(s') && Grew(s, s', at / SEG_SIZE) && Moved(true, s, s', at, b, b, p, cnt)
  {
    hide ByteAt, Splice;
    var st := WithSegment(s, at / SEG_SIZE);
    SegmentMoved(true, st, at, b, p, cnt);
    var g := st.tree[at / SEG_SIZE];
    s' := WithData(st, g, Carried(true, st.mem[g].data, at % SEG_SIZE, b, p, cnt).0);
  }

  lemma AdvanceRead(s: Store, at: nat, b: seq<Byte>, p: nat, cnt: nat) returns (b': seq<Byte>)
    requires p + cnt <= |b|
    ensures |b'| == |b| && Moved(false, s, s, at, b, b', p, cnt) && Grew(s, s, at / SEG_SIZE)
  {
    b' := Splice(b, p, ReadBack(s, at, cnt));
  }

  lemma PassEnd(at: nat, len: nat, limit: nat)
    requires at < limit <= at + len && (limit == at + len || limit % SEG_SIZE == 0)
    ensures at + ChunkLen(at, len) <= limit
  {
  }

  lemma RunsOn(run: seq<Sys>, sched: seq<nat>, run': seq<Sys>, sched': seq<nat>)
    requires IsRun(run, sched) && IsRun(run', sched') && run[|sched|] == run'[0]
    ensures IsRun(run + run'[1..], sched + sched')
    ensures (run + run'[1..])[|sched + sched'|] == run'[|sched'|]
  {
    hide Step;
    var all, order := run + run'[1..], sched + sched';
    forall i | 0 <= i < |order|
      ensures Step(all[i], all[i + 1], order[i])
    {
      if i >= |sched| {
        assert all[i] == run'[i - |sched|] && all[i + 1] == run'[i - |sched| + 1];
      }
    }
  }

  /** Passes of request `t` alone, up to byte `limit`: a segment's end or its own. */
  lemma {:induction false} PassesTo(s: Sys, t: nat, limit: nat) returns (run: seq<Sys>, sched: seq<nat>)
    requires Valid(s.store) && t < |s.reqs| && !s.reqs[t].failed
    requires var r := s.reqs[t];
             && r.pos + r.done <= limit <= r.pos + |r.buf|
             && (limit == r.pos + |r.buf| || limit % SEG_SIZE == 0)
    ensures IsRun(run, sched) && run[0] == s
    ensures var r, s' := s.reqs[t], run[|sched|];
            && |s'.reqs| == |s.reqs| && Valid(s'.store) && |s'.reqs[t].buf| == |r.buf|
            && s'.reqs == s.reqs[t := r.(buf := s'.reqs[t].buf, done := limit - r.pos)]
            && Moved(r.write, s.store, s'.store, r.pos + r.done, r.buf, s'.reqs[t].buf, r.done, limit - r.pos - r.done)
    decreases limit - s.reqs[t].done
  {
    hide ByteAt, Valid, ChunkLen, Moved;
    var r := s.reqs[t];
    var at := r.pos + r.done;
    if at == limit {
      run, sched := [s], [];
      MovedNothing(r.write, s.store, at, r.buf, r.done);
      assert s.reqs == s.reqs[t := r.(done := limit - r.pos)];
    } else {
      var s1 := Advance(s, t);
      PassEnd(at, |r.buf| - r.done, limit);
      run, sched := PassesTo(s1, t, limit);
      var r1, q := s1.reqs[t], run[|sched|].reqs[t];
      MovedOn(r.write, s.store, s1.store, run[|sched|].store, at, r.buf, r1.buf, q.buf, r.done,
              r1.done - r.done, limit - r.pos - r1.done);
      RunsOn([s, s1], [t], run, sched);
      run, sched := [s, s1] + run[1..], [t] + sched;
    }
  }

  /** Requests `t` and on, one after the other to the end. */
  lemma {:induction false} Completes(s: Sys, t: nat) returns (run: seq<Sys>, sched: seq<nat>)
    requires Valid(s.store) && t <= |s.reqs|
    requires forall u :: 0 <= u < t ==> s.reqs[u].done == |s.reqs[u].buf|
    requires forall u :: t <= u < |s.reqs| ==> s.reqs[u].done == 0 && !s.reqs[u].failed
    ensures CompleteRun(s, run, sched)
    decreases |s.reqs| - t
  {
    hide ByteAt, Valid, Moved, Step;
    if t == |s.reqs| {
      run, sched := [s], [];
    } else {
      run, sched := PassesTo(s, t, s.reqs[t].pos + |s.reqs[t].buf|);
      var run1, sched1 := Completes(run[|sched|], t + 1);
      RunsOn(run, sched, run1, sched1);
      run, sched := run + run1[1..], sched + sched1;
    }
  }
}
