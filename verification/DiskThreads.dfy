/**
 * Concurrent requests on the RAM disk. simp_blkdev_trans takes the data lock once for
 * each segment, so the passes of different requests interleave.
 */
module DiskThreads {
  import opened Base
  import opened DiskStore
  import opened DiskDriver

  /** A running call of simp_blkdev_trans with its buffer and its done_cnt. */
  datatype Request = Request(write: bool, pos: nat, buf: seq<Byte>, done: nat, failed: bool)

  datatype Sys = Sys(store: Store, reqs: seq<Request>)

  ghost predicate Started(s: Sys)
  {
    && Valid(s.store)
    && forall t :: 0 <= t < |s.reqs| ==> s.reqs[t].done == 0 && !s.reqs[t].failed
  }

  ghost predicate Finished(s: Sys)
  {
    forall t :: 0 <= t < |s.reqs| ==> s.reqs[t].done == |s.reqs[t].buf|
  }

  predicate Apart(r: Request, q: Request)
  {
    r.pos + |r.buf| <= q.pos || q.pos + |q.buf| <= r.pos
  }

  /** Requests may share bytes only if both of them read. */
  ghost predicate Compatible(reqs: seq<Request>)
  {
    forall t, u :: 0 <= t < u < |reqs| ==> Apart(reqs[t], reqs[u]) || (!reqs[t].write && !reqs[u].write)
  }

  /**
   * One pass of request `r`, which becomes `q`. That the driver's pass under the lock is one,
   * the store's well-formedness included, is the contract of `LockedPass` below.
   */
  ghost predicate Pass(s: Store, s': Store, r: Request, q: Request)
    requires r.done <= |r.buf|
  {
    var cnt := ChunkLen(r.pos + r.done, |r.buf| - r.done);
    var n := q.done - r.done;
    && 0 <= n <= cnt
    && Valid(s') && Grew(s, s', (r.pos + r.done) / SEG_SIZE)
    && Moved(r.write, s, s', r.pos + r.done, r.buf, q.buf, r.done, n)
    && q == r.(buf := q.buf, done := r.done + n, failed := n < cnt)
  }

  /** Request `t` gets the lock for one pass. */
  ghost predicate Step(s: Sys, s': Sys, t: nat)
  {
    && t < |s.reqs| == |s'.reqs|
    && s.reqs[t].done < |s.reqs[t].buf| && !s.reqs[t].failed
    && Pass(s.store, s'.store, s.reqs[t], s'.reqs[t])
    && s'.reqs == s.reqs[t := s'.reqs[t]]
  }

  /** `run` is an execution that schedules the requests in the order `sched`. */
  ghost predicate IsRun(run: seq<Sys>, sched: seq<nat>)
  {
    && |run| == |sched| + 1
    && forall i :: 0 <= i < |sched| ==> Step(run[i], run[i + 1], sched[i])
  }

  /** Byte `i` belongs to the part of request `r` already written. */
  predicate Covers(r: Request, i: nat)
  {
    r.done <= |r.buf| && r.write && r.pos <= i < r.pos + r.done
  }

  /**
   * State `s` as the requests' own progress determines it: on disk, each write has put
   * its first `done` bytes; each read has fetched its first `done` bytes of the initial disk.
   */
  ghost predicate Explained(s0: Sys, s: Sys)
  {
    && |s.reqs| == |s0.reqs|
    && (forall t :: 0 <= t < |s.reqs| ==> SameRequest(s0.reqs[t], s.reqs[t]))
    && (forall t :: 0 <= t < |s.reqs| ==> s.reqs[t].buf == Fetched(s0.store, s0.reqs[t], s.reqs[t].done))
    && DiskExplained(s0, s)
  }

  ghost predicate DiskExplained(s0: Sys, s: Sys)
  {
    && (forall t, i: nat :: 0 <= t < |s.reqs| && Covers(s.reqs[t], i) ==>
          ByteAt(s.store, i) == s.reqs[t].buf[i - s.reqs[t].pos])
    && (forall i: nat :: (forall t :: 0 <= t < |s.reqs| ==> !Covers(s.reqs[t], i)) ==>
          ByteAt(s.store, i) == ByteAt(s0.store, i))
  }

  ghost predicate SameRequest(r0: Request, r: Request)
  {
    r.write == r0.write && r.pos == r0.pos && r.done <= |r0.buf| == |r.buf|
  }

  /** The buffer of request `r` when its first `n` bytes have come from store `s`. */
  function Fetched(s: Store, r: Request, n: nat): seq<Byte>
    requires n <= |r.buf|
  {
    if r.write then r.buf else Splice(r.buf, 0, ReadBack(s, r.pos, n))
  }

  /** A pass of a write: what it covers is new on disk, everything else is as before. */
  lemma WriteStep(s0: Sys, s: Sys, s': Sys, t: nat)
    requires Compatible(s0.reqs) && Explained(s0, s) && Step(s, s', t) && s.reqs[t].write
    ensures Explained(s0, s')
  {
    hide Valid, Grew;
    var r, q := s.reqs[t], s'.reqs[t];
    forall u, i: nat | 0 <= u < |s'.reqs| && Covers(s'.reqs[u], i)
      ensures ByteAt(s'.store, i) == s'.reqs[u].buf[i - s'.reqs[u].pos]
    {
      if u != t {
        assert Covers(s.reqs[u], i);
        OthersApart(s0, s, t, u);
      }
    }
    forall i: nat | forall u :: 0 <= u < |s'.reqs| ==> !Covers(s'.reqs[u], i)
      ensures ByteAt(s'.store, i) == ByteAt(s0.store, i)
    {
      assert !Covers(q, i);
      forall u | 0 <= u < |s.reqs|
        ensures !Covers(s.reqs[u], i)
      {
        assert !Covers(s'.reqs[u], i);
      }
    }
  }

  lemma OthersApart(s0: Sys, s: Sys, t: nat, u: nat)
    requires Compatible(s0.reqs) && Explained(s0, s) && t < |s.reqs| && u < |s.reqs| && t != u
    ensures Apart(s.reqs[u], s.reqs[t]) || (!s.reqs[u].write && !s.reqs[t].write)
  {
    assert SameRequest(s0.reqs[t], s.reqs[t]) && SameRequest(s0.reqs[u], s.reqs[u]);
  }

  /** Nobody writes where request `t` reads. */
  lemma StillInitial(s0: Sys, s: Sys, t: nat, i: nat)
    requires Compatible(s0.reqs) && Explained(s0, s) && t < |s.reqs| && !s.reqs[t].write
    requires s.reqs[t].pos <= i < s.reqs[t].pos + |s.reqs[t].buf|
    ensures ByteAt(s.store, i) == ByteAt(s0.store, i)
  {
    hide ByteAt;
    forall u | 0 <= u < |s.reqs|
      ensures !Covers(s.reqs[u], i)
    {
      if u != t {
        OthersApart(s0, s, t, u);
      }
    }
  }

  /** A pass of a read: the bytes it fetches are still those of the initial disk. */
  lemma ReadStep(s0: Sys, s: Sys, s': Sys, t: nat)
    requires Compatible(s0.reqs) && Explained(s0, s) && Step(s, s', t) && !s.reqs[t].write
    ensures Explained(s0, s')
  {
    hide Valid, Grew, ByteAt, Splice, Compatible;
    var r, q := s.reqs[t], s'.reqs[t];
    var at, n := r.pos + r.done, q.done - r.done;
    forall i: nat | i < n
      ensures ReadBack(s.store, at, n)[i] == ReadBack(s0.store, at, n)[i]
    {
      StillInitial(s0, s, t, at + i);
    }
    assert ReadBack(s.store, at, n) == ReadBack(s0.store, at, n);
    ReadOn(s0.store, s0.reqs[t].pos, s0.reqs[t].buf, 0, r.done, n);
    assert q.buf == Fetched(s0.store, s0.reqs[t], q.done);
    SameCoverage(s, s', t);
  }

  lemma SameCoverage(s: Sys, s': Sys, t: nat)
    requires Step(s, s', t) && !s.reqs[t].write
    ensures s'.store == s.store && |s'.reqs| == |s.reqs|
    ensures forall u, i: nat :: 0 <= u < |s.reqs| ==> (Covers(s'.reqs[u], i) <==> Covers(s.reqs[u], i))
  {
  }

  /**
   * What each pass keeps (see `LockedPass`) is kept by every run, whatever the requests, the
   * schedule and the passes that fail: the store is well formed at every moment (one page group
   * for each segment, none leaked), and groups stay where they are.
   */
  lemma {:induction false} OneGroupPerSegment(run: seq<Sys>, sched: seq<nat>, i: nat, j: nat)
    requires IsRun(run, sched) && Started(run[0]) && i <= j <= |sched|
    ensures Valid(run[i].store) && Valid(run[j].store)
    ensures forall k :: k in run[i].store.tree ==>
      k in run[j].store.tree && run[j].store.tree[k] == run[i].store.tree[k]
    decreases i + j
  {
    if i == j > 0 {
      assert Step(run[i - 1], run[i], sched[i - 1]);
    } else if i < j {
      OneGroupPerSegment(run, sched, i, j - 1);
      assert Step(run[j - 1], run[j], sched[j - 1]);
    }
  }

  /**
   * Main result. Whatever the schedule, and whichever passes fail: if requests share bytes
   * only for reading, disk and buffers are what the progress of each request alone explains.
   */
  lemma {:induction false} EveryInterleaving(run: seq<Sys>, sched: seq<nat>)
    requires IsRun(run, sched) && Started(run[0]) && Compatible(run[0].reqs)
    ensures Explained(run[0], run[|sched|])
  {
    var n := |sched|;
    if n == 0 {
      StartExplained(run[0]);
    } else {
      EveryInterleaving(run[..n], sched[..n - 1]);
      assert Step(run[n - 1], run[n], sched[n - 1]);
      if run[n - 1].reqs[sched[n - 1]].write {
        WriteStep(run[0], run[n - 1], run[n], sched[n - 1]);
      } else {
        ReadStep(run[0], run[n - 1], run[n], sched[n - 1]);
      }
    }
  }

  lemma StartExplained(s: Sys)
    requires Started(s)
    ensures Explained(s, s)
  {
  }

  /**
   * Compatible requests can be run in any order: two complete schedules, serial ones among
   * them, leave the same flat disk and the same read results.
   */
  lemma SchedulesAgree(run: seq<Sys>, sched: seq<nat>, run': seq<Sys>, sched': seq<nat>)
    requires IsRun(run, sched) && IsRun(run', sched')
    requires run[0] == run'[0] && Started(run[0]) && Compatible(run[0].reqs)
    requires Finished(run[|sched|]) && Finished(run'[|sched'|])
    ensures forall i: nat :: ByteAt(run[|sched|].store, i) == ByteAt(run'[|sched'|].store, i)
    ensures |run[|sched|].reqs| == |run'[|sched'|].reqs| == |run[0].reqs|
    ensures forall t :: 0 <= t < |run[0].reqs| ==> run[|sched|].reqs[t].buf == run'[|sched'|].reqs[t].buf
  {
    EveryInterleaving(run, sched);
    EveryInterleaving(run', sched');
    var s0, s, s' := run[0], run[|sched|], run'[|sched'|];
    forall i: nat
      ensures ByteAt(s.store, i) == ByteAt(s'.store, i)
    {
      if t :| 0 <= t < |s.reqs| && Covers(s.reqs[t], i) {
        assert Covers(s'.reqs[t], i);
      } else {
        forall t | 0 <= t < |s'.reqs|
          ensures !Covers(s'.reqs[t], i)
        {
          assert !Covers(s.reqs[t], i);
        }
      }
    }
  }

  /** The driver's pass under the lock is the step of this model. */
  method LockedPass(disk: RamDisk, buf: array<Byte>, r: Request) returns (ret: int, ghost q: Request)
    requires disk.Valid() && buf[..] == r.buf && r.done < |r.buf|
    modifies disk, buf
    ensures disk.Valid() && Pass(old(disk.store), disk.store, r, q)
    ensures buf[..] == q.buf && (q.failed <==> ret != 0)
  {
    hide Valid, Grew, Moved, ByteAt;
    ghost var n;
    ret, n := disk.TransSegment(r.pos + r.done, buf, r.done, ChunkLen(r.pos + r.done, |r.buf| - r.done), r.write);
    q := r.(buf := buf[..], done := r.done + n, failed := ret != 0);
  }
}
