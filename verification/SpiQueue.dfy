/**
 * The queue of the SPI controller between clients, the worker and power management. Each
 * stretch of code under the lock is one step, and so is each update of the state flags.
 */
module SpiQueue {
  import opened Base

  /** One acceptance of a message by s3c64xx_spi_transfer. */
  type Msg = nat

  /** Where the worker is: s3c64xx_spi_work. */
  datatype Worker = Idle | Acquiring | Locking | Handling(msg: Msg) | Handled(msg: Msg) | Freeing

  /** Where power management is: before suspend, in its wait loop, after it, clocks off, resuming. */
  datatype Power = Active | Waiting | WaitOver | Off | Reviving

  /**
   * The flags SUSPND and SPIBUSY, the queue, the pending bit of the work item, and the clocks.
   * `accepted` and `completed` are histories.
   */
  datatype Sys = Sys(
    suspnd: bool, busy: bool, queue: seq<Msg>, pending: bool, worker: Worker, power: Power, clocks: bool,
    accepted: seq<Msg>, completed: seq<Msg>)

  datatype Action =
    | Transfer(msg: Msg)
    | WorkBegins | AcquireFails | AcquireOk | LockRegion | HandleStep | Complete | FreeDma
    | SuspendFlag | WaitPoll | ClocksOff | ClocksOn | ResumeFlag

  const Start: Sys := Sys(false, false, [], false, Idle, Active, true, [], [])

  predicate Enabled(s: Sys, a: Action)
  {
    match a
    case Transfer(_) => true
    case WorkBegins => s.worker.Idle? && s.pending
    case AcquireFails => s.worker.Acquiring?
    case AcquireOk => s.worker.Acquiring?
    case LockRegion => s.worker.Locking? || s.worker.Handled?
    case HandleStep => s.worker.Handling?
    case Complete => s.worker.Handling?
    case FreeDma => s.worker.Freeing?
    case SuspendFlag => s.power.Active?
    case WaitPoll => s.power.Waiting?
    case ClocksOff => s.power.WaitOver?
    case ClocksOn => s.power.Off?
    case ResumeFlag => s.power.Reviving?
  }

  function Apply(s: Sys, a: Action): Sys
    requires Enabled(s, a)
  {
    match a
    case Transfer(m) =>
      if s.suspnd then s
      else s.(queue := s.queue + [m], pending := true, accepted := s.accepted + [m])
    case WorkBegins => s.(pending := false, worker := Acquiring)
    case AcquireFails => s
    case AcquireOk => s.(worker := Locking)
    case LockRegion =>
      var s1 := if s.worker.Handled? then s.(busy := false) else s;
      if s1.queue != [] && !s1.suspnd then
        s1.(queue := s1.queue[1..], busy := true, worker := Handling(s1.queue[0]))
      else
        s1.(worker := Freeing)
    case HandleStep => s
    case Complete => s.(completed := s.completed + [s.worker.msg], worker := Handled(s.worker.msg))
    case FreeDma => s.(worker := Idle)
    case SuspendFlag => s.(suspnd := true, power := Waiting)
    case WaitPoll => if s.busy then s else s.(power := WaitOver)
    case ClocksOff => s.(clocks := false, power := Off)
    case ClocksOn => s.(clocks := true, power := Reviving)
    case ResumeFlag => s.(suspnd := false, power := Active)
  }

  /** `run` lists the states of an execution in which the actions happen in that order. */
  predicate IsRun(run: seq<Sys>, actions: seq<Action>)
  {
    && |run| == |actions| + 1
    && run[0] == Start
    && forall i :: 0 <= i < |actions| ==> Enabled(run[i], actions[i]) && run[i + 1] == Apply(run[i], actions[i])
  }

  function InFlight(s: Sys): seq<Msg>
  {
    if s.worker.Handling? then [s.worker.msg] else []
  }

  /** Someone will look at the queue: the work item is pending or the worker has not done with it. */
  predicate Awake(s: Sys)
  {
    s.pending || s.worker.Acquiring? || s.worker.Locking? || s.worker.Handling? || s.worker.Handled?
  }

  predicate Quiet(p: Power)
  {
    p.WaitOver? || p.Off? || p.Reviving?
  }

  predicate Inv(s: Sys)
  {
    && s.accepted == s.completed + InFlight(s) + s.queue
    && (s.busy <==> s.worker.Handling? || s.worker.Handled?)
    && (s.suspnd <==> !s.power.Active?)
    && (Quiet(s.power) ==> !s.busy)
    && (s.clocks <==> !s.power.Off?)
  }

  /** The worker's stretches under the lock. */
  lemma LockRegionKeepsInv(s: Sys)
    requires Inv(s) && Enabled(s, LockRegion)
    ensures Inv(Apply(s, LockRegion))
  {
    if s.queue != [] && !s.suspnd {
      assert s.queue == [s.queue[0]] + s.queue[1..];
    }
  }

  lemma StepKeepsInv(s: Sys, a: Action)
    requires Inv(s) && Enabled(s, a)
    ensures Inv(Apply(s, a))
  {
    match a
    case LockRegion =>
      LockRegionKeepsInv(s);
    case Transfer(m) =>
      assert s.completed + InFlight(s) + (s.queue + [m]) == s.completed + InFlight(s) + s.queue + [m];
    case _ =>
  }

  /**
   * Main result, over every interleaving. Messages are conserved and complete in the order of
   * acceptance; SPIBUSY says that a message is being handled; from the end of suspend's wait
   * until resume none is; and the clocks run whenever one is.
   */
  lemma {:induction false} EveryRun(run: seq<Sys>, actions: seq<Action>)
    requires IsRun(run, actions)
    ensures forall i :: 0 <= i < |run| ==> Inv(run[i])
  {
    var n := |actions|;
    if n > 0 {
      EveryRun(run[..n], actions[..n - 1]);
      assert run[n - 1] == run[..n][n - 1];
      StepKeepsInv(run[n - 1], actions[n - 1]);
    }
  }

  /** No message is handled without clocks, and none while suspend is past its wait. */
  lemma HandledWithClocks(run: seq<Sys>, actions: seq<Action>, i: nat)
    requires IsRun(run, actions) && i < |actions|
    ensures actions[i].HandleStep? || actions[i].Complete? ==> run[i].clocks && !Quiet(run[i].power)
    ensures Quiet(run[i].power) ==>
      !run[i].worker.Handling? && !run[i + 1].worker.Handling? && run[i].completed == run[i + 1].completed
  {
    EveryRun(run, actions);
    assert Inv(run[i]);
    QuietStep(run[i], actions[i]);
  }

  lemma QuietStep(s: Sys, a: Action)
    requires Inv(s) && Enabled(s, a)
    ensures a.HandleStep? || a.Complete? ==> s.clocks && !Quiet(s.power)
    ensures Quiet(s.power) ==>
      !s.worker.Handling? && !Apply(s, a).worker.Handling? && s.completed == Apply(s, a).completed
  {
  }

  lemma HistoryGrows(s: Sys, a: Action)
    requires Enabled(s, a)
    ensures s.completed <= Apply(s, a).completed && s.accepted <= Apply(s, a).accepted
  {
    match a
    case Transfer(m) =>
    case LockRegion =>
    case Complete =>
    case _ =>
  }

  /** What was completed stays completed, in the order of acceptance. */
  lemma {:induction false} CompletionOrder(run: seq<Sys>, actions: seq<Action>, i: nat)
    requires IsRun(run, actions) && i < |run|
    ensures run[i].completed <= run[|actions|].completed <= run[|actions|].accepted
    ensures run[i].accepted <= run[|actions|].accepted
    decreases |actions|
  {
    hide Enabled, Apply;
    EveryRun(run, actions);
    var n := |actions|;
    assert Inv(run[n]);
    if i < n {
      CompletionOrder(run[..n], actions[..n - 1], i);
      HistoryGrows(run[n - 1], actions[n - 1]);
    }
  }

  predicate Distinct(s: seq<Msg>)
  {
    forall i, j :: 0 <= i < j < |s| ==> s[i] != s[j]
  }

  /** An accepted message is queued, in flight or completed: one of them, and once. */
  lemma ExactlyOnePlace(s: Sys, m: Msg)
    requires Inv(s) && Distinct(s.accepted) && m in s.accepted
    ensures multiset(s.queue)[m] + multiset(InFlight(s))[m] + multiset(s.completed)[m] == 1
  {
    DistinctCounts(s.accepted, m);
    assert multiset(s.accepted) == multiset(s.completed) + multiset(InFlight(s)) + multiset(s.queue);
  }

  lemma {:induction false} DistinctCounts(s: seq<Msg>, m: Msg)
    requires Distinct(s)
    ensures multiset(s)[m] == if m in s then 1 else 0
  {
    if s != [] {
      var front, last := s[..|s| - 1], s[|s| - 1];
      DistinctCounts(front, m);
      assert s == front + [last];
      assert last !in front;
    }
  }

  /** Without suspend no wake-up is lost: whenever messages wait, someone will look at the queue. */
  lemma {:induction false} NoLostWakeup(run: seq<Sys>, actions: seq<Action>)
    requires IsRun(run, actions) && SuspendFlag !in actions
    ensures var s := run[|actions|]; !s.suspnd && (s.queue != [] ==> Awake(s))
  {
    var n := |actions|;
    if n > 0 {
      NoLostWakeup(run[..n], actions[..n - 1]);
      assert Enabled(run[n - 1], actions[n - 1]) && run[n] == Apply(run[n - 1], actions[n - 1]);
    }
  }

  /** From SUSPND on until it is cleared, nothing is accepted, whatever the clients do. */
  lemma {:induction false} NothingAccepted(run: seq<Sys>, actions: seq<Action>, i: nat, j: nat)
    requires IsRun(run, actions) && i <= j <= |actions| && run[i].suspnd
    requires forall k :: i <= k < j ==> !actions[k].ResumeFlag?
    ensures run[j].suspnd && run[j].accepted == run[i].accepted
    ensures run[j].completed + InFlight(run[j]) + run[j].queue == run[i].completed + InFlight(run[i]) + run[i].queue
    decreases j - i
  {
    EveryRun(run, actions);
    assert Inv(run[i]) && Inv(run[j]);
    if i < j {
      NothingAccepted(run, actions, i, j - 1);
      assert Enabled(run[j - 1], actions[j - 1]) && run[j] == Apply(run[j - 1], actions[j - 1]);
    }
  }

  /** The worker last looked at the queue at `i`, in vain because of SUSPND, and none was added since. */
  predicate LastLookInVain(run: seq<Sys>, actions: seq<Action>, i: nat)
    requires IsRun(run, actions)
  {
    && i < |actions| && actions[i].LockRegion? && run[i].suspnd && run[i].queue != []
    && forall k :: i < k < |actions| ==>
         !actions[k].LockRegion? && (actions[k].Transfer? ==> run[k].suspnd)
  }

  /**
   * Main result. With the worker at rest, messages are left waiting if and only if its last
   * look at the queue came under SUSPND, and no message was accepted since.
   */
  lemma {:induction false} StrandedExactly(run: seq<Sys>, actions: seq<Action>)
    requires IsRun(run, actions) && !Awake(run[|actions|])
    ensures run[|actions|].queue != [] <==> exists i: nat :: LastLookInVain(run, actions, i)
  {
    if run[|actions|].queue != [] {
      var i := WhereLeft(run, actions);
    }
    forall i: nat | LastLookInVain(run, actions, i)
      ensures run[|actions|].queue != []
    {
      StaysLeft(run, actions, i);
    }
  }

  lemma {:induction false} WhereLeft(run: seq<Sys>, actions: seq<Action>) returns (i: nat)
    requires IsRun(run, actions) && !Awake(run[|actions|]) && run[|actions|].queue != []
    ensures LastLookInVain(run, actions, i)
  {
    var n := |actions|;
    if n == 0 {
      assert false;
    }
    assert Enabled(run[n - 1], actions[n - 1]) && run[n] == Apply(run[n - 1], actions[n - 1]);
    if Awake(run[n - 1]) {
      i := n - 1;
    } else {
      i := WhereLeft(run[..n], actions[..n - 1]);
    }
  }

  lemma {:induction false} StaysLeft(run: seq<Sys>, actions: seq<Action>, i: nat)
    requires IsRun(run, actions) && LastLookInVain(run, actions, i)
    ensures run[|actions|].queue != []
  {
    var n := |actions|;
    assert Enabled(run[n - 1], actions[n - 1]) && run[n] == Apply(run[n - 1], actions[n - 1]);
    if i < n - 1 {
      StaysLeft(run[..n], actions[..n - 1], i);
    }
  }

  // What being awake is good for: the worker alone then empties the queue.

  function Rank(w: Worker): nat
  {
    match w
    case Idle => 0
    case Freeing => 1
    case Locking => 2
    case Acquiring => 3
    case Handled(_) => 2
    case Handling(_) => 3
  }

  function NextWork(s: Sys): (a: Action)
    requires s.pending || !s.worker.Idle?
    ensures Enabled(s, a) && !a.SuspendFlag?
  {
    match s.worker
    case Idle => WorkBegins
    case Acquiring => AcquireOk
    case Locking => LockRegion
    case Handling(_) => Complete
    case Handled(_) => LockRegion
    case Freeing => FreeDma
  }

  /** The worker goes on alone until it is idle with no work pending. */
  function Drain(s: Sys): Sys
    decreases 2 * |s.queue| + Rank(s.worker) + if s.pending then 4 else 0
  {
    if s.pending || !s.worker.Idle? then Drain(Apply(s, NextWork(s))) else s
  }

  lemma {:induction false} DrainCompletes(s: Sys)
    requires Inv(s) && !s.suspnd && (s.queue != [] ==> Awake(s))
    ensures Drain(s).completed == s.accepted == Drain(s).accepted && Drain(s).queue == []
    decreases 2 * |s.queue| + Rank(s.worker) + if s.pending then 4 else 0
  {
    if s.pending || !s.worker.Idle? {
      var a := NextWork(s);
      StepKeepsInv(s, a);
      DrainCompletes(Apply(s, a));
    }
  }

  /**
   * Across a suspend, messages may wait with nobody to look at the queue: here one is accepted,
   * the driver is suspended before the worker takes the lock, and resumed.
   */
  lemma SuspendStrands(m: Msg) returns (run: seq<Sys>, actions: seq<Action>)
    ensures IsRun(run, actions)
    ensures var s := run[|actions|]; s.queue == [m] && !s.suspnd && s.power.Active? && !Awake(s) && s.completed == []
  {
    actions := [Transfer(m), WorkBegins, AcquireOk, SuspendFlag, LockRegion, FreeDma,
                WaitPoll, ClocksOff, ClocksOn, ResumeFlag];
    var s1 := Start.(queue := [m], pending := true, accepted := [m]);
    var s2 := s1.(pending := false, worker := Acquiring);
    var s3 := s2.(worker := Locking);
    var s4 := s3.(suspnd := true, power := Waiting);
    var s5 := s4.(worker := Freeing);
    var s6 := s5.(worker := Idle);
    var s7 := s6.(power := WaitOver);
    var s8 := s7.(clocks := false, power := Off);
    var s9 := s8.(clocks := true, power := Reviving);
    run := [Start, s1, s2, s3, s4, s5, s6, s7, s8, s9, s9.(suspnd := false, power := Active)];
    assert s1 == Apply(Start, Transfer(m)) by {
      assert [] + [m] == [m];
    }
  }

  /** The driver's data, with one method for each stretch of code that is one step. */
  class Driver {
    var suspnd: bool
    var busy: bool
    var queue: seq<Msg>
    var pending: bool
    var worker: Worker
    var power: Power
    var clocks: bool
    ghost var accepted: seq<Msg>
    ghost var completed: seq<Msg>

    ghost function View(): Sys
      reads this
    {
      Sys(suspnd, busy, queue, pending, worker, power, clocks, accepted, completed)
    }

    constructor ()
      ensures View() == Start && Inv(View())
    {
      suspnd, busy, queue, pending, worker, power, clocks := false, false, [], false, Idle, Active, true;
      accepted, completed := [], [];
    }

    /** s3c64xx_spi_transfer. */
    method TransferMsg(m: Msg) returns (ret: int)
      requires Inv(View())
      modifies this
      ensures Inv(View()) && View() == Apply(old(View()), Transfer(m))
      ensures ret == if old(suspnd) then -ESHUTDOWN else 0
      ensures old(suspnd) ==> View() == old(View())
      ensures !old(suspnd) ==> queue == old(queue) + [m] && pending && accepted == old(accepted) + [m]
    {
      StepKeepsInv(View(), Transfer(m));
      if suspnd {
        return -ESHUTDOWN;
      }
      queue := queue + [m];
      pending := true;
      accepted := accepted + [m];
      return 0;
    }

    /** The worker from taking the lock to giving it back: the next message, or none. */
    method NextMessage() returns (next: Option<Msg>)
      requires Inv(View()) && (worker.Locking? || worker.Handled?)
      modifies this
      ensures Inv(View()) && View() == Apply(old(View()), LockRegion)
      ensures next == if worker.Handling? then Some(worker.msg) else None
      ensures next.Some? ==> !suspnd && clocks && |completed| < |accepted| && next.value == accepted[|completed|]
    {
      StepKeepsInv(View(), LockRegion);
      if worker.Handled? {
        busy := false;
      }
      if queue != [] && !suspnd {
        var msg := queue[0];
        queue := queue[1..];
        busy := true;
        worker := Handling(msg);
        return Some(msg);
      }
      worker := Freeing;
      return None;
    }

    /** The completion callback at the end of handle_msg. */
    method CompleteMessage()
      requires Inv(View()) && worker.Handling?
      modifies this
      ensures Inv(View()) && View() == Apply(old(View()), Complete)
    {
      StepKeepsInv(View(), Complete);
      completed := completed + [worker.msg];
      worker := Handled(worker.msg);
    }

    /** s3c64xx_spi_suspend: set the flag, */
    method SuspendSetsFlag()
      requires Inv(View()) && power.Active?
      modifies this
      ensures Inv(View()) && View() == Apply(old(View()), SuspendFlag)
    {
      StepKeepsInv(View(), SuspendFlag);
      suspnd, power := true, Waiting;
    }

    /** look whether the worker is still busy, */
    method SuspendPolls()
      requires Inv(View()) && power.Waiting?
      modifies this
      ensures Inv(View()) && View() == Apply(old(View()), WaitPoll)
    {
      StepKeepsInv(View(), WaitPoll);
      if !busy {
        power := WaitOver;
      }
    }

    /** and stop the clocks. */
    method SuspendStopsClocks()
      requires Inv(View()) && power.WaitOver?
      modifies this
      ensures Inv(View()) && View() == Apply(old(View()), ClocksOff)
      ensures !worker.Handling? && !worker.Handled?
    {
      StepKeepsInv(View(), ClocksOff);
      clocks, power := false, Off;
    }

    /** s3c64xx_spi_resume: start the clocks, */
    method ResumeStartsClocks()
      requires Inv(View()) && power.Off?
      modifies this
      ensures Inv(View()) && View() == Apply(old(View()), ClocksOn)
    {
      StepKeepsInv(View(), ClocksOn);
      clocks, power := true, Reviving;
    }

    /** and clear the flag once the hardware is set up. */
    method ResumeClearsFlag()
      requires Inv(View()) && power.Reviving?
      modifies this
      ensures Inv(View()) && View() == Apply(old(View()), ResumeFlag)
    {
      StepKeepsInv(View(), ResumeFlag);
      suspnd, power := false, Active;
    }
  }
}
