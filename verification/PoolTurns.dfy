/** The turns of the workers: who blocks and until when, who is busy and until
    when, and which job a worker gets. */
module PoolTurns {
  import opened Options
  import opened Ring
  import opened Pool

  // ----------------------------------------------------------- blocked workers

  /** The step wakes worker `i`, with a signal or without. */
  predicate Wakes<J>(step: Step<J>, i: nat) {
    step == Spurious(i) || (step.Offer? && step.woken == Some(i))
  }

  lemma StepLeavesBlocked<J>(mode: Mode, s: Sys<J>, step: Step<J>, i: nat)
    requires i < |s.workers| && s.workers[i].Waiting? && !Wakes(step, i)
    ensures var e := Apply(mode, s, step);
      e.To? ==> |e.sys.workers| == |s.workers| && e.sys.workers[i].Waiting? && step != Lock(i)
  {
  }

  lemma {:induction false} BlockedStays<J>(mode: Mode, s: Sys<J>, steps: seq<Step<J>>, i: nat)
    requires i < |s.workers| && s.workers[i].Waiting?
    requires forall k :: 0 <= k < |steps| ==> !Wakes(steps[k], i)
    requires Exec(mode, s, steps).To?
    ensures var e := Exec(mode, s, steps).sys; |e.workers| == |s.workers| && e.workers[i].Waiting?
    ensures forall k :: 0 <= k < |steps| ==> steps[k] != Lock(i)
    decreases |steps|
  {
    if steps != [] {
      StepLeavesBlocked(mode, s, steps[0], i);
      var s' := Apply(mode, s, steps[0]).sys;
      assert forall k :: 0 <= k < |steps[1..]| ==> steps[1..][k] == steps[k + 1];
      BlockedStays(mode, s', steps[1..], i);
      forall k | 0 <= k < |steps| ensures steps[k] != Lock(i) {
        if k > 0 { assert steps[k] == steps[1..][k - 1]; }
      }
    }
  }

  /** By the code and by the tables alike: a worker that finds the ring empty is
      blocked, and stays so in every run in which nobody wakes it. */
  lemma EmptyRingBlocks<J>(mode: Mode, s: Sys<J>, i: nat, steps: seq<Step<J>>)
    requires s.ring.count == 0 && Exec(mode, s, [Lock(i)] + steps).To?
    requires forall k :: 0 <= k < |steps| ==> !Wakes(steps[k], i)
    ensures var e := Exec(mode, s, [Lock(i)] + steps).sys; i < |e.workers| && e.workers[i].Waiting?
    ensures forall k :: 0 <= k < |steps| ==> steps[k] != Lock(i)
  {
    var run := [Lock(i)] + steps;
    assert run[0] == Lock(i) && run[1..] == steps;
    BlockedStays(mode, Apply(mode, s, Lock(i)).sys, steps, i);
  }

  // -------------------------------------------------------------- busy workers

  function Busy(ws: seq<Worker>): nat {
    if ws == [] then 0 else (if ws[|ws| - 1].Working? then 1 else 0) + Busy(ws[..|ws| - 1])
  }

  function Finishes<J>(steps: seq<Step<J>>): nat {
    if steps == [] then 0 else (if steps[0].Finish? then 1 else 0) + Finishes(steps[1..])
  }

  lemma {:induction false} BusyAfter(ws: seq<Worker>, i: nat, w: Worker)
    requires i < |ws|
    ensures Busy(ws[i := w]) + (if ws[i].Working? then 1 else 0) == Busy(ws) + (if w.Working? then 1 else 0)
  {
    var last := |ws| - 1;
    if i == last {
      assert ws[i := w][..last] == ws[..last];
    } else {
      assert ws[i := w][..last] == ws[..last][i := w];
      BusyAfter(ws[..last], i, w);
    }
  }

  /** Different busy workers have different jobs, all of them taken. */
  predicate OwnJobs(ws: seq<Worker>, taken: nat) {
    && (forall i :: 0 <= i < |ws| && ws[i].Working? ==> ws[i].number < taken)
    && (forall i, j :: 0 <= i < j < |ws| && ws[i].Working? && ws[j].Working? ==> ws[i].number != ws[j].number)
  }

  lemma StepWorks<J>(mode: Mode, s: Sys<J>, step: Step<J>)
    requires OwnJobs(s.workers, |s.taken|)
    ensures var e := Apply(mode, s, step);
      e.To? ==>
        && OwnJobs(e.sys.workers, |e.sys.taken|)
        && Busy(e.sys.workers) + Finishes([step]) + |s.taken| == Busy(s.workers) + |e.sys.taken|
  {
    hide Take, Put, Busy;
    var e := Apply(mode, s, step);
    assert Finishes([step]) == if step.Finish? then 1 else 0 by { assert [step][1..] == []; }
    match step
    case Offer(job, woken) =>
      if woken.Some? && woken.value < |s.workers| { BusyAfter(s.workers, woken.value, Woken); }
    case Lock(i) =>
      if i < |s.workers| && e.To? { BusyAfter(s.workers, i, e.sys.workers[i]); }
    case WaitFails(i) =>
      if i < |s.workers| { BusyAfter(s.workers, i, Ready); }
    case Spurious(i) =>
      if i < |s.workers| { BusyAfter(s.workers, i, Woken); }
    case Finish(i) =>
      if i < |s.workers| { BusyAfter(s.workers, i, Ready); }
  }

  lemma {:induction false} RunWorks<J>(mode: Mode, s: Sys<J>, steps: seq<Step<J>>)
    requires OwnJobs(s.workers, |s.taken|)
    ensures var e := Exec(mode, s, steps);
      e.To? ==>
        && OwnJobs(e.sys.workers, |e.sys.taken|)
        && Busy(e.sys.workers) + Finishes(steps) + |s.taken| == Busy(s.workers) + |e.sys.taken|
    decreases |steps|
  {
    hide Apply, OwnJobs, Busy;
    if steps != [] {
      StepWorks(mode, s, steps[0]);
      assert Finishes([steps[0]]) == if steps[0].Finish? then 1 else 0 by { assert [steps[0]][1..] == []; }
      var e := Apply(mode, s, steps[0]);
      if e.To? { RunWorks(mode, e.sys, steps[1..]); }
    }
  }

  lemma {:induction false} NobodyBusy(n: nat)
    ensures Busy(seq(n, _ => Ready)) == 0
  {
    var ws := seq(n, _ => Ready);
    if n > 0 {
      NobodyBusy(n - 1);
      assert ws[..n - 1] == seq(n - 1, _ => Ready);
    }
  }

  /** In every run, by the code and by the tables alike: every job handed out was
      finished or is in the hands of exactly one worker. */
  lemma EveryTakeIsWorked<J>(mode: Mode, size: nat, workers: nat, steps: seq<Step<J>>)
    requires Exec<J>(mode, Boot(size, workers), steps).To?
    ensures var e := Exec<J>(mode, Boot(size, workers), steps).sys;
      OwnJobs(e.workers, |e.taken|) && Busy(e.workers) + Finishes(steps) == |e.taken|
  {
    NobodyBusy(workers);
    RunWorks<J>(mode, Boot(size, workers), steps);
  }

  // -------------------------------------------------------- a worker with a job

  /** By the tables, a worker that gets the mutex while a job is queued leaves it
      with the oldest one, unless the ring has stopped. */
  lemma QueuedJobIsHanded<J>(s: Sys<J>, i: nat)
    requires InOrder(s) && i < |s.workers| && (s.workers[i].Ready? || s.workers[i].Woken?)
    requires s.ring.count > 0 && !Dead(s.ring)
    ensures var n := |s.taken|; var e := Exec(AsTabled, s, [Lock(i)]);
      && e.To? && n < |s.accepted| && e.sys.taken == s.taken + [Some(s.accepted[n])]
      && |e.sys.workers| == |s.workers| && e.sys.workers[i].Working? && e.sys.workers[i].number == n
      && (forall k :: 0 <= k < |s.workers| && k != i ==> e.sys.workers[k] == s.workers[k])
      && e.sys.accepted == s.accepted && e.sys.ring.count + 1 == s.ring.count
  {
    hide Good, Take;
    TakeKeepsOrder(s.ring, s.accepted, |s.taken|);
    var step: Step<J> := Lock(i);
    assert [step][1..] == [];
    OneTake(s.ring);
    GoodCount(s.ring, s.accepted, |s.taken|);
  }

  lemma GoodCount<J>(q: Ring<J>, accepted: seq<J>, taken: nat)
    requires Good(q, accepted, taken)
    ensures taken + q.count == |accepted|
  {
  }

  lemma OneTake<J>(q: Ring<J>)
    ensures Take(AsTabled, q).Done? ==> Take(AsTabled, q).ring.count + 1 == q.count
  {
  }

  /** A busy worker takes no turn and is not disturbed until it is done. */
  lemma BusyStays<J>(mode: Mode, s: Sys<J>, step: Step<J>, i: nat)
    requires i < |s.workers| && s.workers[i].Working? && step != Finish(i) && Apply(mode, s, step).To?
    ensures var e := Apply(mode, s, step).sys; |e.workers| == |s.workers| && e.workers[i] == s.workers[i]
    ensures step != Lock(i) && step != WaitFails(i) && step != Spurious(i)
  {
  }

  lemma {:induction false} BusyUntilDone<J>(mode: Mode, s: Sys<J>, steps: seq<Step<J>>, i: nat)
    requires i < |s.workers| && s.workers[i].Working? && Exec(mode, s, steps).To?
    requires forall k :: 0 <= k < |steps| ==> steps[k] != Finish(i)
    ensures var e := Exec(mode, s, steps).sys; |e.workers| == |s.workers| && e.workers[i] == s.workers[i]
    ensures forall k :: 0 <= k < |steps| ==> steps[k] != Lock(i) && steps[k] != WaitFails(i) && steps[k] != Spurious(i)
    decreases |steps|
  {
    if steps != [] {
      BusyStays(mode, s, steps[0], i);
      assert forall k :: 0 <= k < |steps[1..]| ==> steps[1..][k] == steps[k + 1];
      BusyUntilDone(mode, Apply(mode, s, steps[0]).sys, steps[1..], i);
      forall k | 0 <= k < |steps|
        ensures steps[k] != Lock(i) && steps[k] != WaitFails(i) && steps[k] != Spurious(i)
      {
        if k > 0 { assert steps[k] == steps[1..][k - 1]; }
      }
    }
  }

  /** A worker that finds jobs but is refused one goes on without a wait: with
      both indices at the end mark it spins. */
  lemma RefusedTakeSpins<J>(mode: Mode, s: Sys<J>, i: nat)
    requires s.ring.count > 0 && Dead(s.ring) && Exec(mode, s, [Lock(i)]).To?
    ensures var e := Exec(mode, s, [Lock(i)]).sys;
      && e.ring == s.ring && e.taken == s.taken && |e.workers| == |s.workers|
      && i < |e.workers| && e.workers[i].Ready?
      && forall k :: 0 <= k < |s.workers| && k != i ==> e.workers[k] == s.workers[k]
  {
    var lock: Step<J> := Lock(i);
    assert [lock][1..] == [];
  }

  /** A job is accepted when, and only when, it is stored, and a refused one
      changes nothing. */
  lemma OfferIsStored<J>(mode: Mode, s: Sys<J>, job: J, woken: Option<nat>)
    requires Exec(mode, s, [Offer(job, woken)]).To?
    ensures var e := Exec(mode, s, [Offer(job, woken)]).sys;
      && e.taken == s.taken && |e.workers| == |s.workers|
      && (e == s || (e.accepted == s.accepted + [job] && e.ring.count == s.ring.count + 1))
      && (forall k :: 0 <= k < |s.workers| && woken != Some(k) ==> e.workers[k] == s.workers[k])
      && (e != s && woken.Some? ==> woken.value < |s.workers| && s.workers[woken.value].Waiting?
                                    && e.workers[woken.value].Woken?)
  {
    var step: Step<J> := Offer(job, woken);
    assert [step][1..] == [];
  }

  /** A full ring never holds up the server: the post is refused and nothing changes. */
  lemma FullRingRefuses<J>(s: Sys<J>, job: J, woken: Option<nat>)
    requires InOrder(s) && s.ring.count == |s.ring.slots|
    ensures Exec(AsTabled, s, [Offer(job, woken)]) == To(s)
  {
    var step: Step<J> := Offer(job, woken);
    assert [step][1..] == [];
    hide Good, Put;
    PutKeepsOrder(s.ring, job, s.accepted, |s.taken|);
  }

  /** Only a blocked worker returns from a wait without a signal; it still has to
      get the mutex, and finds what is in the ring then. */
  lemma SpuriousIsWoken<J>(mode: Mode, s: Sys<J>, i: nat)
    requires Exec(mode, s, [Spurious(i)]).To?
    ensures i < |s.workers| && s.workers[i].Waiting?
    ensures var e := Exec(mode, s, [Spurious(i)]).sys;
      && e.ring == s.ring && e.accepted == s.accepted && e.taken == s.taken && |e.workers| == |s.workers|
      && (e.workers[i].Woken? || e.workers[i].Ready?)
      && forall k :: 0 <= k < |s.workers| && k != i ==> e.workers[k] == s.workers[k]
  {
    var step: Step<J> := Spurious(i);
    assert [step][1..] == [];
  }

  /** A wait fails on an empty ring only.  Then, and when a job is done, nothing
      else has changed and the worker may go for the mutex again. */
  lemma FreeAgain<J>(mode: Mode, s: Sys<J>, i: nat, step: Step<J>)
    requires step == WaitFails(i) || step == Finish(i)
    requires Exec(mode, s, [step]).To?
    ensures step.WaitFails? ==> s.ring.count == 0
    ensures var e := Exec(mode, s, [step]).sys;
      && e.ring == s.ring && e.accepted == s.accepted && e.taken == s.taken
      && |e.workers| == |s.workers| && forall k :: 0 <= k < |s.workers| && k != i ==> e.workers[k] == s.workers[k]
    ensures !Exec(mode, s, [step, Lock(i)]).Disabled?
  {
    var lock: Step<J> := Lock(i);
    assert [step][1..] == [] && [step, lock][1..] == [lock] && [lock][1..] == [];
    hide Take;
    var s' := Apply(mode, s, step).sys;
    var r := Apply(mode, s', lock);
    assert Exec(mode, s', []) == To(s') && (r.To? ==> Exec(mode, r.sys, []) == To(r.sys));
    assert !r.Disabled? && Exec(mode, s', [lock]) == r;
    assert Exec(mode, s, [step, lock]) == Exec(mode, s', [lock]);
  }
}
