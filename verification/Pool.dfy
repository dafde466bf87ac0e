/** One server and any number of workers around the job ring.  Each critical
    section of the C code is one step; the condition variable is the set of
    workers in the `Waiting` state. */
module Pool {
  import opened Options
  import opened Ring

  /** `Ready`: about to lock the mutex.  `Waiting`: blocked on the condition
      variable.  `Woken`: signalled, about to lock the mutex again.
      `Working`: busy with job `number`, whose struct belongs to `slot`. */
  datatype Worker = Ready | Waiting | Woken | Working(number: nat, slot: nat)

  datatype Sys<J> = Sys(ring: Ring<J>, workers: seq<Worker>, accepted: seq<J>, taken: seq<Option<J>>)

  /** `Offer`: the server posts a job; if it is stored, the signal wakes one
      waiting worker when there is one.  `Lock`: a worker gets the mutex and
      tests the count.  `WaitFails`: as `Lock` on an empty ring, but the wait
      reports an error.  `Spurious`: a wait returns without a signal. */
  datatype Step<J> =
    | Offer(job: J, woken: Option<nat>)
    | Lock(worker: nat)
    | WaitFails(worker: nat)
    | Spurious(worker: nat)
    | Finish(worker: nat)

  /** `Undefined`: the code addressed a cell outside the slot array. */
  datatype Result<J> = Disabled | Undefined | To(sys: Sys<J>)

  predicate Awake(w: Worker) { w.Ready? || w.Woken? }

  predicate NobodyWaits(ws: seq<Worker>) { forall i :: 0 <= i < |ws| ==> !ws[i].Waiting? }

  function AwakeCount(ws: seq<Worker>): nat {
    if ws == [] then 0 else (if Awake(ws[|ws| - 1]) then 1 else 0) + AwakeCount(ws[..|ws| - 1])
  }

  function Signal(ws: seq<Worker>, woken: Option<nat>): Option<seq<Worker>> {
    match woken
    case None => if NobodyWaits(ws) then Some(ws) else None
    case Some(i) => if i < |ws| && ws[i].Waiting? then Some(ws[i := Woken]) else None
  }

  function Apply<J>(mode: Mode, s: Sys<J>, step: Step<J>): Result<J> {
    match step
    case Offer(job, woken) => (
      match Put(mode, s.ring, job)
      case Refused => To(s)
      case Overrun => Undefined
      case Done(ring, _) => (
        match Signal(s.workers, woken)
        case None => Disabled
        case Some(ws) => To(Sys(ring, ws, s.accepted + [job], s.taken))))
    case Lock(i) =>
      if i >= |s.workers| || !Awake(s.workers[i]) then Disabled
      else if s.ring.count == 0 then To(s.(workers := s.workers[i := Waiting]))
      else (
        match Take(mode, s.ring)
        case Refused => To(s.(workers := s.workers[i := Ready]))
        case Overrun => Undefined
        case Done(ring, slot) =>
          To(Sys(ring, s.workers[i := Working(|s.taken|, slot)], s.accepted, s.taken + [s.ring.slots[slot]])))
    case WaitFails(i) =>
      if i >= |s.workers| || !Awake(s.workers[i]) || s.ring.count > 0 then Disabled
      else To(s.(workers := s.workers[i := Ready]))
    case Spurious(i) =>
      if i >= |s.workers| || !s.workers[i].Waiting? then Disabled
      else To(s.(workers := s.workers[i := Woken]))
    case Finish(i) =>
      if i >= |s.workers| || !s.workers[i].Working? then Disabled
      else To(s.(workers := s.workers[i := Ready]))
  }

  /** The result of a whole run. */
  function Exec<J>(mode: Mode, s: Sys<J>, steps: seq<Step<J>>): Result<J>
    decreases |steps|
  {
    if steps == [] then To(s)
    else
      match Apply(mode, s, steps[0])
      case To(s') => Exec(mode, s', steps[1..])
      case other => other
  }

  function Boot<J>(size: nat, workers: nat): Sys<J> {
    Sys(Start(size), seq(workers, _ => Ready), [], [])
  }

  // ------------------------------------------------------ no lost wake-up

  /** While somebody is blocked, every queued job has a worker on its way. */
  predicate NoLostWakeup<J>(s: Sys<J>) {
    NobodyWaits(s.workers) || s.ring.count <= AwakeCount(s.workers)
  }

  lemma {:induction false} AwakeAfter(ws: seq<Worker>, i: nat, w: Worker)
    requires i < |ws|
    ensures AwakeCount(ws[i := w]) + (if Awake(ws[i]) then 1 else 0)
         == AwakeCount(ws) + (if Awake(w) then 1 else 0)
  {
    var last := |ws| - 1;
    if i == last {
      assert ws[i := w][..last] == ws[..last];
    } else {
      assert ws[i := w][..last] == ws[..last][i := w];
      AwakeAfter(ws[..last], i, w);
    }
  }

  lemma LockKeepsWakeups<J>(mode: Mode, s: Sys<J>, i: nat)
    requires NoLostWakeup(s)
    ensures Apply(mode, s, Lock(i)).To? ==> NoLostWakeup(Apply(mode, s, Lock(i)).sys)
  {
    hide NobodyWaits;
    if i < |s.workers| && Awake(s.workers[i]) {
      AwakeAfter(s.workers, i, Waiting);
      AwakeAfter(s.workers, i, Ready);
      if Take(mode, s.ring).Done? {
        var w := Working(|s.taken|, Take(mode, s.ring).slot);
        AwakeAfter(s.workers, i, w);
        WaitersKept(s.workers, i, w);
      }
      WaitersKept(s.workers, i, Ready);
    }
  }

  lemma StepKeepsWakeups<J>(mode: Mode, s: Sys<J>, step: Step<J>)
    requires NoLostWakeup(s)
    ensures Apply(mode, s, step).To? ==> NoLostWakeup(Apply(mode, s, step).sys)
  {
    match step
    case Offer(job, woken) =>
      if woken.Some? && woken.value < |s.workers| { AwakeAfter(s.workers, woken.value, Woken); }
    case Lock(i) =>
      LockKeepsWakeups(mode, s, i);
    case WaitFails(i) =>
      if i < |s.workers| && Awake(s.workers[i]) { AwakeAfter(s.workers, i, Ready); WaitersKept(s.workers, i, Ready); }
    case Spurious(i) =>
      if i < |s.workers| { AwakeAfter(s.workers, i, Woken); }
    case Finish(i) =>
      if i < |s.workers| && s.workers[i].Working? {
        AwakeAfter(s.workers, i, Ready);
        WaitersKept(s.workers, i, Ready);
      }
  }

  lemma WaitersKept(ws: seq<Worker>, i: nat, w: Worker)
    requires i < |ws| && !ws[i].Waiting? && !w.Waiting?
    ensures NobodyWaits(ws) <==> NobodyWaits(ws[i := w])
  {
    var ws' := ws[i := w];
    if NobodyWaits(ws') {
      forall k | 0 <= k < |ws| ensures !ws[k].Waiting? {
        assert !ws'[k].Waiting?;
      }
    }
  }

  lemma {:induction false} RunKeepsWakeups<J>(mode: Mode, s: Sys<J>, steps: seq<Step<J>>)
    requires NoLostWakeup(s)
    ensures Exec(mode, s, steps).To? ==> NoLostWakeup(Exec(mode, s, steps).sys)
    decreases |steps|
  {
    if steps != [] {
      StepKeepsWakeups(mode, s, steps[0]);
      if Apply(mode, s, steps[0]).To? {
        RunKeepsWakeups(mode, Apply(mode, s, steps[0]).sys, steps[1..]);
      }
    }
  }

  /** In every interleaving, by the code and by the tables alike, workers are
      never all blocked while a job is queued. */
  lemma NeverAllBlocked<J>(mode: Mode, size: nat, workers: nat, steps: seq<Step<J>>)
    ensures var e := Exec(mode, Boot(size, workers), steps);
      e.To? ==>
        (NoLostWakeup(e.sys)
         && ((forall i :: 0 <= i < |e.sys.workers| ==> e.sys.workers[i].Waiting?)
             ==> e.sys.workers == [] || e.sys.ring.count == 0))
  {
    var s: Sys<J> := Boot(size, workers);
    RunKeepsWakeups(mode, s, steps);
    var e := Exec(mode, s, steps);
    if e.To? && forall i :: 0 <= i < |e.sys.workers| ==> e.sys.workers[i].Waiting? {
      NoneAwake(e.sys.workers);
      if e.sys.workers != [] { assert e.sys.workers[0].Waiting?; }
    }
  }

  lemma {:induction false} NoneAwake(ws: seq<Worker>)
    requires forall i :: 0 <= i < |ws| ==> ws[i].Waiting?
    ensures AwakeCount(ws) == 0
  {
    if ws != [] { NoneAwake(ws[..|ws| - 1]); }
  }

  // ------------------------------------------------------- order of jobs

  function Somes<J>(js: seq<J>): seq<Option<J>> { seq(|js|, (i: nat) requires i < |js| => Some(js[i])) }

  /** Jobs handed out so far followed by the jobs in the ring are the jobs
      accepted, in order. */
  ghost predicate InOrder<J>(s: Sys<J>) {
    && Good(s.ring, s.accepted, |s.taken|)
    && s.taken == Somes(s.accepted[..|s.taken|])
  }

  /** A busy worker's struct belongs to slot `number` modulo the size. */
  ghost predicate HeldStructs<J>(s: Sys<J>) {
    |s.ring.slots| > 0 &&
    forall i :: 0 <= i < |s.workers| && s.workers[i].Working? ==>
      s.workers[i].number < |s.taken| && s.workers[i].slot == s.workers[i].number % |s.ring.slots|
  }

  lemma OfferKeepsOrder<J>(s: Sys<J>, job: J, woken: Option<nat>)
    requires InOrder(s) && HeldStructs(s)
    ensures var e := Apply(AsTabled, s, Offer(job, woken));
      !e.Undefined? && (e.To? ==> InOrder(e.sys) && HeldStructs(e.sys) && |e.sys.ring.slots| == |s.ring.slots|)
  {
    assert |s.taken| <= |s.accepted|;
    hide Good, Put;
    PutKeepsOrder(s.ring, job, s.accepted, |s.taken|);
    assert (s.accepted + [job])[..|s.taken|] == s.accepted[..|s.taken|];
  }

  lemma LockKeepsOrder<J>(s: Sys<J>, i: nat)
    requires InOrder(s) && HeldStructs(s)
    ensures var e := Apply(AsTabled, s, Lock(i));
      !e.Undefined? && (e.To? ==> InOrder(e.sys) && HeldStructs(e.sys) && |e.sys.ring.slots| == |s.ring.slots|)
  {
    hide Good, Take;
    TakeKeepsOrder(s.ring, s.accepted, |s.taken|);
    TakenGrows(s.accepted, |s.taken|);
  }

  lemma StepKeepsOrder<J>(s: Sys<J>, step: Step<J>)
    requires InOrder(s) && HeldStructs(s)
    ensures var e := Apply(AsTabled, s, step);
      !e.Undefined? && (e.To? ==> InOrder(e.sys) && HeldStructs(e.sys) && |e.sys.ring.slots| == |s.ring.slots|)
  {
    match step
    case Offer(job, woken) =>
      OfferKeepsOrder(s, job, woken);
      hide InOrder, HeldStructs, Apply;
    case Lock(i) =>
      LockKeepsOrder(s, i);
      hide InOrder, HeldStructs, Apply;
    case _ =>
  }

  lemma TakenGrows<J>(js: seq<J>, k: nat)
    ensures k < |js| ==> Somes(js[..k + 1]) == Somes(js[..k]) + [Some(js[k])]
  {
  }

  lemma {:induction false} RunKeepsOrder<J>(s: Sys<J>, steps: seq<Step<J>>)
    requires InOrder(s) && HeldStructs(s)
    ensures var e := Exec(AsTabled, s, steps);
      !e.Undefined? && (e.To? ==> InOrder(e.sys) && HeldStructs(e.sys) && |e.sys.ring.slots| == |s.ring.slots|)
    decreases |steps|
  {
    if steps != [] {
      StepKeepsOrder(s, steps[0]);
      if Apply(AsTabled, s, steps[0]).To? {
        RunKeepsOrder(Apply(AsTabled, s, steps[0]).sys, steps[1..]);
      }
    }
  }

  /** In every run by the documented tables no job is lost, repeated or reordered. */
  lemma JobsAreConserved<J>(size: nat, workers: nat, steps: seq<Step<J>>)
    requires size > 0
    ensures var e := Exec(AsTabled, Boot(size, workers), steps);
      !e.Undefined? &&
      (e.To? ==> |e.sys.ring.slots| > 0 && e.sys.taken + Contents(e.sys.ring) == Somes(e.sys.accepted))
  {
    var s: Sys<J> := Boot(size, workers);
    StartGood<J>(size);
    RunKeepsOrder(s, steps);
    var e := Exec(AsTabled, s, steps);
    if e.To? {
      ContentsAreQueued(e.sys.ring, e.sys.accepted, |e.sys.taken|);
      assert e.sys.taken + Contents(e.sys.ring) == Somes(e.sys.accepted);
    }
  }

  /** In every run by the documented tables: the struct a busy worker holds
      still carries its own job as long as fewer than `size` later jobs were
      accepted; a store that writes this struct accepts job number + a positive
      multiple of `size`; and two workers share a struct exactly when their job
      numbers agree modulo `size`. */
  lemma StructsAreReusedLate<J>(size: nat, workers: nat, steps: seq<Step<J>>, i: nat, j: nat, job: J)
    requires size > 0
    requires var e := Exec(AsTabled, Boot(size, workers), steps);
      && e.To? && i < |e.sys.workers| && e.sys.workers[i].Working?
      && j < |e.sys.workers| && e.sys.workers[j].Working?
    ensures var s := Exec<J>(AsTabled, Boot(size, workers), steps).sys;
      var w := s.workers[i];
      && |s.ring.slots| == size
      && w.number < |s.accepted| && w.slot < size
      && (|s.accepted| <= w.number + size ==> s.ring.slots[w.slot] == Some(s.accepted[w.number]))
      && (var o := Put(AsTabled, s.ring, job);
          o.Done? && o.slot == w.slot ==> |s.accepted| >= w.number + size && |s.accepted| % size == w.number % size)
      && (w.slot == s.workers[j].slot <==> w.number % size == s.workers[j].number % size)
  {
    var b: Sys<J> := Boot(size, workers);
    StartGood<J>(size);
    RunKeepsOrder(b, steps);
    var s := Exec(AsTabled, b, steps).sys;
    var w := s.workers[i];
    PutKeepsOrder(s.ring, job, s.accepted, |s.taken|);
    var a := s.accepted[w.number];
    if |s.accepted| < w.number + size {
      ModApart(w.number, |s.accepted|, size);
    }
  }

  // --------------------------------------------------- the code as written

  /** Every state of the run is in order and the code stays inside its array. */
  ghost predicate StaysInOrder<J>(s: Sys<J>, steps: seq<Step<J>>)
    decreases |steps|
  {
    InOrder(s) && (steps == [] ||
      match Apply(AsWritten, s, steps[0])
      case Disabled => true
      case Undefined => false
      case To(s') => StaysInOrder(s', steps[1..]))
  }

  /** No job is stored with the write index at the end of the ring after a
      first job was taken. */
  ghost predicate NeverWraps<J>(s: Sys<J>, steps: seq<Step<J>>)
    decreases |steps|
  {
    steps == [] ||
    (&& (steps[0].Offer? ==>
           Put(AsWritten, s.ring, steps[0].job).Refused?
           || Apply(AsWritten, s, steps[0]).Disabled?
           || !WriteWraps(s.ring.read, s.ring.write, s.ring.count, |s.ring.slots|))
     && (Apply(AsWritten, s, steps[0]).To? ==> NeverWraps(Apply(AsWritten, s, steps[0]).sys, steps[1..])))
  }

  /** Before the first wrap the indices simply count. */
  ghost predicate Counting<J>(s: Sys<J>) {
    InOrder(s) && s.ring.write == |s.accepted| && s.ring.read == |s.taken|
  }

  lemma WrittenOfferExact<J>(s: Sys<J>, job: J, woken: Option<nat>)
    requires Counting(s)
    ensures var e := Apply(AsWritten, s, Offer(job, woken));
      var wraps := !e.Disabled? && !Put(AsWritten, s.ring, job).Refused?
                   && WriteWraps(s.ring.read, s.ring.write, s.ring.count, |s.ring.slots|);
      && (!wraps && !e.Disabled? ==> e.To? && Counting(e.sys))
      && (wraps ==> e.Undefined? || !InOrder(e.sys))
  {
    PutKeepsOrder(s.ring, job, s.accepted, |s.taken|);
    if !Put(AsWritten, s.ring, job).Refused? {
      WrittenPutExact(s.ring, job, s.accepted, |s.taken|);
    }
    assert (s.accepted + [job])[..|s.taken|] == s.accepted[..|s.taken|];
  }

  lemma WrittenLockExact<J>(s: Sys<J>, i: nat)
    requires Counting(s)
    ensures var e := Apply(AsWritten, s, Lock(i)); !e.Disabled? ==> e.To? && Counting(e.sys)
  {
    TakeKeepsOrder(s.ring, s.accepted, |s.taken|);
    if s.ring.count > 0 {
      if !Take(AsWritten, s.ring).Refused? { WrittenTakeExact(s.ring, s.accepted, |s.taken|); }
      TakenGrows(s.accepted, |s.taken|);
    }
  }

  lemma WrittenStepExact<J>(s: Sys<J>, step: Step<J>)
    requires Counting(s)
    ensures var e := Apply(AsWritten, s, step);
      var wraps := step.Offer? && !e.Disabled? && !Put(AsWritten, s.ring, step.job).Refused?
                   && WriteWraps(s.ring.read, s.ring.write, s.ring.count, |s.ring.slots|);
      && (!wraps && !e.Disabled? ==> e.To? && Counting(e.sys))
      && (wraps ==> e.Undefined? || !InOrder(e.sys))
  {
    hide Put, Take, WriteWraps;
    match step
    case Offer(job, woken) => WrittenOfferExact(s, job, woken);
    case Lock(i) => WrittenLockExact(s, i);
    case _ =>
  }

  lemma {:induction false} WrittenRunExact<J>(s: Sys<J>, steps: seq<Step<J>>)
    requires Counting(s)
    ensures StaysInOrder(s, steps) <==> NeverWraps(s, steps)
    ensures StaysInOrder(s, steps) && Exec(AsWritten, s, steps).To? ==>
      |Exec(AsWritten, s, steps).sys.accepted| <= |s.ring.slots|
    decreases |steps|
  {
    if steps != [] {
      WrittenStepExact(s, steps[0]);
      var e := Apply(AsWritten, s, steps[0]);
      if e.To? && Counting(e.sys) {
        WrittenRunExact(e.sys, steps[1..]);
      }
    }
  }

  /** For every run of the code: it keeps the jobs in order exactly when its
      write index never wraps, and then it accepts at most `size` jobs ever. */
  lemma WrittenCodeKeepsOrderIff<J>(size: nat, workers: nat, steps: seq<Step<J>>)
    requires size > 0
    ensures var b: Sys<J> := Boot(size, workers); StaysInOrder(b, steps) <==> NeverWraps(b, steps)
    ensures var b: Sys<J> := Boot(size, workers);
      StaysInOrder(b, steps) && Exec(AsWritten, b, steps).To? ==> |Exec(AsWritten, b, steps).sys.accepted| <= size
  {
    StartGood<J>(size);
    WrittenRunExact<J>(Boot(size, workers), steps);
  }

  lemma {:induction false} OneMore<J>(mode: Mode, s: Sys<J>, steps: seq<Step<J>>, step: Step<J>)
    requires Exec(mode, s, steps).To?
    ensures Exec(mode, s, steps + [step]) == Apply(mode, Exec(mode, s, steps).sys, step)
    decreases |steps|
  {
    if steps == [] {
      assert steps + [step] == [step];
    } else {
      assert (steps + [step])[1..] == steps[1..] + [step];
      OneMore(mode, Apply(mode, s, steps[0]).sys, steps[1..], step);
    }
  }

  lemma {:induction false} ExecThen<J>(mode: Mode, s: Sys<J>, a: seq<Step<J>>, b: seq<Step<J>>)
    requires Exec(mode, s, a).To?
    ensures Exec(mode, s, a + b) == Exec(mode, Exec(mode, s, a).sys, b)
    decreases |a|
  {
    if a == [] {
      assert a + b == b;
    } else {
      assert (a + b)[1..] == a[1..] + b;
      ExecThen(mode, Apply(mode, s, a[0]).sys, a[1..], b);
    }
  }

  /** The state of a pool with two slots and one worker. */
  function Duo(a: Option<int>, b: Option<int>, r: nat, w: nat, c: nat, worker: Worker,
               accepted: seq<int>, taken: seq<Option<int>>): Sys<int> {
    Sys(Ring([a, b], r, w, c), [worker], accepted, taken)
  }

  lemma WrittenCodeFirstJob()
    ensures Exec(AsWritten, Boot(2, 1), [Offer(1, None), Lock(0)])
         == To(Duo(Some(1), None, 1, 1, 0, Working(0, 0), [1], [Some(1)]))
  {
    var s: Sys<int> := Boot(2, 1);
    assert s == Duo(None, None, 0, 0, 0, Ready, [], []);
    OneMore(AsWritten, s, [], Offer(1, None));
    assert Exec(AsWritten, s, [Offer(1, None)]) == To(Duo(Some(1), None, 0, 1, 1, Ready, [1], []));
    OneMore(AsWritten, s, [Offer(1, None)], Lock(0));
  }

  lemma WrittenCodeOffersTheSecond()
    ensures Exec(AsWritten, Duo(Some(1), None, 1, 1, 0, Working(0, 0), [1], [Some(1)]), [Finish(0), Offer(2, None)])
         == To(Duo(Some(1), Some(2), 1, 1, 1, Ready, [1, 2], [Some(1)]))
  {
    var s := Duo(Some(1), None, 1, 1, 0, Working(0, 0), [1], [Some(1)]);
    OneMore(AsWritten, s, [], Finish(0));
    OneMore(AsWritten, s, [Finish(0)], Offer(2, None));
  }

  lemma WrittenCodeFirstJobs()
    ensures Exec(AsWritten, Boot(2, 1), [Offer(1, None), Lock(0), Finish(0), Offer(2, None)])
         == To(Duo(Some(1), Some(2), 1, 1, 1, Ready, [1, 2], [Some(1)]))
  {
    WrittenCodeFirstJob();
    WrittenCodeOffersTheSecond();
    hide Exec, Duo, Boot;
    var two: seq<Step<int>> := [Offer(1, None), Lock(0)];
    ExecThen(AsWritten, Boot(2, 1), two, [Finish(0), Offer(2, None)]);
    assert two + [Finish(0), Offer(2, None)] == [Offer(1, None), Lock(0), Finish(0), Offer(2, None)];
  }

  lemma WrittenCodeTakesTheSecond()
    ensures Exec(AsWritten, Duo(Some(1), Some(2), 1, 1, 1, Ready, [1, 2], [Some(1)]), [Lock(0), Finish(0)])
         == To(Duo(Some(1), Some(2), 0, 1, 0, Ready, [1, 2], [Some(1), Some(2)]))
  {
    var s := Duo(Some(1), Some(2), 1, 1, 1, Ready, [1, 2], [Some(1)]);
    OneMore(AsWritten, s, [], Lock(0));
    OneMore(AsWritten, s, [Lock(0)], Finish(0));
  }

  lemma WrittenCodeSkipsTheThird()
    ensures var e := Exec(AsWritten, Duo(Some(1), Some(2), 0, 1, 0, Ready, [1, 2], [Some(1), Some(2)]),
                          [Offer(3, None), Lock(0)]);
      e.To? && e.sys.accepted == [1, 2, 3] && e.sys.taken == [Some(1), Some(2), Some(1)] && e.sys.ring.count == 0
  {
    var s := Duo(Some(1), Some(2), 0, 1, 0, Ready, [1, 2], [Some(1), Some(2)]);
    OneMore(AsWritten, s, [], Offer(3, None));
    OneMore(AsWritten, s, [Offer(3, None)], Lock(0));
  }

  /** Two slots, one worker, three jobs: the code hands out the first job twice
      and the third one never. */
  lemma WrittenCodeLosesAJob()
    ensures var steps := [Offer(1, None), Lock(0), Finish(0), Offer(2, None),
                          Lock(0), Finish(0), Offer(3, None), Lock(0)];
      var e := Exec(AsWritten, Boot(2, 1), steps);
      e.To? && e.sys.accepted == [1, 2, 3] && e.sys.taken == [Some(1), Some(2), Some(1)] && e.sys.ring.count == 0
  {
    var s: Sys<int> := Boot(2, 1);
    var four: seq<Step<int>> := [Offer(1, None), Lock(0), Finish(0), Offer(2, None)];
    WrittenCodeFirstJobs();
    WrittenCodeTakesTheSecond();
    WrittenCodeSkipsTheThird();
    hide Exec, Duo;
    ExecThen(AsWritten, s, four, [Lock(0), Finish(0)]);
    ExecThen(AsWritten, s, four + [Lock(0), Finish(0)], [Offer(3, None), Lock(0)]);
    assert four + [Lock(0), Finish(0)] + [Offer(3, None), Lock(0)]
        == [Offer(1, None), Lock(0), Finish(0), Offer(2, None), Lock(0), Finish(0), Offer(3, None), Lock(0)];
  }
}
