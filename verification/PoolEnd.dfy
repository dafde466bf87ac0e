/** When the pool stops for good: both indices at the end mark. */
module PoolEnd {
  import opened Options
  import opened Ring
  import opened Pool

  function PutAll<J>(mode: Mode, q: Ring<J>, jobs: seq<J>): Option<Ring<J>>
    decreases |jobs|
  {
    if jobs == [] then Some(q)
    else
      match Put(mode, q, jobs[0])
      case Done(q', _) => PutAll(mode, q', jobs[1..])
      case _ => None
  }

  function TakeAll<J>(mode: Mode, q: Ring<J>, m: nat): Option<Ring<J>>
    decreases m
  {
    if m == 0 then Some(q)
    else
      match Take(mode, q)
      case Done(q', _) => TakeAll(mode, q', m - 1)
      case _ => None
  }

  lemma {:induction false} Fill<J>(mode: Mode, q: Ring<J>, jobs: seq<J>)
    requires q.read == 0 && q.count == q.write && q.write + |jobs| == |q.slots| && |q.slots| > 0
    ensures PutAll(mode, q, jobs).Some?
    ensures var f := PutAll(mode, q, jobs).value;
      f.read == 0 && f.write == f.count == |q.slots| == |f.slots|
    decreases |jobs|
  {
    if jobs != [] {
      Fill(mode, Put(mode, q, jobs[0]).ring, jobs[1..]);
    }
  }

  lemma {:induction false} Drain<J>(mode: Mode, q: Ring<J>)
    requires q.write == |q.slots| == q.read + q.count
    ensures TakeAll(mode, q, q.count).Some?
    ensures Dead(TakeAll(mode, q, q.count).value) && TakeAll(mode, q, q.count).value.count == 0
    decreases q.count
  {
    if q.count > 0 {
      Drain(mode, Take(mode, q).ring);
    }
  }

  /** By the code and by the tables alike: as many stores as there are slots,
      then as many takes, leave the ring empty with both indices at the end
      mark; there every store and every take is refused, so it stays so. */
  lemma FillAndDrainStopsThePool<J>(mode: Mode, jobs: seq<J>, job: J)
    requires jobs != []
    ensures PutAll(mode, Start(|jobs|), jobs).Some?
    ensures var full := PutAll(mode, Start(|jobs|), jobs).value;
      TakeAll(mode, full, |jobs|).Some? &&
      var q := TakeAll(mode, full, |jobs|).value;
      Dead(q) && q.count == 0 && Put(mode, q, job).Refused? && Take(mode, q).Refused?
  {
    Fill(mode, Start(|jobs|), jobs);
    Drain(mode, PutAll(mode, Start(|jobs|), jobs).value);
  }

  /** A dead ring refuses everything, whatever its count. */
  lemma {:induction false} DeadStaysDead<J>(mode: Mode, s: Sys<J>, steps: seq<Step<J>>)
    requires Dead(s.ring)
    ensures Exec(mode, s, steps).To? ==> Exec(mode, s, steps).sys.ring == s.ring
    decreases |steps|
  {
    if steps != [] && Apply(mode, s, steps[0]).To? {
      DeadStaysDead(mode, Apply(mode, s, steps[0]).sys, steps[1..]);
    }
  }

  // ------------------------------------------------- exactly which runs stop

  /** A store leads into the dead state exactly when it moves the write index
      onto the end mark while the read index stands there, full or not. */
  lemma PutEndsIff<J>(mode: Mode, q: Ring<J>, job: J)
    requires q.read <= |q.slots| && q.write <= |q.slots| && Put(mode, q, job).Done?
    ensures var n, q' := |q.slots|, Put(mode, q, job).ring;
      && q'.read == q.read && q'.write <= n && |q'.slots| == n
      && (Dead(q') <==> q.read == n && q.write + 1 == n)
  {
  }

  /** The same for a take. */
  lemma TakeEndsIff<J>(mode: Mode, q: Ring<J>)
    requires q.read <= |q.slots| && q.write <= |q.slots| && Take(mode, q).Done?
    ensures var n, q' := |q.slots|, Take(mode, q).ring;
      && q'.write == q.write && q'.read <= n && |q'.slots| == n
      && (Dead(q') <==> q.write == n && q.read + 1 == n)
  {
  }

  /** One index stands at the end mark, and the step moves the other one there. */
  predicate Meets<J>(mode: Mode, s: Sys<J>, step: Step<J>) {
    var q := s.ring;
    var n := |q.slots|;
    && Apply(mode, s, step).To?
    && match step
       case Offer(job, _) => Put(mode, q, job).Done? && q.read == n && q.write + 1 == n
       case Lock(_) => q.count > 0 && Take(mode, q).Done? && q.write == n && q.read + 1 == n
       case _ => false
  }

  predicate MeetsOnTheWay<J>(mode: Mode, s: Sys<J>, steps: seq<Step<J>>)
    decreases |steps|
  {
    steps != [] &&
    (Meets(mode, s, steps[0])
     || (Apply(mode, s, steps[0]).To? && MeetsOnTheWay(mode, Apply(mode, s, steps[0]).sys, steps[1..])))
  }

  lemma StepEndsIff<J>(mode: Mode, s: Sys<J>, step: Step<J>)
    requires s.ring.read <= |s.ring.slots| && s.ring.write <= |s.ring.slots| && Apply(mode, s, step).To?
    ensures var n, q := |s.ring.slots|, Apply(mode, s, step).sys.ring;
      && q.read <= n && q.write <= n && |q.slots| == n
      && (Dead(q) <==> Dead(s.ring) || Meets(mode, s, step))
  {
    hide Put, Take;
    match step
    case Offer(job, _) =>
      DeadRefuses(mode, s.ring, job);
      if Put(mode, s.ring, job).Done? { PutEndsIff(mode, s.ring, job); }
    case Lock(_) =>
      if s.ring.count > 0 {
        if Take(mode, s.ring).Done? { TakeEndsIff(mode, s.ring); }
        DeadTakesNone(mode, s.ring);
      }
    case _ =>
  }

  lemma DeadRefuses<J>(mode: Mode, q: Ring<J>, job: J)
    ensures Dead(q) ==> Put(mode, q, job).Refused?
  {
  }

  lemma DeadTakesNone<J>(mode: Mode, q: Ring<J>)
    ensures Dead(q) ==> Take(mode, q).Refused?
  {
  }

  /** For every run, by the code and by the tables alike: the pool has stopped
      exactly when some step moved an index onto the end mark while the other
      one stood there. */
  lemma {:induction false} StoppedIff<J>(mode: Mode, s: Sys<J>, steps: seq<Step<J>>)
    requires s.ring.read <= |s.ring.slots| && s.ring.write <= |s.ring.slots| && Exec(mode, s, steps).To?
    ensures Dead(Exec(mode, s, steps).sys.ring) <==> Dead(s.ring) || MeetsOnTheWay(mode, s, steps)
    decreases |steps|
  {
    hide Dead, Apply, Meets;
    if steps != [] {
      StepEndsIff(mode, s, steps[0]);
      StoppedIff(mode, Apply(mode, s, steps[0]).sys, steps[1..]);
    }
  }

  // ------------------------------------------- the same, by counting the jobs

  /** Jobs accepted and jobs handed out in every state of a run. */
  function Visited<J>(s: Sys<J>, steps: seq<Step<J>>): (v: set<(nat, nat)>)
    ensures steps == [] ==> v == {(|s.accepted|, |s.taken|)}
    decreases |steps|
  {
    {(|s.accepted|, |s.taken|)} +
    if steps == [] then {}
    else
      match Apply(AsTabled, s, steps[0])
      case To(s') => Visited(s', steps[1..])
      case _ => {}
  }

  /** An index stands at the end mark exactly when it finished its lap in step
      with the other one: the last store of a lap filled the ring, or the last
      take of a lap emptied it. */
  ghost predicate Marks<J>(s: Sys<J>, v: set<(nat, nat)>) {
    var n, a, t := |s.ring.slots|, |s.accepted|, |s.taken|;
    && n > 0 && (a, t) in v && (forall x: nat, y: nat :: (x, y) in v ==> x <= a && y <= t)
    && (s.ring.read == n <==> t > 0 && t % n == 0 && (t, t) in v)
    && (s.ring.write == n <==> a >= n && a % n == 0 && (a, a - n) in v)
  }

  /** Multiples of n that are at most n apart. */
  lemma LapIff(x: nat, y: nat, n: nat)
    requires n > 0 && x <= y <= x + n
    ensures y % n == 0 ==> (x % n == 0 <==> y == x || y == x + n)
    ensures x % n == 0 ==> (y % n == 0 <==> y == x || y == x + n)
  {
    if x < y < x + n { ModApart(x, y, n); }
    if y == x + n { ModPlus(n, x, n); }
  }

  lemma PutMarks<J>(s: Sys<J>, v: set<(nat, nat)>, job: J, s': Sys<J>)
    requires InOrder(s) && Marks(s, v) && Put(AsTabled, s.ring, job).Done?
    requires s'.ring == Put(AsTabled, s.ring, job).ring && s'.accepted == s.accepted + [job] && s'.taken == s.taken
    ensures Marks(s', v + {(|s'.accepted|, |s'.taken|)})
  {
    var a, t := |s.accepted|, |s.taken|;
    PutKeepsOrder(s.ring, job, s.accepted, t);
    ModStep(a, |s.ring.slots|);
    LapIff(t, a + 1, |s.ring.slots|);
  }

  lemma TakeMarks<J>(s: Sys<J>, v: set<(nat, nat)>, s': Sys<J>)
    requires InOrder(s) && Marks(s, v) && Take(AsTabled, s.ring).Done?
    requires s'.ring == Take(AsTabled, s.ring).ring && s'.accepted == s.accepted && |s'.taken| == |s.taken| + 1
    ensures Marks(s', v + {(|s'.accepted|, |s'.taken|)})
  {
    var a, t := |s.accepted|, |s.taken|;
    TakeKeepsOrder(s.ring, s.accepted, t);
    ModStep(t, |s.ring.slots|);
    LapIff(t + 1, a, |s.ring.slots|);
  }

  lemma StepMarks<J>(s: Sys<J>, v: set<(nat, nat)>, step: Step<J>)
    requires InOrder(s) && Marks(s, v) && Apply(AsTabled, s, step).To?
    ensures var s' := Apply(AsTabled, s, step).sys; Marks(s', v + {(|s'.accepted|, |s'.taken|)})
  {
    hide Put, Take, InOrder, Marks;
    var s' := Apply(AsTabled, s, step).sys;
    match step
    case Offer(job, _) =>
      if Put(AsTabled, s.ring, job).Done? { PutMarks(s, v, job, s'); } else { SameMarks(s, v, s'); }
    case Lock(_) =>
      if s.ring.count > 0 && Take(AsTabled, s.ring).Done? { TakeMarks(s, v, s'); } else { SameMarks(s, v, s'); }
    case _ => SameMarks(s, v, s');
  }

  lemma SameMarks<J>(s: Sys<J>, v: set<(nat, nat)>, s': Sys<J>)
    requires Marks(s, v) && s'.ring == s.ring && s'.accepted == s.accepted && s'.taken == s.taken
    ensures Marks(s', v + {(|s'.accepted|, |s'.taken|)})
  {
    assert v + {(|s'.accepted|, |s'.taken|)} == v;
  }

  lemma {:induction false} RunMarks<J>(s: Sys<J>, v: set<(nat, nat)>, steps: seq<Step<J>>)
    requires InOrder(s) && HeldStructs(s) && Marks(s, v) && Exec(AsTabled, s, steps).To?
    ensures Marks(Exec(AsTabled, s, steps).sys, v + Visited(s, steps))
    decreases |steps|
  {
    hide InOrder, HeldStructs, Marks, Apply;
    if steps == [] {
      SameMarks(s, v, s);
    } else {
      var s' := Apply(AsTabled, s, steps[0]).sys;
      var here, next := (|s.accepted|, |s.taken|), (|s'.accepted|, |s'.taken|);
      StepKeepsOrder(s, steps[0]);
      StepMarks(s, v, steps[0]);
      RunMarks(s', v + {next}, steps[1..]);
      HereIsVisited(s, v);
      assert next in Visited(s', steps[1..]);
      assert v + {next} + Visited(s', steps[1..]) == v + Visited(s, steps);
    }
  }

  lemma HereIsVisited<J>(s: Sys<J>, v: set<(nat, nat)>)
    requires Marks(s, v)
    ensures (|s.accepted|, |s.taken|) in v
  {
  }

  /** In every run by the documented tables the pool has stopped exactly when,
      with a whole number of laps handed out, the ring was drained from full to
      empty without a store in between, or filled from empty to full without a
      take in between; the first filling does not count. */
  lemma StoppedAtALapIff<J>(size: nat, workers: nat, steps: seq<Step<J>>)
    requires size > 0 && Exec<J>(AsTabled, Boot(size, workers), steps).To?
    ensures var b: Sys<J> := Boot(size, workers);
      var e, v := Exec(AsTabled, b, steps).sys, Visited(b, steps);
      var a, t := |e.accepted|, |e.taken|;
      Dead(e.ring) <==> t > 0 && t % size == 0 && ((a == t && (t, t - size) in v) || (a == t + size && (t, t) in v))
  {
    var b: Sys<J> := Boot(size, workers);
    StartGood<J>(size);
    RunKeepsOrder(b, steps);
    RunMarks(b, {(0, 0)}, steps);
    var e := Exec(AsTabled, b, steps).sys;
    assert {(0, 0)} + Visited(b, steps) == Visited(b, steps);
    LapIff(|e.taken|, |e.accepted|, size);
  }

  lemma {:induction false} CountsToTheEnd<J>(s: Sys<J>, steps: seq<Step<J>>)
    requires Counting(s) && NeverWraps(s, steps) && Exec(AsWritten, s, steps).To?
    ensures var e := Exec(AsWritten, s, steps).sys; Counting(e) && |e.ring.slots| == |s.ring.slots|
    decreases |steps|
  {
    hide Counting;
    if steps != [] {
      WrittenStepExact(s, steps[0]);
      SlotsStay(s, steps[0]);
      CountsToTheEnd(Apply(AsWritten, s, steps[0]).sys, steps[1..]);
    }
  }

  lemma SlotsStay<J>(s: Sys<J>, step: Step<J>)
    requires Apply(AsWritten, s, step).To?
    ensures |Apply(AsWritten, s, step).sys.ring.slots| == |s.ring.slots|
  {
  }

  /** A run of the code whose write index never wraps has stopped exactly when
      it accepted and handed out as many jobs as there are slots. */
  lemma WrittenStoppedIff<J>(size: nat, workers: nat, steps: seq<Step<J>>)
    requires size > 0 && NeverWraps<J>(Boot(size, workers), steps)
    requires Exec<J>(AsWritten, Boot(size, workers), steps).To?
    ensures var e := Exec<J>(AsWritten, Boot(size, workers), steps).sys;
      Dead(e.ring) <==> |e.accepted| == size && |e.taken| == size
  {
    StartGood<J>(size);
    CountsToTheEnd<J>(Boot(size, workers), steps);
  }

  /** Two jobs, one by one. */
  function OneByOne(): seq<Step<int>> {
    [Offer(1, None), Lock(0), Finish(0)] + [Offer(2, None), Lock(0), Finish(0)]
  }

  lemma FirstJob()
    ensures Exec(AsTabled, Boot(2, 1), [Offer(1, None), Lock(0), Finish(0)])
         == To(Duo(Some(1), None, 1, 1, 0, Ready, [1], [Some(1)]))
  {
    var s: Sys<int> := Boot(2, 1);
    assert s == Duo(None, None, 0, 0, 0, Ready, [], []);
    OneMore(AsTabled, s, [], Offer(1, None));
    OneMore(AsTabled, s, [Offer(1, None)], Lock(0));
    OneMore(AsTabled, s, [Offer(1, None), Lock(0)], Finish(0));
  }

  lemma SecondJob()
    ensures Exec(AsTabled, Duo(Some(1), None, 1, 1, 0, Ready, [1], [Some(1)]), [Offer(2, None), Lock(0), Finish(0)])
         == To(Duo(Some(1), Some(2), 2, 0, 0, Ready, [1, 2], [Some(1), Some(2)]))
  {
    var s := Duo(Some(1), None, 1, 1, 0, Ready, [1], [Some(1)]);
    OneMore(AsTabled, s, [], Offer(2, None));
    OneMore(AsTabled, s, [Offer(2, None)], Lock(0));
    OneMore(AsTabled, s, [Offer(2, None), Lock(0)], Finish(0));
  }

  lemma LastTwoJobs()
    ensures Exec(AsTabled, Duo(Some(1), Some(2), 2, 0, 0, Ready, [1, 2], [Some(1), Some(2)]),
                 [Offer(3, None), Offer(4, None)])
         == To(Duo(Some(3), Some(4), 2, 2, 2, Ready, [1, 2, 3, 4], [Some(1), Some(2)]))
  {
    var s := Duo(Some(1), Some(2), 2, 0, 0, Ready, [1, 2], [Some(1), Some(2)]);
    OneMore(AsTabled, s, [], Offer(3, None));
    OneMore(AsTabled, s, [Offer(3, None)], Offer(4, None));
  }

  /** Two slots, one worker: two jobs one by one, then two at once.  The ring is
      full and stopped, and the last two jobs are never handed out. */
  lemma TabledPoolStopsFull(more: seq<Step<int>>)
    ensures var s := Duo(Some(3), Some(4), 2, 2, 2, Ready, [1, 2, 3, 4], [Some(1), Some(2)]);
      && Exec(AsTabled, Boot(2, 1), OneByOne() + [Offer(3, None), Offer(4, None)]) == To(s) && Dead(s.ring)
      && (Exec(AsTabled, s, more).To? ==> Exec(AsTabled, s, more).sys.ring == s.ring)
  {
    var s: Sys<int> := Boot(2, 1);
    FirstJob();
    SecondJob();
    LastTwoJobs();
    hide Exec;
    ExecThen(AsTabled, s, [Offer(1, None), Lock(0), Finish(0)], [Offer(2, None), Lock(0), Finish(0)]);
    ExecThen(AsTabled, s, OneByOne(), [Offer(3, None), Offer(4, None)]);
    DeadStaysDead(AsTabled, Duo(Some(3), Some(4), 2, 2, 2, Ready, [1, 2, 3, 4], [Some(1), Some(2)]), more);
  }
}
