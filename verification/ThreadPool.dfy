/** The HTTP library's thread pool: one lock, one condition variable, workers that drain the queue
    before they leave. Jobs are numbered in the order in which they were enqueued. */
module ThreadPools {
  datatype Status =
    | Checking            // about to take the lock and look
    | Waiting             // asleep on the condition variable
    | Running(job: nat)
    | Exited

  datatype State = State(
    jobs: seq<nat>,
    shutdown: bool,
    workers: seq<Status>,
    notifyOne: nat,       // calls of `notify_one` still to come
    notifyAll: bool,      // whether the `notify_all` of a shutdown is still to come
    enqueued: nat,
    taken: seq<nat>,      // in the order in which they left the queue
    finished: multiset<nat>,
    atShutdown: nat,      // jobs enqueued when `shutdown` was first set
    atExit: nat)          // jobs enqueued when a worker last left

  function Initial(n: nat): (s: State)
  {
    State([], false, seq(n, _ => Checking), 0, false, 0, [], multiset{}, 0, 0)
  }

  datatype Event =
    | Enqueue
    | NotifyOne(w: nat)   // wakes worker `w`, if any waits at all
    | Shutdown
    | NotifyAll
    | Spurious(w: nat)
    | Look(w: nat)        // the critical section of the worker loop
    | Finish(w: nat)

  predicate Enabled(s: State, e: Event)
  {
    match e
    case Enqueue => true
    case NotifyOne(w) =>
      s.notifyOne > 0 && ((w < |s.workers| && s.workers[w].Waiting?) || Waiting !in s.workers)
    case Shutdown => true
    case NotifyAll => s.notifyAll
    case Spurious(w) => w < |s.workers| && s.workers[w].Waiting?
    case Look(w) => w < |s.workers| && s.workers[w].Checking?
    case Finish(w) => w < |s.workers| && s.workers[w].Running?
  }

  function Woken(workers: seq<Status>): (r: seq<Status>)
    ensures |r| == |workers| && Waiting !in r
    ensures forall i :: 0 <= i < |r| ==> (r[i].Exited? <==> workers[i].Exited?)
  {
    seq(|workers|, i requires 0 <= i < |workers| => if workers[i].Waiting? then Checking else workers[i])
  }

  function Next(s: State, e: Event): (t: State)
    requires Enabled(s, e)
  {
    match e
    case Enqueue =>
      s.(jobs := s.jobs + [s.enqueued], enqueued := s.enqueued + 1, notifyOne := s.notifyOne + 1)
    case NotifyOne(w) =>
      s.(notifyOne := s.notifyOne - 1,
         workers := if Waiting in s.workers then s.workers[w := Checking] else s.workers)
    case Shutdown =>
      s.(shutdown := true, notifyAll := true, atShutdown := if s.shutdown then s.atShutdown else s.enqueued)
    case NotifyAll => s.(notifyAll := false, workers := Woken(s.workers))
    case Spurious(w) => s.(workers := s.workers[w := Checking])
    case Look(w) =>
      if s.jobs != [] then
        s.(jobs := s.jobs[1..], taken := s.taken + [s.jobs[0]], workers := s.workers[w := Running(s.jobs[0])])
      else if s.shutdown then s.(workers := s.workers[w := Exited], atExit := s.enqueued)
      else s.(workers := s.workers[w := Waiting])
    case Finish(w) =>
      s.(workers := s.workers[w := Checking], finished := s.finished + multiset{s.workers[w].job})
  }

  // ---------- Sums over the workers ----------

  function JobOf(w: Status): (r: multiset<nat>)
  {
    if w.Running? then multiset{w.job} else multiset{}
  }

  function RunningJobs(workers: seq<Status>): (r: multiset<nat>)
  {
    if workers == [] then multiset{} else JobOf(workers[0]) + RunningJobs(workers[1..])
  }

  lemma Regroup(a: multiset<nat>, b: multiset<nat>, c: multiset<nat>, d: multiset<nat>, e: multiset<nat>)
    requires b + c == d + e
    ensures (a + b) + c == (a + d) + e
  {
    assert (a + b) + c == a + (b + c);
  }

  lemma {:induction false} RunningUpdate(workers: seq<Status>, i: nat, w: Status)
    requires i < |workers|
    ensures RunningJobs(workers[i := w]) + JobOf(workers[i]) == RunningJobs(workers) + JobOf(w)
  {
    hide JobOf;
    if i == 0 {
      assert workers[0 := w][1..] == workers[1..];
    } else {
      var rest := workers[1..];
      RunningUpdate(rest, i - 1, w);
      assert workers[i := w][1..] == rest[i - 1 := w];
      Regroup(JobOf(workers[0]), RunningJobs(rest[i - 1 := w]), JobOf(workers[i]), RunningJobs(rest), JobOf(w));
    }
  }

  lemma RunningIdle(workers: seq<Status>, i: nat, w: Status)
    requires i < |workers| && !workers[i].Running? && !w.Running?
    ensures RunningJobs(workers[i := w]) == RunningJobs(workers)
  {
    hide RunningJobs;
    RunningUpdate(workers, i, w);
    assert RunningJobs(workers[i := w]) + multiset{} == RunningJobs(workers[i := w]);
  }

  lemma RunningStarts(workers: seq<Status>, i: nat, j: nat)
    requires i < |workers| && !workers[i].Running?
    ensures RunningJobs(workers[i := Running(j)]) == RunningJobs(workers) + multiset{j}
  {
    hide RunningJobs;
    RunningUpdate(workers, i, Running(j));
    var q := RunningJobs(workers[i := Running(j)]);
    assert q + multiset{} == q;
  }

  lemma RunningEnds(workers: seq<Status>, i: nat)
    requires i < |workers| && workers[i].Running?
    ensures RunningJobs(workers) == RunningJobs(workers[i := Checking]) + multiset{workers[i].job}
  {
    hide RunningJobs;
    RunningUpdate(workers, i, Checking);
    assert RunningJobs(workers) + multiset{} == RunningJobs(workers);
  }

  lemma {:induction false} RunningNone(workers: seq<Status>)
    requires forall i :: 0 <= i < |workers| ==> !workers[i].Running?
    ensures RunningJobs(workers) == multiset{}
  {
    if workers != [] { RunningNone(workers[1..]); }
  }

  lemma {:induction false} RunningWoken(workers: seq<Status>)
    ensures RunningJobs(Woken(workers)) == RunningJobs(workers)
  {
    if workers != [] {
      RunningWoken(workers[1..]);
      assert Woken(workers)[1..] == Woken(workers[1..]);
    }
  }

  /** What is left to do for a worker: run and look, wake up and look, look. */
  function WeightOf(w: Status): (n: nat)
  {
    match w
    case Exited => 0
    case Checking => 1
    case _ => 2
  }

  function Weight(workers: seq<Status>): (n: nat)
  {
    if workers == [] then 0 else WeightOf(workers[0]) + Weight(workers[1..])
  }

  lemma {:induction false} WeightUpdate(workers: seq<Status>, i: nat, w: Status)
    requires i < |workers|
    ensures Weight(workers[i := w]) + WeightOf(workers[i]) == Weight(workers) + WeightOf(w)
  {
    hide WeightOf;
    if i == 0 {
      assert workers[0 := w][1..] == workers[1..];
    } else {
      WeightUpdate(workers[1..], i - 1, w);
      assert workers[i := w][1..] == workers[1..][i - 1 := w];
    }
  }

  lemma {:induction false} WeightWoken(workers: seq<Status>)
    ensures Weight(Woken(workers)) <= Weight(workers)
  {
    if workers != [] {
      WeightWoken(workers[1..]);
      assert Woken(workers)[1..] == Woken(workers[1..]);
    }
  }

  // ---------- The invariant ----------

  function Numbers(n: nat): (r: seq<nat>)
  {
    seq(n, i => i)
  }

  predicate AllExited(s: State)
  {
    forall i :: 0 <= i < |s.workers| ==> s.workers[i].Exited?
  }

  predicate Awake(w: Status)
  {
    w.Checking? || w.Running?
  }

  /** First in, first out. */
  ghost predicate OrderInv(s: State)
  {
    s.taken + s.jobs == Numbers(s.enqueued)
  }

  /** What was taken is running on one worker or has finished once. */
  ghost predicate OnceInv(s: State)
  {
    multiset(s.taken) == s.finished + RunningJobs(s.workers)
  }

  ghost predicate QueueInv(s: State)
  {
    OrderInv(s) && OnceInv(s)
  }

  /** Workers leave only after a shutdown and with the queue empty. */
  ghost predicate ExitInv(s: State)
  {
    && s.atExit <= |s.taken| && s.atShutdown <= s.enqueued
    && (Exited in s.workers ==> s.shutdown && s.atShutdown <= s.atExit)
    && (s.workers != [] && AllExited(s) ==> |s.taken| == s.atExit)
  }

  /** No wake-up is lost: while there is work, or a shutdown to be noticed, nobody sleeps unless someone
      is awake to do it or a notification is on its way. */
  ghost predicate WakeInv(s: State)
  {
    && (s.jobs != [] ==> s.notifyOne > 0 || AllExited(s) || exists i :: 0 <= i < |s.workers| && Awake(s.workers[i]))
    && (s.shutdown ==> s.notifyAll || Waiting !in s.workers)
  }

  ghost predicate Inv(s: State)
  {
    QueueInv(s) && ExitInv(s) && WakeInv(s)
  }

  lemma InitialInv(n: nat)
    ensures Inv(Initial(n))
  {
    var s := Initial(n);
    RunningNone(s.workers);
    assert s.taken + s.jobs == Numbers(0);
  }

  lemma StepKeepsOrder(s: State, e: Event)
    requires OrderInv(s) && Enabled(s, e)
    ensures OrderInv(Next(s, e))
  {
    if e.Enqueue? {
      assert s.taken + (s.jobs + [s.enqueued]) == (s.taken + s.jobs) + [s.enqueued];
      assert Numbers(s.enqueued + 1) == Numbers(s.enqueued) + [s.enqueued];
    } else if e.Look? && s.jobs != [] {
      assert (s.taken + [s.jobs[0]]) + s.jobs[1..] == s.taken + s.jobs;
    }
  }

  lemma TakenGrows(taken: seq<nat>, j: nat, finished: multiset<nat>, running: multiset<nat>)
    requires multiset(taken) == finished + running
    ensures multiset(taken + [j]) == finished + (running + multiset{j})
  {
    assert multiset(taken + [j]) == multiset(taken) + multiset{j};
  }

  lemma FinishedGrows(finished: multiset<nat>, running: multiset<nat>, j: multiset<nat>)
    ensures finished + (running + j) == (finished + j) + running
  {
  }

  lemma StepKeepsOnce(s: State, e: Event)
    requires OnceInv(s) && Enabled(s, e)
    ensures OnceInv(Next(s, e))
  {
    hide RunningJobs;
    match e
    case NotifyOne(w) =>
      if Waiting in s.workers { RunningIdle(s.workers, w, Checking); }
    case NotifyAll => RunningWoken(s.workers);
    case Spurious(w) => RunningIdle(s.workers, w, Checking);
    case Look(w) =>
      if s.jobs != [] {
        RunningStarts(s.workers, w, s.jobs[0]);
        TakenGrows(s.taken, s.jobs[0], s.finished, RunningJobs(s.workers));
      } else {
        RunningIdle(s.workers, w, Next(s, e).workers[w]);
      }
    case Finish(w) =>
      RunningEnds(s.workers, w);
      FinishedGrows(s.finished, RunningJobs(Next(s, e).workers), multiset{s.workers[w].job});
    case _ =>
  }

  lemma StepKeepsExit(s: State, e: Event)
    requires QueueInv(s) && ExitInv(s) && Enabled(s, e)
    ensures ExitInv(Next(s, e))
  {
    hide RunningJobs;
    var t := Next(s, e);
    assert |s.taken + s.jobs| == s.enqueued;
    match e
    case Enqueue => assert t.workers == s.workers;
    case NotifyOne(w) => if Waiting in s.workers { assert t.workers[w] == Checking; }
    case Shutdown => assert t.workers == s.workers;
    case NotifyAll => if AllExited(t) { assert forall i :: 0 <= i < |s.workers| ==> t.workers[i].Exited?; }
    case Spurious(w) => assert t.workers[w] == Checking;
    case Look(w) => assert t.workers[w] != Checking;
    case Finish(w) => assert t.workers[w] == Checking;
  }

  lemma StepKeepsWake(s: State, e: Event)
    requires WakeInv(s) && Enabled(s, e)
    ensures WakeInv(Next(s, e))
  {
    var t := Next(s, e);
    match e
    case Enqueue =>
    case NotifyOne(w) =>
      if Waiting in s.workers {
        assert Awake(t.workers[w]);
      } else if s.jobs != [] {
        SomeoneAwake(s);
      }
    case Shutdown =>
    case NotifyAll =>
      if exists i :: 0 <= i < |s.workers| && Awake(s.workers[i]) {
        var i :| 0 <= i < |s.workers| && Awake(s.workers[i]);
        assert Awake(t.workers[i]);
      }
    case Spurious(w) => assert Awake(t.workers[w]);
    case Look(w) => assert s.jobs != [] ==> Awake(t.workers[w]);
    case Finish(w) => assert Awake(t.workers[w]);
  }

  /** If nobody waits then somebody is awake or everybody has left. */
  lemma SomeoneAwake(s: State)
    requires Waiting !in s.workers
    ensures AllExited(s) || exists i :: 0 <= i < |s.workers| && Awake(s.workers[i])
  {
    if !AllExited(s) {
      var i :| 0 <= i < |s.workers| && !s.workers[i].Exited?;
      assert s.workers[i] in s.workers;
      assert Awake(s.workers[i]);
    }
  }

  lemma StepKeepsInv(s: State, e: Event)
    requires Inv(s) && Enabled(s, e)
    ensures Inv(Next(s, e)) && |Next(s, e).workers| == |s.workers|
  {
    StepKeepsOrder(s, e);
    StepKeepsOnce(s, e);
    StepKeepsExit(s, e);
    StepKeepsWake(s, e);
    hide OrderInv, OnceInv, ExitInv, WakeInv;
  }

  // ---------- Whole runs ----------

  ghost predicate Reaches(before: State, run: seq<Event>, after: State)
    decreases |run|
  {
    if run == [] then after == before
    else Enabled(before, run[0]) && Reaches(Next(before, run[0]), run[1..], after)
  }

  lemma {:induction false} RunKeepsInv(before: State, run: seq<Event>, after: State)
    requires Inv(before) && Reaches(before, run, after)
    ensures Inv(after) && |after.workers| == |before.workers|
    decreases |run|
  {
    if run != [] {
      hide Inv, Next;
      StepKeepsInv(before, run[0]);
      RunKeepsInv(Next(before, run[0]), run[1..], after);
    }
  }

  /** At every moment: jobs leave in the order in which they came, and none runs twice. */
  lemma FirstInFirstOutOnce(n: nat, run: seq<Event>, s: State)
    requires Reaches(Initial(n), run, s)
    ensures s.taken == Numbers(|s.taken|) && s.taken + s.jobs == Numbers(s.enqueued)
    ensures forall j: nat :: s.finished[j] + RunningJobs(s.workers)[j] == if j < |s.taken| then 1 else 0
  {
    InitialInv(n);
    RunKeepsInv(Initial(n), run, s);
    var k := |s.taken|;
    assert s.taken == (s.taken + s.jobs)[..k] == Numbers(s.enqueued)[..k] == Numbers(k);
    forall j: nat ensures s.finished[j] + RunningJobs(s.workers)[j] == if j < k then 1 else 0 {
      NumbersOnce(k, j);
      assert multiset(s.taken)[j] == (s.finished + RunningJobs(s.workers))[j];
    }
  }

  lemma {:induction false} NumbersOnce(n: nat, j: nat)
    ensures multiset(Numbers(n))[j] == if j < n then 1 else 0
  {
    if n == 0 {
      assert Numbers(0) == [];
    } else {
      NumbersOnce(n - 1, j);
      assert Numbers(n) == Numbers(n - 1) + [n - 1];
    }
  }

  /** Once all of at least one worker have left, the jobs enqueued before the last one left - all those
      enqueued before the shutdown among them - have finished exactly once and the others never ran. */
  lemma Drained(n: nat, run: seq<Event>, s: State)
    requires n > 0 && Reaches(Initial(n), run, s) && AllExited(s)
    ensures s.atShutdown <= s.atExit <= s.enqueued
    ensures forall j: nat :: s.finished[j] == if j < s.atExit then 1 else 0
    ensures s.jobs == Numbers(s.enqueued)[s.atExit..]
    ensures s.jobs == [] <==> s.enqueued == s.atExit
  {
    FirstInFirstOutOnce(n, run, s);
    InitialInv(n);
    RunKeepsInv(Initial(n), run, s);
    RunningNone(s.workers);
    assert s.workers[0] == Exited;
    assert s.jobs == (s.taken + s.jobs)[|s.taken|..];
  }

  // ---------- Progress ----------

  /** While jobs are queued and a worker is left, something other than an arrival can happen. */
  lemma NoLostWakeUp(n: nat, run: seq<Event>, s: State)
    requires Reaches(Initial(n), run, s) && s.jobs != [] && !AllExited(s)
    ensures exists e: Event :: (e.NotifyOne? || e.Look? || e.Finish?) && Enabled(s, e)
  {
    InitialInv(n);
    RunKeepsInv(Initial(n), run, s);
    if exists i :: 0 <= i < |s.workers| && Awake(s.workers[i]) {
      var i: nat :| i < |s.workers| && Awake(s.workers[i]);
      assert Enabled(s, if s.workers[i].Checking? then Look(i) else Finish(i));
    } else if Waiting in s.workers {
      var i: nat :| i < |s.workers| && s.workers[i] == Waiting;
      assert Enabled(s, NotifyOne(i));
    }
  }

  predicate Arrival(e: Event)
  {
    e.Enqueue? || e.Shutdown?
  }

  function Measure(s: State): (n: nat)
  {
    2 * |s.jobs| + Weight(s.workers) + s.notifyOne + if s.notifyAll then 1 else 0
  }

  lemma MeasureDecreases(s: State, e: Event)
    requires Enabled(s, e) && s.shutdown && !Arrival(e)
    ensures Measure(Next(s, e)) < Measure(s) && Next(s, e).shutdown
  {
    match e
    case NotifyOne(w) => if Waiting in s.workers { WeightUpdate(s.workers, w, Checking); }
    case NotifyAll => WeightWoken(s.workers);
    case Spurious(w) => WeightUpdate(s.workers, w, Checking);
    case Look(w) => WeightUpdate(s.workers, w, Next(s, e).workers[w]);
    case Finish(w) => WeightUpdate(s.workers, w, Checking);
  }

  /** After a shutdown, with no more arrivals, only so many steps are possible ... */
  lemma {:induction false} DrainTerminates(before: State, run: seq<Event>, after: State)
    requires before.shutdown && Reaches(before, run, after)
    requires forall i :: 0 <= i < |run| ==> !Arrival(run[i])
    ensures |run| + Measure(after) <= Measure(before) && after.shutdown
    decreases |run|
  {
    if run != [] {
      hide Measure, Next;
      MeasureDecreases(before, run[0]);
      DrainTerminates(Next(before, run[0]), run[1..], after);
    }
  }

  /** ... and they end only when every worker has left, so that `shutdown` can join them all. */
  lemma StuckMeansDrained(n: nat, run: seq<Event>, s: State)
    requires Reaches(Initial(n), run, s) && s.shutdown
    requires forall e :: Enabled(s, e) ==> Arrival(e)
    ensures AllExited(s)
  {
    InitialInv(n);
    RunKeepsInv(Initial(n), run, s);
    assert !Enabled(s, NotifyAll);
    forall i: nat | i < |s.workers| ensures !Awake(s.workers[i]) {
      assert !Enabled(s, Look(i)) && !Enabled(s, Finish(i));
    }
    SomeoneAwake(s);
  }

  // ---------- The class ----------

  datatype Found<J> = Job(fn: J) | Sleep | Leave

  class ThreadPool<J> {
    var jobs: seq<J>
    var shutdown: bool
    ghost var state: State
    ghost var submitted: seq<J>   // what job number i was

    ghost predicate Valid()
      reads this
    {
      && shutdown == state.shutdown
      && |submitted| == state.enqueued
      && |jobs| == |state.jobs|
      && forall i :: 0 <= i < |jobs| ==> state.jobs[i] < |submitted| && jobs[i] == submitted[state.jobs[i]]
    }

    constructor (n: nat)
      ensures Valid() && state == Initial(n) && submitted == []
    {
      jobs, shutdown := [], false;
      state, submitted := Initial(n), [];
    }

    method Enqueue(fn: J)
      requires Valid()
      modifies this
      ensures Valid() && state == Next(old(state), Event.Enqueue) && submitted == old(submitted) + [fn]
    {
      jobs := jobs + [fn];
      submitted := submitted + [fn];
      state := Next(state, Event.Enqueue);
    }

    /** The locked part of `shutdown`; the notification and the joins come after it. */
    method SetShutdown()
      requires Valid()
      modifies this
      ensures Valid() && state == Next(old(state), Event.Shutdown) && submitted == old(submitted)
    {
      shutdown := true;
      state := Next(state, Event.Shutdown);
    }

    /** The locked part of the worker loop: the wait's condition, the test for leaving, the take. */
    method WorkerLook(ghost w: nat) returns (found: Found<J>)
      requires Valid() && Enabled(state, Look(w))
      modifies this
      ensures Valid() && state == Next(old(state), Look(w)) && submitted == old(submitted)
      ensures found.Job? <==> state.workers[w].Running?
      ensures found.Job? ==> state.workers[w].job < |submitted| && found.fn == submitted[state.workers[w].job]
      ensures found.Leave? <==> state.workers[w].Exited?
    {
      state := Next(state, Look(w));
      if !(jobs != [] || shutdown) { return Sleep; }
      if shutdown && jobs == [] { return Leave; }
      found := Job(jobs[0]);
      jobs := jobs[1..];
    }
  }
}
