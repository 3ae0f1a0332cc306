// The worker pool of the HTTP server, as steps of its threads.
//
// A step is what one thread does while it holds the mutex, or between two such times. A worker that waits on the
// condition variable tests its condition again whenever it is woken, also without a reason.
module WorkerPool {
  import opened Basics

  // ----- the critical sections -----------------------------------------------------------------------------

  /** What a worker finds when it has the mutex and tests its condition. */
  datatype Turn<+J> = Block | Leave | Start(job: J)

  function TurnOf<J>(jobs: seq<J>, shutdown: bool): Turn<J> {
    if jobs == [] && !shutdown then Block
    else if shutdown && jobs == [] then Leave
    else Start(jobs[0])
  }

  class ThreadPool<J(0)> {
    var jobs: seq<J>
    var shutdown: bool

    constructor ()
      ensures jobs == [] && !shutdown
    {
      jobs, shutdown := [], false;
    }

    /** The shared variables are as in a state of the protocol. */
    ghost predicate Shows(s: State<J>)
      reads this
    {
      jobs == s.jobs && shutdown == s.shutdown
    }

    method Enqueue(job: J, ghost s: State<J>, ghost woken: Option<nat>)
      requires Shows(s) && Enabled(s, Action.Enqueue(job, woken))
      modifies this`jobs
      ensures jobs == old(jobs) + [job] && Shows(Step(s, Action.Enqueue(job, woken)))
    {
      jobs := jobs + [job];
    }

    /** A worker's turn: wait, leave the loop, or take the first job. */
    method TakeTurn(ghost s: State<J>, ghost i: nat) returns (t: Turn<J>)
      requires Shows(s) && Enabled(s, Test(i))
      modifies this`jobs
      ensures t == TurnOf(old(jobs), shutdown) && Shows(Step(s, Test(i)))
      ensures Step(s, Test(i)).workers[i] == (match t case Block => Blocked case Leave => Exited case Start(_) =>
              Running(|s.started|))
    {
      if !(jobs != [] || shutdown) { return Block; }
      if shutdown && jobs == [] { return Leave; }
      t := Start(jobs[0]);
      jobs := jobs[1..];
    }

    method SetShutdown(ghost s: State<J>)
      requires Shows(s) && Enabled(s, Action.SetShutdown)
      modifies this`shutdown
      ensures shutdown && Shows(Step(s, Action.SetShutdown))
    {
      shutdown := true;
    }
  }

  // ----- threads as steps ----------------------------------------------------------------------------------

  /** Where a worker is: about to test its condition, blocked in the wait, running the job with a number, or done. */
  datatype Worker = Testing | Blocked | Running(number: nat) | Exited

  /** `started` and `enqueued` are histories; a job's number is its place in them. */
  datatype State<J> = State(jobs: seq<J>, shutdown: bool, notified: bool, workers: seq<Worker>,
                            enqueued: seq<J>, started: seq<J>, finished: set<nat>)

  datatype Action<J> =
    | Enqueue(job: J, woken: Option<nat>)
    | Test(i: nat)
    | Finish(i: nat)
    | Wake(i: nat)
    | SetShutdown
    | NotifyAll

  function Init<J>(n: nat): State<J> {
    State([], false, false, seq(n, _ => Testing), [], [], {})
  }

  ghost predicate SomeBlocked(workers: seq<Worker>) {
    exists i :: 0 <= i < |workers| && workers[i] == Blocked
  }

  /** Notifying one wakes one of the blocked workers, if there is any. */
  ghost predicate Enabled<J>(s: State<J>, a: Action<J>) {
    match a
    case Enqueue(_, woken) =>
      && !s.shutdown
      && (match woken
          case None => !SomeBlocked(s.workers)
          case Some(i) => i < |s.workers| && s.workers[i] == Blocked)
    case Test(i) => i < |s.workers| && s.workers[i] == Testing
    case Finish(i) => i < |s.workers| && s.workers[i].Running?
    case Wake(i) => i < |s.workers| && s.workers[i] == Blocked
    case SetShutdown => !s.shutdown
    case NotifyAll => s.shutdown && !s.notified
  }

  function WakeAll(workers: seq<Worker>): (w: seq<Worker>)
    ensures |w| == |workers|
  {
    seq(|workers|, i requires 0 <= i < |workers| => if workers[i] == Blocked then Testing else workers[i])
  }

  ghost function Step<J>(s: State<J>, a: Action<J>): State<J>
    requires Enabled(s, a)
  {
    match a
    case Enqueue(job, woken) =>
      s.(jobs := s.jobs + [job], enqueued := s.enqueued + [job],
         workers := if woken.Some? then s.workers[woken.value := Testing] else s.workers)
    case Test(i) =>
      (match TurnOf(s.jobs, s.shutdown)
       case Block => s.(workers := s.workers[i := Blocked])
       case Leave => s.(workers := s.workers[i := Exited])
       case Start(job) =>
         s.(jobs := s.jobs[1..], started := s.started + [job], workers := s.workers[i := Running(|s.started|)]))
    case Finish(i) => s.(workers := s.workers[i := Testing], finished := s.finished + {s.workers[i].number})
    case Wake(i) => s.(workers := s.workers[i := Testing])
    case SetShutdown => s.(shutdown := true)
    case NotifyAll => s.(notified := true, workers := WakeAll(s.workers))
  }

  /** The states a run goes through. */
  ghost predicate Run<J(!new)>(run: seq<State<J>>, n: nat) {
    && run != [] && run[0] == Init(n)
    && forall k: nat {:trigger StepAt(run, k)} :: k + 1 < |run| ==> StepAt(run, k)
  }

  ghost predicate StepAt<J(!new)>(run: seq<State<J>>, k: nat)
    requires k + 1 < |run|
  {
    exists a :: Enabled(run[k], a) && run[k + 1] == Step(run[k], a)
  }

  // ----- what every run keeps ------------------------------------------------------------------------------

  /** Started job `k` has finished, or is being run. */
  ghost predicate Accounted<J>(s: State<J>, k: nat) {
    k in s.finished || exists i :: 0 <= i < |s.workers| && s.workers[i] == Running(k)
  }

  ghost predicate Idle(w: Worker) {
    w == Blocked || w == Exited
  }

  ghost predicate Invariant<J>(s: State<J>) {
    && s.started + s.jobs == s.enqueued
    && (forall k :: k in s.finished ==> k < |s.started|)
    && (forall k: nat {:trigger Accounted(s, k)} :: k < |s.started| ==> Accounted(s, k))
    && (forall i :: 0 <= i < |s.workers| && s.workers[i].Running? ==>
       s.workers[i].number < |s.started| && s.workers[i].number !in s.finished)
    && (forall i, j :: 0 <= i < j < |s.workers| && s.workers[i].Running? ==> s.workers[i] != s.workers[j])
    && (s.jobs != [] && s.workers != [] ==> exists i :: 0 <= i < |s.workers| && !Idle(s.workers[i]))
    && (forall i :: 0 <= i < |s.workers| && s.workers[i] == Exited ==> s.shutdown && s.jobs == [])
    && (s.notified ==> s.shutdown && !SomeBlocked(s.workers))
  }

  lemma InitHolds<J>(n: nat)
    ensures Invariant(Init<J>(n))
  {
  }

  lemma StepKeeps<J>(s: State<J>, a: Action<J>)
    requires Invariant(s) && Enabled(s, a)
    ensures Invariant(Step(s, a)) && |Step(s, a).workers| == |s.workers|
  {
    var t := Step(s, a);
    match a
    case Enqueue(job, woken) => EnqueueKeeps(s, job, woken);
    case Test(i) => TestKeeps(s, i);
    case Finish(i) => FinishKeeps(s, i);
    case Wake(i) => WakeKeeps(s, i);
    case SetShutdown => assert forall k: nat {:trigger Accounted(t, k)} :: Accounted(s, k) ==> Accounted(t, k);
    case NotifyAll => NotifyKeeps(s);
  }

  lemma StillRunning<J>(s: State<J>, t: State<J>)
    requires s.finished <= t.finished && |s.workers| == |t.workers| && s.started <= t.started
    requires forall i :: 0 <= i < |s.workers| && s.workers[i].Running? ==>
             t.workers[i] == s.workers[i] || s.workers[i].number in t.finished
    requires forall k: nat {:trigger Accounted(s, k)} :: k < |s.started| ==> Accounted(s, k)
    ensures forall k: nat {:trigger Accounted(t, k)} :: k < |s.started| ==> Accounted(t, k)
  {
    forall k: nat {:trigger Accounted(t, k)} | k < |s.started| ensures Accounted(t, k) {
      assert Accounted(s, k);
      if k !in s.finished {
        var i :| 0 <= i < |s.workers| && s.workers[i] == Running(k);
        assert t.workers[i] == Running(k) || k in t.finished;
      }
    }
  }

  lemma EnqueueKeeps<J>(s: State<J>, job: J, woken: Option<nat>)
    requires Invariant(s) && Enabled(s, Enqueue(job, woken))
    ensures Invariant(Step(s, Enqueue(job, woken)))
  {
    var t := Step(s, Enqueue(job, woken));
    assert t.started + t.jobs == (s.started + s.jobs) + [job];
    StillRunning(s, t);
    if s.workers != [] {
      match woken
      case Some(i) => assert t.workers[i] == Testing;
      case None => assert !Idle(t.workers[0]);
    }
  }

  lemma {:induction false} TestKeeps<J>(s: State<J>, i: nat)
    requires Invariant(s) && Enabled(s, Test(i))
    ensures Invariant(Step(s, Test(i)))
  {
    var t := Step(s, Test(i));
    StillRunning(s, t);
    match TurnOf(s.jobs, s.shutdown)
    case Block =>
    case Leave =>
    case Start(job) =>
      assert s.jobs == [job] + s.jobs[1..];
      assert t.started + t.jobs == s.started + ([job] + s.jobs[1..]);
      assert t.workers[i] == Running(|s.started|);
      assert Accounted(t, |s.started|);
  }

  lemma FinishKeeps<J>(s: State<J>, i: nat)
    requires Invariant(s) && Enabled(s, Finish(i))
    ensures Invariant(Step(s, Finish(i)))
  {
    var t := Step(s, Finish(i));
    StillRunning(s, t);
    assert t.workers[i] == Testing;
    assert forall j :: 0 <= j < |s.workers| && j != i && s.workers[j].Running? ==> s.workers[j] != s.workers[i];
  }

  lemma WakeKeeps<J>(s: State<J>, i: nat)
    requires Invariant(s) && Enabled(s, Wake(i))
    ensures Invariant(Step(s, Wake(i)))
  {
    var t := Step(s, Wake(i));
    StillRunning(s, t);
    assert t.workers[i] == Testing;
  }

  lemma NotifyKeeps<J>(s: State<J>)
    requires Invariant(s) && Enabled(s, NotifyAll)
    ensures Invariant(Step(s, NotifyAll))
  {
    var t := Step(s, NotifyAll);
    StillRunning(s, t);
    forall j | 0 <= j < |s.workers| && !Idle(s.workers[j]) ensures !Idle(t.workers[j]) {}
  }

  lemma {:induction false} RunKeeps<J(!new)>(run: seq<State<J>>, n: nat, m: nat)
    requires Run(run, n) && m < |run|
    ensures Invariant(run[m]) && |run[m].workers| == n
  {
    if m == 0 {
      InitHolds<J>(n);
    } else {
      RunKeeps(run, n, m - 1);
      assert StepAt(run, m - 1);
      var a :| Enabled(run[m - 1], a) && run[m] == Step(run[m - 1], a);
      StepKeeps(run[m - 1], a);
    }
  }

  // ----- the main results ----------------------------------------------------------------------------------

  /** In every run jobs are started in the order they were enqueued, each by one worker; and as long as there is a job
      in the queue, some worker is not blocked. */
  lemma FirstInFirstOut<J(!new)>(run: seq<State<J>>, n: nat, m: nat)
    requires Run(run, n) && m < |run|
    ensures run[m].started + run[m].jobs == run[m].enqueued
    ensures forall i, j :: 0 <= i < j < |run[m].workers| && run[m].workers[i].Running? ==>
            run[m].workers[i] != run[m].workers[j]
    ensures run[m].jobs != [] && n > 0 ==> exists i :: 0 <= i < |run[m].workers| && !Idle(run[m].workers[i])
  {
    RunKeeps(run, n, m);
  }

  /** When shutdown has joined all workers, of which there is at least one, every job has been run to its end. */
  lemma AllJobsDone<J(!new)>(run: seq<State<J>>, n: nat, m: nat)
    requires Run(run, n) && m < |run| && n > 0 && AllExited(run[m].workers)
    ensures run[m].started == run[m].enqueued && forall k :: k in run[m].finished <==> 0 <= k < |run[m].enqueued|
  {
    RunKeeps(run, n, m);
    Complete(run[m]);
  }

  ghost predicate AllExited(workers: seq<Worker>) {
    forall i :: 0 <= i < |workers| ==> workers[i] == Exited
  }

  lemma Complete<J>(s: State<J>)
    requires Invariant(s) && AllExited(s.workers) && s.workers != []
    ensures s.started == s.enqueued && forall k :: k in s.finished <==> 0 <= k < |s.enqueued|
  {
    assert s.workers[0] == Exited;
    assert s.started + [] == s.started;
    forall k: nat | k < |s.started| ensures k in s.finished { assert Accounted(s, k); }
  }

  /** Without workers no job is ever started. */
  lemma {:induction false} NoWorkerNoWork<J(!new)>(run: seq<State<J>>, m: nat)
    requires Run(run, 0) && m < |run|
    ensures run[m].workers == [] && run[m].started == [] && run[m].jobs == run[m].enqueued
  {
    if m > 0 {
      NoWorkerNoWork(run, m - 1);
      assert StepAt(run, m - 1);
    }
  }

  /** And there is a run in which one has been enqueued. */
  lemma {:induction false} LeftUndone<J(!new)>(job: J) returns (run: seq<State<J>>)
    ensures Run(run, 0) && |run| == 4 && run[3].jobs == run[3].enqueued == [job] && AllExited(run[3].workers)
  {
    var s0 := Init<J>(0);
    var s1 := Step(s0, Enqueue(job, None));
    var s2 := Step(s1, SetShutdown);
    var s3 := Step(s2, NotifyAll);
    run := [s0, s1, s2, s3];
    forall k: nat | k + 1 < |run| ensures StepAt(run, k) {
      var a: Action<J> := if k == 0 then Enqueue(job, None) else if k == 1 then SetShutdown else NotifyAll;
      assert Enabled(run[k], a) && run[k + 1] == Step(run[k], a);
    }
  }

  /** In every run all jobs have been started when all workers have left. */
  ghost predicate LeavesNothing<J(!new)>(n: nat) {
    forall run: seq<State<J>> :: Run(run, n) ==>
      forall m :: 0 <= m < |run| && AllExited(run[m].workers) ==> run[m].started == run[m].enqueued
  }

  /** That is so exactly if there is a worker. */
  lemma {:induction false} OneWorkerIff<J(!new)>(n: nat, job: J)
    ensures LeavesNothing<J>(n) <==> n > 0
  {
    if n > 0 {
      forall run: seq<State<J>> | Run(run, n)
        ensures forall m :: 0 <= m < |run| && AllExited(run[m].workers) ==> run[m].started == run[m].enqueued {
        forall m | 0 <= m < |run| && AllExited(run[m].workers) ensures run[m].started == run[m].enqueued {
          AllJobsDone(run, n, m);
        }
      }
    } else {
      var run := LeftUndone(job);
      NoWorkerNoWork(run, 3);
    }
  }

  // ----- shutdown comes to an end --------------------------------------------------------------------------

  /** Two for a job to start, one more to be finished, one for a worker that has to leave. */
  function Left(w: Worker): nat {
    match w
    case Testing => 1
    case Blocked => 1
    case Running(_) => 2
    case Exited => 0
  }

  function LeftAll(workers: seq<Worker>): nat {
    if workers == [] then 0 else LeftAll(workers[..|workers| - 1]) + Left(workers[|workers| - 1])
  }

  function WorkLeft<J>(s: State<J>): nat {
    2 * |s.jobs| + LeftAll(s.workers)
  }

  lemma {:induction false} LeftUpdated(workers: seq<Worker>, i: nat, w: Worker)
    requires i < |workers|
    ensures LeftAll(workers[i := w]) == LeftAll(workers) - Left(workers[i]) + Left(w)
  {
    var n := |workers| - 1;
    if i < n {
      LeftUpdated(workers[..n], i, w);
      assert workers[i := w][..n] == workers[..n][i := w];
    } else {
      assert workers[i := w][..n] == workers[..n];
    }
  }

  /** Once all are notified, every worker that has not left can take a step, and every step brings the end nearer. */
  lemma {:induction false} ShutdownEnds<J(!new)>(s: State<J>, a: Action<J>)
    requires Invariant(s) && s.notified
    ensures (exists i :: 0 <= i < |s.workers| && s.workers[i] != Exited) ==> exists b: Action<J> :: Enabled(s, b)
    ensures Enabled(s, a) ==> Step(s, a).notified && WorkLeft(Step(s, a)) < WorkLeft(s)
  {
    if i :| 0 <= i < |s.workers| && s.workers[i] != Exited {
      assert Enabled(s, Action<J>.Test(i)) || Enabled(s, Action<J>.Finish(i));
    }
    if Enabled(s, a) {
      match a
      case Test(i) => LeftUpdated(s.workers, i, Step(s, a).workers[i]);
      case Finish(i) => LeftUpdated(s.workers, i, Testing);
      case _ => assert false;
    }
  }
}
