/**
 * `ThreadPool`: workers on a condition variable, as a state machine.
 * A step is what one thread does while it holds the mutex, or one notification after it let go of it.
 */
module ThreadPool {

  // ---------- states ----------

  /** Where a worker is: about to test the wait predicate, asleep on the variable, in a job, or past its loop. */
  datatype Worker = Ready | Asleep | Running(job: nat) | Exited

  /** Where the thread that calls `shutdown` is; `Joining(k)` has joined the first `k` workers. */
  datatype Closer = Open | FlagSet | Joining(joined: nat)

  /**
   * Jobs are numbered in the order of their `enqueue`; `jobs` are the numbers on the list.
   * `notifies` counts callers of `enqueue` that have left the mutex and not called `notify_one` yet.
   * `enqueued`, `closedAt`, `started` and `done` are history: jobs pushed so far, jobs pushed before the
   * flag was set, jobs in the order they were taken, jobs whose function has returned.
   */
  datatype Pool = Pool(
    jobs: seq<nat>, shutdown: bool, notifies: nat, workers: seq<Worker>, closer: Closer,
    enqueued: nat, closedAt: nat, started: seq<nat>, done: seq<nat>)

  datatype Step =
    | Enqueue
    | NotifyOne(woken: nat)
    | Check(worker: nat)
    | Finish(worker: nat)
    | Spurious(worker: nat)
    | SetFlag
    | NotifyAll
    | Join

  function Init(n: nat): Pool {
    Pool([], false, 0, seq(n, _ => Ready), Open, 0, 0, [], [])
  }

  predicate SomeoneSleeps(p: Pool) {
    exists i | 0 <= i < |p.workers| :: p.workers[i].Asleep?
  }

  predicate Enabled(p: Pool, s: Step) {
    match s
    case Enqueue => true
    case NotifyOne(w) => p.notifies > 0 && (SomeoneSleeps(p) ==> w < |p.workers| && p.workers[w].Asleep?)
    case Check(w) => w < |p.workers| && p.workers[w].Ready?
    case Finish(w) => w < |p.workers| && p.workers[w].Running?
    case Spurious(w) => w < |p.workers| && p.workers[w].Asleep?
    case SetFlag => p.closer.Open?
    case NotifyAll => p.closer.FlagSet?
    case Join => p.closer.Joining? && p.closer.joined < |p.workers| && p.workers[p.closer.joined].Exited?
  }

  /** One critical section of a worker: test the predicate, then sleep, leave, or take the front job. */
  function CheckStep(p: Pool, w: nat): Pool
    requires Enabled(p, Check(w))
  {
    if p.jobs == [] && !p.shutdown then p.(workers := p.workers[w := Asleep])
    else if p.shutdown && p.jobs == [] then p.(workers := p.workers[w := Exited])
    else
      p.(workers := p.workers[w := Running(p.jobs[0])], jobs := p.jobs[1..], started := p.started + [p.jobs[0]])
  }

  function WakeAll(ws: seq<Worker>): (r: seq<Worker>)
    ensures |r| == |ws|
    ensures forall i :: 0 <= i < |ws| ==> r[i] == if ws[i].Asleep? then Ready else ws[i]
  {
    seq(|ws|, i requires 0 <= i < |ws| => if ws[i].Asleep? then Ready else ws[i])
  }

  function Next(p: Pool, s: Step): Pool
    requires Enabled(p, s)
  {
    match s
    case Enqueue => p.(jobs := p.jobs + [p.enqueued], enqueued := p.enqueued + 1, notifies := p.notifies + 1)
    case NotifyOne(w) =>
      var q := p.(notifies := p.notifies - 1);
      if SomeoneSleeps(p) then q.(workers := q.workers[w := Ready]) else q
    case Check(w) => CheckStep(p, w)
    case Finish(w) => p.(workers := p.workers[w := Ready], done := p.done + [p.workers[w].job])
    case Spurious(w) => p.(workers := p.workers[w := Ready])
    case SetFlag => p.(shutdown := true, closer := FlagSet, closedAt := p.enqueued)
    case NotifyAll => p.(workers := WakeAll(p.workers), closer := Joining(0))
    case Join => p.(closer := Joining(p.closer.joined + 1))
  }

  /** The state after a run, for runs in which every step could be taken. */
  predicate IsRun(p: Pool, steps: seq<Step>)
    decreases |steps|
  {
    steps == [] || (Enabled(p, steps[0]) && IsRun(Next(p, steps[0]), steps[1..]))
  }

  function After(p: Pool, steps: seq<Step>): Pool
    requires IsRun(p, steps)
    decreases |steps|
  {
    if steps == [] then p else After(Next(p, steps[0]), steps[1..])
  }

  // ---------- what every step keeps ----------

  function Upto(n: nat): (s: seq<nat>)
    ensures |s| == n && forall i :: 0 <= i < n ==> s[i] == i
  {
    seq(n, (i: nat) => i)
  }

  /** Jobs are taken in the order they were pushed. */
  predicate Fifo(p: Pool) {
    p.started + p.jobs == Upto(p.enqueued)
  }

  /** A job that was taken is in exactly one worker or done exactly once, and no other job is. */
  predicate Accounted(p: Pool) {
    && (forall w | 0 <= w < |p.workers| && p.workers[w].Running? ::
          p.workers[w].job < |p.started| && p.workers[w].job !in p.done)
    && (forall v, w | 0 <= v < w < |p.workers| && p.workers[v].Running? && p.workers[w].Running? ::
          p.workers[v].job != p.workers[w].job)
    && (forall i, j | 0 <= i < j < |p.done| :: p.done[i] != p.done[j])
    && (forall i | 0 <= i < |p.done| :: p.done[i] < |p.started|)
    && (forall k | 0 <= k < |p.started| :: k in p.done || InWorker(p, k))
  }

  predicate InWorker(p: Pool, k: nat) {
    exists w | 0 <= w < |p.workers| :: p.workers[w] == Running(k)
  }

  function ReadyCount(ws: seq<Worker>): nat {
    if ws == [] then 0 else ReadyCount(ws[..|ws| - 1]) + if ws[|ws| - 1].Ready? then 1 else 0
  }

  /** While a worker sleeps, every job on the list has a notification or an awake worker coming for it. */
  predicate NoLostWakeup(p: Pool) {
    SomeoneSleeps(p) ==> |p.jobs| <= p.notifies + ReadyCount(p.workers)
  }

  predicate Closing(p: Pool) {
    && (p.shutdown <==> !p.closer.Open?)
    && (p.closer.Joining? ==> !SomeoneSleeps(p))
    && (p.shutdown ==> p.closedAt <= p.enqueued)
    && (forall w | 0 <= w < |p.workers| && p.workers[w].Exited? :: p.shutdown && p.closedAt <= |p.started|)
    && (p.closer.Joining? ==> p.closer.joined <= |p.workers|)
    && (p.closer.Joining? ==> forall w | 0 <= w < p.closer.joined :: p.workers[w].Exited?)
  }

  predicate Inv(p: Pool) {
    Fifo(p) && Accounted(p) && NoLostWakeup(p) && Closing(p)
  }

  lemma {:induction false} ReadyCountUpdate(ws: seq<Worker>, i: nat, w: Worker)
    requires i < |ws|
    ensures ReadyCount(ws[i := w]) ==
            ReadyCount(ws) + (if w.Ready? then 1 else 0) - (if ws[i].Ready? then 1 else 0)
  {
    var init := ws[..|ws| - 1];
    if i == |ws| - 1 {
      assert ws[i := w][..|ws| - 1] == init;
    } else {
      assert ws[i := w][..|ws| - 1] == init[i := w];
      ReadyCountUpdate(init, i, w);
    }
  }

  lemma {:induction false} ReadyCountFull(n: nat)
    ensures ReadyCount(seq(n, _ => Ready)) == n
  {
    if n > 0 {
      assert seq(n, _ => Ready)[..n - 1] == seq(n - 1, _ => Ready);
      ReadyCountFull(n - 1);
    }
  }

  lemma InitInv(n: nat)
    ensures Inv(Init(n))
  {
  }

  lemma StepFifo(p: Pool, s: Step)
    requires Inv(p) && Enabled(p, s)
    ensures Fifo(Next(p, s))
  {
    var q := Next(p, s);
    if s.Enqueue? {
      assert q.started + q.jobs == (p.started + p.jobs) + [p.enqueued];
    } else if s.Check? && p.jobs != [] {
      assert q.started + q.jobs == p.started + p.jobs;
    }
  }

  lemma TakenIsNext(p: Pool)
    requires Fifo(p) && p.jobs != []
    ensures p.jobs[0] == |p.started|
  {
    assert (p.started + p.jobs)[|p.started|] == p.jobs[0];
  }

  lemma TakeAccounted(p: Pool, w: nat)
    requires Inv(p) && Enabled(p, Check(w)) && p.jobs != []
    ensures Accounted(Next(p, Check(w)))
  {
    hide NoLostWakeup, Closing, Fifo;
    var q := Next(p, Check(w));
    TakenIsNext(p);
    forall k | 0 <= k < |q.started| ensures k in q.done || InWorker(q, k) {
      if k == |p.started| {
        assert q.workers[w] == Running(k);
      } else if k !in p.done {
        var v :| 0 <= v < |p.workers| && p.workers[v] == Running(k);
        assert q.workers[v] == Running(k);
      }
    }
  }

  lemma FinishAccounted(p: Pool, w: nat)
    requires Inv(p) && Enabled(p, Finish(w))
    ensures Accounted(Next(p, Finish(w)))
  {
    hide NoLostWakeup, Closing, Fifo;
    var q := Next(p, Finish(w));
    forall k | 0 <= k < |q.started| ensures k in q.done || InWorker(q, k) {
      if k == p.workers[w].job {
        assert q.done[|p.done|] == k;
      } else if k !in p.done {
        var v :| 0 <= v < |p.workers| && p.workers[v] == Running(k);
        assert q.workers[v] == Running(k);
      }
    }
  }

  lemma StepAccounted(p: Pool, s: Step)
    requires Inv(p) && Enabled(p, s)
    ensures Accounted(Next(p, s))
  {
    hide NoLostWakeup, Closing, Fifo;
    if s.Check? && p.jobs != [] {
      TakeAccounted(p, s.worker);
    } else if s.Finish? {
      FinishAccounted(p, s.worker);
    } else {
      var q := Next(p, s);
      forall k | 0 <= k < |q.started| && k !in q.done ensures InWorker(q, k) {
        var v :| 0 <= v < |p.workers| && p.workers[v] == Running(k);
        assert q.workers[v] == Running(k);
      }
    }
  }

  /** Only a worker that finds no job and no flag goes to sleep. */
  lemma NoNewSleeper(p: Pool, s: Step)
    requires Enabled(p, s) && !SomeoneSleeps(p)
    requires s.Check? ==> p.jobs != [] || p.shutdown
    ensures !SomeoneSleeps(Next(p, s))
  {
    forall i | 0 <= i < |p.workers| ensures !Next(p, s).workers[i].Asleep? {
      assert !p.workers[i].Asleep?;
    }
  }

  lemma StepNoLostWakeup(p: Pool, s: Step)
    requires Inv(p) && Enabled(p, s)
    ensures NoLostWakeup(Next(p, s))
  {
    hide ReadyCount;
    if !SomeoneSleeps(p) && (s.Check? ==> p.jobs != [] || p.shutdown) {
      NoNewSleeper(p, s);
    } else {
      match s
      case NotifyOne(w) => ReadyCountUpdate(p.workers, w, Ready);
      case Check(w) => ReadyCountUpdate(p.workers, w, Next(p, s).workers[w]);
      case Finish(w) => ReadyCountUpdate(p.workers, w, Ready);
      case Spurious(w) => ReadyCountUpdate(p.workers, w, Ready);
      case _ =>
    }
  }

  lemma StepClosing(p: Pool, s: Step)
    requires Inv(p) && Enabled(p, s)
    ensures Closing(Next(p, s))
  {
    assert |p.started| + |p.jobs| == p.enqueued by {
      assert |p.started + p.jobs| == |Upto(p.enqueued)|;
    }
    if p.closer.Joining? {
      NoNewSleeper(p, s);
    }
  }

  /** Every step of every thread keeps the invariant. */
  lemma StepInv(p: Pool, s: Step)
    requires Inv(p) && Enabled(p, s)
    ensures Inv(Next(p, s))
  {
    StepFifo(p, s);
    StepAccounted(p, s);
    StepNoLostWakeup(p, s);
    StepClosing(p, s);
  }

  lemma {:induction false} RunInv(p: Pool, steps: seq<Step>)
    requires Inv(p) && IsRun(p, steps)
    ensures Inv(After(p, steps))
    decreases |steps|
  {
    if steps != [] {
      StepInv(p, steps[0]);
      RunInv(Next(p, steps[0]), steps[1..]);
    }
  }

  // ---------- whole runs ----------

  predicate AllExited(p: Pool) {
    forall w | 0 <= w < |p.workers| :: p.workers[w].Exited?
  }

  /** In every run from a fresh pool: first pushed, first taken; and each job is waiting, running or done once. */
  lemma FifoAlways(n: nat, steps: seq<Step>, k: nat)
    requires IsRun(Init(n), steps) && k < After(Init(n), steps).enqueued
    ensures var p := After(Init(n), steps);
            p.started == Upto(|p.started|) &&
            (k in p.jobs <==> k >= |p.started|) &&
            (k !in p.jobs ==> (InWorker(p, k) <==> k !in p.done)) &&
            (k in p.jobs ==> !InWorker(p, k) && k !in p.done)
  {
    InitInv(n);
    RunInv(Init(n), steps);
    var p := After(Init(n), steps);
    var all := p.started + p.jobs;
    assert |all| == p.enqueued;
    assert forall i :: 0 <= i < |p.started| ==> all[i] == p.started[i];
    assert forall i :: |p.started| <= i < p.enqueued ==> all[i] == p.jobs[i - |p.started|];
    assert all[k] == k;
    assert k >= |p.started| ==> all[k] == p.jobs[k - |p.started|];
    if k in p.jobs {
      var j :| 0 <= j < |p.jobs| && p.jobs[j] == k;
      assert all[|p.started| + j] == |p.started| + j;
    }
  }

  /** Two workers are never in the same job, and no job is finished twice. */
  lemma NeverTwice(n: nat, steps: seq<Step>)
    requires IsRun(Init(n), steps)
    ensures var p := After(Init(n), steps);
            (forall v, w :: 0 <= v < w < |p.workers| && p.workers[v].Running? && p.workers[w].Running? ==>
              p.workers[v].job != p.workers[w].job) &&
            (forall i, j :: 0 <= i < j < |p.done| ==> p.done[i] != p.done[j])
  {
    InitInv(n);
    RunInv(Init(n), steps);
  }

  /** When all workers of a pool have left, every job pushed before the flag was set has run. */
  lemma ShutdownDrains(n: nat, steps: seq<Step>, k: nat)
    requires n > 0 && IsRun(Init(n), steps) && AllExited(After(Init(n), steps))
    ensures After(Init(n), steps).shutdown
    ensures k < After(Init(n), steps).closedAt ==> k in After(Init(n), steps).done
  {
    InitInv(n);
    RunInv(Init(n), steps);
    WorkersStay(Init(n), steps);
    var p := After(Init(n), steps);
    assert p.workers[0].Exited?;
  }

  lemma {:induction false} WorkersStay(p: Pool, steps: seq<Step>)
    requires IsRun(p, steps)
    ensures |After(p, steps).workers| == |p.workers|
    decreases |steps|
  {
    if steps != [] { WorkersStay(Next(p, steps[0]), steps[1..]); }
  }

  /** `shutdown` returns only when all workers have left. */
  lemma JoinedMeansExited(n: nat, steps: seq<Step>)
    requires IsRun(Init(n), steps) && After(Init(n), steps).closer == Joining(n)
    ensures AllExited(After(Init(n), steps))
  {
    InitInv(n);
    RunInv(Init(n), steps);
    WorkersStay(Init(n), steps);
  }

  // ---------- progress ----------

  /** A step of a worker or of a notifier; that a running job's function returns is taken for granted. */
  predicate Wakes(p: Pool, s: Step) {
    Enabled(p, s) && (s.NotifyOne? || s.NotifyAll? || s.Check? || s.Finish?)
  }

  /**
   * The pool is never stuck: with work to do, or told to close, some worker or notifier can move,
   * unless all workers have left.
   */
  lemma NeverStuck(n: nat, steps: seq<Step>) returns (s: Step)
    requires IsRun(Init(n), steps)
    requires var p := After(Init(n), steps); (p.jobs != [] || p.shutdown) && !AllExited(p)
    ensures Wakes(After(Init(n), steps), s)
  {
    InitInv(n);
    RunInv(Init(n), steps);
    var p := After(Init(n), steps);
    var w :| 0 <= w < |p.workers| && !p.workers[w].Exited?;
    match p.workers[w]
    case Ready => s := Check(w);
    case Running(_) => s := Finish(w);
    case Asleep =>
      if p.closer.FlagSet? {
        s := NotifyAll;
      } else if p.notifies > 0 {
        s := NotifyOne(w);
      } else {
        var v := SomeoneReady(p.workers);
        s := Check(v);
      }
    case Exited => s := NotifyAll;
  }

  lemma {:induction false} SomeoneReady(ws: seq<Worker>) returns (v: nat)
    requires ReadyCount(ws) > 0
    ensures v < |ws| && ws[v].Ready?
  {
    if ws[|ws| - 1].Ready? {
      v := |ws| - 1;
    } else {
      v := SomeoneReady(ws[..|ws| - 1]);
    }
  }

  function Weight(w: Worker): nat {
    match w
    case Running(_) => 2
    case Ready => 1
    case _ => 0
  }

  function TotalWeight(ws: seq<Worker>): nat {
    if ws == [] then 0 else TotalWeight(ws[..|ws| - 1]) + Weight(ws[|ws| - 1])
  }

  /** What is left to do once all sleepers have been woken to leave. */
  function WorkLeft(p: Pool): nat {
    3 * |p.jobs| + TotalWeight(p.workers) + p.notifies +
    if p.closer.Joining? && p.closer.joined <= |p.workers| then |p.workers| - p.closer.joined else 0
  }

  lemma {:induction false} TotalWeightUpdate(ws: seq<Worker>, i: nat, w: Worker)
    requires i < |ws|
    ensures TotalWeight(ws[i := w]) == TotalWeight(ws) + Weight(w) - Weight(ws[i])
  {
    var init := ws[..|ws| - 1];
    if i == |ws| - 1 {
      assert ws[i := w][..|ws| - 1] == init;
    } else {
      assert ws[i := w][..|ws| - 1] == init[i := w];
      TotalWeightUpdate(init, i, w);
    }
  }

  /** With no further `enqueue`, closing comes to an end: every step that can be taken uses up work. */
  lemma ClosingTerminates(p: Pool, s: Step)
    requires Inv(p) && Enabled(p, s) && p.closer.Joining? && !s.Enqueue?
    ensures Next(p, s).closer.Joining?
    ensures WorkLeft(Next(p, s)) < WorkLeft(p)
  {
    match s
    case Check(w) => TotalWeightUpdate(p.workers, w, Next(p, s).workers[w]);
    case Finish(w) => TotalWeightUpdate(p.workers, w, Ready);
    case _ =>
  }
}
