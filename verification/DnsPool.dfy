/**
 The worker pool of `resolveAll`: a feeder hands every (domain, record) slot over
 an unbuffered channel to a fixed number of workers, each of which reads its
 record, looks it up and writes its slot, in any interleaving.
 */
module DnsPool {
  import opened DnsCheck

  // The slot of record r of domain d.
  datatype Job = Job(d: nat, r: nat)

  datatype Worker =
    | Waiting
    | Taken(job: Job)
    | Looking(job: Job, record: Record)
    | Writing(job: Job, record: Record, answer: Answer)
    | Stopped

  // `answers` and `log` are history: what each lookup said, and the slots written, in order.
  datatype Pool = Pool(
    jobs: seq<Job>,
    checks: map<Job, Check>,
    next: nat,
    closed: bool,
    workers: seq<Worker>,
    answers: map<Job, Answer>,
    log: seq<Job>)

  datatype Step =
    | Hand(w: nat)
    | Read(w: nat)
    | Reply(w: nat, answer: Answer)
    | Write(w: nat)
    | Close
    | Stop(w: nat)

  ghost predicate Distinct(jobs: seq<Job>) {
    forall i, j :: 0 <= i < j < |jobs| ==> jobs[i] != jobs[j]
  }

  // The pool as it starts: every slot known, nothing handed out, at least one worker.
  ghost predicate IsInitial(p: Pool) {
    && Distinct(p.jobs) && (forall j :: j in p.jobs <==> j in p.checks)
    && p.next == 0 && !p.closed && p.workers != [] && p.answers == map[] && p.log == []
    && forall w :: 0 <= w < |p.workers| ==> p.workers[w] == Waiting
  }

  ghost predicate Active(worker: Worker) {
    !worker.Waiting? && !worker.Stopped?
  }

  ghost predicate Enabled(p: Pool, step: Step) {
    match step
    case Hand(w) => w < |p.workers| && p.workers[w].Waiting? && p.next < |p.jobs|
    case Read(w) => w < |p.workers| && p.workers[w].Taken? && p.workers[w].job in p.checks
    case Reply(w, answer) => w < |p.workers| && p.workers[w].Looking?
    case Write(w) => w < |p.workers| && p.workers[w].Writing?
    case Close => p.next == |p.jobs| && !p.closed
    case Stop(w) => w < |p.workers| && p.workers[w].Waiting? && p.closed
  }

  ghost function Move(p: Pool, w: nat, worker: Worker): Pool
    requires w < |p.workers|
  {
    p.(workers := p.workers[w := worker])
  }

  ghost function Apply(site: Site, p: Pool, step: Step): Pool
    requires Enabled(p, step)
  {
    match step
    case Hand(w) => Move(p, w, Taken(p.jobs[p.next])).(next := p.next + 1)
    case Read(w) =>
      var job := p.workers[w].job;
      Move(p, w, Looking(job, p.checks[job].record))
    case Reply(w, answer) =>
      var worker := p.workers[w];
      Move(p, w, Writing(worker.job, worker.record, answer)).(answers := p.answers[worker.job := answer])
    case Write(w) =>
      var worker := p.workers[w];
      Move(p, w, Waiting).(
        checks := p.checks[worker.job := Checked(site, worker.record, worker.answer)],
        log := p.log + [worker.job])
    case Close => p.(closed := true)
    case Stop(w) => Move(p, w, Stopped)
  }

  // ---- The invariant, relative to the checks the pool started with ----

  ghost predicate HeldBy(p: Pool, w: nat, job: Job) {
    w < |p.workers| && Active(p.workers[w]) && p.workers[w].job == job
  }

  ghost predicate OneHolder(p: Pool) {
    forall v, w, job :: HeldBy(p, v, job) && HeldBy(p, w, job) ==> v == w
  }

  // The slots handed out so far.
  ghost function Out(p: Pool): seq<Job>
    requires p.next <= |p.jobs|
  {
    p.jobs[..p.next]
  }

  // Every handed-out slot is held by a worker or written, never both; no other slot is either.
  ghost predicate Accounted(p: Pool) {
    && p.next <= |p.jobs|
    && (forall w, job :: HeldBy(p, w, job) ==> job in Out(p) && job !in p.log)
    && (forall job :: job in p.log ==> job in Out(p))
    && (forall job :: job in Out(p) ==> job in p.log || exists w :: HeldBy(p, w, job))
  }

  // Written slots hold the classification of their own answer; the others are untouched.
  ghost predicate Written(site: Site, start: map<Job, Check>, p: Pool) {
    && p.checks.Keys == start.Keys
    && (forall job :: job in p.log && job in start ==>
          job in p.answers && p.checks[job] == Checked(site, start[job].record, p.answers[job]))
    && (forall job :: job in start && job !in p.log ==> p.checks[job] == start[job])
  }

  ghost predicate Busy(start: map<Job, Check>, p: Pool) {
    forall w :: 0 <= w < |p.workers| ==>
      match p.workers[w]
      case Looking(job, record) => job in start && record == start[job].record
      case Writing(job, record, answer) =>
        job in start && record == start[job].record && job in p.answers && p.answers[job] == answer
      case _ => true
  }

  ghost predicate Ended(p: Pool) {
    && (p.closed ==> p.next == |p.jobs|)
    && forall w :: 0 <= w < |p.workers| && p.workers[w].Stopped? ==> p.closed
  }

  ghost predicate Inv(site: Site, start: map<Job, Check>, p: Pool) {
    && Distinct(p.jobs) && (forall job :: job in p.jobs <==> job in start) && p.workers != []
    && OneHolder(p) && Accounted(p) && Distinct(p.log)
    && Written(site, start, p) && Busy(start, p) && Ended(p)
  }

  lemma InvInitial(site: Site, p: Pool)
    requires IsInitial(p)
    ensures Inv(site, p.checks, p)
  {
  }

  // Worker w goes on with the same job; nothing else about who holds what changes.
  lemma SameJob(p: Pool, w: nat, worker: Worker, p': Pool)
    requires w < |p.workers| && Active(p.workers[w]) && Active(worker) && worker.job == p.workers[w].job
    requires OneHolder(p) && Accounted(p)
    requires p'.workers == p.workers[w := worker] && p'.jobs == p.jobs && p'.next == p.next && p'.log == p.log
    ensures OneHolder(p') && Accounted(p')
  {
    assert forall v, job :: HeldBy(p', v, job) <==> HeldBy(p, v, job);
  }

  lemma InvRead(site: Site, start: map<Job, Check>, p: Pool, w: nat)
    requires Inv(site, start, p) && Enabled(p, Read(w))
    ensures Inv(site, start, Apply(site, p, Read(w)))
  {
    var job := p.workers[w].job;
    assert HeldBy(p, w, job);
    SameJob(p, w, Looking(job, p.checks[job].record), Apply(site, p, Read(w)));
  }

  lemma InvReply(site: Site, start: map<Job, Check>, p: Pool, w: nat, answer: Answer)
    requires Inv(site, start, p) && Enabled(p, Reply(w, answer))
    ensures Inv(site, start, Apply(site, p, Reply(w, answer)))
  {
    var worker, p' := p.workers[w], Apply(site, p, Reply(w, answer));
    assert HeldBy(p, w, worker.job);
    SameJob(p, w, Writing(worker.job, worker.record, answer), p');
    forall v | 0 <= v < |p.workers| && v != w && p.workers[v].Writing?
      ensures p.workers[v].job != worker.job
    {
      assert HeldBy(p, v, p.workers[v].job);
    }
  }

  lemma HandHolders(p: Pool, w: nat, p': Pool)
    requires w < |p.workers| && p.workers[w].Waiting? && p.next < |p.jobs| && Distinct(p.jobs)
    requires OneHolder(p) && Accounted(p)
    requires p' == Move(p, w, Taken(p.jobs[p.next])).(next := p.next + 1)
    ensures OneHolder(p') && Accounted(p')
  {
    var job := p.jobs[p.next];
    assert Out(p') == Out(p) + [job];
    assert job !in Out(p);
    assert HeldBy(p', w, job);
    assert forall v, j :: HeldBy(p', v, j) <==> HeldBy(p, v, j) || (v == w && j == job);
  }

  lemma InvHand(site: Site, start: map<Job, Check>, p: Pool, w: nat)
    requires Inv(site, start, p) && Enabled(p, Hand(w))
    ensures Inv(site, start, Apply(site, p, Hand(w)))
  {
    HandHolders(p, w, Apply(site, p, Hand(w)));
  }

  lemma WriteHolders(p: Pool, w: nat, p': Pool)
    requires w < |p.workers| && Active(p.workers[w]) && OneHolder(p) && Accounted(p) && Distinct(p.log)
    requires p'.workers == p.workers[w := Waiting] && p'.jobs == p.jobs && p'.next == p.next
    requires p'.log == p.log + [p.workers[w].job]
    ensures OneHolder(p') && Accounted(p') && Distinct(p'.log)
  {
    var job := p.workers[w].job;
    assert HeldBy(p, w, job);
    assert forall v, j :: HeldBy(p', v, j) <==> HeldBy(p, v, j) && v != w;
    forall j | j in Out(p')
      ensures j in p'.log || exists v :: HeldBy(p', v, j)
    {
      if j !in p'.log {
        var v :| HeldBy(p, v, j);
        assert HeldBy(p', v, j);
      }
    }
  }

  lemma InvWrite(site: Site, start: map<Job, Check>, p: Pool, w: nat)
    requires Inv(site, start, p) && Enabled(p, Write(w))
    ensures Inv(site, start, Apply(site, p, Write(w)))
  {
    assert HeldBy(p, w, p.workers[w].job);
    WriteHolders(p, w, Apply(site, p, Write(w)));
    WriteWritten(site, start, p, w);
  }

  lemma WriteWritten(site: Site, start: map<Job, Check>, p: Pool, w: nat)
    requires Written(site, start, p) && Busy(start, p) && Enabled(p, Write(w)) && p.workers[w].job !in p.log
    ensures Written(site, start, Apply(site, p, Write(w)))
  {
  }

  lemma InvStop(site: Site, start: map<Job, Check>, p: Pool, w: nat)
    requires Inv(site, start, p) && Enabled(p, Stop(w))
    ensures Inv(site, start, Apply(site, p, Stop(w)))
  {
    SameHolders(p, Apply(site, p, Stop(w)));
  }

  lemma InvClose(site: Site, start: map<Job, Check>, p: Pool)
    requires Inv(site, start, p) && Enabled(p, Close)
    ensures Inv(site, start, Apply(site, p, Close))
  {
    SameHolders(p, Apply(site, p, Close));
  }

  lemma SameHolders(p: Pool, p': Pool)
    requires OneHolder(p) && Accounted(p)
    requires p'.jobs == p.jobs && p'.next == p.next && p'.log == p.log && |p'.workers| == |p.workers|
    requires forall w :: 0 <= w < |p.workers| ==>
      p'.workers[w] == p.workers[w] || (!Active(p.workers[w]) && !Active(p'.workers[w]))
    ensures OneHolder(p') && Accounted(p')
  {
    assert forall v, job :: HeldBy(p', v, job) <==> HeldBy(p, v, job);
  }

  /** Every step of every schedule keeps the pool's invariant. */
  lemma InvStep(site: Site, start: map<Job, Check>, p: Pool, step: Step)
    requires Inv(site, start, p) && Enabled(p, step)
    ensures Inv(site, start, Apply(site, p, step))
  {
    match step
    case Hand(w) => InvHand(site, start, p, w);
    case Read(w) => InvRead(site, start, p, w);
    case Reply(w, answer) => InvReply(site, start, p, w, answer);
    case Write(w) => InvWrite(site, start, p, w);
    case Close => InvClose(site, start, p);
    case Stop(w) => InvStop(site, start, p, w);
  }

  // ---- Whole schedules ----

  ghost predicate IsRun(site: Site, p: Pool, steps: seq<Step>)
    decreases |steps|
  {
    steps == [] || (Enabled(p, steps[0]) && IsRun(site, Apply(site, p, steps[0]), steps[1..]))
  }

  ghost function Final(site: Site, p: Pool, steps: seq<Step>): Pool
    requires IsRun(site, p, steps)
    decreases |steps|
  {
    if steps == [] then p else Final(site, Apply(site, p, steps[0]), steps[1..])
  }

  // `wg.Wait()` returns.
  ghost predicate Finished(p: Pool) {
    forall w :: 0 <= w < |p.workers| ==> p.workers[w].Stopped?
  }

  lemma {:induction false} RunInv(site: Site, start: map<Job, Check>, p: Pool, steps: seq<Step>)
    requires Inv(site, start, p) && IsRun(site, p, steps)
    ensures Inv(site, start, Final(site, p, steps))
    decreases |steps|
  {
    if steps != [] {
      InvStep(site, start, p, steps[0]);
      RunInv(site, start, Apply(site, p, steps[0]), steps[1..]);
    }
  }

  lemma FinishedWroteAll(site: Site, start: map<Job, Check>, p: Pool)
    requires Inv(site, start, p) && Finished(p)
    ensures Distinct(p.log) && (forall job :: job in p.log <==> job in start)
    ensures p.answers.Keys >= start.Keys
    ensures p.checks == map job | job in start :: Checked(site, start[job].record, p.answers[job])
  {
    assert p.workers[0].Stopped?;
    assert p.closed && p.next == |p.jobs|;
    assert Out(p) == p.jobs;
    forall job | job in start
      ensures job in p.log
    {
      assert job in Out(p);
      assert forall w :: !HeldBy(p, w, job);
    }
  }

  /**
   When `resolveAll` returns, under every schedule, each slot was written exactly once and the
   checks are the sequential classification of every record over its own lookup's answer.
   */
  lemma PoolIsSequential(site: Site, initial: Pool, steps: seq<Step>)
    requires IsInitial(initial) && IsRun(site, initial, steps) && Finished(Final(site, initial, steps))
    ensures var p := Final(site, initial, steps);
      && Distinct(p.log) && (forall job :: job in p.log <==> job in initial.checks)
      && p.answers.Keys >= initial.checks.Keys
      && p.checks == map job | job in initial.checks :: Checked(site, initial.checks[job].record, p.answers[job])
  {
    InvInitial(site, initial);
    RunInv(site, initial.checks, initial, steps);
    FinishedWroteAll(site, initial.checks, Final(site, initial, steps));
  }

  /** A lookup that did not finish is never shown as not pointed. */
  lemma UnfinishedIsUnknown(site: Site, initial: Pool, steps: seq<Step>, job: Job)
    requires IsInitial(initial) && IsRun(site, initial, steps) && Finished(Final(site, initial, steps))
    requires job in initial.checks
    ensures var p := Final(site, initial, steps);
      && job in p.answers && job in p.checks
      && (p.checks[job].state == Unknown <==> !p.answers[job].ok)
      && (p.checks[job].state == NotPointed <==> p.answers[job].ok && p.answers[job].addrs == [])
  {
    PoolIsSequential(site, initial, steps);
    var p := Final(site, initial, steps);
    NotPointedIsSubstantiated(site, initial.checks[job].record, p.answers[job]);
  }

  lemma ActiveCanMove(site: Site, start: map<Job, Check>, p: Pool, w: nat)
    requires Inv(site, start, p) && w < |p.workers| && Active(p.workers[w])
    ensures exists step :: Enabled(p, step)
  {
    assert HeldBy(p, w, p.workers[w].job);
    match p.workers[w]
    case Taken(_) => assert Enabled(p, Read(w));
    case Looking(_, _) => assert Enabled(p, Reply(w, Answer([], false)));
    case Writing(_, _, _) => assert Enabled(p, Write(w));
  }

  /** No deadlock: until every worker has stopped, some step is possible. */
  lemma PoolProgresses(site: Site, start: map<Job, Check>, p: Pool)
    requires Inv(site, start, p) && !Finished(p)
    ensures exists step :: Enabled(p, step)
  {
    var w :| 0 <= w < |p.workers| && !p.workers[w].Stopped?;
    if Active(p.workers[w]) {
      ActiveCanMove(site, start, p, w);
    } else if p.next < |p.jobs| {
      assert Enabled(p, Hand(w));
    } else if !p.closed {
      assert Enabled(p, Close);
    } else {
      assert Enabled(p, Stop(w));
    }
  }

  ghost function Weight(worker: Worker): nat {
    match worker
    case Stopped => 0
    case Waiting => 1
    case Writing(_, _, _) => 2
    case Looking(_, _) => 3
    case Taken(_) => 4
  }

  ghost function Weights(workers: seq<Worker>): nat {
    if workers == [] then 0 else Weight(workers[0]) + Weights(workers[1..])
  }

  lemma {:induction false} WeightsUpdate(workers: seq<Worker>, w: nat, worker: Worker)
    requires w < |workers|
    ensures Weights(workers[w := worker]) == Weights(workers) - Weight(workers[w]) + Weight(worker)
  {
    if w == 0 {
      assert workers[w := worker][1..] == workers[1..];
    } else {
      assert workers[w := worker][1..] == workers[1..][w - 1 := worker];
      WeightsUpdate(workers[1..], w - 1, worker);
    }
  }

  // An upper bound on the steps still to come.
  ghost function Left(p: Pool): nat
    requires p.next <= |p.jobs|
  {
    4 * (|p.jobs| - p.next) + (if p.closed then 0 else 1) + Weights(p.workers)
  }

  lemma StepUsesUp(site: Site, p: Pool, step: Step)
    requires p.next <= |p.jobs| && Enabled(p, step)
    ensures Apply(site, p, step).next <= |Apply(site, p, step).jobs| && Left(Apply(site, p, step)) < Left(p)
  {
    if !step.Close? {
      WeightsUpdate(p.workers, step.w, Apply(site, p, step).workers[step.w]);
    }
  }

  /** Every schedule ends: it is no longer than four steps a slot, one a worker and one to close. */
  lemma {:induction false} SchedulesEnd(site: Site, p: Pool, steps: seq<Step>)
    requires p.next <= |p.jobs| && IsRun(site, p, steps)
    ensures |steps| <= Left(p)
    decreases |steps|
  {
    if steps != [] {
      StepUsesUp(site, p, steps[0]);
      SchedulesEnd(site, Apply(site, p, steps[0]), steps[1..]);
    }
  }

  /** The feeder's nested loop names every slot once. */
  method FeedOrder(counts: seq<nat>) returns (jobs: seq<Job>)
    ensures Distinct(jobs)
    ensures forall d: nat, r: nat :: Job(d, r) in jobs <==> d < |counts| && r < counts[d]
  {
    jobs := [];
    for d := 0 to |counts|
      invariant Distinct(jobs)
      invariant forall e: nat, r: nat :: Job(e, r) in jobs <==> e < d && r < counts[e]
    {
      for r := 0 to counts[d]
        invariant Distinct(jobs)
        invariant forall e: nat, q: nat :: Job(e, q) in jobs <==> (e < d && q < counts[e]) || (e == d && q < r)
      {
        assert Job(d, r) !in jobs;
        jobs := jobs + [Job(d, r)];
      }
    }
  }
}
