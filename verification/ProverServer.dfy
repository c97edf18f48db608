/**
 The prover's job server: a job table, a bounded queue, one worker, and receipts
 that can be pulled once. Each lock section is one step; steps of any number of
 clients interleave freely.
 */
module ProverServer {
  import opened Wrappers

  type JobId = nat

  const QUEUE_CAPACITY := 100

  datatype Status = Pending | Processing | Complete | Failed | Cancelled
  {
    predicate Terminal() { Complete? || Failed? || Cancelled? }
  }

  datatype Job<Req, Rec> = Job(
    request: Req,
    status: Status,
    receipt: Option<Rec>,
    error: Option<string>,
    cancelRequested: bool)

  /** What the worker and the receipt endpoint reported. */
  datatype Event =
    | Started(job: JobId) | Skipped(job: JobId) | WorkerNotFound(job: JobId)
    | Delivered(job: JobId) | ReceiptNotAvailable(job: JobId) | PullNotFound(job: JobId)

  datatype Server<Req, Rec> = Server(
    jobs: map<JobId, Job<Req, Rec>>,
    nextJob: JobId,               // fresh ids
    unsent: set<JobId>,           // in the table, not yet in the queue
    queue: seq<JobId>,
    running: Option<JobId>,       // what the worker is proving
    checked: set<JobId>,          // pulls that saw Complete and may go on to take the receipt
    log: seq<Event>)

  function Empty<Req, Rec>(): Server<Req, Rec> {
    Server(map[], 0, {}, [], None, {}, [])
  }

  // Steps

  function Insert<Req, Rec>(s: Server<Req, Rec>, request: Req): Server<Req, Rec> {
    s.(jobs := s.jobs[s.nextJob := Job(request, Pending, None, None, false)],
       nextJob := s.nextJob + 1,
       unsent := s.unsent + {s.nextJob})
  }

  /** The channel send of a submission, which waits while the queue is full. */
  function Send<Req, Rec>(s: Server<Req, Rec>, job: JobId): Server<Req, Rec> {
    if job in s.unsent && |s.queue| < QUEUE_CAPACITY
    then s.(queue := s.queue + [job], unsent := s.unsent - {job})
    else s
  }

  datatype CancelAnswer = NotFound | Conflict(status: Status) | WasQueued | WasRunning

  function CancelAnswerFor<Req, Rec>(s: Server<Req, Rec>, job: JobId): CancelAnswer {
    if job !in s.jobs then NotFound
    else match s.jobs[job].status
      case Pending => WasQueued
      case Processing => WasRunning
      case st => Conflict(st)
  }

  function Cancel<Req, Rec>(s: Server<Req, Rec>, job: JobId): Server<Req, Rec> {
    match CancelAnswerFor(s, job)
    case WasQueued => s.(jobs := s.jobs[job := s.jobs[job].(cancelRequested := true, status := Cancelled)])
    case WasRunning => s.(jobs := s.jobs[job := s.jobs[job].(cancelRequested := true)])
    case _ => s
  }

  /** First lock section of a receipt pull. */
  function CheckComplete<Req, Rec>(s: Server<Req, Rec>, job: JobId): Server<Req, Rec> {
    if job in s.jobs && s.jobs[job].status == Complete then s.(checked := s.checked + {job}) else s
  }

  /** Second lock section of a receipt pull. */
  function TakeReceipt<Req, Rec>(s: Server<Req, Rec>, job: JobId): Server<Req, Rec> {
    if job !in s.checked then s
    else if job !in s.jobs then s.(log := s.log + [PullNotFound(job)])
    else s.(jobs := s.jobs - {job},
            log := s.log + [if s.jobs[job].receipt.Some? then Delivered(job) else ReceiptNotAvailable(job)])
  }

  /** The worker takes the next id off the queue. */
  function Receive<Req, Rec>(s: Server<Req, Rec>): Server<Req, Rec> {
    if s.running.Some? || s.queue == [] then s
    else
      var job := s.queue[0];
      var t := s.(queue := s.queue[1..]);
      if job !in s.jobs then t.(log := s.log + [WorkerNotFound(job)])
      else if s.jobs[job].cancelRequested then t.(log := s.log + [Skipped(job)])
      else t.(jobs := s.jobs[job := s.jobs[job].(status := Processing)], running := Some(job), log := s.log + [Started(job)])
  }

  function Outcome<Req, Rec>(job: Job<Req, Rec>, result: Result<Rec, string>): Job<Req, Rec> {
    match result
    case Ok(receipt) =>
      if job.cancelRequested then job.(status := Cancelled) else job.(status := Complete, receipt := Some(receipt))
    case Err(e) =>
      if job.cancelRequested then job.(status := Cancelled) else job.(status := Failed, error := Some(e))
  }

  /** The worker records the outcome of the proof it was running. */
  function Finish<Req, Rec>(s: Server<Req, Rec>, result: Result<Rec, string>): Server<Req, Rec> {
    if s.running.None? then s
    else
      var job := s.running.value;
      var t := s.(running := None);
      if job in s.jobs then t.(jobs := s.jobs[job := Outcome(s.jobs[job], result)]) else t
  }

  datatype Action<Req, Rec> =
    | DoInsert(request: Req) | DoSend(job: JobId) | DoCancel(job: JobId)
    | DoCheck(job: JobId) | DoTake(job: JobId)
    | DoReceive | DoFinish(result: Result<Rec, string>)

  function Apply<Req, Rec>(s: Server<Req, Rec>, a: Action<Req, Rec>): Server<Req, Rec> {
    match a
    case DoInsert(request) => Insert(s, request)
    case DoSend(job) => Send(s, job)
    case DoCancel(job) => Cancel(s, job)
    case DoCheck(job) => CheckComplete(s, job)
    case DoTake(job) => TakeReceipt(s, job)
    case DoReceive => Receive(s)
    case DoFinish(result) => Finish(s, result)
  }

  function Run<Req, Rec>(s: Server<Req, Rec>, actions: seq<Action<Req, Rec>>): Server<Req, Rec> {
    if actions == [] then s
    else Apply(Run(s, actions[..|actions| - 1]), actions[|actions| - 1])
  }

  // The invariant

  ghost predicate Waiting<Req, Rec>(s: Server<Req, Rec>, job: JobId) {
    job in s.unsent || job in s.queue
  }

  /** Status, receipt, cancel flag and position of one job agree. */
  ghost predicate JobOk<Req, Rec>(s: Server<Req, Rec>, id: JobId)
    requires id in s.jobs
  {
    var job := s.jobs[id];
    && id < s.nextJob
    && (job.receipt.Some? <==> job.status == Complete)
    && (job.error.Some? <==> job.status == Failed)
    && (job.status == Processing <==> s.running == Some(id))
    && (job.status == Pending ==> Waiting(s, id) && !job.cancelRequested)
    && (job.status == Cancelled ==> job.cancelRequested)
    && (job.status == Complete || job.status == Failed ==> !job.cancelRequested)
    && (Waiting(s, id) ==> job.status == Pending || job.status == Cancelled)
    && (id in s.checked ==> job.status == Complete)
    && Delivered(id) !in s.log
    && (Waiting(s, id) ==> Started(id) !in s.log && Skipped(id) !in s.log)
    && (Started(id) in s.log ==> Skipped(id) !in s.log)
  }

  ghost predicate Positions<Req, Rec>(s: Server<Req, Rec>) {
    && (forall id :: Waiting(s, id) ==> id in s.jobs)
    && (s.running.Some? ==> s.running.value in s.jobs)
    && (forall i, j :: 0 <= i < j < |s.queue| ==> s.queue[i] != s.queue[j])
    && (forall id :: id in s.queue ==> id !in s.unsent)
    && |s.queue| <= QUEUE_CAPACITY
  }

  /** Every job started at most once, every receipt delivered at most once, and two answers never given. */
  ghost predicate LogOk<Req, Rec>(s: Server<Req, Rec>) {
    && (forall i :: 0 <= i < |s.log| ==> !s.log[i].WorkerNotFound? && !s.log[i].ReceiptNotAvailable? && s.log[i].job < s.nextJob)
    && (forall i, j :: 0 <= i < j < |s.log| && (s.log[i].Delivered? || s.log[i].Started?) ==> s.log[i] != s.log[j])
    && (forall id :: Started(id) in s.log && Skipped(id) in s.log ==> false)
    && (forall id :: id in s.checked ==> id < s.nextJob)
  }

  ghost predicate Inv<Req, Rec>(s: Server<Req, Rec>) {
    && Positions(s) && LogOk(s)
    && forall id :: id in s.jobs ==> JobOk(s, id)
  }

  // Every step keeps it

  lemma InsertInv<Req, Rec>(s: Server<Req, Rec>, request: Req)
    requires Inv(s)
    ensures Inv(Insert(s, request))
  {
    var t := Insert(s, request);
    forall id | id in s.jobs ensures id < s.nextJob {
      assert JobOk(s, id);
    }
    assert !Waiting(s, s.nextJob);
    forall id | id in t.jobs ensures JobOk(t, id) {
      if id in s.jobs { assert JobOk(s, id); }
    }
  }

  lemma SendInv<Req, Rec>(s: Server<Req, Rec>, job: JobId)
    requires Inv(s)
    ensures Inv(Send(s, job))
  {
    var t := Send(s, job);
    forall id | id in t.jobs ensures JobOk(t, id) {
      assert JobOk(s, id);
      assert Waiting(t, id) ==> Waiting(s, id);
      assert Waiting(s, id) ==> Waiting(t, id);
    }
    forall id | Waiting(t, id) ensures id in t.jobs {
      assert Waiting(s, id);
    }
  }

  lemma CancelInv<Req, Rec>(s: Server<Req, Rec>, job: JobId)
    requires Inv(s)
    ensures Inv(Cancel(s, job))
  {
    var t := Cancel(s, job);
    forall id | id in t.jobs ensures JobOk(t, id) {
      assert JobOk(s, id);
      assert Waiting(t, id) <==> Waiting(s, id);
    }
    forall id | Waiting(t, id) ensures id in t.jobs {
      assert Waiting(s, id);
    }
  }

  lemma CheckInv<Req, Rec>(s: Server<Req, Rec>, job: JobId)
    requires Inv(s)
    ensures Inv(CheckComplete(s, job))
  {
    var t := CheckComplete(s, job);
    forall id | id in t.jobs ensures JobOk(t, id) {
      assert JobOk(s, id);
      assert Waiting(t, id) <==> Waiting(s, id);
    }
    forall id | Waiting(t, id) ensures id in t.jobs {
      assert Waiting(s, id);
    }
  }

  lemma TakeInv<Req, Rec>(s: Server<Req, Rec>, job: JobId)
    requires Inv(s)
    ensures Inv(TakeReceipt(s, job))
  {
    var t := TakeReceipt(s, job);
    if job in s.checked && job in s.jobs {
      assert JobOk(s, job);
    }
    forall id | id in t.jobs ensures JobOk(t, id) {
      assert JobOk(s, id);
      assert Waiting(t, id) <==> Waiting(s, id);
    }
    forall id | Waiting(t, id) ensures id in t.jobs {
      assert Waiting(s, id);
      assert JobOk(s, id);
    }
  }

  lemma ReceiveInv<Req, Rec>(s: Server<Req, Rec>)
    requires Inv(s)
    ensures Inv(Receive(s))
  {
    if s.running.None? && s.queue != [] {
      var job := s.queue[0];
      var t := Receive(s);
      assert Waiting(s, job);
      assert JobOk(s, job);
      forall id | id in t.jobs ensures JobOk(t, id) {
        assert JobOk(s, id);
        assert Waiting(t, id) <==> Waiting(s, id) && id != job;
      }
      forall id | Waiting(t, id) ensures id in t.jobs {
        assert Waiting(s, id);
      }
    }
  }

  lemma FinishInv<Req, Rec>(s: Server<Req, Rec>, result: Result<Rec, string>)
    requires Inv(s)
    ensures Inv(Finish(s, result))
  {
    var t := Finish(s, result);
    forall id | id in t.jobs ensures JobOk(t, id) {
      assert JobOk(s, id);
      assert Waiting(t, id) <==> Waiting(s, id);
    }
    forall id | Waiting(t, id) ensures id in t.jobs {
      assert Waiting(s, id);
    }
  }

  lemma StepInv<Req, Rec>(s: Server<Req, Rec>, a: Action<Req, Rec>)
    requires Inv(s)
    ensures Inv(Apply(s, a))
  {
    match a
    case DoInsert(request) => InsertInv(s, request);
    case DoSend(job) => SendInv(s, job);
    case DoCancel(job) => CancelInv(s, job);
    case DoCheck(job) => CheckInv(s, job);
    case DoTake(job) => TakeInv(s, job);
    case DoReceive => ReceiveInv(s);
    case DoFinish(result) => FinishInv(s, result);
  }

  // What later states keep

  /**
   A job keeps its request and never leaves a terminal status; a cancel request is never withdrawn; only a
   completed job leaves the table, and none comes back; a job cancelled before it started never starts.
   */
  ghost predicate Advances<Req, Rec>(s: Server<Req, Rec>, t: Server<Req, Rec>) {
    && s.nextJob <= t.nextJob
    && s.log <= t.log
    && (forall id :: id < s.nextJob && id !in s.jobs ==> id !in t.jobs)
    && (forall id :: id in s.jobs ==> JobAdvances(s, t, id))
  }

  ghost predicate JobAdvances<Req, Rec>(s: Server<Req, Rec>, t: Server<Req, Rec>, id: JobId)
    requires id in s.jobs
  {
    var job := s.jobs[id];
    && (id in t.jobs ==>
          && t.jobs[id].request == job.request
          && (job.status.Terminal() ==> t.jobs[id] == job)
          && (job.cancelRequested ==> t.jobs[id].cancelRequested))
    && (id !in t.jobs ==> !job.cancelRequested && (job.status.Terminal() ==> job.status == Complete))
    && (job.status == Cancelled && Started(id) !in s.log ==> Started(id) !in t.log)
  }

  lemma StepAdvances<Req, Rec>(s: Server<Req, Rec>, a: Action<Req, Rec>)
    requires Inv(s)
    ensures Advances(s, Apply(s, a))
  {
    assert forall id :: id in s.jobs ==> JobOk(s, id);
    match a
    case DoReceive => ReceiveAdvances(s);
    case DoInsert(_) =>
    case DoSend(_) =>
    case DoCancel(job) => assert Advances(s, Cancel(s, job));
    case DoCheck(_) =>
    case DoTake(job) => assert Advances(s, TakeReceipt(s, job));
    case DoFinish(result) => assert Advances(s, Finish(s, result));
  }

  lemma ReceiveAdvances<Req, Rec>(s: Server<Req, Rec>)
    requires Inv(s)
    ensures Advances(s, Receive(s))
  {
    assert forall id :: id in s.jobs ==> JobOk(s, id);
    if s.queue != [] {
      assert Waiting(s, s.queue[0]);
    }
  }

  lemma AdvancesOn<Req, Rec>(s: Server<Req, Rec>, t: Server<Req, Rec>, u: Server<Req, Rec>)
    requires Inv(s) && Advances(s, t) && Advances(t, u)
    ensures Advances(s, u)
  {
    forall id | id in s.jobs ensures JobAdvances(s, u, id) {
      assert JobOk(s, id) && JobAdvances(s, t, id);
      if id in t.jobs {
        assert JobAdvances(t, u, id);
      }
    }
    forall id | id < s.nextJob && id !in s.jobs ensures id !in u.jobs {
      assert id !in t.jobs;
    }
  }

  /** From a consistent state, whatever happens: the invariant holds and nothing settled is unsettled. */
  lemma {:induction false} RunAdvances<Req, Rec>(s: Server<Req, Rec>, actions: seq<Action<Req, Rec>>)
    requires Inv(s)
    ensures Inv(Run(s, actions)) && Advances(s, Run(s, actions))
  {
    if actions != [] {
      var init := actions[..|actions| - 1];
      RunAdvances(s, init);
      var t := Run(s, init);
      StepInv(t, actions[|actions| - 1]);
      StepAdvances(t, actions[|actions| - 1]);
      AdvancesOn(s, t, Run(s, actions));
    }
  }

  // Main results

  /** In every reachable state at most one job is being processed, and a receipt is there exactly for complete jobs. */
  lemma ReachableJobs<Req, Rec>(actions: seq<Action<Req, Rec>>, a: JobId, b: JobId)
    ensures var t := Run(Empty<Req, Rec>(), actions);
      && (a in t.jobs ==> (t.jobs[a].receipt.Some? <==> t.jobs[a].status == Complete) && (t.jobs[a].error.Some? <==> t.jobs[a].status == Failed))
      && (a in t.jobs && b in t.jobs && t.jobs[a].status == Processing && t.jobs[b].status == Processing ==> a == b)
  {
    var t := Run(Empty<Req, Rec>(), actions);
    RunAdvances(Empty<Req, Rec>(), actions);
    if a in t.jobs { assert JobOk(t, a); }
    if b in t.jobs { assert JobOk(t, b); }
  }

  /** The worker never misses a job, and a pull that passed the check never lacks its receipt. */
  lemma ReachableLog<Req, Rec>(actions: seq<Action<Req, Rec>>, i: nat)
    requires i < |Run(Empty<Req, Rec>(), actions).log|
    ensures var log := Run(Empty<Req, Rec>(), actions).log; !log[i].WorkerNotFound? && !log[i].ReceiptNotAvailable?
  {
    RunAdvances(Empty<Req, Rec>(), actions);
  }

  /** No receipt is handed out twice, and no job is started twice. */
  lemma AtMostOnce<Req, Rec>(actions: seq<Action<Req, Rec>>, i: nat, j: nat)
    requires i < j < |Run(Empty<Req, Rec>(), actions).log|
    ensures var log := Run(Empty<Req, Rec>(), actions).log;
      && (log[i].Delivered? && log[j].Delivered? ==> log[i].job != log[j].job)
      && (log[i].Started? && log[j].Started? ==> log[i].job != log[j].job)
  {
    RunAdvances(Empty<Req, Rec>(), actions);
  }

  /** A cancel is accepted exactly for a job that has not ended; it reaches the one that runs and any that waits, and no other job. */
  lemma CancelIs<Req, Rec>(s: Server<Req, Rec>, job: JobId)
    requires Inv(s)
    ensures CancelAnswerFor(s, job) == NotFound <==> job !in s.jobs
    ensures CancelAnswerFor(s, job) == WasRunning <==> s.running == Some(job)
    ensures CancelAnswerFor(s, job) == WasQueued <==> job in s.jobs && s.jobs[job].status == Pending
    ensures job in s.jobs && s.jobs[job].status.Terminal() ==> CancelAnswerFor(s, job) == Conflict(s.jobs[job].status)
    ensures CancelAnswerFor(s, job) !in {WasQueued, WasRunning} ==> Cancel(s, job) == s
    ensures CancelAnswerFor(s, job) in {WasQueued, WasRunning} ==>
      Cancel(s, job) == s.(jobs := s.jobs[job :=
        s.jobs[job].(cancelRequested := true, status := if s.running == Some(job) then Processing else Cancelled)])
  {
    if job in s.jobs {
      assert JobOk(s, job);
    }
  }

  /** Once the cancel of a job that had not ended came in, the job stays in the table, is never complete, and its receipt is never handed out. */
  lemma CancelledNeverCompletes<Req, Rec>(s: Server<Req, Rec>, job: JobId, actions: seq<Action<Req, Rec>>)
    requires Inv(s) && job in s.jobs && !s.jobs[job].status.Terminal()
    ensures CancelAnswerFor(s, job) in {WasQueued, WasRunning}
    ensures var t := Run(Cancel(s, job), actions);
      job in t.jobs && t.jobs[job].status != Complete && t.jobs[job].receipt.None? && Delivered(job) !in t.log
  {
    var c := Cancel(s, job);
    CancelInv(s, job);
    RunAdvances(c, actions);
    var t := Run(c, actions);
    assert JobAdvances(c, t, job);
    assert JobOk(t, job);
  }

  /** A job cancelled while it was queued never runs. */
  lemma CancelledInQueueNeverRuns<Req, Rec>(s: Server<Req, Rec>, job: JobId, actions: seq<Action<Req, Rec>>)
    requires Inv(s) && CancelAnswerFor(s, job) == WasQueued
    ensures Started(job) !in Run(Cancel(s, job), actions).log
    ensures job in Run(Cancel(s, job), actions).jobs && Run(Cancel(s, job), actions).jobs[job].status == Cancelled
  {
    assert JobOk(s, job);
    var c := Cancel(s, job);
    CancelInv(s, job);
    RunAdvances(c, actions);
    assert JobAdvances(c, Run(c, actions), job);
  }

  /** A job that failed, was cancelled or completed stays just so for as long as it is in the table. */
  lemma TerminalForever<Req, Rec>(s: Server<Req, Rec>, job: JobId, actions: seq<Action<Req, Rec>>)
    requires Inv(s) && job in s.jobs && s.jobs[job].status.Terminal()
    ensures var t := Run(s, actions);
      && (job in t.jobs ==> t.jobs[job] == s.jobs[job])
      && (job !in t.jobs ==> s.jobs[job].status == Complete)
  {
    RunAdvances(s, actions);
    assert JobAdvances(s, Run(s, actions), job);
  }

  /** The jobs that the worker took off the queue, in the order in which it did. */
  function Taken(log: seq<Event>): seq<JobId> {
    if log == [] then []
    else
      var e := log[|log| - 1];
      Taken(log[..|log| - 1]) + (if e.Started? || e.Skipped? || e.WorkerNotFound? then [e.job] else [])
  }

  lemma TakenOn(log: seq<Event>, e: Event)
    ensures Taken(log + [e]) == Taken(log) + if e.Started? || e.Skipped? || e.WorkerNotFound? then [e.job] else []
  {
    assert (log + [e])[..|log|] == log;
  }

  lemma StepInOrder<Req, Rec>(s: Server<Req, Rec>, a: Action<Req, Rec>)
    ensures Taken(s.log) + s.queue <= Taken(Apply(s, a).log) + Apply(s, a).queue
  {
    match a
    case DoReceive => ReceiveInOrder(s);
    case DoTake(job) => TakeInOrder(s, job);
    case DoSend(job) => assert Send(s, job).queue == s.queue || Send(s, job).queue == s.queue + [job];
    case DoInsert(_) =>
    case DoCancel(_) =>
    case DoCheck(_) =>
    case DoFinish(_) =>
  }

  lemma TakeInOrder<Req, Rec>(s: Server<Req, Rec>, job: JobId)
    ensures Taken(TakeReceipt(s, job).log) == Taken(s.log) && TakeReceipt(s, job).queue == s.queue
  {
    TakenOn(s.log, PullNotFound(job));
    TakenOn(s.log, Delivered(job));
    TakenOn(s.log, ReceiptNotAvailable(job));
  }

  lemma ReceiveInOrder<Req, Rec>(s: Server<Req, Rec>)
    ensures Taken(Receive(s).log) + Receive(s).queue == Taken(s.log) + s.queue
  {
    if s.running.None? && s.queue != [] {
      var t, job := Receive(s), s.queue[0];
      assert s.queue == [job] + t.queue;
      assert Taken(t.log) == Taken(s.log) + [job] by {
        TakenOn(s.log, Started(job));
        TakenOn(s.log, Skipped(job));
        TakenOn(s.log, WorkerNotFound(job));
      }
    }
  }

  /** First in, first out: what was queued is taken in the order of the queue, before anything that is queued later. */
  lemma {:induction false} FirstInFirstOut<Req, Rec>(s: Server<Req, Rec>, actions: seq<Action<Req, Rec>>)
    ensures Taken(s.log) + s.queue <= Taken(Run(s, actions).log) + Run(s, actions).queue
  {
    if actions != [] {
      FirstInFirstOut(s, actions[..|actions| - 1]);
      StepInOrder(Run(s, actions[..|actions| - 1]), actions[|actions| - 1]);
    }
  }

  /** The job that was running ends in one of four ways; no other job changes. */
  lemma FinishIs<Req, Rec>(s: Server<Req, Rec>, result: Result<Rec, string>)
    requires Inv(s) && s.running.Some?
    ensures var id, t := s.running.value, Finish(s, result);
      && id in s.jobs && t == s.(running := None, jobs := s.jobs[id := t.jobs[id]])
      && var job, after := s.jobs[id], t.jobs[id];
         && after.request == job.request && after.cancelRequested == job.cancelRequested
         && (job.cancelRequested ==> after.status == Cancelled && after.receipt.None? && after.error.None?)
         && (!job.cancelRequested && result.Ok? ==> after.status == Complete && after.receipt == Some(result.value) && after.error.None?)
         && (!job.cancelRequested && result.Err? ==> after.status == Failed && after.receipt.None? && after.error == Some(result.error))
  {
    assert JobOk(s, s.running.value);
  }

  /** An idle server: what is submitted is started, completed with the prover's receipt, and delivered once. */
  lemma SubmittedIsDelivered<Req, Rec>(s: Server<Req, Rec>, request: Req, receipt: Rec)
    requires Inv(s) && s.running.None? && s.queue == []
    ensures var job := s.nextJob;
      var proved := Finish(Receive(Send(Insert(s, request), job)), Ok(receipt));
      && job in proved.jobs && proved.jobs[job] == Job(request, Complete, Some(receipt), None, false)
      && TakeReceipt(CheckComplete(proved, job), job).log == s.log + [Started(job), Delivered(job)]
      && job !in TakeReceipt(CheckComplete(proved, job), job).jobs
  {
    var job := s.nextJob;
    var sent := Send(Insert(s, request), job);
    assert sent.queue == [job] && sent.queue[0] == job;
    var started := Receive(sent);
    assert started.running == Some(job) && started.log == s.log + [Started(job)];
    var proved := Finish(started, Ok(receipt));
    assert proved.jobs[job] == Job(request, Complete, Some(receipt), None, false);
    assert s.log + [Started(job)] + [Delivered(job)] == s.log + [Started(job), Delivered(job)];
  }

  // The server itself

  /**
   The shared state behind the endpoints. What the source keeps in the local variables of handlers and of the
   worker loop, and the log of what they reported, are ghost fields here.
   */
  class JobServer<Req, Rec> {
    var jobs: map<JobId, Job<Req, Rec>>
    var nextJob: JobId
    var queue: seq<JobId>
    ghost var unsent: set<JobId>
    ghost var running: Option<JobId>
    ghost var checked: set<JobId>
    ghost var log: seq<Event>

    ghost function View(): Server<Req, Rec>
      reads this
    {
      Server(jobs, nextJob, unsent, queue, running, checked, log)
    }

    constructor ()
      ensures View() == Empty<Req, Rec>()
    {
      jobs, nextJob, queue := map[], 0, [];
      unsent, running, checked, log := {}, None, {}, [];
    }

    /** POST /prove, up to the job being in the table. */
    method SubmitProve(request: Req) returns (job: JobId)
      modifies this
      ensures View() == Insert(old(View()), request) && job == old(nextJob)
    {
      job := nextJob;
      jobs := jobs[job := Job(request, Pending, None, None, false)];
      nextJob := nextJob + 1;
      unsent := unsent + {job};
    }

    /** The rest of a submission: notify the worker, when the channel has room. */
    method NotifyWorker(job: JobId) returns (sent: bool)
      requires job in unsent
      modifies this
      ensures View() == Send(old(View()), job)
      ensures sent <==> |old(queue)| < QUEUE_CAPACITY
    {
      sent := |queue| < QUEUE_CAPACITY;
      if sent {
        queue := queue + [job];
        unsent := unsent - {job};
      }
    }

    /** POST /jobs/:id/cancel */
    method CancelJob(job: JobId) returns (answer: CancelAnswer)
      modifies this
      ensures View() == Cancel(old(View()), job)
      ensures answer == CancelAnswerFor(old(View()), job)
    {
      if job !in jobs {
        return NotFound;
      }
      match jobs[job].status {
        case Pending =>
          jobs := jobs[job := jobs[job].(cancelRequested := true, status := Cancelled)];
          return WasQueued;
        case Processing =>
          jobs := jobs[job := jobs[job].(cancelRequested := true)];
          return WasRunning;
        case st => return Conflict(st);
      }
    }

    /** GET /jobs/:id/receipt, under the read lock. */
    method CheckReceipt(job: JobId) returns (goOn: bool)
      modifies this`checked
      ensures View() == CheckComplete(old(View()), job)
      ensures goOn <==> job in old(jobs) && old(jobs)[job].status == Complete
    {
      goOn := job in jobs && jobs[job].status == Complete;
      if goOn {
        checked := checked + {job};
      }
    }

    /** GET /jobs/:id/receipt, under the write lock: the job leaves the table with its receipt. */
    method PullReceipt(job: JobId) returns (receipt: Option<Rec>)
      requires job in checked
      modifies this
      ensures View() == TakeReceipt(old(View()), job)
      ensures receipt.Some? <==> job in old(jobs) && old(jobs)[job].receipt.Some?
      ensures receipt.Some? ==> receipt == old(jobs)[job].receipt && log == old(log) + [Delivered(job)]
    {
      if job !in jobs {
        log := log + [PullNotFound(job)];
        return None;
      }
      receipt := jobs[job].receipt;
      jobs := jobs - {job};
      log := log + [if receipt.Some? then Delivered(job) else ReceiptNotAvailable(job)];
    }

    /** The worker takes an id off the queue and marks the job as processing, unless it was cancelled meanwhile. */
    method WorkerReceive() returns (request: Option<(JobId, Req)>)
      requires queue != [] && running.None?
      modifies this
      ensures View() == Receive(old(View()))
      ensures request.Some? <==> running.Some?
      ensures request.Some? ==> running == Some(request.value.0) && request.value.0 in jobs && jobs[request.value.0].request == request.value.1
    {
      var job := queue[0];
      queue := queue[1..];
      if job !in jobs {
        log := log + [WorkerNotFound(job)];
        return None;
      }
      if jobs[job].cancelRequested {
        log := log + [Skipped(job)];
        return None;
      }
      jobs := jobs[job := jobs[job].(status := Processing)];
      running := Some(job);
      log := log + [Started(job)];
      return Some((job, jobs[job].request));
    }

    /** The worker records the result of the proof it ran. */
    method WorkerFinish(job: JobId, result: Result<Rec, string>)
      requires running == Some(job)
      modifies this
      ensures View() == Finish(old(View()), result)
    {
      if job in jobs {
        var cancelled := jobs[job].cancelRequested;
        match result {
          case Ok(receipt) =>
            if cancelled {
              jobs := jobs[job := jobs[job].(status := Cancelled)];
            } else {
              jobs := jobs[job := jobs[job].(status := Complete, receipt := Some(receipt))];
            }
          case Err(e) =>
            if cancelled {
              jobs := jobs[job := jobs[job].(status := Cancelled)];
            } else {
              jobs := jobs[job := jobs[job].(status := Failed, error := Some(e))];
            }
        }
      }
      running := None;
    }
  }
}
