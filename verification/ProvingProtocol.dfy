/**
 Proving as a protocol: the ledger, the prover's job server, the job keys that the
 operator keeps, and any number of pushers and pollers in between. Every remote
 call and every key or receipt write is a step of its own, so pushes, double
 pushes, cancels, polls, worker steps, prover restarts, rollbacks and new commits
 interleave freely.
 */
module ProvingProtocol {
  import opened Wrappers
  import opened Tables
  import opened ZkBatch
  import opened Ledgers
  import opened LedgerProofs
  import opened Proving
  import LedgerRuns
  import Replaying
  import Server = ProverServer

  type JobId = Server.JobId

  /** job:<space>:<commitment id>:<step|fold> */
  datatype Key = Key(id: nat, isFold: bool)

  function KeyOf(req: Request): Key {
    Key(req.id, req.FoldRequest?)
  }

  /** A receipt that a poller holds, under the key it polled. `answers` is the request of the job it came from. */
  datatype Pull = Pull(key: Key, answers: Request, receipt: Receipt)

  datatype System = System(
    ledger: Ledger,
    server: Server.Server<Request, Receipt>,
    issued: set<Request>,         // requests that someone read and may still push
    bound: set<(Key, JobId)>,     // jobs that were submitted for a key; a push or a poller may still act on them
    keys: map<Key, JobId>,        // the config table
    pulls: set<Pull>)             // receipts on their way into the ledger

  const INITIAL := System(EMPTY, Server.Empty(), {}, {}, map[], {})

  datatype Action =
    | OnLedger(a: LedgerRuns.Action)
    | ReadRequest                                   // push, poll, cancel: ask for the next request
    | Submit(req: Request)                          // push: the prover accepts it as a new job
    | SendJob(job: JobId)
    | SetKey(key: Key, job: JobId)                  // push: store the job id
    | Cancel(job: JobId)
    | DeleteKey(key: Key)                           // cancel, rollback, poll
    | WorkerReceive
    | WorkerDone                                    // the proof succeeded
    | WorkerFailed(error: string)
    | CheckJob(job: JobId)
    | PullReceipt(key: Key, job: JobId)             // poll: the receipt leaves the prover
    | SavePulled(pull: Pull)                        // poll: the receipt enters the ledger
    | RestartProver                                 // its job table is in memory

  ghost function Apply(h: Hasher, s: System, a: Action): System {
    match a
    case OnLedger(b) => if b.Save? then s else s.(ledger := LedgerRuns.Apply(h, s.ledger, b))
    case ReadRequest =>
      (match NextRequest(s.ledger)
       case Ok(Some(req)) => s.(issued := s.issued + {req})
       case _ => s)
    case Submit(req) =>
      if req in s.issued
      then s.(server := Server.Insert(s.server, req), bound := s.bound + {(KeyOf(req), s.server.nextJob)})
      else s
    case SendJob(job) => s.(server := Server.Send(s.server, job))
    case SetKey(key, job) => if (key, job) in s.bound then s.(keys := s.keys[key := job]) else s
    case Cancel(job) => s.(server := Server.Cancel(s.server, job))
    case DeleteKey(key) => s.(keys := s.keys - {key})
    case WorkerReceive => s.(server := Server.Receive(s.server))
    case WorkerDone =>
      var job := s.server.running;
      if job.Some? && job.value in s.server.jobs && Prove(h, s.server.jobs[job.value].request).Some?
      then s.(server := Server.Finish(s.server, Ok(Prove(h, s.server.jobs[job.value].request).value)))
      else s
    case WorkerFailed(e) => s.(server := Server.Finish(s.server, Err(e)))
    case CheckJob(job) => s.(server := Server.CheckComplete(s.server, job))
    case PullReceipt(key, job) =>
      if (key, job) in s.bound && job in s.server.checked && job in s.server.jobs && s.server.jobs[job].receipt.Some?
      then s.(server := Server.TakeReceipt(s.server, job),
              pulls := s.pulls + {Pull(key, s.server.jobs[job].request, s.server.jobs[job].receipt.value)})
      else s
    case SavePulled(p) =>
      if p in s.pulls then s.(ledger := LedgerRuns.OrSame(s.ledger, SaveReceipt(s.ledger, p.key.id, p.key.isFold, p.receipt)))
      else s
    case RestartProver => s.(server := Server.Empty<Request, Receipt>().(nextJob := s.server.nextJob))
  }

  ghost function Run(h: Hasher, actions: seq<Action>): System {
    if actions == [] then INITIAL
    else Apply(h, Run(h, actions[..|actions| - 1]), actions[|actions| - 1])
  }

  // The invariant

  ghost predicate JobSound(h: Hasher, l: Ledger, job: Server.Job<Request, Receipt>)
    requires |l.snaps| == |l.commits|
  {
    Sound(l, job.request) && (job.receipt.Some? ==> Prove(h, job.request) == job.receipt)
  }

  ghost predicate PullSound(h: Hasher, l: Ledger, p: Pull)
    requires |l.snaps| == |l.commits|
  {
    KeyOf(p.answers) == p.key && Sound(l, p.answers) && Prove(h, p.answers) == Some(p.receipt)
  }

  /** A job id belongs to one key for good: its own request's. */
  ghost predicate BoundOk(server: Server.Server<Request, Receipt>, key: Key, job: JobId) {
    job < server.nextJob && (job in server.jobs ==> KeyOf(server.jobs[job].request) == key)
  }

  ghost predicate ServerOk(h: Hasher, s: System)
    requires |s.ledger.snaps| == |s.ledger.commits|
  {
    && (forall id :: id in s.server.jobs ==> id < s.server.nextJob && JobSound(h, s.ledger, s.server.jobs[id]))
    && (forall b :: b in s.bound ==> BoundOk(s.server, b.0, b.1))
  }

  ghost predicate Safe(h: Hasher, s: System) {
    && Inv(s.ledger) && Proven(s.ledger)
    && (forall req :: req in s.issued ==> Sound(s.ledger, req))
    && (forall p :: p in s.pulls ==> PullSound(h, s.ledger, p))
    && ServerOk(h, s)
    && (forall k :: k in s.keys ==> (k, s.keys[k]) in s.bound)
  }

  /** A later ledger, with its own receipts in order, keeps everything in flight sound. */
  lemma LaterSafe(h: Hasher, s: System, m: Ledger)
    requires Safe(h, s) && Inv(m) && Proven(m) && Later(s.ledger, m)
    ensures Safe(h, s.(ledger := m))
  {
    forall req | req in s.issued ensures Sound(m, req) {
      SoundLater(s.ledger, m, req);
    }
    forall p | p in s.pulls ensures PullSound(h, m, p) {
      SoundLater(s.ledger, m, p.answers);
    }
    forall id | id in s.server.jobs ensures JobSound(h, m, s.server.jobs[id]) {
      SoundLater(s.ledger, m, s.server.jobs[id].request);
    }
  }

  lemma SaveSafe(h: Hasher, s: System, p: Pull)
    requires Safe(h, s) && p in s.pulls
    ensures Safe(h, Apply(h, s, SavePulled(p)))
    ensures Later(s.ledger, Apply(h, s, SavePulled(p)).ledger)
  {
    var m := LedgerRuns.OrSame(s.ledger, SaveReceipt(s.ledger, p.key.id, p.key.isFold, p.receipt));
    assert PullSound(h, s.ledger, p);
    LedgerRuns.SaveOutcome(s.ledger, p.key.id, p.key.isFold, p.receipt);
    SaveKeepsProven(h, s.ledger, p.answers, p.receipt);
    LedgerRuns.StepLater(h, s.ledger, m);
    LaterSafe(h, s, m);
  }

  /** Server steps add no job, rename none and change no request; a receipt appears only as the proof of its request. */
  ghost predicate JobsKept(h: Hasher, s: Server.Server<Request, Receipt>, t: Server.Server<Request, Receipt>) {
    && t.nextJob == s.nextJob
    && forall id :: id in t.jobs ==>
         && id in s.jobs
         && t.jobs[id].request == s.jobs[id].request
         && (t.jobs[id].receipt == s.jobs[id].receipt || t.jobs[id].receipt == Prove(h, s.jobs[id].request))
  }

  lemma ServerSafe(h: Hasher, s: System, t: Server.Server<Request, Receipt>)
    requires Safe(h, s) && JobsKept(h, s.server, t)
    ensures Safe(h, s.(server := t))
  {
    forall id | id in t.jobs ensures id < t.nextJob && JobSound(h, s.ledger, t.jobs[id]) {
      assert JobSound(h, s.ledger, s.server.jobs[id]);
    }
    forall b | b in s.bound ensures BoundOk(t, b.0, b.1) {
      assert BoundOk(s.server, b.0, b.1);
    }
  }

  lemma SubmitSafe(h: Hasher, s: System, req: Request)
    requires Safe(h, s) && req in s.issued
    ensures Safe(h, Apply(h, s, Submit(req)))
  {
    var t := Apply(h, s, Submit(req));
    forall b | b in t.bound ensures BoundOk(t.server, b.0, b.1) {
      if b in s.bound {
        assert BoundOk(s.server, b.0, b.1);
      }
    }
  }

  lemma PullSafe(h: Hasher, s: System, key: Key, job: JobId)
    requires Safe(h, s)
    ensures Safe(h, Apply(h, s, PullReceipt(key, job)))
  {
    var t := Apply(h, s, PullReceipt(key, job));
    if t != s {
      assert BoundOk(s.server, key, job) && JobSound(h, s.ledger, s.server.jobs[job]);
      ServerSafe(h, s, Server.TakeReceipt(s.server, job));
    }
  }

  lemma OnLedgerSafe(h: Hasher, s: System, b: LedgerRuns.Action)
    requires Safe(h, s) && !b.Save?
    ensures Safe(h, s.(ledger := LedgerRuns.Apply(h, s.ledger, b)))
    ensures Later(s.ledger, LedgerRuns.Apply(h, s.ledger, b))
  {
    LedgerRuns.ApplyInv(h, s.ledger, b);
    LedgerRuns.ApplyProven(h, s.ledger, b);
    LaterSafe(h, s, LedgerRuns.Apply(h, s.ledger, b));
  }

  predicate ServerStep(a: Action) {
    a.SendJob? || a.Cancel? || a.WorkerReceive? || a.WorkerDone? || a.WorkerFailed? || a.CheckJob? || a.RestartProver?
  }

  lemma ServerStepSafe(h: Hasher, s: System, a: Action)
    requires Safe(h, s) && ServerStep(a)
    ensures Safe(h, Apply(h, s, a))
  {
    ServerStepKeeps(h, s, a);
    ServerSafe(h, s, Apply(h, s, a).server);
  }

  lemma ServerStepKeeps(h: Hasher, s: System, a: Action)
    requires ServerStep(a)
    ensures JobsKept(h, s.server, Apply(h, s, a).server) && Apply(h, s, a) == s.(server := Apply(h, s, a).server)
  {
    match a
    case SendJob(job) =>
    case Cancel(job) => assert JobsKept(h, s.server, Server.Cancel(s.server, job));
    case WorkerReceive => assert JobsKept(h, s.server, Server.Receive(s.server));
    case WorkerDone =>
    case WorkerFailed(e) => assert JobsKept(h, s.server, Server.Finish(s.server, Err(e)));
    case CheckJob(job) =>
    case RestartProver =>
  }

  lemma StepSafe(h: Hasher, s: System, a: Action)
    requires Safe(h, s)
    ensures Safe(h, Apply(h, s, a))
  {
    match a
    case OnLedger(b) =>
      if !b.Save? {
        OnLedgerSafe(h, s, b);
      }
    case ReadRequest =>
      if NextRequest(s.ledger).Ok? && NextRequest(s.ledger).value.Some? {
        IssuedIsSound(s.ledger);
      }
    case Submit(req) =>
      if req in s.issued {
        SubmitSafe(h, s, req);
      }
    case PullReceipt(key, job) => PullSafe(h, s, key, job);
    case SavePulled(p) =>
      if p in s.pulls {
        SaveSafe(h, s, p);
      }
    case SetKey(_, _) =>
    case DeleteKey(_) =>
    case _ => ServerStepSafe(h, s, a);
  }

  // Main results

  /** Under every interleaving, what is attached to a commitment certifies that commitment. */
  lemma {:induction false} AlwaysSafe(h: Hasher, actions: seq<Action>)
    ensures Safe(h, Run(h, actions))
  {
    if actions != [] {
      AlwaysSafe(h, actions[..|actions| - 1]);
      StepSafe(h, Run(h, actions[..|actions| - 1]), actions[|actions| - 1]);
    }
  }

  /** Spelled out: a step spans its own commitment, an aggregate everything since genesis, and aggregates form a prefix. */
  lemma AttachedReceipts(h: Hasher, actions: seq<Action>, i: nat)
    requires i < |Run(h, actions).ledger.commits|
    ensures var l := Run(h, actions).ledger;
      && |l.snaps| == |l.commits|
      && (l.commits[i].step.Some? ==>
            && 1 <= i && l.commits[i].step.value < |l.receipts|
            && l.receipts[l.commits[i].step.value] == Receipt(Step, RootOf(l.snaps[i - 1]), RootOf(l.snaps[i])))
      && (l.commits[i].aggregate.Some? ==>
            && 2 <= i && l.commits[i].aggregate.value < |l.receipts|
            && l.receipts[l.commits[i].aggregate.value] == Receipt(Fold, RootOf(l.snaps[0]), RootOf(l.snaps[i]))
            && forall j :: 2 <= j < i ==> l.commits[j].aggregate.Some?)
  {
    AlwaysSafe(h, actions);
    assert Certified(Run(h, actions).ledger, i);
  }

  /**
   A receipt whose commitment is gone attaches to nothing: saving it changes no commitment row, however the
   commitments were made again since.
   */
  lemma StaleReceiptAttachesNowhere(h: Hasher, actions: seq<Action>, p: Pull)
    requires p in Run(h, actions).pulls && Gone(Run(h, actions).ledger, p.key.id)
    ensures Apply(h, Run(h, actions), SavePulled(p)).ledger.commits == Run(h, actions).ledger.commits
  {
    var s := Run(h, actions);
    SaveOfGone(s.ledger, p.key.id, p.key.isFold, p.receipt);
  }

  lemma SaveOfGone(l: Ledger, id: nat, isFold: bool, receipt: Receipt)
    requires Gone(l, id)
    ensures LedgerRuns.OrSame(l, SaveReceipt(l, id, isFold, receipt)).commits == l.commits
  {
  }

  /** The id was handed out, and no commitment row has it any more. */
  ghost predicate Gone(l: Ledger, id: nat) {
    id < l.nextId && forall i :: 0 <= i < |l.commits| ==> l.commits[i].id != id
  }

  lemma GoneStep(h: Hasher, s: System, a: Action, id: nat)
    requires Safe(h, s) && Gone(s.ledger, id)
    ensures Gone(Apply(h, s, a).ledger, id)
  {
    LedgerLater(h, s, a);
    var l, m := s.ledger, Apply(h, s, a).ledger;
    forall i | 0 <= i < |m.commits| ensures m.commits[i].id != id {
      assert m.commits[i].id < l.nextId ==> i < |l.commits| && SameCommitment(m.commits[i], l.commits[i]);
    }
  }

  /** And it stays so: an id that was handed out and is gone never comes back. */
  lemma {:induction false} GoneForGood(h: Hasher, actions: seq<Action>, more: seq<Action>, id: nat)
    requires Gone(Run(h, actions).ledger, id)
    ensures Gone(Run(h, actions + more).ledger, id)
  {
    if more == [] {
      assert actions + more == actions;
    } else {
      var init, a := more[..|more| - 1], more[|more| - 1];
      GoneForGood(h, actions, init, id);
      AlwaysSafe(h, actions + init);
      RunOneMore(h, actions + init, a);
      assert actions + more == (actions + init) + [a];
      GoneStep(h, Run(h, actions + init), a, id);
    }
  }

  lemma RunOneMore(h: Hasher, actions: seq<Action>, a: Action)
    ensures Run(h, actions + [a]) == Apply(h, Run(h, actions), a)
  {
    assert (actions + [a])[..|actions|] == actions;
  }

  lemma LedgerLater(h: Hasher, s: System, a: Action)
    requires Safe(h, s)
    ensures Later(s.ledger, Apply(h, s, a).ledger)
  {
    match a
    case OnLedger(b) => LedgerStepLater(h, s.ledger, b);
    case SavePulled(p) => LedgerStepLater(h, s.ledger, LedgerRuns.Save(p.key.id, p.key.isFold, p.receipt));
    case _ =>
  }

  lemma LedgerStepLater(h: Hasher, l: Ledger, b: LedgerRuns.Action)
    requires Inv(l)
    ensures Later(l, LedgerRuns.Apply(h, l, b)) && Later(l, l)
  {
    LedgerRuns.ApplyInv(h, l, b);
    LedgerRuns.StepLater(h, l, LedgerRuns.Apply(h, l, b));
  }

  // Behind the gate

  lemma GatedStep(h: Hasher, s: System, a: Action)
    requires Inv(s.ledger) && LedgerRuns.AllButLastProven(s.ledger.commits)
    requires a.OnLedger? ==> !a.a.DoCommit?
    ensures LedgerRuns.AllButLastProven(Apply(h, s, a).ledger.commits)
  {
    match a
    case OnLedger(b) =>
      LedgerRuns.GatedOutcome(h, s.ledger, b);
      LedgerRuns.GateStep(s.ledger, b, LedgerRuns.Apply(h, s.ledger, b).commits);
    case SavePulled(p) =>
      var save := LedgerRuns.Save(p.key.id, p.key.isFold, p.receipt);
      LedgerRuns.GatedOutcome(h, s.ledger, save);
      LedgerRuns.GateStep(s.ledger, save, LedgerRuns.Apply(h, s.ledger, save).commits);
    case _ =>
  }

  lemma {:induction false} GatedProven(h: Hasher, actions: seq<Action>)
    requires forall i :: 0 <= i < |actions| && actions[i].OnLedger? ==> !actions[i].a.DoCommit?
    ensures LedgerRuns.AllButLastProven(Run(h, actions).ledger.commits)
  {
    if actions != [] {
      GatedProven(h, actions[..|actions| - 1]);
      AlwaysSafe(h, actions[..|actions| - 1]);
      GatedStep(h, Run(h, actions[..|actions| - 1]), actions[|actions| - 1]);
    }
  }

  /**
   When every commit goes through the gate, then at any moment of the protocol at most two proofs are pending, and
   the request to prove next, if there is one, is the last commitment's. Those are the keys that a rollback clears.
   */
  lemma RequestIsForLast(h: Hasher, actions: seq<Action>)
    requires forall i :: 0 <= i < |actions| && actions[i].OnLedger? ==> !actions[i].a.DoCommit?
    ensures var l := Run(h, actions).ledger;
      && CountPending(l.commits) <= 2
      && NextRequest(l).Ok?
      && (NextRequest(l).value.Some? ==> l.commits != [] && NextRequest(l).value.value.id == l.commits[|l.commits| - 1].id)
  {
    AlwaysSafe(h, actions);
    GatedProven(h, actions);
    LedgerRuns.LastIsNext(Run(h, actions).ledger);
  }

  // Every request can be answered

  lemma StoredStep(h: Hasher, s: System, a: Action)
    requires Inv(s.ledger) && AllStored(h, s.ledger)
    ensures AllStored(h, Apply(h, s, a).ledger)
  {
    match a
    case OnLedger(b) => Replaying.StepStored(h, s.ledger, b);
    case SavePulled(p) => Replaying.StepStored(h, s.ledger, LedgerRuns.Save(p.key.id, p.key.isFold, p.receipt));
    case _ =>
  }

  lemma {:induction false} AlwaysStored(h: Hasher, actions: seq<Action>)
    ensures AllStored(h, Run(h, actions).ledger)
  {
    if actions != [] {
      AlwaysStored(h, actions[..|actions| - 1]);
      AlwaysSafe(h, actions[..|actions| - 1]);
      StoredStep(h, Run(h, actions[..|actions| - 1]), actions[|actions| - 1]);
    }
  }

  /**
   At any moment of the protocol, any request that was ever read and whose commitment is still there can be proven by
   running the guest on what the request carries, and the proof spans what it should.
   */
  lemma IssuedIsProvable(h: Hasher, actions: seq<Action>, req: Request, i: nat)
    requires var s := Run(h, actions);
      req in s.issued && i < |s.ledger.commits| && s.ledger.commits[i].id == req.id && Distinct(h, s.ledger)
    ensures var l := Run(h, actions).ledger;
      && i > 0 && |l.snaps| == |l.commits|
      && Prove(h, req) == Some(if req.FoldRequest? then Receipt(Fold, RootOf(l.snaps[0]), RootOf(l.snaps[i]))
                               else Receipt(Step, RootOf(l.snaps[i - 1]), RootOf(l.snaps[i])))
  {
    AlwaysSafe(h, actions);
    AlwaysStored(h, actions);
    var l := Run(h, actions).ledger;
    assert Sound(l, req) && SoundAt(l, req, i);
    SoundIsProvable(h, l, req, i);
  }
}
