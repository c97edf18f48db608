/**
 Runs of ledger operations, with crashes in between. Every reachable ledger keeps
 the two stores in agreement, what was broadcast is permanent, and the commit gate
 keeps everything but the last commitment proven and confirmed.
 */
module LedgerRuns {
  import opened Wrappers
  import opened Tables
  import opened ZkBatch
  import opened Ledgers
  import opened LedgerProofs
  import opened Proving

  // The commit gate

  const FINAL_CONFIRMATIONS := 150

  /** What the node answers: the space's on-chain commitment with its block height, and the tip height. */
  datatype ChainView = ChainView(onChain: Option<(Root, nat)>, tipHeight: nat)
  {
    function Confirmations(): nat {
      if onChain.Some? && onChain.value.1 <= tipHeight then tipHeight - onChain.value.1 else 0
    }
  }

  datatype Blocker = NothingStaged | LastNeedsProving | NeedsConfirmations | RootMismatch | PendingOnChain | NotSubmitted

  /** Why a new commit is blocked, if it is. Without a node the on-chain checks are skipped. */
  function CommitBlocker(l: Ledger, node: Option<ChainView>): Option<Blocker> {
    if Count(l.handles, StagedUnparked) == 0 then Some(NothingStaged)
    else
      match LastByIdx(l.commits)
      case None => None
      case Some(last) =>
        if last.prevRoot.Some? && !(last.step.Some? && (last.aggregate.Some? || last.idx == 1)) then Some(LastNeedsProving)
        else if node.None? then None
        else if last.txid.Some? then
          match node.value.onChain
          case None => Some(PendingOnChain)
          case Some((root, _)) =>
            if root != last.root then Some(RootMismatch)
            else if node.value.Confirmations() < FINAL_CONFIRMATIONS then Some(NeedsConfirmations)
            else None
        else if last.idx > 0 then Some(NotSubmitted)
        else None
  }

  /** The on-chain root, if any, is the root of a local commitment. */
  predicate Healthy(commits: seq<Commitment>, onChain: Option<Root>) {
    onChain.None? || ByRoot(commits, onChain.value).Some?
  }

  /** With a node, the health check asks it for the on-chain root first, and the gate asks again. */
  function CommitLocal(h: Hasher, l: Ledger, health: Option<Root>, node: Option<ChainView>): Ledger {
    if node.Some? && !Healthy(l.commits, health) then l
    else if CommitBlocker(l, node).Some? then l
    else Commit(h, l)
  }

  // Actions

  datatype Action =
    | Stage(name: Name, spk: Spk)
    | ParkHandles(names: seq<Name>, parked: bool)
    | RemoveHandles(names: seq<Name>)
    | DoCommitLocal(health: Option<Root>, node: Option<ChainView>)
    | DoCommit                          // the library call, without the gate
    | DoRollback
    | StopRollback(k: nat, stops: seq<nat>)   // crash after k durable writes, then the check, itself stopped by `stops`
    | StopCommit(k: nat, stops: seq<nat>)     // the same; past the tree write the operator's rollback follows
    | StopSave(receipt: Receipt)        // crash after the receipt was stored, before any row refers to it
    | Check
    | DoBroadcast(txid: Txid)
    | Save(id: nat, isFold: bool, receipt: Receipt)

  /** A failed operation leaves the ledger as it was. */
  function OrSame(l: Ledger, r: Result<Ledger, Error>): Ledger {
    if r.Ok? then r.value else l
  }

  /** A rollback that crashes after k durable writes, followed by the check. */
  function StoppedRollback(l: Ledger, k: nat, stops: seq<nat>): Ledger {
    var trace := TraceOf(RollbackTrace(l));
    if k <= |trace| then Repair(After(l, trace, k), stops) else l
  }

  /**
   A commit that crashes after k durable writes, followed by the check and, when both the tree and the commitment
   row were written, by a rollback. A first commit that wrote its tree and no row has no remedy and is left out.
   */
  function StoppedCommit(h: Hasher, l: Ledger, k: nat, stops: seq<nat>): Ledger {
    var trace := TraceOf(CommitTrace(h, l));
    if k > 2 || k > |trace| || (k == 1 && l.commits == []) then l
    else
      var repaired := Repair(After(l, trace, k), stops);
      if k == 2 then Rollback(repaired) else repaired
  }

  function Apply(h: Hasher, l: Ledger, a: Action): Ledger {
    match a
    case Stage(name, spk) => AddRequest(l, name, spk)
    case ParkHandles(names, parked) => SetParked(l, names, parked)
    case RemoveHandles(names) => RemoveStaged(l, names)
    case DoCommitLocal(health, node) => CommitLocal(h, l, health, node)
    case DoCommit => Commit(h, l)
    case DoRollback => Rollback(l)
    case StopRollback(k, stops) => StoppedRollback(l, k, stops)
    case StopCommit(k, stops) => StoppedCommit(h, l, k, stops)
    case StopSave(receipt) => l.(receipts := l.receipts + [receipt])
    case Check => CheckConsistency(l)
    case DoBroadcast(txid) => OrSame(l, Broadcast(l, txid))
    case Save(id, isFold, receipt) => OrSame(l, SaveReceipt(l, id, isFold, receipt))
  }

  function Run(h: Hasher, l: Ledger, actions: seq<Action>): Ledger {
    if actions == [] then l
    else Apply(h, Run(h, l, actions[..|actions| - 1]), actions[|actions| - 1])
  }

  ghost predicate Commits(h: Hasher, l: Ledger, m: Ledger) {
    StagedEntries(l) != [] && m == Committed(h, l)
  }

  ghost predicate NewReceiptOrTxid(l: Ledger, m: Ledger) {
    && m == l.(commits := m.commits, receipts := m.receipts)
    && l.receipts <= m.receipts
    && |m.commits| == |l.commits|
    && forall i :: 0 <= i < |l.commits| ==>
         && SameCommitment(m.commits[i], l.commits[i])
         && (l.commits[i].step.Some? ==> m.commits[i].step.Some?)
         && (l.commits[i].aggregate.Some? ==> m.commits[i].aggregate.Some?)
         && (l.commits[i].txid.Some? ==> m.commits[i].txid == l.commits[i].txid)
  }

  lemma CommitOutcome(h: Hasher, l: Ledger)
    requires Inv(l)
    ensures Inv(Commit(h, l)) && (Commit(h, l) == l || Commits(h, l, Commit(h, l)))
  {
    CommitInv(h, l);
    CommitIs(h, l);
  }

  lemma BroadcastOutcome(l: Ledger, txid: Txid)
    requires Inv(l)
    ensures var m := OrSame(l, Broadcast(l, txid)); Inv(m) && NewReceiptOrTxid(l, m) && SameReceipts(l, m)
  {
    if Broadcast(l, txid).Ok? {
      BroadcastInv(l, txid);
      BroadcastIs(l, txid);
    }
  }

  /** A broadcast is accepted exactly for a last commitment that has no txid yet and, unless it is genesis, a step receipt. */
  lemma BroadcastIs(l: Ledger, txid: Txid)
    requires Inv(l)
    ensures var n, r := |l.commits| - 1, Broadcast(l, txid);
      && (r.Ok? <==> n >= 0 && l.commits[n].txid.None? && (n >= 1 ==> l.commits[n].step.Some?))
      && (r.Ok? ==> r.value == l.(commits := l.commits[n := l.commits[n].(txid := Some(txid))]))
      && (r == Err(NoCommitments) <==> n < 0)
      && (r == Err(AlreadyBroadcast) <==> n >= 0 && l.commits[n].txid.Some?)
      && (r == Err(NeedsProving) <==> n >= 1 && l.commits[n].txid.None? && l.commits[n].step.None?)
  {
    if l.commits != [] {
      LastIs(l.commits);
      assert Follows(l.snaps, l.commits, |l.commits| - 1);
    }
  }

  /** A receipt is refused exactly for the wrong program; otherwise it is stored, and the one row with this id refers to it. */
  lemma SaveIs(l: Ledger, id: nat, isFold: bool, receipt: Receipt)
    ensures var r := SaveReceipt(l, id, isFold, receipt);
      && (r.Ok? <==> receipt.program == if isFold then Fold else Step)
      && (r.Err? ==> r.error == WrongProgram)
      && (r.Ok? ==>
            var m := r.value;
            && m == l.(receipts := l.receipts + [receipt], commits := m.commits)
            && Lookup(m.receipts, |l.receipts|) == Some(receipt)
            && |m.commits| == |l.commits|
            && forall i :: 0 <= i < |l.commits| ==> m.commits[i] == Referring(l.commits[i], id, isFold, |l.receipts|))
  {
  }

  /** The row with this id refers to the receipt; any other row is left alone. */
  ghost function Referring(c: Commitment, id: nat, isFold: bool, receipt: nat): Commitment {
    if c.id != id then c else if isFold then c.(aggregate := Some(receipt)) else c.(step := Some(receipt))
  }

  lemma SaveOutcome(l: Ledger, id: nat, isFold: bool, receipt: Receipt)
    requires Inv(l)
    ensures var m := OrSame(l, SaveReceipt(l, id, isFold, receipt)); Inv(m) && NewReceiptOrTxid(l, m)
  {
    if SaveReceipt(l, id, isFold, receipt).Ok? {
      SaveReceiptInv(l, id, isFold, receipt);
    }
  }

  lemma StoppedCommitOutcome(h: Hasher, l: Ledger, k: nat, stops: seq<nat>)
    requires Inv(l)
    ensures var m := StoppedCommit(h, l, k, stops); Inv(m) && (m == l || m == l.(nextId := l.nextId + 1))
  {
    if k == 0 {
      CheckIsIdentity(l);
      RepairNothing(l, stops);
    } else if CommitTrace(h, l).Ok? && k == 1 && l.commits != [] {
      StoppedEarly(h, l, stops);
    } else if CommitTrace(h, l).Ok? && k == 2 {
      StoppedLate(h, l, stops);
    }
  }

  /** With the commitment row and no tree: the check takes the row back. */
  lemma StoppedEarly(h: Hasher, l: Ledger, stops: seq<nat>)
    requires Inv(l) && CommitTrace(h, l).Ok? && l.commits != []
    ensures |CommitTrace(h, l).value| == 3
    ensures Repair(CommitTrace(h, l).value[0], stops) == l.(nextId := l.nextId + 1)
    ensures Inv(l.(nextId := l.nextId + 1))
  {
    CommitIs(h, l);
    CrashBeforeTreeWrite(h, l);
    var crashed := CommitTrace(h, l).value[0];
    assert InOrder(crashed.commits) by {
      OneMoreInOrder(l, crashed.commits);
    }
    RepairIs(crashed, stops);
  }

  lemma OneMoreInOrder(l: Ledger, commits: seq<Commitment>)
    requires Inv(l) && |commits| == |l.commits| + 1 && commits[..|l.commits|] == l.commits
    requires commits[|l.commits|].idx == |l.commits| && commits[|l.commits|].id == l.nextId
    ensures InOrder(commits)
  {
    assert forall i :: 0 <= i < |l.commits| ==> commits[i] == l.commits[i];
  }

  /** Past the tree write and the commitment row: the check sees nothing, the rollback takes both back. */
  lemma StoppedLate(h: Hasher, l: Ledger, stops: seq<nat>)
    requires Inv(l) && CommitTrace(h, l).Ok?
    ensures |CommitTrace(h, l).value| == 3
    ensures Rollback(Repair(CommitTrace(h, l).value[1], stops)) == l.(nextId := l.nextId + 1)
  {
    CommitIs(h, l);
    CrashAfterTreeWrite(h, l);
    RepairNothing(CommitTrace(h, l).value[1], stops);
    RollbackRepairsCommit(h, l);
  }

  /** A per-name loop that was stopped has done what the shorter list would have done, so runs cover it. */
  lemma StoppedLoop(h: Hasher, l: Ledger, names: seq<Name>, parked: bool, k: nat)
    requires 1 <= k <= |names|
    ensures |ParkTrace(l, names, parked)| == |RemoveTrace(l, names)| == |names|
    ensures After(l, ParkTrace(l, names, parked), k) == Run(h, l, [ParkHandles(names[..k], parked)])
    ensures After(l, RemoveTrace(l, names), k) == Run(h, l, [RemoveHandles(names[..k])])
    ensures Outcome(l, ParkTrace(l, names, parked)) == SetParked(l, names, parked)
    ensures Outcome(l, RemoveTrace(l, names)) == RemoveStaged(l, names)
  {
    RunOne(h, l, ParkHandles(names[..k], parked));
    RunOne(h, l, RemoveHandles(names[..k]));
    assert names[..|names|] == names;
  }

  lemma RunThree(h: Hasher, l: Ledger, a: Action, b: Action, c: Action)
    ensures Run(h, l, [a, b, c]) == Apply(h, Apply(h, Apply(h, l, a), b), c)
  {
    RunOne(h, l, a);
    RunMore(h, l, [a], b);
    RunMore(h, l, [a] + [b], c);
    assert [a] + [b] + [c] == [a, b, c];
  }

  lemma RunMore(h: Hasher, l: Ledger, actions: seq<Action>, a: Action)
    ensures Run(h, l, actions + [a]) == Apply(h, Run(h, l, actions), a)
  {
    assert (actions + [a])[..|actions|] == actions;
  }

  lemma RunOne(h: Hasher, l: Ledger, a: Action)
    ensures Run(h, l, [a]) == Apply(h, l, a)
  {
    assert [a][..0] == [];
  }

  lemma RollbackOutcome(l: Ledger)
    requires Inv(l)
    ensures Inv(Rollback(l)) && (Rollback(l) == l || RollsBack(l, Rollback(l)))
  {
    RollbackInv(l);
    RollbackIs(l);
  }

  lemma StoppedRollbackOutcome(l: Ledger, k: nat, stops: seq<nat>)
    requires Inv(l)
    ensures var m := StoppedRollback(l, k, stops); Inv(m) && (m == l || RollsBack(l, m))
  {
    var trace := TraceOf(RollbackTrace(l));
    if k <= |trace| {
      CrashInRollback(l, k);
      RollbackOutcome(l);
      StoppedInOrder(l, k);
      RepairIs(After(l, trace, k), stops);
    }
  }

  lemma StoppedInOrder(l: Ledger, k: nat)
    requires Inv(l) && k <= |TraceOf(RollbackTrace(l))|
    ensures InOrder(After(l, TraceOf(RollbackTrace(l)), k).commits)
  {
    RollbackIs(l);
    if k > 0 {
      RollbackSteps(l);
    }
  }

  lemma HandlesOutcome(h: Hasher, l: Ledger, a: Action)
    requires Inv(l) && (a.Stage? || a.ParkHandles? || a.RemoveHandles? || a.Check?)
    ensures var m := Apply(h, l, a); Inv(m) && m == l.(handles := m.handles)
  {
    match a
    case Stage(name, spk) => AddRequestInv(l, name, spk);
    case ParkHandles(names, parked) => SetParkedInv(l, names, parked);
    case RemoveHandles(names) => RemoveStagedInv(l, names);
    case Check => CheckIsIdentity(l);
  }

  /** The outcome of an action that creates no commitment. */
  ghost predicate Others(l: Ledger, m: Ledger) {
    || m == l.(handles := m.handles)
    || m == l.(nextId := l.nextId + 1)
    || RollsBack(l, m)
    || NewReceiptOrTxid(l, m)
  }

  ghost predicate RollsBack(l: Ledger, m: Ledger) {
    l.commits != [] && |l.commits| == |l.snaps| && l.commits[|l.commits| - 1].txid.None? && m == RolledBack(l)
  }

  /** No receipt of a surviving row is replaced. */
  ghost predicate SameReceipts(l: Ledger, m: Ledger) {
    && l.receipts <= m.receipts
    && forall i :: 0 <= i < |l.commits| && i < |m.commits| ==>
         m.commits[i].step == l.commits[i].step && m.commits[i].aggregate == l.commits[i].aggregate
  }

  lemma StopSaveOutcome(l: Ledger, receipt: Receipt)
    requires Inv(l)
    ensures var m := l.(receipts := l.receipts + [receipt]); Inv(m) && NewReceiptOrTxid(l, m) && SameReceipts(l, m)
  {
    SameChain(l, l.(receipts := l.receipts + [receipt]));
  }

  lemma RollingOutcome(h: Hasher, l: Ledger, a: Action)
    requires Inv(l) && (a.DoRollback? || a.StopRollback? || a.StopCommit?)
    ensures var m := Apply(h, l, a); Inv(m) && (m == l || m == l.(nextId := l.nextId + 1) || RollsBack(l, m))
  {
    match a
    case DoRollback => RollbackOutcome(l);
    case StopRollback(k, stops) => StoppedRollbackOutcome(l, k, stops);
    case StopCommit(k, stops) => StoppedCommitOutcome(h, l, k, stops);
  }

  lemma RowsOutcome(h: Hasher, l: Ledger, a: Action)
    requires Inv(l) && (a.DoBroadcast? || a.Save? || a.StopSave?)
    ensures var m := Apply(h, l, a); Inv(m) && NewReceiptOrTxid(l, m) && (!a.Save? ==> SameReceipts(l, m))
  {
    match a
    case DoBroadcast(txid) => BroadcastOutcome(l, txid);
    case Save(id, isFold, receipt) => SaveOutcome(l, id, isFold, receipt);
    case StopSave(receipt) => StopSaveOutcome(l, receipt);
  }

  lemma OtherOutcome(h: Hasher, l: Ledger, a: Action)
    requires Inv(l) && !a.DoCommit? && !a.DoCommitLocal?
    ensures Inv(Apply(h, l, a)) && Others(l, Apply(h, l, a))
    ensures !a.Save? ==> SameReceipts(l, Apply(h, l, a))
  {
    if a.DoRollback? || a.StopRollback? || a.StopCommit? {
      RollingOutcome(h, l, a);
    } else if a.DoBroadcast? || a.Save? || a.StopSave? {
      RowsOutcome(h, l, a);
    } else {
      HandlesOutcome(h, l, a);
    }
  }

  ghost predicate Outcomes(h: Hasher, l: Ledger, m: Ledger) {
    Others(l, m) || Commits(h, l, m)
  }

  /** One action: the two stores still agree, and the outcome is one of a few shapes. */
  lemma ApplyInv(h: Hasher, l: Ledger, a: Action)
    requires Inv(l)
    ensures Inv(Apply(h, l, a)) && Outcomes(h, l, Apply(h, l, a))
  {
    if a.DoCommit? || a.DoCommitLocal? {
      CommitOutcome(h, l);
    } else {
      OtherOutcome(h, l, a);
    }
  }

  /** The two stores agree in every reachable ledger, crashes included. */
  lemma {:induction false} Reachable(h: Hasher, actions: seq<Action>)
    ensures Inv(Run(h, EMPTY, actions))
  {
    if actions != [] {
      Reachable(h, actions[..|actions| - 1]);
      ApplyInv(h, Run(h, EMPTY, actions[..|actions| - 1]), actions[|actions| - 1]);
    }
  }

  /** Spelled out for one commitment, and for the staged rows. */
  lemma TwoStoresAgree(h: Hasher, actions: seq<Action>, i: nat)
    requires i < |Run(h, EMPTY, actions).commits|
    ensures var l := Run(h, EMPTY, actions);
      && |l.snaps| == |l.commits|
      && l.commits[i].idx == i
      && l.commits[i].root == RootOf(l.snaps[i])
      && l.commits[i].prevRoot == (if i == 0 then None else Some(l.commits[i - 1].root))
      && l.commits[i].exclusion == (if i == 0 then None else Some(l.snaps[i - 1]))
      && RowsOfCommitment(l, i)
      && forall r :: r in l.handles && r.root.None? ==> r.idx.None? && r.name !in l.snaps[i]
  {
    Reachable(h, actions);
    AgreesAt(Run(h, EMPTY, actions), i);
  }

  lemma AgreesAt(l: Ledger, i: nat)
    requires Inv(l) && i < |l.commits|
    ensures l.commits[i].idx == i && l.commits[i].root == RootOf(l.snaps[i])
    ensures l.commits[i].prevRoot == if i == 0 then None else Some(l.commits[i - 1].root)
    ensures l.commits[i].exclusion == if i == 0 then None else Some(l.snaps[i - 1])
    ensures RowsOfCommitment(l, i)
    ensures forall r :: r in l.handles && r.root.None? ==> r.idx.None? && r.name !in l.snaps[i]
  {
    assert Follows(l.snaps, l.commits, i);
    RowsAreTheDifference(l, i);
    forall r | r in l.handles && r.root.None? ensures r.idx.None? && r.name !in l.snaps[i] {
      StagedIsInNoTree(l, r, i);
    }
  }

  lemma StagedIsInNoTree(l: Ledger, r: HandleRow, i: nat)
    requires Inv(l) && r in l.handles && r.root.None? && i < |l.snaps|
    ensures r.idx.None? && r.name !in l.snaps[i]
  {
    assert RowOk(l.snaps, r);
    if r.name in l.snaps[i] {
      Kept(l.snaps, i, |l.snaps| - 1, r.name);
    }
  }

  // What was broadcast stays

  ghost predicate Permanent(l: Ledger, m: Ledger) {
    |l.snaps| == |l.commits| && |m.snaps| == |m.commits| &&
    forall k :: 0 <= k < |l.commits| && l.commits[k].txid.Some? ==> KeptUpTo(l, m, k)
  }

  ghost predicate KeptUpTo(l: Ledger, m: Ledger, k: nat)
    requires |l.snaps| == |l.commits| && |m.snaps| == |m.commits| && k < |l.commits|
  {
    && k < |m.commits|
    && m.commits[k].txid == l.commits[k].txid
    && forall i :: 0 <= i <= k ==> m.snaps[i] == l.snaps[i] && SameCommitment(m.commits[i], l.commits[i])
  }

  lemma StepPermanent(h: Hasher, l: Ledger, m: Ledger)
    requires Inv(l) && Inv(m) && Outcomes(h, l, m)
    ensures Permanent(l, m)
  {
    forall k | 0 <= k < |l.commits| && l.commits[k].txid.Some? ensures KeptUpTo(l, m, k) {
    }
  }

  lemma {:induction false} RunPermanent(h: Hasher, l: Ledger, actions: seq<Action>)
    requires Inv(l)
    ensures Inv(Run(h, l, actions)) && Permanent(l, Run(h, l, actions))
  {
    if actions != [] {
      var m := Run(h, l, actions[..|actions| - 1]);
      var last := Run(h, l, actions);
      RunPermanent(h, l, actions[..|actions| - 1]);
      ApplyInv(h, m, actions[|actions| - 1]);
      StepPermanent(h, m, last);
      forall k | 0 <= k < |l.commits| && l.commits[k].txid.Some? ensures KeptUpTo(l, last, k) {
        assert KeptUpTo(l, m, k) && KeptUpTo(m, last, k);
      }
    }
  }

  /**
   Once commitment k was broadcast, every name in its snapshot keeps its key for good: in every later snapshot
   of the tree from k on, and in the one handle row of that name.
   */
  lemma BroadcastNamesStay(h: Hasher, l: Ledger, actions: seq<Action>, k: nat, name: Name)
    requires Inv(l) && k < |l.commits| && l.commits[k].txid.Some? && name in l.snaps[k]
    ensures var m := Run(h, l, actions);
      && k < |m.snaps|
      && (forall i :: k <= i < |m.snaps| ==> name in m.snaps[i] && m.snaps[i][name] == l.snaps[k][name])
      && (exists r :: r in m.handles && r.name == name && r.spk == l.snaps[k][name] && r.idx.Some? && r.idx.value <= k)
  {
    var m := Run(h, l, actions);
    RunPermanent(h, l, actions);
    assert KeptUpTo(l, m, k);
    RowOfName(m, k, name);
    forall i | k <= i < |m.snaps| ensures name in m.snaps[i] && m.snaps[i][name] == l.snaps[k][name] {
      Kept(m.snaps, k, i, name);
    }
  }

  // Proofs stay right

  lemma StepLater(h: Hasher, l: Ledger, m: Ledger)
    requires Inv(l) && Inv(m) && Outcomes(h, l, m)
    ensures Later(l, m)
  {
  }

  lemma CertifiedStays(l: Ledger, m: Ledger, i: nat)
    requires |l.snaps| == |l.commits| && |m.snaps| == |m.commits| && i < |l.commits| && i < |m.commits|
    requires l.receipts <= m.receipts && Certified(l, i)
    requires forall j :: 0 <= j <= i ==> m.snaps[j] == l.snaps[j]
    requires forall j :: 0 <= j <= i ==> m.commits[j].step == l.commits[j].step && m.commits[j].aggregate == l.commits[j].aggregate
    ensures Certified(m, i)
  {
    assert l.commits[i].aggregate.Some? ==> FoldReady(l.commits, i) && FoldReady(m.commits, i);
  }

  lemma CommittedProven(h: Hasher, l: Ledger)
    requires Inv(l) && Proven(l) && StagedEntries(l) != []
    ensures Proven(Committed(h, l))
  {
    var m := Committed(h, l);
    forall i | 0 <= i < |m.commits| ensures Certified(m, i) {
      if i < |l.commits| {
        assert Certified(l, i);
        CertifiedStays(l, m, i);
      }
    }
  }

  lemma OthersProven(l: Ledger, m: Ledger)
    requires Inv(l) && Proven(l) && Others(l, m) && SameReceipts(l, m)
    ensures Proven(m)
  {
    forall i | 0 <= i < |m.commits| ensures Certified(m, i) {
      assert Certified(l, i);
      CertifiedStays(l, m, i);
    }
  }

  /** An action that saves no receipt leaves every attached receipt certifying what it did. */
  lemma ApplyProven(h: Hasher, l: Ledger, a: Action)
    requires Inv(l) && Proven(l) && !a.Save?
    ensures Proven(Apply(h, l, a)) && Later(l, Apply(h, l, a))
  {
    var m := Apply(h, l, a);
    ApplyInv(h, l, a);
    StepLater(h, l, m);
    if a.DoCommit? || a.DoCommitLocal? {
      CommitOutcome(h, l);
      if m != l {
        CommittedProven(h, l);
      }
    } else {
      OtherOutcome(h, l, a);
      OthersProven(l, m);
    }
  }

  // The gate over whole runs

  ghost predicate AllButLastProven(commits: seq<Commitment>) {
    forall i :: 1 <= i < |commits| - 1 ==> commits[i].step.Some? && (i >= 2 ==> commits[i].aggregate.Some?)
  }

  /** The node has this root in a block with 150 more on top of it. */
  ghost predicate Deep(node: ChainView, root: Root) {
    exists block: nat :: node.onChain == Some((root, block)) && block + 150 <= node.tipHeight
  }

  /** A commit attempt that saw this root so deep. */
  ghost predicate SawDeep(a: Action, root: Root) {
    a.DoCommitLocal? && a.node.Some? && Deep(a.node.value, root)
  }

  ghost predicate SeenDeep(actions: seq<Action>, root: Root) {
    exists j :: 0 <= j < |actions| && SawDeep(actions[j], root)
  }

  ghost predicate AllButLastSeen(commits: seq<Commitment>, actions: seq<Action>) {
    forall i :: 1 <= i < |commits| - 1 ==> SeenDeep(actions, commits[i].root)
  }

  /** Without a commit the commitments are the same or one fewer, and no receipt is lost. */
  lemma OthersShrink(l: Ledger, m: Ledger)
    requires Inv(l) && Others(l, m)
    ensures |m.commits| <= |l.commits|
    ensures forall i :: 0 <= i < |m.commits| ==>
      && SameCommitment(m.commits[i], l.commits[i])
      && (l.commits[i].step.Some? ==> m.commits[i].step.Some?)
      && (l.commits[i].aggregate.Some? ==> m.commits[i].aggregate.Some?)
      && (l.commits[i].txid.Some? ==> m.commits[i].txid.Some?)
  {
  }

  /** When the gate opens, the last commitment is proven and, with a node, finalized. */
  lemma GateOpen(l: Ledger, node: Option<ChainView>)
    requires Inv(l) && l.commits != [] && CommitBlocker(l, node).None?
    ensures var c := l.commits[|l.commits| - 1];
      && (c.idx >= 1 ==> c.step.Some?)
      && (c.idx >= 2 ==> c.aggregate.Some?)
      && (c.idx >= 1 && node.Some? ==> c.txid.Some? && Deep(node.value, c.root))
  {
    GateIff(l, node);
  }

  /** The gate is open exactly when something is staged and the last commitment, if any, is finished. */
  lemma GateIff(l: Ledger, node: Option<ChainView>)
    requires Inv(l)
    ensures CommitBlocker(l, node).None? <==>
      && StagedEntries(l) != []
      && (l.commits != [] ==>
            var c := l.commits[|l.commits| - 1];
            && (c.idx >= 1 ==> c.step.Some?)
            && (c.idx >= 2 ==> c.aggregate.Some?)
            && (node.Some? ==> if c.txid.Some? then Deep(node.value, c.root) else c.idx == 0))
  {
    GateReasons(l, node);
  }

  /** Which reason is given, on a consistent ledger. */
  lemma GateReasons(l: Ledger, node: Option<ChainView>)
    requires Inv(l)
    ensures CommitBlocker(l, node) == Some(NothingStaged) <==> StagedEntries(l) == []
    ensures StagedEntries(l) != [] && l.commits == [] ==> CommitBlocker(l, node) == None
    ensures StagedEntries(l) != [] && l.commits != [] ==>
      var c := l.commits[|l.commits| - 1];
      var proven := (c.idx >= 1 ==> c.step.Some?) && (c.idx >= 2 ==> c.aggregate.Some?);
      && (CommitBlocker(l, node) == Some(LastNeedsProving) <==> !proven)
      && (proven && node.None? ==> CommitBlocker(l, node) == None)
      && (proven && node.Some? && c.txid.None? ==> CommitBlocker(l, node) == if c.idx == 0 then None else Some(NotSubmitted))
      && (proven && node.Some? && c.txid.Some? ==>
            && (CommitBlocker(l, node) == Some(PendingOnChain) <==> node.value.onChain.None?)
            && (CommitBlocker(l, node) == Some(RootMismatch) <==> node.value.onChain.Some? && node.value.onChain.value.0 != c.root)
            && (CommitBlocker(l, node) == Some(NeedsConfirmations) <==>
                  node.value.onChain.Some? && node.value.onChain.value.0 == c.root && node.value.tipHeight < node.value.onChain.value.1 + 150)
            && (CommitBlocker(l, node) == None <==> Deep(node.value, c.root)))
  {
    CountIsSelected(l.handles, StagedUnparked);
    if l.commits != [] {
      LastBlocks(l, node);
    }
  }

  lemma LastBlocks(l: Ledger, node: Option<ChainView>)
    requires Inv(l) && l.commits != []
    ensures var c := l.commits[|l.commits| - 1];
      && LastByIdx(l.commits) == Some(c) && (c.prevRoot.Some? <==> c.idx >= 1)
      && (node.Some? ==> (Deep(node.value, c.root) <==>
            node.value.onChain.Some? && node.value.onChain.value.0 == c.root && node.value.onChain.value.1 + 150 <= node.value.tipHeight))
  {
    LastIs(l.commits);
    assert Follows(l.snaps, l.commits, |l.commits| - 1);
    if node.Some? && node.value.onChain.Some? {
      DeepIs(node.value);
    }
  }

  lemma DeepIs(node: ChainView)
    requires node.onChain.Some?
    ensures forall root :: Deep(node, root) <==> node.onChain.value.0 == root && node.onChain.value.1 + 150 <= node.tipHeight
  {
    forall root ensures Deep(node, root) <==> node.onChain.value.0 == root && node.onChain.value.1 + 150 <= node.tipHeight {
      assert node.onChain == Some((node.onChain.value.0, node.onChain.value.1));
    }
  }

  /** The health check passes exactly if the node has no root for the space, or one of a local snapshot. */
  lemma HealthyIff(l: Ledger, onChain: Option<Root>)
    requires Chain(l)
    ensures Healthy(l.commits, onChain) <==> onChain.None? || exists i :: 0 <= i < |l.snaps| && RootOf(l.snaps[i]) == onChain.value
  {
    if onChain.Some? {
      var c := ByRoot(l.commits, onChain.value);
      if c.Some? {
        var i :| 0 <= i < |l.commits| && l.commits[i] == c.value;
        assert RootOf(l.snaps[i]) == onChain.value;
      } else {
        forall i | 0 <= i < |l.snaps| ensures RootOf(l.snaps[i]) != onChain.value {
          assert l.commits[i] in l.commits;
        }
      }
    }
  }

  /** What must hold for the operator's commit to go through. */
  ghost predicate MayCommit(l: Ledger, health: Option<Root>, node: Option<ChainView>) {
    && StagedEntries(l) != []
    && (node.Some? && health.Some? ==> exists i :: 0 <= i < |l.snaps| && RootOf(l.snaps[i]) == health.value)
    && (l.commits != [] ==>
          var c := l.commits[|l.commits| - 1];
          && (c.idx >= 1 ==> c.step.Some?)
          && (c.idx >= 2 ==> c.aggregate.Some?)
          && (node.Some? ==> if c.txid.Some? then Deep(node.value, c.root) else c.idx == 0))
  }

  /** The operator's commit, health check and gate included: it commits everything that is staged and not parked, or changes nothing. */
  lemma CommitLocalIs(h: Hasher, l: Ledger, health: Option<Root>, node: Option<ChainView>)
    requires Inv(l)
    ensures CommitLocal(h, l, health, node) == if MayCommit(l, health, node) then Committed(h, l) else l
  {
    GateIff(l, node);
    HealthyIff(l, health);
    CommitIs(h, l);
  }

  /** With everything but the last commitment proven, what is left to prove is the last commitment's. */
  lemma LastIsNext(l: Ledger)
    requires Inv(l) && Proven(l) && AllButLastProven(l.commits)
    ensures CountPending(l.commits) <= 2
    ensures NextRequest(l).Ok?
    ensures NextRequest(l).value.Some? ==> l.commits != [] && NextRequest(l).value.value.id == l.commits[|l.commits| - 1].id
  {
    NextRequestIs(l);
    InOrderPending(l);
  }

  lemma InOrderPending(l: Ledger)
    requires Inv(l) && AllButLastProven(l.commits)
    ensures CountPending(l.commits) <= 2
  {
    PendingAtMostTwo(l.commits, |l.commits|);
  }

  /** A gated commit adds one commitment at most, and only behind one that is proven and, with a node, finalized. */
  lemma GatedCommit(h: Hasher, l: Ledger, health: Option<Root>, node: Option<ChainView>)
    requires Inv(l)
    ensures var m, n := CommitLocal(h, l, health, node), |l.commits|;
      || m.commits == l.commits
      || (&& |m.commits| == n + 1 && m.commits[..n] == l.commits
          && (n >= 2 ==> l.commits[n - 1].step.Some?)
          && (n >= 3 ==> l.commits[n - 1].aggregate.Some?)
          && (n >= 2 && node.Some? ==> l.commits[n - 1].txid.Some? && Deep(node.value, l.commits[n - 1].root)))
  {
    CommitOutcome(h, l);
    if CommitBlocker(l, node).None? && l.commits != [] {
      GateOpen(l, node);
    }
  }

  /** What a gated action makes of the commitments: a prefix, with receipts kept, or one more behind a finished one. */
  ghost predicate GatedTo(l: Ledger, a: Action, commits: seq<Commitment>) {
    var n := |l.commits|;
    || (&& |commits| <= n
        && forall i :: 0 <= i < |commits| ==>
             && SameCommitment(commits[i], l.commits[i])
             && (l.commits[i].step.Some? ==> commits[i].step.Some?)
             && (l.commits[i].aggregate.Some? ==> commits[i].aggregate.Some?)
             && (l.commits[i].txid.Some? ==> commits[i].txid.Some?))
    || (&& |commits| == n + 1 && commits[..n] == l.commits && a.DoCommitLocal?
        && (n >= 2 ==> l.commits[n - 1].step.Some?)
        && (n >= 3 ==> l.commits[n - 1].aggregate.Some?)
        && (n >= 2 && a.node.Some? ==> l.commits[n - 1].txid.Some? && Deep(a.node.value, l.commits[n - 1].root)))
  }

  lemma GatedOutcome(h: Hasher, l: Ledger, a: Action)
    requires Inv(l) && !a.DoCommit?
    ensures GatedTo(l, a, Apply(h, l, a).commits)
  {
    if a.DoCommitLocal? {
      GatedCommit(h, l, a.health, a.node);
    } else {
      OtherOutcome(h, l, a);
      OthersShrink(l, Apply(h, l, a));
    }
  }

  lemma GateStep(l: Ledger, a: Action, commits: seq<Commitment>)
    requires GatedTo(l, a, commits) && AllButLastProven(l.commits)
    ensures AllButLastProven(commits)
  {
    assert |commits| > |l.commits| ==> forall i :: 0 <= i < |l.commits| ==> commits[i] == commits[..|l.commits|][i];
  }

  lemma GateStepSeen(l: Ledger, a: Action, commits: seq<Commitment>, init: seq<Action>)
    requires GatedTo(l, a, commits) && (a.DoCommitLocal? ==> a.node.Some?) && AllButLastSeen(l.commits, init)
    ensures AllButLastSeen(commits, init + [a])
  {
    var n := |l.commits|;
    forall i | 1 <= i < |commits| - 1 ensures SeenDeep(init + [a], commits[i].root) {
      if |commits| > n {
        assert commits[i] == commits[..n][i] == l.commits[i];
      }
      if i < n - 1 {
        assert SeenDeep(init, l.commits[i].root);
        var j :| 0 <= j < |init| && SawDeep(init[j], l.commits[i].root);
        assert SawDeep((init + [a])[j], commits[i].root);
      } else {
        assert SawDeep((init + [a])[|init|], commits[i].root);
      }
    }
  }

  ghost predicate AllButLastBroadcast(commits: seq<Commitment>) {
    forall i :: 1 <= i < |commits| - 1 ==> commits[i].txid.Some?
  }

  lemma GateStepBroadcast(l: Ledger, a: Action, commits: seq<Commitment>)
    requires GatedTo(l, a, commits) && (a.DoCommitLocal? ==> a.node.Some?) && AllButLastBroadcast(l.commits)
    ensures AllButLastBroadcast(commits)
  {
    assert |commits| > |l.commits| ==> forall i :: 0 <= i < |l.commits| ==> commits[i] == commits[..|l.commits|][i];
  }

  lemma PendingAtMostTwo(commits: seq<Commitment>, n: nat)
    requires AllButLastProven(commits) && n <= |commits|
    requires forall i :: 0 <= i < |commits| ==> commits[i].idx == i
    ensures PendingUpTo(commits, n) <= if n == |commits| then 2 else 0
  {
    if n > 1 {
      PendingAtMostTwo(commits, n - 1);
    }
  }

  /** When every commit goes through the gate, only the last commitment can lack proofs, so at most two are ever pending. */
  lemma {:induction false} GateOverRuns(h: Hasher, actions: seq<Action>)
    requires forall i :: 0 <= i < |actions| ==> !actions[i].DoCommit?
    ensures AllButLastProven(Run(h, EMPTY, actions).commits)
    ensures CountPending(Run(h, EMPTY, actions).commits) <= 2
  {
    if actions != [] {
      GateOverRuns(h, actions[..|actions| - 1]);
      Reachable(h, actions[..|actions| - 1]);
      var l, a := Run(h, EMPTY, actions[..|actions| - 1]), actions[|actions| - 1];
      GatedOutcome(h, l, a);
      GateStep(l, a, Apply(h, l, a).commits);
    }
    Reachable(h, actions);
    InOrderPending(Run(h, EMPTY, actions));
  }

  /** With a node attached, a commitment is created only after each earlier one, genesis aside, was seen with 150 confirmations. */
  lemma {:induction false} ConfirmedOverRuns(h: Hasher, actions: seq<Action>)
    requires forall i :: 0 <= i < |actions| ==> !actions[i].DoCommit? && (actions[i].DoCommitLocal? ==> actions[i].node.Some?)
    ensures AllButLastSeen(Run(h, EMPTY, actions).commits, actions)
  {
    if actions != [] {
      var init, a := actions[..|actions| - 1], actions[|actions| - 1];
      ConfirmedOverRuns(h, init);
      Reachable(h, init);
      assert actions == init + [a];
      GatedSeen(h, Run(h, EMPTY, init), a, init);
    }
  }

  lemma GatedSeen(h: Hasher, l: Ledger, a: Action, init: seq<Action>)
    requires Inv(l) && !a.DoCommit? && (a.DoCommitLocal? ==> a.node.Some?) && AllButLastSeen(l.commits, init)
    ensures AllButLastSeen(Apply(h, l, a).commits, init + [a])
  {
    GatedOutcome(h, l, a);
    GateStepSeen(l, a, Apply(h, l, a).commits, init);
  }

  lemma GatedBroadcast(h: Hasher, l: Ledger, a: Action)
    requires Inv(l) && !a.DoCommit? && (a.DoCommitLocal? ==> a.node.Some?) && AllButLastBroadcast(l.commits)
    ensures AllButLastBroadcast(Apply(h, l, a).commits)
  {
    GatedOutcome(h, l, a);
    GateStepBroadcast(l, a, Apply(h, l, a).commits);
  }

  /**
   With a node attached, every commitment but genesis and the last was broadcast. So from three commitments on only
   the last can be rolled back: a second rollback is refused.
   */
  lemma {:induction false} BroadcastOverRuns(h: Hasher, actions: seq<Action>)
    requires forall i :: 0 <= i < |actions| ==> !actions[i].DoCommit? && (actions[i].DoCommitLocal? ==> actions[i].node.Some?)
    ensures var l := Run(h, EMPTY, actions);
      && AllButLastBroadcast(l.commits)
      && (|l.commits| >= 3 ==> RollbackTrace(Rollback(l)) == Err(AlreadyBroadcast))
  {
    var l := Run(h, EMPTY, actions);
    if actions != [] {
      var init, a := actions[..|actions| - 1], actions[|actions| - 1];
      BroadcastOverRuns(h, init);
      Reachable(h, init);
      GatedBroadcast(h, Run(h, EMPTY, init), a);
    }
    Reachable(h, actions);
    if |l.commits| >= 3 {
      SecondRollbackRefused(l);
    }
  }

  lemma SecondRollbackRefused(l: Ledger)
    requires Inv(l) && |l.commits| >= 3 && l.commits[|l.commits| - 2].txid.Some?
    ensures RollbackTrace(Rollback(l)) == Err(AlreadyBroadcast)
  {
    RollbackIs(l);
    if l.commits[|l.commits| - 1].txid.None? {
      BroadcastRefuses(RolledBack(l));
    } else {
      BroadcastRefuses(l);
    }
  }

  lemma BroadcastRefuses(l: Ledger)
    requires InOrder(l.commits) && l.commits != [] && l.commits[|l.commits| - 1].txid.Some?
    ensures RollbackTrace(l) == Err(AlreadyBroadcast)
  {
    LastIs(l.commits);
  }

  // The traces of single writes, and what the counts say

  /** What each trace ends in is what the operation does, and a crash before its only write leaves nothing behind. */
  lemma TracesEnd(l: Ledger, name: Name, spk: Spk, id: nat, isFold: bool, receipt: Receipt, txid: Txid)
    ensures Outcome(l, AddTrace(l, name, spk)) == AddRequest(l, name, spk) && |AddTrace(l, name, spk)| <= 1
    ensures Outcome(l, SaveTrace(l, id, isFold, receipt)) == OrSame(l, SaveReceipt(l, id, isFold, receipt))
    ensures Outcome(l, BroadcastTrace(l, txid)) == OrSame(l, Broadcast(l, txid)) && |BroadcastTrace(l, txid)| <= 1
  {
  }

  /** Parking by name counts the staged rows of the names, once for each time that a name is listed. */
  lemma {:induction false} ParkCountIs(rows: seq<HandleRow>, names: seq<Name>, more: seq<Name>)
    ensures ParkCount(rows, names + more) == ParkCount(rows, names) + ParkCount(rows, more)
    ensures |names| == 1 ==> ParkCount(rows, names) == |Select(rows, StagedNamed(names[0]))|
  {
    if |names| == 1 {
      CountIsSelected(rows, StagedNamed(names[0]));
      assert ParkCount(rows, names[..0]) == 0;
    }
    if more == [] {
      assert names + more == names;
    } else {
      assert (names + more)[..|names + more| - 1] == names + more[..|more| - 1];
      ParkCountIs(rows, names, more[..|more| - 1]);
    }
  }
}
