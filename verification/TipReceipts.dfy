/**
 Broadcasting asks for less than the certificates of the new tip need. A run in
 which every rule of the operator is kept ends with a tip that has no receipt.
 */
module TipReceipts {
  import opened Wrappers
  import opened Tables
  import opened ZkBatch
  import opened Ledgers
  import opened LedgerProofs
  import opened Proving
  import opened LedgerRuns

  predicate GateOnly(a: Action) {
    !a.DoCommit? && (a.DoCommitLocal? ==> a.node.Some?)
  }

  /** Some run from nothing, with a node and every commit behind the gate, leads to this ledger. */
  ghost predicate GatedReach(h: Hasher, l: Ledger) {
    exists actions :: (forall i :: 0 <= i < |actions| ==> GateOnly(actions[i])) && Run(h, EMPTY, actions) == l
  }

  /** Closed under what the operator does behind the gate. The ledgers that runs lead to are such a set. */
  ghost predicate Closed(h: Hasher, reach: Ledger -> bool) {
    && reach(EMPTY)
    && (forall l {:trigger Inv(l)} :: reach(l) ==> Inv(l))
    && (forall l, a {:trigger Apply(h, l, a)} :: reach(l) && GateOnly(a) ==> reach(Apply(h, l, a)))
  }

  lemma ReachOn(h: Hasher, l: Ledger, a: Action)
    requires GatedReach(h, l) && GateOnly(a)
    ensures GatedReach(h, Apply(h, l, a))
  {
    var actions :| (forall i :: 0 <= i < |actions| ==> GateOnly(actions[i])) && Run(h, EMPTY, actions) == l;
    var longer := actions + [a];
    assert longer[..|longer| - 1] == actions;
    assert Run(h, EMPTY, longer) == Apply(h, l, a);
  }

  lemma ReachInv(h: Hasher, l: Ledger)
    requires GatedReach(h, l)
    ensures Inv(l)
  {
    var actions :| (forall i :: 0 <= i < |actions| ==> GateOnly(actions[i])) && Run(h, EMPTY, actions) == l;
    Reachable(h, actions);
  }

  lemma ReachIsClosed(h: Hasher)
    ensures Closed(h, l => GatedReach(h, l))
  {
    assert Run(h, EMPTY, []) == EMPTY;
    forall l | GatedReach(h, l) ensures Inv(l) {
      ReachInv(h, l);
    }
    forall l, a | GatedReach(h, l) && GateOnly(a) ensures GatedReach(h, Apply(h, l, a)) {
      ReachOn(h, l, a);
    }
  }

  /** One more commitment, which has no receipts and no txid yet. */
  ghost predicate OneMore(l: Ledger, m: Ledger, name: Name) {
    var n := |l.commits|;
    && |m.commits| == n + 1 && m.commits[..n] == l.commits && m.commits[n].idx == n
    && m.commits[n].step.None? && m.commits[n].aggregate.None? && m.commits[n].txid.None?
    && Names(m.handles) == Names(l.handles) + {name}
  }

  /** The last commitment was broadcast with an honest step receipt and nothing else. */
  ghost predicate Finished(l: Ledger, m: Ledger) {
    var n := |l.commits| - 1;
    && n >= 1 && |m.commits| == |l.snaps| == n + 1
    && m.snaps == l.snaps && m.handles == l.handles
    && m.commits[n] == l.commits[n].(step := m.commits[n].step, txid := m.commits[n].txid)
    && m.commits[n].txid.Some? && HonestStep(m, n)
  }

  ghost predicate HonestStep(l: Ledger, n: nat)
    requires 1 <= n < |l.commits| && n < |l.snaps|
  {
    l.commits[n].step.Some? && Lookup(l.receipts, l.commits[n].step.value) == Some(Receipt(Step, RootOf(l.snaps[n - 1]), RootOf(l.snaps[n])))
  }

  /** The last commitment, if any, is finished: what the gate asks for. */
  ghost predicate LastDone(l: Ledger, node: ChainView) {
    l.commits != [] ==>
      var c := l.commits[|l.commits| - 1];
      && (c.idx >= 1 ==> c.step.Some?) && (c.idx >= 2 ==> c.aggregate.Some?)
      && if c.txid.Some? then Deep(node, c.root) else c.idx == 0
  }

  /** A name without a row may be staged. */
  lemma StageFree(l: Ledger, name: Name)
    requires Inv(l) && name !in Names(l.handles)
    ensures var m := AddRequest(l, name, []);
      && Inv(m) && StagedEntries(m) != []
      && Names(m.handles) == Names(l.handles) + {name} && m.commits == l.commits
  {
    SelectNone(l.handles, StagedNamed(name));
    NothingReplaced(l, name, []);
    var m := AddRequest(l, name, []);
    assert m.handles == l.handles + [NewRow(name, [])];
    assert NewRow(name, []) in Select(m.handles, StagedUnparked);
    AddRequestInv(l, name, []);
  }

  lemma CommitGated(h: Hasher, s: Ledger, node: ChainView)
    requires Inv(s) && StagedEntries(s) != [] && LastDone(s, node)
    ensures CommitLocal(h, s, None, Some(node)) == Committed(h, s)
  {
    GateIff(s, Some(node));
    CommitIs(h, s);
  }

  lemma CommittedRow(h: Hasher, s: Ledger)
    ensures var m, n := Committed(h, s), |s.commits|;
      && Names(m.handles) == Names(s.handles)
      && |m.commits| == n + 1 && m.commits[..n] == s.commits && m.commits[n].idx == n
      && m.commits[n].step.None? && m.commits[n].aggregate.None? && m.commits[n].txid.None?
  {
    assert Committed(h, s).commits[..|s.commits|] == s.commits;
    UpdateNames(s.handles, StagedUnparked, MarkCommitted(RootOf(InsertAll(Newest(s.snaps), StagedEntries(s))), |s.commits|));
  }

  lemma CommitOne(h: Hasher, l: Ledger, name: Name, node: ChainView)
    requires Inv(l) && name !in Names(l.handles) && LastDone(l, node)
    ensures OneMore(l, CommitLocal(h, AddRequest(l, name, []), None, Some(node)), name)
  {
    var s := AddRequest(l, name, []);
    StageFree(l, name);
    CommitGated(h, s, node);
    CommittedRow(h, s);
  }

  /** The last commitment with its step receipt and its txid. */
  function Sent(l: Ledger, txid: Txid): Ledger
    requires |l.commits| >= 2 && |l.snaps| == |l.commits|
  {
    var n := |l.commits| - 1;
    l.(commits := l.commits[n := l.commits[n].(step := Some(|l.receipts|), txid := Some(txid))],
       receipts := l.receipts + [Receipt(Step, RootOf(l.snaps[n - 1]), RootOf(l.snaps[n]))])
  }

  /** The same with the step receipt only. */
  function Saved(l: Ledger): Ledger
    requires |l.commits| >= 2 && |l.snaps| == |l.commits|
  {
    var n := |l.commits| - 1;
    l.(commits := l.commits[n := l.commits[n].(step := Some(|l.receipts|))],
       receipts := l.receipts + [Receipt(Step, RootOf(l.snaps[n - 1]), RootOf(l.snaps[n]))])
  }

  lemma SaveGives(l: Ledger)
    requires InOrder(l.commits) && |l.commits| >= 2 && |l.snaps| == |l.commits|
    ensures var n := |l.commits| - 1;
      SaveReceipt(l, l.commits[n].id, false, Receipt(Step, RootOf(l.snaps[n - 1]), RootOf(l.snaps[n]))) == Ok(Saved(l))
  {
    var n := |l.commits| - 1;
    assert SetStep(l.commits, l.commits[n].id, |l.receipts|) == Saved(l).commits;
  }

  lemma BroadcastGives(l: Ledger, txid: Txid)
    requires InOrder(l.commits) && |l.commits| >= 2 && |l.snaps| == |l.commits| && l.commits[|l.commits| - 1].txid.None?
    ensures Broadcast(Saved(l), txid) == Ok(Sent(l, txid))
  {
    LastIs(Saved(l).commits);
    assert SetTxid(Saved(l).commits, l.commits[|l.commits| - 1].id, txid) == Sent(l, txid).commits;
  }

  const NOTHING_ON_CHAIN := ChainView(None, 0)

  /** Stage one handle and commit it through the gate. The space has no root on chain when the health check asks. */
  lemma WithCommit(h: Hasher, reach: Ledger -> bool, l: Ledger, name: Name, node: ChainView) returns (m: Ledger)
    requires Closed(h, reach) && reach(l) && name !in Names(l.handles) && LastDone(l, node)
    ensures reach(m) && OneMore(l, m, name)
  {
    m := CommitLocal(h, AddRequest(l, name, []), None, Some(node));
    assert Apply(h, l, Stage(name, [])) == AddRequest(l, name, []);
    assert Apply(h, AddRequest(l, name, []), DoCommitLocal(None, Some(node))) == m;
    assert OneMore(l, m, name) by {
      assert Inv(l);
      CommitOne(h, l, name, node);
    }
  }

  lemma SentInTwoSteps(h: Hasher, l: Ledger, txid: Txid)
    requires |l.commits| >= 2 && |l.snaps| == |l.commits| && InOrder(l.commits) && l.commits[|l.commits| - 1].txid.None?
    ensures var n := |l.commits| - 1;
      && Apply(h, l, Save(l.commits[n].id, false, Receipt(Step, RootOf(l.snaps[n - 1]), RootOf(l.snaps[n])))) == Saved(l)
      && Apply(h, Saved(l), DoBroadcast(txid)) == Sent(l, txid)
      && Finished(l, Sent(l, txid))
  {
    SaveGives(l);
    BroadcastGives(l, txid);
  }

  /** Save an honest step receipt for the last commitment and broadcast it. */
  lemma WithBroadcast(h: Hasher, reach: Ledger -> bool, l: Ledger, txid: Txid) returns (m: Ledger)
    requires Closed(h, reach) && reach(l) && |l.commits| >= 2 && l.commits[|l.commits| - 1].txid.None?
    ensures reach(m) && Finished(l, m)
  {
    assert |l.snaps| == |l.commits| && InOrder(l.commits) by {
      assert Inv(l);
    }
    SentInTwoSteps(h, l, txid);
    m := Sent(l, txid);
  }

  lemma NoReceipt(l: Ledger)
    requires Inv(l) && |l.commits| == 3 && l.commits[2].aggregate.None?
    ensures |l.snaps| == 3 && GetReceipt(l, Some(RootOf(l.snaps[2]))) == Err(MissingReceipt)
  {
    ByRootIs(l, 2);
  }

  /** Commitment 2 is broadcast with an honest step receipt and no aggregate, and once it is the tip it has no receipt. */
  ghost predicate NoReceiptForTip(l: Ledger) {
    && |l.commits| == |l.snaps| == 3
    && l.commits[2].txid.Some? && HonestStep(l, 2) && l.commits[2].aggregate.None?
    && GetReceipt(l, Some(RootOf(l.snaps[2]))) == Err(MissingReceipt)
  }

  lemma TipAmong(h: Hasher, reach: Ledger -> bool) returns (l: Ledger)
    requires Closed(h, reach)
    ensures reach(l) && NoReceiptForTip(l)
  {
    l := WithCommit(h, reach, EMPTY, "a", NOTHING_ON_CHAIN);
    l := WithCommit(h, reach, l, "b", NOTHING_ON_CHAIN);
    l := WithBroadcast(h, reach, l, "t1");
    var view := ChainView(Some((l.commits[1].root, 0)), FINAL_CONFIRMATIONS);
    assert Deep(view, l.commits[1].root);
    l := WithCommit(h, reach, l, "c", view);
    l := WithBroadcast(h, reach, l, "t2");
    assert Inv(l);
    NoReceipt(l);
  }

  /** The operator can get there, with a node, the gate and honest step receipts. */
  lemma TipWithoutReceipt(h: Hasher)
    ensures exists l :: GatedReach(h, l) && NoReceiptForTip(l)
  {
    ReachIsClosed(h);
    var l := TipAmong(h, l => GatedReach(h, l));
  }
}
