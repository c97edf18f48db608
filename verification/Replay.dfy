/**
 Replaying the stored batches. In every reachable ledger the zk batches of the
 first i commitments, decoded and inserted in order into the empty tree, give the
 hashed form of snapshot i.
 */
module Replaying {
  import opened Wrappers
  import opened Tables
  import opened ZkBatch
  import opened Ledgers
  import opened LedgerProofs
  import opened Proving
  import opened LedgerRuns

  lemma StoredStays(h: Hasher, l: Ledger, m: Ledger, i: nat)
    requires i < |l.snaps| && i < |l.commits| && i < |m.snaps| && i < |m.commits|
    requires Stored(h, l.snaps, l.commits, i)
    requires m.snaps[i] == l.snaps[i] && Before(m.snaps, i) == Before(l.snaps, i)
    requires m.commits[i].zkBatch == l.commits[i].zkBatch
    ensures Stored(h, m.snaps, m.commits, i)
  {
    var batch :| StoredBatch(h, l.snaps, l.commits, i, batch);
    assert StoredBatch(h, m.snaps, m.commits, i, batch);
  }

  lemma StepStored(h: Hasher, l: Ledger, a: Action)
    requires Inv(l) && AllStored(h, l)
    ensures AllStored(h, Apply(h, l, a))
  {
    var m := Apply(h, l, a);
    ApplyInv(h, l, a);
    if Commits(h, l, m) {
      CommittedStored(h, l);
    } else {
      OthersStored(h, l, m);
    }
  }

  lemma CommittedStored(h: Hasher, l: Ledger)
    requires Inv(l) && AllStored(h, l)
    ensures AllStored(h, Committed(h, l))
  {
    var m := Committed(h, l);
    forall i | 0 <= i < |m.commits| ensures Stored(h, m.snaps, m.commits, i) {
      if i < |l.commits| {
        assert Stored(h, l.snaps, l.commits, i);
        StoredStays(h, l, m, i);
      } else {
        StagedAbsent(l);
        assert Before(m.snaps, i) == Newest(l.snaps);
        assert StoredBatch(h, m.snaps, m.commits, i, StagedEntries(l));
      }
    }
  }

  lemma OthersStored(h: Hasher, l: Ledger, m: Ledger)
    requires Inv(l) && AllStored(h, l) && Inv(m) && Others(l, m)
    ensures AllStored(h, m)
  {
    forall i | 0 <= i < |m.commits| ensures Stored(h, m.snaps, m.commits, i) {
      assert Stored(h, l.snaps, l.commits, i);
      StoredStays(h, l, m, i);
    }
  }

  lemma {:induction false} ReachableStored(h: Hasher, actions: seq<Action>)
    ensures AllStored(h, Run(h, EMPTY, actions))
  {
    if actions != [] {
      ReachableStored(h, actions[..|actions| - 1]);
      Reachable(h, actions[..|actions| - 1]);
      StepStored(h, Run(h, EMPTY, actions[..|actions| - 1]), actions[|actions| - 1]);
    }
  }

  function Batches(commits: seq<Commitment>, n: nat): seq<seq<Byte>>
    requires n <= |commits|
  {
    seq(n, i requires 0 <= i < n => commits[i].zkBatch)
  }

  lemma {:induction false} ReplayGives(h: Hasher, l: Ledger, n: nat)
    requires Growing(l.snaps) && AllStored(h, l) && n <= |l.commits|
    requires NoCollision(h, Before(l.snaps, n).Keys)
    ensures Hashes(h, Replay(Batches(l.commits, n)), Before(l.snaps, n))
  {
    if n > 0 {
      var i := n - 1;
      SnapsGrow(l.snaps, i, n);
      ReplayGives(h, l, i);
      assert Batches(l.commits, n)[..i] == Batches(l.commits, i);
      assert Stored(h, l.snaps, l.commits, i);
      var batch :| StoredBatch(h, l.snaps, l.commits, i, batch);
      ParseEncode(Records(h, batch));
      InsertHashes(h, Replay(Batches(l.commits, i)), Before(l.snaps, i), batch);
    }
  }

  /** In every reachable ledger the stored bytes alone rebuild every snapshot, as long as no two of its labels share a hash. */
  lemma ReplayRebuilds(h: Hasher, actions: seq<Action>, i: nat)
    requires i < |Run(h, EMPTY, actions).commits|
    ensures i < |Run(h, EMPTY, actions).snaps|
    ensures var l := Run(h, EMPTY, actions);
      && l.commits[i].root == RootOf(l.snaps[i])
      && (NoCollision(h, l.snaps[i].Keys) ==> Hashes(h, Replay(Batches(l.commits, i + 1)), l.snaps[i]))
  {
    var l := Run(h, EMPTY, actions);
    Reachable(h, actions);
    ReachableStored(h, actions);
    if NoCollision(h, l.snaps[i].Keys) {
      ReplayGives(h, l, i + 1);
    }
  }

  /** No two entries of these trees share a hash. */
  ghost predicate NoEntryCollision(h: Hasher, t: Tree, u: Tree) {
    forall m, n :: m in t && n in u && h.entryHash(m, t[m]) == h.entryHash(n, u[n]) ==> m == n && t[m] == u[n]
  }

  /** Two trees of the same hashed form are the same tree. */
  lemma HashedFormDecides(h: Hasher, leaves: map<Digest, Digest>, t: Tree, u: Tree)
    requires Hashes(h, leaves, t) && Hashes(h, leaves, u)
    requires NoCollision(h, t.Keys + u.Keys) && NoEntryCollision(h, t, u)
    ensures t == u
  {
    InOther(h, leaves, t, u);
    InOther(h, leaves, u, t);
    assert t.Keys == u.Keys;
    assert forall n :: n in t ==> t[n] == u[n];
  }

  lemma InOther(h: Hasher, leaves: map<Digest, Digest>, t: Tree, u: Tree)
    requires Hashes(h, leaves, t) && Hashes(h, leaves, u) && NoCollision(h, t.Keys + u.Keys)
    ensures forall n :: n in t ==> n in u && h.entryHash(n, u[n]) == h.entryHash(n, t[n])
  {
    forall n | n in t ensures n in u && h.entryHash(n, u[n]) == h.entryHash(n, t[n]) {
      assert h.labelHash(n) in leaves;
      var m :| m in u && h.labelHash(m) == h.labelHash(n);
      assert m in t.Keys + u.Keys && n in t.Keys + u.Keys;
    }
  }

  /** The stored bytes decide the root: the only tree that they can be the hashed form of is the one committed to. */
  lemma ReplayDecidesRoot(h: Hasher, actions: seq<Action>, i: nat, tree: Tree)
    requires i < |Run(h, EMPTY, actions).commits| && i < |Run(h, EMPTY, actions).snaps|
    requires var l := Run(h, EMPTY, actions);
      && NoCollision(h, tree.Keys + l.snaps[i].Keys) && NoEntryCollision(h, tree, l.snaps[i])
      && Hashes(h, Replay(Batches(l.commits, i + 1)), tree)
    ensures tree == Run(h, EMPTY, actions).snaps[i]
    ensures RootOf(tree) == Run(h, EMPTY, actions).commits[i].root
  {
    var l := Run(h, EMPTY, actions);
    ReplayRebuilds(h, actions, i);
    HashedFormDecides(h, Replay(Batches(l.commits, i + 1)), tree, l.snaps[i]);
  }

  // The witness of a step request

  lemma {:induction false} NextFoldAsksToFold(l: Ledger, i: nat, acc: Option<Receipt>)
    ensures NextFold(l, i, acc).Ok? && NextFold(l, i, acc).value.Some? ==> NextFold(l, i, acc).value.value.FoldRequest?
    decreases |l.commits| - i
  {
    if i < |l.commits| {
      var step := if l.commits[i].step.Some? then Lookup(l.receipts, l.commits[i].step.value) else None;
      NextFoldAsksToFold(l, i + 1, acc);
      NextFoldAsksToFold(l, i + 1, step);
      if l.commits[i].aggregate.Some? {
        NextFoldAsksToFold(l, i + 1, Lookup(l.receipts, l.commits[i].aggregate.value));
      }
    }
  }

  lemma StepRequestIs(l: Ledger)
    requires Chain(l) && NextRequest(l).Ok? && NextRequest(l).value.Some? && NextRequest(l).value.value.StepRequest?
    ensures var req := NextRequest(l).value.value;
      && 1 <= req.idx < |l.commits| && l.commits[req.idx].step.None?
      && (forall j :: 1 <= j < req.idx ==> l.commits[j].step.Some?)
      && req == StepRequest(l.commits[req.idx].id, req.idx, Some(l.commits[req.idx - 1].root), l.commits[req.idx].root,
                            l.snaps[req.idx - 1], l.commits[req.idx].zkBatch)
  {
    if FirstWithoutStep(l.commits, 1).Some? {
      var i := FirstWithoutStep(l.commits, 1).value;
      assert Follows(l.snaps, l.commits, i);
    } else {
      NextFoldAsksToFold(l, 1, None);
    }
  }

  /**
   In every reachable ledger a step request is for the first commitment without a step. It carries a proof against the
   tree before that commitment, and bytes with which the guest takes any hashed form of that tree to the hashed form
   of the commitment's own.
   */
  lemma StepRequestWitness(h: Hasher, actions: seq<Action>, leaves: map<Digest, Digest>)
    requires var l := Run(h, EMPTY, actions);
      NextRequest(l).Ok? && NextRequest(l).value.Some? && NextRequest(l).value.value.StepRequest?
    ensures var l := Run(h, EMPTY, actions);
      var req := NextRequest(l).value.value;
      && 1 <= req.idx < |l.commits| == |l.snaps| && l.commits[req.idx].id == req.id && l.commits[req.idx].step.None?
      && (forall j :: 1 <= j < req.idx ==> l.commits[j].step.Some?)
      && req.prevRoot == Some(RootOf(l.snaps[req.idx - 1])) && req.root == RootOf(l.snaps[req.idx])
      && req.exclusion == l.snaps[req.idx - 1]
      && (NoCollision(h, l.snaps[req.idx].Keys) && Hashes(h, leaves, req.exclusion) ==>
            Accepts(h, leaves, req.zkBatch, l.snaps[req.idx]))
  {
    var l := Run(h, EMPTY, actions);
    Reachable(h, actions);
    ReachableStored(h, actions);
    StepRequestIs(l);
    WitnessOf(h, l, NextRequest(l).value.value.idx, leaves);
  }

  lemma WitnessOf(h: Hasher, l: Ledger, i: nat, leaves: map<Digest, Digest>)
    requires AllStored(h, l) && 1 <= i < |l.commits|
    ensures NoCollision(h, l.snaps[i].Keys) && Hashes(h, leaves, l.snaps[i - 1]) ==> Accepts(h, leaves, l.commits[i].zkBatch, l.snaps[i])
  {
    if NoCollision(h, l.snaps[i].Keys) && Hashes(h, leaves, l.snaps[i - 1]) {
      StoredAccepts(h, l, i, leaves);
    }
  }
}
