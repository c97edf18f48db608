/**
 The operator's handle on one space: the SpaceDB snapshots and the SQLite tables,
 changed write by write. The ghost log holds the ledger after every durable write,
 so it lists exactly the states in which a crash can leave the space.
 */
module LocalSpaces {
  import opened Wrappers
  import opened Tables
  import opened ZkBatch
  import opened Ledgers
  import opened Proving
  import opened LedgerRuns

  datatype CommitResult = CommitResult(prevRoot: Option<Root>, root: Option<Root>, handlesCommitted: nat, isInitial: bool)

  datatype CommitFailure = UnknownRoot | Blocked(why: Blocker) | Failed(error: Error)

  class LocalSpace {
    const hasher: Hasher
    var snaps: seq<Tree>
    var commits: seq<Commitment>
    var nextId: nat
    var handles: seq<HandleRow>
    var receipts: seq<Receipt>
    ghost var log: seq<Ledger>

    ghost function View(): Ledger
      reads this
    {
      Ledger(snaps, commits, nextId, handles, receipts)
    }

    constructor (hasher: Hasher)
      ensures View() == EMPTY && log == [] && this.hasher == hasher
    {
      this.hasher := hasher;
      snaps, commits, nextId, handles, receipts := [], [], 0, [], [];
      log := [];
    }

    // SpaceDB

    /** A write transaction: insert every entry, then commit a new snapshot. */
    method WriteBatch(entries: seq<Entry>)
      modifies this`snaps, this`log
      ensures View() == WriteTree(old(View()), entries)
      ensures log == old(log) + [View()]
    {
      var tree := Newest(snaps);
      for i := 0 to |entries|
        invariant tree == InsertAll(Newest(snaps), entries[..i])
        invariant snaps == old(snaps) && log == old(log)
      {
        assert entries[..i + 1][..i] == entries[..i];
        tree := tree[entries[i].name := entries[i].spk];
      }
      assert entries[..|entries|] == entries;
      snaps := snaps + [tree];
      log := log + [View()];
    }

    /** The newest snapshot with this root, searched from the newest to the oldest. */
    method SnapshotForTip(tip: Root) returns (at: Option<nat>)
      ensures at == FindSnapshot(snaps, tip)
    {
      var i := |snaps|;
      while i > 0
        invariant 0 <= i <= |snaps|
        invariant forall j :: i <= j < |snaps| ==> RootOf(snaps[j]) != tip
      {
        i := i - 1;
        if RootOf(snaps[i]) == tip {
          return Some(i);
        }
      }
      return None;
    }

    method LookupHandleInTree(name: Name, tip: Option<Root>) returns (spk: Result<Option<Spk>, Error>)
      ensures tip.None? ==> spk == Ok(None)
      ensures tip.Some? && FindSnapshot(snaps, tip.value).None? ==> spk == Err(NoSnapshot)
      ensures tip.Some? && FindSnapshot(snaps, tip.value).Some? ==>
        var tree := snaps[FindSnapshot(snaps, tip.value).value];
        spk == Ok(if name in tree then Some(tree[name]) else None)
    {
      if tip.None? {
        return Ok(None);
      }
      var at := SnapshotForTip(tip.value);
      if at.None? {
        return Err(NoSnapshot);
      }
      var tree := snaps[at.value];
      spk := Ok(if name in tree then Some(tree[name]) else None);
    }

    /** Drop the snapshot with this root and everything newer; at genesis, reset the whole tree. */
    method RollbackSnapshot(root: Root) returns (ok: bool)
      modifies this`snaps, this`log
      ensures ok <==> FindSnapshot(old(snaps), root).Some?
      ensures ok ==> snaps == old(snaps)[..FindSnapshot(old(snaps), root).value] && log == old(log) + [View()]
      ensures !ok ==> snaps == old(snaps) && log == old(log)
    {
      var found := false;
      var i := |snaps|;
      while i > 0
        invariant 0 <= i <= |snaps| && snaps == old(snaps) && log == old(log)
        invariant !found ==> forall j :: i <= j < |snaps| ==> RootOf(snaps[j]) != root
        invariant found ==> i < |snaps| && RootOf(snaps[i]) == root && forall j :: i < j < |snaps| ==> RootOf(snaps[j]) != root
      {
        i := i - 1;
        if found {
          // the first snapshot older than the target
          snaps := snaps[..i + 1];
          log := log + [View()];
          return true;
        }
        if RootOf(snaps[i]) == root {
          found := true;
        }
      }
      if found {
        snaps := [];
        log := log + [View()];
        return true;
      }
      return false;
    }

    // Staging

    method AddRequest(name: Name, spk: Spk) returns (skip: Option<SkipReason>)
      modifies this
      ensures View() == Ledgers.AddRequest(old(View()), name, spk)
      ensures skip == SkipFor(old(View()), name, spk)
      ensures log == old(log) + AddTrace(old(View()), name, spk)
    {
      var tree := Newest(snaps);
      if name in tree {
        return Some(if tree[name] != spk then CommittedDifferentSpk else AlreadyCommitted);
      }
      var staged := Select(handles, StagedNamed(name));
      if staged != [] {
        return Some(if staged[0].spk != spk then StagedDifferentSpk else AlreadyStaged);
      }
      handles := InsertOrReplace(handles, NewRow(name, spk));
      log := log + [View()];
      return None;
    }

    /** Park or unpark: the named staged handles, or all of them. Answers how many rows the UPDATEs matched. */
    method SetParked(names: seq<Name>, parked: bool) returns (count: nat)
      modifies this
      ensures View() == Ledgers.SetParked(old(View()), names, parked)
      ensures log == old(log) + ParkTrace(old(View()), names, parked)
      ensures count == if names == [] then Count(old(handles), Staged) else ParkCount(old(handles), names)
    {
      if names != [] {
        count := ParkNamed(names, parked);
      } else {
        count := Count(handles, Staged);
        handles := Update(handles, Staged, Park(parked));
        log := log + [View()];
      }
    }

    /** One UPDATE per name. */
    method ParkNamed(names: seq<Name>, parked: bool) returns (count: nat)
      requires names != []
      modifies this
      ensures View() == Ledgers.SetParked(old(View()), names, parked)
      ensures log == old(log) + ParkTrace(old(View()), names, parked)
      ensures count == ParkCount(old(handles), names)
    {
      ghost var before := View();
      ghost var trace := ParkTrace(before, names, parked);
      count := 0;
      for i := 0 to |names|
        invariant View() == before.(handles := ParkNames(before.handles, names[..i], parked))
        invariant log == old(log) + trace[..i]
        invariant count == ParkCount(before.handles, names[..i])
      {
        assert names[..i + 1][..i] == names[..i];
        ParkingKeepsCount(before.handles, names[..i], parked, names[i]);
        count := count + Count(handles, StagedNamed(names[i]));
        handles := Update(handles, StagedNamed(names[i]), Park(parked));
        log := log + [View()];
        assert View() == trace[i];
      }
      assert names[..|names|] == names;
    }

    /** Remove the named staged handles, or all of them. Answers how many rows went. */
    method RemoveStaged(names: seq<Name>) returns (count: nat)
      modifies this
      ensures View() == Ledgers.RemoveStaged(old(View()), names)
      ensures log == old(log) + RemoveTrace(old(View()), names)
      ensures count == |old(handles)| - |handles|
    {
      count := 0;
      if names != [] {
        for i := 0 to |names|
          invariant View() == old(View()).(handles := DeleteNames(old(handles), names[..i]))
          invariant log == old(log) + RemoveTrace(old(View()), names)[..i]
          invariant count == |old(handles)| - |handles|
        {
          assert names[..i + 1][..i] == names[..i];
          DeleteCounts(handles, StagedNamed(names[i]));
          count := count + Count(handles, StagedNamed(names[i]));
          handles := Delete(handles, StagedNamed(names[i]));
          log := log + [View()];
          assert View() == RemoveTrace(old(View()), names)[i];
        }
        assert names[..|names|] == names;
      } else {
        DeleteCounts(handles, Staged);
        count := Count(handles, Staged);
        handles := Delete(handles, Staged);
        log := log + [View()];
      }
    }

    // Committing

    /** The staged, unparked handles in row order, with the tree to prove exclusion against unless this is the first commitment. */
    method PrepareZkInput() returns (r: Result<(Option<Tree>, seq<Entry>), Error>)
      ensures StagedEntries(View()) == [] ==> r == Err(NoChanges)
      ensures StagedEntries(View()) != [] ==>
        r == Ok((if commits == [] then None else Some(Newest(snaps)), StagedEntries(View())))
    {
      var staged := Select(handles, StagedUnparked);
      if staged == [] {
        return Err(NoChanges);
      }
      var batch := [];
      for i := 0 to |staged|
        invariant batch == EntriesOf(staged)[..i]
      {
        batch := batch + [Entry(staged[i].name, staged[i].spk)];
      }
      assert batch == EntriesOf(staged);
      if |commits| == 0 {
        return Ok((None, batch));
      }
      return Ok((Some(Newest(snaps)), batch));
    }

    /** INSERT INTO commitments with idx = COUNT(*). */
    method AddCommitment(prevRoot: Option<Root>, root: Root, zkBatch: seq<Byte>, exclusion: Option<Tree>) returns (idx: nat)
      modifies this
      ensures View() == Ledgers.AddCommitment(old(View()), prevRoot, root, zkBatch, exclusion)
      ensures idx == |old(commits)| && log == old(log) + [View()]
    {
      idx := |commits|;
      commits := commits + [Commitment(nextId, idx, prevRoot, root, zkBatch, exclusion, None, None, None)];
      nextId := nextId + 1;
      log := log + [View()];
    }

    method CommitStagedHandles(root: Root, idx: nat)
      modifies this
      ensures View() == CommitStaged(old(View()), root, idx) && log == old(log) + [View()]
    {
      handles := Update(handles, StagedUnparked, MarkCommitted(root, idx));
      log := log + [View()];
    }

    method Commit(dryRun: bool) returns (r: Result<CommitResult, Error>)
      modifies this
      ensures dryRun ==> View() == old(View()) && log == old(log)
      ensures !dryRun ==> View() == Ledgers.Commit(hasher, old(View())) && log == old(log) + TraceOf(CommitTrace(hasher, old(View())))
      ensures r.Ok? <==> CommitTrace(hasher, old(View())).Ok?
      ensures r.Ok? ==>
        && r.value.handlesCommitted == |StagedEntries(old(View()))|
        && (r.value.isInitial <==> old(commits) == [])
        && (!dryRun ==> r.value.root == Some(RootOf(Newest(snaps))))
        && r.value.prevRoot == if old(commits) == [] then None else Some(RootOf(Newest(old(snaps))))
    {
      var prepared := PrepareZkInput();
      if prepared.Err? {
        return Err(prepared.error);
      }
      var (exclusion, entries) := prepared.value;
      var zkBatch := ToZkInput(hasher, entries);
      match exclusion {
        case Some(tree) =>
          var claim := GuestRun(tree, entries);
          if claim.None? {
            return Err(BatchRejected);
          }
          var (prev, root) := claim.value;
          r := Ok(CommitResult(Some(prev), Some(root), |entries|, false));
          if !dryRun {
            var idx := AddCommitment(Some(prev), root, zkBatch, Some(tree));
            WriteBatch(entries);
            CommitStagedHandles(root, idx);
          }
        case None =>
          r := Ok(CommitResult(None, None, |entries|, true));
          if !dryRun {
            WriteBatch(entries);
            var root := RootOf(Newest(snaps));
            var idx := AddCommitment(None, root, zkBatch, None);
            CommitStagedHandles(root, idx);
            r := Ok(CommitResult(None, Some(root), |entries|, true));
          }
      }
    }

    /** The gate of the operator in front of Commit. */
    method CommitLocal(health: Option<Root>, node: Option<ChainView>) returns (r: Result<CommitResult, CommitFailure>)
      modifies this
      ensures View() == LedgerRuns.CommitLocal(hasher, old(View()), health, node)
      ensures r == Err(UnknownRoot) <==> node.Some? && !Healthy(old(commits), health)
      ensures r.Err? && r.error.Blocked? <==>
        (node.None? || Healthy(old(commits), health)) && CommitBlocker(old(View()), node).Some?
      ensures r.Ok? ==> CommitTrace(hasher, old(View())).Ok?
      ensures log == old(log) + if r.Ok? then TraceOf(CommitTrace(hasher, old(View()))) else []
    {
      if node.Some? && !Healthy(commits, health) {
        return Err(UnknownRoot);
      }
      var blocker := CommitBlocker(Ledger(snaps, commits, nextId, handles, receipts), node);
      if blocker.Some? {
        return Err(Blocked(blocker.value));
      }
      var result := Commit(false);
      match result {
        case Ok(done) => r := Ok(done);
        case Err(e) => r := Err(Failed(e));
      }
    }

    // Rolling back

    /** Unstage the handles of the last commitment, then delete its row. */
    method RollbackLastCommitment() returns (r: Result<(), Error>)
      modifies this
      ensures LastByIdx(old(commits)).None? ==> r == Err(NoCommitments)
      ensures LastByIdx(old(commits)).Some? && LastByIdx(old(commits)).value.txid.Some? ==> r == Err(AlreadyBroadcast)
      ensures r.Err? ==> View() == old(View()) && log == old(log)
      ensures r.Ok? <==> LastByIdx(old(commits)).Some? && LastByIdx(old(commits)).value.txid.None?
      ensures r.Ok? ==>
        && LastByIdx(old(commits)).Some?
        && var last := LastByIdx(old(commits)).value;
           var l1 := UnstageRoot(old(View()), last.root);
           && last.txid.None?
           && View() == DeleteCommitment(l1, last.id)
           && log == old(log) + [l1, View()]
    {
      var last := LastByIdx(commits);
      if last.None? {
        return Err(NoCommitments);
      }
      if last.value.txid.Some? {
        return Err(AlreadyBroadcast);
      }
      Forget(last.value);
      return Ok(());
    }

    /** UPDATE handles, then DELETE FROM commitments: two durable writes. */
    method Forget(c: Commitment)
      modifies this
      ensures View() == DeleteCommitment(UnstageRoot(old(View()), c.root), c.id)
      ensures log == old(log) + [UnstageRoot(old(View()), c.root), View()]
    {
      handles := Update(handles, CommittedAt(c.root), Unstage);
      log := log + [View()];
      commits := WithoutId(commits, c.id);
      log := log + [View()];
    }

    method RollbackLocal() returns (r: Result<(), Error>)
      modifies this
      ensures r.Ok? <==> RollbackTrace(old(View())).Ok?
      ensures r.Err? ==> r.error == RollbackTrace(old(View())).error
      ensures View() == Ledgers.Rollback(old(View()))
      ensures log == old(log) + TraceOf(RollbackTrace(old(View())))
    {
      var last := LastByIdx(commits);
      if last.None? {
        return Err(NoCommitments);
      }
      if last.value.txid.Some? {
        return Err(AlreadyBroadcast);
      }
      ghost var before := View();
      var ok := RollbackSnapshot(last.value.root);
      if !ok {
        return Err(NoSnapshot);
      }
      ghost var l1 := before.(snaps := before.snaps[..FindSnapshot(before.snaps, last.value.root).value]);
      ghost var l2 := UnstageRoot(l1, last.value.root);
      assert View() == l1;
      r := RollbackLastCommitment();
      assert RollbackTrace(before) == Ok([l1, l2, DeleteCommitment(l2, last.value.id)]);
    }

    method CheckConsistency() returns (cleaned: bool)
      modifies this
      ensures View() == Ledgers.CheckConsistency(old(View()))
      ensures log == old(log) + CheckTrace(old(View()))
      ensures cleaned <==> CheckTrace(old(View())) != []
    {
      var root := RootOf(Newest(snaps));
      var last := LastByIdx(commits);
      if last.None? || last.value.txid.Some? || last.value.root == root {
        return false;
      }
      Forget(last.value);
      return true;
    }

    // Proving

    method GetNextProvingRequest() returns (r: Result<Option<Request>, Error>)
      ensures r == NextRequest(View())
    {
      if |commits| < 2 {
        return Ok(None);
      }
      // first, any pending step
      for i := 1 to |commits|
        invariant FirstWithoutStep(commits, 1) == FirstWithoutStep(commits, i)
      {
        if commits[i].step.None? {
          return StepRequestFor(commits[i]);
        }
      }
      // all steps done: the first pending fold
      var acc: Option<Receipt> := None;
      for i := 1 to |commits|
        invariant NextFold(View(), 1, None) == NextFold(View(), i, acc)
      {
        var c := commits[i];
        if c.step.Some? {
          var step := Lookup(receipts, c.step.value);
          if step.None? {
            return Err(MissingReceipt);
          }
          if acc.None? {
            acc := step;
          } else if c.aggregate.Some? {
            var aggregate := Lookup(receipts, c.aggregate.value);
            if aggregate.None? {
              return Err(MissingReceipt);
            }
            acc := aggregate;
          } else {
            return Ok(Some(FoldRequest(c.id, c.idx, c.prevRoot, c.root, acc.value, step.value)));
          }
        }
      }
      return Ok(None);
    }

    method CountPendingProofs() returns (count: nat)
      ensures count == CountPending(commits)
    {
      count := 0;
      var i := 1;
      while i < |commits|
        invariant i >= 1
        invariant i <= |commits| || |commits| == 0
        invariant i <= |commits| ==> count == PendingUpTo(commits, i)
        invariant |commits| == 0 ==> count == 0
      {
        if commits[i].step.None? {
          count := count + 1;
        }
        if commits[i].idx >= 2 && commits[i].aggregate.None? {
          count := count + 1;
        }
        i := i + 1;
      }
    }

    method SaveProvingReceipt(id: nat, isFold: bool, receipt: Receipt) returns (r: Result<(), Error>)
      modifies this
      ensures View() == OrSame(old(View()), SaveReceipt(old(View()), id, isFold, receipt))
      ensures r.Ok? <==> SaveReceipt(old(View()), id, isFold, receipt).Ok?
      ensures log == old(log) + SaveTrace(old(View()), id, isFold, receipt)
    {
      if receipt.program != (if isFold then Fold else Step) {
        return Err(WrongProgram);
      }
      var rid := |receipts|;
      receipts := receipts + [receipt];
      log := log + [View()];
      commits := if isFold then SetAggregate(commits, id, rid) else SetStep(commits, id, rid);
      log := log + [View()];
      return Ok(());
    }

    /** The operator's on-chain commit: what the node says to the health check and about delegation, and what the wallet answers. */
    method BroadcastLast(health: Option<Root>, delegated: bool, wallet: Option<Txid>) returns (r: Result<Txid, Error>)
      modifies this
      ensures r.Ok? <==>
        Healthy(old(commits), health) && delegated && wallet.Some? && Broadcast(old(View()), wallet.value).Ok?
      ensures r.Ok? ==>
        && wallet == Some(r.value)
        && View() == Broadcast(old(View()), r.value).value
        && log == old(log) + BroadcastTrace(old(View()), r.value)
      ensures r.Err? ==> View() == old(View()) && log == old(log)
    {
      if !Healthy(commits, health) {
        return Err(Unhealthy);
      }
      if !delegated {
        return Err(NotDelegated);
      }
      var last := LastByIdx(commits);
      if last.None? {
        return Err(NoCommitments);
      }
      if last.value.txid.Some? {
        return Err(AlreadyBroadcast);
      }
      if last.value.prevRoot.Some? && last.value.step.None? {
        return Err(NeedsProving);
      }
      if wallet.None? {
        return Err(WalletRefused);
      }
      commits := SetTxid(commits, last.value.id, wallet.value);
      log := log + [View()];
      return Ok(wallet.value);
    }
  }

  /** Parking leaves it to every later UPDATE to match the same rows. */
  lemma {:induction false} ParkingKeepsCount(rows: seq<HandleRow>, names: seq<Name>, parked: bool, name: Name)
    ensures Count(ParkNames(rows, names, parked), StagedNamed(name)) == Count(rows, StagedNamed(name))
  {
    if names != [] {
      var init := ParkNames(rows, names[..|names| - 1], parked);
      ParkingKeepsCount(rows, names[..|names| - 1], parked, name);
      UpdateKeepsCount(init, StagedNamed(names[|names| - 1]), parked, name);
    }
  }

  lemma {:induction false} UpdateKeepsCount(rows: seq<HandleRow>, w: Where, parked: bool, name: Name)
    ensures Count(Update(rows, w, Park(parked)), StagedNamed(name)) == Count(rows, StagedNamed(name))
  {
    if rows != [] {
      var n := |rows| - 1;
      assert Update(rows, w, Park(parked))[..n] == Update(rows[..n], w, Park(parked));
      UpdateKeepsCount(rows[..n], w, parked, name);
    }
  }

  lemma {:induction false} DeleteCounts(rows: seq<HandleRow>, w: Where)
    ensures |Delete(rows, w)| + Count(rows, w) == |rows|
  {
    if rows != [] {
      DeleteCounts(rows[..|rows| - 1], w);
    }
  }
}
