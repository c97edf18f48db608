/**
 The two stores agree after every operation; a crash inside a rollback, or inside
 a commit before its tree write, is repaired by the consistency check; a rollback
 undoes a commit.
 */
module LedgerProofs {
  import opened Wrappers
  import opened Tables
  import opened ZkBatch
  import opened Ledgers

  // Snapshots only grow

  lemma {:induction false} SnapsGrow(snaps: seq<Tree>, i: nat, j: nat)
    requires Growing(snaps) && i <= j <= |snaps|
    ensures Before(snaps, i).Keys <= Before(snaps, j).Keys
    ensures i < j ==> Before(snaps, i).Keys < Before(snaps, j).Keys
  {
    if i < j {
      SnapsGrow(snaps, i, j - 1);
      assert GrewAt(snaps, j - 1);
    }
  }

  /** A name stays, with its key. */
  lemma {:induction false} Kept(snaps: seq<Tree>, i: nat, j: nat, name: Name)
    requires Growing(snaps) && i <= j < |snaps| && name in snaps[i]
    ensures name in snaps[j] && snaps[j][name] == snaps[i][name]
  {
    if i < j {
      Kept(snaps, i, j - 1, name);
      assert GrewAt(snaps, j);
    }
  }

  /** Every snapshot, and the empty tree before them, has a root of its own. */
  lemma RootsDiffer(snaps: seq<Tree>, i: nat, j: nat)
    requires Growing(snaps) && i < j <= |snaps|
    ensures RootOf(Before(snaps, i)) != RootOf(Before(snaps, j))
  {
    SnapsGrow(snaps, i, j);
  }

  // Inserting a batch

  lemma {:induction false} InsertOther(t: Tree, rows: seq<HandleRow>, n: Name)
    requires n !in Names(rows)
    ensures n in InsertAll(t, EntriesOf(rows)) <==> n in t
    ensures n in t ==> InsertAll(t, EntriesOf(rows))[n] == t[n]
  {
    if rows != [] {
      var k := |rows| - 1;
      assert rows == rows[..k] + [rows[k]];
      assert EntriesOf(rows)[..k] == EntriesOf(rows[..k]);
      assert rows[k] in rows;
      InsertOther(t, rows[..k], n);
    }
  }

  lemma {:induction false} InsertRow(t: Tree, rows: seq<HandleRow>, i: nat)
    requires UniqueNames(rows) && i < |rows|
    ensures rows[i].name in InsertAll(t, EntriesOf(rows))
    ensures InsertAll(t, EntriesOf(rows))[rows[i].name] == rows[i].spk
  {
    var k := |rows| - 1;
    assert EntriesOf(rows)[..k] == EntriesOf(rows[..k]);
    if i < k {
      InsertRow(t, rows[..k], i);
    }
  }

  /** What a commit writes: the old tree with the unparked staged rows added. */
  lemma NewTree(l: Ledger, r: HandleRow)
    requires Inv(l) && r in l.handles && r.idx.None?
    ensures var tree := InsertAll(Newest(l.snaps), StagedEntries(l));
      && (r.name in tree <==> !r.parked)
      && (!r.parked ==> tree[r.name] == r.spk)
  {
    var rows := Select(l.handles, StagedUnparked);
    SelectUnique(l.handles, StagedUnparked);
    assert RowOk(l.snaps, r);
    if r.parked {
      forall r' | r' in rows ensures r'.name != r.name {
        if r'.name == r.name {
          UniqueRow(l.handles, r, r');
        }
      }
      InsertOther(Newest(l.snaps), rows, r.name);
    } else {
      assert r in rows;
      var i :| 0 <= i < |rows| && rows[i] == r;
      InsertRow(Newest(l.snaps), rows, i);
    }
  }

  lemma OldNames(l: Ledger, n: Name)
    requires Inv(l) && n in Newest(l.snaps)
    ensures var tree := InsertAll(Newest(l.snaps), StagedEntries(l)); n in tree && tree[n] == Newest(l.snaps)[n]
  {
    var rows := Select(l.handles, StagedUnparked);
    forall r | r in rows ensures r.name != n {
      assert RowOk(l.snaps, r);
    }
    InsertOther(Newest(l.snaps), rows, n);
  }

  lemma NewNames(l: Ledger, n: Name)
    requires Inv(l) && n in InsertAll(Newest(l.snaps), StagedEntries(l))
    ensures n in Names(l.handles)
  {
    var rows := Select(l.handles, StagedUnparked);
    if n in Names(rows) {
      var r :| r in rows && r.name == n;
      assert r in l.handles;
    } else {
      InsertOther(Newest(l.snaps), rows, n);
    }
  }

  // Staging, parking and removing

  lemma RowsUpdate(snaps: seq<Tree>, rows: seq<HandleRow>, w: Where, c: Change)
    requires Rows(snaps, rows)
    requires c.Park? || c.Publish? || c.ClearPublish?
    requires c.Park? ==> forall r: HandleRow :: w.Holds(r) ==> r.root.None?
    ensures Rows(snaps, Update(rows, w, c))
  {
    UpdateNames(rows, w, c);
    var s := Update(rows, w, c);
    forall r | r in s ensures RowOk(snaps, r) {
      var i :| 0 <= i < |s| && s[i] == r;
      assert RowOk(snaps, rows[i]);
    }
  }

  lemma RowsDelete(snaps: seq<Tree>, rows: seq<HandleRow>, w: Where)
    requires Rows(snaps, rows)
    requires forall r: HandleRow :: w.Holds(r) ==> r.root.None?
    ensures Rows(snaps, Delete(rows, w))
  {
    SelectUnique(rows, Not(w));
    var s := Delete(rows, w);
    forall n | n in Newest(snaps) ensures n in Names(s) {
      assert n in Names(rows);
      var r :| r in rows && r.name == n;
      assert RowOk(snaps, r);
      assert r in s;
    }
  }

  lemma {:induction false} ParkNamesRows(snaps: seq<Tree>, rows: seq<HandleRow>, names: seq<Name>, parked: bool)
    requires Rows(snaps, rows)
    ensures Rows(snaps, ParkNames(rows, names, parked))
  {
    if names != [] {
      var n := |names| - 1;
      ParkNamesRows(snaps, rows, names[..n], parked);
      RowsUpdate(snaps, ParkNames(rows, names[..n], parked), StagedNamed(names[n]), Park(parked));
    }
  }

  lemma {:induction false} DeleteNamesRows(snaps: seq<Tree>, rows: seq<HandleRow>, names: seq<Name>)
    requires Rows(snaps, rows)
    ensures Rows(snaps, DeleteNames(rows, names))
  {
    if names != [] {
      var n := |names| - 1;
      DeleteNamesRows(snaps, rows, names[..n]);
      RowsDelete(snaps, DeleteNames(rows, names[..n]), StagedNamed(names[n]));
    }
  }

  /** Removing by name takes exactly the staged rows of those names. */
  lemma {:induction false} DeleteNamesIs(rows: seq<HandleRow>, names: seq<Name>, r: HandleRow)
    ensures r in DeleteNames(rows, names) <==> r in rows && !(r.name in names && r.root.None?)
  {
    if names != [] {
      var n := |names| - 1;
      assert names == names[..n] + [names[n]];
      DeleteNamesIs(rows, names[..n], r);
    }
  }

  /** Parking by name sets the flag on exactly the staged rows of those names. */
  lemma {:induction false} ParkNamesIs(rows: seq<HandleRow>, names: seq<Name>, parked: bool, i: nat)
    requires i < |rows|
    ensures |ParkNames(rows, names, parked)| == |rows|
    ensures ParkNames(rows, names, parked)[i] == if rows[i].name in names && rows[i].root.None? then rows[i].(parked := parked) else rows[i]
  {
    if names != [] {
      var n := |names| - 1;
      assert names == names[..n] + [names[n]];
      ParkNamesIs(rows, names[..n], parked, i);
    }
  }

  /** Parking flags exactly the staged rows that are meant: those of the names, or all when there are none. */
  lemma SetParkedIs(l: Ledger, names: seq<Name>, parked: bool, i: nat)
    requires i < |l.handles|
    ensures |SetParked(l, names, parked).handles| == |l.handles|
    ensures SetParked(l, names, parked).handles[i] ==
      if (names == [] || l.handles[i].name in names) && l.handles[i].root.None? then l.handles[i].(parked := parked) else l.handles[i]
    ensures SetParked(l, names, parked) == l.(handles := SetParked(l, names, parked).handles)
  {
    if names != [] {
      ParkNamesIs(l.handles, names, parked, i);
    }
  }

  /** Removal takes exactly the staged rows that are meant: those of the names, or all when there are none. */
  lemma RemoveStagedIs(l: Ledger, names: seq<Name>, r: HandleRow)
    ensures r in RemoveStaged(l, names).handles <==> r in l.handles && !(r.root.None? && (names == [] || r.name in names))
    ensures RemoveStaged(l, names) == l.(handles := RemoveStaged(l, names).handles)
  {
    if names != [] {
      DeleteNamesIs(l.handles, names, r);
    }
  }

  lemma SetParkedInv(l: Ledger, names: seq<Name>, parked: bool)
    requires Inv(l)
    ensures Inv(SetParked(l, names, parked))
  {
    if names == [] {
      RowsUpdate(l.snaps, l.handles, Staged, Park(parked));
    } else {
      ParkNamesRows(l.snaps, l.handles, names, parked);
    }
  }

  lemma RemoveStagedInv(l: Ledger, names: seq<Name>)
    requires Inv(l)
    ensures Inv(RemoveStaged(l, names))
  {
    if names == [] {
      RowsDelete(l.snaps, l.handles, Staged);
    } else {
      DeleteNamesRows(l.snaps, l.handles, names);
    }
  }

  /** On a consistent ledger the row of a name, if it has one, decides what becomes of a request for it. */
  lemma SkipIs(l: Ledger, name: Name, spk: Spk)
    requires Inv(l)
    ensures SkipFor(l, name, spk).None? <==> name !in Names(l.handles)
    ensures forall r :: r in l.handles && r.name == name ==>
      SkipFor(l, name, spk) == Some(
        if r.idx.Some? then (if r.spk == spk then AlreadyCommitted else CommittedDifferentSpk)
        else (if r.spk == spk then AlreadyStaged else StagedDifferentSpk))
  {
    if SkipFor(l, name, spk).None? {
      NothingReplaced(l, name, spk);
    }
    forall r | r in l.handles && r.name == name ensures SkipFor(l, name, spk) == Some(
      if r.idx.Some? then (if r.spk == spk then AlreadyCommitted else CommittedDifferentSpk)
      else (if r.spk == spk then AlreadyStaged else StagedDifferentSpk)) {
      assert RowOk(l.snaps, r);
      if r.idx.Some? {
        Kept(l.snaps, r.idx.value, |l.snaps| - 1, name);
      } else {
        var staged := Select(l.handles, StagedNamed(name));
        assert r in staged;
        assert staged[0] in staged;
        UniqueRow(l.handles, r, staged[0]);
      }
    }
    if name !in Names(l.handles) {
      SelectNone(l.handles, StagedNamed(name));
      assert name !in Newest(l.snaps);
    }
  }

  /** A handle that may be staged has no row at all: INSERT OR REPLACE never replaces one, least of all a committed one. */
  lemma NothingReplaced(l: Ledger, name: Name, spk: Spk)
    requires Inv(l) && SkipFor(l, name, spk).None?
    ensures name !in Names(l.handles)
    ensures AddRequest(l, name, spk).handles == l.handles + [NewRow(name, spk)]
  {
    forall r | r in l.handles ensures r.name != name {
      assert RowOk(l.snaps, r) && (StagedNamed(name).Holds(r) ==> r in Select(l.handles, StagedNamed(name)));
      if r.name == name {
        if r.idx.Some? {
          Kept(l.snaps, r.idx.value, |l.snaps| - 1, name);
        }
        assert false;
      }
    }
    forall r | r in l.handles ensures Not(Named(name)).Holds(r) {
      assert !Named(name).Holds(r);
    }
    SelectAll(l.handles, Not(Named(name)));
  }

  lemma AddRequestInv(l: Ledger, name: Name, spk: Spk)
    requires Inv(l)
    ensures Inv(AddRequest(l, name, spk))
  {
    if SkipFor(l, name, spk).None? {
      NothingReplaced(l, name, spk);
      var rows := AddRequest(l, name, spk).handles;
      assert name !in Newest(l.snaps);
      assert forall i :: 0 <= i < |l.handles| ==> l.handles[i] in l.handles;
      forall n | n in Newest(l.snaps) ensures n in Names(rows) {
        assert n in Names(l.handles);
        var r :| r in l.handles && r.name == n;
        assert r in rows;
      }
    }
  }

  // Committing

  /** What a commit makes of a consistent ledger. */
  function Committed(h: Hasher, l: Ledger): Ledger {
    var entries := StagedEntries(l);
    var tree := InsertAll(Newest(l.snaps), entries);
    var n := |l.commits|;
    var prev := if n == 0 then None else Some(RootOf(Newest(l.snaps)));
    var exclusion := if n == 0 then None else Some(Newest(l.snaps));
    Ledger(l.snaps + [tree],
           l.commits + [Commitment(l.nextId, n, prev, RootOf(tree), ZkInput(h, entries), exclusion, None, None, None)],
           l.nextId + 1,
           Update(l.handles, StagedUnparked, MarkCommitted(RootOf(tree), n)),
           l.receipts)
  }

  lemma StagedAbsent(l: Ledger)
    requires Inv(l)
    ensures forall i :: 0 <= i < |StagedEntries(l)| ==> StagedEntries(l)[i].name !in Newest(l.snaps)
  {
    var rows := Select(l.handles, StagedUnparked);
    forall i | 0 <= i < |rows| ensures StagedEntries(l)[i].name !in Newest(l.snaps) {
      assert rows[i] in rows;
      assert RowOk(l.snaps, rows[i]);
    }
  }

  /** On a consistent ledger a commit fails only for want of staged handles: the guest never rejects the batch. */
  lemma CommitIs(h: Hasher, l: Ledger)
    requires Inv(l)
    ensures CommitTrace(h, l).Ok? <==> StagedEntries(l) != []
    ensures CommitTrace(h, l).Err? ==> CommitTrace(h, l).error == NoChanges && Commit(h, l) == l
    ensures CommitTrace(h, l).Ok? ==>
      var m := Committed(h, l);
      && CommitTrace(h, l).value ==
           [if l.commits == [] then l.(snaps := m.snaps) else l.(commits := m.commits, nextId := m.nextId),
            m.(handles := l.handles),
            m]
      && Commit(h, l) == m
  {
    StagedAbsent(l);
    assert |l.commits| == 0 ==> Newest(l.snaps) == map[];
  }

  lemma CommittedGrows(h: Hasher, l: Ledger)
    requires Inv(l) && StagedEntries(l) != []
    ensures Grew(Newest(l.snaps), Newest(Committed(h, l).snaps))
  {
    var r := Select(l.handles, StagedUnparked)[0];
    assert r in Select(l.handles, StagedUnparked);
    assert RowOk(l.snaps, r);
    NewTree(l, r);
    forall n | n in Newest(l.snaps) ensures n in Newest(Committed(h, l).snaps) && Newest(Committed(h, l).snaps)[n] == Newest(l.snaps)[n] {
      OldNames(l, n);
    }
  }

  lemma CommittedChain(h: Hasher, l: Ledger)
    requires Inv(l) && StagedEntries(l) != []
    ensures Chain(Committed(h, l))
  {
    var m := Committed(h, l);
    forall i | 0 <= i < |m.commits| ensures Follows(m.snaps, m.commits, i) && GrewAt(m.snaps, i) {
      if i < |l.commits| {
        assert Follows(l.snaps, l.commits, i) && GrewAt(l.snaps, i);
      } else {
        CommittedGrows(h, l);
      }
    }
  }

  lemma RowStays(snaps: seq<Tree>, tree: Tree, r: HandleRow)
    requires RowOk(snaps, r) && (r.idx.None? ==> r.name !in tree)
    ensures RowOk(snaps + [tree], r)
  {
    if r.idx.Some? {
      assert Before(snaps + [tree], r.idx.value) == Before(snaps, r.idx.value);
    }
  }

  lemma RowEnters(snaps: seq<Tree>, tree: Tree, r: HandleRow)
    requires RowOk(snaps, r) && r.idx.None? && !r.parked
    requires r.name in tree && tree[r.name] == r.spk
    ensures RowOk(snaps + [tree], MarkCommitted(RootOf(tree), |snaps|).Apply(r))
  {
    assert Before(snaps + [tree], |snaps|) == Newest(snaps);
  }

  lemma CommittedRows(h: Hasher, l: Ledger)
    requires Inv(l) && StagedEntries(l) != []
    ensures Rows(Committed(h, l).snaps, Committed(h, l).handles)
  {
    var m := Committed(h, l);
    var tree := Newest(m.snaps);
    UpdateNames(l.handles, StagedUnparked, MarkCommitted(RootOf(tree), |l.commits|));
    forall r | r in m.handles ensures RowOk(m.snaps, r) {
      var i :| 0 <= i < |m.handles| && m.handles[i] == r;
      var r0 := l.handles[i];
      assert RowOk(l.snaps, r0);
      if r0.idx.None? {
        NewTree(l, r0);
      }
      if StagedUnparked.Holds(r0) {
        RowEnters(l.snaps, tree, r0);
      } else {
        RowStays(l.snaps, tree, r0);
      }
    }
    forall n | n in tree ensures n in Names(l.handles) {
      NewNames(l, n);
    }
  }

  lemma CommitInv(h: Hasher, l: Ledger)
    requires Inv(l)
    ensures Inv(Commit(h, l))
  {
    CommitIs(h, l);
    if StagedEntries(l) != [] {
      CommittedChain(h, l);
      CommittedRows(h, l);
    }
  }

  // Rolling back

  lemma LastIs(commits: seq<Commitment>)
    requires commits != []
    requires forall i :: 0 <= i < |commits| ==> commits[i].idx == i
    ensures LastByIdx(commits) == Some(commits[|commits| - 1])
  {
    var last := LastByIdx(commits).value;
    var i :| 0 <= i < |commits| && commits[i] == last;
    assert commits[|commits| - 1] in commits;
  }

  lemma {:induction false} WithoutAbsent(commits: seq<Commitment>, id: nat)
    requires forall i :: 0 <= i < |commits| ==> commits[i].id != id
    ensures WithoutId(commits, id) == commits
  {
    if commits != [] {
      var n := |commits| - 1;
      WithoutAbsent(commits[..n], id);
      assert commits == commits[..n] + [commits[n]];
    }
  }

  lemma WithoutLast(commits: seq<Commitment>, n: nat)
    requires |commits| == n + 1
    requires forall i :: 0 <= i < n ==> commits[i].id != commits[n].id
    ensures WithoutId(commits, commits[n].id) == commits[..n]
  {
    WithoutAbsent(commits[..n], commits[n].id);
  }

  /** What a rollback makes of a consistent ledger: the last snapshot goes, or the whole tree at genesis. */
  function RolledBack(l: Ledger): Ledger
    requires l.commits != [] && |l.commits| == |l.snaps|
  {
    var n := |l.commits| - 1;
    Ledger(l.snaps[..n], l.commits[..n], l.nextId, Update(l.handles, CommittedAt(l.commits[n].root), Unstage), l.receipts)
  }

  /** Steps of the rollback on a chain that is complete, whatever state the handle rows are in. */
  lemma RollbackSteps(l: Ledger)
    requires Chain(l) && l.commits != []
    requires l.commits[|l.commits| - 1].txid.None?
    ensures var n := |l.commits| - 1;
      var l1 := l.(snaps := l.snaps[..n]);
      RollbackTrace(l) == Ok([l1, UnstageRoot(l1, l.commits[n].root), RolledBack(l)])
  {
    var n := |l.commits| - 1;
    LastIs(l.commits);
    assert FindSnapshot(l.snaps, l.commits[n].root) == Some(n);
    var l2 := UnstageRoot(l.(snaps := l.snaps[..n]), l.commits[n].root);
    assert DeleteCommitment(l2, l.commits[n].id) == RolledBack(l) by {
      WithoutLast(l.commits, n);
    }
  }

  /** A rollback is refused exactly when there is nothing to roll back or the last commitment was broadcast. */
  lemma RollbackIs(l: Ledger)
    requires Inv(l)
    ensures RollbackTrace(l).Ok? <==> l.commits != [] && l.commits[|l.commits| - 1].txid.None?
    ensures RollbackTrace(l).Ok? ==> |RollbackTrace(l).value| == 3 && Rollback(l) == RolledBack(l)
  {
    if l.commits != [] {
      LastIs(l.commits);
      if l.commits[|l.commits| - 1].txid.None? {
        RollbackSteps(l);
      }
    }
  }

  lemma RolledBackRow(l: Ledger, r: HandleRow)
    requires Inv(l) && l.commits != [] && r in l.handles
    ensures var n := |l.commits| - 1;
      RowOk(l.snaps[..n], if CommittedAt(l.commits[n].root).Holds(r) then Unstage.Apply(r) else r)
  {
    var n := |l.commits| - 1;
    assert RowOk(l.snaps, r);
    assert Newest(l.snaps[..n]) == Before(l.snaps, n);
    if r.idx.Some? {
      var i := r.idx.value;
      assert Before(l.snaps[..n], if i < n then i else n) == Before(l.snaps, i);
      if i < n {
        RootsDiffer(l.snaps, i + 1, n + 1);
      }
    } else {
      SnapsGrow(l.snaps, n, n + 1);
    }
  }

  lemma RolledBackChain(l: Ledger)
    requires Chain(l) && l.commits != []
    ensures Chain(RolledBack(l))
  {
    var m := RolledBack(l);
    forall i | 0 <= i < |m.commits| ensures GrewAt(m.snaps, i) && Follows(m.snaps, m.commits, i) {
      assert GrewAt(l.snaps, i) && Follows(l.snaps, l.commits, i);
    }
  }

  lemma RolledBackInv(l: Ledger)
    requires Inv(l) && l.commits != []
    ensures Inv(RolledBack(l))
  {
    RolledBackChain(l);
    var n := |l.commits| - 1;
    var m := RolledBack(l);
    UpdateNames(l.handles, CommittedAt(l.commits[n].root), Unstage);
    forall r | r in m.handles ensures RowOk(m.snaps, r) {
      var i :| 0 <= i < |m.handles| && m.handles[i] == r;
      RolledBackRow(l, l.handles[i]);
    }
    SnapsGrow(l.snaps, n, n + 1);
  }

  lemma RollbackInv(l: Ledger)
    requires Inv(l)
    ensures Inv(Rollback(l))
  {
    RollbackIs(l);
    if RollbackTrace(l).Ok? {
      RolledBackInv(l);
    }
  }

  // A rollback undoes a commit

  /** The rows that a commit marks and a rollback then clears are back as they were, parked flags and publish status included. */
  lemma UnmarkRows(snaps: seq<Tree>, rows: seq<HandleRow>, root: Root, idx: nat)
    requires forall r :: r in rows ==> RowOk(snaps, r)
    requires forall r :: r in rows ==> r.root != Some(root)
    ensures Update(Update(rows, StagedUnparked, MarkCommitted(root, idx)), CommittedAt(root), Unstage) == rows
  {
    var s := Update(Update(rows, StagedUnparked, MarkCommitted(root, idx)), CommittedAt(root), Unstage);
    forall i | 0 <= i < |rows| ensures s[i] == rows[i] {
      assert rows[i] in rows;
      assert RowOk(snaps, rows[i]);
    }
  }

  lemma NewRootUnused(h: Hasher, l: Ledger)
    requires Inv(l) && StagedEntries(l) != []
    ensures forall r :: r in l.handles ==> r.root != Some(RootOf(Newest(Committed(h, l).snaps)))
  {
    var m := Committed(h, l);
    CommittedChain(h, l);
    forall r | r in l.handles ensures r.root != Some(RootOf(Newest(m.snaps))) {
      assert RowOk(l.snaps, r);
      if r.idx.Some? {
        RootsDiffer(m.snaps, r.idx.value + 1, |m.snaps|);
      }
    }
  }

  /** Only the row-id counter remembers a commit that was rolled back. */
  lemma RollbackUndoesCommit(h: Hasher, l: Ledger)
    requires Inv(l) && CommitTrace(h, l).Ok?
    ensures RollbackTrace(Commit(h, l)).Ok?
    ensures Rollback(Commit(h, l)) == l.(nextId := l.nextId + 1)
  {
    CommitIs(h, l);
    CommitInv(h, l);
    var m := Commit(h, l);
    RollbackIs(m);
    NewRootUnused(h, l);
    UnmarkRows(l.snaps, l.handles, RootOf(Newest(m.snaps)), |l.commits|);
    assert m.snaps[..|l.snaps|] == l.snaps;
    assert m.commits[..|l.commits|] == l.commits;
  }

  // Crashes and the consistency check

  /** The check leaves a consistent ledger alone. */
  lemma CheckIsIdentity(l: Ledger)
    requires Inv(l)
    ensures CheckTrace(l) == []
  {
    if l.commits != [] {
      var n := |l.commits| - 1;
      LastIs(l.commits);
      assert l.commits[n].root == RootOf(l.snaps[n]) && Newest(l.snaps) == l.snaps[n];
    }
  }

  /**
   On any ledger whose commitments are in order, consistent or not: the check acts exactly if the last commitment was
   not broadcast and the newest tree is not its own, and then that commitment goes and its handles are staged again.
   */
  lemma CheckIff(l: Ledger)
    requires InOrder(l.commits)
    ensures var n := |l.commits| - 1;
      if n >= 0 && l.commits[n].txid.None? && l.commits[n].root != RootOf(Newest(l.snaps)) then
        && |CheckTrace(l)| == 2
        && CheckConsistency(l) == l.(commits := l.commits[..n], handles := Update(l.handles, CommittedAt(l.commits[n].root), Unstage))
      else CheckTrace(l) == []
  {
    if l.commits != [] {
      var n := |l.commits| - 1;
      LastIs(l.commits);
      if l.commits[n].txid.None? && l.commits[n].root != RootOf(Newest(l.snaps)) {
        CheckRemovesOrphan(l, n);
      }
    }
  }

  /** Running the same UPDATE again, after an interrupted one, changes nothing more. */
  lemma UnstageTwice(rows: seq<HandleRow>, root: Root)
    ensures Update(Update(rows, CommittedAt(root), Unstage), CommittedAt(root), Unstage) == Update(rows, CommittedAt(root), Unstage)
  {
  }

  /** A row whose snapshot is missing is removed, whether or not its handles were unstaged already. */
  lemma CheckRemovesOrphan(l: Ledger, n: nat)
    requires |l.commits| == n + 1
    requires forall i :: 0 <= i <= n ==> l.commits[i].idx == i
    requires forall i :: 0 <= i < n ==> l.commits[i].id != l.commits[n].id
    requires l.commits[n].txid.None?
    requires l.commits[n].root != RootOf(Newest(l.snaps))
    ensures CheckTrace(l) == [UnstageRoot(l, l.commits[n].root), UnstageRoot(l, l.commits[n].root).(commits := l.commits[..n])]
  {
    LastIs(l.commits);
    WithoutLast(l.commits, n);
    var l1 := UnstageRoot(l, l.commits[n].root);
    assert DeleteCommitment(l1, l.commits[n].id) == l1.(commits := l.commits[..n]);
  }

  lemma UnfinishedRollback(l: Ledger, crashed: Ledger)
    requires Inv(l) && l.commits != [] && l.commits[|l.commits| - 1].txid.None?
    requires crashed.snaps == l.snaps[..|l.snaps| - 1]
    requires crashed.handles == l.handles || crashed.handles == RolledBack(l).handles
    requires crashed == l.(snaps := crashed.snaps, handles := crashed.handles)
    ensures CheckConsistency(crashed) == RolledBack(l)
  {
    var n := |l.commits| - 1;
    RootsDiffer(l.snaps, n, n + 1);
    assert Newest(crashed.snaps) == Before(l.snaps, n);
    CheckRemovesOrphan(crashed, n);
    UnstageTwice(l.handles, l.commits[n].root);
  }

  /** Stopped after any of its writes, a rollback is finished by the check; stopped before the first, it never was. */
  lemma CrashInRollback(l: Ledger, k: nat)
    requires Inv(l) && k <= |TraceOf(RollbackTrace(l))|
    ensures CheckConsistency(After(l, TraceOf(RollbackTrace(l)), k)) == if k == 0 then l else Rollback(l)
  {
    RollbackIs(l);
    if k == 0 {
      CheckIsIdentity(l);
    } else {
      RollbackSteps(l);
      var crashed := RollbackTrace(l).value[k - 1];
      if k == 3 {
        RolledBackInv(l);
        CheckIsIdentity(crashed);
      } else {
        UnfinishedRollback(l, crashed);
      }
    }
  }

  /** A crash inside the check itself is repaired by the next check. */
  lemma CrashInCheck(l: Ledger, n: nat, k: nat)
    requires |l.commits| == n + 1
    requires forall i :: 0 <= i <= n ==> l.commits[i].idx == i
    requires forall i :: 0 <= i < n ==> l.commits[i].id != l.commits[n].id
    requires l.commits[n].txid.None?
    requires l.commits[n].root != RootOf(Newest(l.snaps))
    requires k < 2
    ensures |CheckTrace(l)| == 2
    ensures CheckConsistency(After(l, CheckTrace(l), k)) == CheckConsistency(l)
  {
    CheckRemovesOrphan(l, n);
    if k == 1 {
      CheckRemovesOrphan(CheckTrace(l)[0], n);
      UnstageTwice(l.handles, l.commits[n].root);
    }
  }

  /** The commitments table as COUNT(*) and AUTOINCREMENT fill it. */
  ghost predicate InOrder(commits: seq<Commitment>) {
    && (forall i :: 0 <= i < |commits| ==> commits[i].idx == i)
    && (forall i, j :: 0 <= i < j < |commits| ==> commits[i].id != commits[j].id)
  }

  lemma StopOnce(l: Ledger, k: nat)
    requires InOrder(l.commits) && Inv(CheckConsistency(l)) && k <= |CheckTrace(l)|
    ensures var m := After(l, CheckTrace(l), k);
      InOrder(m.commits) && CheckConsistency(m) == CheckConsistency(l)
  {
    if 0 < k < |CheckTrace(l)| {
      StopBetween(l, k);
    } else if k > 0 {
      CheckIsIdentity(CheckConsistency(l));
    }
  }

  lemma StopBetween(l: Ledger, k: nat)
    requires InOrder(l.commits) && 0 < k < |CheckTrace(l)|
    ensures var m := After(l, CheckTrace(l), k);
      m.commits == l.commits && CheckConsistency(m) == CheckConsistency(l)
  {
    LastIs(l.commits);
    CheckRemovesOrphan(l, |l.commits| - 1);
    CrashInCheck(l, |l.commits| - 1, k);
  }

  /** However often the check is stopped and started again, it ends where one undisturbed check would. */
  lemma {:induction false} RepairIs(l: Ledger, stops: seq<nat>)
    requires InOrder(l.commits) && Inv(CheckConsistency(l))
    ensures Repair(l, stops) == CheckConsistency(l)
    decreases |stops|
  {
    if stops != [] {
      var trace := CheckTrace(l);
      var k := if stops[0] <= |trace| then stops[0] else |trace|;
      StopOnce(l, k);
      RepairIs(After(l, trace, k), stops[1..]);
    }
  }

  /** Where the check sees nothing to do, it may be stopped as often as it likes. */
  lemma {:induction false} RepairNothing(l: Ledger, stops: seq<nat>)
    requires CheckTrace(l) == []
    ensures Repair(l, stops) == l
    decreases |stops|
  {
    if stops != [] {
      RepairNothing(l, stops[1..]);
    }
  }

  /**
   The states in which a commit can stop. The check restores the agreement in all but those where the
   tree was written and the commit did not finish.
   */
  lemma CrashInCommit(h: Hasher, l: Ledger, k: nat)
    requires Inv(l) && CommitTrace(h, l).Ok? && k <= 3
    ensures |CommitTrace(h, l).value| == 3
    ensures var after := CheckConsistency(After(l, CommitTrace(h, l).value, k));
      && (Inv(after) <==> k == 0 || k == 3 || (k == 1 && l.commits != []))
      && (k == 0 ==> after == l)
      && (k == 1 && l.commits != [] ==> after == l.(nextId := l.nextId + 1))
      && (k == 3 ==> after == Commit(h, l))
  {
    CommitIs(h, l);
    CommitInv(h, l);
    var crashed := After(l, CommitTrace(h, l).value, k);
    if k == 0 || k == 3 {
      CheckIsIdentity(crashed);
    } else if k == 1 && l.commits != [] {
      CrashBeforeTreeWrite(h, l);
    } else if k == 1 {
      assert CheckTrace(crashed) == [];
    } else {
      CrashAfterTreeWrite(h, l);
    }
  }

  /** A commitment row whose tree was never written is removed, and no handle row notices. */
  lemma CheckRemovesUnwritten(l: Ledger, commits: seq<Commitment>, nextId: nat)
    requires Inv(l) && |commits| == |l.commits| + 1 && commits[..|l.commits|] == l.commits
    requires commits[|l.commits|].idx == |l.commits| && commits[|l.commits|].id == l.nextId && commits[|l.commits|].txid.None?
    requires commits[|l.commits|].root != RootOf(Newest(l.snaps))
    requires forall r :: r in l.handles ==> r.root != Some(commits[|l.commits|].root)
    ensures CheckConsistency(l.(commits := commits, nextId := nextId)) == l.(nextId := nextId)
  {
    var n := |l.commits|;
    assert forall i :: 0 <= i < n ==> commits[i] == l.commits[i];
    assert UnstageRoot(l, commits[n].root) == l by {
      UpdateNothing(l.handles, CommittedAt(commits[n].root), Unstage);
    }
    CheckRemovesOrphan(l.(commits := commits, nextId := nextId), n);
  }

  lemma CrashBeforeTreeWrite(h: Hasher, l: Ledger)
    requires Inv(l) && CommitTrace(h, l).Ok? && l.commits != []
    ensures CheckConsistency(CommitTrace(h, l).value[0]) == l.(nextId := l.nextId + 1)
    ensures Inv(l.(nextId := l.nextId + 1))
  {
    var n, m := |l.commits|, Committed(h, l);
    CommitIs(h, l);
    assert RootOf(Newest(m.snaps)) != RootOf(Newest(l.snaps)) by {
      CommittedGrows(h, l);
    }
    NewRootUnused(h, l);
    CheckRemovesUnwritten(l, m.commits, m.nextId);
  }

  /** The tree holds the batch, its row exists, but its handles still look staged: the check sees equal roots. */
  lemma CrashAfterTreeWrite(h: Hasher, l: Ledger)
    requires Inv(l) && CommitTrace(h, l).Ok?
    ensures var crashed := CommitTrace(h, l).value[1];
      CheckTrace(crashed) == [] && !Inv(crashed) && Chain(crashed)
  {
    var m := Committed(h, l);
    CommitIs(h, l);
    CommittedChain(h, l);
    LastIs(m.commits);
    var r := Select(l.handles, StagedUnparked)[0];
    assert r in Select(l.handles, StagedUnparked);
    assert RowOk(l.snaps, r);
    NewTree(l, r);
    assert !RowOk(m.snaps, r);
  }

  lemma RollbackOfUnmarked(m: Ledger, n: nat)
    requires Chain(m) && |m.commits| == n + 1 && m.commits[n].txid.None?
    requires forall r :: r in m.handles ==> r.root != Some(m.commits[n].root)
    ensures Rollback(m) == m.(snaps := m.snaps[..n], commits := m.commits[..n])
  {
    RollbackSteps(m);
    UpdateNothing(m.handles, CommittedAt(m.commits[n].root), Unstage);
  }

  /** What the check cannot repair, the operator's rollback does, as long as the commitment row was written. */
  lemma RollbackRepairsCommit(h: Hasher, l: Ledger)
    requires Inv(l) && CommitTrace(h, l).Ok?
    ensures |CommitTrace(h, l).value| == 3
    ensures Rollback(CommitTrace(h, l).value[1]) == l.(nextId := l.nextId + 1)
  {
    var m := Committed(h, l);
    assert CommitTrace(h, l).value == [CommitTrace(h, l).value[0], m.(handles := l.handles), m] by {
      CommitIs(h, l);
    }
    CommittedChain(h, l);
    NewRootUnused(h, l);
    RollbackOfUnmarked(m.(handles := l.handles), |l.commits|);
    assert m.snaps[..|l.snaps|] == l.snaps && m.commits[..|l.commits|] == l.commits;
  }

  // Receipts, broadcasting, and what the agreement says about rows

  /** Rows of the same commitment: everything but the receipts and the txid. */
  predicate SameCommitment(c: Commitment, d: Commitment) {
    c == d.(step := c.step, aggregate := c.aggregate, txid := c.txid)
  }

  lemma SameChain(l: Ledger, m: Ledger)
    requires Chain(l) && m.snaps == l.snaps && m.nextId == l.nextId && |m.commits| == |l.commits|
    requires forall i :: 0 <= i < |l.commits| ==> SameCommitment(m.commits[i], l.commits[i])
    ensures Chain(m)
  {
    forall i | 0 <= i < |l.commits| ensures Follows(m.snaps, m.commits, i) {
      assert Follows(l.snaps, l.commits, i);
    }
  }

  lemma SaveReceiptInv(l: Ledger, id: nat, isFold: bool, receipt: Receipt)
    requires Inv(l) && SaveReceipt(l, id, isFold, receipt).Ok?
    ensures Inv(SaveReceipt(l, id, isFold, receipt).value)
  {
    SameChain(l, SaveReceipt(l, id, isFold, receipt).value);
  }

  lemma BroadcastInv(l: Ledger, txid: Txid)
    requires Inv(l) && Broadcast(l, txid).Ok?
    ensures Inv(Broadcast(l, txid).value)
  {
    SameChain(l, Broadcast(l, txid).value);
  }

  /** Every name of a snapshot has its one row, committed at that snapshot or before it, with the same key. */
  lemma RowOfName(l: Ledger, i: nat, name: Name)
    requires Inv(l) && i < |l.snaps| && name in l.snaps[i]
    ensures exists r :: r in l.handles && r.name == name && r.spk == l.snaps[i][name] && r.idx.Some? && r.idx.value <= i
  {
    Kept(l.snaps, i, |l.snaps| - 1, name);
    assert name in Names(l.handles);
    var r :| r in l.handles && r.name == name;
    assert RowOk(l.snaps, r);
    if r.idx.value <= i {
      Kept(l.snaps, r.idx.value, i, name);
    } else {
      Kept(l.snaps, i, r.idx.value - 1, name);
      assert false;
    }
  }

  lemma RowsAreTheDifference(l: Ledger, i: nat)
    requires Inv(l) && i < |l.snaps|
    ensures RowsOfCommitment(l, i)
  {
    var fromRows := set r | r in l.handles && r.idx == Some(i) :: Entry(r.name, r.spk);
    var fromTree := set n | n in l.snaps[i] && n !in Before(l.snaps, i) :: Entry(n, l.snaps[i][n]);
    forall e | e in fromRows ensures e in fromTree {
      var r :| r in l.handles && r.idx == Some(i) && e == Entry(r.name, r.spk);
      assert RowOk(l.snaps, r);
    }
    forall e | e in fromTree ensures e in fromRows {
      RowOfName(l, i, e.name);
      var r :| r in l.handles && r.name == e.name && r.spk == l.snaps[i][e.name] && r.idx.Some? && r.idx.value <= i;
      assert RowOk(l.snaps, r);
      if r.idx.value < i {
        Kept(l.snaps, r.idx.value, i - 1, e.name);
        assert false;
      }
    }
  }

  // The stored batches

  /** Commitment i stores the bytes of this batch of new names, and the batch made its snapshot. */
  ghost predicate StoredBatch(h: Hasher, snaps: seq<Tree>, commits: seq<Commitment>, i: nat, batch: seq<Entry>)
    requires i < |snaps| && i < |commits|
  {
    commits[i].zkBatch == ZkInput(h, batch) && snaps[i] == InsertAll(Before(snaps, i), batch) && Fresh(batch, Before(snaps, i))
  }

  ghost predicate Stored(h: Hasher, snaps: seq<Tree>, commits: seq<Commitment>, i: nat)
    requires i < |snaps| && i < |commits|
  {
    exists batch :: StoredBatch(h, snaps, commits, i, batch)
  }

  ghost predicate AllStored(h: Hasher, l: Ledger) {
    && |l.snaps| == |l.commits|
    && forall i {:trigger Stored(h, l.snaps, l.commits, i)} :: 0 <= i < |l.commits| ==> Stored(h, l.snaps, l.commits, i)
  }

  /** The guest, given a tree before a commitment and the commitment's stored bytes, ends in the commitment's tree. */
  lemma StoredAccepts(h: Hasher, l: Ledger, i: nat, leaves: map<Digest, Digest>)
    requires AllStored(h, l) && i < |l.commits| && NoCollision(h, l.snaps[i].Keys)
    requires Hashes(h, leaves, Before(l.snaps, i))
    ensures Accepts(h, leaves, l.commits[i].zkBatch, l.snaps[i])
  {
    assert Stored(h, l.snaps, l.commits, i);
    var batch :| StoredBatch(h, l.snaps, l.commits, i, batch);
    GuestAccepts(h, leaves, Before(l.snaps, i), batch);
  }

  lemma StoredGives(h: Hasher, l: Ledger, i: nat)
    requires Growing(l.snaps) && AllStored(h, l) && i < |l.commits| && NoCollision(h, l.snaps[i].Keys)
    ensures GuestGives(h, Before(l.snaps, i), l.commits[i].zkBatch, l.snaps[i])
  {
    SnapsGrow(l.snaps, i, i + 1);
    HashedIs(h, Before(l.snaps, i));
    StoredAccepts(h, l, i, Hashed(h, Before(l.snaps, i)));
  }

  /** What the commit asks of the guest before it writes anything is what the guest does with the bytes. */
  lemma GuestRunIs(h: Hasher, t: Tree, entries: seq<Entry>)
    requires NoCollision(h, InsertAll(t, entries).Keys)
    ensures GuestRun(t, entries) ==
      if GuestGives(h, t, ZkInput(h, entries), InsertAll(t, entries)) then Some((RootOf(t), RootOf(InsertAll(t, entries)))) else None
  {
    GuestAcceptsIff(h, t, entries);
  }
}
