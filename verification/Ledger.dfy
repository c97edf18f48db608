/**
 One space's ledger: the SpaceDB snapshots and the SQLite tables that must agree
 with them. Every operation that touches the ledger is given as a function. An
 operation made of several durable writes is given as the trace of the states
 that those writes leave behind, which is where a crash can stop it.
 */
module Ledgers {
  import opened Wrappers
  import opened Tables
  import opened ZkBatch

  type Txid = string

  datatype Program = Step | Fold

  /** What a verified receipt claims: its program took the space from one root to another. */
  datatype Receipt = Receipt(program: Program, from: Root, to: Root)

  datatype Commitment = Commitment(
    id: nat,
    idx: nat,
    prevRoot: Option<Root>,
    root: Root,
    zkBatch: seq<Byte>,
    exclusion: Option<Tree>,      // exclusion proof, against this tree
    step: Option<nat>,            // step_receipt_id
    aggregate: Option<nat>,       // aggregate_receipt_id
    txid: Option<Txid>)

  datatype Ledger = Ledger(
    snaps: seq<Tree>,             // SpaceDB snapshots, oldest first
    commits: seq<Commitment>,     // commitments table, in insertion order
    nextId: nat,                  // AUTOINCREMENT counter of that table
    handles: seq<HandleRow>,
    receipts: seq<Receipt>)       // receipts table; a receipt's id is its position

  const EMPTY := Ledger([], [], 0, [], [])

  datatype Error =
    | NoChanges | BatchRejected | NoCommitments | AlreadyBroadcast | NoSnapshot
    | NeedsProving | WrongProgram | MissingExclusion | MissingReceipt | NoSuchCommitment
    | Unhealthy | NotDelegated | WalletRefused

  datatype SkipReason = CommittedDifferentSpk | StagedDifferentSpk | AlreadyCommitted | AlreadyStaged

  /** The tree that a read transaction opens: the newest snapshot, or the empty tree. */
  function Before(snaps: seq<Tree>, i: nat): Tree
    requires i <= |snaps|
  {
    if i == 0 then map[] else snaps[i - 1]
  }

  function Newest(snaps: seq<Tree>): Tree {
    Before(snaps, |snaps|)
  }

  // Staging

  function NewRow(name: Name, spk: Spk): HandleRow {
    HandleRow(name, spk, None, None, None, None, false)
  }

  function SkipFor(l: Ledger, name: Name, spk: Spk): Option<SkipReason> {
    var tree := Newest(l.snaps);
    if name in tree then
      Some(if tree[name] != spk then CommittedDifferentSpk else AlreadyCommitted)
    else
      var staged := Select(l.handles, StagedNamed(name));
      if staged != [] then
        Some(if staged[0].spk != spk then StagedDifferentSpk else AlreadyStaged)
      else None
  }

  function AddRequest(l: Ledger, name: Name, spk: Spk): Ledger {
    if SkipFor(l, name, spk).Some? then l
    else l.(handles := InsertOrReplace(l.handles, NewRow(name, spk)))
  }

  function AddTrace(l: Ledger, name: Name, spk: Spk): seq<Ledger> {
    if SkipFor(l, name, spk).Some? then [] else [AddRequest(l, name, spk)]
  }

  function ParkNames(rows: seq<HandleRow>, names: seq<Name>, parked: bool): seq<HandleRow> {
    if names == [] then rows
    else
      var n := |names| - 1;
      Update(ParkNames(rows, names[..n], parked), StagedNamed(names[n]), Park(parked))
  }

  function SetParked(l: Ledger, names: seq<Name>, parked: bool): Ledger {
    l.(handles := if names == [] then Update(l.handles, Staged, Park(parked))
                  else ParkNames(l.handles, names, parked))
  }

  /** One UPDATE per name, or one for all. */
  function ParkTrace(l: Ledger, names: seq<Name>, parked: bool): seq<Ledger> {
    if names == [] then [SetParked(l, [], parked)]
    else seq(|names|, i requires 0 <= i < |names| => SetParked(l, names[..i + 1], parked))
  }

  /** The rows that the UPDATE statements match; parking never changes which those are. */
  function ParkCount(rows: seq<HandleRow>, names: seq<Name>): nat {
    if names == [] then 0
    else ParkCount(rows, names[..|names| - 1]) + Count(rows, StagedNamed(names[|names| - 1]))
  }

  function DeleteNames(rows: seq<HandleRow>, names: seq<Name>): seq<HandleRow> {
    if names == [] then rows
    else
      var n := |names| - 1;
      Delete(DeleteNames(rows, names[..n]), StagedNamed(names[n]))
  }

  function RemoveStaged(l: Ledger, names: seq<Name>): Ledger {
    l.(handles := if names == [] then Delete(l.handles, Staged) else DeleteNames(l.handles, names))
  }

  /** One DELETE per name, or one for all. */
  function RemoveTrace(l: Ledger, names: seq<Name>): seq<Ledger> {
    if names == [] then [RemoveStaged(l, [])]
    else seq(|names|, i requires 0 <= i < |names| => RemoveStaged(l, names[..i + 1]))
  }

  // Committing

  function EntriesOf(rows: seq<HandleRow>): seq<Entry> {
    seq(|rows|, i requires 0 <= i < |rows| => Entry(rows[i].name, rows[i].spk))
  }

  function StagedEntries(l: Ledger): seq<Entry> {
    EntriesOf(Select(l.handles, StagedUnparked))
  }

  /** The guest program accepts a batch only if none of its labels is in the tree already. */
  function GuestRun(t: Tree, entries: seq<Entry>): Option<(Root, Root)> {
    if forall i :: 0 <= i < |entries| ==> entries[i].name !in t
    then Some((RootOf(t), RootOf(InsertAll(t, entries))))
    else None
  }

  function AddCommitment(l: Ledger, prevRoot: Option<Root>, root: Root, zkBatch: seq<Byte>, exclusion: Option<Tree>): Ledger {
    l.(commits := l.commits + [Commitment(l.nextId, |l.commits|, prevRoot, root, zkBatch, exclusion, None, None, None)],
       nextId := l.nextId + 1)
  }

  function WriteTree(l: Ledger, entries: seq<Entry>): Ledger {
    l.(snaps := l.snaps + [InsertAll(Newest(l.snaps), entries)])
  }

  function CommitStaged(l: Ledger, root: Root, idx: nat): Ledger {
    l.(handles := Update(l.handles, StagedUnparked, MarkCommitted(root, idx)))
  }

  /** The states left by the three durable writes of a commit. The first commitment writes the tree before its row. */
  function CommitTrace(h: Hasher, l: Ledger): Result<seq<Ledger>, Error> {
    var entries := StagedEntries(l);
    var n := |l.commits|;
    var tree := Newest(l.snaps);
    if entries == [] then Err(NoChanges)
    else if n == 0 then
      var l1 := WriteTree(l, entries);
      var l2 := AddCommitment(l1, None, RootOf(Newest(l1.snaps)), ZkInput(h, entries), None);
      Ok([l1, l2, CommitStaged(l2, RootOf(Newest(l1.snaps)), n)])
    else
      match GuestRun(tree, entries)
      case None => Err(BatchRejected)
      case Some((prev, root)) =>
        var l1 := AddCommitment(l, Some(prev), root, ZkInput(h, entries), Some(tree));
        var l2 := WriteTree(l1, entries);
        Ok([l1, l2, CommitStaged(l2, root, n)])
  }

  // Rolling back

  /** ORDER BY idx DESC LIMIT 1 */
  function LastByIdx(commits: seq<Commitment>): (r: Option<Commitment>)
    ensures r.Some? <==> commits != []
    ensures r.Some? ==> r.value in commits && forall c :: c in commits ==> c.idx <= r.value.idx
  {
    if commits == [] then None
    else
      var n := |commits| - 1;
      assert commits == commits[..n] + [commits[n]];
      match LastByIdx(commits[..n])
      case None => Some(commits[n])
      case Some(best) => if commits[n].idx >= best.idx then Some(commits[n]) else Some(best)
  }

  /** The newest snapshot with this root. */
  function FindSnapshot(snaps: seq<Tree>, root: Root): (r: Option<nat>)
    ensures r.Some? ==> r.value < |snaps| && RootOf(snaps[r.value]) == root
    ensures r.Some? ==> forall i :: r.value < i < |snaps| ==> RootOf(snaps[i]) != root
    ensures r.None? ==> forall i :: 0 <= i < |snaps| ==> RootOf(snaps[i]) != root
  {
    if snaps == [] then None
    else if RootOf(snaps[|snaps| - 1]) == root then Some(|snaps| - 1)
    else FindSnapshot(snaps[..|snaps| - 1], root)
  }

  function UnstageRoot(l: Ledger, root: Root): Ledger {
    l.(handles := Update(l.handles, CommittedAt(root), Unstage))
  }

  function WithoutId(commits: seq<Commitment>, id: nat): seq<Commitment> {
    if commits == [] then []
    else
      var n := |commits| - 1;
      WithoutId(commits[..n], id) + (if commits[n].id == id then [] else [commits[n]])
  }

  function DeleteCommitment(l: Ledger, id: nat): Ledger {
    l.(commits := WithoutId(l.commits, id))
  }

  /** The states left by the three durable writes of a rollback: the tree, the handle rows, the commitment row. */
  function RollbackTrace(l: Ledger): Result<seq<Ledger>, Error> {
    match LastByIdx(l.commits)
    case None => Err(NoCommitments)
    case Some(last) =>
      if last.txid.Some? then Err(AlreadyBroadcast)
      else
        match FindSnapshot(l.snaps, last.root)
        case None => Err(NoSnapshot)
        case Some(at) =>
          var l1 := l.(snaps := l.snaps[..at]);
          var l2 := UnstageRoot(l1, last.root);
          Ok([l1, l2, DeleteCommitment(l2, last.id)])
  }

  /** The states left by the consistency check: none when there is nothing to repair. */
  function CheckTrace(l: Ledger): seq<Ledger> {
    match LastByIdx(l.commits)
    case None => []
    case Some(last) =>
      if last.txid.Some? || last.root == RootOf(Newest(l.snaps)) then []
      else
        var l1 := UnstageRoot(l, last.root);
        [l1, DeleteCommitment(l1, last.id)]
  }

  // What an operation leaves when it runs to its end, and when it stops after k writes

  function After(l: Ledger, trace: seq<Ledger>, k: nat): Ledger
    requires k <= |trace|
  {
    if k == 0 then l else trace[k - 1]
  }

  function Outcome(l: Ledger, trace: seq<Ledger>): Ledger {
    After(l, trace, |trace|)
  }

  function TraceOf(r: Result<seq<Ledger>, Error>): seq<Ledger> {
    if r.Ok? then r.value else []
  }

  function Commit(h: Hasher, l: Ledger): Ledger {
    Outcome(l, TraceOf(CommitTrace(h, l)))
  }

  function Rollback(l: Ledger): Ledger {
    Outcome(l, TraceOf(RollbackTrace(l)))
  }

  function CheckConsistency(l: Ledger): Ledger {
    Outcome(l, CheckTrace(l))
  }

  /** A check that is stopped again and again, each time after so many writes, before one runs to its end. */
  function Repair(l: Ledger, stops: seq<nat>): Ledger
    decreases |stops|
  {
    if stops == [] then CheckConsistency(l)
    else
      var trace := CheckTrace(l);
      Repair(After(l, trace, if stops[0] <= |trace| then stops[0] else |trace|), stops[1..])
  }

  // Receipts and broadcasting

  function SetStep(commits: seq<Commitment>, id: nat, r: nat): (s: seq<Commitment>)
    ensures |s| == |commits|
    ensures forall i :: 0 <= i < |s| ==> s[i] == if commits[i].id == id then commits[i].(step := Some(r)) else commits[i]
  {
    seq(|commits|, i requires 0 <= i < |commits| =>
      if commits[i].id == id then commits[i].(step := Some(r)) else commits[i])
  }

  function SetAggregate(commits: seq<Commitment>, id: nat, r: nat): (s: seq<Commitment>)
    ensures |s| == |commits|
    ensures forall i :: 0 <= i < |s| ==> s[i] == if commits[i].id == id then commits[i].(aggregate := Some(r)) else commits[i]
  {
    seq(|commits|, i requires 0 <= i < |commits| =>
      if commits[i].id == id then commits[i].(aggregate := Some(r)) else commits[i])
  }

  function SetTxid(commits: seq<Commitment>, id: nat, txid: Txid): (s: seq<Commitment>)
    ensures |s| == |commits|
    ensures forall i :: 0 <= i < |s| ==> s[i] == if commits[i].id == id then commits[i].(txid := Some(txid)) else commits[i]
  {
    seq(|commits|, i requires 0 <= i < |commits| =>
      if commits[i].id == id then commits[i].(txid := Some(txid)) else commits[i])
  }

  /** Store a receipt for a commitment id. Only the program is checked; an unknown id updates no row. */
  function SaveReceipt(l: Ledger, id: nat, isFold: bool, receipt: Receipt): Result<Ledger, Error> {
    if receipt.program != (if isFold then Fold else Step) then Err(WrongProgram)
    else
      var rid := |l.receipts|;
      Ok(l.(receipts := l.receipts + [receipt],
            commits := if isFold then SetAggregate(l.commits, id, rid) else SetStep(l.commits, id, rid)))
  }

  /** The states left by the two durable writes of a saved receipt: the receipt, the row that refers to it. */
  function SaveTrace(l: Ledger, id: nat, isFold: bool, receipt: Receipt): seq<Ledger> {
    match SaveReceipt(l, id, isFold, receipt)
    case Err(_) => []
    case Ok(m) => [l.(receipts := m.receipts), m]
  }

  /** Broadcast the last commitment; the wallet answers with a txid. */
  function Broadcast(l: Ledger, txid: Txid): Result<Ledger, Error> {
    match LastByIdx(l.commits)
    case None => Err(NoCommitments)
    case Some(last) =>
      if last.txid.Some? then Err(AlreadyBroadcast)
      else if last.prevRoot.Some? && last.step.None? then Err(NeedsProving)
      else Ok(l.(commits := SetTxid(l.commits, last.id, txid)))
  }

  function BroadcastTrace(l: Ledger, txid: Txid): seq<Ledger> {
    if Broadcast(l, txid).Ok? then [Broadcast(l, txid).value] else []
  }

  // The agreement between the two stores

  ghost predicate Grew(a: Tree, b: Tree) {
    a.Keys < b.Keys && forall n :: n in a ==> b[n] == a[n]
  }

  ghost predicate GrewAt(snaps: seq<Tree>, i: nat)
    requires i < |snaps|
  {
    Grew(Before(snaps, i), snaps[i])
  }

  /** Every snapshot adds names to the one before it and changes none. */
  ghost predicate Growing(snaps: seq<Tree>) {
    forall i {:trigger GrewAt(snaps, i)} :: 0 <= i < |snaps| ==> GrewAt(snaps, i)
  }

  /** Commitment i names the root before it and carries a proof against the tree before it. */
  ghost predicate Follows(snaps: seq<Tree>, commits: seq<Commitment>, i: nat)
    requires i < |snaps| && i < |commits|
  {
    && commits[i].prevRoot == (if i == 0 then None else Some(RootOf(snaps[i - 1])))
    && commits[i].exclusion == (if i == 0 then None else Some(snaps[i - 1]))
  }

  /** The row ids of the commitments table grow, below the next one to be handed out. */
  ghost predicate Ids(commits: seq<Commitment>, nextId: nat) {
    && (forall i :: 0 <= i < |commits| ==> commits[i].id < nextId)
    && (forall i, j :: 0 <= i < j < |commits| ==> commits[i].id < commits[j].id)
  }

  /** Commitment i is snapshot i: its index, its root, the root before it. */
  ghost predicate Chain(l: Ledger) {
    && |l.commits| == |l.snaps|
    && Growing(l.snaps)
    && Ids(l.commits, l.nextId)
    && (forall i :: 0 <= i < |l.commits| ==> l.commits[i].idx == i && l.commits[i].root == RootOf(l.snaps[i]))
    && (forall i {:trigger Follows(l.snaps, l.commits, i)} :: 0 <= i < |l.commits| ==> Follows(l.snaps, l.commits, i))
  }

  /** A staged handle is in no tree. A committed one entered the tree with its own commitment, under its own key. */
  ghost predicate RowOk(snaps: seq<Tree>, r: HandleRow) {
    match r.idx
    case None => r.root.None? && r.name !in Newest(snaps)
    case Some(i) =>
      && i < |snaps|
      && r.root == Some(RootOf(snaps[i]))
      && !r.parked
      && r.name in snaps[i] && snaps[i][r.name] == r.spk
      && r.name !in Before(snaps, i)
  }

  ghost predicate Rows(snaps: seq<Tree>, rows: seq<HandleRow>) {
    && UniqueNames(rows)
    && (forall r :: r in rows ==> RowOk(snaps, r))
    && Newest(snaps).Keys <= Names(rows)
  }

  ghost predicate Inv(l: Ledger) {
    Chain(l) && Rows(l.snaps, l.handles)
  }

  /** The rows of commitment i are exactly what snapshot i added to the snapshot before it. */
  ghost predicate RowsOfCommitment(l: Ledger, i: nat)
    requires i < |l.snaps|
  {
    (set r | r in l.handles && r.idx == Some(i) :: Entry(r.name, r.spk)) ==
    (set n | n in l.snaps[i] && n !in Before(l.snaps, i) :: Entry(n, l.snaps[i][n]))
  }
}
