/**
 The `handles` table of the operator's SQLite file, and the few SQL statement
 shapes that touch it. Rows are kept in row-id order, the order in which
 AUTOINCREMENT hands ids out, so a new row goes to the end.
 */
module Tables {
  import opened Wrappers

  type Byte = b: int | 0 <= b < 256
  type Name = string
  type Spk = seq<Byte>

  /** One snapshot of the name tree: label to script pubkey. */
  type Tree = map<Name, Spk>

  /** The Merkle root of a tree; a collision-free hash, so it determines the tree. */
  datatype Root = RootOf(tree: Tree)

  datatype PublishStatus = Temp | Final

  datatype HandleRow = HandleRow(
    name: Name,
    spk: Spk,
    root: Option<Root>,           // commitment_root, NULL while staged
    idx: Option<nat>,             // commitment_idx, NULL while staged
    status: Option<PublishStatus>,
    tempTip: Option<Root>,        // published_temp_at_tip
    parked: bool)

  /** The WHERE clauses in use. */
  datatype Where =
    | Staged
    | StagedUnparked
    | Named(name: Name)
    | NameIn(names: seq<Name>)
    | StagedNamed(name: Name)
    | CommittedAt(root: Root)
    | Unpublished(confirmed: Option<nat>)
    | StaleTemp(tip: Option<Root>)
    | Not(w: Where)
  {
    predicate Holds(r: HandleRow) {
      match this
      case Staged => r.root.None?
      case StagedUnparked => r.root.None? && !r.parked
      case Named(n) => r.name == n
      case NameIn(names) => r.name in names
      case StagedNamed(n) => r.name == n && r.root.None?
      case CommittedAt(root) => r.root == Some(root)
      case Unpublished(confirmed) => r.status.None? || (r.status == Some(Temp) && IsConfirmed(r, confirmed))
      case StaleTemp(Some(tip)) => r.status == Some(Temp) && r.tempTip != Some(tip)
      case StaleTemp(None) => r.status == Some(Temp) && r.tempTip.Some?
      case Not(w) => !w.Holds(r)
    }
  }

  /** Committed at or below the confirmed index; without a confirmed index nothing is (SQL compares with -1). */
  predicate IsConfirmed(r: HandleRow, confirmed: Option<nat>) {
    r.idx.Some? && confirmed.Some? && r.idx.value <= confirmed.value
  }

  /** The SET clauses in use. */
  datatype Change =
    | MarkCommitted(root: Root, idx: nat)
    | Unstage
    | Park(parked: bool)
    | Publish(status: PublishStatus, tip: Option<Root>)
    | ClearPublish
  {
    function Apply(r: HandleRow): HandleRow {
      match this
      case MarkCommitted(root, idx) => r.(root := Some(root), idx := Some(idx))
      case Unstage => r.(root := None, idx := None)
      case Park(parked) => r.(parked := parked)
      case Publish(status, tip) => r.(status := Some(status), tempTip := tip)
      case ClearPublish => r.(status := None, tempTip := None)
    }
  }

  /** SELECT * FROM handles WHERE w ORDER BY id */
  function Select(rows: seq<HandleRow>, w: Where): (s: seq<HandleRow>)
    ensures forall r :: r in s <==> r in rows && w.Holds(r)
  {
    if rows == [] then []
    else
      var last := rows[|rows| - 1];
      assert rows == rows[..|rows| - 1] + [last];
      Select(rows[..|rows| - 1], w) + (if w.Holds(last) then [last] else [])
  }

  /** DELETE FROM handles WHERE w */
  function Delete(rows: seq<HandleRow>, w: Where): (s: seq<HandleRow>)
    ensures forall r :: r in s <==> r in rows && !w.Holds(r)
  {
    assert forall r :: Not(w).Holds(r) == !w.Holds(r);
    Select(rows, Not(w))
  }

  /** UPDATE handles SET c WHERE w */
  function Update(rows: seq<HandleRow>, w: Where, c: Change): (s: seq<HandleRow>)
    ensures |s| == |rows|
    ensures forall i :: 0 <= i < |rows| ==> s[i] == if w.Holds(rows[i]) then c.Apply(rows[i]) else rows[i]
  {
    seq(|rows|, i requires 0 <= i < |rows| => if w.Holds(rows[i]) then c.Apply(rows[i]) else rows[i])
  }

  /** INSERT OR REPLACE: a row with the same name goes first, the new one takes a fresh id. */
  function InsertOrReplace(rows: seq<HandleRow>, r: HandleRow): seq<HandleRow> {
    Delete(rows, Named(r.name)) + [r]
  }

  /** SELECT COUNT(*) FROM handles WHERE w */
  function Count(rows: seq<HandleRow>, w: Where): nat {
    if rows == [] then 0
    else Count(rows[..|rows| - 1], w) + if w.Holds(rows[|rows| - 1]) then 1 else 0
  }

  lemma {:induction false} CountIsSelected(rows: seq<HandleRow>, w: Where)
    ensures Count(rows, w) == |Select(rows, w)|
  {
    if rows != [] {
      CountIsSelected(rows[..|rows| - 1], w);
    }
  }

  function Names(rows: seq<HandleRow>): set<Name> {
    set r | r in rows :: r.name
  }

  /** The UNIQUE constraint on `name`. */
  ghost predicate UniqueNames(rows: seq<HandleRow>) {
    forall i, j :: 0 <= i < j < |rows| ==> rows[i].name != rows[j].name
  }

  lemma UniqueRow(rows: seq<HandleRow>, r: HandleRow, r': HandleRow)
    requires UniqueNames(rows) && r in rows && r' in rows && r.name == r'.name
    ensures r == r'
  {
    var i :| 0 <= i < |rows| && rows[i] == r;
    var j :| 0 <= j < |rows| && rows[j] == r';
    assert i == j;
  }

  lemma {:induction false} SelectUnique(rows: seq<HandleRow>, w: Where)
    requires UniqueNames(rows)
    ensures UniqueNames(Select(rows, w))
  {
    if rows != [] {
      var init := rows[..|rows| - 1];
      SelectUnique(init, w);
      forall r | r in Select(init, w) ensures r.name != rows[|rows| - 1].name {
        var i :| 0 <= i < |init| && init[i] == r;
      }
      var s := Select(init, w);
      assert forall i :: 0 <= i < |s| ==> s[i] in s;
    }
  }

  lemma {:induction false} SelectNone(rows: seq<HandleRow>, w: Where)
    requires forall r :: r in rows ==> !w.Holds(r)
    ensures Select(rows, w) == []
  {
    if rows != [] {
      assert rows == rows[..|rows| - 1] + [rows[|rows| - 1]];
      SelectNone(rows[..|rows| - 1], w);
    }
  }

  /** Keeping every row keeps the table as it is. */
  lemma {:induction false} SelectAll(rows: seq<HandleRow>, w: Where)
    requires forall r :: r in rows ==> w.Holds(r)
    ensures Select(rows, w) == rows
  {
    if rows != [] {
      var init := rows[..|rows| - 1];
      assert rows == init + [rows[|rows| - 1]];
      SelectAll(init, w);
    }
  }

  lemma UpdateNames(rows: seq<HandleRow>, w: Where, c: Change)
    ensures Names(Update(rows, w, c)) == Names(rows)
    ensures UniqueNames(rows) ==> UniqueNames(Update(rows, w, c))
  {
    var s := Update(rows, w, c);
    assert forall i :: 0 <= i < |rows| ==> s[i].name == rows[i].name;
    forall n | n in Names(s) ensures n in Names(rows) {
      var i :| 0 <= i < |s| && s[i].name == n;
      assert rows[i] in rows;
    }
    forall n | n in Names(rows) ensures n in Names(s) {
      var i :| 0 <= i < |rows| && rows[i].name == n;
      assert s[i] in s;
    }
  }

  /** An UPDATE that changes no row is no update. */
  lemma UpdateNothing(rows: seq<HandleRow>, w: Where, c: Change)
    requires forall r :: r in rows && w.Holds(r) ==> c.Apply(r) == r
    ensures Update(rows, w, c) == rows
  {
  }
}
