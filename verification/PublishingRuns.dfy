/**
 Publishing over whole runs: the backlog is counted exactly and drains, a final
 status is never lost, and every final handle is in the tip's snapshot.
 */
module PublishingRuns {
  import opened Wrappers
  import opened Tables
  import opened ZkBatch
  import opened NameOrder
  import opened Ledgers
  import opened LedgerProofs
  import opened Proving
  import opened BatchSizing
  import opened Publishing
  import LedgerRuns

  // The backlog

  function Backlog(l: Ledger, tip: Option<Root>): nat {
    Count(ResetStale(l.handles, tip), Unpublished(ConfirmedIdx(l, tip)))
  }

  lemma NoStale(rows: seq<HandleRow>, tip: Option<Root>)
    requires TempsCurrent(rows, tip)
    ensures ResetStale(rows, tip) == rows
  {
    UpdateNothing(rows, StaleTemp(tip), ClearPublish);
  }

  /** What a pass without a list amounts to when nothing outside fails: its batch goes out, or is refused for its size. */
  lemma LimitedPassIs(l: Ledger, last: Measurement, tip: Option<Root>, certTip: Option<Root>, limit: nat, bytes: nat)
    requires Issuable(l, certTip) && limit > 0
    ensures var p, total := LimitedPass(l, last, tip, certTip, limit, [], Up(bytes)), Backlog(l, tip);
      var n := Min(limit, total);
      && p.result == Ok(if Fits(bytes) then (n, total - n) else (0, total))
      && p.last == (if total == 0 then last else RecordMessageSize(last, n + 1, bytes))
      && |p.sent| == (if Fits(bytes) then n else 0)
      && p.handles == HandlesAfter(l, tip, limit, Fits(bytes))
  {
    var rows := ResetStale(l.handles, tip);
    var batch := BatchFor(rows, ConfirmedIdx(l, tip), [], limit);
    assert |batch| == Min(limit, Backlog(l, tip));
    SendIs(l, rows, batch, Backlog(l, tip), last, tip, certTip, bytes);
  }

  /** The rows after a batch of at most `limit` was marked, or none was. */
  function HandlesAfter(l: Ledger, tip: Option<Root>, limit: nat, sent: bool): seq<HandleRow> {
    var rows, confirmed := ResetStale(l.handles, tip), ConfirmedIdx(l, tip);
    var batch := BatchFor(rows, confirmed, [], limit);
    if sent && batch != [] then MarkBatch(rows, batch, confirmed, tip) else rows
  }

  lemma SendIs(l: Ledger, rows: seq<HandleRow>, batch: seq<HandleRow>, total: nat, last: Measurement, tip: Option<Root>, certTip: Option<Root>, bytes: nat)
    requires Issuable(l, certTip) && |batch| <= total
    ensures var p := SendBatch(l, rows, batch, total, last, tip, certTip, Up(bytes));
      && p.result == Ok(if Fits(bytes) then (|batch|, total - |batch|) else (0, total))
      && p.handles == (if Fits(bytes) then MarkBatch(rows, batch, ConfirmedIdx(l, tip), tip) else rows)
      && p.last == RecordMessageSize(last, |batch| + 1, bytes)
      && |p.sent| == if Fits(bytes) then |batch| else 0
  {
    CertsOk(l.snaps, certTip, batch);
  }

  lemma LimitedProgress(l: Ledger, last: Measurement, tip: Option<Root>, certTip: Option<Root>, limit: nat, bytes: nat)
    requires UniqueNames(l.handles) && Issuable(l, certTip) && limit > 0
    ensures Progress(l, last, tip, LimitedPass(l, last, tip, certTip, limit, [], Up(bytes)), Min(limit, Backlog(l, tip)), bytes)
  {
    LimitedPassIs(l, last, tip, certTip, limit, bytes);
    CountsAfter(l, tip, limit, Fits(bytes));
  }

  /** A batch of n handles went out, or was refused; what is reported as remaining is what the next count will find. */
  ghost predicate Progress(l: Ledger, last: Measurement, tip: Option<Root>, p: Pass, n: nat, bytes: nat) {
    var left := Backlog(l.(handles := p.handles), tip);
    && left == Backlog(l, tip) - (if Fits(bytes) then n else 0)
    && left == Count(p.handles, Unpublished(ConfirmedIdx(l, tip)))
    && p.result == Ok((if Fits(bytes) then n else 0, left))
    && |p.sent| == (if Fits(bytes) then n else 0)
    && p.last == (if Backlog(l, tip) == 0 then last else RecordMessageSize(last, n + 1, bytes))
    && (Backlog(l, tip) == 0 ==> p.handles == ResetStale(l.handles, tip))
  }

  /**
   An automatic pass whose message fits publishes a full batch, or all that is left, and what it reports as
   remaining is what the next count will find. A refused one reports everything as remaining and marks nothing.
   */
  lemma PassProgress(l: Ledger, last: Measurement, tip: Option<Root>, certTip: Option<Root>, ceiling: nat, bytes: nat)
    requires UniqueNames(l.handles) && Issuable(l, certTip)
    ensures Progress(l, last, tip, PublishPass(l, last, tip, certTip, ceiling, [], Up(bytes)), BatchOf(last, Backlog(l, tip), ceiling), bytes)
  {
    LimitedProgress(l, last, tip, certTip, NextBatchSize(last, ceiling), bytes);
  }

  /** The counts after a batch of so many was marked, or none was. */
  lemma CountsAfter(l: Ledger, tip: Option<Root>, limit: nat, sent: bool)
    requires UniqueNames(l.handles)
    ensures var handles, n := HandlesAfter(l, tip, limit, sent), if sent then Min(limit, Backlog(l, tip)) else 0;
      && Backlog(l.(handles := handles), tip) == Backlog(l, tip) - n
      && Count(handles, Unpublished(ConfirmedIdx(l, tip))) == Backlog(l, tip) - n
      && (Backlog(l, tip) == 0 ==> handles == ResetStale(l.handles, tip))
  {
    BatchCount(l, tip, limit);
    AfterIsCurrent(l, tip, limit, sent);
    BacklogNow(l, HandlesAfter(l, tip, limit, sent), tip);
  }

  /** Where nothing is stale, the backlog is what SQL counts. */
  lemma BacklogNow(l: Ledger, rows: seq<HandleRow>, tip: Option<Root>)
    requires TempsCurrent(rows, tip)
    ensures Backlog(l.(handles := rows), tip) == Count(rows, Unpublished(ConfirmedIdx(l, tip)))
  {
    NoStale(rows, tip);
  }

  lemma AfterIsCurrent(l: Ledger, tip: Option<Root>, limit: nat, sent: bool)
    requires UniqueNames(l.handles)
    ensures TempsCurrent(HandlesAfter(l, tip, limit, sent), tip)
  {
    var rows, confirmed := ResetStale(l.handles, tip), ConfirmedIdx(l, tip);
    UpdateNames(l.handles, StaleTemp(tip), ClearPublish);
    ResetIsCurrent(l.handles, tip);
    BatchIs(rows, confirmed, [], limit);
    MarkedCurrent(rows, BatchFor(rows, confirmed, [], limit), confirmed, tip);
  }

  lemma BatchCount(l: Ledger, tip: Option<Root>, limit: nat)
    requires UniqueNames(l.handles)
    ensures var rows, confirmed := ResetStale(l.handles, tip), ConfirmedIdx(l, tip);
      var batch := BatchFor(rows, confirmed, [], limit);
      && |batch| == Min(limit, Backlog(l, tip))
      && Count(MarkBatch(rows, batch, confirmed, tip), Unpublished(confirmed)) == Backlog(l, tip) - |batch|
  {
    var rows, confirmed := ResetStale(l.handles, tip), ConfirmedIdx(l, tip);
    UpdateNames(l.handles, StaleTemp(tip), ClearPublish);
    BatchIs(rows, confirmed, [], limit);
    CountAfterBatch(rows, BatchFor(rows, confirmed, [], limit), confirmed, tip);
  }

  /** Consecutive automatic passes against one tip, with the byte counts their messages come to. */
  function Passes(l: Ledger, last: Measurement, tip: Option<Root>, ceiling: nat, messages: seq<nat>): (Ledger, Measurement)
    decreases |messages|
  {
    if messages == [] then (l, last)
    else
      var p := PublishPass(l, last, tip, tip, ceiling, [], Up(messages[0]));
      Passes(l.(handles := p.handles), p.last, tip, ceiling, messages[1..])
  }

  /** With a fixed tip, no refusals and nothing new, every pass takes at least one handle off the backlog until it is empty. */
  lemma {:induction false} Drains(l: Ledger, last: Measurement, tip: Option<Root>, ceiling: nat, messages: seq<nat>)
    requires UniqueNames(l.handles) && Issuable(l, tip)
    requires forall i :: 0 <= i < |messages| ==> Fits(messages[i])
    ensures var (m, _) := Passes(l, last, tip, ceiling, messages);
      && Issuable(m, tip) && UniqueNames(m.handles)
      && (Backlog(m, tip) == 0 || Backlog(m, tip) + |messages| <= Backlog(l, tip))
      && (messages != [] ==> TempsCurrent(m.handles, tip))
    decreases |messages|
  {
    if messages != [] {
      var p := PublishPass(l, last, tip, tip, ceiling, [], Up(messages[0]));
      DrainsOne(l, last, tip, ceiling, messages[0]);
      Drains(l.(handles := p.handles), p.last, tip, ceiling, messages[1..]);
    }
  }

  lemma DrainsOne(l: Ledger, last: Measurement, tip: Option<Root>, ceiling: nat, bytes: nat)
    requires UniqueNames(l.handles) && Issuable(l, tip) && Fits(bytes)
    ensures var m := l.(handles := PublishPass(l, last, tip, tip, ceiling, [], Up(bytes)).handles);
      && Issuable(m, tip) && UniqueNames(m.handles) && TempsCurrent(m.handles, tip)
      && (if Backlog(l, tip) == 0 then Backlog(m, tip) == 0 else Backlog(m, tip) < Backlog(l, tip))
  {
    PassProgress(l, last, tip, tip, ceiling, bytes);
    PassLeavesTempsCurrent(l, last, tip, tip, ceiling, [], Up(bytes));
    PassKeepsNames(l, last, tip, tip, ceiling, [], Up(bytes));
  }

  lemma PassKeepsNames(l: Ledger, last: Measurement, tip: Option<Root>, certTip: Option<Root>, ceiling: nat, only: seq<Name>, net: Network)
    requires UniqueNames(l.handles)
    ensures UniqueNames(PublishPass(l, last, tip, certTip, ceiling, only, net).handles)
  {
    var rows, confirmed := ResetStale(l.handles, tip), ConfirmedIdx(l, tip);
    var batch := PassBatch(l, last, tip, ceiling, only);
    var temps, finals := FinalNames(batch, confirmed, false), FinalNames(batch, confirmed, true);
    PassShape(l, last, tip, certTip, ceiling, only, net);
    UpdateNames(l.handles, StaleTemp(tip), ClearPublish);
    MarkPublishedIs(rows, temps, Publish(Temp, tip));
    UpdateNames(rows, NameIn(temps), Publish(Temp, tip));
    var mid := MarkPublished(rows, temps, Publish(Temp, tip));
    MarkPublishedIs(mid, finals, Publish(Final, None));
    UpdateNames(mid, NameIn(finals), Publish(Final, None));
  }

  /** After as many passes as there are handles to publish, and at least one, a further pass reports (0, 0) and changes nothing. */
  lemma Quiescent(l: Ledger, last: Measurement, tip: Option<Root>, ceiling: nat, messages: seq<nat>, bytes: nat)
    requires UniqueNames(l.handles) && Issuable(l, tip)
    requires forall i :: 0 <= i < |messages| ==> Fits(messages[i])
    requires |messages| >= Backlog(l, tip) && messages != []
    ensures var (m, last') := Passes(l, last, tip, ceiling, messages);
      var p := PublishPass(m, last', tip, tip, ceiling, [], Up(bytes));
      p.handles == m.handles && p.last == last' && p.result == Ok((0, 0))
  {
    var (m, last') := Passes(l, last, tip, ceiling, messages);
    Drains(l, last, tip, ceiling, messages);
    PassProgress(m, last', tip, tip, ceiling, bytes);
    NoStale(m.handles, tip);
  }

  // The backlog and the batch size together

  /** The message of the next automatic pass, when sizes follow a law. */
  function NextBytes(law: Law, l: Ledger, last: Measurement, tip: Option<Root>, ceiling: nat): nat {
    law.Bytes(BatchOf(last, Backlog(l, tip), ceiling))
  }

  ghost predicate Ready(l: Ledger, tip: Option<Root>) {
    UniqueNames(l.handles) && Issuable(l, tip)
  }

  /** The ledger and the measurement that each pass starts from. */
  datatype Point = Point(ledger: Ledger, last: Measurement)

  /** From one point to the next by an automatic pass, sent or refused. */
  ghost predicate PassAt(law: Law, run: seq<Point>, tip: Option<Root>, ceiling: nat, i: nat)
    requires i + 1 < |run|
  {
    var l, last := run[i].ledger, run[i].last;
    var p := PublishPass(l, last, tip, tip, ceiling, [], Up(NextBytes(law, l, last, tip, ceiling)));
    run[i + 1] == Point(l.(handles := p.handles), p.last)
  }

  ghost predicate SizedRun(law: Law, run: seq<Point>, tip: Option<Root>, ceiling: nat) {
    run != [] && forall i {:trigger PassAt(law, run, tip, ceiling, i)} :: 0 <= i < |run| - 1 ==> PassAt(law, run, tip, ceiling, i)
  }

  /** The same run, as far as sizes go: how many handles are left, and the measurement. */
  datatype Size = Size(backlog: nat, last: Measurement)

  function SizeOf(p: Point, tip: Option<Root>): Size {
    Size(Backlog(p.ledger, tip), p.last)
  }

  function SizesOf(run: seq<Point>, tip: Option<Root>): seq<Size> {
    seq(|run|, i requires 0 <= i < |run| => SizeOf(run[i], tip))
  }

  /** A pass takes its batch off the backlog, or is refused and leaves a smaller limit. */
  ghost predicate Advances(law: Law, s: Size, t: Size, ceiling: nat) {
    var handles := BatchOf(s.last, s.backlog, ceiling);
    && (s.backlog == 0 ==> t.backlog == 0)
    && (s.backlog > 0 && Fits(law.Bytes(handles)) ==> t.backlog < s.backlog && FitMeasured(law, t.last))
    && (s.backlog > 0 && !Fits(law.Bytes(handles)) ==>
          t.backlog == s.backlog && 6 <= handles && NextBatchSize(t.last, ceiling) < handles)
  }

  ghost predicate AllAdvance(law: Law, sizes: seq<Size>, ceiling: nat) {
    forall i :: 0 <= i < |sizes| - 1 ==> Advances(law, sizes[i], sizes[i + 1], ceiling)
  }

  lemma MeasuredAdvances(law: Law, s: Size, t: Size, ceiling: nat)
    requires law.Modest()
    requires t.backlog == s.backlog - if Fits(law.Bytes(BatchOf(s.last, s.backlog, ceiling))) then BatchOf(s.last, s.backlog, ceiling) else 0
    requires s.backlog > 0 ==> t.last == Measured(law, s.last, BatchOf(s.last, s.backlog, ceiling))
    ensures Advances(law, s, t, ceiling)
  {
    var handles := BatchOf(s.last, s.backlog, ceiling);
    if handles > 0 && Fits(law.Bytes(handles)) {
      JustFitted(law, s.last, handles);
    } else if handles > 0 {
      AfterRefusal(law, s.last, handles, ceiling);
    }
  }

  lemma PassAdvances(law: Law, run: seq<Point>, tip: Option<Root>, ceiling: nat, i: nat)
    requires law.Modest() && SizedRun(law, run, tip, ceiling) && i + 1 < |run| && Ready(run[i].ledger, tip)
    ensures Ready(run[i + 1].ledger, tip)
    ensures Advances(law, SizeOf(run[i], tip), SizeOf(run[i + 1], tip), ceiling)
  {
    assert PassAt(law, run, tip, ceiling, i);
    var l, last := run[i].ledger, run[i].last;
    var bytes := NextBytes(law, l, last, tip, ceiling);
    PassProgress(l, last, tip, tip, ceiling, bytes);
    PassKeepsNames(l, last, tip, tip, ceiling, [], Up(bytes));
    MeasuredAdvances(law, SizeOf(run[i], tip), SizeOf(run[i + 1], tip), ceiling);
  }

  lemma {:induction false} RunReady(law: Law, run: seq<Point>, tip: Option<Root>, ceiling: nat, i: nat)
    requires law.Modest() && SizedRun(law, run, tip, ceiling) && Ready(run[0].ledger, tip) && i < |run|
    ensures Ready(run[i].ledger, tip)
  {
    if i > 0 {
      RunReady(law, run, tip, ceiling, i - 1);
      PassAdvances(law, run, tip, ceiling, i - 1);
    }
  }

  /** Sizes alone: an empty backlog stays empty. */
  lemma {:induction false} StaysEmpty(law: Law, sizes: seq<Size>, ceiling: nat)
    requires AllAdvance(law, sizes, ceiling) && sizes != [] && sizes[0].backlog == 0
    ensures sizes[|sizes| - 1].backlog == 0
  {
    if |sizes| > 1 {
      assert Advances(law, sizes[0], sizes[1], ceiling);
      StaysEmpty(law, sizes[1..], ceiling);
    }
  }

  /** Once a message fitted, every pass makes the backlog smaller. */
  lemma {:induction false} DrainsOnceFit(law: Law, sizes: seq<Size>, ceiling: nat)
    requires law.Modest() && AllAdvance(law, sizes, ceiling) && sizes != [] && FitMeasured(law, sizes[0].last)
    requires |sizes| > sizes[0].backlog
    ensures sizes[|sizes| - 1].backlog == 0
    decreases |sizes|
  {
    if sizes[0].backlog == 0 {
      StaysEmpty(law, sizes, ceiling);
    } else {
      AutoFits(law, sizes[0].last, sizes[0].backlog, ceiling);
      assert Advances(law, sizes[0], sizes[1], ceiling);
      DrainsOnceFit(law, sizes[1..], ceiling);
    }
  }

  lemma {:induction false} SizesEmpty(law: Law, sizes: seq<Size>, ceiling: nat)
    requires law.Modest() && AllAdvance(law, sizes, ceiling) && sizes != []
    requires |sizes| > sizes[0].backlog + Max(NextBatchSize(sizes[0].last, ceiling), 5) - 5
    ensures sizes[|sizes| - 1].backlog == 0
    decreases |sizes|
  {
    if sizes[0].backlog == 0 {
      StaysEmpty(law, sizes, ceiling);
    } else {
      assert Advances(law, sizes[0], sizes[1], ceiling);
      if Fits(law.Bytes(BatchOf(sizes[0].last, sizes[0].backlog, ceiling))) {
        DrainsOnceFit(law, sizes[1..], ceiling);
      } else {
        SizesEmpty(law, sizes[1..], ceiling);
      }
    }
  }

  /**
   From any measurement, refused batches included: with a fixed tip and nothing new, the backlog is empty after as
   many passes as it holds handles and the first batch limit exceeds five.
   */
  lemma BacklogEmpties(law: Law, run: seq<Point>, tip: Option<Root>, ceiling: nat)
    requires law.Modest() && SizedRun(law, run, tip, ceiling) && Ready(run[0].ledger, tip)
    requires |run| > Backlog(run[0].ledger, tip) + Max(NextBatchSize(run[0].last, ceiling), 5) - 5
    ensures Backlog(run[|run| - 1].ledger, tip) == 0
  {
    var sizes := SizesOf(run, tip);
    forall i | 0 <= i < |sizes| - 1 ensures Advances(law, sizes[i], sizes[i + 1], ceiling) {
      RunReady(law, run, tip, ceiling, i);
      PassAdvances(law, run, tip, ceiling, i);
    }
    SizesEmpty(law, sizes, ceiling);
  }

  // Runs with an advancing tip

  /** The ledger, the index of the commitment that is the on-chain tip, and the last measurement. */
  datatype World = World(ledger: Ledger, tip: Option<nat>, last: Measurement)
  {
    function TipRoot(): Option<Root> {
      if tip.Some? && tip.value < |ledger.snaps| then Some(RootOf(ledger.snaps[tip.value])) else None
    }
  }

  const INITIAL := World(EMPTY, None, None)

  /** The chain adopts broadcast commitment k, if that is no step back. */
  function MoveTip(w: World, k: nat): World {
    if k < |w.ledger.commits| && w.ledger.commits[k].txid.Some? && (w.tip.Some? ==> w.tip.value <= k)
    then w.(tip := Some(k)) else w
  }

  datatype Action =
    | OnLedger(a: LedgerRuns.Action)
    | TipMoves(k: nat)
    | DoPublish(moves: Option<nat>, ceiling: nat, only: seq<Name>, net: Network)   // the tip may move before the certificates are issued
    | StopPublish(ceiling: nat, only: seq<Name>, temps: nat, finals: nat)          // crash after the reset and so many status updates

  function Apply(h: Hasher, w: World, a: Action): World {
    match a
    case OnLedger(b) => w.(ledger := LedgerRuns.Apply(h, w.ledger, b))
    case TipMoves(k) => MoveTip(w, k)
    case DoPublish(moves, ceiling, only, net) =>
      var v := if moves.Some? then MoveTip(w, moves.value) else w;
      var p := PublishPass(w.ledger, w.last, w.TipRoot(), v.TipRoot(), ceiling, only, net);
      v.(ledger := w.ledger.(handles := p.handles), last := p.last)
    case StopPublish(ceiling, only, temps, finals) =>
      w.(ledger := w.ledger.(handles := StoppedRows(w, ceiling, only, temps, finals)), last := None)
  }

  /** The handle rows of a pass that stopped after some of its status updates. The measurement is lost with the process. */
  function StoppedRows(w: World, ceiling: nat, only: seq<Name>, temps: nat, finals: nat): seq<HandleRow> {
    MarkSome(ResetStale(w.ledger.handles, w.TipRoot()), PassBatch(w.ledger, w.last, w.TipRoot(), ceiling, only),
             ConfirmedIdx(w.ledger, w.TipRoot()), w.TipRoot(), temps, finals)
  }

  function Run(h: Hasher, w: World, actions: seq<Action>): World {
    if actions == [] then w
    else Apply(h, Run(h, w, actions[..|actions| - 1]), actions[|actions| - 1])
  }

  /** A row that is final is committed at or below the tip. */
  ghost predicate FinalRowOk(tip: Option<nat>, r: HandleRow) {
    r.status == Some(Final) ==> IsConfirmed(r, tip) && r.tempTip.None?
  }

  /** The row was not committed at or below the tip j that its temporary certificate was recorded against. */
  ghost predicate TempAt(snaps: seq<Tree>, tip: Option<nat>, r: HandleRow, j: nat) {
    tip.Some? && j <= tip.value < |snaps| && r.tempTip == Some(RootOf(snaps[j])) && !IsConfirmed(r, Some(j))
  }

  ghost predicate TempRowOk(snaps: seq<Tree>, tip: Option<nat>, r: HandleRow) {
    r.status == Some(Temp) && r.tempTip.Some? ==> exists j: nat :: TempAt(snaps, tip, r, j)
  }

  ghost predicate AllTemps(snaps: seq<Tree>, tip: Option<nat>, rows: seq<HandleRow>) {
    forall r :: r in rows ==> TempRowOk(snaps, tip, r)
  }

  ghost predicate WorldOk(w: World) {
    && Inv(w.ledger)
    && (w.tip.Some? ==> w.tip.value < |w.ledger.commits| && w.ledger.commits[w.tip.value].txid.Some?)
    && (forall r :: r in w.ledger.handles ==> FinalRowOk(w.tip, r))
    && AllTemps(w.ledger.snaps, w.tip, w.ledger.handles)
  }

  ghost predicate SameFinals(a: seq<HandleRow>, b: seq<HandleRow>) {
    forall r: HandleRow :: r.status == Some(Final) ==> (r in a <==> r in b)
  }

  lemma UpdateFinals(rows: seq<HandleRow>, w: Where, c: Change)
    requires !(c.Publish? && c.status.Final?)
    requires forall r :: r in rows && r.status == Some(Final) ==> !w.Holds(r)
    ensures SameFinals(rows, Update(rows, w, c))
  {
    var s := Update(rows, w, c);
    forall r: HandleRow | r.status == Some(Final) ensures r in rows <==> r in s {
      if r in rows {
        var i :| 0 <= i < |rows| && rows[i] == r;
        assert s[i] == r;
      }
      if r in s {
        var i :| 0 <= i < |s| && s[i] == r;
        assert rows[i] in rows;
      }
    }
  }

  /** No staged row is final. */
  ghost predicate StagedNotFinal(rows: seq<HandleRow>) {
    forall r :: r in rows && r.status == Some(Final) ==> r.root.Some?
  }

  lemma {:induction false} ParkFinals(rows: seq<HandleRow>, names: seq<Name>, parked: bool)
    requires StagedNotFinal(rows)
    ensures SameFinals(rows, ParkNames(rows, names, parked)) && StagedNotFinal(ParkNames(rows, names, parked))
  {
    if names != [] {
      var n := |names| - 1;
      ParkFinals(rows, names[..n], parked);
      UpdateFinals(ParkNames(rows, names[..n], parked), StagedNamed(names[n]), Park(parked));
    }
  }

  lemma {:induction false} DeleteFinals(rows: seq<HandleRow>, names: seq<Name>)
    requires StagedNotFinal(rows)
    ensures SameFinals(rows, DeleteNames(rows, names)) && StagedNotFinal(DeleteNames(rows, names))
  {
    if names != [] {
      DeleteFinals(rows, names[..|names| - 1]);
    }
  }

  lemma FinalsAreCommitted(w: World)
    requires WorldOk(w)
    ensures StagedNotFinal(w.ledger.handles)
  {
    forall r | r in w.ledger.handles && r.status == Some(Final) ensures r.root.Some? {
      assert FinalRowOk(w.tip, r) && RowOk(w.ledger.snaps, r);
    }
  }

  /** A rollback touches no final row, since those are at or below the broadcast tip. */
  lemma RollbackFinals(w: World)
    requires WorldOk(w) && w.ledger.commits != [] && w.ledger.commits[|w.ledger.commits| - 1].txid.None?
    ensures SameFinals(w.ledger.handles, RolledBack(w.ledger).handles)
  {
    var l, n := w.ledger, |w.ledger.commits| - 1;
    forall r | r in l.handles && r.status == Some(Final) ensures !CommittedAt(l.commits[n].root).Holds(r) {
      assert FinalRowOk(w.tip, r) && RowOk(l.snaps, r);
      RootsDiffer(l.snaps, r.idx.value + 1, n + 1);
    }
    UpdateFinals(l.handles, CommittedAt(l.commits[n].root), Unstage);
  }

  lemma HandlesFinals(h: Hasher, w: World, a: LedgerRuns.Action)
    requires WorldOk(w) && (a.Stage? || a.ParkHandles? || a.RemoveHandles? || a.Check?)
    ensures SameFinals(w.ledger.handles, LedgerRuns.Apply(h, w.ledger, a).handles)
  {
    var l := w.ledger;
    FinalsAreCommitted(w);
    match a
    case Stage(name, spk) =>
      if SkipFor(l, name, spk).None? {
        NothingReplaced(l, name, spk);
      }
    case ParkHandles(names, parked) =>
      ParkFinals(l.handles, names, parked);
      UpdateFinals(l.handles, Staged, Park(parked));
    case RemoveHandles(names) => DeleteFinals(l.handles, names);
    case Check => CheckIsIdentity(l);
  }

  lemma CommittedFinals(h: Hasher, w: World)
    requires WorldOk(w)
    ensures SameFinals(w.ledger.handles, Committed(h, w.ledger).handles)
  {
    var l := w.ledger;
    FinalsAreCommitted(w);
    UpdateFinals(l.handles, StagedUnparked, MarkCommitted(RootOf(InsertAll(Newest(l.snaps), StagedEntries(l))), |l.commits|));
  }

  lemma LedgerFinals(h: Hasher, w: World, a: LedgerRuns.Action)
    requires WorldOk(w)
    ensures SameFinals(w.ledger.handles, LedgerRuns.Apply(h, w.ledger, a).handles)
  {
    var l := w.ledger;
    if a.DoCommit? || a.DoCommitLocal? {
      LedgerRuns.CommitOutcome(h, l);
      CommittedFinals(h, w);
    } else if a.DoRollback? || a.StopRollback? || a.StopCommit? {
      LedgerRuns.RollingOutcome(h, l, a);
      if LedgerRuns.RollsBack(l, LedgerRuns.Apply(h, l, a)) {
        RollbackFinals(w);
      }
    } else if a.DoBroadcast? || a.Save? || a.StopSave? {
      LedgerRuns.RowsOutcome(h, l, a);
    } else {
      HandlesFinals(h, w, a);
    }
  }

  // Temporary certificates

  lemma TempApply(snaps: seq<Tree>, tip: Option<nat>, r: HandleRow, c: Change)
    requires TempRowOk(snaps, tip, r) && !c.Publish? && (c.MarkCommitted? && tip.Some? ==> tip.value < c.idx)
    ensures TempRowOk(snaps, tip, c.Apply(r))
  {
    if c.Apply(r).status == Some(Temp) && c.Apply(r).tempTip.Some? {
      var j: nat :| TempAt(snaps, tip, r, j);
      assert TempAt(snaps, tip, c.Apply(r), j);
    }
  }

  lemma TempsUpdate(snaps: seq<Tree>, tip: Option<nat>, rows: seq<HandleRow>, w: Where, c: Change)
    requires AllTemps(snaps, tip, rows) && !c.Publish? && (c.MarkCommitted? && tip.Some? ==> tip.value < c.idx)
    ensures AllTemps(snaps, tip, Update(rows, w, c))
  {
    var s := Update(rows, w, c);
    forall r | r in s ensures TempRowOk(snaps, tip, r) {
      var i :| 0 <= i < |s| && s[i] == r;
      assert rows[i] in rows;
      TempApply(snaps, tip, rows[i], c);
    }
  }

  lemma {:induction false} ParkTemps(snaps: seq<Tree>, tip: Option<nat>, rows: seq<HandleRow>, names: seq<Name>, parked: bool)
    requires AllTemps(snaps, tip, rows)
    ensures AllTemps(snaps, tip, ParkNames(rows, names, parked))
  {
    if names != [] {
      var n := |names| - 1;
      ParkTemps(snaps, tip, rows, names[..n], parked);
      TempsUpdate(snaps, tip, ParkNames(rows, names[..n], parked), StagedNamed(names[n]), Park(parked));
    }
  }

  lemma {:induction false} DeleteTemps(snaps: seq<Tree>, tip: Option<nat>, rows: seq<HandleRow>, names: seq<Name>)
    requires AllTemps(snaps, tip, rows)
    ensures AllTemps(snaps, tip, DeleteNames(rows, names))
  {
    if names != [] {
      DeleteTemps(snaps, tip, rows, names[..|names| - 1]);
    }
  }

  lemma HandlesTemps(h: Hasher, w: World, a: LedgerRuns.Action)
    requires WorldOk(w) && (a.Stage? || a.ParkHandles? || a.RemoveHandles? || a.Check?)
    ensures AllTemps(w.ledger.snaps, w.tip, LedgerRuns.Apply(h, w.ledger, a).handles)
  {
    var l := w.ledger;
    match a
    case Stage(name, spk) =>
      if SkipFor(l, name, spk).None? {
        NothingReplaced(l, name, spk);
      }
    case ParkHandles(names, parked) =>
      ParkTemps(l.snaps, w.tip, l.handles, names, parked);
      TempsUpdate(l.snaps, w.tip, l.handles, Staged, Park(parked));
    case RemoveHandles(names) => DeleteTemps(l.snaps, w.tip, l.handles, names);
    case Check => CheckIsIdentity(l);
  }

  lemma RolledBackTemps(w: World)
    requires WorldOk(w) && w.ledger.commits != []
    ensures AllTemps(w.ledger.snaps, w.tip, RolledBack(w.ledger).handles)
  {
    var l := w.ledger;
    TempsUpdate(l.snaps, w.tip, l.handles, CommittedAt(l.commits[|l.commits| - 1].root), Unstage);
  }

  lemma CommittedTemps(h: Hasher, w: World)
    requires WorldOk(w)
    ensures AllTemps(w.ledger.snaps, w.tip, Committed(h, w.ledger).handles)
  {
    var l := w.ledger;
    TempsUpdate(l.snaps, w.tip, l.handles, StagedUnparked, MarkCommitted(RootOf(InsertAll(Newest(l.snaps), StagedEntries(l))), |l.commits|));
  }

  lemma LedgerTemps(h: Hasher, w: World, a: LedgerRuns.Action)
    requires WorldOk(w)
    ensures AllTemps(w.ledger.snaps, w.tip, LedgerRuns.Apply(h, w.ledger, a).handles)
  {
    var l := w.ledger;
    if a.DoCommit? || a.DoCommitLocal? {
      LedgerRuns.CommitOutcome(h, l);
      CommittedTemps(h, w);
    } else if a.DoRollback? || a.StopRollback? || a.StopCommit? {
      LedgerRuns.RollingOutcome(h, l, a);
      if LedgerRuns.RollsBack(l, LedgerRuns.Apply(h, l, a)) {
        RolledBackTemps(w);
      }
    } else if a.DoBroadcast? || a.Save? || a.StopSave? {
      LedgerRuns.RowsOutcome(h, l, a);
    } else {
      HandlesTemps(h, w, a);
    }
  }

  /** What was recorded against a tip stays so while that tip's snapshot stays and the tip only advances. */
  lemma TempsLater(snaps: seq<Tree>, tip: Option<nat>, snaps': seq<Tree>, tip': Option<nat>, rows: seq<HandleRow>)
    requires AllTemps(snaps, tip, rows) && NotAfter(tip, tip')
    requires tip.Some? ==> tip'.value < |snaps'| && forall i :: 0 <= i <= tip.value ==> i < |snaps| && snaps'[i] == snaps[i]
    ensures AllTemps(snaps', tip', rows)
  {
    forall r | r in rows && r.status == Some(Temp) && r.tempTip.Some? ensures TempRowOk(snaps', tip', r) {
      assert TempRowOk(snaps, tip, r);
      var j: nat :| TempAt(snaps, tip, r, j);
      assert TempAt(snaps', tip', r, j);
    }
  }

  /** The tip is where it was or further on, and up to where it was the snapshots are the same. */
  ghost predicate Onward(w: World, v: World) {
    && NotAfter(w.tip, v.tip)
    && (w.tip.Some? ==>
          && w.tip.value < |w.ledger.snaps| && w.tip.value < |v.ledger.snaps|
          && forall i :: 0 <= i <= w.tip.value ==> v.ledger.snaps[i] == w.ledger.snaps[i])
  }

  lemma OnLedgerOk(h: Hasher, w: World, a: LedgerRuns.Action)
    requires WorldOk(w)
    ensures var v := w.(ledger := LedgerRuns.Apply(h, w.ledger, a)); WorldOk(v) && Onward(w, v)
  {
    var m := LedgerRuns.Apply(h, w.ledger, a);
    LedgerRuns.ApplyInv(h, w.ledger, a);
    LedgerRuns.StepPermanent(h, w.ledger, m);
    LedgerFinals(h, w, a);
    LedgerTemps(h, w, a);
    if w.tip.Some? {
      assert LedgerRuns.KeptUpTo(w.ledger, m, w.tip.value);
    }
    TempsLater(w.ledger.snaps, w.tip, m.snaps, w.tip, m.handles);
  }

  /** The rows keep every final one exactly as it is, make final only what the tip confirms, and temporary only what it does not. */
  ghost predicate GoodStatuses(w: World, rows: seq<HandleRow>) {
    && (forall r :: r in rows ==> FinalRowOk(w.tip, r))
    && AllTemps(w.ledger.snaps, w.tip, rows)
    && (forall r :: r in w.ledger.handles && r.status == Some(Final) ==> r in rows)
  }

  lemma ResetStatuses(w: World)
    requires WorldOk(w)
    ensures var reset := ResetStale(w.ledger.handles, w.TipRoot()); UniqueNames(reset) && GoodStatuses(w, reset)
  {
    var l, tip := w.ledger, w.TipRoot();
    UpdateFinals(l.handles, StaleTemp(tip), ClearPublish);
    UpdateNames(l.handles, StaleTemp(tip), ClearPublish);
    TempsUpdate(l.snaps, w.tip, l.handles, StaleTemp(tip), ClearPublish);
    assert forall r :: r in ResetStale(l.handles, tip) ==> FinalRowOk(w.tip, r);
  }

  /** Marking part of a batch keeps the statuses good. */
  lemma MarkSomeStatuses(w: World, batch: seq<HandleRow>, temps: nat, finals: nat)
    requires WorldOk(w) && forall r :: r in batch ==> r in ResetStale(w.ledger.handles, w.TipRoot())
    ensures GoodStatuses(w, MarkSome(ResetStale(w.ledger.handles, w.TipRoot()), batch, w.tip, w.TipRoot(), temps, finals))
  {
    var reset := ResetStale(w.ledger.handles, w.TipRoot());
    ResetStatuses(w);
    MarkSomeIs(reset, batch, w.tip, w.TipRoot(), temps, finals);
    var s := MarkSome(reset, batch, w.tip, w.TipRoot(), temps, finals);
    MarkFinals(reset, batch, w.tip, w.TipRoot(), s);
    MarkTemps(w.ledger.snaps, reset, batch, w.tip, w.TipRoot(), s);
  }

  lemma PublishStatuses(w: World, certTip: Option<Root>, ceiling: nat, only: seq<Name>, net: Network)
    requires WorldOk(w)
    ensures GoodStatuses(w, PublishPass(w.ledger, w.last, w.TipRoot(), certTip, ceiling, only, net).handles)
  {
    var l, tip := w.ledger, w.TipRoot();
    var batch := PassBatch(l, w.last, tip, ceiling, only);
    PassShape(l, w.last, tip, certTip, ceiling, only, net);
    BatchRows(l, w.last, tip, ceiling, only);
    TrackedIdx(l, tip, w.tip);
    ResetStatuses(w);
    MarkAll(ResetStale(l.handles, tip), batch, w.tip, tip);
    MarkSomeStatuses(w, batch, |batch|, |batch|);
  }

  lemma MarkFinals(rows: seq<HandleRow>, batch: seq<HandleRow>, k: Option<nat>, tip: Option<Root>, s: seq<HandleRow>)
    requires PartlyMarked(rows, batch, k, tip, s)
    requires forall r :: r in rows ==> FinalRowOk(k, r)
    ensures forall r :: r in s ==> FinalRowOk(k, r)
    ensures forall r :: r in rows && r.status == Some(Final) ==> r in s
  {
    forall r | r in s ensures FinalRowOk(k, r) {
      var i :| 0 <= i < |s| && s[i] == r;
      assert rows[i] in rows;
    }
    forall r | r in rows && r.status == Some(Final) ensures r in s {
      var i :| 0 <= i < |rows| && rows[i] == r;
      assert FinalRowOk(k, r) && s[i] == r;
    }
  }

  lemma MarkTemps(snaps: seq<Tree>, rows: seq<HandleRow>, batch: seq<HandleRow>, k: Option<nat>, tip: Option<Root>, s: seq<HandleRow>)
    requires PartlyMarked(rows, batch, k, tip, s)
    requires AllTemps(snaps, k, rows)
    requires if k.Some? then k.value < |snaps| && tip == Some(RootOf(snaps[k.value])) else tip.None?
    ensures AllTemps(snaps, k, s)
  {
    forall r | r in s ensures TempRowOk(snaps, k, r) {
      var i :| 0 <= i < |s| && s[i] == r;
      assert rows[i] in rows;
      if r != rows[i] && k.Some? && r.status == Some(Temp) {
        assert TempAt(snaps, k, r, k.value);
      }
    }
  }

  lemma StopPublishOk(h: Hasher, w: World, a: Action)
    requires WorldOk(w) && a.StopPublish?
    ensures WorldOk(Apply(h, w, a)) && Onward(w, Apply(h, w, a))
    ensures forall r :: r in w.ledger.handles && r.status == Some(Final) ==> r in Apply(h, w, a).ledger.handles
  {
    var l, tip := w.ledger, w.TipRoot();
    var batch := PassBatch(l, w.last, tip, a.ceiling, a.only);
    BatchRows(l, w.last, tip, a.ceiling, a.only);
    TrackedIdx(l, tip, w.tip);
    MarkSomeStatuses(w, batch, a.temps, a.finals);
    MarkedRows(l.snaps, ResetStale(l.handles, tip), batch, w.tip, tip, a.temps, a.finals);
  }

  lemma TipMovesOk(w: World, k: nat)
    requires WorldOk(w)
    ensures WorldOk(MoveTip(w, k)) && Onward(w, MoveTip(w, k))
  {
    var v := MoveTip(w, k);
    forall r | r in w.ledger.handles ensures FinalRowOk(v.tip, r) {
      assert FinalRowOk(w.tip, r);
    }
    TempsLater(w.ledger.snaps, w.tip, w.ledger.snaps, v.tip, w.ledger.handles);
  }

  /** The world once a pass is through, before the tip's move is counted in. */
  lemma PublishOk(w: World, certTip: Option<Root>, ceiling: nat, only: seq<Name>, net: Network)
    requires WorldOk(w)
    ensures var p := PublishPass(w.ledger, w.last, w.TipRoot(), certTip, ceiling, only, net);
      WorldOk(w.(ledger := w.ledger.(handles := p.handles), last := p.last))
  {
    PassInv(w.ledger, w.last, w.TipRoot(), certTip, ceiling, only, net);
    PublishStatuses(w, certTip, ceiling, only, net);
  }

  lemma DoPublishOk(h: Hasher, w: World, a: Action)
    requires WorldOk(w) && a.DoPublish?
    ensures WorldOk(Apply(h, w, a)) && Onward(w, Apply(h, w, a))
    ensures forall r :: r in w.ledger.handles && r.status == Some(Final) ==> r in Apply(h, w, a).ledger.handles
  {
    var certTip := (if a.moves.Some? then MoveTip(w, a.moves.value) else w).TipRoot();
    var p := PublishPass(w.ledger, w.last, w.TipRoot(), certTip, a.ceiling, a.only, a.net);
    var u := w.(ledger := w.ledger.(handles := p.handles), last := p.last);
    PublishOk(w, certTip, a.ceiling, a.only, a.net);
    PublishStatuses(w, certTip, a.ceiling, a.only, a.net);
    if a.moves.Some? {
      TipMovesOk(u, a.moves.value);
      assert Apply(h, w, a) == MoveTip(u, a.moves.value);
    }
  }

  lemma StepOk(h: Hasher, w: World, a: Action)
    requires WorldOk(w)
    ensures WorldOk(Apply(h, w, a)) && Onward(w, Apply(h, w, a))
    ensures forall r :: r in w.ledger.handles && r.status == Some(Final) ==> r in Apply(h, w, a).ledger.handles
  {
    match a
    case OnLedger(b) =>
      OnLedgerOk(h, w, b);
      LedgerFinals(h, w, b);
    case TipMoves(k) => TipMovesOk(w, k);
    case DoPublish(_, _, _, _) => DoPublishOk(h, w, a);
    case StopPublish(_, _, _, _) => StopPublishOk(h, w, a);
  }

  // Main results

  /**
   From a sound world, whatever happens next, a tip that moves or a crash in the middle of a pass included: it stays
   sound, the tip only advances, and each final row stays as it is, id order aside.
   */
  lemma {:induction false} FinalForever(h: Hasher, w: World, actions: seq<Action>)
    requires WorldOk(w)
    ensures WorldOk(Run(h, w, actions)) && Onward(w, Run(h, w, actions))
    ensures forall r :: r in w.ledger.handles && r.status == Some(Final) ==> r in Run(h, w, actions).ledger.handles
  {
    if actions != [] {
      var v := Run(h, w, actions[..|actions| - 1]);
      FinalForever(h, w, actions[..|actions| - 1]);
      StepOk(h, v, actions[|actions| - 1]);
      OnwardOn(w, v, Run(h, w, actions));
    }
  }

  lemma OnwardOn(u: World, v: World, w: World)
    requires Onward(u, v) && Onward(v, w)
    ensures Onward(u, w)
  {
  }

  /** In every reachable world a final handle lies in the tip's snapshot under its own key. */
  lemma FinalIsInTip(h: Hasher, actions: seq<Action>, r: HandleRow)
    requires var w := Run(h, INITIAL, actions); r in w.ledger.handles && r.status == Some(Final)
    ensures var w := Run(h, INITIAL, actions); w.tip.Some? && InSnapshot(w.ledger.snaps, w.tip, r)
  {
    FinalForever(h, INITIAL, actions);
    var w := Run(h, INITIAL, actions);
    assert FinalRowOk(w.tip, r);
    ConfirmedIffInTree(w.ledger, w.tip.value, r);
  }

  lemma TempNotInTip(w: World, r: HandleRow)
    requires WorldOk(w) && r in w.ledger.handles && r.status == Some(Temp) && r.tempTip == w.TipRoot()
    ensures !InSnapshot(w.ledger.snaps, w.tip, r)
  {
    if w.tip.Some? {
      assert TempRowOk(w.ledger.snaps, w.tip, r);
      var j: nat :| TempAt(w.ledger.snaps, w.tip, r, j);
      OneTip(w.ledger, j, w.tip.value);
      ConfirmedIffInTree(w.ledger, w.tip.value, r);
    }
  }

  lemma OneTip(l: Ledger, i: nat, j: nat)
    requires Inv(l) && i < |l.snaps| && j < |l.snaps| && RootOf(l.snaps[i]) == RootOf(l.snaps[j])
    ensures i == j
  {
    if i < j {
      RootsDiffer(l.snaps, i + 1, j + 1);
    } else if j < i {
      RootsDiffer(l.snaps, j + 1, i + 1);
    }
  }

  /** In every reachable world, a handle recorded as temporary against the current tip is not in that tip's snapshot. */
  lemma TempIsNotInTip(h: Hasher, actions: seq<Action>, r: HandleRow)
    requires var w := Run(h, INITIAL, actions); r in w.ledger.handles && r.status == Some(Temp) && r.tempTip == w.TipRoot()
    ensures var w := Run(h, INITIAL, actions); !InSnapshot(w.ledger.snaps, w.tip, r)
  {
    FinalForever(h, INITIAL, actions);
    TempNotInTip(Run(h, INITIAL, actions), r);
  }

  /** What the second question to the node is answered with. */
  function CertTip(w: World, moves: Option<nat>): Option<Root> {
    (if moves.Some? then MoveTip(w, moves.value) else w).TipRoot()
  }

  lemma PublishLeavesTempsCurrent(h: Hasher, w: World, a: Action)
    requires WorldOk(w) && a.DoPublish? && !a.net.Down?
    ensures TempsCurrent(Apply(h, w, a).ledger.handles, w.TipRoot())
  {
    PassLeavesTempsCurrent(w.ledger, w.last, w.TipRoot(), CertTip(w, a.moves), a.ceiling, a.only, a.net);
  }

  /** In every reachable world, after a pass that reaches the reset, all temporary certificates on record are against the tip it began with. */
  lemma TempsFollowTip(h: Hasher, actions: seq<Action>, a: Action)
    requires a.DoPublish? && !a.net.Down?
    ensures var w := Run(h, INITIAL, actions); TempsCurrent(Apply(h, w, a).ledger.handles, w.TipRoot())
  {
    FinalForever(h, INITIAL, actions);
    PublishLeavesTempsCurrent(h, Run(h, INITIAL, actions), a);
  }

  /** In every sound world, so in every reachable one, wherever the tip moves meanwhile: what is recorded next to what goes out. */
  lemma SentInRuns(w: World, moves: Option<nat>, ceiling: nat, only: seq<Name>, net: Network, i: nat)
    requires WorldOk(w)
    requires i < |PublishPass(w.ledger, w.last, w.TipRoot(), CertTip(w, moves), ceiling, only, net).sent|
    ensures var p, batch := PublishPass(w.ledger, w.last, w.TipRoot(), CertTip(w, moves), ceiling, only, net), PassBatch(w.ledger, w.last, w.TipRoot(), ceiling, only);
      && |batch| == |p.sent|
      && RecordedIn(p.handles, w.ledger.snaps, w.TipRoot(), w.tip, (if moves.Some? then MoveTip(w, moves.value) else w).tip, p.sent[i], batch[i])
  {
    TrackedIdx(w.ledger, w.TipRoot(), w.tip);
    var k' := (if moves.Some? then MoveTip(w, moves.value) else w).tip;
    SentMatchesRecorded(w.ledger, w.last, w.TipRoot(), w.tip, CertTip(w, moves), k', ceiling, only, net, i);
  }

  lemma FinalInTip(w: World, r: HandleRow)
    requires WorldOk(w) && r in w.ledger.handles && r.status == Some(Final)
    ensures InSnapshot(w.ledger.snaps, w.tip, r)
  {
    assert FinalRowOk(w.tip, r);
    ConfirmedIffInTree(w.ledger, w.tip.value, r);
  }

  /** What is published is final exactly if the tip's snapshot has it. */
  ghost predicate StatusesOk(w: World) {
    forall r :: r in w.ledger.handles && r.status.Some? ==> (r.status == Some(Final) <==> InSnapshot(w.ledger.snaps, w.tip, r))
  }

  lemma CurrentIsRight(w: World)
    requires WorldOk(w) && TempsCurrent(w.ledger.handles, w.TipRoot())
    ensures StatusesOk(w)
  {
    forall r | r in w.ledger.handles && r.status.Some? ensures r.status == Some(Final) <==> InSnapshot(w.ledger.snaps, w.tip, r) {
      if r.status == Some(Final) {
        FinalInTip(w, r);
      } else {
        assert r.status.value.Temp?;
        TempNotInTip(w, r);
      }
    }
  }

  lemma UnmovedPass(h: Hasher, w: World, a: Action) returns (v: World)
    requires WorldOk(w) && a.DoPublish? && a.moves.None? && !a.net.Down?
    ensures v == Apply(h, w, a) && WorldOk(v) && TempsCurrent(v.ledger.handles, v.TipRoot())
  {
    v := Apply(h, w, a);
    DoPublishOk(h, w, a);
    PublishLeavesTempsCurrent(h, w, a);
  }

  /**
   After a pass that reaches the reset, and a tip that did not move meanwhile, the whole table is right: a published
   handle is final exactly if the tip's snapshot has it.
   */
  lemma StatusesRight(h: Hasher, actions: seq<Action>, a: Action)
    requires a.DoPublish? && a.moves.None? && !a.net.Down?
    ensures StatusesOk(Apply(h, Run(h, INITIAL, actions), a))
  {
    FinalForever(h, INITIAL, actions);
    var v := UnmovedPass(h, Run(h, INITIAL, actions), a);
    CurrentIsRight(v);
  }

  lemma RunOneMore(h: Hasher, actions: seq<Action>, a: Action)
    ensures Run(h, INITIAL, actions + [a]) == Apply(h, Run(h, INITIAL, actions), a)
  {
    assert (actions + [a])[..|actions|] == actions;
  }

  /** Recorded against the tip of world w, while the tip has moved on since. */
  ghost predicate LeftBehind(w: World, r: HandleRow) {
    r.status == Some(Temp) && r.tempTip == w.TipRoot()
  }

  /** A tip that moves in the middle of a pass leaves statuses recorded against the old tip. They are stale from then on, whatever happens next. */
  lemma MovedTipLeavesStale(h: Hasher, w: World, a: Action, more: seq<Action>, r: HandleRow)
    requires WorldOk(w) && Apply(h, w, a).tip != w.tip && LeftBehind(w, r)
    ensures StaleTemp(Run(h, Apply(h, w, a), more).TipRoot()).Holds(r)
  {
    TipMovedOn(h, w, a, more);
  }

  /** And the next pass that reaches the reset clears every one of them. */
  lemma MovedTipIsRepaired(h: Hasher, w: World, a: Action, more: seq<Action>, next: Action)
    requires WorldOk(w) && Apply(h, w, a).tip != w.tip
    requires next.DoPublish? && !next.net.Down?
    ensures NoneLeftBehind(w, Apply(h, Run(h, Apply(h, w, a), more), next))
  {
    TipMovedOn(h, w, a, more);
    NextPassClears(h, w, Run(h, Apply(h, w, a), more), next);
  }

  ghost predicate NoneLeftBehind(w: World, v: World) {
    forall r :: r in v.ledger.handles ==> !LeftBehind(w, r)
  }

  lemma NextPassClears(h: Hasher, w: World, u: World, next: Action)
    requires WorldOk(u) && u.TipRoot() != w.TipRoot() && next.DoPublish? && !next.net.Down?
    ensures NoneLeftBehind(w, Apply(h, u, next))
  {
    PublishLeavesTempsCurrent(h, u, next);
  }

  lemma TipMovedOn(h: Hasher, w: World, a: Action, more: seq<Action>)
    requires WorldOk(w) && Apply(h, w, a).tip != w.tip
    ensures var u := Run(h, Apply(h, w, a), more);
      WorldOk(u) && u.TipRoot().Some? && u.TipRoot() != w.TipRoot()
  {
    StepOk(h, w, a);
    FinalForever(h, Apply(h, w, a), more);
    TipsDiffer(w, Apply(h, w, a), Run(h, Apply(h, w, a), more));
  }

  lemma TipsDiffer(w: World, v: World, u: World)
    requires WorldOk(w) && WorldOk(u) && Onward(w, v) && Onward(v, u) && v.tip != w.tip
    ensures u.TipRoot().Some? && u.TipRoot() != w.TipRoot()
  {
    if w.tip.Some? && w.TipRoot() == u.TipRoot() {
      OneTip(u.ledger, w.tip.value, u.tip.value);
    }
  }

  /** One handle, committed and broadcast, nothing published. */
  ghost predicate OneBroadcast(w: World) {
    && WorldOk(w) && w.tip.None? && w.last.None?
    && |w.ledger.handles| == 1 && w.ledger.handles[0].idx == Some(0) && w.ledger.handles[0].status.None?
    && |w.ledger.commits| == 1 && w.ledger.commits[0].txid.Some?
  }

  const ONE_HANDLE: seq<LedgerRuns.Action> := [LedgerRuns.Stage("a", []), LedgerRuns.DoCommit, LedgerRuns.DoBroadcast("t")]

  lemma OneHandleLedger(h: Hasher)
    ensures var l := LedgerRuns.Run(h, EMPTY, ONE_HANDLE);
      && |l.handles| == 1 && l.handles[0].idx == Some(0) && l.handles[0].status.None?
      && |l.commits| == 1 && l.commits[0].txid.Some?
  {
    LedgerRuns.RunThree(h, EMPTY, LedgerRuns.Stage("a", []), LedgerRuns.DoCommit, LedgerRuns.DoBroadcast("t"));
    FirstCommit(h);
    FirstBroadcast(Commit(h, AddRequest(EMPTY, "a", [])));
  }

  lemma FirstBroadcast(l: Ledger)
    requires |l.commits| == 1 && l.commits[0].txid.None? && l.commits[0].prevRoot.None?
    ensures Broadcast(l, "t").Ok?
    ensures var m := Broadcast(l, "t").value; m.handles == l.handles && |m.commits| == 1 && m.commits[0].txid.Some?
  {
  }

  lemma FirstCommit(h: Hasher)
    ensures var l := Commit(h, AddRequest(EMPTY, "a", []));
      && |l.handles| == 1 && l.handles[0].idx == Some(0) && l.handles[0].status.None?
      && |l.commits| == 1 && l.commits[0].txid.None? && l.commits[0].prevRoot.None?
  {
    var l1 := AddRequest(EMPTY, "a", []);
    assert l1.handles == [NewRow("a", [])] && l1.commits == [];
    assert StagedEntries(l1) != [] by {
      assert NewRow("a", []) in Select(l1.handles, StagedUnparked);
    }
    assert Commit(h, l1) == Committed(h, l1) by {
      AddRequestInv(EMPTY, "a", []);
      CommitIs(h, l1);
    }
  }

  function OnLedgers(actions: seq<LedgerRuns.Action>): seq<Action> {
    seq(|actions|, i requires 0 <= i < |actions| => OnLedger(actions[i]))
  }

  lemma {:induction false} RunOnLedgers(h: Hasher, actions: seq<LedgerRuns.Action>)
    ensures Run(h, INITIAL, OnLedgers(actions)) == INITIAL.(ledger := LedgerRuns.Run(h, EMPTY, actions))
  {
    if actions != [] {
      var n := |actions| - 1;
      assert OnLedgers(actions)[..n] == OnLedgers(actions[..n]);
      RunOnLedgers(h, actions[..n]);
    }
  }

  lemma OneBroadcastReached(h: Hasher)
    ensures OneBroadcast(Run(h, INITIAL, OnLedgers(ONE_HANDLE)))
  {
    OneHandleLedger(h);
    RunOnLedgers(h, ONE_HANDLE);
    FinalForever(h, INITIAL, OnLedgers(ONE_HANDLE));
  }

  /**
   The input: the chain adopts the commitment after a pass has read the tip and before it issues the certificates.
   An inclusion certificate goes out and its handle is recorded as temporary.
   */
  lemma MovedTipDisagrees(w: World)
    requires OneBroadcast(w)
    ensures MoveTip(w, 0).tip == Some(0)
    ensures var p := PublishPass(w.ledger, w.last, w.TipRoot(), CertTip(w, Some(0)), 50, [], Up(1000));
      && p.result == Ok((1, 0)) && p.sent == [Inclusion]
      && exists r :: r in p.handles && r.status == Some(Temp) && InSnapshot(w.ledger.snaps, Some(0), r)
  {
    var l := w.ledger;
    var tip := CertTip(w, Some(0));
    OneSent(l, tip);
    var p := PublishPass(l, None, None, tip, 50, [], Up(1000));
    assert RecordedIn(p.handles, l.snaps, None, None, Some(0), p.sent[0], PassBatch(l, None, None, 50, [])[0]) by {
      SentMatchesRecorded(l, None, None, None, tip, Some(0), 50, [], Up(1000), 0);
    }
    BatchEntry(l);
    BetweenDisagrees(p.handles, l.snaps, p.sent[0], PassBatch(l, None, None, 50, [])[0]);
  }

  /** A handle of commitment 0, with no tip at first and commitment 0 as the tip afterwards. */
  lemma BetweenDisagrees(rows: seq<HandleRow>, snaps: seq<Tree>, cert: CertKind, b: HandleRow)
    requires RecordedIn(rows, snaps, None, None, Some(0), cert, b) && b.idx == Some(0)
    ensures cert == Inclusion
    ensures exists r :: r in rows && r.status == Some(Temp) && InSnapshot(snaps, Some(0), r)
  {
  }

  lemma OneSent(l: Ledger, tip: Option<Root>)
    requires Inv(l) && |l.commits| == 1 && tip == Some(RootOf(l.snaps[0]))
    requires |l.handles| == 1 && l.handles[0].status.None?
    ensures var p := PublishPass(l, None, None, tip, 50, [], Up(1000)); |p.sent| == 1 && p.result == Ok((1, 0))
  {
    FirstTipIssuable(l);
    OneToPublish(l);
    PassProgress(l, None, None, tip, 50, 1000);
  }

  lemma FirstTipIssuable(l: Ledger)
    requires Inv(l) && |l.commits| == 1
    ensures Issuable(l, Some(RootOf(l.snaps[0])))
  {
    ByRootIs(l, 0);
    FindSnapshotIs(l, 0);
  }

  lemma BatchEntry(l: Ledger)
    requires Inv(l) && |l.handles| == 1 && l.handles[0].idx == Some(0)
    ensures var batch := PassBatch(l, None, None, 50, []); batch != [] ==> batch[0].idx == Some(0)
  {
    BatchRows(l, None, None, 50, []);
    var batch := PassBatch(l, None, None, 50, []);
    if batch != [] {
      assert batch[0] in ResetStale(l.handles, None);
    }
  }

  lemma OneToPublish(l: Ledger)
    requires |l.handles| == 1 && l.handles[0].status.None?
    ensures Backlog(l, None) == 1
  {
    UpdateNothing(l.handles, StaleTemp(None), ClearPublish);
    assert Count(l.handles[..0], Unpublished(None)) == 0;
  }

  // What the backlog is

  lemma CountZero(rows: seq<HandleRow>, w: Where)
    ensures Count(rows, w) == 0 <==> forall r :: r in rows ==> !w.Holds(r)
  {
    CountIsSelected(rows, w);
    var s := Select(rows, w);
    if s != [] {
      assert s[0] in s;
    } else {
      assert forall r :: r in rows && w.Holds(r) ==> r in s;
    }
  }

  /** Nothing is left to publish exactly when every handle is final, or temporary against this very tip while not yet confirmed by it. */
  lemma BacklogZeroIff(l: Ledger, tip: Option<Root>)
    ensures Backlog(l, tip) == 0 <==>
      forall r :: r in l.handles ==>
        r.status == Some(Final) || (r.status == Some(Temp) && r.tempTip == tip && !IsConfirmed(r, ConfirmedIdx(l, tip)))
  {
    var rows, k := ResetStale(l.handles, tip), ConfirmedIdx(l, tip);
    CountZero(rows, Unpublished(k));
    assert forall i :: 0 <= i < |rows| ==> rows[i] in rows && l.handles[i] in l.handles;
    forall i | 0 <= i < |rows| ensures rows[i] == AfterReset(l.handles[i], tip) {
      ResetIs(l.handles, tip, i);
    }
    forall i | 0 <= i < |rows| ensures !Unpublished(k).Holds(rows[i]) <==> Settled(l.handles[i], tip, k) {
      SettledIs(l.handles[i], tip, k);
    }
  }

  predicate Settled(r: HandleRow, tip: Option<Root>, k: Option<nat>) {
    r.status == Some(Final) || (r.status == Some(Temp) && r.tempTip == tip && !IsConfirmed(r, k))
  }

  lemma SettledIs(r: HandleRow, tip: Option<Root>, k: Option<nat>)
    ensures !Unpublished(k).Holds(AfterReset(r, tip)) <==> Settled(r, tip, k)
  {
    assert r.status.Some? ==> r.status.value == Temp || r.status.value == Final;
  }
}
