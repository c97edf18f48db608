/**
 Publishing certificates. A handle is unpublished, published with a temporary
 certificate against some on-chain tip, or published for good. Which of the two it
 gets is decided twice: by SQL, from commitment indices, for the status that is
 recorded, and by a lookup in the tree, for the certificate that is sent. The node
 is asked for the on-chain tip twice, too: `tip` is what it said when the pass
 began, `certTip` what it said when the certificates were issued.
 */
module Publishing {
  import opened Wrappers
  import opened Tables
  import opened NameOrder
  import opened Ledgers
  import opened LedgerProofs
  import opened Proving
  import opened BatchSizing

  datatype CertKind = Inclusion | Temporary

  /**
   Everything outside: the node unreachable from the start; something failing once the pass is under way; or all
   working, with the message coming to so many bytes.
   */
  datatype Network = Down | Failing | Up(bytes: nat)

  datatype Failure = Unreachable | CannotIssue(error: Error)

  /**
   What a pass leaves: the handle rows, the measurement, (published, remaining) or a failure, and the certificates
   that went out, one for each handle of its batch.
   */
  datatype Pass = Pass(handles: seq<HandleRow>, last: Measurement, result: Result<(nat, nat), Failure>, sent: seq<CertKind>)

  /** The index of the on-chain tip among the local commitments. */
  function ConfirmedIdx(l: Ledger, tip: Option<Root>): Option<nat> {
    if tip.None? then None
    else
      match ByRoot(l.commits, tip.value)
      case None => None
      case Some(c) => Some(c.idx)
  }

  function ResetStale(rows: seq<HandleRow>, tip: Option<Root>): seq<HandleRow> {
    Update(rows, StaleTemp(tip), ClearPublish)
  }

  function BatchFor(rows: seq<HandleRow>, confirmed: Option<nat>, only: seq<Name>, limit: nat): seq<HandleRow> {
    SelectByName(rows, if only == [] then Unpublished(confirmed) else NameIn(only), limit)
  }

  /** The handle is looked up in the snapshot of the tip; a tip that is no local snapshot is an error. */
  function CertFor(snaps: seq<Tree>, tip: Option<Root>, name: Name): Result<CertKind, Error> {
    if tip.None? then Ok(Temporary)
    else
      match FindSnapshot(snaps, tip.value)
      case None => Err(NoSnapshot)
      case Some(i) => Ok(if name in snaps[i] then Inclusion else Temporary)
  }

  function CertsFor(snaps: seq<Tree>, tip: Option<Root>, batch: seq<HandleRow>): (r: Result<seq<CertKind>, Error>)
    ensures r.Ok? ==> |r.value| == |batch|
  {
    if batch == [] then Ok([])
    else
      var n := |batch| - 1;
      match CertsFor(snaps, tip, batch[..n])
      case Err(e) => Err(e)
      case Ok(certs) =>
        match CertFor(snaps, tip, batch[n].name)
        case Err(e) => Err(e)
        case Ok(kind) => Ok(certs + [kind])
  }

  /** The root certificate, with the receipt of the tip, then one certificate per handle. */
  function IssueCerts(l: Ledger, tip: Option<Root>, batch: seq<HandleRow>): Result<seq<CertKind>, Error> {
    var root := GetReceipt(l, tip);
    if root.Err? then Err(root.error) else CertsFor(l.snaps, tip, batch)
  }

  function FinalNames(batch: seq<HandleRow>, confirmed: Option<nat>, final: bool): seq<Name> {
    if batch == [] then []
    else
      var n := |batch| - 1;
      var names := FinalNames(batch[..n], confirmed, final);
      if IsConfirmed(batch[n], confirmed) == final then names + [batch[n].name] else names
  }

  function MarkPublished(rows: seq<HandleRow>, names: seq<Name>, c: Change): seq<HandleRow> {
    if names == [] then rows
    else
      var n := |names| - 1;
      Update(MarkPublished(rows, names[..n], c), Named(names[n]), c)
  }

  /** The statuses recorded after a batch was sent: temporary ones first, then final ones. */
  function MarkBatch(rows: seq<HandleRow>, batch: seq<HandleRow>, confirmed: Option<nat>, tip: Option<Root>): seq<HandleRow> {
    MarkPublished(
      MarkPublished(rows, FinalNames(batch, confirmed, false), Publish(Temp, tip)),
      FinalNames(batch, confirmed, true), Publish(Final, None))
  }

  function BatchLimit(last: Measurement, ceiling: nat, only: seq<Name>): nat {
    if only == [] then NextBatchSize(last, ceiling) else ceiling
  }

  /** Issue, build and submit a batch, and record what came of it. The measurement is kept whether or not the message was sent. */
  function SendBatch(l: Ledger, rows: seq<HandleRow>, batch: seq<HandleRow>, total: nat, last: Measurement, tip: Option<Root>, certTip: Option<Root>, net: Network): Pass
    requires |batch| <= total
  {
    if !net.Up? then Pass(rows, last, Err(Unreachable), [])
    else
      match IssueCerts(l, certTip, batch)
      case Err(e) => Pass(rows, last, Err(CannotIssue(e)), [])
      case Ok(certs) =>
        var measured := RecordMessageSize(last, |certs| + 1, net.bytes);
        if !Fits(net.bytes) then Pass(rows, measured, Ok((0, total)), [])
        else Pass(MarkBatch(rows, batch, ConfirmedIdx(l, tip), tip), measured, Ok((|batch|, total - |batch|)), certs)
  }

  /** A pass over at most `limit` handles. */
  function LimitedPass(l: Ledger, last: Measurement, tip: Option<Root>, certTip: Option<Root>, limit: nat, only: seq<Name>, net: Network): Pass {
    if net.Down? then Pass(l.handles, last, Err(Unreachable), [])
    else
      var confirmed := ConfirmedIdx(l, tip);
      var rows := ResetStale(l.handles, tip);
      var batch := BatchFor(rows, confirmed, only, limit);
      if batch == [] then Pass(rows, last, Ok((0, 0)), [])
      else SendBatch(l, rows, batch, if only == [] then Count(rows, Unpublished(confirmed)) else |batch|, last, tip, certTip, net)
  }

  /** One call of publish_certs. */
  function PublishPass(l: Ledger, last: Measurement, tip: Option<Root>, certTip: Option<Root>, ceiling: nat, only: seq<Name>, net: Network): Pass {
    LimitedPass(l, last, tip, certTip, BatchLimit(last, ceiling, only), only, net)
  }

  // SQL and tree agree

  lemma InTreeIsConfirmed(l: Ledger, k: nat, r: HandleRow)
    requires Inv(l) && k < |l.snaps| && r in l.handles && r.name in l.snaps[k]
    ensures IsConfirmed(r, Some(k))
  {
    RowOfName(l, k, r.name);
    var r' :| r' in l.handles && r'.name == r.name && r'.spk == l.snaps[k][r.name] && r'.idx.Some? && r'.idx.value <= k;
    UniqueRow(l.handles, r, r');
  }

  /** On a consistent ledger whose tip is commitment k, "committed at or below k" and "found in the tip's snapshot" are the same. */
  lemma ConfirmedIffInTree(l: Ledger, k: nat, r: HandleRow)
    requires Inv(l) && k < |l.snaps| && r in l.handles
    ensures IsConfirmed(r, Some(k)) <==> r.name in l.snaps[k]
    ensures r.name in l.snaps[k] ==> l.snaps[k][r.name] == r.spk
  {
    assert RowOk(l.snaps, r);
    if r.name in l.snaps[k] {
      InTreeIsConfirmed(l, k, r);
      Kept(l.snaps, r.idx.value, k, r.name);
    } else if r.idx.Some? && r.idx.value <= k {
      Kept(l.snaps, r.idx.value, k, r.name);
      assert false;
    }
  }

  lemma FindSnapshotIs(l: Ledger, k: nat)
    requires Chain(l) && k < |l.snaps|
    ensures FindSnapshot(l.snaps, RootOf(l.snaps[k])) == Some(k)
  {
    var i := FindSnapshot(l.snaps, RootOf(l.snaps[k])).value;
    if k < i {
      RootsDiffer(l.snaps, k + 1, i + 1);
    }
  }

  /** The tip is absent or is a local commitment, and then the confirmed index is its own. */
  ghost predicate Tracked(l: Ledger, tip: Option<Root>, k: Option<nat>) {
    match k
    case None => tip.None?
    case Some(i) => i < |l.snaps| && tip == Some(RootOf(l.snaps[i]))
  }

  lemma TrackedIdx(l: Ledger, tip: Option<Root>, k: Option<nat>)
    requires Chain(l) && Tracked(l, tip, k)
    ensures ConfirmedIdx(l, tip) == k
  {
    if k.Some? {
      ByRootIs(l, k.value);
    }
  }

  /** Whatever the tip, known locally or not: a confirmed index belongs to a local commitment. */
  lemma ConfirmedIsLocal(l: Ledger, tip: Option<Root>)
    requires Chain(l)
    ensures ConfirmedIdx(l, tip).Some? ==> ConfirmedIdx(l, tip).value < |l.snaps| && Tracked(l, tip, ConfirmedIdx(l, tip))
  {
    if tip.Some? && ByRoot(l.commits, tip.value).Some? {
      var c := ByRoot(l.commits, tip.value).value;
      var i :| 0 <= i < |l.commits| && l.commits[i] == c;
    }
  }

  /** The certificate for a handle is an inclusion certificate exactly when it is committed at or below the tip it is issued at. */
  lemma CertForIs(l: Ledger, certTip: Option<Root>, k: Option<nat>, r: HandleRow)
    requires Inv(l) && Tracked(l, certTip, k) && r in l.handles
    ensures CertFor(l.snaps, certTip, r.name) == Ok(if IsConfirmed(r, k) then Inclusion else Temporary)
  {
    if k.Some? {
      FindSnapshotIs(l, k.value);
      ConfirmedIffInTree(l, k.value, r);
    }
  }

  /** The tip only advances: the second answer is at or above the first. */
  predicate NotAfter(k: Option<nat>, k': Option<nat>) {
    k.Some? ==> k'.Some? && k.value <= k'.value
  }

  /** The handle's commitment became the tip, or was passed by it, between the two answers. */
  predicate Between(r: HandleRow, k: Option<nat>, k': Option<nat>) {
    r.idx.Some? && k'.Some? && (k.Some? ==> k.value < r.idx.value) && r.idx.value <= k'.value
  }

  /**
   A handle that will be recorded as final gets an inclusion certificate, wherever the tip has moved. Certificate and
   status agree exactly unless the handle's commitment was reached between the two questions to the node.
   */
  lemma CertMatchesStatus(l: Ledger, tip: Option<Root>, certTip: Option<Root>, k': Option<nat>, r: HandleRow)
    requires Inv(l) && Tracked(l, certTip, k') && NotAfter(ConfirmedIdx(l, tip), k') && r in l.handles
    ensures CertFor(l.snaps, certTip, r.name).Ok?
    ensures var inclusion, final := CertFor(l.snaps, certTip, r.name).value.Inclusion?, IsConfirmed(r, ConfirmedIdx(l, tip));
      && (final ==> inclusion)
      && ((inclusion <==> final) <==> !Between(r, ConfirmedIdx(l, tip), k'))
  {
    CertForIs(l, certTip, k', r);
  }

  lemma {:induction false} CertsAre(l: Ledger, certTip: Option<Root>, k: Option<nat>, batch: seq<HandleRow>)
    requires Inv(l) && Tracked(l, certTip, k)
    requires forall r :: r in batch ==> r in l.handles
    ensures CertsFor(l.snaps, certTip, batch).Ok? && |CertsFor(l.snaps, certTip, batch).value| == |batch|
    ensures forall i :: 0 <= i < |batch| ==>
      (CertsFor(l.snaps, certTip, batch).value[i].Inclusion? <==> IsConfirmed(batch[i], k))
  {
    if batch != [] {
      var n := |batch| - 1;
      assert batch[n] in batch;
      assert forall r :: r in batch[..n] ==> r in batch;
      CertsAre(l, certTip, k, batch[..n]);
      CertForIs(l, certTip, k, batch[n]);
      assert CertsFor(l.snaps, certTip, batch) ==
        Ok(CertsFor(l.snaps, certTip, batch[..n]).value + [CertFor(l.snaps, certTip, batch[n].name).value]);
    }
  }

  /** When the certificates would be against a tip that is no local commitment, a pass sends none and records none. */
  lemma UnknownTipPublishesNothing(l: Ledger, last: Measurement, tip: Option<Root>, certTip: Root, ceiling: nat, only: seq<Name>, net: Network)
    requires ByRoot(l.commits, certTip).None?
    ensures var p := PublishPass(l, last, tip, Some(certTip), ceiling, only, net);
      && p.sent == [] && p.last == last
      && (p.handles == l.handles || p.handles == ResetStale(l.handles, tip))
      && (p.result.Ok? ==> p.result.value == (0, 0) && PassBatch(l, last, tip, ceiling, only) == [])
  {
  }

  // Marking a batch

  lemma {:induction false} MarkPublishedIs(rows: seq<HandleRow>, names: seq<Name>, c: Change)
    requires c.Publish?
    ensures MarkPublished(rows, names, c) == Update(rows, NameIn(names), c)
  {
    if names != [] {
      var n := |names| - 1;
      MarkPublishedIs(rows, names[..n], c);
      assert forall x :: x in names <==> x in names[..n] || x == names[n];
    } else {
      UpdateNothing(rows, NameIn([]), c);
    }
  }

  lemma {:induction false} FinalNamesAre(batch: seq<HandleRow>, confirmed: Option<nat>, final: bool, name: Name)
    ensures name in FinalNames(batch, confirmed, final) <==>
      exists r :: r in batch && r.name == name && IsConfirmed(r, confirmed) == final
  {
    if batch != [] {
      var n := |batch| - 1;
      assert batch == batch[..n] + [batch[n]];
      FinalNamesAre(batch[..n], confirmed, final, name);
    }
  }

  /** What marking makes of one row. */
  function Marked(batch: seq<HandleRow>, confirmed: Option<nat>, tip: Option<Root>, r: HandleRow): HandleRow {
    if r in batch then (if IsConfirmed(r, confirmed) then Publish(Final, None) else Publish(Temp, tip)).Apply(r) else r
  }

  /** Each row of the batch gets the status of its own certificate; no other row changes. */
  lemma MarkBatchIs(rows: seq<HandleRow>, batch: seq<HandleRow>, confirmed: Option<nat>, tip: Option<Root>, i: nat)
    requires UniqueNames(rows) && (forall r :: r in batch ==> r in rows) && i < |rows|
    ensures |MarkBatch(rows, batch, confirmed, tip)| == |rows|
    ensures MarkBatch(rows, batch, confirmed, tip)[i] == Marked(batch, confirmed, tip, rows[i])
  {
    var temps, finals := FinalNames(batch, confirmed, false), FinalNames(batch, confirmed, true);
    MarkPublishedIs(rows, temps, Publish(Temp, tip));
    var mid := MarkPublished(rows, temps, Publish(Temp, tip));
    MarkPublishedIs(mid, finals, Publish(Final, None));
    var r := rows[i];
    FinalNamesAre(batch, confirmed, false, r.name);
    FinalNamesAre(batch, confirmed, true, r.name);
    forall r' | r' in batch && r'.name == r.name ensures r' == r {
      UniqueRow(rows, r, r');
    }
    assert r.name in temps <==> r in batch && !IsConfirmed(r, confirmed);
    assert r.name in finals <==> r in batch && IsConfirmed(r, confirmed);
  }

  /** Marking that stopped after so many of the temporary and of the final names. */
  function MarkSome(rows: seq<HandleRow>, batch: seq<HandleRow>, confirmed: Option<nat>, tip: Option<Root>, temps: nat, finals: nat): seq<HandleRow> {
    MarkPublished(
      MarkPublished(rows, UpTo(FinalNames(batch, confirmed, false), temps), Publish(Temp, tip)),
      UpTo(FinalNames(batch, confirmed, true), finals), Publish(Final, None))
  }

  function UpTo(names: seq<Name>, n: nat): (s: seq<Name>)
    ensures forall x :: x in s ==> x in names
  {
    if n < |names| then names[..n] else names
  }

  /** Every row is as it was, or as marking its batch makes it. */
  ghost predicate PartlyMarked(rows: seq<HandleRow>, batch: seq<HandleRow>, confirmed: Option<nat>, tip: Option<Root>, s: seq<HandleRow>) {
    && |s| == |rows|
    && forall i :: 0 <= i < |rows| ==> s[i] == rows[i] || s[i] == Marked(batch, confirmed, tip, rows[i])
  }

  lemma MarkSomeIs(rows: seq<HandleRow>, batch: seq<HandleRow>, confirmed: Option<nat>, tip: Option<Root>, temps: nat, finals: nat)
    requires UniqueNames(rows) && forall r :: r in batch ==> r in rows
    ensures PartlyMarked(rows, batch, confirmed, tip, MarkSome(rows, batch, confirmed, tip, temps, finals))
  {
    var ts, fs := UpTo(FinalNames(batch, confirmed, false), temps), UpTo(FinalNames(batch, confirmed, true), finals);
    MarkPublishedIs(rows, ts, Publish(Temp, tip));
    var mid := MarkPublished(rows, ts, Publish(Temp, tip));
    MarkPublishedIs(mid, fs, Publish(Final, None));
    forall i | 0 <= i < |rows| ensures var s := MarkSome(rows, batch, confirmed, tip, temps, finals);
      s[i] == rows[i] || s[i] == Marked(batch, confirmed, tip, rows[i]) {
      var r := rows[i];
      FinalNamesAre(batch, confirmed, false, r.name);
      FinalNamesAre(batch, confirmed, true, r.name);
      forall r' | r' in batch && r'.name == r.name ensures r' == r {
        UniqueRow(rows, r, r');
      }
    }
  }

  /** A batch that is marked to the end is one of them. */
  lemma MarkAll(rows: seq<HandleRow>, batch: seq<HandleRow>, confirmed: Option<nat>, tip: Option<Root>)
    ensures MarkBatch(rows, batch, confirmed, tip) == MarkSome(rows, batch, confirmed, tip, |batch|, |batch|)
  {
    BatchSplits(batch, confirmed);
  }

  // One pass

  lemma MarkedRows(snaps: seq<Tree>, rows: seq<HandleRow>, batch: seq<HandleRow>, confirmed: Option<nat>, tip: Option<Root>, temps: nat, finals: nat)
    requires Rows(snaps, rows)
    ensures Rows(snaps, MarkSome(rows, batch, confirmed, tip, temps, finals))
  {
    var ts, fs := UpTo(FinalNames(batch, confirmed, false), temps), UpTo(FinalNames(batch, confirmed, true), finals);
    MarkPublishedIs(rows, ts, Publish(Temp, tip));
    RowsUpdate(snaps, rows, NameIn(ts), Publish(Temp, tip));
    var mid := MarkPublished(rows, ts, Publish(Temp, tip));
    MarkPublishedIs(mid, fs, Publish(Final, None));
    RowsUpdate(snaps, mid, NameIn(fs), Publish(Final, None));
  }

  /** The batch that a pass works on. */
  function PassBatch(l: Ledger, last: Measurement, tip: Option<Root>, ceiling: nat, only: seq<Name>): seq<HandleRow> {
    BatchFor(ResetStale(l.handles, tip), ConfirmedIdx(l, tip), only, BatchLimit(last, ceiling, only))
  }

  lemma SendShape(l: Ledger, rows: seq<HandleRow>, batch: seq<HandleRow>, total: nat, last: Measurement, tip: Option<Root>, certTip: Option<Root>, net: Network)
    requires |batch| <= total
    ensures var p := SendBatch(l, rows, batch, total, last, tip, certTip, net);
      && (p.handles == rows || p.handles == MarkBatch(rows, batch, ConfirmedIdx(l, tip), tip))
      && (p.sent != [] ==>
            && p.handles == MarkBatch(rows, batch, ConfirmedIdx(l, tip), tip)
            && p.result == Ok((|batch|, total - |batch|))
            && CertsFor(l.snaps, certTip, batch) == Ok(p.sent))
  {
  }

  /** A pass leaves the rows alone, or resets the stale ones, or marks its batch after that. */
  lemma PassShape(l: Ledger, last: Measurement, tip: Option<Root>, certTip: Option<Root>, ceiling: nat, only: seq<Name>, net: Network)
    ensures var rows, confirmed := ResetStale(l.handles, tip), ConfirmedIdx(l, tip);
      var p, batch := PublishPass(l, last, tip, certTip, ceiling, only, net), PassBatch(l, last, tip, ceiling, only);
      && (p.handles == l.handles || p.handles == rows || p.handles == MarkBatch(rows, batch, confirmed, tip))
      && (!net.Down? ==> p.handles == rows || p.handles == MarkBatch(rows, batch, confirmed, tip))
      && (p.sent != [] ==>
            && p.handles == MarkBatch(rows, batch, confirmed, tip)
            && p.result.Ok? && p.result.value.0 == |batch|
            && CertsFor(l.snaps, certTip, batch) == Ok(p.sent))
  {
    var rows, confirmed, batch := ResetStale(l.handles, tip), ConfirmedIdx(l, tip), PassBatch(l, last, tip, ceiling, only);
    var total := if only == [] then Count(rows, Unpublished(confirmed)) else |batch|;
    assert |batch| <= total;
    SendShape(l, rows, batch, total, last, tip, certTip, net);
  }

  lemma PassInv(l: Ledger, last: Measurement, tip: Option<Root>, certTip: Option<Root>, ceiling: nat, only: seq<Name>, net: Network)
    requires Inv(l)
    ensures Inv(l.(handles := PublishPass(l, last, tip, certTip, ceiling, only, net).handles))
  {
    PassShape(l, last, tip, certTip, ceiling, only, net);
    RowsUpdate(l.snaps, l.handles, StaleTemp(tip), ClearPublish);
    var batch := PassBatch(l, last, tip, ceiling, only);
    MarkAll(ResetStale(l.handles, tip), batch, ConfirmedIdx(l, tip), tip);
    MarkedRows(l.snaps, ResetStale(l.handles, tip), batch, ConfirmedIdx(l, tip), tip, |batch|, |batch|);
  }

  ghost predicate TempsCurrent(rows: seq<HandleRow>, tip: Option<Root>) {
    forall r :: r in rows && r.status == Some(Temp) ==> r.tempTip == tip
  }

  lemma ResetIsCurrent(rows: seq<HandleRow>, tip: Option<Root>)
    ensures TempsCurrent(ResetStale(rows, tip), tip)
  {
  }

  lemma BatchIs(rows: seq<HandleRow>, confirmed: Option<nat>, only: seq<Name>, limit: nat)
    requires UniqueNames(rows)
    ensures var batch := BatchFor(rows, confirmed, only, limit);
      && UniqueNames(batch)
      && (forall r :: r in batch ==> r in rows)
      && (only == [] ==> forall r :: r in batch ==> Unpublished(confirmed).Holds(r))
  {
    SelectByNameIs(rows, if only == [] then Unpublished(confirmed) else NameIn(only), limit);
  }

  lemma MarkLength(rows: seq<HandleRow>, batch: seq<HandleRow>, confirmed: Option<nat>, tip: Option<Root>)
    ensures |MarkBatch(rows, batch, confirmed, tip)| == |rows|
  {
    var temps, finals := FinalNames(batch, confirmed, false), FinalNames(batch, confirmed, true);
    MarkPublishedIs(rows, temps, Publish(Temp, tip));
    MarkPublishedIs(MarkPublished(rows, temps, Publish(Temp, tip)), finals, Publish(Final, None));
  }

  lemma MarkedCurrent(rows: seq<HandleRow>, batch: seq<HandleRow>, confirmed: Option<nat>, tip: Option<Root>)
    requires UniqueNames(rows) && TempsCurrent(rows, tip) && forall r :: r in batch ==> r in rows
    ensures TempsCurrent(MarkBatch(rows, batch, confirmed, tip), tip)
  {
    var s := MarkBatch(rows, batch, confirmed, tip);
    MarkLength(rows, batch, confirmed, tip);
    forall r | r in s && r.status == Some(Temp) ensures r.tempTip == tip {
      var i :| 0 <= i < |s| && s[i] == r;
      MarkBatchIs(rows, batch, confirmed, tip, i);
      assert rows[i] in rows;
    }
  }

  /** Whatever a pass that reached the reset does next, every temporary certificate on record is against the tip that it began with. */
  lemma PassLeavesTempsCurrent(l: Ledger, last: Measurement, tip: Option<Root>, certTip: Option<Root>, ceiling: nat, only: seq<Name>, net: Network)
    requires UniqueNames(l.handles) && !net.Down?
    ensures TempsCurrent(PublishPass(l, last, tip, certTip, ceiling, only, net).handles, tip)
  {
    var rows := ResetStale(l.handles, tip);
    PassShape(l, last, tip, certTip, ceiling, only, net);
    UpdateNames(l.handles, StaleTemp(tip), ClearPublish);
    ResetIsCurrent(l.handles, tip);
    BatchIs(rows, ConfirmedIdx(l, tip), only, BatchLimit(last, ceiling, only));
    MarkedCurrent(rows, PassBatch(l, last, tip, ceiling, only), ConfirmedIdx(l, tip), tip);
  }

  lemma BatchMarked(rows: seq<HandleRow>, batch: seq<HandleRow>, confirmed: Option<nat>, tip: Option<Root>, b: HandleRow)
    requires UniqueNames(rows) && (forall r :: r in batch ==> r in rows) && b in batch
    ensures Marked(batch, confirmed, tip, b) in MarkBatch(rows, batch, confirmed, tip)
  {
    var j :| 0 <= j < |rows| && rows[j] == b;
    MarkBatchIs(rows, batch, confirmed, tip, j);
  }

  lemma BatchRows(l: Ledger, last: Measurement, tip: Option<Root>, ceiling: nat, only: seq<Name>)
    requires Inv(l)
    ensures var rows, batch := ResetStale(l.handles, tip), PassBatch(l, last, tip, ceiling, only);
      && Inv(l.(handles := rows)) && UniqueNames(rows)
      && (forall r :: r in batch ==> r in rows)
  {
    RowsUpdate(l.snaps, l.handles, StaleTemp(tip), ClearPublish);
    BatchIs(ResetStale(l.handles, tip), ConfirmedIdx(l, tip), only, BatchLimit(last, ceiling, only));
  }

  /**
   A row with its recorded status, next to the certificate that was sent for it: `k` was the tip when the pass began,
   `k'` when the certificate was issued.
   */
  ghost predicate Recorded(snaps: seq<Tree>, tip: Option<Root>, k: Option<nat>, k': Option<nat>, cert: CertKind, r: HandleRow) {
    && r.status == Some(if InSnapshot(snaps, k, r) then Final else Temp)
    && (r.status == Some(Temp) ==> r.tempTip == tip)
    && (cert.Inclusion? <==> InSnapshot(snaps, k', r))
    && (r.status == Some(Final) ==> cert.Inclusion?)
    && ((cert.Inclusion? <==> r.status == Some(Final)) <==> !Between(r, k, k'))
  }

  /** The snapshot of the tip has the handle under its own key. */
  ghost predicate InSnapshot(snaps: seq<Tree>, k: Option<nat>, r: HandleRow) {
    k.Some? && k.value < |snaps| && r.name in snaps[k.value] && snaps[k.value][r.name] == r.spk
  }

  /** The row of batch entry `b` as a pass leaves it. */
  ghost predicate RecordedIn(rows: seq<HandleRow>, snaps: seq<Tree>, tip: Option<Root>, k: Option<nat>, k': Option<nat>, cert: CertKind, b: HandleRow) {
    exists r :: r in rows && r.name == b.name && r.spk == b.spk && r.idx == b.idx && Recorded(snaps, tip, k, k', cert, r)
  }

  lemma InSnapshotIs(l: Ledger, k: Option<nat>, r: HandleRow)
    requires Inv(l) && (k.Some? ==> k.value < |l.snaps|) && r in l.handles
    ensures InSnapshot(l.snaps, k, r) <==> IsConfirmed(r, k)
  {
    if k.Some? {
      ConfirmedIffInTree(l, k.value, r);
    }
  }

  /** The batch entry, with the status it is given. */
  lemma MarkedIsRecorded(l: Ledger, tip: Option<Root>, k: Option<nat>, certTip: Option<Root>, k': Option<nat>, batch: seq<HandleRow>, cert: CertKind, b: HandleRow)
    requires Inv(l) && k == ConfirmedIdx(l, tip) && Tracked(l, certTip, k') && NotAfter(k, k')
    requires b in l.handles && b in batch && (cert.Inclusion? <==> IsConfirmed(b, k'))
    ensures Recorded(l.snaps, tip, k, k', cert, Marked(batch, k, tip, b))
  {
    ConfirmedIsLocal(l, tip);
    InSnapshotIs(l, k, b);
    InSnapshotIs(l, k', b);
  }

  /**
   The certificates that a pass sends and the statuses it records. Entry i of the batch is recorded as final exactly
   if the tip that the pass began with has it, and it gets an inclusion certificate exactly if the tip of its
   certificate has it; so what is recorded as final went out as final, and the two differ exactly for a handle whose
   commitment was reached between the two questions. The first tip may be one that is not known locally.
   */
  lemma SentMatchesRecorded(l: Ledger, last: Measurement, tip: Option<Root>, k: Option<nat>, certTip: Option<Root>, k': Option<nat>, ceiling: nat, only: seq<Name>, net: Network, i: nat)
    requires Inv(l) && k == ConfirmedIdx(l, tip) && Tracked(l, certTip, k') && NotAfter(k, k')
    requires i < |PublishPass(l, last, tip, certTip, ceiling, only, net).sent|
    ensures var p, batch := PublishPass(l, last, tip, certTip, ceiling, only, net), PassBatch(l, last, tip, ceiling, only);
      && p.result.Ok? && p.result.value.0 == |batch| == |p.sent|
      && RecordedIn(p.handles, l.snaps, tip, k, k', p.sent[i], batch[i])
  {
    var rows, batch := ResetStale(l.handles, tip), PassBatch(l, last, tip, ceiling, only);
    BatchRows(l, last, tip, ceiling, only);
    PassShape(l, last, tip, certTip, ceiling, only, net);
    assert ConfirmedIdx(l.(handles := rows), tip) == k;
    EntryRecorded(l.(handles := rows), tip, k, certTip, k', batch, i);
  }

  lemma EntryRecorded(l: Ledger, tip: Option<Root>, k: Option<nat>, certTip: Option<Root>, k': Option<nat>, batch: seq<HandleRow>, i: nat)
    requires Inv(l) && k == ConfirmedIdx(l, tip) && Tracked(l, certTip, k') && NotAfter(k, k')
    requires (forall r :: r in batch ==> r in l.handles) && i < |batch|
    ensures CertsFor(l.snaps, certTip, batch).Ok?
    ensures RecordedIn(MarkBatch(l.handles, batch, k, tip), l.snaps, tip, k, k', CertsFor(l.snaps, certTip, batch).value[i], batch[i])
  {
    CertsAre(l, certTip, k', batch);
    RowRecorded(l, tip, k, certTip, k', batch, CertsFor(l.snaps, certTip, batch).value[i], batch[i]);
  }

  lemma RowRecorded(l: Ledger, tip: Option<Root>, k: Option<nat>, certTip: Option<Root>, k': Option<nat>, batch: seq<HandleRow>, cert: CertKind, b: HandleRow)
    requires Inv(l) && k == ConfirmedIdx(l, tip) && Tracked(l, certTip, k') && NotAfter(k, k')
    requires (forall r :: r in batch ==> r in l.handles) && b in batch && (cert.Inclusion? <==> IsConfirmed(b, k'))
    ensures RecordedIn(MarkBatch(l.handles, batch, k, tip), l.snaps, tip, k, k', cert, b)
  {
    BatchMarked(l.handles, batch, k, tip, b);
    MarkedIsRecorded(l, tip, k, certTip, k', batch, cert, b);
  }

  // Conservation

  lemma {:induction false} CountOneLess(rows: seq<HandleRow>, s: seq<HandleRow>, at: nat, w: Where)
    requires |s| == |rows| && at < |rows|
    requires forall i :: 0 <= i < |rows| && i != at ==> s[i] == rows[i]
    requires w.Holds(rows[at]) && !w.Holds(s[at])
    ensures Count(s, w) + 1 == Count(rows, w)
  {
    var n := |rows| - 1;
    if at == n {
      assert s[..n] == rows[..n];
    } else {
      CountOneLess(rows[..n], s[..n], at, w);
    }
  }

  /** One more name of the batch is marked. */
  lemma CountAfterOne(rows: seq<HandleRow>, names: seq<Name>, b: HandleRow, w: Where, c: Change)
    requires UniqueNames(rows) && c.Publish? && b in rows && b.name !in names
    requires w.Holds(b) && !w.Holds(c.Apply(b))
    ensures Count(MarkPublished(rows, names + [b.name], c), w) + 1 == Count(MarkPublished(rows, names, c), w)
  {
    var mid := MarkPublished(rows, names, c);
    MarkPublishedIs(rows, names, c);
    UpdateNames(rows, NameIn(names), c);
    var at :| 0 <= at < |rows| && rows[at] == b;
    assert mid[at] == b;
    assert (names + [b.name])[..|names|] == names;
    var s := Update(mid, Named(b.name), c);
    assert forall i :: 0 <= i < |mid| && i != at ==> mid[i].name != b.name;
    CountOneLess(mid, s, at, w);
  }

  lemma LastNameFresh(batch: seq<HandleRow>, confirmed: Option<nat>, final: bool)
    requires UniqueNames(batch) && batch != []
    ensures batch[|batch| - 1].name !in FinalNames(batch[..|batch| - 1], confirmed, final)
  {
    var n := |batch| - 1;
    FinalNamesAre(batch[..n], confirmed, final, batch[n].name);
    forall r | r in batch[..n] ensures r.name != batch[n].name {
      var i :| 0 <= i < n && batch[i] == r;
    }
  }

  /** Marking by name, one row after the other, takes each of them off the count. */
  lemma {:induction false} CountAfterMark(rows: seq<HandleRow>, batch: seq<HandleRow>, confirmed: Option<nat>, final: bool, c: Change, w: Where)
    requires UniqueNames(rows) && UniqueNames(batch) && c.Publish?
    requires forall r :: r in batch && IsConfirmed(r, confirmed) == final ==> r in rows && w.Holds(r) && !w.Holds(c.Apply(r))
    ensures Count(MarkPublished(rows, FinalNames(batch, confirmed, final), c), w) == Count(rows, w) - |FinalNames(batch, confirmed, final)|
  {
    if batch != [] {
      var n := |batch| - 1;
      var b := batch[n];
      assert b in batch && forall r :: r in batch[..n] ==> r in batch;
      CountAfterMark(rows, batch[..n], confirmed, final, c, w);
      if IsConfirmed(b, confirmed) == final {
        LastNameFresh(batch, confirmed, final);
        CountAfterOne(rows, FinalNames(batch[..n], confirmed, final), b, w, c);
      }
    }
  }

  lemma {:induction false} BatchSplits(batch: seq<HandleRow>, confirmed: Option<nat>)
    ensures |FinalNames(batch, confirmed, false)| + |FinalNames(batch, confirmed, true)| == |batch|
  {
    if batch != [] {
      BatchSplits(batch[..|batch| - 1], confirmed);
    }
  }

  /** The rows of the batch that wait for their final status are untouched by the temporary ones. */
  lemma FinalsUntouched(rows: seq<HandleRow>, batch: seq<HandleRow>, confirmed: Option<nat>, tip: Option<Root>, r: HandleRow)
    requires UniqueNames(batch) && r in batch && r in rows && IsConfirmed(r, confirmed)
    ensures r in MarkPublished(rows, FinalNames(batch, confirmed, false), Publish(Temp, tip))
  {
    var temps := FinalNames(batch, confirmed, false);
    MarkPublishedIs(rows, temps, Publish(Temp, tip));
    FinalNamesAre(batch, confirmed, false, r.name);
    forall r' | r' in batch && r'.name == r.name ensures r' == r {
      UniqueRow(batch, r, r');
    }
    var i :| 0 <= i < |rows| && rows[i] == r;
    assert Update(rows, NameIn(temps), Publish(Temp, tip))[i] == r;
  }

  /** Marking a batch of unpublished rows lowers the number of unpublished rows by the size of the batch. */
  lemma CountAfterBatch(rows: seq<HandleRow>, batch: seq<HandleRow>, confirmed: Option<nat>, tip: Option<Root>)
    requires UniqueNames(rows) && UniqueNames(batch)
    requires forall r :: r in batch ==> r in rows && Unpublished(confirmed).Holds(r)
    ensures Count(MarkBatch(rows, batch, confirmed, tip), Unpublished(confirmed)) == Count(rows, Unpublished(confirmed)) - |batch|
  {
    var w := Unpublished(confirmed);
    var temps := FinalNames(batch, confirmed, false);
    var mid := MarkPublished(rows, temps, Publish(Temp, tip));
    CountAfterMark(rows, batch, confirmed, false, Publish(Temp, tip), w);
    assert UniqueNames(mid) by {
      MarkPublishedIs(rows, temps, Publish(Temp, tip));
      UpdateNames(rows, NameIn(temps), Publish(Temp, tip));
    }
    forall r | r in batch && IsConfirmed(r, confirmed) ensures r in mid {
      FinalsUntouched(rows, batch, confirmed, tip, r);
    }
    CountAfterMark(mid, batch, confirmed, true, Publish(Final, None), w);
    BatchSplits(batch, confirmed);
  }

  // What a pass does to each row

  /** The row once its temporary certificate, if it is against another tip, was reset. */
  function AfterReset(r: HandleRow, tip: Option<Root>): HandleRow {
    if r.status == Some(Temp) && r.tempTip != tip then r.(status := None, tempTip := None) else r
  }

  /** The row once it was published at the tip that the pass began with. */
  function Published(r: HandleRow, confirmed: Option<nat>, tip: Option<Root>): HandleRow {
    if r.idx.Some? && confirmed.Some? && r.idx.value <= confirmed.value
    then r.(status := Some(Final), tempTip := None)
    else r.(status := Some(Temp), tempTip := tip)
  }

  /** What a pass is about: the handles of its list, or without one those with no certificate, or a temporary one although they are confirmed. */
  predicate MeantBy(r: HandleRow, confirmed: Option<nat>, only: seq<Name>) {
    if only != [] then r.name in only
    else r.status.None? || (r.status == Some(Temp) && r.idx.Some? && confirmed.Some? && r.idx.value <= confirmed.value)
  }

  lemma ResetIs(rows: seq<HandleRow>, tip: Option<Root>, i: nat)
    requires i < |rows|
    ensures |ResetStale(rows, tip)| == |rows| && ResetStale(rows, tip)[i] == AfterReset(rows[i], tip)
  {
  }

  lemma BatchIsMeant(rows: seq<HandleRow>, confirmed: Option<nat>, only: seq<Name>, limit: nat)
    requires UniqueNames(rows)
    ensures var batch := BatchFor(rows, confirmed, only, limit);
      && (forall r :: r in batch ==> r in rows && MeantBy(r, confirmed, only))
      && (only != [] && Count(rows, NameIn(only)) <= limit ==> forall r :: r in rows && r.name in only ==> r in batch)
  {
    var w := if only == [] then Unpublished(confirmed) else NameIn(only);
    SelectByNameIs(rows, w, limit);
    assert forall r :: w.Holds(r) <==> MeantBy(r, confirmed, only);
  }

  lemma RowMarked(rows: seq<HandleRow>, batch: seq<HandleRow>, confirmed: Option<nat>, tip: Option<Root>, i: nat)
    requires UniqueNames(rows) && (forall r :: r in batch ==> r in rows) && i < |rows|
    ensures |MarkBatch(rows, batch, confirmed, tip)| == |rows|
    ensures MarkBatch(rows, batch, confirmed, tip)[i] == if rows[i] in batch then Published(rows[i], confirmed, tip) else rows[i]
  {
    MarkBatchIs(rows, batch, confirmed, tip, i);
  }

  /**
   Row by row: a pass that does not get to the node changes nothing. Any other one resets the row if it is stale, and
   besides that publishes it or leaves it; it publishes only what it is about, and nothing if no certificate went out.
   */
  lemma PassTouches(l: Ledger, last: Measurement, tip: Option<Root>, certTip: Option<Root>, ceiling: nat, only: seq<Name>, net: Network, i: nat)
    requires UniqueNames(l.handles) && i < |l.handles|
    ensures var p, confirmed, r := PublishPass(l, last, tip, certTip, ceiling, only, net), ConfirmedIdx(l, tip), AfterReset(l.handles[i], tip);
      && |p.handles| == |l.handles|
      && (net.Down? ==> p.handles[i] == l.handles[i])
      && (!net.Down? ==> p.handles[i] == r || (p.sent != [] && MeantBy(r, confirmed, only) && p.handles[i] == Published(r, confirmed, tip)))
  {
    var rows, confirmed, batch := ResetStale(l.handles, tip), ConfirmedIdx(l, tip), PassBatch(l, last, tip, ceiling, only);
    ResetIs(l.handles, tip, i);
    UpdateNames(l.handles, StaleTemp(tip), ClearPublish);
    BatchIsMeant(rows, confirmed, only, BatchLimit(last, ceiling, only));
    RowMarked(rows, batch, confirmed, tip, i);
    PassShape(l, last, tip, certTip, ceiling, only, net);
    SentIffMarked(l, last, tip, certTip, ceiling, only, net);
  }

  /** Without a certificate that goes out nothing is marked. */
  lemma SentIffMarked(l: Ledger, last: Measurement, tip: Option<Root>, certTip: Option<Root>, ceiling: nat, only: seq<Name>, net: Network)
    ensures var p := PublishPass(l, last, tip, certTip, ceiling, only, net);
      && (p.sent == [] ==> p.handles == l.handles || p.handles == ResetStale(l.handles, tip))
      && (p.result.Err? ==> p.sent == [] && p.last == last)
  {
  }

  /** The tip is absent or local, and the receipt for the root certificate is there. */
  ghost predicate Issuable(l: Ledger, tip: Option<Root>) {
    && GetReceipt(l, tip).Ok?
    && (tip.Some? ==> FindSnapshot(l.snaps, tip.value).Some?)
  }

  lemma {:induction false} CertsOk(snaps: seq<Tree>, tip: Option<Root>, batch: seq<HandleRow>)
    requires tip.Some? ==> FindSnapshot(snaps, tip.value).Some?
    ensures CertsFor(snaps, tip, batch).Ok?
  {
    if batch != [] {
      CertsOk(snaps, tip, batch[..|batch| - 1]);
    }
  }

  lemma {:induction false} CountReset(rows: seq<HandleRow>, tip: Option<Root>, only: seq<Name>)
    ensures Count(ResetStale(rows, tip), NameIn(only)) == Count(rows, NameIn(only))
  {
    if rows != [] {
      var n := |rows| - 1;
      assert ResetStale(rows, tip)[..n] == ResetStale(rows[..n], tip);
      CountReset(rows[..n], tip, only);
    }
  }

  /**
   A pass over a list of names, when nothing outside fails. It answers for as many handles as the table has of those
   names, up to the ceiling, and leaves none of them over; refused for its size, it publishes none.
   */
  lemma ListedPass(l: Ledger, last: Measurement, tip: Option<Root>, certTip: Option<Root>, ceiling: nat, only: seq<Name>, bytes: nat)
    requires UniqueNames(l.handles) && Issuable(l, certTip) && only != []
    ensures var p := PublishPass(l, last, tip, certTip, ceiling, only, Up(bytes));
      var listed := Count(l.handles, NameIn(only));
      var n := if listed <= ceiling then listed else ceiling;
      && p.result == Ok(if bytes <= 512 * 1024 then (n, 0) else (0, n))
      && |p.sent| == (if bytes <= 512 * 1024 then n else 0)
      && p.last == if n == 0 then last else RecordMessageSize(last, n + 1, bytes)
  {
    CountReset(l.handles, tip, only);
    ListedLimited(l, last, tip, certTip, ceiling, only, bytes);
  }

  lemma ListedLimited(l: Ledger, last: Measurement, tip: Option<Root>, certTip: Option<Root>, limit: nat, only: seq<Name>, bytes: nat)
    requires Issuable(l, certTip) && only != []
    ensures var p := LimitedPass(l, last, tip, certTip, limit, only, Up(bytes));
      var n := |BatchFor(ResetStale(l.handles, tip), ConfirmedIdx(l, tip), only, limit)|;
      && p.result == Ok(if bytes <= 512 * 1024 then (n, 0) else (0, n))
      && |p.sent| == (if bytes <= 512 * 1024 then n else 0)
      && p.last == if n == 0 then last else RecordMessageSize(last, n + 1, bytes)
  {
    var rows := ResetStale(l.handles, tip);
    var batch := BatchFor(rows, ConfirmedIdx(l, tip), only, limit);
    CertsOk(l.snaps, certTip, batch);
    ListedSend(l, rows, batch, last, tip, certTip, bytes);
  }

  lemma ListedSend(l: Ledger, rows: seq<HandleRow>, batch: seq<HandleRow>, last: Measurement, tip: Option<Root>, certTip: Option<Root>, bytes: nat)
    requires Issuable(l, certTip) && CertsFor(l.snaps, certTip, batch).Ok?
    ensures var p := SendBatch(l, rows, batch, |batch|, last, tip, certTip, Up(bytes));
      && p.result == Ok(if bytes <= 512 * 1024 then (|batch|, 0) else (0, |batch|))
      && |p.sent| == (if bytes <= 512 * 1024 then |batch| else 0)
      && p.last == RecordMessageSize(last, |batch| + 1, bytes)
  {
  }

  /** And every row of those names, if they are no more than the ceiling, is published. */
  lemma ListedPublished(l: Ledger, last: Measurement, tip: Option<Root>, certTip: Option<Root>, ceiling: nat, only: seq<Name>, bytes: nat, i: nat)
    requires UniqueNames(l.handles) && Issuable(l, certTip) && only != []
    requires Count(l.handles, NameIn(only)) <= ceiling && bytes <= 512 * 1024
    requires i < |l.handles| && l.handles[i].name in only
    ensures var p := PublishPass(l, last, tip, certTip, ceiling, only, Up(bytes));
      |p.handles| == |l.handles| && p.handles[i] == Published(AfterReset(l.handles[i], tip), ConfirmedIdx(l, tip), tip)
  {
    var rows, confirmed, batch := ResetStale(l.handles, tip), ConfirmedIdx(l, tip), PassBatch(l, last, tip, ceiling, only);
    ResetIs(l.handles, tip, i);
    assert rows[i] in rows;
    UpdateNames(l.handles, StaleTemp(tip), ClearPublish);
    CountReset(l.handles, tip, only);
    BatchIsMeant(rows, confirmed, only, ceiling);
    RowMarked(rows, batch, confirmed, tip, i);
    ListedMarks(l, last, tip, certTip, ceiling, only, bytes);
  }

  lemma ListedMarks(l: Ledger, last: Measurement, tip: Option<Root>, certTip: Option<Root>, ceiling: nat, only: seq<Name>, bytes: nat)
    requires Issuable(l, certTip) && only != [] && bytes <= 512 * 1024 && PassBatch(l, last, tip, ceiling, only) != []
    ensures PublishPass(l, last, tip, certTip, ceiling, only, Up(bytes)).handles ==
      MarkBatch(ResetStale(l.handles, tip), PassBatch(l, last, tip, ceiling, only), ConfirmedIdx(l, tip), tip)
  {
    CertsOk(l.snaps, certTip, PassBatch(l, last, tip, ceiling, only));
  }

  // When a pass fails

  /** With the node and the relay at hand a pass fails exactly if it has handles to publish and the tip's certificates cannot be issued; the error says why. */
  lemma FailsIff(l: Ledger, last: Measurement, tip: Option<Root>, certTip: Option<Root>, ceiling: nat, only: seq<Name>, bytes: nat)
    ensures var p := PublishPass(l, last, tip, certTip, ceiling, only, Up(bytes));
      && (p.result.Err? <==> PassBatch(l, last, tip, ceiling, only) != [] && !Issuable(l, certTip))
      && (p.result.Err? ==> p.result.error == CannotIssue(if GetReceipt(l, certTip).Err? then GetReceipt(l, certTip).error else NoSnapshot))
    ensures PublishPass(l, last, tip, certTip, ceiling, only, Down) == Pass(l.handles, last, Err(Unreachable), [])
  {
    var batch := PassBatch(l, last, tip, ceiling, only);
    if certTip.Some? && FindSnapshot(l.snaps, certTip.value).None? {
      CertsNotOk(l.snaps, certTip, batch);
    } else {
      CertsOk(l.snaps, certTip, batch);
    }
  }

  lemma {:induction false} CertsNotOk(snaps: seq<Tree>, tip: Option<Root>, batch: seq<HandleRow>)
    requires tip.Some? && FindSnapshot(snaps, tip.value).None?
    ensures batch != [] ==> CertsFor(snaps, tip, batch) == Err(NoSnapshot)
  {
    if batch != [] {
      CertsNotOk(snaps, tip, batch[..|batch| - 1]);
    }
  }
}
