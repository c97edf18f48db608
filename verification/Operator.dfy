/** The operator's publishing side for one space: batch sizing memory and the publish pass over the space's tables. */
module Operators {
  import opened Wrappers
  import opened Tables
  import opened NameOrder
  import opened Ledgers
  import opened Proving
  import opened BatchSizing
  import opened Publishing
  import opened LocalSpaces

  class Operator {
    const local: LocalSpace
    var lastMessage: Measurement

    constructor (local: LocalSpace)
      ensures this.local == local && lastMessage == None
    {
      this.local := local;
      lastMessage := None;
    }

    /** Kept whether or not the message was sent; an empty measurement is ignored. */
    method RecordOutcome(certs: nat, bytes: nat)
      modifies this
      ensures lastMessage == RecordMessageSize(old(lastMessage), certs, bytes)
    {
      if certs == 0 || bytes == 0 {
        return;
      }
      lastMessage := Some((certs, bytes));
    }

    /** One certificate per handle: inclusion if the tip's snapshot has it, temporary otherwise. */
    method IssueHandleCerts(tip: Option<Root>, batch: seq<HandleRow>) returns (r: Result<seq<CertKind>, Error>)
      ensures r == CertsFor(local.snaps, tip, batch)
    {
      var certs := [];
      for i := 0 to |batch|
        invariant CertsFor(local.snaps, tip, batch[..i]) == Ok(certs)
      {
        assert batch[..i + 1][..i] == batch[..i];
        var found := local.LookupHandleInTree(batch[i].name, tip);
        if found.Err? {
          CertsFail(local.snaps, tip, batch, i + 1);
          return Err(found.error);
        }
        certs := certs + [if found.value.Some? then Inclusion else Temporary];
      }
      assert batch[..|batch|] == batch;
      return Ok(certs);
    }

    /** UPDATE handles ... WHERE name = ?, once per name. */
    method MarkHandlesPublished(names: seq<Name>, c: Change)
      modifies local
      ensures local.View() == old(local.View()).(handles := MarkPublished(old(local.handles), names, c))
    {
      for i := 0 to |names|
        invariant local.View() == old(local.View()).(handles := MarkPublished(old(local.handles), names[..i], c))
      {
        assert names[..i + 1][..i] == names[..i];
        local.handles := Update(local.handles, Named(names[i]), c);
      }
      assert names[..|names|] == names;
    }

    /** Record the statuses of a batch that was sent. */
    method MarkSent(batch: seq<HandleRow>, confirmed: Option<nat>, tip: Option<Root>)
      modifies local
      ensures local.View() == old(local.View()).(handles := MarkBatch(old(local.handles), batch, confirmed, tip))
    {
      var tempNames, finalNames := [], [];
      for i := 0 to |batch|
        invariant tempNames == FinalNames(batch[..i], confirmed, false)
        invariant finalNames == FinalNames(batch[..i], confirmed, true)
        invariant local.View() == old(local.View())
      {
        assert batch[..i + 1][..i] == batch[..i];
        if IsConfirmed(batch[i], confirmed) {
          finalNames := finalNames + [batch[i].name];
        } else {
          tempNames := tempNames + [batch[i].name];
        }
      }
      assert batch[..|batch|] == batch;
      if tempNames != [] {
        MarkHandlesPublished(tempNames, Publish(Temp, tip));
      }
      if finalNames != [] {
        MarkHandlesPublished(finalNames, Publish(Final, None));
      }
    }

    /**
     One publish pass; answers (published, remaining), and the certificates that went out. The node's two answers for
     the tip are parameters.
     */
    method PublishCerts(tip: Option<Root>, certTip: Option<Root>, ceiling: nat, only: seq<Name>, net: Network)
      returns (r: Result<(nat, nat), Failure>, sent: seq<CertKind>)
      modifies this, local
      ensures var p := PublishPass(old(local.View()), old(lastMessage), tip, certTip, ceiling, only, net);
        && local.View() == old(local.View()).(handles := p.handles)
        && lastMessage == p.last
        && r == p.result
        && sent == p.sent
    {
      if net.Down? {
        return Err(Unreachable), [];
      }
      ghost var before := local.View();
      var known := if tip.Some? then ByRoot(local.commits, tip.value) else None;
      var confirmed := if known.Some? then Some(known.value.idx) else None;
      assert confirmed == ConfirmedIdx(before, tip);

      local.handles := Update(local.handles, StaleTemp(tip), ClearPublish);

      var limit := if only == [] then NextBatchSize(lastMessage, ceiling) else ceiling;
      var batch := SelectByName(local.handles, if only == [] then Unpublished(confirmed) else NameIn(only), limit);
      if batch == [] {
        return Ok((0, 0)), [];
      }
      var total := if only == [] then Count(local.handles, Unpublished(confirmed)) else |batch|;
      ghost var rows, last := local.handles, lastMessage;
      assert local.View() == before.(handles := rows);
      r, sent := Submit(batch, total, confirmed, tip, certTip, net);
      SendIgnoresOldRows(before, rows, batch, total, last, tip, certTip, net);
    }

    /** Issue, submit and record a batch. */
    method Submit(batch: seq<HandleRow>, total: nat, confirmed: Option<nat>, tip: Option<Root>, certTip: Option<Root>, net: Network)
      returns (r: Result<(nat, nat), Failure>, sent: seq<CertKind>)
      requires |batch| <= total && confirmed == ConfirmedIdx(local.View(), tip)
      modifies this, local
      ensures var p := SendBatch(old(local.View()), old(local.handles), batch, total, old(lastMessage), tip, certTip, net);
        && local.View() == old(local.View()).(handles := p.handles)
        && lastMessage == p.last
        && r == p.result
        && sent == p.sent
    {
      if !net.Up? {
        return Err(Unreachable), [];
      }
      var root := GetReceipt(Ledger(local.snaps, local.commits, local.nextId, local.handles, local.receipts), certTip);
      if root.Err? {
        return Err(CannotIssue(root.error)), [];
      }
      var issued := IssueHandleCerts(certTip, batch);
      if issued.Err? {
        return Err(CannotIssue(issued.error)), [];
      }
      RecordOutcome(|issued.value| + 1, net.bytes);
      if !Fits(net.bytes) {
        return Ok((0, total)), [];
      }
      MarkSent(batch, confirmed, tip);
      return Ok((|batch|, total - |batch|)), issued.value;
    }
  }

  /** Certificates depend on the snapshots, the commitments and the receipts, not on the handle rows. */
  lemma SendIgnoresOldRows(l: Ledger, rows: seq<HandleRow>, batch: seq<HandleRow>, total: nat, last: Measurement, tip: Option<Root>, certTip: Option<Root>, net: Network)
    requires |batch| <= total
    ensures ConfirmedIdx(l.(handles := rows), tip) == ConfirmedIdx(l, tip)
    ensures SendBatch(l.(handles := rows), rows, batch, total, last, tip, certTip, net) == SendBatch(l, rows, batch, total, last, tip, certTip, net)
  {
  }

  /** Once a handle cannot get its certificate, the whole batch cannot. */
  lemma {:induction false} CertsFail(snaps: seq<Tree>, tip: Option<Root>, batch: seq<HandleRow>, n: nat)
    requires n <= |batch| && CertsFor(snaps, tip, batch[..n]).Err?
    ensures CertsFor(snaps, tip, batch) == CertsFor(snaps, tip, batch[..n])
  {
    if n == |batch| {
      assert batch[..n] == batch;
    } else {
      assert batch[..|batch| - 1][..n] == batch[..n];
      CertsFail(snaps, tip, batch[..|batch| - 1], n);
    }
  }
}
