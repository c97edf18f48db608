/**
 Registry sync as a protocol with at-least-once delivery: pending handles are
 pulled, staged later, and acknowledged by messages that may be lost, delayed or
 repeated, while the ledger commits, rolls back and crashes in between.
 */
module RegistrySync {
  import opened Wrappers
  import opened Tables
  import opened ZkBatch
  import opened Ledgers
  import opened LedgerProofs
  import opened Registry
  import LedgerRuns

  // Staging a pulled batch

  /** Stage one request after the other; outcomes report first what was added, then what was skipped. */
  datatype Staging = Staging(ledger: Ledger, added: seq<AckEntry>, skipped: seq<AckEntry>)

  function StageOne(s: Staging, d: Delivery): Staging {
    var skip := SkipFor(s.ledger, d.handle.name, d.spk);
    var entry := AckEntry(d.handle, OutcomeOf(skip));
    Staging(AddRequest(s.ledger, d.handle.name, d.spk),
            if skip.None? then s.added + [entry] else s.added,
            if skip.None? then s.skipped else s.skipped + [entry])
  }

  function StageAll(l: Ledger, ds: seq<Delivery>): Staging {
    if ds == [] then Staging(l, [], [])
    else StageOne(StageAll(l, ds[..|ds| - 1]), ds[|ds| - 1])
  }

  function Outcomes(s: Staging): seq<AckEntry> {
    s.added + s.skipped
  }

  /** What is staged: handles of another space are a registry bug, and neither staged nor acknowledged. */
  function OfSpace(ds: seq<Delivery>, space: string, parses: Handle -> bool): (s: seq<Delivery>)
    ensures forall d :: d in s <==> d in ds && parses(d.handle) && d.handle.space == space
  {
    if ds == [] then []
    else
      var n := |ds| - 1;
      assert ds == ds[..n] + [ds[n]];
      OfSpace(ds[..n], space, parses) + (if parses(ds[n].handle) && ds[n].handle.space == space then [ds[n]] else [])
  }

  /** Handles that do not parse are settled at once, whatever their space. */
  function Unparsable(ds: seq<Delivery>, parses: Handle -> bool): (es: seq<AckEntry>)
    ensures forall e :: e in es <==> !parses(e.handle) && e.outcome == Invalid && exists d :: d in ds && d.handle == e.handle
  {
    if ds == [] then []
    else
      var n := |ds| - 1;
      assert ds == ds[..n] + [ds[n]];
      Unparsable(ds[..n], parses) + (if parses(ds[n].handle) then [] else [AckEntry(ds[n].handle, Invalid)])
  }

  // Who holds a name

  /** The ledger has a row for this name under this key, staged or committed. */
  ghost predicate Held(l: Ledger, name: Name, spk: Spk) {
    exists r :: r in l.handles && r.name == name && r.spk == spk
  }

  /** One row, one key. */
  lemma HeldOnce(l: Ledger, name: Name, a: Spk, b: Spk)
    requires Inv(l) && Held(l, name, a) && Held(l, name, b)
    ensures a == b
  {
    var r :| r in l.handles && r.name == name && r.spk == a;
    var r' :| r' in l.handles && r'.name == name && r'.spk == b;
    UniqueRow(l.handles, r, r');
  }

  /** The row decides the answer: the same key is told so, any other key is turned down, and nothing changes. */
  lemma HeldAnswers(l: Ledger, name: Name, spk: Spk, asked: Spk)
    requires Inv(l) && Held(l, name, spk)
    ensures AddRequest(l, name, asked) == l
    ensures SkipFor(l, name, asked).Some?
    ensures asked == spk <==> SkipFor(l, name, asked).value in {AlreadyStaged, AlreadyCommitted}
    ensures asked != spk <==> OutcomeOf(SkipFor(l, name, asked)).Settles() == Rejected
  {
    var r :| r in l.handles && r.name == name && r.spk == spk;
    assert RowOk(l.snaps, r);
    if r.idx.Some? {
      Kept(l.snaps, r.idx.value, |l.snaps| - 1, name);
    } else {
      var staged := Select(l.handles, StagedNamed(name));
      assert r in staged;
      assert staged[0] in staged;
      UniqueRow(l.handles, r, staged[0]);
    }
  }

  /** A free name goes to whoever asks first. */
  lemma FreeIsStaged(l: Ledger, name: Name, spk: Spk)
    requires Inv(l) && SkipFor(l, name, spk).None?
    ensures Held(AddRequest(l, name, spk), name, spk)
  {
    assert NewRow(name, spk) in AddRequest(l, name, spk).handles;
  }

  /** What the registry is told: whose the name's row is once the request was handled, and whether it is staged or committed. */
  lemma OutcomeIs(l: Ledger, name: Name, spk: Spk)
    requires Inv(l)
    ensures var m, o := AddRequest(l, name, spk), OutcomeOf(SkipFor(l, name, spk));
      && name in Names(m.handles)
      && (o == StagedNow <==> name !in Names(l.handles))
      && (forall r :: r in m.handles && r.name == name ==>
            && o.Settles() == (if r.spk != spk then Rejected else if r.idx.Some? then RegStatus.Committed else RegStatus.Staged)
            && (o == AlreadyStagedSameSpk <==> r in l.handles && r.idx.None? && r.spk == spk)
            && (o == AlreadyCommittedSameSpk <==> r in l.handles && r.idx.Some? && r.spk == spk)
            && (o == AlreadyStagedOtherSpk <==> r in l.handles && r.idx.None? && r.spk != spk)
            && (o == AlreadyCommittedOtherSpk <==> r in l.handles && r.idx.Some? && r.spk != spk))
  {
    SkipIs(l, name, spk);
    if SkipFor(l, name, spk).None? {
      NothingReplaced(l, name, spk);
      assert NewRow(name, spk) in AddRequest(l, name, spk).handles;
      assert forall r :: r in l.handles ==> r.name in Names(l.handles);
    }
  }

  /** Every outcome tells who holds the name once the request was handled. */
  lemma OutcomeTells(l: Ledger, name: Name, spk: Spk)
    requires Inv(l)
    ensures var m, o := AddRequest(l, name, spk), OutcomeOf(SkipFor(l, name, spk));
      && Inv(m)
      && (o.Settles() != Rejected ==> Held(m, name, spk))
      && (o.Settles() == Rejected ==> exists other :: other != spk && Held(m, name, other))
  {
    AddRequestInv(l, name, spk);
    if SkipFor(l, name, spk).None? {
      FreeIsStaged(l, name, spk);
    } else if name in Newest(l.snaps) {
      RowOfName(l, |l.snaps| - 1, name);
      assert Held(l, name, Newest(l.snaps)[name]);
    } else {
      var staged := Select(l.handles, StagedNamed(name));
      assert staged[0] in staged;
      assert Held(l, name, staged[0].spk);
    }
  }

  // A held name stays held

  predicate Removes(a: LedgerRuns.Action, name: Name) {
    a.RemoveHandles? && (a.names == [] || name in a.names)
  }

  lemma UpdateHeld(rows: seq<HandleRow>, w: Where, c: Change, r: HandleRow)
    requires r in rows
    ensures exists r' :: r' in Update(rows, w, c) && r'.name == r.name && r'.spk == r.spk
  {
    var i :| 0 <= i < |rows| && rows[i] == r;
    assert Update(rows, w, c)[i] in Update(rows, w, c);
  }

  lemma {:induction false} ParkHeld(rows: seq<HandleRow>, names: seq<Name>, parked: bool, r: HandleRow) returns (r': HandleRow)
    requires r in rows
    ensures r' in ParkNames(rows, names, parked) && r'.name == r.name && r'.spk == r.spk
  {
    if names == [] {
      r' := r;
    } else {
      var n := |names| - 1;
      var q := ParkHeld(rows, names[..n], parked, r);
      UpdateHeld(ParkNames(rows, names[..n], parked), StagedNamed(names[n]), Park(parked), q);
      r' :| r' in ParkNames(rows, names, parked) && r'.name == q.name && r'.spk == q.spk;
    }
  }

  lemma {:induction false} DeleteHeld(rows: seq<HandleRow>, names: seq<Name>, r: HandleRow)
    requires r in rows && r.name !in names
    ensures r in DeleteNames(rows, names)
  {
    if names != [] {
      DeleteHeld(rows, names[..|names| - 1], r);
    }
  }

  lemma HandlesHeld(h: Hasher, l: Ledger, a: LedgerRuns.Action, name: Name, spk: Spk)
    requires Inv(l) && Held(l, name, spk) && !Removes(a, name)
    requires a.Stage? || a.ParkHandles? || a.RemoveHandles? || a.Check?
    ensures Held(LedgerRuns.Apply(h, l, a), name, spk)
  {
    var r :| r in l.handles && r.name == name && r.spk == spk;
    match a
    case Stage(n, s) =>
      if SkipFor(l, n, s).None? {
        NothingReplaced(l, n, s);
        assert r in AddRequest(l, n, s).handles;
      }
    case ParkHandles(names, parked) =>
      if names == [] {
        UpdateHeld(l.handles, Where.Staged, Park(parked), r);
      } else {
        var _ := ParkHeld(l.handles, names, parked, r);
      }
    case RemoveHandles(names) =>
      DeleteHeld(l.handles, names, r);
      assert r in RemoveStaged(l, names).handles;
    case Check => CheckIsIdentity(l);
  }

  /** Only the operator's own removal gives a held name up: commits, rollbacks and crashes do not. */
  lemma HeldStays(h: Hasher, l: Ledger, a: LedgerRuns.Action, name: Name, spk: Spk)
    requires Inv(l) && Held(l, name, spk) && !Removes(a, name)
    ensures Held(LedgerRuns.Apply(h, l, a), name, spk)
  {
    var r :| r in l.handles && r.name == name && r.spk == spk;
    if a.DoCommit? || a.DoCommitLocal? {
      LedgerRuns.CommitOutcome(h, l);
      UpdateHeld(l.handles, StagedUnparked, MarkCommitted(RootOf(InsertAll(Newest(l.snaps), StagedEntries(l))), |l.commits|), r);
    } else if a.DoRollback? || a.StopRollback? || a.StopCommit? {
      LedgerRuns.RollingOutcome(h, l, a);
      if LedgerRuns.RollsBack(l, LedgerRuns.Apply(h, l, a)) {
        UpdateHeld(l.handles, CommittedAt(l.commits[|l.commits| - 1].root), Unstage, r);
      }
    } else if a.DoBroadcast? || a.Save? || a.StopSave? {
      LedgerRuns.RowsOutcome(h, l, a);
    } else {
      HandlesHeld(h, l, a, name, spk);
    }
  }

  // The protocol

  datatype System = System(
    space: string,
    parses: Handle -> bool,
    ledger: Ledger,
    registry: seq<Registration>,
    pulled: set<seq<Delivery>>,       // answers to GET /pending that may still be staged, again and again
    acks: set<seq<AckEntry>>)         // POST /ack bodies that may arrive, again and again, or never

  datatype Action =
    | OnLedger(a: LedgerRuns.Action)
    | UserRegisters(handle: Handle, spk: Spk)
    | Pull
    | StagePulled(ds: seq<Delivery>, upto: nat)   // staging may fail, or crash, after so many of the requests
    | AckArrives(entries: seq<AckEntry>)

  function Apply(h: Hasher, s: System, a: Action): System {
    match a
    case OnLedger(b) => s.(ledger := LedgerRuns.Apply(h, s.ledger, b))
    case UserRegisters(handle, spk) => s.(registry := Register(s.registry, handle, spk))
    case Pull => s.(pulled := s.pulled + {PendingFor(s.registry, Some(s.space))})
    case StagePulled(ds, upto) => if ds in s.pulled then StageFrom(s, ds, upto) else s
    case AckArrives(entries) => if entries in s.acks then s.(registry := Ack(s.registry, entries)) else s
  }

  /** Stage a pulled batch. When that does not get through, nothing is acknowledged but the handles that do not parse. */
  function StageFrom(s: System, ds: seq<Delivery>, upto: nat): System {
    var requests := OfSpace(ds, s.space, s.parses);
    var n := if upto < |requests| then upto else |requests|;
    var staged := StageAll(s.ledger, requests[..n]);
    var outcomes := Unparsable(ds, s.parses) + (if n == |requests| then Outcomes(staged) else []);
    s.(ledger := staged.ledger, acks := s.acks + {outcomes})
  }

  function Initial(space: string, parses: Handle -> bool): System {
    System(space, parses, EMPTY, [], {}, {})
  }

  function Run(h: Hasher, s: System, actions: seq<Action>): System {
    if actions == [] then s
    else Apply(h, Run(h, s, actions[..|actions| - 1]), actions[|actions| - 1])
  }

  /** The key that a handle was registered with. */
  ghost predicate RegisteredAs(regs: seq<Registration>, handle: Handle, spk: Spk) {
    exists r :: r in regs && r.handle == handle && r.spk == spk
  }

  ghost predicate UniqueHandles(regs: seq<Registration>) {
    forall i, j :: 0 <= i < j < |regs| ==> regs[i].handle != regs[j].handle
  }

  /** A settled status is right about who holds the name. */
  ghost predicate StatusRight(l: Ledger, status: RegStatus, name: Name, spk: Spk) {
    && (status in {RegStatus.Staged, RegStatus.Committed} ==> Held(l, name, spk))
    && (status == Rejected ==> exists other :: other != spk && Held(l, name, other))
  }

  /** Everything under way about one handle: deliveries carry its registered key, acks and its status are right. */
  ghost predicate HandleOk(s: System, handle: Handle, spk: Spk) {
    && (forall r :: r in s.registry && r.handle == handle ==> r.spk == spk && StatusRight(s.ledger, r.status, handle.name, spk))
    && (forall ds, d :: ds in s.pulled && d in ds && d.handle == handle ==> d.spk == spk)
    && (forall es, e :: es in s.acks && e in es && e.handle == handle ==> StatusRight(s.ledger, e.outcome.Settles(), handle.name, spk))
  }

  ghost predicate Ok(s: System, handle: Handle, spk: Spk) {
    && Inv(s.ledger) && UniqueHandles(s.registry)
    && s.parses(handle) && RegisteredAs(s.registry, handle, spk) && HandleOk(s, handle, spk)
  }

  ghost predicate Keeps(l: Ledger, m: Ledger, name: Name) {
    forall spk :: Held(l, name, spk) ==> Held(m, name, spk)
  }

  lemma StatusStays(l: Ledger, m: Ledger, status: RegStatus, name: Name, spk: Spk)
    requires Keeps(l, m, name) && StatusRight(l, status, name, spk)
    ensures StatusRight(m, status, name, spk)
  {
  }

  lemma KeepsOk(s: System, m: Ledger, handle: Handle, spk: Spk)
    requires Ok(s, handle, spk) && Inv(m) && Keeps(s.ledger, m, handle.name)
    ensures Ok(s.(ledger := m), handle, spk)
  {
    forall es, e | es in s.acks && e in es && e.handle == handle ensures StatusRight(m, e.outcome.Settles(), handle.name, spk) {
      StatusStays(s.ledger, m, e.outcome.Settles(), handle.name, spk);
    }
    forall r | r in s.registry && r.handle == handle ensures r.spk == spk && StatusRight(m, r.status, handle.name, spk) {
      StatusStays(s.ledger, m, r.status, handle.name, spk);
    }
  }

  lemma AddKeeps(l: Ledger, name: Name, spk: Spk, other: Name)
    requires Inv(l)
    ensures Keeps(l, AddRequest(l, name, spk), other)
  {
    if SkipFor(l, name, spk).None? {
      NothingReplaced(l, name, spk);
    }
  }

  lemma {:induction false} StageAllTells(l: Ledger, ds: seq<Delivery>, handle: Handle, spk: Spk)
    requires Inv(l)
    requires forall d :: d in ds && d.handle == handle ==> d.spk == spk
    ensures var s := StageAll(l, ds);
      && Inv(s.ledger) && Keeps(l, s.ledger, handle.name)
      && (forall e :: e in Outcomes(s) && e.handle == handle ==> StatusRight(s.ledger, e.outcome.Settles(), handle.name, spk))
  {
    if ds != [] {
      var n := |ds| - 1;
      var d, before := ds[n], StageAll(l, ds[..n]);
      assert d in ds && forall x :: x in ds[..n] ==> x in ds;
      StageAllTells(l, ds[..n], handle, spk);
      AddRequestInv(before.ledger, d.handle.name, d.spk);
      AddKeeps(before.ledger, d.handle.name, d.spk, handle.name);
      OutcomeTells(before.ledger, d.handle.name, d.spk);
      var after := StageAll(l, ds);
      forall e | e in Outcomes(after) && e.handle == handle ensures StatusRight(after.ledger, e.outcome.Settles(), handle.name, spk) {
        if e in Outcomes(before) {
          StatusStays(before.ledger, after.ledger, e.outcome.Settles(), handle.name, spk);
        }
      }
    }
  }

  lemma AckOneOk(s: System, e: AckEntry, handle: Handle, spk: Spk)
    requires Ok(s, handle, spk)
    requires e.handle == handle ==> StatusRight(s.ledger, e.outcome.Settles(), handle.name, spk)
    ensures Ok(s.(registry := AckOne(s.registry, e)), handle, spk)
  {
    var regs := AckOne(s.registry, e);
    assert |regs| == |s.registry|;
    assert forall i :: 0 <= i < |regs| ==> regs[i].handle == s.registry[i].handle && regs[i].spk == s.registry[i].spk;
    var r :| r in s.registry && r.handle == handle && r.spk == spk;
    var i :| 0 <= i < |s.registry| && s.registry[i] == r;
    assert regs[i] in regs;
    forall x | x in regs && x.handle == handle ensures x.spk == spk && StatusRight(s.ledger, x.status, handle.name, spk) {
      var j :| 0 <= j < |regs| && regs[j] == x;
      assert s.registry[j] in s.registry;
    }
  }

  /** An ack settles a pending handle with its outcome and touches nothing else; a settled handle stays settled. */
  lemma AckSettles(regs: seq<Registration>, e: AckEntry, i: nat)
    requires UniqueHandles(regs) && i < |regs|
    ensures |AckOne(regs, e)| == |regs|
    ensures AckOne(regs, e)[i] ==
      if regs[i].handle == e.handle && regs[i].status == Pending then regs[i].(status := e.outcome.Settles()) else regs[i]
    ensures e.outcome.Settles() != Pending
  {
    if regs[i].handle == e.handle {
      assert Registered(regs, e.handle);
      assert Index(regs, e.handle) == Some(i);
    }
  }

  /** A handle is offered exactly while it is pending, to who asks for its space or for all. */
  lemma OfferedWhilePending(regs: seq<Registration>, i: nat, space: Option<string>)
    requires UniqueHandles(regs) && i < |regs|
    ensures Delivery(regs[i].handle, regs[i].spk) in PendingFor(regs, space) <==>
      regs[i].status == Pending && (space == None || space == Some(regs[i].handle.space))
  {
    assert regs[i] in regs;
    forall r | r in regs && r.handle == regs[i].handle ensures r == regs[i] {
      var j :| 0 <= j < |regs| && regs[j] == r;
      assert j == i;
    }
  }

  lemma {:induction false} AckOk(s: System, entries: seq<AckEntry>, handle: Handle, spk: Spk)
    requires Ok(s, handle, spk)
    requires forall e :: e in entries && e.handle == handle ==> StatusRight(s.ledger, e.outcome.Settles(), handle.name, spk)
    ensures Ok(s.(registry := Ack(s.registry, entries)), handle, spk)
  {
    if entries != [] {
      var n := |entries| - 1;
      assert entries[n] in entries && forall x :: x in entries[..n] ==> x in entries;
      AckOk(s, entries[..n], handle, spk);
      AckOneOk(s.(registry := Ack(s.registry, entries[..n])), entries[n], handle, spk);
    }
  }

  lemma StageOk(s: System, ds: seq<Delivery>, upto: nat, handle: Handle, spk: Spk)
    requires Ok(s, handle, spk) && ds in s.pulled
    ensures Ok(StageFrom(s, ds, upto), handle, spk) && Keeps(s.ledger, StageFrom(s, ds, upto).ledger, handle.name)
  {
    var requests := OfSpace(ds, s.space, s.parses);
    var n := if upto < |requests| then upto else |requests|;
    var staged := StageAll(s.ledger, requests[..n]);
    assert forall d :: d in requests[..n] ==> d in requests;
    StageAllTells(s.ledger, requests[..n], handle, spk);
    KeepsOk(s, staged.ledger, handle, spk);
  }

  lemma RegisterOk(s: System, handle: Handle, spk: Spk, other: Handle, otherSpk: Spk)
    requires Ok(s, handle, spk)
    ensures Ok(s.(registry := Register(s.registry, other, otherSpk)), handle, spk)
  {
    var regs := Register(s.registry, other, otherSpk);
    var r :| r in s.registry && r.handle == handle && r.spk == spk;
    assert r in regs;
    if !Registered(s.registry, other) {
      forall i, j | 0 <= i < j < |regs| ensures regs[i].handle != regs[j].handle {
        assert j == |s.registry| ==> s.registry[i].handle != other;
      }
      var at :| 0 <= at < |s.registry| && s.registry[at] == r;
      assert other != handle;
    }
  }

  lemma LedgerKeeps(h: Hasher, l: Ledger, a: LedgerRuns.Action, name: Name)
    requires Inv(l) && !Removes(a, name)
    ensures Keeps(l, LedgerRuns.Apply(h, l, a), name)
  {
    forall k | Held(l, name, k) ensures Held(LedgerRuns.Apply(h, l, a), name, k) {
      HeldStays(h, l, a, name, k);
    }
  }

  lemma StepOk(h: Hasher, s: System, a: Action, handle: Handle, spk: Spk)
    requires Ok(s, handle, spk)
    requires a.OnLedger? ==> !Removes(a.a, handle.name)
    ensures Ok(Apply(h, s, a), handle, spk) && Keeps(s.ledger, Apply(h, s, a).ledger, handle.name)
  {
    match a
    case OnLedger(b) =>
      LedgerRuns.ApplyInv(h, s.ledger, b);
      LedgerKeeps(h, s.ledger, b, handle.name);
      KeepsOk(s, LedgerRuns.Apply(h, s.ledger, b), handle, spk);
    case UserRegisters(other, otherSpk) => RegisterOk(s, handle, spk, other, otherSpk);
    case Pull =>
    case StagePulled(ds, upto) =>
      if ds in s.pulled {
        StageOk(s, ds, upto, handle, spk);
      }
    case AckArrives(entries) =>
      if entries in s.acks {
        AckOk(s, entries, handle, spk);
      }
  }

  /** What holds in every reachable state, whatever the operator removes. */
  ghost predicate Sane(s: System) {
    Inv(s.ledger) && UniqueHandles(s.registry) && forall handle :: !Registered(s.registry, handle) ==> NotHeardOf(s, handle)
  }

  lemma {:induction false} StaysSane(h: Hasher, s: System, actions: seq<Action>)
    requires Sane(s)
    ensures Sane(Run(h, s, actions)) && Run(h, s, actions).parses == s.parses
  {
    if actions != [] {
      StaysSane(h, s, actions[..|actions| - 1]);
      SaneStep(h, Run(h, s, actions[..|actions| - 1]), actions[|actions| - 1]);
    }
  }

  /** Nothing is under way about a handle that was never registered. */
  ghost predicate NotHeardOf(s: System, handle: Handle) {
    && (forall ds, d :: ds in s.pulled && d in ds ==> d.handle != handle)
    && (forall es, e :: es in s.acks && e in es ==> e.handle != handle)
  }

  lemma {:induction false} StageAllHandles(l: Ledger, ds: seq<Delivery>)
    requires Inv(l)
    ensures Inv(StageAll(l, ds).ledger)
    ensures forall e :: e in Outcomes(StageAll(l, ds)) ==> exists d :: d in ds && d.handle == e.handle
  {
    if ds != [] {
      var n := |ds| - 1;
      StageAllHandles(l, ds[..n]);
      var before := StageAll(l, ds[..n]);
      AddRequestInv(before.ledger, ds[n].handle.name, ds[n].spk);
      forall e | e in Outcomes(StageAll(l, ds)) ensures exists d :: d in ds && d.handle == e.handle {
        if e in Outcomes(before) {
          var d :| d in ds[..n] && d.handle == e.handle;
          assert d in ds;
        } else {
          assert ds[n] in ds;
        }
      }
    }
  }

  lemma {:induction false} AckHandlesSame(regs: seq<Registration>, entries: seq<AckEntry>)
    ensures |Ack(regs, entries)| == |regs|
    ensures forall i :: 0 <= i < |regs| ==> Ack(regs, entries)[i].handle == regs[i].handle && Ack(regs, entries)[i].spk == regs[i].spk
  {
    if entries != [] {
      AckHandlesSame(regs, entries[..|entries| - 1]);
    }
  }

  lemma SaneStep(h: Hasher, s: System, a: Action)
    requires Sane(s)
    ensures Sane(Apply(h, s, a)) && Apply(h, s, a).parses == s.parses
  {
    var t := Apply(h, s, a);
    match a
    case OnLedger(b) => LedgerRuns.ApplyInv(h, s.ledger, b);
    case UserRegisters(other, spk) =>
      forall handle | !Registered(t.registry, handle) ensures NotHeardOf(t, handle) {
        assert forall i :: 0 <= i < |s.registry| ==> t.registry[i] == s.registry[i];
        assert !Registered(s.registry, handle);
      }
    case Pull =>
      forall handle | !Registered(t.registry, handle) ensures NotHeardOf(t, handle) {
        assert NotHeardOf(s, handle);
      }
    case StagePulled(ds, upto) =>
      if ds in s.pulled {
        SaneStage(s, ds, upto);
      }
    case AckArrives(entries) =>
      AckHandlesSame(s.registry, entries);
      forall handle | !Registered(t.registry, handle) ensures NotHeardOf(t, handle) {
        assert !Registered(s.registry, handle);
      }
  }

  lemma SaneStage(s: System, ds: seq<Delivery>, upto: nat)
    requires Sane(s) && ds in s.pulled
    ensures Sane(StageFrom(s, ds, upto))
  {
    var t := StageFrom(s, ds, upto);
    var requests := OfSpace(ds, s.space, s.parses);
    var n := if upto < |requests| then upto else |requests|;
    StageAllHandles(s.ledger, requests[..n]);
    assert forall d :: d in requests[..n] ==> d in requests;
    forall handle | !Registered(t.registry, handle) ensures NotHeardOf(t, handle) {
      assert NotHeardOf(s, handle);
    }
  }

  lemma {:induction false} RunOn(h: Hasher, s: System, xs: seq<Action>, ys: seq<Action>)
    ensures Run(h, s, xs + ys) == Run(h, Run(h, s, xs), ys)
  {
    if ys == [] {
      assert xs + ys == xs;
    } else {
      assert (xs + ys)[..|xs + ys| - 1] == xs + ys[..|ys| - 1];
      RunOn(h, s, xs, ys[..|ys| - 1]);
    }
  }

  /** Right after it was registered, everything about a handle is as it should be. */
  lemma FreshOk(h: Hasher, s: System, handle: Handle, spk: Spk)
    requires Sane(s) && s.parses(handle) && !Registered(s.registry, handle)
    ensures Ok(Apply(h, s, UserRegisters(handle, spk)), handle, spk)
  {
    assert NotHeardOf(s, handle);
    var t := Apply(h, s, UserRegisters(handle, spk));
    assert t.registry[|s.registry|] in t.registry;
    forall r | r in t.registry && r.handle == handle ensures r == Registration(handle, spk, Pending) {
      var i :| 0 <= i < |t.registry| && t.registry[i] == r;
      assert forall j :: 0 <= j < |s.registry| ==> s.registry[j].handle != handle;
    }
  }

  /** The operator does not remove the name. */
  ghost predicate NoRemoval(actions: seq<Action>, name: Name) {
    forall i :: 0 <= i < |actions| && actions[i].OnLedger? ==> !Removes(actions[i].a, name)
  }

  lemma {:induction false} RunOk(h: Hasher, s: System, actions: seq<Action>, handle: Handle, spk: Spk)
    requires Ok(s, handle, spk) && NoRemoval(actions, handle.name)
    ensures Ok(Run(h, s, actions), handle, spk) && Keeps(s.ledger, Run(h, s, actions).ledger, handle.name)
  {
    if actions != [] {
      var init := actions[..|actions| - 1];
      RunOk(h, s, init, handle, spk);
      StepOk(h, Run(h, s, init), actions[|actions| - 1], handle, spk);
    }
  }

  lemma Registers(h: Hasher, s: System, before: seq<Action>, handle: Handle, spk: Spk)
    requires Sane(s) && s.parses(handle) && !Registered(Run(h, s, before).registry, handle)
    ensures Ok(Run(h, s, before + [UserRegisters(handle, spk)]), handle, spk)
  {
    StaysSane(h, s, before);
    FreshOk(h, Run(h, s, before), handle, spk);
    assert (before + [UserRegisters(handle, spk)])[..|before|] == before;
  }

  // Main results

  /**
   However pulls, failed and crashed stagings, lost or repeated acks, commits, rollbacks and crashes interleave, as
   long as the operator does not remove the name: the handle's status, and every ack under way for it, tells truly who
   holds the name.
   */
  lemma AlwaysOk(h: Hasher, space: string, parses: Handle -> bool, before: seq<Action>, handle: Handle, spk: Spk, more: seq<Action>)
    requires parses(handle) && !Registered(Run(h, Initial(space, parses), before).registry, handle)
    requires NoRemoval(more, handle.name)
    ensures Ok(Run(h, Initial(space, parses), before + [UserRegisters(handle, spk)] + more), handle, spk)
  {
    var start := before + [UserRegisters(handle, spk)];
    Registers(h, Initial(space, parses), before, handle, spk);
    RunOn(h, Initial(space, parses), start, more);
    RunOk(h, Run(h, Initial(space, parses), start), more, handle, spk);
  }

  /** The operator took the handle: its registry entry says so, or an ack that says so is under way, perhaps lost. */
  ghost predicate Accepted(s: System, handle: Handle) {
    || (exists r :: r in s.registry && r.handle == handle && r.status in {RegStatus.Staged, RegStatus.Committed})
    || (exists es, e :: es in s.acks && e in es && e.handle == handle && e.outcome.Settles() in {RegStatus.Staged, RegStatus.Committed})
  }

  /** The name is held under the registered key, no status and no ack says otherwise, and another delivery changes nothing. */
  ghost predicate Secure(s: System, handle: Handle, spk: Spk) {
    && Held(s.ledger, handle.name, spk)
    && (forall r :: r in s.registry && r.handle == handle ==> r.spk == spk && r.status != Rejected)
    && (forall es, e :: es in s.acks && e in es && e.handle == handle ==> e.outcome.Settles() != Rejected)
    && AddRequest(s.ledger, handle.name, spk) == s.ledger
    && OutcomeOf(SkipFor(s.ledger, handle.name, spk)) in {AlreadyStagedSameSpk, AlreadyCommittedSameSpk}
  }

  lemma HeldIsSecure(s: System, handle: Handle, spk: Spk)
    requires Ok(s, handle, spk) && Held(s.ledger, handle.name, spk)
    ensures Secure(s, handle, spk)
  {
    forall other | Held(s.ledger, handle.name, other) ensures other == spk {
      HeldOnce(s.ledger, handle.name, other, spk);
    }
    HeldAnswers(s.ledger, handle.name, spk, spk);
  }

  /**
   Once accepted, an entry is never rejected. Whatever happens after the operator took a handle, removal of its name
   aside: the name stays held under the registered key, the entry and every ack on its way stay clear of a rejection,
   and delivering it again changes nothing.
   */
  lemma AcceptedNeverRejected(h: Hasher, space: string, parses: Handle -> bool, before: seq<Action>, handle: Handle, spk: Spk, mid: seq<Action>, more: seq<Action>)
    requires parses(handle) && !Registered(Run(h, Initial(space, parses), before).registry, handle)
    requires NoRemoval(mid, handle.name) && NoRemoval(more, handle.name)
    requires Accepted(Run(h, Initial(space, parses), before + [UserRegisters(handle, spk)] + mid), handle)
    ensures Secure(Run(h, Initial(space, parses), before + [UserRegisters(handle, spk)] + mid + more), handle, spk)
  {
    var start := Initial(space, parses);
    var taken := before + [UserRegisters(handle, spk)] + mid;
    AlwaysOk(h, space, parses, before, handle, spk, mid);
    assert Held(Run(h, start, taken).ledger, handle.name, spk);
    RunOk(h, Run(h, start, taken), more, handle, spk);
    RunOn(h, start, taken, more);
    HeldIsSecure(Run(h, start, taken + more), handle, spk);
  }

  /** An entry that was settled keeps its status: no later ack changes it. */
  lemma {:induction false} SettledStays(h: Hasher, s: System, actions: seq<Action>, i: nat)
    requires UniqueHandles(s.registry) && i < |s.registry| && s.registry[i].status != Pending
    ensures var t := Run(h, s, actions); UniqueHandles(t.registry) && i < |t.registry| && t.registry[i] == s.registry[i]
  {
    if actions != [] {
      var init := actions[..|actions| - 1];
      SettledStays(h, s, init, i);
      SettledStep(h, Run(h, s, init), actions[|actions| - 1], i);
    }
  }

  lemma SettledStep(h: Hasher, s: System, a: Action, i: nat)
    requires UniqueHandles(s.registry) && i < |s.registry| && s.registry[i].status != Pending
    ensures var t := Apply(h, s, a); UniqueHandles(t.registry) && i < |t.registry| && t.registry[i] == s.registry[i]
  {
    if a.AckArrives? {
      AckSettled(s.registry, a.entries, i);
    }
  }

  lemma {:induction false} AckSettled(regs: seq<Registration>, entries: seq<AckEntry>, i: nat)
    requires UniqueHandles(regs) && i < |regs| && regs[i].status != Pending
    ensures var s := Ack(regs, entries); UniqueHandles(s) && i < |s| && s[i] == regs[i]
  {
    AckHandlesSame(regs, entries);
    if entries != [] {
      var init := entries[..|entries| - 1];
      AckSettled(regs, init, i);
      AckSettles(Ack(regs, init), entries[|entries| - 1], i);
    }
  }

  // Two owners, one name

  lemma {:induction false} StageAllKeeps(l: Ledger, ds: seq<Delivery>, name: Name)
    requires Inv(l)
    ensures Inv(StageAll(l, ds).ledger) && Keeps(l, StageAll(l, ds).ledger, name)
  {
    if ds != [] {
      var n := |ds| - 1;
      StageAllKeeps(l, ds[..n], name);
      var before := StageAll(l, ds[..n]).ledger;
      AddRequestInv(before, ds[n].handle.name, ds[n].spk);
      AddKeeps(before, ds[n].handle.name, ds[n].spk, name);
    }
  }

  lemma {:induction false} RunKeeps(h: Hasher, s: System, actions: seq<Action>, name: Name)
    requires Inv(s.ledger) && NoRemoval(actions, name)
    ensures Inv(Run(h, s, actions).ledger) && Keeps(s.ledger, Run(h, s, actions).ledger, name)
  {
    if actions != [] {
      var a, t := actions[|actions| - 1], Run(h, s, actions[..|actions| - 1]);
      RunKeeps(h, s, actions[..|actions| - 1], name);
      match a
      case OnLedger(b) =>
        LedgerRuns.ApplyInv(h, t.ledger, b);
        LedgerKeeps(h, t.ledger, b, name);
      case StagePulled(ds, upto) =>
        var requests := OfSpace(ds, t.space, t.parses);
        StageAllKeeps(t.ledger, requests[..if upto < |requests| then upto else |requests|], name);
      case _ =>
    }
  }

  /**
   Of two owners asking for a free name the first one staged has it for good. In every later state of every run, the
   name's removal aside, the second does not hold it, asking again changes nothing, and the answer is a refusal.
   */
  lemma FirstStagedWins(h: Hasher, s: System, name: Name, first: Spk, second: Spk, more: seq<Action>)
    requires Inv(s.ledger) && SkipFor(s.ledger, name, first).None? && first != second
    requires NoRemoval(more, name)
    ensures var l := Run(h, s.(ledger := AddRequest(s.ledger, name, first)), more).ledger;
      && Held(l, name, first) && !Held(l, name, second)
      && AddRequest(l, name, second) == l
      && OutcomeOf(SkipFor(l, name, second)).Settles() == Rejected
  {
    var t := s.(ledger := AddRequest(s.ledger, name, first));
    AddRequestInv(s.ledger, name, first);
    FreeIsStaged(s.ledger, name, first);
    RunKeeps(h, t, more, name);
    var l := Run(h, t, more).ledger;
    HeldAnswers(l, name, first, second);
    if Held(l, name, second) {
      HeldOnce(l, name, first, second);
    }
  }

  // Every delivery is answered

  lemma {:induction false} OutcomesComplete(l: Ledger, ds: seq<Delivery>)
    ensures |Outcomes(StageAll(l, ds))| == |ds|
    ensures forall d :: d in ds ==> exists e :: e in Outcomes(StageAll(l, ds)) && e.handle == d.handle
  {
    if ds != [] {
      var n := |ds| - 1;
      var before, after := StageAll(l, ds[..n]), StageAll(l, ds);
      assert ds == ds[..n] + [ds[n]];
      OutcomesComplete(l, ds[..n]);
      assert AckEntry(ds[n].handle, OutcomeOf(SkipFor(before.ledger, ds[n].handle.name, ds[n].spk))) in Outcomes(after);
      assert forall e :: e in Outcomes(before) ==> e in Outcomes(after);
    }
  }

  /** What is reported as added is what the table grew by. */
  lemma {:induction false} AddedIsGrowth(l: Ledger, ds: seq<Delivery>)
    requires Inv(l)
    ensures Inv(StageAll(l, ds).ledger)
    ensures |StageAll(l, ds).ledger.handles| == |l.handles| + |StageAll(l, ds).added|
  {
    if ds != [] {
      var n := |ds| - 1;
      var before := StageAll(l, ds[..n]).ledger;
      AddedIsGrowth(l, ds[..n]);
      AddRequestInv(before, ds[n].handle.name, ds[n].spk);
      if SkipFor(before, ds[n].handle.name, ds[n].spk).None? {
        NothingReplaced(before, ds[n].handle.name, ds[n].spk);
      }
    }
  }

  /** The ack for a batch that was staged to its end. */
  function FullAck(s: System, ds: seq<Delivery>): seq<AckEntry> {
    Unparsable(ds, s.parses) + Outcomes(StageAll(s.ledger, OfSpace(ds, s.space, s.parses)))
  }

  /** It is sent, and answers for every delivery of the space and for every one that does not parse. */
  lemma AckAnswers(h: Hasher, s: System, ds: seq<Delivery>, upto: nat, d: Delivery)
    requires ds in s.pulled && upto >= |OfSpace(ds, s.space, s.parses)|
    requires d in ds && (d.handle.space == s.space || !s.parses(d.handle))
    ensures FullAck(s, ds) in Apply(h, s, StagePulled(ds, upto)).acks
    ensures exists e :: e in FullAck(s, ds) && e.handle == d.handle
  {
    var requests := OfSpace(ds, s.space, s.parses);
    assert requests[..|requests|] == requests;
    if s.parses(d.handle) {
      OutcomesComplete(s.ledger, requests);
      var e :| e in Outcomes(StageAll(s.ledger, requests)) && e.handle == d.handle;
      assert e in FullAck(s, ds);
    } else {
      assert AckEntry(d.handle, Invalid) in FullAck(s, ds);
    }
  }

  /** Settled: its entry is there and waits no longer. */
  ghost predicate SettledIn(regs: seq<Registration>, handle: Handle) {
    exists i :: 0 <= i < |regs| && regs[i].handle == handle && regs[i].status != Pending
  }

  lemma AckUnique(regs: seq<Registration>, entries: seq<AckEntry>)
    requires UniqueHandles(regs)
    ensures UniqueHandles(Ack(regs, entries))
  {
    AckHandlesSame(regs, entries);
  }

  lemma {:induction false} AckSettlesAll(regs: seq<Registration>, entries: seq<AckEntry>, e: AckEntry)
    requires UniqueHandles(regs) && e in entries && Registered(regs, e.handle)
    ensures SettledIn(Ack(regs, entries), e.handle)
  {
    var n := |entries| - 1;
    AckHandlesSame(regs, entries);
    AckHandlesSame(regs, entries[..n]);
    var before := Ack(regs, entries[..n]);
    var at :| 0 <= at < |regs| && regs[at].handle == e.handle;
    AckUnique(regs, entries[..n]);
    AckSettles(before, entries[n], at);
    if entries[n].handle != e.handle {
      assert entries == entries[..n] + [entries[n]];
      AckSettlesAll(regs, entries[..n], e);
      var i :| 0 <= i < |before| && before[i].handle == e.handle && before[i].status != Pending;
      AckSettles(before, entries[n], i);
      assert Ack(regs, entries)[i].status != Pending;
    } else {
      assert Ack(regs, entries)[at].status != Pending;
    }
  }

  /** A settled handle is not offered any more, to no one. */
  lemma SettledNotOffered(regs: seq<Registration>, handle: Handle, space: Option<string>)
    requires UniqueHandles(regs) && SettledIn(regs, handle)
    ensures forall d :: d in PendingFor(regs, space) ==> d.handle != handle
  {
    var i :| 0 <= i < |regs| && regs[i].handle == handle && regs[i].status != Pending;
    forall r | r in regs && r.handle == handle ensures r == regs[i] {
      var j :| 0 <= j < |regs| && regs[j] == r;
    }
  }

  lemma {:induction false} RegisteredStays(h: Hasher, s: System, actions: seq<Action>, handle: Handle)
    requires UniqueHandles(s.registry) && Registered(s.registry, handle)
    ensures UniqueHandles(Run(h, s, actions).registry) && Registered(Run(h, s, actions).registry, handle)
    ensures SettledIn(s.registry, handle) ==> SettledIn(Run(h, s, actions).registry, handle)
    ensures s.acks <= Run(h, s, actions).acks && s.pulled <= Run(h, s, actions).pulled
    ensures Run(h, s, actions).space == s.space && Run(h, s, actions).parses == s.parses
  {
    if actions != [] {
      var t, a := Run(h, s, actions[..|actions| - 1]), actions[|actions| - 1];
      RegisteredStays(h, s, actions[..|actions| - 1], handle);
      RegisteredStep(h, t, a, handle);
    }
  }

  lemma RegisteredStep(h: Hasher, s: System, a: Action, handle: Handle)
    requires UniqueHandles(s.registry) && Registered(s.registry, handle)
    ensures var t := Apply(h, s, a);
      && UniqueHandles(t.registry) && Registered(t.registry, handle)
      && (SettledIn(s.registry, handle) ==> SettledIn(t.registry, handle))
      && s.acks <= t.acks && s.pulled <= t.pulled && t.space == s.space && t.parses == s.parses
  {
    var t := Apply(h, s, a);
    var i :| 0 <= i < |s.registry| && s.registry[i].handle == handle && (SettledIn(s.registry, handle) ==> s.registry[i].status != Pending);
    if a.AckArrives? && a.entries in s.acks {
      AckHandlesSame(s.registry, a.entries);
      if SettledIn(s.registry, handle) {
        AckSettled(s.registry, a.entries, i);
      }
    }
    assert i < |t.registry| && t.registry[i].handle == handle;
    assert SettledIn(s.registry, handle) ==> t.registry[i].status != Pending;
  }

  /**
   Redelivery heals whatever was lost before. A handle that is pending when the operator pulls is settled for good once
   that batch was staged to its end and the ack of that arrived, however late each of these comes and whatever happens
   in between, and from then on it is offered to no one.
   */
  lemma PullStageAckSettles(h: Hasher, s: System, handle: Handle, spk: Spk, mid: seq<Action>, upto: nat, later: seq<Action>, more: seq<Action>)
    requires Sane(s) && handle.space == s.space
    requires Registration(handle, spk, Pending) in s.registry
    requires upto >= |OfSpace(PendingFor(s.registry, Some(s.space)), s.space, s.parses)|
    ensures var ds := PendingFor(s.registry, Some(s.space));
      var pulled := Run(h, Apply(h, s, Pull), mid);
      var staged := Run(h, Apply(h, pulled, StagePulled(ds, upto)), later);
      var t := Run(h, Apply(h, staged, AckArrives(FullAck(pulled, ds))), more);
      && SettledIn(t.registry, handle)
      && forall space :: forall d :: d in PendingFor(t.registry, space) ==> d.handle != handle
  {
    var ds := PendingFor(s.registry, Some(s.space));
    var offered := Apply(h, s, Pull);
    assert Delivery(handle, spk) in ds;
    assert Registered(s.registry, handle) by {
      var i :| 0 <= i < |s.registry| && s.registry[i] == Registration(handle, spk, Pending);
    }
    RegisteredStays(h, offered, mid, handle);
    var pulled := Run(h, offered, mid);
    AckAnswers(h, pulled, ds, upto, Delivery(handle, spk));
    RegisteredStep(h, pulled, StagePulled(ds, upto), handle);
    var answered := Apply(h, pulled, StagePulled(ds, upto));
    RegisteredStays(h, answered, later, handle);
    AckArrivesSettles(h, Run(h, answered, later), FullAck(pulled, ds), handle, more);
  }

  lemma AckArrivesSettles(h: Hasher, s: System, entries: seq<AckEntry>, handle: Handle, more: seq<Action>)
    requires UniqueHandles(s.registry) && Registered(s.registry, handle) && entries in s.acks
    requires exists e :: e in entries && e.handle == handle
    ensures var t := Run(h, Apply(h, s, AckArrives(entries)), more);
      SettledIn(t.registry, handle) && forall space :: forall d :: d in PendingFor(t.registry, space) ==> d.handle != handle
  {
    var e :| e in entries && e.handle == handle;
    AckSettlesAll(s.registry, entries, e);
    RegisteredStep(h, s, AckArrives(entries), handle);
    RegisteredStays(h, Apply(h, s, AckArrives(entries)), more, handle);
    var t := Run(h, Apply(h, s, AckArrives(entries)), more);
    forall space ensures forall d :: d in PendingFor(t.registry, space) ==> d.handle != handle {
      SettledNotOffered(t.registry, handle, space);
    }
  }

  // What the registry counts

  function PendingCount(regs: seq<Registration>): nat {
    if regs == [] then 0
    else PendingCount(regs[..|regs| - 1]) + if regs[|regs| - 1].status == Pending then 1 else 0
  }

  lemma {:induction false} OneSettled(regs: seq<Registration>, i: nat, status: RegStatus)
    requires i < |regs| && regs[i].status == Pending && status != Pending
    ensures PendingCount(regs[i := regs[i].(status := status)]) + 1 == PendingCount(regs)
  {
    var n := |regs| - 1;
    var s := regs[i := regs[i].(status := status)];
    if i < n {
      assert s[..n] == regs[..n][i := regs[..n][i].(status := status)];
      OneSettled(regs[..n], i, status);
    } else {
      assert s[..n] == regs[..n];
    }
  }

  /** The number answered to an ack is the number of registrations that waited before it and do not after it. */
  lemma {:induction false} AckCountIs(regs: seq<Registration>, entries: seq<AckEntry>)
    ensures AckCount(regs, entries) + PendingCount(Ack(regs, entries)) == PendingCount(regs)
  {
    if entries != [] {
      var n := |entries| - 1;
      AckCountIs(regs, entries[..n]);
      var before := Ack(regs, entries[..n]);
      var at := Index(before, entries[n].handle);
      if at.Some? && before[at.value].status == Pending {
        OneSettled(before, at.value, entries[n].outcome.Settles());
      }
    }
  }
}
