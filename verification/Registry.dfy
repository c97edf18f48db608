/**
 The registry's work queue: registrations wait as pending until the operator
 reports an outcome for them.
 */
module Registry {
  import opened Wrappers
  import opened Tables
  import opened Ledgers

  /** name@space */
  datatype Handle = Handle(name: Name, space: string)

  datatype RegStatus = Pending | Staged | Committed | Rejected

  datatype Registration = Registration(handle: Handle, spk: Spk, status: RegStatus)

  datatype Delivery = Delivery(handle: Handle, spk: Spk)

  /** What subs reports. Every one of them settles the handle. */
  datatype Outcome =
    | StagedNow | AlreadyStagedSameSpk | AlreadyCommittedSameSpk
    | AlreadyStagedOtherSpk | AlreadyCommittedOtherSpk | Invalid | Unrecognised
  {
    function Settles(): RegStatus {
      match this
      case StagedNow | AlreadyStagedSameSpk => RegStatus.Staged
      case AlreadyCommittedSameSpk => RegStatus.Committed
      case _ => Rejected
    }
  }

  function OutcomeOf(skip: Option<SkipReason>): Outcome {
    match skip
    case None => StagedNow
    case Some(AlreadyStaged) => AlreadyStagedSameSpk
    case Some(AlreadyCommitted) => AlreadyCommittedSameSpk
    case Some(StagedDifferentSpk) => AlreadyStagedOtherSpk
    case Some(CommittedDifferentSpk) => AlreadyCommittedOtherSpk
  }

  datatype AckEntry = AckEntry(handle: Handle, outcome: Outcome)

  predicate Registered(regs: seq<Registration>, handle: Handle) {
    exists i :: 0 <= i < |regs| && regs[i].handle == handle
  }

  function Register(regs: seq<Registration>, handle: Handle, spk: Spk): seq<Registration> {
    if Registered(regs, handle) then regs else regs + [Registration(handle, spk, Pending)]
  }

  predicate Wanted(r: Registration, space: Option<string>) {
    r.status == Pending && (space.Some? ==> r.handle.space == space.value)
  }

  function PendingFor(regs: seq<Registration>, space: Option<string>): (ds: seq<Delivery>)
    ensures forall d :: d in ds <==> exists r :: r in regs && Wanted(r, space) && d == Delivery(r.handle, r.spk)
  {
    if regs == [] then []
    else
      var n := |regs| - 1;
      var rest := PendingFor(regs[..n], space);
      assert regs == regs[..n] + [regs[n]];
      if Wanted(regs[n], space) then rest + [Delivery(regs[n].handle, regs[n].spk)] else rest
  }

  /** The first registration of a handle. */
  function Index(regs: seq<Registration>, handle: Handle): (r: Option<nat>)
    ensures r.Some? ==> r.value < |regs| && regs[r.value].handle == handle && !Registered(regs[..r.value], handle)
    ensures r.None? ==> !Registered(regs, handle)
  {
    if regs == [] then None
    else
      var n := |regs| - 1;
      match Index(regs[..n], handle)
      case Some(i) => assert regs[..n][..i] == regs[..i]; Some(i)
      case None => if regs[n].handle == handle then Some(n) else None
  }

  function AckOne(regs: seq<Registration>, e: AckEntry): seq<Registration> {
    match Index(regs, e.handle)
    case None => regs
    case Some(i) => if regs[i].status == Pending then regs[i := regs[i].(status := e.outcome.Settles())] else regs
  }

  function Ack(regs: seq<Registration>, entries: seq<AckEntry>): seq<Registration> {
    if entries == [] then regs
    else AckOne(Ack(regs, entries[..|entries| - 1]), entries[|entries| - 1])
  }

  /** How many entries of an ack body settle a pending registration. */
  function AckCount(regs: seq<Registration>, entries: seq<AckEntry>): nat {
    if entries == [] then 0
    else
      var n := |entries| - 1;
      var at := Index(Ack(regs, entries[..n]), entries[n].handle);
      AckCount(regs, entries[..n]) + if at.Some? && Ack(regs, entries[..n])[at.value].status == Pending then 1 else 0
  }

  class RegistryServer {
    var registrations: seq<Registration>

    constructor ()
      ensures registrations == []
    {
      registrations := [];
    }

    /** POST /register; false answers "already registered". */
    method RegisterHandle(handle: Handle, spk: Spk) returns (ok: bool)
      modifies this
      ensures registrations == Register(old(registrations), handle, spk)
      ensures registrations == old(registrations) + if ok then [Registration(handle, spk, Pending)] else []
      ensures ok <==> !Registered(old(registrations), handle)
    {
      ok := true;
      for i := 0 to |registrations|
        invariant ok <==> !Registered(registrations[..i], handle)
        invariant registrations == old(registrations)
      {
        assert registrations[..i + 1] == registrations[..i] + [registrations[i]];
        if registrations[i].handle == handle {
          ok := false;
        }
        assert Registered(registrations[..i], handle) ==> Registered(registrations[..i + 1], handle) by {
          if Registered(registrations[..i], handle) {
            var j :| 0 <= j < i && registrations[..i][j].handle == handle;
            assert registrations[..i + 1][j].handle == handle;
          }
        }
        assert registrations[i].handle == handle ==> registrations[..i + 1][i].handle == handle;
      }
      assert registrations[..|registrations|] == registrations;
      if ok {
        registrations := registrations + [Registration(handle, spk, Pending)];
      }
    }

    /** GET /pending */
    method GetPendingHandles(space: Option<string>) returns (pending: seq<Delivery>)
      ensures pending == PendingFor(registrations, space)
    {
      pending := [];
      for i := 0 to |registrations|
        invariant pending == PendingFor(registrations[..i], space)
      {
        assert registrations[..i + 1][..i] == registrations[..i];
        if Wanted(registrations[i], space) {
          pending := pending + [Delivery(registrations[i].handle, registrations[i].spk)];
        }
      }
      assert registrations[..|registrations|] == registrations;
    }

    /** POST /ack */
    method AckHandles(entries: seq<AckEntry>) returns (count: nat)
      modifies this
      ensures registrations == Ack(old(registrations), entries)
      ensures count == AckCount(old(registrations), entries)
    {
      count := 0;
      for i := 0 to |entries|
        invariant registrations == Ack(old(registrations), entries[..i])
        invariant count == AckCount(old(registrations), entries[..i])
      {
        assert entries[..i + 1][..i] == entries[..i];
        var at := Index(registrations, entries[i].handle);
        if at.Some? && registrations[at.value].status == Pending {
          registrations := registrations[at.value := registrations[at.value].(status := entries[i].outcome.Settles())];
          count := count + 1;
        }
      }
      assert entries[..|entries|] == entries;
    }
  }
}
