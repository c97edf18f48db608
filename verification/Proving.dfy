/**
 The proving chain of one space. Every commitment after the first needs a step
 receipt, and from index 2 on an aggregate that folds all steps so far into one.
 */
module Proving {
  import opened Wrappers
  import opened Tables
  import opened ZkBatch
  import opened Ledgers
  import opened LedgerProofs

  datatype Request =
    | StepRequest(id: nat, idx: nat, prevRoot: Option<Root>, root: Root, exclusion: Tree, zkBatch: seq<Byte>)
    | FoldRequest(id: nat, idx: nat, prevRoot: Option<Root>, root: Root, acc: Receipt, step: Receipt)

  /**
   What an honest prover makes of a request. A step is proven by running the guest on the tree that the exclusion
   proof is against and on the batch; the receipt names the two roots that come out. Folding needs adjacent receipts.
   */
  ghost function Prove(h: Hasher, req: Request): Option<Receipt> {
    match req
    case StepRequest(_, _, _, root, exclusion, zkBatch) =>
      if GuestGives(h, exclusion, zkBatch, root.tree) then Some(Receipt(Step, RootOf(exclusion), root)) else None
    case FoldRequest(_, _, _, _, acc, step) =>
      if acc.to == step.from then Some(Receipt(Fold, acc.from, step.to)) else None
  }

  function Lookup(receipts: seq<Receipt>, id: nat): Option<Receipt> {
    if id < |receipts| then Some(receipts[id]) else None
  }

  // The next request

  function FirstWithoutStep(commits: seq<Commitment>, i: nat): (r: Option<nat>)
    ensures r.Some? ==> i <= r.value < |commits| && commits[r.value].step.None?
    ensures r.Some? ==> forall j :: i <= j < r.value ==> commits[j].step.Some?
    ensures r.None? ==> forall j :: i <= j < |commits| ==> commits[j].step.Some?
    decreases |commits| - i
  {
    if i >= |commits| then None
    else if commits[i].step.None? then Some(i)
    else FirstWithoutStep(commits, i + 1)
  }

  function StepRequestFor(c: Commitment): Result<Option<Request>, Error> {
    if c.exclusion.None? then Err(MissingExclusion)
    else Ok(Some(StepRequest(c.id, c.idx, c.prevRoot, c.root, c.exclusion.value, c.zkBatch)))
  }

  /** Walk the commitments from i, carrying the receipt that covers everything before i. */
  function NextFold(l: Ledger, i: nat, acc: Option<Receipt>): Result<Option<Request>, Error>
    decreases |l.commits| - i
  {
    if i >= |l.commits| then Ok(None)
    else
      var c := l.commits[i];
      if c.step.None? then NextFold(l, i + 1, acc)
      else
        match Lookup(l.receipts, c.step.value)
        case None => Err(MissingReceipt)
        case Some(step) =>
          if acc.None? then NextFold(l, i + 1, Some(step))
          else if c.aggregate.Some? then
            match Lookup(l.receipts, c.aggregate.value)
            case None => Err(MissingReceipt)
            case Some(aggregate) => NextFold(l, i + 1, Some(aggregate))
          else Ok(Some(FoldRequest(c.id, c.idx, c.prevRoot, c.root, acc.value, step)))
  }

  function NextRequest(l: Ledger): Result<Option<Request>, Error> {
    if |l.commits| < 2 then Ok(None)
    else
      match FirstWithoutStep(l.commits, 1)
      case Some(i) => StepRequestFor(l.commits[i])
      case None => NextFold(l, 1, None)
  }

  // What is still to be proven

  function PendingFor(c: Commitment): nat {
    (if c.step.None? then 1 else 0) + (if c.idx >= 2 && c.aggregate.None? then 1 else 0)
  }

  function PendingUpTo(commits: seq<Commitment>, n: nat): nat
    requires n <= |commits|
  {
    if n <= 1 then 0 else PendingUpTo(commits, n - 1) + PendingFor(commits[n - 1])
  }

  function CountPending(commits: seq<Commitment>): nat {
    PendingUpTo(commits, |commits|)
  }

  // What the receipts certify

  /** The receipts of commitment i say what they should, and an aggregate comes after everything it folds. */
  ghost predicate Certified(l: Ledger, i: nat)
    requires |l.snaps| == |l.commits| && i < |l.commits|
  {
    var c := l.commits[i];
    && (c.step.Some? ==>
          i >= 1 && Lookup(l.receipts, c.step.value) == Some(Receipt(Step, RootOf(l.snaps[i - 1]), RootOf(l.snaps[i]))))
    && (c.aggregate.Some? ==>
          && i >= 2
          && Lookup(l.receipts, c.aggregate.value) == Some(Receipt(Fold, RootOf(l.snaps[0]), RootOf(l.snaps[i])))
          && FoldReady(l.commits, i))
  }

  /** Every step up to i, and every aggregate before i, is there. */
  ghost predicate FoldReady(commits: seq<Commitment>, i: nat)
    requires i < |commits|
  {
    && (forall j :: 1 <= j <= i ==> commits[j].step.Some?)
    && (forall j :: 2 <= j < i ==> commits[j].aggregate.Some?)
  }

  ghost predicate Proven(l: Ledger) {
    && |l.snaps| == |l.commits|
    && forall i {:trigger Certified(l, i)} :: 0 <= i < |l.commits| ==> Certified(l, i)
  }

  /** A request asks for what its commitment needs, if that commitment is still there. */
  ghost predicate Sound(l: Ledger, req: Request)
    requires |l.snaps| == |l.commits|
  {
    && req.id < l.nextId
    && forall i :: 0 <= i < |l.commits| && l.commits[i].id == req.id ==> SoundAt(l, req, i)
  }

  ghost predicate SoundAt(l: Ledger, req: Request, i: nat)
    requires |l.snaps| == |l.commits| && i < |l.commits|
  {
    match req
    case StepRequest(_, _, prevRoot, root, exclusion, zkBatch) =>
      && i >= 1 && prevRoot == Some(RootOf(l.snaps[i - 1])) && root == RootOf(l.snaps[i])
      && exclusion == l.snaps[i - 1] && zkBatch == l.commits[i].zkBatch
    case FoldRequest(_, _, prevRoot, root, acc, step) =>
      && i >= 2
      && prevRoot == Some(RootOf(l.snaps[i - 1])) && root == RootOf(l.snaps[i])
      && acc.from == RootOf(l.snaps[0]) && acc.to == RootOf(l.snaps[i - 1])
      && step.from == RootOf(l.snaps[i - 1]) && step.to == RootOf(l.snaps[i])
      && FoldReady(l.commits, i)
  }

  // The next request is sound, and there is one exactly while something is pending

  lemma {:induction false} PendingZero(commits: seq<Commitment>, n: nat)
    requires n <= |commits|
    ensures PendingUpTo(commits, n) == 0 <==> forall i :: 1 <= i < n ==> PendingFor(commits[i]) == 0
  {
    if n > 1 {
      PendingZero(commits, n - 1);
    }
  }

  /** With all steps there, the walk stops at the first index from 2 on without an aggregate. */
  lemma {:induction false} NextFoldIs(l: Ledger, i: nat, acc: Receipt)
    requires Chain(l) && Proven(l) && 2 <= i <= |l.commits|
    requires forall j :: 1 <= j < |l.commits| ==> l.commits[j].step.Some?
    requires forall j :: 2 <= j < i ==> l.commits[j].aggregate.Some?
    requires acc.from == RootOf(l.snaps[0]) && acc.to == RootOf(l.snaps[i - 1])
    ensures NextFold(l, i, Some(acc)).Ok?
    ensures NextFold(l, i, Some(acc)).value.None? ==> forall j :: 2 <= j < |l.commits| ==> l.commits[j].aggregate.Some?
    ensures NextFold(l, i, Some(acc)).value.Some? ==>
      var req := NextFold(l, i, Some(acc)).value.value;
      && req.FoldRequest? && i <= req.idx < |l.commits| && l.commits[req.idx].id == req.id
      && l.commits[req.idx].aggregate.None? && SoundAt(l, req, req.idx)
    decreases |l.commits| - i
  {
    if i < |l.commits| {
      assert Certified(l, i) && Follows(l.snaps, l.commits, i);
      if l.commits[i].aggregate.Some? {
        NextFoldIs(l, i + 1, Lookup(l.receipts, l.commits[i].aggregate.value).value);
      }
    }
  }

  lemma NextStepIs(l: Ledger)
    requires Chain(l) && Proven(l) && |l.commits| >= 2 && FirstWithoutStep(l.commits, 1).Some?
    ensures NextRequest(l).Ok? && NextRequest(l).value.Some?
    ensures var req := NextRequest(l).value.value;
      && req.StepRequest? && 1 <= req.idx < |l.commits| && l.commits[req.idx].id == req.id
      && l.commits[req.idx].step.None? && SoundAt(l, req, req.idx)
  {
    var i := FirstWithoutStep(l.commits, 1).value;
    assert Follows(l.snaps, l.commits, i);
  }

  /** The request goes to a commitment that lacks just this receipt, and asks for the right thing. */
  lemma NextRequestIs(l: Ledger)
    requires Chain(l) && Proven(l)
    ensures NextRequest(l).Ok?
    ensures NextRequest(l).value.Some? ==>
      var req := NextRequest(l).value.value;
      && req.idx < |l.commits| && l.commits[req.idx].id == req.id && SoundAt(l, req, req.idx)
      && (if req.FoldRequest? then FoldReady(l.commits, req.idx) && l.commits[req.idx].aggregate.None? else l.commits[req.idx].step.None?)
      && (if req.FoldRequest? then forall j :: 1 <= j < |l.commits| ==> l.commits[j].step.Some?
          else forall j :: 1 <= j < req.idx ==> l.commits[j].step.Some?)
    ensures NextRequest(l).value.None? ==>
      && (forall j :: 1 <= j < |l.commits| ==> l.commits[j].step.Some?)
      && (forall j :: 2 <= j < |l.commits| ==> l.commits[j].aggregate.Some?)
  {
    if |l.commits| >= 2 {
      if FirstWithoutStep(l.commits, 1).Some? {
        NextStepIs(l);
      } else {
        assert Certified(l, 1);
        NextFoldIs(l, 2, Lookup(l.receipts, l.commits[1].step.value).value);
      }
    }
  }

  lemma IssuedIsSound(l: Ledger)
    requires Chain(l) && Proven(l) && NextRequest(l).Ok? && NextRequest(l).value.Some?
    ensures Sound(l, NextRequest(l).value.value)
  {
    NextRequestIs(l);
    var req := NextRequest(l).value.value;
    forall i | 0 <= i < |l.commits| && l.commits[i].id == req.id ensures SoundAt(l, req, i) {
      assert i == req.idx;
    }
  }

  /** There is a next request exactly while proofs are pending. */
  lemma NoRequestIffNonePending(l: Ledger)
    requires Chain(l) && Proven(l)
    ensures NextRequest(l).Ok? && (NextRequest(l).value.None? <==> CountPending(l.commits) == 0)
  {
    NextRequestIs(l);
    PendingZero(l.commits, |l.commits|);
    if NextRequest(l).value.Some? {
      var req := NextRequest(l).value.value;
      assert PendingFor(l.commits[req.idx]) > 0;
    }
  }

  // Saving a receipt

  lemma {:induction false} PendingDrops(a: seq<Commitment>, b: seq<Commitment>, at: nat, n: nat)
    requires |a| == |b| && n <= |a| && 1 <= at < |a|
    requires forall i :: 0 <= i < |a| && i != at ==> b[i] == a[i]
    requires PendingFor(b[at]) + 1 == PendingFor(a[at])
    ensures PendingUpTo(b, n) + (if at < n then 1 else 0) == PendingUpTo(a, n)
  {
    if n > 1 {
      PendingDrops(a, b, at, n - 1);
    }
  }

  /** No two labels of the space share a hash. */
  ghost predicate Distinct(h: Hasher, l: Ledger) {
    NoCollision(h, Newest(l.snaps).Keys)
  }

  lemma DistinctAt(h: Hasher, l: Ledger, i: nat)
    requires Chain(l) && Distinct(h, l) && i < |l.snaps|
    ensures NoCollision(h, l.snaps[i].Keys)
  {
    SnapsGrow(l.snaps, i + 1, |l.snaps|);
  }

  /** A request whose commitment is still there can be proven: its witness makes the guest end in the right root. */
  lemma SoundIsProvable(h: Hasher, l: Ledger, req: Request, i: nat)
    requires Chain(l) && AllStored(h, l) && Distinct(h, l)
    requires i < |l.commits| && SoundAt(l, req, i)
    ensures Prove(h, req).Some?
    ensures var receipt := Prove(h, req).value;
      && receipt.program == (if req.FoldRequest? then Fold else Step)
      && receipt.from == RootOf(l.snaps[if req.FoldRequest? then 0 else i - 1]) && receipt.to == RootOf(l.snaps[i])
  {
    if req.StepRequest? {
      DistinctAt(h, l, i);
      StoredGives(h, l, i);
    }
  }

  /** Answering the next request is never refused and lowers the count of pending proofs by exactly one. */
  lemma FulfilLowersPending(h: Hasher, l: Ledger)
    requires Chain(l) && Proven(l) && AllStored(h, l) && Distinct(h, l)
    requires NextRequest(l).Ok? && NextRequest(l).value.Some?
    ensures var req := NextRequest(l).value.value;
      && Prove(h, req).Some?
      && SaveReceipt(l, req.id, req.FoldRequest?, Prove(h, req).value).Ok?
      && CountPending(SaveReceipt(l, req.id, req.FoldRequest?, Prove(h, req).value).value.commits) + 1 == CountPending(l.commits)
  {
    NextRequestIs(l);
    var req := NextRequest(l).value.value;
    SoundIsProvable(h, l, req, req.idx);
    AnswerLowersPending(l, req, Prove(h, req).value);
  }

  lemma AnswerLowersPending(l: Ledger, req: Request, receipt: Receipt)
    requires Chain(l) && req.idx < |l.commits| && l.commits[req.idx].id == req.id && SoundAt(l, req, req.idx)
    requires if req.FoldRequest? then l.commits[req.idx].aggregate.None? else l.commits[req.idx].step.None?
    requires receipt.program == if req.FoldRequest? then Fold else Step
    ensures SaveReceipt(l, req.id, req.FoldRequest?, receipt).Ok?
    ensures CountPending(SaveReceipt(l, req.id, req.FoldRequest?, receipt).value.commits) + 1 == CountPending(l.commits)
  {
    var m := SaveReceipt(l, req.id, req.FoldRequest?, receipt).value;
    assert forall i :: 0 <= i < |l.commits| && i != req.idx ==> l.commits[i].id != req.id;
    PendingDrops(l.commits, m.commits, req.idx, |l.commits|);
  }

  /** Run the proving loop for as long as there is a request: the ledger when `n` answers have been saved. */
  ghost function FulfilAll(h: Hasher, l: Ledger, n: nat): Ledger
    decreases n
  {
    if n == 0 then l
    else
      match NextRequest(l)
      case Ok(Some(req)) =>
        (match Prove(h, req)
         case Some(receipt) =>
           (match SaveReceipt(l, req.id, req.FoldRequest?, receipt)
            case Ok(m) => FulfilAll(h, m, n - 1)
            case Err(_) => l)
         case None => l)
      case _ => l
  }

  lemma SaveKeepsCertified(h: Hasher, l: Ledger, m: Ledger, req: Request, receipt: Receipt, i: nat)
    requires Chain(l) && |m.snaps| == |m.commits| && i < |l.commits|
    requires Certified(l, i) && Sound(l, req) && Prove(h, req) == Some(receipt)
    requires SaveReceipt(l, req.id, req.FoldRequest?, receipt) == Ok(m)
    ensures Certified(m, i)
  {
    var c, d := l.commits[i], m.commits[i];
    assert d.step == (if c.id == req.id && req.StepRequest? then Some(|l.receipts|) else c.step);
    assert d.aggregate == (if c.id == req.id && req.FoldRequest? then Some(|l.receipts|) else c.aggregate);
    if c.id == req.id {
      assert SoundAt(l, req, i);
    }
    if d.aggregate.Some? {
      assert FoldReady(l.commits, i);
      assert FoldReady(m.commits, i);
    }
  }

  lemma SaveKeepsProven(h: Hasher, l: Ledger, req: Request, receipt: Receipt)
    requires Chain(l) && Proven(l) && Sound(l, req) && Prove(h, req) == Some(receipt)
    ensures SaveReceipt(l, req.id, req.FoldRequest?, receipt).Ok?
    ensures Proven(SaveReceipt(l, req.id, req.FoldRequest?, receipt).value)
  {
    var m := SaveReceipt(l, req.id, req.FoldRequest?, receipt).value;
    forall i | 0 <= i < |m.commits| ensures Certified(m, i) {
      assert Certified(l, i);
      SaveKeepsCertified(h, l, m, req, receipt, i);
    }
  }

  lemma SaveKeepsStored(h: Hasher, l: Ledger, id: nat, isFold: bool, receipt: Receipt)
    requires AllStored(h, l) && SaveReceipt(l, id, isFold, receipt).Ok?
    ensures AllStored(h, SaveReceipt(l, id, isFold, receipt).value)
  {
    var m := SaveReceipt(l, id, isFold, receipt).value;
    forall i | 0 <= i < |m.commits| ensures Stored(h, m.snaps, m.commits, i) {
      assert Stored(h, l.snaps, l.commits, i);
      var batch :| StoredBatch(h, l.snaps, l.commits, i, batch);
      assert StoredBatch(h, m.snaps, m.commits, i, batch);
    }
  }

  /** One answer saved: the chain and its receipts are still right, and one proof fewer is pending. */
  lemma FulfilOne(h: Hasher, l: Ledger, n: nat) returns (m: Ledger)
    requires Chain(l) && Proven(l) && AllStored(h, l) && Distinct(h, l) && CountPending(l.commits) > 0
    ensures Chain(m) && Proven(m) && AllStored(h, m) && Distinct(h, m) && CountPending(m.commits) + 1 == CountPending(l.commits)
    ensures n > 0 ==> FulfilAll(h, l, n) == FulfilAll(h, m, n - 1)
  {
    NoRequestIffNonePending(l);
    IssuedIsSound(l);
    FulfilLowersPending(h, l);
    var req := NextRequest(l).value.value;
    m := SaveReceipt(l, req.id, req.FoldRequest?, Prove(h, req).value).value;
    SaveKeepsProven(h, l, req, Prove(h, req).value);
    SaveKeepsStored(h, l, req.id, req.FoldRequest?, Prove(h, req).value);
    SameChain(l, m);
  }

  /** Every answer counts: n answers lower the pending proofs by n, down to none. */
  lemma {:induction false} LoopEnds(h: Hasher, l: Ledger, n: nat)
    requires Chain(l) && Proven(l) && AllStored(h, l) && Distinct(h, l) && n <= CountPending(l.commits)
    ensures CountPending(FulfilAll(h, l, n).commits) == CountPending(l.commits) - n
    decreases n
  {
    if n > 0 {
      var m := FulfilOne(h, l, n);
      LoopEnds(h, m, n - 1);
    }
  }

  // A crash between the two writes of a saved receipt

  lemma {:induction false} NextFoldIgnoresNew(l: Ledger, receipt: Receipt, i: nat, acc: Option<Receipt>)
    requires Proven(l)
    ensures NextFold(l.(receipts := l.receipts + [receipt]), i, acc) == NextFold(l, i, acc)
    decreases |l.commits| - i
  {
    if i < |l.commits| {
      assert Certified(l, i);
      var m, c := l.(receipts := l.receipts + [receipt]), l.commits[i];
      if c.step.Some? {
        var step := Lookup(l.receipts, c.step.value);
        assert Lookup(m.receipts, c.step.value) == step;
        NextFoldIgnoresNew(l, receipt, i + 1, step);
        if c.aggregate.Some? {
          NextFoldIgnoresNew(l, receipt, i + 1, Lookup(l.receipts, c.aggregate.value));
        }
      } else {
        NextFoldIgnoresNew(l, receipt, i + 1, acc);
      }
    }
  }

  /** Stopped after the receipt was stored and before the row refers to it: the same request comes again, nothing else changed. */
  lemma CrashInSave(l: Ledger, id: nat, isFold: bool, receipt: Receipt)
    requires Chain(l) && Proven(l) && SaveReceipt(l, id, isFold, receipt).Ok?
    ensures |SaveTrace(l, id, isFold, receipt)| == 2
    ensures var m := After(l, SaveTrace(l, id, isFold, receipt), 1);
      && Chain(m) && Proven(m)
      && m.commits == l.commits
      && NextRequest(m) == NextRequest(l)
  {
    var m := l.(receipts := l.receipts + [receipt]);
    SameChain(l, m);
    forall i | 0 <= i < |m.commits| ensures Certified(m, i) {
      assert Certified(l, i);
    }
    NextFoldIgnoresNew(l, receipt, 1, None);
  }

  // Later ledgers

  /**
   Whatever commitment row is still there is the same commitment, with no receipt lost. A row that was
   not there has an id that was not handed out.
   */
  ghost predicate Later(l: Ledger, m: Ledger) {
    && l.nextId <= m.nextId
    && l.receipts <= m.receipts
    && |l.snaps| == |l.commits| && |m.snaps| == |m.commits|
    && forall i :: 0 <= i < |m.commits| && m.commits[i].id < l.nextId ==>
         && i < |l.commits|
         && m.snaps[i] == l.snaps[i]
         && SameCommitment(m.commits[i], l.commits[i])
         && (l.commits[i].step.Some? ==> m.commits[i].step.Some?)
         && (l.commits[i].aggregate.Some? ==> m.commits[i].aggregate.Some?)
  }

  /** Because row ids are never reused, a request stays sound whatever is rolled back and committed again. */
  lemma SoundLater(l: Ledger, m: Ledger, req: Request)
    requires Chain(m) && Later(l, m) && Sound(l, req)
    ensures Sound(m, req)
  {
    forall i | 0 <= i < |m.commits| && m.commits[i].id == req.id ensures SoundAt(m, req, i) {
      assert forall j :: 0 <= j < i ==> m.commits[j].id < m.commits[i].id;
      assert SoundAt(l, req, i);
    }
  }

  // The receipt of an on-chain tip

  /** SELECT ... WHERE root = ? */
  function ByRoot(commits: seq<Commitment>, root: Root): (r: Option<Commitment>)
    ensures r.Some? ==> r.value in commits && r.value.root == root
    ensures r.None? ==> forall c :: c in commits ==> c.root != root
  {
    if commits == [] then None
    else if commits[0].root == root then Some(commits[0])
    else ByRoot(commits[1..], root)
  }

  /** The receipt that goes into the root certificate: none at genesis, the step at index 1, the aggregate from 2 on. */
  function GetReceipt(l: Ledger, tip: Option<Root>): Result<Option<Receipt>, Error> {
    if tip.None? then Ok(None)
    else
      match ByRoot(l.commits, tip.value)
      case None => Err(NoSuchCommitment)
      case Some(c) =>
        if c.idx == 0 then Ok(None)
        else
          var id := if c.idx <= 1 then c.step else c.aggregate;
          if id.None? || Lookup(l.receipts, id.value).None? then Err(MissingReceipt)
          else Ok(Lookup(l.receipts, id.value))
  }

  lemma ByRootIs(l: Ledger, k: nat)
    requires Chain(l) && k < |l.commits|
    ensures ByRoot(l.commits, RootOf(l.snaps[k])) == Some(l.commits[k])
  {
    assert l.commits[k].root == RootOf(l.snaps[k]);
    var c := ByRoot(l.commits, RootOf(l.snaps[k])).value;
    var i :| 0 <= i < |l.commits| && l.commits[i] == c;
    if i < k {
      RootsDiffer(l.snaps, i + 1, k + 1);
    } else if k < i {
      RootsDiffer(l.snaps, k + 1, i + 1);
    }
  }

  /** Whatever receipt accompanies a tip certifies the whole way from the genesis root to that tip. */
  lemma TipReceiptSpans(l: Ledger, k: nat)
    requires Chain(l) && Proven(l) && k < |l.commits|
    ensures var r := GetReceipt(l, Some(RootOf(l.snaps[k])));
      && (k == 0 ==> r == Ok(None))
      && (k > 0 && r.Ok? ==> r.value.Some? && r.value.value.from == RootOf(l.snaps[0]) && r.value.value.to == RootOf(l.snaps[k]))
      && (k > 0 ==> (r.Ok? <==> if k == 1 then l.commits[k].step.Some? else l.commits[k].aggregate.Some?))
      && (k > 0 && r.Err? ==> r.error == MissingReceipt)
    ensures GetReceipt(l, None) == Ok(None)
    ensures forall root :: (forall i :: 0 <= i < |l.snaps| ==> RootOf(l.snaps[i]) != root) ==> GetReceipt(l, Some(root)) == Err(NoSuchCommitment)
  {
    ByRootIs(l, k);
    assert Certified(l, k);
    forall root | forall i :: 0 <= i < |l.snaps| ==> RootOf(l.snaps[i]) != root ensures ByRoot(l.commits, root).None? {
      assert forall i :: 0 <= i < |l.commits| ==> l.commits[i].root == RootOf(l.snaps[i]);
    }
  }
}
