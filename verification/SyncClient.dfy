/** The operator's half of a registry sync: stage what was pulled for one space, in order, and collect the outcomes. */
module SyncClient {
  import opened Wrappers
  import opened Tables
  import opened Ledgers
  import opened LedgerRuns
  import opened LocalSpaces
  import R = Registry
  import S = RegistrySync

  /**
   `health` is what the node says to the health check in front of staging; without it nothing is staged. Errors count
   the handles that do not parse or belong elsewhere, and a staging that failed.
   */
  method SyncSpace(local: LocalSpace, space: string, parses: R.Handle -> bool, health: Option<Root>, pending: seq<R.Delivery>)
    returns (staged: nat, errors: nat, outcomes: seq<R.AckEntry>)
    modifies local
    ensures var requests := S.OfSpace(pending, space, parses);
      var s := S.StageAll(old(local.View()), requests);
      var skipped := |pending| - |requests|;
      if requests == [] || Healthy(old(local.commits), health) then
        && local.View() == s.ledger
        && outcomes == S.Unparsable(pending, parses) + S.Outcomes(s)
        && staged == |s.added|
        && errors == skipped
      else
        && local.View() == old(local.View())
        && outcomes == S.Unparsable(pending, parses)
        && staged == 0
        && errors == skipped + 1
  {
    var requests, invalid := [], [];
    errors := 0;
    for i := 0 to |pending|
      invariant requests == S.OfSpace(pending[..i], space, parses)
      invariant invalid == S.Unparsable(pending[..i], parses)
      invariant errors == i - |requests|
    {
      assert pending[..i + 1][..i] == pending[..i];
      if !parses(pending[i].handle) {
        errors := errors + 1;
        invalid := invalid + [R.AckEntry(pending[i].handle, R.Invalid)];
      } else if pending[i].handle.space != space {
        errors := errors + 1;
      } else {
        requests := requests + [pending[i]];
      }
    }
    assert pending[..|pending|] == pending;
    staged, outcomes := 0, invalid;
    if requests != [] {
      if Healthy(local.commits, health) {
        var added, skipped := StageRequests(local, requests);
        staged := |added|;
        outcomes := invalid + (added + skipped);
      } else {
        errors := errors + 1;
      }
    }
  }

  /** Stage one request after the other. */
  method StageRequests(local: LocalSpace, requests: seq<R.Delivery>) returns (added: seq<R.AckEntry>, skipped: seq<R.AckEntry>)
    modifies local
    ensures S.StageAll(old(local.View()), requests) == S.Staging(local.View(), added, skipped)
  {
    added, skipped := [], [];
    for i := 0 to |requests|
      invariant S.StageAll(old(local.View()), requests[..i]) == S.Staging(local.View(), added, skipped)
    {
      assert requests[..i + 1][..i] == requests[..i];
      var d := requests[i];
      var skip := local.AddRequest(d.handle.name, d.spk);
      var entry := R.AckEntry(d.handle, R.OutcomeOf(skip));
      if skip.None? {
        added := added + [entry];
      } else {
        skipped := skipped + [entry];
      }
    }
    assert requests[..|requests|] == requests;
  }
}
