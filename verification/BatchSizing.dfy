/**
 The batch-size feedback loop of publishing. A relay refuses a message over its
 size limit; the next batch is scaled from the last message's measured size,
 whether that one was sent or refused.
 */
module BatchSizing {
  import opened Wrappers

  const RELAY_MAX_MESSAGE_BYTES: nat := 512 * 1024
  const RELAY_BUDGET_PERCENT: nat := 85
  const ASSUMED_BATCH: nat := 50
  const TARGET: nat := RELAY_MAX_MESSAGE_BYTES * RELAY_BUDGET_PERCENT / 100

  /** Certificates in the last message, and its bytes. */
  type Measurement = Option<(nat, nat)>

  function Max(a: nat, b: nat): nat { if a < b then b else a }

  function Min(a: nat, b: nat): nat { if a < b then a else b }

  function NextBatchSize(last: Measurement, ceiling: nat): (size: nat)
    ensures size >= 1
    ensures size <= Max(ceiling, 1)
  {
    var scaled := match last
      case Some((certs, bytes)) =>
        if certs > 0 && bytes > 0 then Max(certs * TARGET / bytes, 1) else ASSUMED_BATCH
      case None => ASSUMED_BATCH;
    Max(Min(scaled, ceiling), 1)
  }

  function RecordMessageSize(last: Measurement, certs: nat, bytes: nat): Measurement {
    if certs == 0 || bytes == 0 then last else Some((certs, bytes))
  }

  predicate Fits(bytes: nat) {
    bytes <= RELAY_MAX_MESSAGE_BYTES
  }

  // Refusals, with nothing assumed about how size depends on the batch

  lemma DivMul(x: nat, y: nat)
    requires y > 0
    ensures x / y * y <= x
  {
  }

  lemma DivLess(x: nat, y: nat, q: nat)
    requires y > 0 && x < (q + 1) * y
    ensures x / y <= q
  {
    DivMul(x, y);
    LessByFactor(x / y, q + 1, y);
  }

  lemma LessByFactor(a: int, b: int, y: int)
    requires y > 0 && a * y < b * y
    ensures a < b
  {
    assert a >= b ==> (a - b) * y >= 0;
  }

  lemma Scale(k: nat, a: nat, b: nat)
    requires a <= b
    ensures k * a <= k * b
  {
  }

  /**
   The next batch is scaled by the measurement: of the sizes from 2 to the ceiling it takes exactly those that, at the
   measured bytes per certificate, stay within 85% of the 512 KiB that a relay takes.
   */
  lemma NextBatchSizeIs(certs: nat, bytes: nat, ceiling: nat, s: nat)
    requires certs > 0 && bytes > 0 && 2 <= s <= ceiling
    ensures s <= NextBatchSize(Some((certs, bytes)), ceiling) <==> s * bytes <= certs * 445644
    ensures 445644 == 512 * 1024 * 85 / 100
  {
    assert TARGET == 445644;
    var scaled := certs * TARGET / bytes;
    if s * bytes <= certs * TARGET {
      DivAtLeast(certs * TARGET, bytes, s);
    } else {
      DivLess(certs * TARGET, bytes, s - 1);
    }
  }

  /** With nothing measured it is 50, or the ceiling if that is less. A batch is never empty and never above the ceiling. */
  lemma UnmeasuredIs(last: Measurement, ceiling: nat)
    requires last.Some? ==> last.value.0 == 0 || last.value.1 == 0
    ensures NextBatchSize(last, ceiling) == if ceiling == 0 then 1 else if ceiling < 50 then ceiling else 50
  {
  }

  /** A refused batch of `handles` (one root certificate more) never makes the next one larger, and from 6 on it gets smaller. */
  lemma RefusalShrinks(handles: nat, bytes: nat, ceiling: nat)
    requires handles >= 1 && !Fits(bytes)
    ensures NextBatchSize(Some((handles + 1, bytes)), ceiling) <= handles
    ensures handles >= 6 ==> NextBatchSize(Some((handles + 1, bytes)), ceiling) < handles
  {
    var q := if handles >= 6 then handles - 1 else handles;
    assert TARGET == 445644;
    assert (handles + 1) * TARGET < (q + 1) * 524289;
    Scale(q + 1, 524289, bytes);
    DivLess((handles + 1) * TARGET, bytes, q);
  }

  /** The limit grows past the last batch exactly when that message stayed within the target, as far as the ceiling lets it. */
  lemma GrowsIffWithinTarget(handles: nat, bytes: nat, ceiling: nat)
    requires handles >= 1 && bytes > 0
    ensures NextBatchSize(Some((handles + 1, bytes)), ceiling) > handles <==> bytes <= TARGET && ceiling > handles
  {
    var scaled := (handles + 1) * TARGET / bytes;
    if bytes <= TARGET {
      Scale(handles + 1, bytes, TARGET);
      DivAtLeast((handles + 1) * TARGET, bytes, handles + 1);
    } else {
      Scale(handles + 1, TARGET + 1, bytes);
      DivLess((handles + 1) * TARGET, bytes, handles);
    }
  }

  lemma DivAtLeast(x: nat, y: nat, q: nat)
    requires y > 0 && q * y <= x
    ensures x / y >= q
  {
    assert x < (x / y + 1) * y;
    LessByFactor(q, x / y + 1, y);
  }

  // Messages with a fixed part and a fixed size per handle

  /** A message of h handles takes root + perHandle * h bytes. */
  datatype Law = Law(root: nat, perHandle: nat)
  {
    function Bytes(handles: nat): nat { root + perHandle * handles }

    /** Five handles always fit, one handle is no larger than the root part or than the slack above the target. */
    predicate Modest() {
      && 1 <= perHandle <= root
      && perHandle <= RELAY_MAX_MESSAGE_BYTES - TARGET
      && Fits(Bytes(5))
    }
  }

  lemma Monotone(law: Law, a: nat, b: nat)
    requires a <= b
    ensures law.Bytes(a) <= law.Bytes(b)
  {
    Scale(law.perHandle, a, b);
  }

  /** With d = r - c: c*s*b <= c*(h+1)*t == (b-d)*t <= b*(t-d), and b cancels. */
  lemma Slack(r: nat, c: nat, h: nat, s: nat, b: nat, t: nat)
    requires c <= r && b == r + c * h && 0 < b <= t
    requires s * b <= (h + 1) * t
    ensures r + c * s <= t + c
  {
    var d := r - c;
    assert c * (s * b) <= c * ((h + 1) * t);
    assert c * (h + 1) == b - d;
    assert c * ((h + 1) * t) == (c * (h + 1)) * t;
    assert (b - d) * t == b * t - d * t;
    assert d * b <= d * t;
    assert b * (t - d) == b * t - d * b;
    assert c * (s * b) == (c * s) * b;
    LessByFactor(c * s, t - d + 1, b);
  }

  /** A batch that is scaled up lands at most one handle's worth above the target. */
  lemma GrowthBounded(law: Law, handles: nat, ceiling: nat)
    requires 1 <= law.perHandle <= law.root
    requires NextBatchSize(Some((handles + 1, law.Bytes(handles))), ceiling) > Max(handles, 1)
    ensures law.Bytes(NextBatchSize(Some((handles + 1, law.Bytes(handles))), ceiling)) <= TARGET + law.perHandle
  {
    var b := law.Bytes(handles);
    var size := NextBatchSize(Some((handles + 1, b)), ceiling);
    assert b > 0;
    NextBatchSizeIs(handles + 1, b, ceiling, size);
    assert TARGET == 445644;
    Scaled(handles, size, b, TARGET);
    Slack(law.root, law.perHandle, handles, size, b, TARGET);
  }

  lemma Scaled(handles: nat, size: nat, b: nat, t: nat)
    requires b > 0 && size * b <= (handles + 1) * t && size > handles
    ensures b <= t
  {
    assert (handles + 1) * b <= size * b;
    assert b * (handles + 1) == (handles + 1) * b && t * (handles + 1) == (handles + 1) * t;
    LessByFactor(b, t + 1, handles + 1);
  }

  /** After a message that fits, the next batch fits, whatever the backlog cuts it to and whatever the ceiling. */
  lemma FitsAgain(law: Law, handles: nat, backlog: nat, ceiling: nat)
    requires law.Modest() && Fits(law.Bytes(handles))
    ensures law.Bytes(Min(NextBatchSize(Some((handles + 1, law.Bytes(handles))), ceiling), backlog)) <= 512 * 1024
  {
    var next := Min(NextBatchSize(Some((handles + 1, law.Bytes(handles))), ceiling), backlog);
    if next <= Max(handles, 1) {
      Monotone(law, next, Max(handles, 5));
    } else {
      GrowthBounded(law, handles, ceiling);
      Monotone(law, next, NextBatchSize(Some((handles + 1, law.Bytes(handles))), ceiling));
    }
  }

  // Runs of passes

  /** A pass over whatever is unpublished, or over a list of handles that the operator chose. */
  datatype Attempt = Auto(backlog: nat) | Listed(handles: nat)

  /** The batch of an automatic pass. */
  function BatchOf(last: Measurement, backlog: nat, ceiling: nat): nat {
    Min(NextBatchSize(last, ceiling), backlog)
  }

  function HandlesOf(a: Attempt, last: Measurement, ceiling: nat): nat {
    match a
    case Auto(backlog) => BatchOf(last, backlog, ceiling)
    case Listed(handles) => handles
  }

  /** The measurement that a batch leaves; an empty batch is not sent at all. */
  function Measured(law: Law, last: Measurement, handles: nat): Measurement {
    if handles == 0 then last else RecordMessageSize(last, handles + 1, law.Bytes(handles))
  }

  /** How many automatic batches of a run are refused. Arrivals and earlier sends, hence the backlogs, are up to the environment. */
  function Refusals(law: Law, last: Measurement, attempts: seq<Attempt>, ceiling: nat): nat
    decreases |attempts|
  {
    if attempts == [] then 0
    else
      var handles := HandlesOf(attempts[0], last, ceiling);
      (if attempts[0].Auto? && handles > 0 && !Fits(law.Bytes(handles)) then 1 else 0)
      + Refusals(law, Measured(law, last, handles), attempts[1..], ceiling)
  }

  /** What refused lists can cost: an oversized list of h handles, at most h - 6 automatic batches. */
  function Allowance(law: Law, attempts: seq<Attempt>): nat
    decreases |attempts|
  {
    if attempts == [] then 0
    else
      (if attempts[0].Listed? && attempts[0].handles >= 6 && !Fits(law.Bytes(attempts[0].handles)) then attempts[0].handles - 6 else 0)
      + Allowance(law, attempts[1..])
  }

  /** What one refused batch does to the next limit. */
  lemma AfterRefusal(law: Law, last: Measurement, handles: nat, ceiling: nat)
    requires law.Modest() && !Fits(law.Bytes(handles))
    ensures 6 <= handles
    ensures NextBatchSize(Measured(law, last, handles), ceiling) < handles
  {
    if handles <= 5 {
      Monotone(law, handles, 5);
    }
    RefusalShrinks(handles, law.Bytes(handles), ceiling);
  }

  ghost predicate FitMeasured(law: Law, last: Measurement) {
    exists handles: nat :: last == Some((handles + 1, law.Bytes(handles))) && Fits(law.Bytes(handles))
  }

  lemma FitStays(law: Law, last: Measurement, a: Attempt, ceiling: nat)
    requires law.Modest() && FitMeasured(law, last) && Fits(law.Bytes(HandlesOf(a, last, ceiling)))
    ensures FitMeasured(law, Measured(law, last, HandlesOf(a, last, ceiling)))
  {
    assert law.Bytes(HandlesOf(a, last, ceiling)) > 0;
  }

  lemma AutoFits(law: Law, last: Measurement, backlog: nat, ceiling: nat)
    requires law.Modest() && FitMeasured(law, last)
    ensures Fits(law.Bytes(BatchOf(last, backlog, ceiling)))
  {
    var handles: nat :| last == Some((handles + 1, law.Bytes(handles))) && Fits(law.Bytes(handles));
    FitsAgain(law, handles, backlog, ceiling);
  }

  lemma RefusedFirst(law: Law, last: Measurement, attempts: seq<Attempt>, ceiling: nat)
    requires attempts != []
    requires var handles := HandlesOf(attempts[0], last, ceiling);
      var next := Measured(law, last, handles);
      && 6 <= handles && !Fits(law.Bytes(handles)) && NextBatchSize(next, ceiling) < handles
      && Refusals(law, next, attempts[1..], ceiling) <= Max(NextBatchSize(next, ceiling), 5) - 5 + Allowance(law, attempts[1..])
    ensures Refusals(law, last, attempts, ceiling) <= Max(NextBatchSize(last, ceiling), 5) - 5 + Allowance(law, attempts)
    ensures attempts[0].Listed? ==> Refusals(law, last, attempts, ceiling) <= Allowance(law, attempts)
  {
  }

  /** After a batch that fits, an automatic batch can only be refused on account of an oversized list. */
  lemma {:induction false} RefusalsAfterFit(law: Law, last: Measurement, attempts: seq<Attempt>, ceiling: nat)
    requires law.Modest() && FitMeasured(law, last)
    ensures Refusals(law, last, attempts, ceiling) <= Allowance(law, attempts)
    decreases |attempts|, 0
  {
    if attempts != [] {
      var a := attempts[0];
      var handles := HandlesOf(a, last, ceiling);
      if a.Auto? {
        AutoFits(law, last, a.backlog, ceiling);
      }
      if Fits(law.Bytes(handles)) {
        FitStays(law, last, a, ceiling);
        RefusalsAfterFit(law, Measured(law, last, handles), attempts[1..], ceiling);
      } else {
        AfterRefusal(law, last, handles, ceiling);
        RefusalsBounded(law, Measured(law, last, handles), attempts[1..], ceiling);
        RefusedFirst(law, last, attempts, ceiling);
      }
    }
  }

  lemma NoneRefusedFirst(law: Law, last: Measurement, attempts: seq<Attempt>, ceiling: nat, rest: nat)
    requires attempts != [] && Fits(law.Bytes(HandlesOf(attempts[0], last, ceiling)))
    requires Refusals(law, Measured(law, last, HandlesOf(attempts[0], last, ceiling)), attempts[1..], ceiling) <= rest
    ensures Refusals(law, last, attempts, ceiling) <= rest
  {
  }

  /**
   From any measurement at all, a run of any length refuses at most as many automatic batches as its first limit
   exceeds five, and what its oversized lists cost.
   */
  lemma {:induction false} RefusalsBounded(law: Law, last: Measurement, attempts: seq<Attempt>, ceiling: nat)
    requires law.Modest()
    ensures Refusals(law, last, attempts, ceiling) <= Max(NextBatchSize(last, ceiling), 5) - 5 + Allowance(law, attempts)
    decreases |attempts|, 1
  {
    if attempts != [] {
      var handles := HandlesOf(attempts[0], last, ceiling);
      var next := Measured(law, last, handles);
      if !Fits(law.Bytes(handles)) {
        AfterRefusal(law, last, handles, ceiling);
        RefusalsBounded(law, next, attempts[1..], ceiling);
        RefusedFirst(law, last, attempts, ceiling);
      } else if handles == 0 {
        RefusalsBounded(law, last, attempts[1..], ceiling);
        NoneRefusedFirst(law, last, attempts, ceiling, Max(NextBatchSize(last, ceiling), 5) - 5 + Allowance(law, attempts[1..]));
      } else {
        JustFitted(law, last, handles);
        RefusalsAfterFit(law, next, attempts[1..], ceiling);
        NoneRefusedFirst(law, last, attempts, ceiling, Allowance(law, attempts[1..]));
      }
    }
  }

  lemma JustFitted(law: Law, last: Measurement, handles: nat)
    requires law.Modest() && handles > 0 && Fits(law.Bytes(handles))
    ensures FitMeasured(law, Measured(law, last, handles))
  {
    assert law.Bytes(handles) > 0;
  }

  /** Once a batch fitted, whatever came before, only the lists after it count. */
  lemma RefusalsOnceFit(law: Law, last: Measurement, attempts: seq<Attempt>, ceiling: nat)
    requires law.Modest() && attempts != []
    requires var handles := HandlesOf(attempts[0], last, ceiling); handles > 0 && Fits(law.Bytes(handles))
    ensures Refusals(law, last, attempts, ceiling) <= Allowance(law, attempts[1..])
  {
    var handles := HandlesOf(attempts[0], last, ceiling);
    JustFitted(law, last, handles);
    RefusalsAfterFit(law, Measured(law, last, handles), attempts[1..], ceiling);
    NoneRefusedFirst(law, last, attempts, ceiling, Allowance(law, attempts[1..]));
  }

  /** Why the lists count: 50 handles fit, a list of 500 does not, and neither does the automatic batch after it. */
  lemma ListSpoilsNext()
    ensures var law := Law(250000, 1000);
      && law.Modest()
      && Fits(law.Bytes(HandlesOf(Auto(50), None, 1000)))
      && Refusals(law, None, [Auto(50), Listed(500), Auto(1000)], 1000) == 1
  {
    var law := Law(250000, 1000);
    var after := Some((501, 750000));
    assert TARGET == 445644;
    assert NextBatchSize(after, 1000) == 297;
    assert Refusals(law, after, [Auto(1000)], 1000) == 1 by {
      assert [Auto(1000)][1..] == [];
    }
    assert [Listed(500), Auto(1000)][1..] == [Auto(1000)];
    assert [Auto(50), Listed(500), Auto(1000)][1..] == [Listed(500), Auto(1000)];
  }
}
