/**
 * `delete_single_customer` and the aggregation loop of
 * `delete_customers_fast`: every target is deleted by a worker, and the
 * results are tallied in the order the workers finish.
 */
module FastDeletion {
  import opened Wrappers
  import opened Customers
  import opened Deletion

  /** The dictionary `delete_single_customer` returns: `{success, customer_id, email, error}`. */
  datatype DeleteResult = DeleteResult(success: bool, customerId: string, email: string, error: Option<string>)

  /**
   * `delete_single_customer`: one result for one target, successful iff the
   * delete call returned, carrying the error text iff it raised, and naming
   * the target it was for.
   */
  function DeleteSingle(customer: Target, outcome: Outcome): (r: DeleteResult)
    ensures r.success <==> outcome.Ok?
    ensures r.error == None <==> r.success
    ensures outcome.Err? ==> r.error == Some(outcome.message)
    ensures r.customerId == customer.customerId && r.email == customer.email
  {
    match outcome
    case Ok => DeleteResult(true, customer.customerId, customer.email, None)
    case Err(message) => DeleteResult(false, customer.customerId, customer.email, Some(message))
  }

  /** The results of the submitted tasks, in submission (target) order. */
  function Results(customers: seq<Target>, outcomes: seq<Outcome>): (rs: seq<DeleteResult>)
    requires |outcomes| == |customers|
    ensures |rs| == |customers|
    ensures forall i :: 0 <= i < |rs| ==> rs[i] == DeleteSingle(customers[i], outcomes[i])
  {
    if customers == [] then []
    else
      var n := |customers| - 1;
      Results(customers[..n], outcomes[..n]) + [DeleteSingle(customers[n], outcomes[n])]
  }

  /** The number of successful results. */
  function CountSuccess(rs: seq<DeleteResult>): nat
  {
    if rs == [] then 0
    else CountSuccess(rs[..|rs| - 1]) + (if rs[|rs| - 1].success then 1 else 0)
  }

  /** The failure record the aggregation loop appends for a failed result. */
  function FailedRecordOf(r: DeleteResult): FailedRecord
  {
    FailedRecord(r.customerId, r.email, r.error)
  }

  /** The records the aggregation loop appends for the failed results among `rs`, in the order of `rs`. */
  function FailedRecords(rs: seq<DeleteResult>): (fs: seq<FailedRecord>)
    ensures |fs| + CountSuccess(rs) == |rs|
  {
    if rs == [] then []
    else
      var r := rs[|rs| - 1];
      FailedRecords(rs[..|rs| - 1]) + (if r.success then [] else [FailedRecordOf(r)])
  }

  /** The tallies after consuming the first `k` arrived results. */
  predicate TalliedFirst(arrived: seq<DeleteResult>, k: nat, deleted: nat, failed: nat, failedCustomers: seq<FailedRecord>)
    requires k <= |arrived|
  {
    deleted == CountSuccess(arrived[..k])
    && failedCustomers == FailedRecords(arrived[..k])
    && failed == |failedCustomers|
  }

  /** Consuming result `k`: exactly one counter grows, and a failure is recorded. */
  lemma TallyArrival(arrived: seq<DeleteResult>, k: nat, deleted: nat, failed: nat, failedCustomers: seq<FailedRecord>)
    requires k < |arrived| && TalliedFirst(arrived, k, deleted, failed, failedCustomers)
    ensures arrived[k].success ==> TalliedFirst(arrived, k + 1, deleted + 1, failed, failedCustomers)
    ensures !arrived[k].success ==> TalliedFirst(arrived, k + 1, deleted, failed + 1,
      failedCustomers + [FailedRecordOf(arrived[k])])
  {
    ArrivalStep(arrived, k);
  }

  /** Consuming result `k` after the first `k`: how the count and the failure list grow. */
  lemma ArrivalStep(arrived: seq<DeleteResult>, k: nat)
    requires k < |arrived|
    ensures CountSuccess(arrived[..k + 1]) == CountSuccess(arrived[..k]) + (if arrived[k].success then 1 else 0)
    ensures FailedRecords(arrived[..k + 1])
         == FailedRecords(arrived[..k]) + (if arrived[k].success then [] else [FailedRecordOf(arrived[k])])
  {
    assert arrived[..k + 1][..k] == arrived[..k];
  }

  lemma {:induction false} FailedRecordsAppend(a: seq<DeleteResult>, b: seq<DeleteResult>)
    ensures FailedRecords(a + b) == FailedRecords(a) + FailedRecords(b)
  {
    if b != [] {
      var n := |b| - 1;
      assert (a + b)[..|a + b| - 1] == a + b[..n];
      FailedRecordsAppend(a, b[..n]);
    } else {
      assert a + b == a;
    }
  }

  /** Taking result `j` out of `rs` takes one copy of it out of the multiset. */
  lemma MultisetWithout(rs: seq<DeleteResult>, j: nat)
    requires j < |rs|
    ensures rs == rs[..j] + [rs[j]] + rs[j + 1..]
    ensures multiset(rs[..j] + rs[j + 1..]) == multiset(rs) - multiset{rs[j]}
  {
    assert rs == rs[..j] + [rs[j]] + rs[j + 1..];
    assert multiset(rs) == multiset(rs[..j]) + multiset{rs[j]} + multiset(rs[j + 1..]);
  }

  /** Taking result `x` out from between `front` and `back` takes its record, if any, out of the failure records. */
  lemma FailedRecordsWithout(front: seq<DeleteResult>, x: DeleteResult, back: seq<DeleteResult>)
    ensures multiset(FailedRecords(front + [x] + back))
         == multiset(FailedRecords(front + back)) + multiset(FailedRecords([x]))
  {
    FailedRecordsAppend(front, [x]);
    FailedRecordsAppend(front + [x], back);
    FailedRecordsAppend(front, back);
  }

  /** Two arrival orders of the same results give the same failure records, up to order. */
  lemma {:induction false} FailedRecordsPermuted(a: seq<DeleteResult>, b: seq<DeleteResult>)
    requires multiset(a) == multiset(b)
    ensures multiset(FailedRecords(a)) == multiset(FailedRecords(b))
  {
    if a != [] {
      var n := |a| - 1;
      var a', x := a[..n], a[n];
      assert a == a' + [x];
      assert x in multiset(b);
      var j :| 0 <= j < |b| && b[j] == x;
      var front, back := b[..j], b[j + 1..];
      MultisetWithout(b, j);
      assert multiset(a') == multiset(front + back) by {
        assert multiset(a) == multiset(a') + multiset{x};
      }
      FailedRecordsPermuted(a', front + back);
      FailedRecordsWithout(front, x, back);
      FailedRecordsAppend(a', [x]);
    }
  }

  /**
   * The order in which results arrive does not matter: two arrival orders
   * of the same results give the same success count and the same failure
   * records, up to order.
   */
  lemma ArrivalOrderIrrelevant(a: seq<DeleteResult>, b: seq<DeleteResult>)
    requires multiset(a) == multiset(b)
    ensures CountSuccess(a) == CountSuccess(b)
    ensures multiset(FailedRecords(a)) == multiset(FailedRecords(b))
  {
    FailedRecordsPermuted(a, b);
    assert |a| == |multiset(a)| == |multiset(b)| == |b|;
    assert |FailedRecords(a)| == |multiset(FailedRecords(a))| == |multiset(FailedRecords(b))| == |FailedRecords(b)|;
  }

  /**
   * Tallying the results in submission order gives the outcome count and
   * the failure list of the sequential script.
   */
  lemma {:induction false} ResultsTally(customers: seq<Target>, outcomes: seq<Outcome>)
    requires |outcomes| == |customers|
    ensures CountSuccess(Results(customers, outcomes)) == CountOk(outcomes)
    ensures FailedRecords(Results(customers, outcomes)) == Failures(customers, outcomes)
  {
    if customers != [] {
      var n := |customers| - 1;
      var rs := Results(customers, outcomes);
      assert rs[..n] == Results(customers[..n], outcomes[..n]);
      ResultsTally(customers[..n], outcomes[..n]);
    }
  }

  /**
   * Whatever order the results arrive in, tallying them counts the
   * successful outcomes and collects the sequential script's failure
   * records, up to order.
   */
  lemma CompletionOrderIrrelevant(customers: seq<Target>, outcomes: seq<Outcome>, arrived: seq<DeleteResult>)
    requires |outcomes| == |customers| && multiset(arrived) == multiset(Results(customers, outcomes))
    ensures CountSuccess(arrived) == CountOk(outcomes)
    ensures multiset(FailedRecords(arrived)) == multiset(Failures(customers, outcomes))
  {
    ArrivalOrderIrrelevant(arrived, Results(customers, outcomes));
    ResultsTally(customers, outcomes);
  }

  /** Whether a progress line is printed once `processed` of `total` results are in. */
  predicate ProgressAt(processed: nat, total: nat, progressInterval: int)
    requires progressInterval != 0
  {
    processed % progressInterval == 0 || processed == total
  }

  /** The values of `processed_count`, among `1..n`, at which a progress line is printed, in increasing order. */
  function ProgressTicks(n: nat, total: nat, progressInterval: int): (ticks: seq<nat>)
    requires progressInterval != 0 || n == 0
    ensures forall j :: 0 <= j < |ticks| ==> 1 <= ticks[j] <= n
  {
    if n == 0 then []
    else
      ProgressTicks(n - 1, total, progressInterval)
      + (if ProgressAt(n, total, progressInterval) then [n] else [])
  }

  /**
   * The progress schedule: `p` is a tick iff it is a multiple of the
   * interval or the last result, so the last result always prints one.
   */
  lemma {:induction false} ProgressTicksExact(n: nat, total: nat, progressInterval: int)
    requires progressInterval != 0
    ensures forall j, j' :: 0 <= j < j' < |ProgressTicks(n, total, progressInterval)| ==>
      ProgressTicks(n, total, progressInterval)[j] < ProgressTicks(n, total, progressInterval)[j']
    ensures forall p :: 1 <= p <= n ==>
      (p in ProgressTicks(n, total, progressInterval) <==> p % progressInterval == 0 || p == total)
    ensures 1 <= total == n ==> LastTick(ProgressTicks(n, total, progressInterval)) == total
  {
    if n > 0 {
      ProgressTicksExact(n - 1, total, progressInterval);
      var before, ticks := ProgressTicks(n - 1, total, progressInterval), ProgressTicks(n, total, progressInterval);
      assert ticks == before + (if ProgressAt(n, total, progressInterval) then [n] else []);
      forall j, j' | 0 <= j < j' < |ticks|
        ensures ticks[j] < ticks[j']
      {
        assert ticks[j] == before[j];
        if j' < |before| {
          assert ticks[j'] == before[j'];
        } else {
          assert ticks[j'] == n;
        }
      }
    }
  }

  /** The `processed_count` of the latest progress line, 0 (the start) before the first. */
  function LastTick(ticks: seq<nat>): nat
  {
    if ticks == [] then 0 else ticks[|ticks| - 1]
  }

  /**
   * The counters a progress line shows; `rateOver`, the count the line's
   * `interval_rate` divides by the time since the previous line, which
   * is always `progress_interval`; and `recent`, the number of results
   * that actually arrived since the previous line (or the start).
   */
  datatype Progress = Progress(processed: nat, deleted: nat, failed: nat, rateOver: int, recent: nat)

  /**
   * The progress line printed after the first `p` arrived results; the
   * previous line, if any, was printed at the latest earlier tick.
   */
  function Snapshot(arrived: seq<DeleteResult>, p: nat, total: nat, progressInterval: int): (line: Progress)
    requires 1 <= p <= |arrived| && progressInterval != 0
    ensures line.processed == p && line.deleted + line.failed == p
    ensures line.rateOver == progressInterval
    ensures 1 <= line.recent <= p
  {
    Progress(p, CountSuccess(arrived[..p]), |FailedRecords(arrived[..p])|, progressInterval,
             p - LastTick(ProgressTicks(p - 1, total, progressInterval)))
  }

  /**
   * `progress` holds exactly the lines printed while consuming the first
   * `n` of the arrived results: one per tick, each showing the counters
   * after that many results.
   */
  predicate PrintedProgress(progress: seq<Progress>, arrived: seq<DeleteResult>, n: nat, total: nat, progressInterval: int)
    requires n <= |arrived| && (progressInterval != 0 || n == 0)
  {
    var ticks := ProgressTicks(n, total, progressInterval);
    |progress| == |ticks|
    && forall j :: 0 <= j < |progress| ==> progress[j] == Snapshot(arrived, ticks[j], total, progressInterval)
  }

  /** Consuming result `k + 1` at a tick prints its snapshot as the next line. */
  lemma LinePrinted(progress: seq<Progress>, arrived: seq<DeleteResult>, k: nat, total: nat, progressInterval: int)
    requires k < |arrived| && progressInterval != 0 && ProgressAt(k + 1, total, progressInterval)
    requires PrintedProgress(progress, arrived, k, total, progressInterval)
    ensures PrintedProgress(progress + [Snapshot(arrived, k + 1, total, progressInterval)], arrived, k + 1, total, progressInterval)
    ensures LastTick(ProgressTicks(k + 1, total, progressInterval)) == k + 1
  {
    assert ProgressTicks(k + 1, total, progressInterval) == ProgressTicks(k, total, progressInterval) + [k + 1];
  }

  /** Consuming result `k + 1` between ticks prints nothing. */
  lemma NoLinePrinted(progress: seq<Progress>, arrived: seq<DeleteResult>, k: nat, total: nat, progressInterval: int)
    requires k < |arrived| && progressInterval != 0 && !ProgressAt(k + 1, total, progressInterval)
    requires PrintedProgress(progress, arrived, k, total, progressInterval)
    ensures PrintedProgress(progress, arrived, k + 1, total, progressInterval)
    ensures LastTick(ProgressTicks(k + 1, total, progressInterval)) == LastTick(ProgressTicks(k, total, progressInterval))
  {
    assert ProgressTicks(k + 1, total, progressInterval) == ProgressTicks(k, total, progressInterval);
  }

  /**
   * Before the last result, the latest tick at or below `m` is the largest
   * multiple of the interval not above `m` (0 when there is none).
   */
  lemma {:induction false} LastTickBeforeTotal(m: nat, total: nat, progressInterval: int)
    requires progressInterval > 0 && m < total
    ensures LastTick(ProgressTicks(m, total, progressInterval)) == m - m % progressInterval
  {
    if m > 0 {
      LastTickBeforeTotal(m - 1, total, progressInterval);
      ModPredecessor(m, progressInterval);
      var before := ProgressTicks(m - 1, total, progressInterval);
      if m % progressInterval == 0 {
        assert ProgressTicks(m, total, progressInterval) == before + [m];
      } else {
        assert ProgressTicks(m, total, progressInterval) == before;
      }
    }
  }

  /** How the remainder changes from `m - 1` to `m`. */
  lemma ModPredecessor(m: int, d: int)
    requires d > 0 && m > 0
    ensures (m - 1) % d == if m % d == 0 then d - 1 else m % d - 1
  {
    var q, r := m / d, m % d;
    if r == 0 {
      ModUnique(m - 1, d, q - 1, d - 1);
    } else {
      ModUnique(m - 1, d, q, r - 1);
    }
  }

  /** The remainder is the only `r` in `0..d-1` with `x == q * d + r`. */
  lemma ModUnique(x: int, d: int, q: int, r: int)
    requires d > 0 && 0 <= r < d && x == q * d + r
    ensures x % d == r
  {
    var k := x / d - q;
    assert k * d == r - x % d by {
      assert x == (x / d) * d + x % d;
      assert (x / d) * d - q * d == k * d;
    }
  }

  /**
   * The number of results since the previous progress line is the
   * interval for every line printed at a multiple of the interval; the
   * line for the last result, when the total is not a multiple, covers
   * only the remainder.
   */
  lemma RecentCounts(arrived: seq<DeleteResult>, p: nat, progressInterval: int)
    requires 1 <= p <= |arrived| && progressInterval > 0 && ProgressAt(p, |arrived|, progressInterval)
    ensures Snapshot(arrived, p, |arrived|, progressInterval).recent
         == if p % progressInterval == 0 then progressInterval else p % progressInterval
  {
    LastTickBeforeTotal(p - 1, |arrived|, progressInterval);
    ModPredecessor(p, progressInterval);
  }

  /** How many failures the final summary lists. */
  const SampleSize: nat := 10

  /** The failures the final summary lists, and the count it reports as "more". */
  datatype Sample = Sample(shown: seq<FailedRecord>, omitted: nat)

  /**
   * The failure sample of the final summary: the first ten failures (none,
   * so no sample section, when nothing failed) and, only when there are
   * more than ten, the number left out.
   */
  function FailureSample(failed: seq<FailedRecord>): (sample: Sample)
    ensures |sample.shown| == if |failed| < SampleSize then |failed| else SampleSize
    ensures sample.shown == failed[..|sample.shown|]
    ensures sample.shown == [] <==> failed == []
    ensures sample.omitted > 0 <==> |failed| > SampleSize
    ensures |sample.shown| + sample.omitted == |failed|
  {
    if |failed| <= SampleSize then Sample(failed, 0)
    else Sample(failed[..SampleSize], |failed| - SampleSize)
  }

  /** What `delete_customers_fast` ends with: its counters, failure list, progress lines and failure sample. */
  datatype FastRun = FastRun(
    processed: nat, deleted: nat, failed: nat, failedCustomers: seq<FailedRecord>,
    progress: seq<Progress>, sample: Sample)

  /**
   * The aggregation loop of `delete_customers_fast`. The workers' results,
   * one per target, arrive as `arrived`, in completion order: any
   * permutation of the results in submission order.
   */
  method DeleteCustomersFast(customers: seq<Target>, outcomes: seq<Outcome>,
                             arrived: seq<DeleteResult>, progressInterval: int)
    returns (run: FastRun)
    requires |outcomes| == |customers|
    requires |arrived| == |customers| && multiset(arrived) == multiset(Results(customers, outcomes))
    requires progressInterval != 0 || customers == []
    ensures run.processed == |customers|
    ensures run.deleted == CountOk(outcomes)
    ensures run.deleted + run.failed == run.processed
    ensures |run.failedCustomers| == run.failed
    ensures run.failedCustomers == FailedRecords(arrived)
    ensures multiset(run.failedCustomers) == multiset(Failures(customers, outcomes))
    ensures PrintedProgress(run.progress, arrived, |customers|, |customers|, progressInterval)
    ensures run.sample == FailureSample(run.failedCustomers)
  {
    var total := |customers|;
    var processed, deleted, failed := 0, 0, 0;
    var failedCustomers: seq<FailedRecord> := [];
    var progress: seq<Progress> := [];
    var lastReported := 0;
    for k := 0 to |arrived|
      invariant processed == k
      invariant TalliedFirst(arrived, k, deleted, failed, failedCustomers)
      invariant PrintedProgress(progress, arrived, k, total, progressInterval)
      invariant lastReported == LastTick(ProgressTicks(k, total, progressInterval))
    {
      TallyArrival(arrived, k, deleted, failed, failedCustomers);
      var result := arrived[k];
      processed := processed + 1;
      if result.success {
        deleted := deleted + 1;
      } else {
        failed := failed + 1;
        failedCustomers := failedCustomers + [FailedRecordOf(result)];
      }
      if processed % progressInterval == 0 || processed == total {
        var line := Progress(processed, deleted, failed, progressInterval, processed - lastReported);
        assert line == Snapshot(arrived, processed, total, progressInterval);
        LinePrinted(progress, arrived, k, total, progressInterval);
        progress := progress + [line];
        lastReported := processed;
      } else {
        NoLinePrinted(progress, arrived, k, total, progressInterval);
      }
    }
    assert arrived[..total] == arrived;
    CompletionOrderIrrelevant(customers, outcomes, arrived);
    run := FastRun(processed, deleted, failed, failedCustomers, progress, FailureSample(failedCustomers));
  }

  /**
   * Four results with a progress interval of 3: lines are printed after
   * the third and the fourth result, and the second line covers a single
   * result, whereas `interval_rate` divides the whole interval, 3, by the
   * time since the first line.
   */
  lemma ShortFinalInterval(arrived: seq<DeleteResult>)
    requires |arrived| == 4
    ensures ProgressTicks(4, 4, 3) == [3, 4]
    ensures Snapshot(arrived, 4, 4, 3).rateOver == 3
    ensures Snapshot(arrived, 4, 4, 3).recent == 1
  {
    assert ProgressTicks(2, 4, 3) == [];
  }

  /**
   * Three targets whose second deletion fails with "not_found": two
   * deleted, one failed, and the sample lists the second target.
   */
  lemma NotFoundExample(first: Target, second: Target, third: Target)
    ensures CountOk([Ok, Err("not_found"), Ok]) == 2
    ensures FailureSample(Failures([first, second, third], [Ok, Err("not_found"), Ok]))
         == Sample([FailedRecord(second.customerId, second.email, Some("not_found"))], 0)
  {
    var cs, os := [first, second, third], [Ok, Err("not_found"), Ok];
    assert cs[..2] == [first, second] && os[..2] == [Ok, Err("not_found")];
    assert cs[..2][..1] == [first] && os[..2][..1] == [Ok];
  }
}
