/**
 * `delete_customers`: deletes the targets one at a time, in order, and
 * pauses after every `batch_size` targets except after the last one.
 */
module SequentialDeletion {
  import opened Wrappers
  import opened Customers
  import opened Deletion

  /**
   * The state `delete_customers` ends with: the two counters, the full
   * list of failures its summary prints, and the positions (1-based) after
   * which it sleeps.
   */
  datatype SequentialRun = SequentialRun(
    deleted: nat, failed: nat, failedCustomers: seq<FailedRecord>, pauses: seq<nat>)

  /** Whether the script sleeps after handling the `i`-th of `total` targets. */
  predicate PauseAfter(i: nat, total: nat, batchSize: int)
    requires batchSize != 0
  {
    i % batchSize == 0 && i < total
  }

  /** The positions among `1..n` after which a run over `total` targets sleeps. */
  function Pauses(n: nat, total: nat, batchSize: int): seq<nat>
    requires batchSize != 0 || n == 0
  {
    if n == 0 then []
    else Pauses(n - 1, total, batchSize) + (if PauseAfter(n, total, batchSize) then [n] else [])
  }

  /**
   * The pause schedule: increasing positions, and position `i` is listed iff
   * `i` is a multiple of the batch size below `total`; so there is never a
   * pause after the last target.
   */
  lemma {:induction false} PausesExact(n: nat, total: nat, batchSize: int)
    requires batchSize != 0
    ensures forall j :: 0 <= j < |Pauses(n, total, batchSize)| ==> 1 <= Pauses(n, total, batchSize)[j] <= n
    ensures forall j, j' :: 0 <= j < j' < |Pauses(n, total, batchSize)| ==>
      Pauses(n, total, batchSize)[j] < Pauses(n, total, batchSize)[j']
    ensures forall i :: 1 <= i <= n ==> (i in Pauses(n, total, batchSize) <==> i % batchSize == 0 && i < total)
    ensures total !in Pauses(n, total, batchSize)
  {
    if n > 0 {
      PausesExact(n - 1, total, batchSize);
    }
  }

  /** The state `delete_customers` has after handling the first `k` targets. */
  predicate HandledFirst(customers: seq<Target>, outcomes: seq<Outcome>, batchSize: int, k: nat, run: SequentialRun)
    requires |outcomes| == |customers| && k <= |customers| && (batchSize != 0 || k == 0)
  {
    run.deleted == CountOk(outcomes[..k])
    && run.deleted + run.failed == k
    && run.failedCustomers == Failures(customers[..k], outcomes[..k])
    && run.pauses == Pauses(k, |customers|, batchSize)
  }

  /** Handling target `k`: exactly one counter grows, a failure is recorded, a pause is recorded at a batch boundary. */
  lemma HandleStep(customers: seq<Target>, outcomes: seq<Outcome>, batchSize: int, k: nat, run: SequentialRun)
    requires |outcomes| == |customers| && k < |customers| && batchSize != 0
    requires HandledFirst(customers, outcomes, batchSize, k, run)
    ensures HandledFirst(customers, outcomes, batchSize, k + 1, SequentialRun(
      run.deleted + (if outcomes[k].Ok? then 1 else 0),
      run.failed + (if outcomes[k].Ok? then 0 else 1),
      run.failedCustomers + (if outcomes[k].Ok? then [] else [RecordAt(customers, outcomes, k)]),
      run.pauses + (if PauseAfter(k + 1, |customers|, batchSize) then [k + 1] else [])))
  {
    TallyStep(customers, outcomes, k);
  }

  /**
   * `delete_customers` with the remote call replaced by `outcomes[i]`, the
   * outcome of deleting `customers[i]`, and the sleep by recording where it
   * happens.
   */
  method DeleteCustomers(customers: seq<Target>, outcomes: seq<Outcome>, batchSize: int)
    returns (run: SequentialRun)
    requires |outcomes| == |customers|
    requires batchSize != 0 || customers == []
    ensures run.deleted == CountOk(outcomes)
    ensures run.deleted + run.failed == |customers|
    ensures run.failedCustomers == Failures(customers, outcomes)
    ensures |run.failedCustomers| == run.failed
    ensures run.pauses == Pauses(|customers|, |customers|, batchSize)
  {
    var total := |customers|;
    var deleted, failed := 0, 0;
    var failedCustomers: seq<FailedRecord> := [];
    var pauses: seq<nat> := [];
    for k := 0 to total
      invariant HandledFirst(customers, outcomes, batchSize, k, SequentialRun(deleted, failed, failedCustomers, pauses))
    {
      HandleStep(customers, outcomes, batchSize, k, SequentialRun(deleted, failed, failedCustomers, pauses));
      var i := k + 1;  // the 1-based position `enumerate(customers, 1)` yields
      var customer := customers[k];
      if outcomes[k].Ok? {
        deleted := deleted + 1;
      } else {
        failed := failed + 1;
        var record := FailedRecord(customer.customerId, customer.email, Some(outcomes[k].message));
        assert record == RecordAt(customers, outcomes, k);
        failedCustomers := failedCustomers + [record];
      }
      if i % batchSize == 0 && i < total {
        pauses := pauses + [i];
      }
    }
    assert customers[..total] == customers;
    assert outcomes[..total] == outcomes;
    run := SequentialRun(deleted, failed, failedCustomers, pauses);
  }
}
