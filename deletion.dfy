/**
 * What both deletion scripts share: the outcome of one remote delete call
 * and the failure record kept for each failed target.
 */
module Deletion {
  import opened Wrappers
  import opened Customers

  /**
   * What the remote `delete(customer_id=...)` call did for one target:
   * returned normally, or raised an exception whose text is `message`.
   */
  datatype Outcome = Ok | Err(message: string)

  /** An entry of `failed_customers`: `{customer_id, email, error}`. */
  datatype FailedRecord = FailedRecord(customerId: string, email: string, error: Option<string>)

  /** The number of targets whose delete call succeeds. */
  function CountOk(outcomes: seq<Outcome>): (n: nat)
    ensures n <= |outcomes|
    ensures n == |outcomes| <==> forall i :: 0 <= i < |outcomes| ==> outcomes[i].Ok?
  {
    if outcomes == [] then 0
    else CountOk(outcomes[..|outcomes| - 1]) + (if outcomes[|outcomes| - 1].Ok? then 1 else 0)
  }

  /**
   * The failure records of the targets whose delete call fails, in target
   * order, each with the target's identifier and email and the error text.
   */
  function Failures(customers: seq<Target>, outcomes: seq<Outcome>): (fs: seq<FailedRecord>)
    requires |outcomes| == |customers|
    ensures |fs| == |customers| - CountOk(outcomes)
  {
    if customers == [] then []
    else
      var n := |customers| - 1;
      Failures(customers[..n], outcomes[..n])
      + (match outcomes[n]
         case Ok => []
         case Err(m) => [FailedRecord(customers[n].customerId, customers[n].email, Some(m))])
  }

  /** Handling target `k` after the first `k`: how the count and the failure list grow. */
  lemma TallyStep(customers: seq<Target>, outcomes: seq<Outcome>, k: nat)
    requires |outcomes| == |customers| && k < |customers|
    ensures CountOk(outcomes[..k + 1]) == CountOk(outcomes[..k]) + (if outcomes[k].Ok? then 1 else 0)
    ensures Failures(customers[..k + 1], outcomes[..k + 1])
         == Failures(customers[..k], outcomes[..k])
            + (if outcomes[k].Ok? then [] else [RecordAt(customers, outcomes, k)])
  {
    var cs, os := customers[..k + 1], outcomes[..k + 1];
    assert cs[..k] == customers[..k] && os[..k] == outcomes[..k];
    assert cs[k] == customers[k] && os[k] == outcomes[k];
  }

  /** The positions of the targets whose delete call fails, in increasing order. */
  ghost function FailedPositions(outcomes: seq<Outcome>): seq<nat>
  {
    if outcomes == [] then []
    else
      var n := |outcomes| - 1;
      FailedPositions(outcomes[..n]) + (if outcomes[n].Err? then [n] else [])
  }

  /** `FailedPositions` lists, in increasing order, exactly the positions whose call fails. */
  lemma {:induction false} FailedPositionsExact(outcomes: seq<Outcome>)
    ensures forall j :: 0 <= j < |FailedPositions(outcomes)| ==> FailedAt(outcomes, FailedPositions(outcomes)[j])
    ensures forall j, j' :: 0 <= j < j' < |FailedPositions(outcomes)| ==>
      FailedPositions(outcomes)[j] < FailedPositions(outcomes)[j']
    ensures forall i :: 0 <= i < |outcomes| ==> (outcomes[i].Err? <==> i in FailedPositions(outcomes))
  {
    if outcomes != [] {
      var n := |outcomes| - 1;
      var os := outcomes[..n];
      FailedPositionsExact(os);
      var fp, fp0 := FailedPositions(outcomes), FailedPositions(os);
      assert fp[..|fp0|] == fp0;
      forall j | 0 <= j < |fp0| ensures FailedAt(outcomes, fp[j]) && fp[j] < n {
        assert fp[j] == fp0[j] && FailedAt(os, fp0[j]);
      }
      forall i | 0 <= i < n ensures outcomes[i].Err? <==> i in fp {
        assert outcomes[i] == os[i];
      }
    }
  }

  /**
   * `Failures` holds one record per failed target, in target order: the
   * j-th record is that of the target at the j-th failed position.
   */
  lemma {:induction false} FailuresFollowTargets(customers: seq<Target>, outcomes: seq<Outcome>)
    requires |outcomes| == |customers|
    ensures |Failures(customers, outcomes)| == |FailedPositions(outcomes)|
    ensures forall j :: 0 <= j < |FailedPositions(outcomes)| ==>
      FailedAt(outcomes, FailedPositions(outcomes)[j])
      && Failures(customers, outcomes)[j] == RecordAt(customers, outcomes, FailedPositions(outcomes)[j])
  {
    FailedPositionsExact(outcomes);
    if customers != [] {
      var n := |customers| - 1;
      var cs, os := customers[..n], outcomes[..n];
      FailuresFollowTargets(cs, os);
      var fs, fp := Failures(customers, outcomes), FailedPositions(outcomes);
      var fs0, fp0 := Failures(cs, os), FailedPositions(os);
      if outcomes[n].Err? {
        assert fs == fs0 + [RecordAt(customers, outcomes, n)] && fp == fp0 + [n];
      } else {
        assert fs == fs0 && fp == fp0;
      }
      forall j | 0 <= j < |fp0| ensures fs[j] == RecordAt(customers, outcomes, fp[j]) {
        var i := fp0[j];
        assert fp[j] == i && fs[j] == fs0[j];
        assert fs0[j] == RecordAt(cs, os, i);
        assert cs[i] == customers[i] && os[i] == outcomes[i];
      }
    }
  }

  predicate FailedAt(outcomes: seq<Outcome>, i: nat) {
    i < |outcomes| && outcomes[i].Err?
  }

  /** The failure record for target `i`, whose delete call failed. */
  function RecordAt(customers: seq<Target>, outcomes: seq<Outcome>, i: nat): FailedRecord
    requires |outcomes| == |customers| && FailedAt(outcomes, i)
  {
    FailedRecord(customers[i].customerId, customers[i].email, Some(outcomes[i].message))
  }
}
