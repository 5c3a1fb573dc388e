/**
 * Record source: turns the `id` and `email` columns of the CSV rows into the
 * ordered list of deletion targets (`load_customers_from_csv`, the same
 * code in both scripts).
 */
module Customers {
  import opened Wrappers
  import opened Text

  /** The `id` and `email` cells of one CSV row, as read (before trimming). */
  type Row = (string, string)

  /** One customer to delete: `{customer_id, email, original_id}`. */
  datatype Target = Target(customerId: string, email: string, originalId: string)

  /** A row whose trimmed `id` and trimmed `email` are both empty. */
  predicate Blank(row: Row) {
    Strip(row.0) == [] && Strip(row.1) == []
  }

  /** The target a row contributes, or `None` when the row is skipped. */
  function TargetOf(row: Row): (t: Option<Target>)
    ensures t.None? <==> Blank(row)
    ensures t.Some? ==> t.value.email == Strip(row.1) && t.value.originalId == Strip(row.0)
    ensures t.Some? ==> t.value.customerId != []
    ensures t.Some? && t.value.originalId != [] ==> t.value.customerId == t.value.originalId
    ensures t.Some? && t.value.originalId == [] ==> t.value.customerId == t.value.email
  {
    var customerId := Strip(row.0);
    var email := Strip(row.1);
    if customerId == [] && email == [] then None
    else Some(Target(if customerId != [] then customerId else email, email, customerId))
  }

  /** The targets of `rows`, in row order: the specification of `LoadCustomers`. */
  function Targets(rows: seq<Row>): (ts: seq<Target>)
    ensures |ts| <= |rows|
    ensures forall j :: 0 <= j < |ts| ==> ts[j].customerId != []
  {
    if rows == [] then []
    else
      var last := TargetOf(rows[|rows| - 1]);
      Targets(rows[..|rows| - 1]) + (if last.Some? then [last.value] else [])
  }

  /** The positions of the rows that are not skipped, in increasing order. */
  ghost function KeptRows(rows: seq<Row>): seq<nat>
  {
    if rows == [] then []
    else
      var n := |rows| - 1;
      KeptRows(rows[..n]) + (if Blank(rows[n]) then [] else [n])
  }

  /** Row `i` exists and is not skipped. */
  predicate KeptAt(rows: seq<Row>, i: nat) {
    i < |rows| && !Blank(rows[i])
  }

  /** `KeptRows` lists, in increasing order, exactly the rows that are not skipped. */
  lemma {:induction false} KeptRowsExact(rows: seq<Row>)
    ensures forall j :: 0 <= j < |KeptRows(rows)| ==> KeptAt(rows, KeptRows(rows)[j])
    ensures forall j, j' :: 0 <= j < j' < |KeptRows(rows)| ==> KeptRows(rows)[j] < KeptRows(rows)[j']
    ensures forall i :: 0 <= i < |rows| ==> (KeptAt(rows, i) <==> i in KeptRows(rows))
  {
    if rows != [] {
      var n := |rows| - 1;
      var init := rows[..n];
      KeptRowsExact(init);
      var kr, kr0 := KeptRows(rows), KeptRows(init);
      if Blank(rows[n]) {
        assert kr == kr0;
      } else {
        assert kr == kr0 + [n];
      }
      forall j | 0 <= j < |kr0| ensures KeptAt(rows, kr[j]) && kr[j] < n {
        assert kr[j] == kr0[j] && KeptAt(init, kr0[j]);
        assert init[kr0[j]] == rows[kr0[j]];
      }
      forall i | 0 <= i < n ensures KeptAt(rows, i) <==> i in kr {
        assert init[i] == rows[i];
        assert KeptAt(rows, i) == KeptAt(init, i);
      }
    }
  }

  /**
   * Exactly one target per row that is not skipped, in row order: the j-th
   * target is the one the j-th kept row contributes.
   */
  lemma {:induction false} TargetsFollowRows(rows: seq<Row>)
    ensures |Targets(rows)| == |KeptRows(rows)|
    ensures forall j :: 0 <= j < |KeptRows(rows)| ==>
      KeptAt(rows, KeptRows(rows)[j]) && TargetOf(rows[KeptRows(rows)[j]]) == Some(Targets(rows)[j])
  {
    KeptRowsExact(rows);
    if rows != [] {
      var n := |rows| - 1;
      var init := rows[..n];
      TargetsFollowRows(init);
      var ts, kr := Targets(rows), KeptRows(rows);
      var ts0, kr0 := Targets(init), KeptRows(init);
      assert kr[..|kr0|] == kr0 && ts[..|ts0|] == ts0;
      forall j | 0 <= j < |kr0| ensures TargetOf(rows[kr[j]]) == Some(ts[j]) {
        assert kr[j] == kr0[j] && ts[j] == ts0[j];
        assert init[kr0[j]] == rows[kr0[j]];
      }
    }
  }

  /**
   * `load_customers_from_csv` after the CSV has been read: trims both
   * cells of each row, skips blank rows and appends one target per row.
   */
  method LoadCustomers(rows: seq<Row>) returns (customers: seq<Target>)
    ensures customers == Targets(rows)
  {
    customers := [];
    for i := 0 to |rows|
      invariant customers == Targets(rows[..i])
    {
      assert rows[..i + 1][..i] == rows[..i];
      var customerId := Strip(rows[i].0);
      var email := Strip(rows[i].1);
      if customerId == [] && email == [] {
        continue;
      }
      var identifier := if customerId != [] then customerId else email;
      customers := customers + [Target(identifier, email, customerId)];
    }
    assert rows[..|rows|] == rows;
  }

  /**
   * The three-row example: a row with both cells, a row with only an email
   * (the email becomes the identifier), and a blank row (skipped).
   */
  lemma ThreeRowExample()
    ensures Targets([("a1", "a@x.com"), ("", "b@x.com"), ("", "")])
         == [Target("a1", "a@x.com", "a1"), Target("b@x.com", "b@x.com", "")]
  {
    var rows: seq<Row> := [("a1", "a@x.com"), ("", "b@x.com"), ("", "")];
    assert Strip("a1") == "a1" && Strip("a@x.com") == "a@x.com" && Strip("b@x.com") == "b@x.com";
    assert TargetOf(rows[0]) == Some(Target("a1", "a@x.com", "a1"));
    assert TargetOf(rows[1]) == Some(Target("b@x.com", "b@x.com", ""));
    assert TargetOf(rows[2]) == None;
    assert rows[..1][..0] == [] && rows[..2][..1] == rows[..1] && rows[..3][..2] == rows[..2] && rows[..3] == rows;
  }
}
