/**
 * `run_query` decides the shape of its result from the query text alone:
 * the new row's id for an insert, the row list for a select, and `true`
 * for anything else. The PDO statement it runs is not part of this model.
 */
module QueryKind {
  import opened PhpStrings

  datatype Kind = LastInsertId | RowList | Succeeded

  /** The insert statement of `create_license_request`. */
  const InsertRequestQuery: string :=
    "INSERT" + " INTO licenserequests (approval_status, national_id, license, ExpireTime) VALUES (:approval_status, :national_id, :license, :ExpireTime)"

  /**
   * Case-insensitive substring tests on the query: "insert" wins over
   * "select", and a query with neither yields a plain success flag.
   */
  function Classify(query: string): (k: Kind)
    ensures k == LastInsertId <==> exists i :: OccursAt(ToLower(query), "insert", i)
    ensures k == RowList <==>
      (forall i :: !OccursAt(ToLower(query), "insert", i)) && exists i :: OccursAt(ToLower(query), "select", i)
    ensures k == Succeeded <==>
      forall i :: !OccursAt(ToLower(query), "insert", i) && !OccursAt(ToLower(query), "select", i)
  {
    var lower := ToLower(query);
    if Contains(lower, "insert") then LastInsertId
    else if Contains(lower, "select") then RowList
    else Succeeded
  }

  /** Upper and lower case make no difference to the kind. */
  lemma ClassifyIgnoresCase(query: string)
    ensures Classify(ToLower(query)) == Classify(query)
  {
    assert ToLower(ToLower(query)) == ToLower(query);
  }

  /** A query that mentions both words is treated as an insert. */
  lemma InsertWinsOverSelect(query: string, i: int, j: int)
    requires OccursAt(ToLower(query), "insert", i) && OccursAt(ToLower(query), "select", j)
    ensures Classify(query) == LastInsertId
  {
  }

  /** The request insert of `create_license_request` returns the new id. */
  lemma InsertRequestQueryYieldsId()
    ensures Classify(InsertRequestQuery) == LastInsertId
  {
    var q := InsertRequestQuery;
    var lower := ToLower(q);
    assert lower[..6] == "insert";
    assert OccursAt(lower, "insert", 0);
  }
}
