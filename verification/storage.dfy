/** The storage collaborator behind `repository.save`: an append-only table
    whose identity column is assigned on insert. Whether a write fails is
    decided outside the model and arrives as `failure`. */
module Storage {
  import opened Wrappers
  import opened Entity

  datatype Row = Row(id: int, activity: UserActivity)

  datatype Table = Table(rows: seq<Row>, nextId: int)

  /** Identifiers increase along the table and stay below the next one to hand out. */
  predicate WellFormed(t: Table) {
    && (forall i, j :: 0 <= i < j < |t.rows| ==> t.rows[i].id < t.rows[j].id)
    && (forall i :: 0 <= i < |t.rows| ==> t.rows[i].id < t.nextId)
  }

  /** One insert: either the storage failure, or the table with one more row
      and the identifier that row received. */
  function Save(t: Table, a: UserActivity, failure: Option<string>): (r: Result<(Table, int), string>)
    ensures r.Failure? <==> failure.Some?
    ensures r.Failure? ==> r.error == failure.value
    ensures r.Success? ==> |r.value.0.rows| == |t.rows| + 1 && r.value.0.rows[..|t.rows|] == t.rows
    ensures r.Success? ==> r.value.0.rows[|t.rows|] == Row(r.value.1, a)
  {
    match failure
    case Some(e) => Failure(e)
    case None => Success((Table(t.rows + [Row(t.nextId, a)], t.nextId + 1), t.nextId))
  }

  /** A successful insert keeps the table well formed and gives the new row an
      identifier no earlier row has. */
  lemma SaveKeepsIdsUnique(t: Table, a: UserActivity)
    requires WellFormed(t)
    ensures Save(t, a, None).Success?
    ensures WellFormed(Save(t, a, None).value.0)
    ensures forall i :: 0 <= i < |t.rows| ==> t.rows[i].id != Save(t, a, None).value.1
  {
  }
}
