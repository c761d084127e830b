/** What each line of the report of cmd/validate-params/main.go says about the two tables. */
module ParamReport {
  import opened Wrappers
  import opened ParamValidator

  /** Row j is the last one with that key. */
  predicate IsLastRow(rows: seq<Row>, key: string, j: nat) {
    j < |rows| && rows[j].key == key && forall k | j < k < |rows| :: rows[k].key != key
  }

  lemma {:induction false} LastRowFound(rows: seq<Row>, key: string, n: nat, j: nat)
    requires j < n <= |rows| && rows[j].key == key && forall k | j < k < n :: rows[k].key != key
    ensures LastRow(rows, n, key) == Some(rows[j])
  {
    if j < n - 1 {
      LastRowFound(rows, key, n - 1, j);
    }
  }

  lemma {:induction false} LastRowAt(rows: seq<Row>, key: string, n: nat) returns (j: nat)
    requires n <= |rows| && LastRow(rows, n, key).Some?
    ensures j < n && rows[j].key == key && forall k | j < k < n :: rows[k].key != key
    ensures LastRow(rows, n, key) == Some(rows[j])
  {
    if rows[n - 1].key == key {
      j := n - 1;
    } else {
      j := LastRowAt(rows, key, n - 1);
    }
  }

  /** The column that the error names really is the one at fault. */
  predicate AtFault(spec: ParamSpec, row: Row, field: Field) {
    || (field == Type && row.paramType != spec.paramType)
    || (field == Category && row.category != spec.category)
    || (field == IsRuntime && row.isRuntime != spec.isRuntime)
    || (field == Description && row.description == "")
    || (field == DefaultValue && row.defaultValue != spec.defaultValue)
  }

  lemma {:induction false} FieldErrorsMembers(spec: ParamSpec, row: Row, n: nat, e: Error)
    requires n <= |FIELDS|
    ensures e in FieldErrors(spec, row, n)
        <==> exists i: nat | i < n :: Differs(spec, row, FIELDS[i]) && e == Mismatch(spec.key, FIELDS[i])
  {
    if n > 0 {
      FieldErrorsMembers(spec, row, n - 1, e);
    }
  }

  lemma RowErrorsMembers(spec: ParamSpec, row: Row, e: Error)
    ensures e in FieldErrors(spec, row, |FIELDS|)
        <==> e.Mismatch? && e.key == spec.key && AtFault(spec, row, e.field)
  {
    FieldErrorsMembers(spec, row, |FIELDS|, e);
    assert FIELDS[0] == Type && FIELDS[1] == Category && FIELDS[2] == IsRuntime;
    assert FIELDS[3] == Description && FIELDS[4] == DefaultValue;
  }

  /** What one specification is reported for. */
  predicate DueFor(spec: ParamSpec, rows: seq<Row>, e: Error) {
    match e
    case Missing(key) => key == spec.key && forall j | 0 <= j < |rows| :: rows[j].key != key
    case Mismatch(key, field) =>
      key == spec.key && exists j: nat | j < |rows| :: IsLastRow(rows, key, j) && AtFault(spec, rows[j], field)
    case Orphan(_) => false
  }

  lemma SpecReported(spec: ParamSpec, rows: seq<Row>, e: Error)
    ensures e in ValidateSingleParam(spec, RowOf(rows, spec.key)) <==> DueFor(spec, rows, e)
  {
    var row := RowOf(rows, spec.key);
    if row.Some? {
      var j := LastRowAt(rows, spec.key, |rows|);
      RowErrorsMembers(spec, row.value, e);
      assert IsLastRow(rows, spec.key, j);
      assert forall k: nat | IsLastRow(rows, spec.key, k) :: k == j;
    }
  }

  /** Of the first n specifications, the report has exactly the lines due for them: one for a
      specification without a row, and one for each column of its key's last row that differs. */
  lemma {:induction false} SpecsReportedExactlyWhen(specs: seq<ParamSpec>, rows: seq<Row>, n: nat, e: Error)
    requires n <= |specs|
    ensures e in SpecErrors(specs, rows, n) <==> exists i: nat | i < n :: DueFor(specs[i], rows, e)
  {
    if n > 0 {
      SpecsReportedExactlyWhen(specs, rows, n - 1, e);
      SpecReported(specs[n - 1], rows, e);
    }
  }

  /** No specification has the key of the row. */
  predicate Unspecified(specs: seq<ParamSpec>, row: Row) {
    forall i | 0 <= i < |specs| :: specs[i].key != row.key
  }

  lemma UnspecifiedExactlyWhen(specs: seq<ParamSpec>, row: Row)
    ensures Unspecified(specs, row) <==> !Specified(specs, row.key)
  {
    if i :| 0 <= i < |specs| && specs[i].key == row.key {
      assert specs[i] in specs;
    }
  }

  /** Of the first n rows, it has a line for exactly those without a specification. */
  lemma {:induction false} OrphansReportedExactlyWhen(specs: seq<ParamSpec>, rows: seq<Row>, n: nat, e: Error)
    requires n <= |rows|
    ensures e in OrphanErrors(specs, rows, n)
        <==> exists j: nat | j < n :: Unspecified(specs, rows[j]) && e == Orphan(rows[j].key)
  {
    if n > 0 {
      OrphansReportedExactlyWhen(specs, rows, n - 1, e);
      UnspecifiedExactlyWhen(specs, rows[n - 1]);
    }
  }
}
