/** cmd/validate-params/main.go: comparing the system_params rows with the specification
    compiled into the program. */
module ParamValidator {
  import opened Wrappers

  datatype ParamSpec = ParamSpec(
    key: string, defaultValue: string, paramType: string, category: string, isRuntime: bool)

  datatype Row = Row(
    key: string, value: string, defaultValue: string, paramType: string, category: string, isRuntime: bool,
    description: string)

  datatype Field = Type | Category | IsRuntime | Description | DefaultValue

  datatype Error = Missing(key: string) | Mismatch(key: string, field: Field) | Orphan(key: string)

  /** One field of a row fails; the operator's `value` is never compared. */
  predicate Differs(spec: ParamSpec, row: Row, field: Field) {
    match field
    case Type => row.paramType != spec.paramType
    case Category => row.category != spec.category
    case IsRuntime => row.isRuntime != spec.isRuntime
    case Description => row.description == ""
    case DefaultValue => row.defaultValue != spec.defaultValue
  }

  function Bit(b: bool): nat { if b then 1 else 0 }

  /** The fields in the order in which they are compared. */
  const FIELDS: seq<Field> := [Type, Category, IsRuntime, Description, DefaultValue]

  function FieldErrors(spec: ParamSpec, row: Row, n: nat): seq<Error>
    requires n <= |FIELDS|
  {
    if n == 0 then []
    else
      FieldErrors(spec, row, n - 1)
      + if Differs(spec, row, FIELDS[n - 1]) then [Mismatch(spec.key, FIELDS[n - 1])] else []
  }

  function ValidateSingleParam(spec: ParamSpec, row: Option<Row>): seq<Error> {
    match row
    case None => [Missing(spec.key)]
    case Some(db) => FieldErrors(spec, db, |FIELDS|)
  }

  /** The last of the first n rows with that key. */
  function LastRow(rows: seq<Row>, n: nat, key: string): (r: Option<Row>)
    requires n <= |rows|
    ensures r.Some? ==> r.value in rows && r.value.key == key
    ensures r.None? ==> forall i | 0 <= i < n :: rows[i].key != key
  {
    if n == 0 then None else if rows[n - 1].key == key then Some(rows[n - 1]) else LastRow(rows, n - 1, key)
  }

  function RowOf(rows: seq<Row>, key: string): Option<Row> { LastRow(rows, |rows|, key) }

  predicate Specified(specs: seq<ParamSpec>, key: string) { exists s | s in specs :: s.key == key }

  /** The errors about the first n specifications. */
  function SpecErrors(specs: seq<ParamSpec>, rows: seq<Row>, n: nat): seq<Error>
    requires n <= |specs|
  {
    if n == 0 then []
    else SpecErrors(specs, rows, n - 1) + ValidateSingleParam(specs[n - 1], RowOf(rows, specs[n - 1].key))
  }

  /** The errors about the first n rows. */
  function OrphanErrors(specs: seq<ParamSpec>, rows: seq<Row>, n: nat): seq<Error>
    requires n <= |rows|
  {
    if n == 0 then []
    else OrphanErrors(specs, rows, n - 1) + if Specified(specs, rows[n - 1].key) then [] else [Orphan(rows[n - 1].key)]
  }

  // ---- the loops ----

  method BuildParamMap(rows: seq<Row>) returns (dbMap: map<string, Row>)
    ensures forall key :: RowOf(rows, key) == if key in dbMap then Some(dbMap[key]) else None
  {
    dbMap := map[];
    for i := 0 to |rows|
      invariant forall key :: LastRow(rows, i, key) == if key in dbMap then Some(dbMap[key]) else None
    {
      dbMap := dbMap[rows[i].key := rows[i]];
    }
  }

  method ValidateAllParams(specs: seq<ParamSpec>, dbMap: map<string, Row>, ghost rows: seq<Row>)
    returns (errors: seq<Error>)
    requires forall key :: RowOf(rows, key) == if key in dbMap then Some(dbMap[key]) else None
    ensures errors == SpecErrors(specs, rows, |specs|)
  {
    errors := [];
    for i := 0 to |specs|
      invariant errors == SpecErrors(specs, rows, i)
    {
      var key := specs[i].key;
      var row := if key in dbMap then Some(dbMap[key]) else None;
      assert row == RowOf(rows, key);
      errors := errors + ValidateSingleParam(specs[i], row);
    }
  }

  method BuildExpectedKeysSet(specs: seq<ParamSpec>) returns (expected: set<string>)
    ensures forall key :: key in expected <==> Specified(specs, key)
  {
    expected := {};
    for i := 0 to |specs|
      invariant forall key :: key in expected <==> exists j | 0 <= j < i :: specs[j].key == key
    {
      expected := expected + {specs[i].key};
    }
    forall key
      ensures key in expected <==> Specified(specs, key)
    {
      if j :| 0 <= j < |specs| && specs[j].key == key {
        assert specs[j] in specs;
      }
    }
  }

  method CheckUnexpectedParams(specs: seq<ParamSpec>, rows: seq<Row>) returns (errors: seq<Error>)
    ensures errors == OrphanErrors(specs, rows, |rows|)
  {
    var expected := BuildExpectedKeysSet(specs);
    errors := [];
    for i := 0 to |rows|
      invariant errors == OrphanErrors(specs, rows, i)
    {
      if rows[i].key !in expected {
        errors := errors + [Orphan(rows[i].key)];
      }
    }
  }

  /** A failure carries the number of errors. */
  method ValidateFromParams(specs: seq<ParamSpec>, rows: seq<Row>) returns (r: Result<(), nat>)
    ensures r.Ok? <==> Accepted(specs, rows)
    ensures r.Err? ==>
              r.error == MissingCount(specs, rows, |specs|) + MismatchCount(specs, rows, |specs|)
                         + OrphanCount(specs, rows, |rows|)
  {
    var dbMap := BuildParamMap(rows);
    var errors := ValidateAllParams(specs, dbMap, rows);
    var orphans := CheckUnexpectedParams(specs, rows);
    SpecErrorsCounted(specs, rows, |specs|);
    OrphansCounted(specs, rows, |rows|);
    NoErrorExactlyWhen(specs, rows);
    errors := errors + orphans;
    r := if |errors| > 0 then Err(|errors|) else Ok(());
  }

  // ---- what passing means ----

  predicate Agrees(spec: ParamSpec, row: Row) {
    && row.paramType == spec.paramType && row.category == spec.category && row.isRuntime == spec.isRuntime
    && row.defaultValue == spec.defaultValue && row.description != ""
  }

  /** Among rows of one key only the last is looked at. */
  predicate Met(spec: ParamSpec, rows: seq<Row>) {
    RowOf(rows, spec.key).Some? && Agrees(spec, RowOf(rows, spec.key).value)
  }

  predicate Accepted(specs: seq<ParamSpec>, rows: seq<Row>) {
    && (forall i | 0 <= i < |specs| :: Met(specs[i], rows))
    && (forall i | 0 <= i < |rows| :: Specified(specs, rows[i].key))
  }

  /** Specifications without a row. */
  function MissingCount(specs: seq<ParamSpec>, rows: seq<Row>, n: nat): nat
    requires n <= |specs|
  {
    if n == 0 then 0 else MissingCount(specs, rows, n - 1) + Bit(RowOf(rows, specs[n - 1].key).None?)
  }

  /** How many of the first n fields fail. */
  function Mismatches(spec: ParamSpec, row: Row, n: nat): nat
    requires n <= |FIELDS|
  {
    if n == 0 then 0 else Mismatches(spec, row, n - 1) + Bit(Differs(spec, row, FIELDS[n - 1]))
  }

  /** Fields that fail. */
  function MismatchCount(specs: seq<ParamSpec>, rows: seq<Row>, n: nat): nat
    requires n <= |specs|
  {
    if n == 0 then 0
    else
      MismatchCount(specs, rows, n - 1)
      + match RowOf(rows, specs[n - 1].key) case None => 0 case Some(row) => Mismatches(specs[n - 1], row, |FIELDS|)
  }

  /** Rows without a specification. */
  function OrphanCount(specs: seq<ParamSpec>, rows: seq<Row>, n: nat): nat
    requires n <= |rows|
  {
    if n == 0 then 0 else OrphanCount(specs, rows, n - 1) + Bit(!Specified(specs, rows[n - 1].key))
  }

  lemma {:induction false} FieldsCounted(spec: ParamSpec, row: Row, n: nat)
    requires n <= |FIELDS|
    ensures |FieldErrors(spec, row, n)| == Mismatches(spec, row, n)
    ensures Mismatches(spec, row, n) == 0 <==> forall i | 0 <= i < n :: !Differs(spec, row, FIELDS[i])
  {
    if n > 0 {
      FieldsCounted(spec, row, n - 1);
    }
  }

  lemma RowCounted(spec: ParamSpec, row: Row)
    ensures |FieldErrors(spec, row, |FIELDS|)| == Mismatches(spec, row, |FIELDS|)
    ensures Mismatches(spec, row, |FIELDS|) == 0 <==> Agrees(spec, row)
  {
    FieldsCounted(spec, row, |FIELDS|);
    assert FIELDS[0] == Type && FIELDS[1] == Category && FIELDS[2] == IsRuntime;
    assert FIELDS[3] == Description && FIELDS[4] == DefaultValue;
  }

  lemma {:induction false} SpecErrorsCounted(specs: seq<ParamSpec>, rows: seq<Row>, n: nat)
    requires n <= |specs|
    ensures |SpecErrors(specs, rows, n)| == MissingCount(specs, rows, n) + MismatchCount(specs, rows, n)
  {
    if n > 0 {
      SpecErrorsCounted(specs, rows, n - 1);
      var row := RowOf(rows, specs[n - 1].key);
      if row.Some? {
        RowCounted(specs[n - 1], row.value);
      }
    }
  }

  lemma {:induction false} OrphansCounted(specs: seq<ParamSpec>, rows: seq<Row>, n: nat)
    requires n <= |rows|
    ensures |OrphanErrors(specs, rows, n)| == OrphanCount(specs, rows, n)
    ensures OrphanCount(specs, rows, n) == 0 <==> forall i | 0 <= i < n :: Specified(specs, rows[i].key)
  {
    if n > 0 {
      OrphansCounted(specs, rows, n - 1);
    }
  }

  lemma {:induction false} SpecsMetExactlyWhen(specs: seq<ParamSpec>, rows: seq<Row>, n: nat)
    requires n <= |specs|
    ensures MissingCount(specs, rows, n) + MismatchCount(specs, rows, n) == 0 <==>
            forall i | 0 <= i < n :: Met(specs[i], rows)
  {
    if n > 0 {
      SpecsMetExactlyWhen(specs, rows, n - 1);
      var row := RowOf(rows, specs[n - 1].key);
      if row.Some? {
        RowCounted(specs[n - 1], row.value);
      }
    }
  }

  lemma NoErrorExactlyWhen(specs: seq<ParamSpec>, rows: seq<Row>)
    ensures SpecErrors(specs, rows, |specs|) + OrphanErrors(specs, rows, |rows|) == [] <==> Accepted(specs, rows)
  {
    SpecErrorsCounted(specs, rows, |specs|);
    OrphansCounted(specs, rows, |rows|);
    SpecsMetExactlyWhen(specs, rows, |specs|);
  }

  function SpecKeys(specs: seq<ParamSpec>): set<string> { set s | s in specs :: s.key }

  function RowKeys(rows: seq<Row>): set<string> { set r | r in rows :: r.key }

  predicate DistinctKeys(rows: seq<Row>) {
    forall i, j | 0 <= i < j < |rows| :: rows[i].key != rows[j].key
  }

  lemma TheRowOfItsKey(rows: seq<Row>, r: Row)
    requires DistinctKeys(rows) && r in rows
    ensures RowOf(rows, r.key) == Some(r)
  {
    var last := RowOf(rows, r.key);
    var i :| 0 <= i < |rows| && rows[i] == r;
    var j :| 0 <= j < |rows| && rows[j] == last.value;
    assert rows[i].key == rows[j].key;
  }

  predicate SameKeys(specs: seq<ParamSpec>, rows: seq<Row>) {
    SpecKeys(specs) == RowKeys(rows)
  }

  predicate AllAgree(specs: seq<ParamSpec>, rows: seq<Row>) {
    forall s, r | s in specs && r in rows && s.key == r.key :: Agrees(s, r)
  }

  lemma AcceptedMeansAgreement(specs: seq<ParamSpec>, rows: seq<Row>)
    requires DistinctKeys(rows) && Accepted(specs, rows)
    ensures SameKeys(specs, rows) && AllAgree(specs, rows)
  {
    forall s | s in specs
      ensures Met(s, rows)
    {
      var i :| 0 <= i < |specs| && specs[i] == s;
      assert Met(specs[i], rows);
    }
    forall r | r in rows
      ensures Specified(specs, r.key) && RowOf(rows, r.key) == Some(r)
    {
      var i :| 0 <= i < |rows| && rows[i] == r;
      assert Specified(specs, rows[i].key);
      TheRowOfItsKey(rows, r);
    }
    forall key | key in SpecKeys(specs)
      ensures key in RowKeys(rows)
    {
      var s :| s in specs && s.key == key;
      assert RowOf(rows, key).value in rows;
    }
  }

  lemma AgreementIsAccepted(specs: seq<ParamSpec>, rows: seq<Row>)
    requires SameKeys(specs, rows) && AllAgree(specs, rows)
    ensures Accepted(specs, rows)
  {
    forall i | 0 <= i < |specs|
      ensures Met(specs[i], rows)
    {
      assert specs[i] in specs && specs[i].key in SpecKeys(specs);
      var r :| r in rows && r.key == specs[i].key;
      var j :| 0 <= j < |rows| && rows[j] == r;
      assert RowOf(rows, specs[i].key).Some?;
    }
    forall i | 0 <= i < |rows|
      ensures Specified(specs, rows[i].key)
    {
      assert rows[i] in rows && rows[i].key in RowKeys(rows);
    }
  }

  /** On rows with distinct keys, passing is agreement of the two tables, whatever their order. */
  lemma AcceptedExactlyWhen(specs: seq<ParamSpec>, rows: seq<Row>)
    requires DistinctKeys(rows)
    ensures Accepted(specs, rows) <==> SameKeys(specs, rows) && AllAgree(specs, rows)
  {
    if Accepted(specs, rows) {
      AcceptedMeansAgreement(specs, rows);
    } else if SameKeys(specs, rows) && AllAgree(specs, rows) {
      AgreementIsAccepted(specs, rows);
    }
  }

  /** Without distinct keys it is not: a wrong row goes unseen behind a later row of its key. */
  lemma ShadowedRowIsUnseen(spec: ParamSpec, wrong: Row, right: Row)
    requires wrong.key == right.key == spec.key && Agrees(spec, right) && !Agrees(spec, wrong)
    ensures Accepted([spec], [wrong, right]) && !AllAgree([spec], [wrong, right])
    ensures !Accepted([spec], [right, wrong])
  {
    assert LastRow([wrong, right], 2, spec.key) == Some(right);
    assert LastRow([right, wrong], 2, spec.key) == Some(wrong);
    assert spec in [spec] && wrong in [wrong, right];
    assert !Met([spec][0], [right, wrong]);
    assert forall i | 0 <= i < 2 :: [wrong, right][i].key == spec.key;
  }
}
