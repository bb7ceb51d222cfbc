/** What the repositories send to the store and how the store reads it:
    bound parameter values, the partial-update composer used by both
    repositories, and the positional binding of `$k` placeholders. */
module Sql {
  import opened Common

  /** An exact decimal `units / 10^scale`, as NUMERIC keeps it: "0.1" is
      Decimal(1, 1), "0" is Decimal(0, 0), "0.10" is Decimal(10, 2). */
  datatype Decimal = Decimal(units: nat, scale: nat)

  predicate IsPositive(d: Decimal) {
    d.units > 0
  }

  /** A bound parameter or a column value. */
  datatype SqlValue =
    | SqlNull
    | SqlInt(number: int)
    | SqlText(text: string)
    | SqlDecimal(decimal: Decimal)
    | SqlBool(flag: bool)

  /** One key of an update object with its new value. A sequence of them
      keeps the object's key order. */
  type Change = (string, SqlValue)

  /** Keys of a JavaScript object are unique. */
  predicate DistinctKeys(data: seq<Change>) {
    forall i, j | 0 <= i < j < |data| :: data[i].0 != data[j].0
  }

  /** The column a key is written to under a remap table. */
  function ColumnFor(key: string, jsToSql: map<string, string>): string {
    if key in jsToSql then jsToSql[key] else key
  }

  /** One `"column"=$placeholder` item of a SET list. */
  datatype SetCol = SetCol(column: string, placeholder: nat)

  /** What the partial-update composer hands back: the SET list and the
      values its placeholders refer to, in the same order. */
  datatype PartialUpdate = PartialUpdate(setCols: seq<SetCol>, values: seq<SqlValue>)

  const NO_DATA := "No data"

  function SetColsFrom(data: seq<Change>, jsToSql: map<string, string>, first: nat): (cols: seq<SetCol>)
    ensures |cols| == |data|
    ensures forall i | 0 <= i < |data| :: cols[i] == SetCol(ColumnFor(data[i].0, jsToSql), first + i)
  {
    if data == [] then []
    else [SetCol(ColumnFor(data[0].0, jsToSql), first)] + SetColsFrom(data[1..], jsToSql, first + 1)
  }

  function ValuesOf(data: seq<Change>): (vs: seq<SqlValue>)
    ensures |vs| == |data|
    ensures forall i | 0 <= i < |data| :: vs[i] == data[i].1
  {
    if data == [] then [] else [data[0].1] + ValuesOf(data[1..])
  }

  /** The partial-update composer: one SET item per key, in key order,
      numbered from $1, each referring to the value at the same position;
      an update object without keys is a BadRequest. */
  function SqlForPartialUpdate(data: seq<Change>, jsToSql: map<string, string>): (r: Result<PartialUpdate>)
    ensures r.Failure? <==> data == []
    ensures r.Failure? ==> r.error == BadRequest(NO_DATA)
    ensures r.Success? ==> |r.value.setCols| == |r.value.values| == |data|
    ensures r.Success? ==> forall i | 0 <= i < |data| ::
      && r.value.setCols[i] == SetCol(ColumnFor(data[i].0, jsToSql), i + 1)
      && r.value.values[i] == data[i].1
  {
    if data == [] then Failure(BadRequest(NO_DATA))
    else Success(PartialUpdate(SetColsFrom(data, jsToSql, 1), ValuesOf(data)))
  }

  /** How the store binds `$k`: the k-th parameter, counting from one. */
  function Param(params: seq<SqlValue>, k: nat): (r: Result<SqlValue>)
    ensures r.Success? <==> 1 <= k <= |params|
    ensures r.Success? ==> r.value == params[k - 1]
  {
    if 1 <= k <= |params| then Success(params[k - 1]) else Failure(StoreFault(BindError))
  }

  /** The assignments a SET list performs once its placeholders are bound. */
  function Resolve(setCols: seq<SetCol>, params: seq<SqlValue>): Result<seq<Change>> {
    if setCols == [] then Success([])
    else match Param(params, setCols[0].placeholder)
      case Failure(e) => Failure(e)
      case Success(v) =>
        match Resolve(setCols[1..], params)
        case Failure(e) => Failure(e)
        case Success(rest) => Success([(setCols[0].column, v)] + rest)
  }

  /** The update object with every key replaced by its column. */
  function Renamed(data: seq<Change>, jsToSql: map<string, string>): seq<Change> {
    if data == [] then [] else [(ColumnFor(data[0].0, jsToSql), data[0].1)] + Renamed(data[1..], jsToSql)
  }

  /** With an empty remap table every key is its own column. */
  lemma {:induction false} RenamedIdentity(data: seq<Change>)
    ensures Renamed(data, map[]) == data
  {
    if data != [] {
      RenamedIdentity(data[1..]);
      assert data == [data[0]] + data[1..];
    }
  }

  lemma {:induction false} ResolveFrom(data: seq<Change>, jsToSql: map<string, string>, params: seq<SqlValue>, first: nat)
    requires 1 <= first && first + |data| <= |params| + 1
    requires forall i | 0 <= i < |data| :: params[first + i - 1] == data[i].1
    ensures Resolve(SetColsFrom(data, jsToSql, first), params) == Success(Renamed(data, jsToSql))
  {
    if data != [] {
      ResolveFrom(data[1..], jsToSql, params, first + 1);
    }
  }

  /** Binding the composer's SET list to its own values, followed by any
      trailing parameters, performs exactly the requested changes. */
  lemma ResolveComposed(data: seq<Change>, jsToSql: map<string, string>, extra: seq<SqlValue>)
    requires data != []
    ensures SqlForPartialUpdate(data, jsToSql).Success?
    ensures var u := SqlForPartialUpdate(data, jsToSql).value;
      Resolve(u.setCols, u.values + extra) == Success(Renamed(data, jsToSql))
  {
    var u := SqlForPartialUpdate(data, jsToSql).value;
    ResolveFrom(data, jsToSql, u.values + extra, 1);
  }

  /** The columns of a table an update may assign, and the values each
      of them accepts. */
  datatype Columns = Columns(updatable: set<string>, accepts: (string, SqlValue) -> bool)

  /** What the store refuses in an assignment before it touches any row:
      a column the update cannot set, or a value of the wrong type for
      the column. */
  function AssignmentFault(cols: Columns, column: string, v: SqlValue): (f: Option<Fault>)
    ensures f == None <==> column in cols.updatable && cols.accepts(column, v)
    ensures f.Some? ==> (f.value.UnknownColumn? || f.value.InvalidValue?) && f.value.column == column
  {
    if column !in cols.updatable then Some(UnknownColumn(column))
    else if cols.accepts(column, v) then None
    else Some(InvalidValue(column))
  }

  /** The first refused assignment, in SET order. */
  function FirstFault(cols: Columns, changes: seq<Change>): (f: Option<Fault>)
    ensures f == None <==> forall i | 0 <= i < |changes| :: AssignmentFault(cols, changes[i].0, changes[i].1) == None
    ensures f.Some? ==> exists i | 0 <= i < |changes| :: AssignmentFault(cols, changes[i].0, changes[i].1) == f
  {
    if changes == [] then None
    else if AssignmentFault(cols, changes[0].0, changes[0].1).Some? then AssignmentFault(cols, changes[0].0, changes[0].1)
    else
      var f := FirstFault(cols, changes[1..]);
      assert f.Some? ==> exists i | 1 <= i < |changes| :: AssignmentFault(cols, changes[i].0, changes[i].1) == f by {
        if f.Some? {
          var i :| 0 <= i < |changes[1..]| && AssignmentFault(cols, changes[1..][i].0, changes[1..][i].1) == f;
          assert changes[1..][i] == changes[i + 1];
        }
      }
      f
  }

  /** `UPDATE t SET <setCols> WHERE key = $keyPlaceholder`, with its
      parameter list. */
  datatype UpdateStatement = UpdateStatement(setCols: seq<SetCol>, keyPlaceholder: nat, params: seq<SqlValue>)

  /** The statement both repositories build for an update: the composer's
      values followed by the row key, which is bound at position
      `values.length + 1`, after every update value. */
  function BuildUpdate(data: seq<Change>, jsToSql: map<string, string>, key: SqlValue): (r: Result<UpdateStatement>)
    ensures data == [] ==> r == Failure(BadRequest(NO_DATA))
    ensures data != [] ==> r.Success?
    ensures r.Success? ==> r.value.keyPlaceholder == |data| + 1
    ensures r.Success? ==> Param(r.value.params, r.value.keyPlaceholder) == Success(key)
    ensures r.Success? ==> Resolve(r.value.setCols, r.value.params) == Success(Renamed(data, jsToSql))
  {
    match SqlForPartialUpdate(data, jsToSql)
    case Failure(e) => Failure(e)
    case Success(u) =>
      ResolveComposed(data, jsToSql, [key]);
      Success(UpdateStatement(u.setCols, |u.values| + 1, u.values + [key]))
  }
}
