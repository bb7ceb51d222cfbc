/** The job repository: an in-memory jobs table keyed by a generated id,
    a read-only companies table, the filter composer behind the job list,
    and the create / read / update / delete operations with their
    existence checks. */
module Jobs {
  import opened Common
  import opened Text
  import opened Sql

  /** A stored row of the jobs table, without its id. */
  datatype JobRow = JobRow(title: string, salary: Option<int>, equity: Option<Decimal>, companyHandle: string)

  /** A job as the insert and the update return it. */
  datatype Job = Job(id: int, title: string, salary: Option<int>, equity: Option<Decimal>, companyHandle: string)

  function JobOf(id: int, row: JobRow): Job {
    Job(id, row.title, row.salary, row.equity, row.companyHandle)
  }

  datatype Company = Company(handle: string, name: string, description: string, numEmployees: Option<int>, logoUrl: Option<string>)

  /** One row of the job list: the job with the name of its company, which
      the LEFT JOIN leaves null when no company has that handle. */
  datatype JobSummary = JobSummary(
    id: int, title: string, salary: Option<int>, equity: Option<Decimal>,
    companyHandle: string, companyName: Option<string>)

  /** A job as the lookup by id returns it: the company record nested in
      place of the flat handle. */
  datatype JobDetail = JobDetail(id: int, title: string, salary: Option<int>, equity: Option<Decimal>, company: Option<Company>)

  function Summarize(id: int, row: JobRow, companies: map<string, Company>): JobSummary {
    JobSummary(id, row.title, row.salary, row.equity, row.companyHandle,
      if row.companyHandle in companies then Some(companies[row.companyHandle].name) else None)
  }

  /*** The filter composer ***/

  /** The optional criteria object of the job list. */
  datatype Criteria = Criteria(minSalary: Arg<int>, hasEquity: Arg<bool>, title: Arg<string>)

  const NO_CRITERIA := Criteria(Absent, Absent, Absent)

  /** The text interpolated into the title pattern: JavaScript turns null
      into "null". */
  function TitleText(title: Arg<string>): string {
    match title
    case Given(t) => t
    case Null => "null"
    case Absent => "undefined"
  }

  /** The title is bound wrapped in `%` for a substring match. */
  function TitlePattern(title: Arg<string>): string {
    "%" + TitleText(title) + "%"
  }

  /** The value bound for a minimum salary; null is bound as NULL. */
  function SalaryParam(minSalary: Arg<int>): SqlValue {
    if minSalary.Given? then SqlInt(minSalary.value) else SqlNull
  }

  /** What a criteria object means for one job: a salary of null never
      meets a minimum, an equity of null or zero never counts as equity,
      and the title must contain the given text, ignoring case. */
  predicate Matches(c: Criteria, row: JobRow) {
    && (match c.minSalary
        case Absent => true
        case Null => false
        case Given(m) => row.salary.Some? && row.salary.value >= m)
    && (c.hasEquity == Given(true) ==> row.equity.Some? && IsPositive(row.equity.value))
    && (c.title != Absent ==> ContainsIgnoringCase(row.title, TitleText(c.title)))
  }

  /** One predicate fragment; a placeholder `k` stands for `$k`. */
  datatype Condition = SalaryAtLeast(placeholder: nat) | EquityPositive | TitleILike(placeholder: nat)

  /** ILIKE against a pattern of the form `%inner%`. */
  predicate ILike(s: string, pattern: string) {
    && |pattern| >= 2 && pattern[0] == '%' && pattern[|pattern| - 1] == '%'
    && ContainsIgnoringCase(s, pattern[1..|pattern| - 1])
  }

  /** How the store evaluates one fragment for a row, `$k` being bound to
      the k-th value; a comparison with NULL is never true. */
  predicate Holds(cond: Condition, values: seq<SqlValue>, row: JobRow) {
    match cond
    case SalaryAtLeast(k) =>
      1 <= k <= |values| && values[k - 1].SqlInt? && row.salary.Some? && row.salary.value >= values[k - 1].number
    case EquityPositive =>
      row.equity.Some? && IsPositive(row.equity.value)
    case TitleILike(k) =>
      1 <= k <= |values| && values[k - 1].SqlText? && ILike(row.title, values[k - 1].text)
  }

  /** The fragments joined with AND. */
  predicate Satisfies(conds: seq<Condition>, values: seq<SqlValue>, row: JobRow) {
    forall i | 0 <= i < |conds| :: Holds(conds[i], values, row)
  }

  /** Position of a fragment kind in the fixed order minSalary, hasEquity, title. */
  function Rank(cond: Condition): nat {
    match cond
    case SalaryAtLeast(_) => 0
    case EquityPositive => 1
    case TitleILike(_) => 2
  }

  predicate InFixedOrder(conds: seq<Condition>) {
    forall i, j | 0 <= i < j < |conds| :: Rank(conds[i]) < Rank(conds[j])
  }

  /** The placeholders of a fragment list, left to right. */
  function Placeholders(conds: seq<Condition>): seq<nat> {
    if conds == [] then [] else PlaceholderOf(conds[0]) + Placeholders(conds[1..])
  }

  function PlaceholderOf(cond: Condition): seq<nat> {
    if cond.EquityPositive? then [] else [cond.placeholder]
  }

  /** The clauses appended to the SELECT. */
  datatype Clause = Where(conditions: seq<Condition>) | OrderByTitle

  function Conditions(query: seq<Clause>): seq<Condition> {
    if |query| > 0 && query[0].Where? then query[0].conditions else []
  }

  predicate WhereHolds(query: seq<Clause>, values: seq<SqlValue>, row: JobRow) {
    forall i | 0 <= i < |query| && query[i].Where? :: Satisfies(query[i].conditions, values, row)
  }

  lemma ILikeWrapped(s: string, t: string)
    ensures ILike(s, "%" + t + "%") <==> ContainsIgnoringCase(s, t)
  {
    var p := "%" + t + "%";
    assert p[1..|p| - 1] == t;
  }

  /** A placeholder refers to one of the first `n` values. */
  predicate Bound(cond: Condition, n: nat) {
    cond.EquityPositive? || 1 <= cond.placeholder <= n
  }

  /** The list 1, 2, ..., n. */
  function Numbers(n: nat): (r: seq<nat>)
    ensures |r| == n
    ensures forall i | 0 <= i < n :: r[i] == i + 1
  {
    if n == 0 then [] else Numbers(n - 1) + [n]
  }

  /** Every placeholder refers to a bound value and, read left to right,
      the placeholders are $1, $2, ..., one per value: `$k` is the k-th. */
  predicate NumberedFromOne(conds: seq<Condition>, values: seq<SqlValue>) {
    && (forall i | 0 <= i < |conds| :: Bound(conds[i], |values|))
    && Placeholders(conds) == Numbers(|values|)
  }

  /** Each placeholder is bound to its own criterion's value: the minimum
      salary itself, and the title wrapped in `%`. */
  predicate BindsCriteria(conds: seq<Condition>, values: seq<SqlValue>, c: Criteria) {
    forall i | 0 <= i < |conds| ::
      match conds[i]
      case SalaryAtLeast(k) => 1 <= k <= |values| && values[k - 1] == SalaryParam(c.minSalary)
      case TitleILike(k) => 1 <= k <= |values| && values[k - 1] == SqlText(TitlePattern(c.title))
      case EquityPositive => true
  }

  /** One value per minSalary or title given; one fragment per value, and
      one more, binding nothing, when hasEquity is exactly true. */
  predicate Counted(conds: seq<Condition>, values: seq<SqlValue>, c: Criteria) {
    && |values| == (if c.minSalary != Absent then 1 else 0) + (if c.title != Absent then 1 else 0)
    && |conds| == |values| + (if c.hasEquity == Given(true) then 1 else 0)
  }

  /** The store, evaluating the fragments, keeps exactly the jobs the
      criteria describe. */
  ghost predicate Means(conds: seq<Condition>, values: seq<SqlValue>, c: Criteria) {
    forall row :: Satisfies(conds, values, row) <==> Matches(c, row)
  }

  predicate RanksBelow(conds: seq<Condition>, n: nat) {
    forall i | 0 <= i < |conds| :: Rank(conds[i]) < n
  }

  /** The criterion behind a fragment is one that asks for a predicate. */
  predicate Qualifies(cond: Condition, c: Criteria) {
    match cond
    case SalaryAtLeast(_) => c.minSalary != Absent
    case EquityPositive => c.hasEquity == Given(true)
    case TitleILike(_) => c.title != Absent
  }

  predicate HasRank(conds: seq<Condition>, r: nat) {
    exists i | 0 <= i < |conds| :: Rank(conds[i]) == r
  }

  /** There is a fragment for a criterion exactly when it asks for one. */
  predicate OnePerCriterion(conds: seq<Condition>, c: Criteria) {
    && (forall i | 0 <= i < |conds| :: Qualifies(conds[i], c))
    && (c.minSalary != Absent ==> HasRank(conds, 0))
    && (c.hasEquity == Given(true) ==> HasRank(conds, 1))
    && (c.title != Absent ==> HasRank(conds, 2))
  }

  /** The criteria with only their first `n` keys, in the order minSalary,
      hasEquity, title. */
  function Prefix(c: Criteria, n: nat): Criteria {
    Criteria(
      if n >= 1 then c.minSalary else Absent,
      if n >= 2 then c.hasEquity else Absent,
      if n >= 3 then c.title else Absent)
  }

  /** What the composer's two lists satisfy once the first `n` keys are handled. */
  predicate Composed(conds: seq<Condition>, values: seq<SqlValue>, c: Criteria, n: nat) {
    && Counted(conds, values, Prefix(c, n))
    && InFixedOrder(conds) && RanksBelow(conds, n)
    && NumberedFromOne(conds, values)
    && BindsCriteria(conds, values, c)
    && OnePerCriterion(conds, Prefix(c, n))
  }

  /** The fragment the composer pushes for key `n`, and the value it binds. */
  predicate IsFragmentFor(x: Condition, extra: seq<SqlValue>, values: seq<SqlValue>, c: Criteria, n: nat) {
    || (n == 0 && c.minSalary != Absent && x == SalaryAtLeast(|values| + 1) && extra == [SalaryParam(c.minSalary)])
    || (n == 1 && c.hasEquity == Given(true) && x == EquityPositive && extra == [])
    || (n == 2 && c.title != Absent && x == TitleILike(|values| + 1) && extra == [SqlText(TitlePattern(c.title))])
  }

  /** Builds the WHERE and ORDER BY clauses of the job list and the values
      its placeholders refer to. */
  method ComposeJobsQuery(c: Criteria) returns (query: seq<Clause>, values: seq<SqlValue>)
    // the fragments of the three keys, in order, then ORDER BY title
    ensures (Conditions(query), values) == Fragments(c, 3)
    ensures query == Assembled(Conditions(query))
    // a WHERE clause exactly when some key asks for a predicate
    ensures query == [OrderByTitle] <==> c.minSalary == Absent && c.hasEquity != Given(true) && c.title == Absent
    ensures c == NO_CRITERIA ==> query == [OrderByTitle] && values == []
    // the store keeps exactly the jobs the criteria describe
    ensures forall row :: WhereHolds(query, values, row) <==> Matches(c, row)
  {
    var conditions: seq<Condition> := [];
    values := [];
    if c.minSalary != Absent {
      values := values + [SalaryParam(c.minSalary)];
      conditions := conditions + [SalaryAtLeast(|values|)];
    }
    assert (conditions, values) == Fragments(c, 1);
    if c.hasEquity == Given(true) {
      conditions := conditions + [EquityPositive];
    }
    assert (conditions, values) == Fragments(c, 2);
    if c.title != Absent {
      values := values + [SqlText(TitlePattern(c.title))];
      conditions := conditions + [TitleILike(|values|)];
    }
    assert (conditions, values) == Fragments(c, 3);
    ComposedQuery(c);
    query := [];
    if |conditions| > 0 {
      query := query + [Where(conditions)];
    }
    query := query + [OrderByTitle];
    assert query == Assembled(conditions);
  }

  /** The fragments and values the composer holds once it has handled
      the first `n` keys. */
  function Fragments(c: Criteria, n: nat): (seq<Condition>, seq<SqlValue>)
    decreases n
  {
    if n == 0 then ([], [])
    else
      var (conds, values) := Fragments(c, n - 1);
      if n == 1 && c.minSalary != Absent then
        (conds + [SalaryAtLeast(|values| + 1)], values + [SalaryParam(c.minSalary)])
      else if n == 2 && c.hasEquity == Given(true) then
        (conds + [EquityPositive], values)
      else if n == 3 && c.title != Absent then
        (conds + [TitleILike(|values| + 1)], values + [SqlText(TitlePattern(c.title))])
      else (conds, values)
  }

  /** All three keys handled, the composer's lists are what the job list needs. */
  lemma FragmentsComposed(c: Criteria)
    ensures Composed(Fragments(c, 3).0, Fragments(c, 3).1, c, 3)
  {
    Stage(c, 0);
    Stage(c, 1);
    Stage(c, 2);
  }

  /** Handling key `n` keeps what the composer's lists satisfy. */
  lemma Stage(c: Criteria, n: nat)
    requires n < 3
    requires Composed(Fragments(c, n).0, Fragments(c, n).1, c, n)
    ensures Composed(Fragments(c, n + 1).0, Fragments(c, n + 1).1, c, n + 1)
  {
    var (conds, values) := Fragments(c, n);
    var (conds', values') := Fragments(c, n + 1);
    if n == 0 && c.minSalary != Absent {
      Pushed(conds, values, SalaryAtLeast(|values| + 1), [SalaryParam(c.minSalary)], c, 0, conds', values');
    } else if n == 1 && c.hasEquity == Given(true) {
      Pushed(conds, values, EquityPositive, [], c, 1, conds', values');
    } else if n == 2 && c.title != Absent {
      Pushed(conds, values, TitleILike(|values| + 1), [SqlText(TitlePattern(c.title))], c, 2, conds', values');
    } else {
      Skipped(conds, values, c, n);
    }
  }

  lemma Skipped(conds: seq<Condition>, values: seq<SqlValue>, c: Criteria, n: nat)
    requires Composed(conds, values, c, n) && n < 3
    requires n == 0 ==> c.minSalary == Absent
    requires n == 1 ==> c.hasEquity != Given(true)
    requires n == 2 ==> c.title == Absent
    ensures Composed(conds, values, c, n + 1)
  {
    forall i | 0 <= i < |conds| ensures Qualifies(conds[i], Prefix(c, n + 1)) {
      assert Qualifies(conds[i], Prefix(c, n));
    }
  }

  /** The clauses the job list appends: WHERE only for a non-empty
      fragment list, then ORDER BY title. */
  function Assembled(conds: seq<Condition>): (query: seq<Clause>)
    ensures Conditions(query) == conds
    ensures OrderByTitle in query
  {
    (if |conds| > 0 then [Where(conds)] else []) + [OrderByTitle]
  }

  /** What the composer's lists promise once every key is handled: a
      WHERE clause exactly when some key asks for a predicate, one value
      per placeholder numbered from $1 in the fixed key order, each value
      its criterion's, and a WHERE clause that keeps exactly the jobs the
      criteria describe. */
  lemma ComposedQuery(c: Criteria)
    ensures var (conds, values) := Fragments(c, 3); var query := Assembled(conds);
      && (query == [OrderByTitle] || (|query| == 2 && query[0].Where? && query[0].conditions != [] && query[1] == OrderByTitle))
      && (query == [OrderByTitle] <==> c.minSalary == Absent && c.hasEquity != Given(true) && c.title == Absent)
      && (c == NO_CRITERIA ==> query == [OrderByTitle] && values == [])
      && Counted(conds, values, c)
      && InFixedOrder(conds)
      && NumberedFromOne(conds, values)
      && BindsCriteria(conds, values, c)
      && (forall row :: WhereHolds(query, values, row) <==> Matches(c, row))
  {
    var (conds, values) := Fragments(c, 3);
    FragmentsComposed(c);
    assert Prefix(c, 3) == c;
    MeaningOfFragments(conds, values, c);
    AssembledShape(conds);
    AssembledWhere(conds, values);
  }

  lemma AssembledShape(conds: seq<Condition>)
    ensures Assembled(conds) == [OrderByTitle] <==> conds == []
    ensures conds != [] ==> Assembled(conds) == [Where(conds), OrderByTitle]
  {
  }

  /** The WHERE clause is the only filter of the assembled clauses. */
  lemma AssembledWhere(conds: seq<Condition>, values: seq<SqlValue>)
    ensures forall row :: WhereHolds(Assembled(conds), values, row) <==> Satisfies(conds, values, row)
  {
    var query := Assembled(conds);
    forall row
      ensures WhereHolds(query, values, row) <==> Satisfies(conds, values, row)
    {
      if |conds| > 0 {
        assert query[0] == Where(conds) && query[1] == OrderByTitle;
      } else {
        assert query == [OrderByTitle];
      }
    }
  }

  /** Fragments bound to their criteria's values, one per criterion that
      asks for one, keep exactly the jobs the criteria describe. */
  lemma MeaningOfFragments(conds: seq<Condition>, values: seq<SqlValue>, c: Criteria)
    requires BindsCriteria(conds, values, c) && OnePerCriterion(conds, c)
    ensures Means(conds, values, c)
  {
    forall row
      ensures Satisfies(conds, values, row) <==> Matches(c, row)
    {
      ILikeWrapped(row.title, TitleText(c.title));
      if Satisfies(conds, values, row) {
        if c.minSalary != Absent {
          var i :| 0 <= i < |conds| && Rank(conds[i]) == 0;
          assert Holds(conds[i], values, row);
        }
        if c.hasEquity == Given(true) {
          var i :| 0 <= i < |conds| && Rank(conds[i]) == 1;
          assert Holds(conds[i], values, row);
        }
        if c.title != Absent {
          var i :| 0 <= i < |conds| && Rank(conds[i]) == 2;
          assert Holds(conds[i], values, row);
        }
      }
      if Matches(c, row) {
        forall i | 0 <= i < |conds| ensures Holds(conds[i], values, row) {
          assert Qualifies(conds[i], c);
        }
      }
    }
  }

  /** Handling key `n` by pushing its fragment, and its value if it binds one. */
  lemma Pushed(conds: seq<Condition>, values: seq<SqlValue>, x: Condition, extra: seq<SqlValue>, c: Criteria, n: nat,
               conds': seq<Condition>, values': seq<SqlValue>)
    requires Composed(conds, values, c, n)
    requires IsFragmentFor(x, extra, values, c, n)
    requires conds' == conds + [x] && values' == values + extra
    ensures Composed(conds', values', c, n + 1)
  {
    PushNumbered(conds, values, x, extra);
    PushBinds(conds, values, x, extra, c);
    PushOrdered(conds, x, n);
    PushOnePerCriterion(conds, x, c, n);
  }

  lemma PushOrdered(conds: seq<Condition>, x: Condition, n: nat)
    requires InFixedOrder(conds) && RanksBelow(conds, n) && Rank(x) == n
    ensures InFixedOrder(conds + [x]) && RanksBelow(conds + [x], n + 1)
  {
    var conds' := conds + [x];
    forall i | 0 <= i < |conds| ensures conds'[i] == conds[i] { }
    assert conds'[|conds|] == x;
  }

  lemma PushOnePerCriterion(conds: seq<Condition>, x: Condition, c: Criteria, n: nat)
    requires OnePerCriterion(conds, Prefix(c, n)) && RanksBelow(conds, n)
    requires Rank(x) == n && Qualifies(x, Prefix(c, n + 1))
    ensures OnePerCriterion(conds + [x], Prefix(c, n + 1))
  {
    var conds' := conds + [x];
    forall i | 0 <= i < |conds| ensures conds'[i] == conds[i] { }
    assert conds'[|conds|] == x;
    assert HasRank(conds', n);
    forall r: nat | r < n && HasRank(conds, r) ensures HasRank(conds', r) {
      var i :| 0 <= i < |conds| && Rank(conds[i]) == r;
      assert Rank(conds'[i]) == r;
    }
    forall i | 0 <= i < |conds| ensures Qualifies(conds'[i], Prefix(c, n + 1)) {
      assert Qualifies(conds[i], Prefix(c, n));
    }
  }

  lemma {:induction false} PlaceholdersAppend(a: seq<Condition>, b: seq<Condition>)
    ensures Placeholders(a + b) == Placeholders(a) + Placeholders(b)
  {
    if a != [] {
      PlaceholdersAppend(a[1..], b);
      assert (a + b)[1..] == a[1..] + b;
      calc {
        Placeholders(a + b);
        PlaceholderOf(a[0]) + Placeholders(a[1..] + b);
        PlaceholderOf(a[0]) + (Placeholders(a[1..]) + Placeholders(b));
        (PlaceholderOf(a[0]) + Placeholders(a[1..])) + Placeholders(b);
      }
    } else {
      assert a + b == b;
    }
  }

  lemma PushNumbered(conds: seq<Condition>, values: seq<SqlValue>, x: Condition, extra: seq<SqlValue>)
    requires NumberedFromOne(conds, values)
    requires (x.EquityPositive? && extra == []) || (!x.EquityPositive? && |extra| == 1 && x.placeholder == |values| + 1)
    ensures NumberedFromOne(conds + [x], values + extra)
  {
    var conds' := conds + [x];
    PlaceholdersAppend(conds, [x]);
    assert [x][1..] == [];
    assert Placeholders([x]) == PlaceholderOf(x);
    var n := |values + extra|;
    if x.EquityPositive? {
      assert n == |values| && PlaceholderOf(x) == [];
      assert Placeholders(conds') == Numbers(n);
    } else {
      assert n == |values| + 1 && PlaceholderOf(x) == [n];
      assert Placeholders(conds') == Numbers(n - 1) + [n] == Numbers(n);
    }
    forall i | 0 <= i < |conds'| ensures Bound(conds'[i], n) {
      if i < |conds| {
        assert conds'[i] == conds[i];
      }
    }
  }

  lemma PushBinds(conds: seq<Condition>, values: seq<SqlValue>, x: Condition, extra: seq<SqlValue>, c: Criteria)
    requires BindsCriteria(conds, values, c)
    requires BindsCriteria([x], values + extra, c)
    ensures BindsCriteria(conds + [x], values + extra, c)
  {
    var conds' := conds + [x];
    assert conds'[|conds|] == [x][0];
    forall i | 0 <= i < |conds| ensures conds'[i] == conds[i] { }
  }

  /*** Ordering of the result by title ***/

  predicate SortedByTitle(rows: seq<JobSummary>) {
    forall i, j | 0 <= i < j < |rows| :: LexLe(rows[i].title, rows[j].title)
  }

  predicate DistinctIds(rows: seq<JobSummary>) {
    forall i, j | 0 <= i < j < |rows| :: rows[i].id != rows[j].id
  }

  /** Places `x` after every row whose title is not after its own. */
  function InsertByTitle(x: JobSummary, rows: seq<JobSummary>): (r: seq<JobSummary>)
    ensures |r| == |rows| + 1
    ensures multiset(r) == multiset(rows) + multiset{x}
    ensures forall y :: y in r <==> y == x || y in rows
    ensures SortedByTitle(rows) ==> SortedByTitle(r)
    ensures DistinctIds(rows) && (forall y | y in rows :: y.id != x.id) ==> DistinctIds(r)
  {
    if rows == [] then [x]
    else if LexLe(x.title, rows[0].title) then
      InsertedFirst(x, rows);
      [x] + rows
    else
      var rest := InsertByTitle(x, rows[1..]);
      LexTotal(x.title, rows[0].title);
      InsertedLater(x, rows, rest);
      InsertedLaterDistinct(x, rows, rest);
      assert rows == [rows[0]] + rows[1..];
      [rows[0]] + rest
  }

  lemma InsertedFirst(x: JobSummary, rows: seq<JobSummary>)
    requires rows != [] && LexLe(x.title, rows[0].title)
    ensures SortedByTitle(rows) ==> SortedByTitle([x] + rows)
  {
    if SortedByTitle(rows) {
      forall j | 0 < j < |rows| ensures LexLe(x.title, rows[j].title) {
        LexTransitive(x.title, rows[0].title, rows[j].title);
      }
    }
  }

  lemma InsertedLater(x: JobSummary, rows: seq<JobSummary>, rest: seq<JobSummary>)
    requires rows != [] && LexLe(rows[0].title, x.title)
    requires forall y :: y in rest <==> y == x || y in rows[1..]
    requires SortedByTitle(rows[1..]) ==> SortedByTitle(rest)
    ensures SortedByTitle(rows) ==> SortedByTitle([rows[0]] + rest)
  {
    if SortedByTitle(rows) {
      var r := [rows[0]] + rest;
      forall i, j | 0 <= i < j < |r| ensures LexLe(r[i].title, r[j].title) {
        if i == 0 {
          assert r[j] in rest;
          if r[j] != x {
            var k :| 0 <= k < |rows[1..]| && rows[1..][k] == r[j];
            assert rows[k + 1] == r[j];
          }
        } else {
          assert r[i] == rest[i - 1] && r[j] == rest[j - 1];
        }
      }
    }
  }

  lemma InsertedLaterDistinct(x: JobSummary, rows: seq<JobSummary>, rest: seq<JobSummary>)
    requires rows != []
    requires forall y :: y in rest <==> y == x || y in rows[1..]
    requires DistinctIds(rows[1..]) && (forall y | y in rows[1..] :: y.id != x.id) ==> DistinctIds(rest)
    ensures DistinctIds(rows) && (forall y | y in rows :: y.id != x.id) ==> DistinctIds([rows[0]] + rest)
  {
    if DistinctIds(rows) && (forall y | y in rows :: y.id != x.id) {
      var r := [rows[0]] + rest;
      assert DistinctIds(rows[1..]);
      forall j | 0 < j < |r| ensures r[0].id != r[j].id {
        assert r[j] in rest;
        if r[j] != x {
          var k :| 0 <= k < |rows[1..]| && rows[1..][k] == r[j];
          assert rows[k + 1] == r[j];
        }
      }
      forall i, j | 0 < i < j < |r| ensures r[i].id != r[j].id {
        assert r[i] == rest[i - 1] && r[j] == rest[j - 1];
      }
    }
  }

  /** A non-empty set of ids has a member to visit next. */
  lemma HasMember(s: set<int>)
    ensures s == {} || exists x :: x in s
  {
    if forall x :: x !in s {
      assert s == {};
    }
  }

  /*** Updates ***/

  /** A column of a job row as the store returns it. */
  function Field(row: JobRow, column: string): SqlValue {
    match column
    case "title" => SqlText(row.title)
    case "salary" => if row.salary.Some? then SqlInt(row.salary.value) else SqlNull
    case "equity" => if row.equity.Some? then SqlDecimal(row.equity.value) else SqlNull
    case "company_handle" => SqlText(row.companyHandle)
    case _ => SqlNull
  }

  /** The columns an update may assign. */
  const UPDATABLE: set<string> := {"title", "salary", "equity"}

  /** The value types a column accepts: text for the title, an integer
      for the salary, a decimal for the equity, and NULL for each of them
      (the title's NOT NULL constraint is checked on the row). */
  predicate AcceptedBy(column: string, v: SqlValue) {
    || v.SqlNull?
    || (column == "title" && v.SqlText?)
    || (column == "salary" && v.SqlInt?)
    || (column == "equity" && v.SqlDecimal?)
  }

  /** What an update of the jobs table may assign. */
  const COLUMNS := Columns(UPDATABLE, AcceptedBy)

  /** Some assignment sets the title to NULL, which its NOT NULL
      constraint refuses. */
  predicate SetsNullTitle(changes: seq<Change>) {
    exists i | 0 <= i < |changes| :: changes[i] == ("title", SqlNull)
  }

  /** One accepted assignment applied to a row. */
  function Assigned(row: JobRow, change: Change): JobRow {
    match change
    case ("title", SqlText(t)) => row.(title := t)
    case ("salary", SqlInt(n)) => row.(salary := Some(n))
    case ("salary", SqlNull) => row.(salary := None)
    case ("equity", SqlDecimal(d)) => row.(equity := Some(d))
    case ("equity", SqlNull) => row.(equity := None)
    case _ => row
  }

  /** A row with the assignments of a SET list applied in order. */
  function Updated(row: JobRow, changes: seq<Change>): (r: JobRow)
    ensures r.companyHandle == row.companyHandle
    decreases |changes|
  {
    if changes == [] then row else Updated(Assigned(row, changes[0]), changes[1..])
  }

  /** The assignments an update may perform on a row. */
  predicate Admissible(changes: seq<Change>) {
    FirstFault(COLUMNS, changes) == None && !SetsNullTitle(changes)
  }

  predicate AssignsColumn(changes: seq<Change>, column: string) {
    exists i | 0 <= i < |changes| :: changes[i].0 == column
  }

  /** Every assigned column holds its new value, and every other column,
      the company handle among them, keeps its old one. */
  lemma {:induction false} UpdatedFields(row: JobRow, changes: seq<Change>)
    requires Admissible(changes) && DistinctKeys(changes)
    ensures forall i | 0 <= i < |changes| :: Field(Updated(row, changes), changes[i].0) == changes[i].1
    ensures forall column | !AssignsColumn(changes, column) :: Field(Updated(row, changes), column) == Field(row, column)
    decreases |changes|
  {
    if changes != [] {
      var rest := changes[1..];
      var row' := Assigned(row, changes[0]);
      assert Admissible(rest) && DistinctKeys(rest) by {
        forall i | 0 <= i < |rest| ensures AssignmentFault(COLUMNS, rest[i].0, rest[i].1) == None && rest[i] != ("title", SqlNull) {
          assert rest[i] == changes[i + 1];
        }
      }
      UpdatedFields(row', rest);
      AssignedField(row, changes[0]);
      forall i | 0 <= i < |changes| ensures Field(Updated(row, changes), changes[i].0) == changes[i].1 {
        if i == 0 {
          assert !AssignsColumn(rest, changes[0].0) by {
            forall j | 0 <= j < |rest| ensures rest[j].0 != changes[0].0 {
              assert rest[j] == changes[j + 1];
            }
          }
        } else {
          assert changes[i] == rest[i - 1];
        }
      }
      forall column | !AssignsColumn(changes, column) ensures Field(Updated(row, changes), column) == Field(row, column) {
        assert changes[0].0 != column;
        assert !AssignsColumn(rest, column) by {
          forall j | 0 <= j < |rest| ensures rest[j].0 != column {
            assert rest[j] == changes[j + 1];
          }
        }
      }
    }
  }

  /** One accepted assignment sets its column and no other. */
  lemma AssignedField(row: JobRow, change: Change)
    requires AssignmentFault(COLUMNS, change.0, change.1) == None && change != ("title", SqlNull)
    ensures Field(Assigned(row, change), change.0) == change.1
    ensures forall column | column != change.0 :: Field(Assigned(row, change), column) == Field(row, column)
  {
  }

  /** Applying the same update twice leaves the row as applying it once. */
  lemma {:induction false} UpdatedIdempotent(row: JobRow, changes: seq<Change>)
    requires Admissible(changes) && DistinctKeys(changes)
    ensures Updated(Updated(row, changes), changes) == Updated(row, changes)
  {
    var once := Updated(row, changes);
    var twice := Updated(once, changes);
    UpdatedFields(row, changes);
    UpdatedFields(once, changes);
    forall column ensures Field(twice, column) == Field(once, column) {
      if AssignsColumn(changes, column) {
        var i :| 0 <= i < |changes| && changes[i].0 == column;
      }
    }
    FieldsDetermineRow(twice, once);
  }

  /** A row is determined by its columns. */
  lemma FieldsDetermineRow(a: JobRow, b: JobRow)
    requires forall column :: Field(a, column) == Field(b, column)
    ensures a == b
  {
    assert Field(a, "title") == Field(b, "title");
    assert Field(a, "salary") == Field(b, "salary");
    assert Field(a, "equity") == Field(b, "equity");
    assert Field(a, "company_handle") == Field(b, "company_handle");
  }

  /*** The store ***/

  class JobStore {
    var jobs: map<int, JobRow>
    var nextId: int
    const companies: map<string, Company>

    /** Ids are below the next generated one, every job refers to an
        existing company (the foreign key), and companies are keyed by
        their handle. */
    ghost predicate Valid()
      reads this
    {
      && (forall id | id in jobs :: id < nextId && jobs[id].companyHandle in companies)
      && (forall h | h in companies :: companies[h].handle == h)
    }

    constructor (companies: map<string, Company>)
      requires forall h | h in companies :: companies[h].handle == h
      ensures Valid()
      ensures jobs == map[] && nextId == 1 && this.companies == companies
    {
      this.companies := companies;
      jobs := map[];
      nextId := 1;
    }

    /** Inserts a job under a fresh id and returns it; an unknown company
        handle is refused by the foreign key. */
    method CreateJob(data: JobRow) returns (r: Result<Job>)
      requires Valid()
      modifies this
      ensures Valid()
      ensures data.companyHandle !in companies ==>
        r == Failure(StoreFault(ForeignKeyViolation("company_handle"))) && jobs == old(jobs) && nextId == old(nextId)
      ensures data.companyHandle in companies ==>
        && old(nextId) !in old(jobs)
        && r == Success(JobOf(old(nextId), data))
        && jobs == old(jobs)[old(nextId) := data]
        && nextId == old(nextId) + 1
    {
      if data.companyHandle !in companies {
        return Failure(StoreFault(ForeignKeyViolation("company_handle")));
      }
      var id := nextId;
      jobs := jobs[id := data];
      nextId := nextId + 1;
      r := Success(JobOf(id, data));
    }

    /** Runs a SELECT of the job list: the rows that satisfy the WHERE
        clause, each once, with their company name, sorted by title when
        the query orders by title. */
    method RunSelect(query: seq<Clause>, values: seq<SqlValue>) returns (rows: seq<JobSummary>)
      ensures OrderByTitle in query ==> SortedByTitle(rows)
      ensures DistinctIds(rows)
      ensures forall y | y in rows ::
        && y.id in jobs
        && WhereHolds(query, values, jobs[y.id])
        && y == Summarize(y.id, jobs[y.id], companies)
      ensures forall id | id in jobs && WhereHolds(query, values, jobs[id]) :: Summarize(id, jobs[id], companies) in rows
    {
      var ordered := OrderByTitle in query;
      rows := [];
      var pending := jobs.Keys;
      while pending != {}
        invariant pending <= jobs.Keys
        invariant ordered ==> SortedByTitle(rows)
        invariant DistinctIds(rows)
        invariant forall y | y in rows ::
          && y.id in jobs && y.id !in pending
          && WhereHolds(query, values, jobs[y.id])
          && y == Summarize(y.id, jobs[y.id], companies)
        invariant forall k | k in jobs && k !in pending && WhereHolds(query, values, jobs[k]) ::
          Summarize(k, jobs[k], companies) in rows
        decreases pending
      {
        HasMember(pending);
        var id :| id in pending;
        var row := jobs[id];
        if WhereHolds(query, values, row) {
          var s := Summarize(id, row, companies);
          if ordered {
            rows := InsertByTitle(s, rows);
          } else {
            rows := rows + [s];
          }
        }
        pending := pending - {id};
      }
    }

    /** The job list: every job the criteria describe, once each, with its
        company name, ordered by title. */
    method GetAllJobs(c: Criteria) returns (rows: seq<JobSummary>)
      ensures SortedByTitle(rows)
      ensures DistinctIds(rows)
      ensures forall y | y in rows ::
        && y.id in jobs
        && Matches(c, jobs[y.id])
        && y == Summarize(y.id, jobs[y.id], companies)
      ensures forall id | id in jobs && Matches(c, jobs[id]) :: Summarize(id, jobs[id], companies) in rows
      ensures c == NO_CRITERIA ==> forall id | id in jobs :: Summarize(id, jobs[id], companies) in rows
    {
      var query, values := ComposeJobsQuery(c);
      rows := RunSelect(query, values);
    }

    /** Looks a job up by id and nests its company record in place of the
        handle; a missing id is NotFound. */
    method GetJobById(id: int) returns (r: Result<JobDetail>)
      requires Valid()
      ensures r.Failure? <==> id !in jobs
      ensures r.Failure? ==> r.error == NotFound("No job: " + IntToString(id))
      ensures r.Success? ==>
        && r.value.id == id
        && r.value.title == jobs[id].title
        && r.value.salary == jobs[id].salary
        && r.value.equity == jobs[id].equity
        && r.value.company == Some(companies[jobs[id].companyHandle])
        && r.value.company.value.handle == jobs[id].companyHandle
    {
      if id !in jobs {
        return Failure(NotFound("No job: " + IntToString(id)));
      }
      var job := JobOf(id, jobs[id]);
      var company := if job.companyHandle in companies then Some(companies[job.companyHandle]) else None;
      r := Success(JobDetail(job.id, job.title, job.salary, job.equity, company));
    }
    /** Runs an `UPDATE jobs SET ... WHERE id = $k RETURNING ...`: binds
        the SET list and the key, refuses unknown columns, values of the
        wrong type and a column assigned twice, returns no row when no job
        has the key, refuses a NULL title on the row it updates, and
        otherwise assigns the columns and returns the updated job. */
    method ExecuteUpdate(stmt: UpdateStatement) returns (r: Result<Option<Job>>)
      requires Valid()
      modifies this
      ensures Valid() && nextId == old(nextId)
      ensures r.Success? && r.value.Some? ==>
        && Resolve(stmt.setCols, stmt.params).Success?
        && var changes := Resolve(stmt.setCols, stmt.params).value;
        && Param(stmt.params, stmt.keyPlaceholder).Success?
        && Param(stmt.params, stmt.keyPlaceholder).value.SqlInt?
        && var id := Param(stmt.params, stmt.keyPlaceholder).value.number;
        && id in old(jobs) && Admissible(changes) && DistinctKeys(changes)
        && r.value.value == JobOf(id, Updated(old(jobs)[id], changes))
        && jobs == old(jobs)[id := Updated(old(jobs)[id], changes)]
      ensures !(r.Success? && r.value.Some?) ==> jobs == old(jobs)
      ensures Resolve(stmt.setCols, stmt.params).Failure? ==> r == Failure(Resolve(stmt.setCols, stmt.params).error)
      ensures Resolve(stmt.setCols, stmt.params).Success? ==>
        var changes := Resolve(stmt.setCols, stmt.params).value;
        && (FirstFault(COLUMNS, changes).Some? ==> r == Failure(StoreFault(FirstFault(COLUMNS, changes).value)))
        && (FirstFault(COLUMNS, changes) == None && !DistinctKeys(changes) ==> r.Failure? && r.error.StoreFault? && r.error.fault.RepeatedColumn?)
        && (FirstFault(COLUMNS, changes) == None && DistinctKeys(changes) ==>
             var key := Param(stmt.params, stmt.keyPlaceholder);
             && (key.Failure? ==> r == Failure(key.error))
             && (key.Success? && !key.value.SqlInt? ==> r == Failure(StoreFault(InvalidValue("id"))))
             && (key.Success? && key.value.SqlInt? ==>
                  && (key.value.number !in old(jobs) ==> r == Success(None))
                  && (key.value.number in old(jobs) && SetsNullTitle(changes) ==> r == Failure(StoreFault(NotNullViolation("title"))))
                  && (key.value.number in old(jobs) && !SetsNullTitle(changes) ==> r.Success? && r.value.Some?)))
    {
      var bound := Resolve(stmt.setCols, stmt.params);
      if bound.Failure? {
        return Failure(bound.error);
      }
      var changes := bound.value;
      var fault := FirstFault(COLUMNS, changes);
      if fault.Some? {
        return Failure(StoreFault(fault.value));
      }
      if !DistinctKeys(changes) {
        var i, j :| 0 <= i < j < |changes| && changes[i].0 == changes[j].0;
        return Failure(StoreFault(RepeatedColumn(changes[j].0)));
      }
      var key := Param(stmt.params, stmt.keyPlaceholder);
      if key.Failure? {
        return Failure(key.error);
      }
      if !key.value.SqlInt? {
        return Failure(StoreFault(InvalidValue("id")));
      }
      var id := key.value.number;
      if id !in jobs {
        return Success(None);
      }
      if SetsNullTitle(changes) {
        return Failure(StoreFault(NotNullViolation("title")));
      }
      var row := Updated(jobs[id], changes);
      jobs := jobs[id := row];
      r := Success(Some(JobOf(id, row)));
    }

    /** Updates the given columns of a job and returns it: an empty update
        is a BadRequest, a refused column or value is the store's fault, and
        a missing job is NotFound. The id and the company handle never
        change. */
    method UpdateJob(id: int, data: seq<Change>) returns (r: Result<Job>)
      requires Valid()
      requires DistinctKeys(data)
      modifies this
      ensures Valid() && nextId == old(nextId)
      ensures data == [] ==> r == Failure(BadRequest(NO_DATA)) && jobs == old(jobs)
      ensures data != [] && FirstFault(COLUMNS, data).Some? ==>
        r == Failure(StoreFault(FirstFault(COLUMNS, data).value)) && jobs == old(jobs)
      ensures data != [] && FirstFault(COLUMNS, data) == None && id !in old(jobs) ==>
        r == Failure(NotFound("No job: " + IntToString(id))) && jobs == old(jobs)
      ensures data != [] && FirstFault(COLUMNS, data) == None && id in old(jobs) && SetsNullTitle(data) ==>
        r == Failure(StoreFault(NotNullViolation("title"))) && jobs == old(jobs)
      ensures data != [] && Admissible(data) && id in old(jobs) ==>
        && r == Success(JobOf(id, Updated(old(jobs)[id], data)))
        && jobs == old(jobs)[id := Updated(old(jobs)[id], data)]
    {
      var built := BuildUpdate(data, map[], SqlInt(id));
      if built.Failure? {
        return Failure(built.error);
      }
      RenamedIdentity(data);
      var result := ExecuteUpdate(built.value);
      match result
      case Failure(e) =>
        r := Failure(e);
      case Success(None) =>
        r := Failure(NotFound("No job: " + IntToString(id)));
      case Success(Some(job)) =>
        r := Success(job);
    }

    /** Deletes a job; a missing id is NotFound. */
    method DeleteJob(id: int) returns (r: Result<()>)
      requires Valid()
      modifies this
      ensures Valid() && nextId == old(nextId)
      ensures id !in old(jobs) ==> r == Failure(NotFound("No job: " + IntToString(id))) && jobs == old(jobs)
      ensures id in old(jobs) ==> r == Success(()) && jobs == old(jobs) - {id}
    {
      if id !in jobs {
        return Failure(NotFound("No job: " + IntToString(id)));
      }
      jobs := jobs - {id};
      r := Success(());
    }
  }
}
