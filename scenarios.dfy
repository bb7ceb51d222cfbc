/** The repositories' own test cases, replayed on the model: the job list
    filters over the four test jobs, the create / read / update / delete
    round trips, and registration and authentication. */
module Scenarios {
  import opened Common
  import opened Text
  import opened Sql
  import Jobs
  import Users

  const C1 := Jobs.Company("c1", "C1", "Desc1", Some(1), Some("http://c1.img"))

  const JOB1 := Jobs.JobRow("Job1", Some(100), Some(Decimal(1, 1)), "c1")
  const JOB2 := Jobs.JobRow("Job2", Some(200), Some(Decimal(2, 1)), "c1")
  const JOB3 := Jobs.JobRow("Job3", Some(300), Some(Decimal(0, 0)), "c1")
  const JOB4 := Jobs.JobRow("Job4", None, None, "c1")

  /** A job list that holds the jobs matching the criteria, each once,
      is the summary of the one job that matches. */
  lemma ListedAlone(rows: seq<Jobs.JobSummary>, jobs: map<int, Jobs.JobRow>, companies: map<string, Jobs.Company>, c: Jobs.Criteria, id: int)
    requires Jobs.DistinctIds(rows)
    requires forall y | y in rows :: y.id in jobs && Jobs.Matches(c, jobs[y.id]) && y == Jobs.Summarize(y.id, jobs[y.id], companies)
    requires forall k | k in jobs && Jobs.Matches(c, jobs[k]) :: Jobs.Summarize(k, jobs[k], companies) in rows
    requires id in jobs && Jobs.Matches(c, jobs[id])
    requires forall k | k in jobs && k != id :: !Jobs.Matches(c, jobs[k])
    ensures rows == [Jobs.Summarize(id, jobs[id], companies)]
  {
    var s := Jobs.Summarize(id, jobs[id], companies);
    forall i | 0 <= i < |rows| ensures rows[i] == s {
      assert rows[i] in rows;
    }
    assert s in rows;
    if |rows| > 1 {
      FirstTwoIds(rows);
      assert false;
    }
  }

  /** A job list that holds the jobs matching the criteria, each once and
      sorted by title, is the summaries of the two jobs that match, the
      one with the smaller title first. */
  lemma ListedPair(rows: seq<Jobs.JobSummary>, jobs: map<int, Jobs.JobRow>, companies: map<string, Jobs.Company>, c: Jobs.Criteria, a: int, b: int)
    requires Jobs.DistinctIds(rows) && Jobs.SortedByTitle(rows)
    requires forall y | y in rows :: y.id in jobs && Jobs.Matches(c, jobs[y.id]) && y == Jobs.Summarize(y.id, jobs[y.id], companies)
    requires forall k | k in jobs && Jobs.Matches(c, jobs[k]) :: Jobs.Summarize(k, jobs[k], companies) in rows
    requires a != b && a in jobs && b in jobs && Jobs.Matches(c, jobs[a]) && Jobs.Matches(c, jobs[b])
    requires forall k | k in jobs && k != a && k != b :: !Jobs.Matches(c, jobs[k])
    requires !LexLe(jobs[b].title, jobs[a].title)
    ensures rows == [Jobs.Summarize(a, jobs[a], companies), Jobs.Summarize(b, jobs[b], companies)]
  {
    var sa, sb := Jobs.Summarize(a, jobs[a], companies), Jobs.Summarize(b, jobs[b], companies);
    forall i | 0 <= i < |rows| ensures rows[i] == sa || rows[i] == sb {
      assert rows[i] in rows;
    }
    var i :| 0 <= i < |rows| && rows[i] == sa;
    var j :| 0 <= j < |rows| && rows[j] == sb;
    assert i != j;
    if |rows| > 2 {
      FirstThreeIds(rows);
      assert false;
    }
    FirstTwoIds(rows);
    assert LexLe(rows[0].title, rows[1].title);
  }

  /** A title-sorted job list without repeated ids that holds exactly the
      rows of a list in strictly increasing title order is that list. */
  lemma {:induction false} SortedListIs(rows: seq<Jobs.JobSummary>, e: seq<Jobs.JobSummary>)
    requires Jobs.SortedByTitle(rows) && Jobs.DistinctIds(rows)
    requires StrictlyByTitle(e)
    requires forall y :: y in rows <==> y in e
    ensures rows == e
    decreases |e|
  {
    assert |rows| == 0 || rows[0] in e;
    if e != [] {
      SameHead(rows, e);
      TailsAgree(rows, e);
      SortedListIs(rows[1..], e[1..]);
      assert rows == [rows[0]] + rows[1..];
      assert e == [e[0]] + e[1..];
    }
  }

  /** Titles strictly increase along the list. */
  predicate StrictlyByTitle(e: seq<Jobs.JobSummary>) {
    forall i, j | 0 <= i < j < |e| :: !LexLe(e[j].title, e[i].title)
  }

  lemma SameHead(rows: seq<Jobs.JobSummary>, e: seq<Jobs.JobSummary>)
    requires Jobs.SortedByTitle(rows) && StrictlyByTitle(e) && e != []
    requires forall y :: y in rows <==> y in e
    ensures rows != [] && rows[0] == e[0]
  {
    assert e[0] in rows;
    var m :| 0 <= m < |rows| && rows[m] == e[0];
    assert rows[0] in rows;
    var k :| 0 <= k < |e| && e[k] == rows[0];
    if m > 0 {
      assert LexLe(rows[0].title, rows[m].title);
    }
  }

  lemma TailsAgree(rows: seq<Jobs.JobSummary>, e: seq<Jobs.JobSummary>)
    requires Jobs.SortedByTitle(rows) && Jobs.DistinctIds(rows) && StrictlyByTitle(e)
    requires rows != [] && e != [] && rows[0] == e[0]
    requires forall y :: y in rows <==> y in e
    ensures Jobs.SortedByTitle(rows[1..]) && Jobs.DistinctIds(rows[1..]) && StrictlyByTitle(e[1..])
    ensures forall y :: y in rows[1..] <==> y in e[1..]
  {
    var rows', e' := rows[1..], e[1..];
    forall i, j | 0 <= i < j < |rows'| ensures LexLe(rows'[i].title, rows'[j].title) && rows'[i].id != rows'[j].id {
      assert rows'[i] == rows[i + 1] && rows'[j] == rows[j + 1];
    }
    forall i, j | 0 <= i < j < |e'| ensures !LexLe(e'[j].title, e'[i].title) {
      assert e'[i] == e[i + 1] && e'[j] == e[j + 1];
    }
    forall y | y in rows' ensures y in e' {
      var j :| 0 <= j < |rows'| && rows'[j] == y;
      assert rows[j + 1] == y && rows[0].id != rows[j + 1].id;
      assert y in rows;
      var i :| 0 <= i < |e| && e[i] == y;
      assert i > 0 && e'[i - 1] == y;
    }
    forall y | y in e' ensures y in rows' {
      var j :| 0 <= j < |e'| && e'[j] == y;
      assert e[j + 1] == y;
      LexReflexive(e[0].title);
      assert y != e[0];
      assert y in e;
      var i :| 0 <= i < |rows| && rows[i] == y;
      assert i > 0 && rows'[i - 1] == y;
    }
  }

  lemma FirstThreeIds(rows: seq<Jobs.JobSummary>)
    requires Jobs.DistinctIds(rows) && |rows| > 2
    ensures rows[0].id != rows[1].id && rows[0].id != rows[2].id && rows[1].id != rows[2].id
  {
  }

  lemma FirstTwoIds(rows: seq<Jobs.JobSummary>)
    requires Jobs.DistinctIds(rows) && |rows| > 1
    ensures rows[0].id != rows[1].id
  {
  }

  /** The four jobs of the test fixture, created in order under ids 1 to 4. */
  method Fixture() returns (store: Jobs.JobStore)
    ensures fresh(store) && store.Valid()
    ensures store.companies == map["c1" := C1]
    ensures store.jobs == map[1 := JOB1, 2 := JOB2, 3 := JOB3, 4 := JOB4]
    ensures store.nextId == 5
  {
    store := new Jobs.JobStore(map["c1" := C1]);
    var r1 := store.CreateJob(JOB1);
    var r2 := store.CreateJob(JOB2);
    var r3 := store.CreateJob(JOB3);
    var r4 := store.CreateJob(JOB4);
  }

  const SUMMARY1 := Jobs.JobSummary(1, "Job1", Some(100), Some(Decimal(1, 1)), "c1", Some("C1"))
  const SUMMARY2 := Jobs.JobSummary(2, "Job2", Some(200), Some(Decimal(2, 1)), "c1", Some("C1"))
  const SUMMARY3 := Jobs.JobSummary(3, "Job3", Some(300), Some(Decimal(0, 0)), "c1", Some("C1"))
  const SUMMARY4 := Jobs.JobSummary(4, "Job4", None, None, "c1", Some("C1"))

  lemma FixtureTitlesIncrease()
    ensures StrictlyByTitle([SUMMARY1, SUMMARY2, SUMMARY3, SUMMARY4])
  {
    assert !LexLe("Job2", "Job1") && !LexLe("Job3", "Job1") && !LexLe("Job4", "Job1");
    assert !LexLe("Job3", "Job2") && !LexLe("Job4", "Job2") && !LexLe("Job4", "Job3");
  }

  /** Without criteria the job list is all four jobs in title order. */
  method NoFilter() returns (rows: seq<Jobs.JobSummary>)
    ensures rows == [SUMMARY1, SUMMARY2, SUMMARY3, SUMMARY4]
  {
    var store := Fixture();
    rows := store.GetAllJobs(Jobs.NO_CRITERIA);
    var e := [SUMMARY1, SUMMARY2, SUMMARY3, SUMMARY4];
    FixtureTitlesIncrease();
    forall y | y in rows ensures y in e {
      assert y.id in store.jobs && y == Jobs.Summarize(y.id, store.jobs[y.id], store.companies);
    }
    forall k | 0 <= k < 4 ensures e[k] in rows {
      assert e[k] == Jobs.Summarize(k + 1, store.jobs[k + 1], store.companies);
    }
    SortedListIs(rows, e);
  }

  /** `{minSalary: 150, hasEquity: true}` lists Job2 alone: Job1 earns too
      little, Job3 has an equity of zero and Job4 a salary of null. */
  method MinSalaryAndEquity() returns (rows: seq<Jobs.JobSummary>)
    ensures rows == [Jobs.JobSummary(2, "Job2", Some(200), Some(Decimal(2, 1)), "c1", Some("C1"))]
  {
    var store := Fixture();
    var c := Jobs.Criteria(Given(150), Given(true), Absent);
    rows := store.GetAllJobs(c);
    assert Jobs.Matches(c, JOB2);
    assert forall k | k in store.jobs && k != 2 :: !Jobs.Matches(c, store.jobs[k]);
    ListedAlone(rows, store.jobs, store.companies, c, 2);
  }

  /** `{hasEquity: true}` lists Job1 and Job2, in title order: Job3 has an
      equity of zero and Job4 none. */
  method EquityOnly() returns (rows: seq<Jobs.JobSummary>)
    ensures rows == [
      Jobs.JobSummary(1, "Job1", Some(100), Some(Decimal(1, 1)), "c1", Some("C1")),
      Jobs.JobSummary(2, "Job2", Some(200), Some(Decimal(2, 1)), "c1", Some("C1"))]
  {
    var store := Fixture();
    var c := Jobs.Criteria(Absent, Given(true), Absent);
    rows := store.GetAllJobs(c);
    assert Jobs.Matches(c, JOB1) && Jobs.Matches(c, JOB2);
    assert forall k | k in store.jobs && k != 1 && k != 2 :: !Jobs.Matches(c, store.jobs[k]);
    assert !LexLe("Job2", "Job1");
    ListedPair(rows, store.jobs, store.companies, c, 1, 2);
  }

  /** `{minSalary: 250}` lists Job3 alone. */
  method MinSalaryOnly() returns (rows: seq<Jobs.JobSummary>)
    ensures rows == [Jobs.JobSummary(3, "Job3", Some(300), Some(Decimal(0, 0)), "c1", Some("C1"))]
  {
    var store := Fixture();
    var c := Jobs.Criteria(Given(250), Absent, Absent);
    rows := store.GetAllJobs(c);
    assert Jobs.Matches(c, JOB3);
    assert forall k | k in store.jobs && k != 3 :: !Jobs.Matches(c, store.jobs[k]);
    ListedAlone(rows, store.jobs, store.companies, c, 3);
  }

  /** A text without the last character of a pattern does not contain it. */
  lemma LastCharMissing(hay: string, needle: string)
    requires needle != []
    requires forall i | 0 <= i < |hay| :: hay[i] != needle[|needle| - 1]
    ensures !Contains(hay, needle)
  {
    forall i: nat | i <= |hay| ensures !OccursAt(hay, needle, i) {
      if i + |needle| <= |hay| {
        assert hay[i..i + |needle|][|needle| - 1] == hay[i + |needle| - 1];
      }
    }
  }

  /** "ob1" occurs, ignoring case, in "Job1" and in no other test title. */
  lemma Ob1Occurrences()
    ensures ContainsIgnoringCase("Job1", "ob1")
    ensures !ContainsIgnoringCase("Job2", "ob1")
    ensures !ContainsIgnoringCase("Job3", "ob1")
    ensures !ContainsIgnoringCase("Job4", "ob1")
  {
    assert Fold("ob1") == "ob1";
    assert Fold("Job1") == "job1";
    ContainsAt("job1", "ob1", 1);
    assert Fold("Job2") == "job2";
    LastCharMissing("job2", "ob1");
    assert Fold("Job3") == "job3";
    LastCharMissing("job3", "ob1");
    assert Fold("Job4") == "job4";
    LastCharMissing("job4", "ob1");
  }

  /** `{title: "ob1"}` lists Job1 alone. */
  method TitleOnly() returns (rows: seq<Jobs.JobSummary>)
    ensures rows == [Jobs.JobSummary(1, "Job1", Some(100), Some(Decimal(1, 1)), "c1", Some("C1"))]
  {
    var store := Fixture();
    var c := Jobs.Criteria(Absent, Absent, Given("ob1"));
    rows := store.GetAllJobs(c);
    Ob1Occurrences();
    assert Jobs.TitleText(c.title) == "ob1";
    assert Jobs.Matches(c, JOB1);
    assert !Jobs.Matches(c, JOB2) && !Jobs.Matches(c, JOB3) && !Jobs.Matches(c, JOB4);
    assert forall k | k in store.jobs && k != 1 :: !Jobs.Matches(c, store.jobs[k]);
    ListedAlone(rows, store.jobs, store.companies, c, 1);
  }

  /** A created job is found by its id with its company nested in place of
      the handle. */
  method CreateThenGet() returns (created: Result<Jobs.Job>, found: Result<Jobs.JobDetail>)
    ensures created == Success(Jobs.Job(5, "Test", Some(100), Some(Decimal(1, 1)), "c1"))
    ensures found == Success(Jobs.JobDetail(5, "Test", Some(100), Some(Decimal(1, 1)), Some(C1)))
  {
    var store := Fixture();
    created := store.CreateJob(Jobs.JobRow("Test", Some(100), Some(Decimal(1, 1)), "c1"));
    found := store.GetJobById(created.value.id);
  }

  /** Job1 of the fixture is found by its id with C1 nested in place of
      its handle. */
  method GetFirstJob() returns (found: Result<Jobs.JobDetail>)
    ensures found == Success(Jobs.JobDetail(1, "Job1", Some(100), Some(Decimal(1, 1)), Some(C1)))
  {
    var store := Fixture();
    found := store.GetJobById(1);
  }

  /** Updating title, salary and equity keeps the id and the company. */
  method UpdateWorks() returns (updated: Result<Jobs.Job>)
    ensures updated == Success(Jobs.Job(1, "New", Some(500), Some(Decimal(5, 1)), "c1"))
  {
    var store := Fixture();
    var data := [("title", SqlText("New")), ("salary", SqlInt(500)), ("equity", SqlDecimal(Decimal(5, 1)))];
    assert Jobs.Admissible(data) by {
      assert !Jobs.SetsNullTitle(data) by {
        forall i | 0 <= i < |data| ensures data[i] != ("title", SqlNull) { }
      }
    }
    assert Jobs.Updated(JOB1, data) == Jobs.JobRow("New", Some(500), Some(Decimal(5, 1)), "c1");
    updated := store.UpdateJob(1, data);
  }

  /** Updating a missing id is NotFound. */
  method UpdateMissing() returns (missing: Result<Jobs.Job>)
    ensures missing == Failure(NotFound("No job: 0"))
  {
    var store := Fixture();
    assert FirstFault(Jobs.COLUMNS, [("title", SqlText("test"))]) == None;
    assert "No job: " + IntToString(0) == "No job: 0";
    missing := store.UpdateJob(0, [("title", SqlText("test"))]);
  }

  /** An empty update is a BadRequest. */
  method UpdateEmpty() returns (empty: Result<Jobs.Job>)
    ensures empty == Failure(BadRequest(NO_DATA))
  {
    var store := Fixture();
    empty := store.UpdateJob(1, []);
  }

  /** A deleted job is gone and the others remain; deleting it again is
      NotFound. */
  method DeleteCases() returns (first: Result<()>, again: Result<()>, lookup: Result<Jobs.JobDetail>)
    ensures first == Success(())
    ensures again == Failure(NotFound("No job: 1"))
    ensures lookup.Failure? && lookup.error.NotFound?
  {
    var store := Fixture();
    first := store.DeleteJob(1);
    assert store.jobs == map[2 := JOB2, 3 := JOB3, 4 := JOB4];
    assert "No job: " + IntToString(1) == "No job: 1";
    again := store.DeleteJob(1);
    lookup := store.GetJobById(1);
  }

  function Dup(password: string, firstName: string, email: string): Users.Registration {
    Users.Registration("duplicateuser", firstName, "User", password, email, false)
  }

  /** Registering a taken username fails and keeps the first record. */
  method RegisterTwice(hash: string -> string) returns (first: Result<Users.User>, second: Result<Users.User>, kept: Result<Users.User>)
    ensures first == Success(Users.User("duplicateuser", "Dup", "User", "dup@example.com", false))
    ensures second == Failure(StoreFault(UniqueViolation("username")))
    ensures kept == first
  {
    var store := new Users.UserStore(hash);
    first := store.Register(Dup("password123", "Dup", "dup@example.com"));
    second := store.Register(Dup("password456", "Dup2", "dup2@example.com"));
    kept := store.Get("duplicateuser");
  }

  /** A registered user authenticates with the right password, and a wrong
      password is refused exactly as an unknown user is. */
  method RegisterThenAuthenticate(hash: string -> string)
    returns (good: Result<Users.User>, wrong: Result<Users.User>, unknown: Result<Users.User>)
    requires hash("wrongpass") != hash("validpass")
    ensures good == Success(Users.User("authuser", "Auth", "User", "auth@example.com", false))
    ensures wrong == Failure(BadRequest(Users.INVALID_CREDENTIALS))
    ensures unknown == wrong
  {
    var store := new Users.UserStore(hash);
    var a := store.Register(Users.Registration("authuser", "Auth", "User", "validpass", "auth@example.com", false));
    good := store.Authenticate("authuser", "validpass");
    wrong := store.Authenticate("authuser", "wrongpass");
    unknown := store.Authenticate("nobody", "validpass");
  }

  /** As written, a password changed through the update is stored as
      given, and authentication with it fails. */
  method UpdatePasswordAsWritten(hash: string -> string) returns (updated: Result<Users.User>, login: Result<Users.User>)
    requires hash("new") != "new"
    ensures updated == Success(Users.User("u1", "First", "Last", "u1@example.com", false))
    ensures login == Failure(BadRequest(Users.INVALID_CREDENTIALS))
  {
    var store := new Users.UserStore(hash);
    var a := store.Register(Users.Registration("u1", "First", "Last", "old", "u1@example.com", false));
    var data := [("password", SqlText("new"))];
    assert Users.Admissible(data);
    updated := store.Update("u1", data);
    Users.NewPasswordStored(Users.RegisteredRow(Users.Registration("u1", "First", "Last", "old", "u1@example.com", false), hash), data, 0);
    login := store.Authenticate("u1", "new");
  }

  /** With the password hashed on update, the user authenticates with the
      new password afterwards. */
  method UpdateHashedThenAuthenticate(hash: string -> string) returns (updated: Result<Users.User>, login: Result<Users.User>)
    ensures updated == Success(Users.User("u1", "First", "Last", "u1@example.com", false))
    ensures login == updated
  {
    var store := new Users.UserStore(hash);
    var a := store.Register(Users.Registration("u1", "First", "Last", "old", "u1@example.com", false));
    var data := [("password", SqlText("new"))];
    assert Users.Admissible(data);
    updated := store.UpdateHashingPassword("u1", data);
    login := store.Authenticate("u1", "new");
  }

  /** A NULL first name is refused on an existing user's row, and a missing
      user is NotFound whatever the update holds. */
  method UpdateNullFirstName(hash: string -> string) returns (existing: Result<Users.User>, missing: Result<Users.User>)
    ensures existing == Failure(StoreFault(NotNullViolation("first_name")))
    ensures missing == Failure(NotFound("No user: ghost"))
  {
    var store := new Users.UserStore(hash);
    var a := store.Register(Users.Registration("u1", "First", "Last", "pw", "u1@example.com", false));
    var data := [("first_name", SqlNull)];
    assert FirstFault(Users.COLUMNS, data) == None && Users.FirstNull(data) == Some("first_name");
    existing := store.Update("u1", data);
    assert "No user: " + "ghost" == "No user: ghost";
    missing := store.Update("ghost", data);
  }

  /** A removed user is not found any more. */
  method RemoveThenGet(hash: string -> string) returns (removed: Result<()>, lookup: Result<Users.User>, again: Result<()>)
    ensures removed == Success(())
    ensures lookup == Failure(NotFound("No user: u1"))
    ensures again == Failure(NotFound("No user: u1"))
  {
    var store := new Users.UserStore(hash);
    var a := store.Register(Users.Registration("u1", "First", "Last", "pw", "u1@example.com", false));
    removed := store.Remove("u1");
    lookup := store.Get("u1");
    again := store.Remove("u1");
  }
}
