# jobly models, in Dafny

This project models the two data-access classes of the jobly job board.

- `models/job.js` is the job repository. It creates jobs, lists them with optional filters, looks one up by id, updates selected columns, and deletes a job.
- `models/user.js` is the user repository. It registers users with a hashed password, authenticates them, lists and reads them, updates selected columns, and removes a user.

The PostgreSQL database behind both classes is modelled as an in-memory store. The job table is a `map<int, JobRow>` field of `Jobs.JobStore`, with the id sequence as a counter. The user table is a `map<string, UserRow>` field of `Users.UserStore`. The companies table is a read-only map. Each repository operation is a method that changes these fields, or a function that reads them.

The store side of each query is modelled as far as the repository depends on it:

- `$k` placeholders bind to the k-th parameter.
- `ILIKE '%t%'` is a case-insensitive substring match.
- `ORDER BY title` is code-point lexicographic order.
- An UPDATE refuses unknown columns, ill-typed values and a column assigned twice. It returns no row when the key is missing. On the row it reaches, it refuses a NULL in a NOT NULL column: the title of a job, any column of a user.
- An INSERT refuses a taken primary key and an unknown company handle.

Files:

- `common.dfy` holds `Option`, `Result` and the error kinds: `NotFound`, `BadRequest`, and store faults.
- `text.dfy` holds ASCII case folding, substring search, and lexicographic order as a proved total order.
- `sql.dfy` holds bound values, the partial-update composer `sqlForPartialUpdate` both repositories call, and the UPDATE statement they build from it.
- `jobs.dfy` holds the filter composer of `getAllJobs` and the job store.
- `users.dfy` holds the user store, with the bcrypt hash as a parameter.
- `scenarios.dfy` replays the repositories' tests on the model.

The main properties:

- The composer numbers its placeholders `$1, $2, …` in the fixed key order minSalary, hasEquity, title. It binds one value per placeholder.
- Its WHERE clause keeps exactly the jobs the criteria describe.
- The job list is sorted by title, holds no job twice, and holds every matching job.
- An update binds the row key at position `values.length + 1`, after every SET value. It assigns exactly the requested columns and leaves every other column alone. Applying it twice equals applying it once.
- A registration stores the hash of the password, never the password itself. No operation returns the stored password.
- A user update stores its values as given, a new password included, as `models/user.js:76-80` would with the import at `models/user.js:73` in place. `Users.UserStore.UpdateHashingPassword` is the corrected update that hashes the password first (see Findings).
- Authentication succeeds exactly when the password hashes to the stored value. An unknown user and a wrong password give the same error.

## Model

| member | source | states |
|---|---|---|
| Jobs.ComposeJobsQuery | models/job.js:28-49 | Three conditional steps push one fragment for each key that asks for a predicate, in the order minSalary, hasEquity, title. There is a WHERE clause exactly when some key asks for a predicate. With no criteria the query is `ORDER BY title` and binds nothing. For every row, the WHERE clause holds iff the row matches the criteria. |
| Jobs.ComposedQuery | models/job.js:28-49 | Once all three keys are handled: there is one value per minSalary or title, and one fragment per value plus one for `hasEquity === true`. The fragments are in the fixed order. The placeholders read `$1..$n`, one per value, each bound to its own criterion's value. The assembled WHERE keeps exactly the matching jobs. |
| Jobs.FragmentsComposed | models/job.js:31-43 | The three key steps together establish every composer invariant for the full criteria. |
| Jobs.Stage | models/job.js:31-43 | Handling one more key keeps the composer invariants. The numbering, ordering, binding and one-fragment-per-criterion properties extend from the first `n` keys to the first `n+1`. |
| Jobs.Pushed | models/job.js:31-43 | Pushing a key's fragment, and its value when it binds one, placed at `$values.length`, keeps the composer invariants. |
| Jobs.Skipped | models/job.js:31-43 | A key that asks for no predicate pushes nothing and keeps the composer invariants. This covers `hasEquity` being false or null. |
| Jobs.MeaningOfFragments | models/job.js:31-43 | Fragments bound to their criteria's values, one per criterion that asks for one, hold for a row exactly when the row matches. Three cases: salary at least the minimum, equity positive, title containing the text ignoring case. |
| Jobs.PushNumbered | models/job.js:32-33 | Appending a value and a fragment that refers to `$values.length` keeps the placeholders numbered `$1..$n`. An equity fragment binds nothing and keeps the numbering. |
| Jobs.PushBinds | models/job.js:31-43 | A pushed fragment bound to its criterion's value keeps every fragment bound to its own criterion. |
| Jobs.PushOrdered | models/job.js:31-43 | Pushing the fragment of key `n` after fragments of earlier keys keeps the fixed key order. |
| Jobs.PushOnePerCriterion | models/job.js:31-43 | After pushing key `n`'s fragment, there is a fragment for a criterion among the first `n+1` exactly when it asks for one. |
| Jobs.PlaceholdersAppend | models/job.js:31-43 | The placeholders of two fragment lists joined are the placeholders of each, joined. |
| Jobs.ILikeWrapped | models/job.js:42 | `ILIKE '%t%'` holds exactly when the title contains `t`, ignoring case. |
| Jobs.Assembled | models/job.js:45-49 | The clauses carry exactly the composer's fragments in the WHERE, and always ORDER BY title. |
| Jobs.AssembledShape | models/job.js:45-47 | The WHERE clause is present exactly when some fragment was pushed. It joins all fragments and comes before ORDER BY. |
| Jobs.AssembledWhere | models/job.js:45-49 | The assembled clauses filter a row exactly as the AND of the fragments does. |
| Jobs.InsertByTitle | models/job.js:49 | Inserting a row keeps a title-sorted list sorted and distinct ids distinct. The result is the old rows plus the new one, as a multiset, each kept with its multiplicity. |
| Jobs.JobStore.RunSelect | models/job.js:50-51 | Running the SELECT returns each job that satisfies the WHERE exactly once, with its company name from the LEFT JOIN, and only such jobs. The result is sorted by title when the query orders by title. |
| Jobs.JobStore.GetAllJobs | models/job.js:19-52 | The job list holds every job the criteria describe and only those, each once, with its company name, sorted by title. Without criteria it holds every job. |
| Jobs.JobStore.CreateJob | models/job.js:8-16 | A job for a known company is stored under a fresh id and returned with that id. An unknown company handle is refused and nothing changes. |
| Jobs.JobStore.GetJobById | models/job.js:54-74 | A missing id is `NotFound("No job: <id>")`. Otherwise it returns the job's fields with its company record nested in place of the handle. |
| Jobs.JobStore.ExecuteUpdate | models/job.js:81-86 | The store's side of `UPDATE jobs … WHERE id = $k`, in order: a bind failure; an unknown column or ill-typed value; a repeated column; a non-integer key; no row for a missing id; a NULL title refused. Otherwise the row has every assignment applied and nothing else changes. |
| Jobs.JobStore.UpdateJob | models/job.js:77-91 | An empty update is `BadRequest`. A refused column or value is the store's fault. A missing id is `NotFound("No job: <id>")`. A NULL title is refused. Otherwise only that job changes, to the row with the assignments applied, and the updated job is returned. The store is unchanged on every error. |
| Jobs.JobStore.DeleteJob | models/job.js:94-104 | A missing id is `NotFound` and nothing changes. Otherwise exactly that job is removed. |
| Sql.AssignmentFault | models/job.js:81-84 | An assignment is refused exactly when its column is not one the table lets an update set, or its value does not fit the column; the fault names that column. The jobs table lets title, salary and equity be set; the users table lets first_name, last_name, password, email and is_admin be set (models/user.js:76-80). |
| Sql.FirstFault | models/job.js:81-84 | No fault exactly when every assignment is accepted. A fault is the fault of one of the assignments. |
| Jobs.Updated | models/job.js:81-84 | Applying the assignments never changes the company handle. |
| Jobs.UpdatedFields | models/job.js:81-84 | After an admissible update with distinct columns, every assigned column holds its new value and every other column keeps its old one. |
| Jobs.AssignedField | models/job.js:81-84 | One accepted assignment sets its column and no other. |
| Jobs.UpdatedIdempotent | models/job.js:81-84 | Applying the same update twice gives the row that applying it once gives. |
| Jobs.FieldsDetermineRow | models/job.js:81-84 | Two job rows with the same columns are equal. |
| Sql.SqlForPartialUpdate | models/job.js:78 | The composer fails exactly on an empty update, with `BadRequest`. Otherwise there is one SET item per key, in key order, numbered from `$1`, each next to its value at the same position. |
| Sql.BuildUpdate | models/job.js:78-85 | For an empty update, `BadRequest`. Otherwise the key sits at placeholder `values.length + 1` and binds exactly the row key. The SET list binds exactly the requested changes. Both repositories build their UPDATE this way. |
| Sql.Param | models/job.js:79-85 | `$k` binds only when `1 <= k <= ` the count of parameters, and then to the k-th parameter. |
| Sql.ResolveComposed | models/job.js:78-85 | The composer's SET list, bound to its values followed by any trailing parameter, performs exactly the requested changes. |
| Sql.ResolveFrom | models/job.js:78-85 | SET items numbered from `first`, over parameters holding the values from position `first`, bind exactly the requested changes. |
| Sql.RenamedIdentity | models/job.js:78 | With the empty remap table `{}`, every key is its own column. |
| Text.Fold | models/job.js:42 | Case folding keeps the length and lower-cases each ASCII capital in place. |
| Text.ContainsAt | models/job.js:42 | An occurrence at a known offset makes the text contain the pattern. |
| Text.EmptyNeedleMatches | models/job.js:42 | The pattern `%%` matches every title. |
| Text.LexReflexive | models/job.js:49 | Title order is reflexive. |
| Text.LexTotal | models/job.js:49 | Title order is total. |
| Text.LexTransitive | models/job.js:49 | Title order is transitive. |
| Text.LexAntisymmetric | models/job.js:49 | Titles ordered both ways are equal. |
| Users.Public | models/user.js:20 | The returned record carries the username and every column except the password. |
| Users.PublicKeepsAllButPassword | models/user.js:44 | Dropping the password is the only difference between the selected row and the returned record. |
| Users.RegisteredRow | models/user.js:14-21 | The row a registration stores holds the hash of the password. Its public record is the registration without the password. |
| Users.UpdatedFields | models/user.js:76-80 | After an update with distinct, accepted, non-NULL columns, every assigned column holds exactly the value given, and every other column keeps its old one. |
| Users.AssignedField | models/user.js:76-80 | One accepted non-NULL assignment sets its column to the value given and no other. |
| Users.NewPasswordStored | models/user.js:76-80 | A new password given to the update is stored exactly as given. |
| Users.PasswordUpdateAsWritten | models/user.js:72-80 | As written, the update stores a new password verbatim. Authentication with it then fails under any hash that does not map it to itself. |
| Users.PasswordUpdateAuthenticates | models/user.js:72-80 | With every new password replaced by its hash before the update, as registration does, authentication with the new password succeeds. |
| Users.FirstNull | models/user.js:76-80 | The first column an update sets to NULL. None exactly when no value is NULL, and otherwise a column that some assignment sets to NULL. |
| Users.HashedChange | models/user.js:14 | A new password is replaced by its hash. Any other key or value stays as it is. |
| Users.HashedPasswords | models/user.js:14 | The update object keeps its length and key order, with each key hashed as HashedChange does. |
| Users.HashingKeepsFaults | models/user.js:76-80 | Hashing the passwords changes neither the first refused assignment, nor the first NULL, nor the distinctness of the keys. |
| Users.UpdatedIdempotent | models/user.js:76-80 | Applying the same admissible update twice gives the row that applying it once gives. |
| Users.FieldsDetermineRow | models/user.js:76-80 | Two user rows with the same columns are equal. |
| Users.UserStore.Register | models/user.js:13-25 | A new username stores the registration with the hash of its password and returns the record without a password. A taken username is refused by the primary key and the first record stays. |
| Users.UserStore.Select | models/user.js:29-37 | The lookup selects a row exactly when the username exists. It holds the stored hash and the public record. |
| Users.UserStore.Authenticate | models/user.js:28-46 | Success exactly when the user exists and the password hashes to the stored value. It returns the record without the password. Both failures are the same `BadRequest("Invalid username/password")`. |
| Users.UserStore.FindAll | models/user.js:49-55 | Every stored user's public record, and nothing else. |
| Users.UserStore.Get | models/user.js:58-69 | The public record exactly when the username exists. Otherwise `NotFound("No user: <username>")`. |
| Users.UserStore.ExecuteUpdate | models/user.js:76-81 | The store's side of `UPDATE users … WHERE username = $k`, in order: a bind failure; an unknown column or ill-typed value; a repeated column; a non-text key; no row for a missing user; a NULL in any column of the existing row refused as a NOT NULL violation. Otherwise the row has every assignment applied as given, and nothing else changes. |
| Users.UserStore.Update | models/user.js:72-85 | As written: an empty update is `BadRequest`. A refused column or value is the store's fault. A missing user is `NotFound("No user: <username>")` whatever NULLs the update holds, once no column or value is refused. A NULL on an existing user's row is a NOT NULL violation. Otherwise only that user changes, to the row with the values stored as given, a new password included, and its public record is returned. The store is unchanged on every error. |
| Users.UserStore.UpdateHashingPassword | models/user.js:72-85 | The corrected update hashes each new password before storing it, as `register` does (models/user.js:14). It has the same outcomes as the update. On success the row holds the update with its passwords hashed, and the user authenticates with each new password. |
| Users.UserStore.Remove | models/user.js:88-98 | A missing user is `NotFound` and nothing changes. Otherwise exactly that user is removed. |
| Scenarios.Fixture | models/job.test.js:41-77 | The four jobs the tests expect, created in order, are stored under ids 1 to 4. |
| Scenarios.NoFilter | models/job.test.js:41-77 | Without criteria the job list is all four jobs, in title order. |
| Scenarios.SortedListIs | models/job.test.js:41-77 | A title-sorted list without repeated ids holds exactly the rows of a list in strictly increasing title order. That list is it. |
| Scenarios.SameHead | models/job.test.js:41-77 | Two such lists start with the same row. |
| Scenarios.TailsAgree | models/job.test.js:41-77 | Past their common first row, the two lists still satisfy the lemma's conditions. |
| Scenarios.FixtureTitlesIncrease | models/job.test.js:41-77 | The titles Job1 to Job4 strictly increase in title order. |
| Scenarios.ListedAlone | models/job.test.js:79-91 | A title-sorted, duplicate-free list of exactly the matching jobs, where one job matches, is that job's summary alone. |
| Scenarios.ListedPair | models/job.test.js:93-113 | Such a list, where two jobs match, is their two summaries in title order. |
| Scenarios.MinSalaryAndEquity | models/job.test.js:115-127 | `{minSalary: 150, hasEquity: true}` lists Job2 alone. |
| Scenarios.EquityOnly | models/job.test.js:93-113 | `{hasEquity: true}` lists Job1 and then Job2. |
| Scenarios.MinSalaryOnly | models/job.test.js:79-91 | `{minSalary: 250}` lists Job3 alone. |
| Scenarios.LastCharMissing | models/job.test.js:129-141 | A text lacking the pattern's last character does not contain the pattern. |
| Scenarios.Ob1Occurrences | models/job.test.js:129-141 | "ob1" occurs, ignoring case, in "Job1" and in no other test title. |
| Scenarios.TitleOnly | models/job.test.js:129-141 | `{title: "ob1"}` lists Job1 alone. |
| Scenarios.CreateThenGet | models/job.test.js:29-35 | A created job gets the next id and comes back from the lookup with its company nested. |
| Scenarios.GetFirstJob | models/job.test.js:147-162 | Looking up Job1 by its id gives its fields with the company C1 nested in place of the handle. |
| Scenarios.UpdateWorks | models/job.test.js:183-190 | Updating title, salary and equity returns the job with the new values, the same id and the same company. |
| Scenarios.UpdateMissing | models/job.test.js:192-199 | Updating id 0 is `NotFound("No job: 0")`. |
| Scenarios.UpdateEmpty | models/job.test.js:201-208 | An update with no data is `BadRequest`. |
| Scenarios.DeleteCases | models/job.test.js:214-227 | A deleted job is no longer found. Deleting it again is `NotFound`. |
| Scenarios.RegisterTwice | models/user.test.js:32-50 | A second registration of a username fails and the first record is kept. |
| Scenarios.RegisterThenAuthenticate | models/user.test.js:52-81 | A registered user authenticates with the right password. A wrong password gets `BadRequest("Invalid username/password")`. |
| Scenarios.UpdatePasswordAsWritten | models/user.js:72-85 | As written, after a password update to "new", authentication with "new" is `BadRequest("Invalid username/password")` whenever the hash does not fix "new". |
| Scenarios.UpdateHashedThenAuthenticate | models/user.js:72-85 | With the corrected update, which hashes the password, the user authenticates with the new password. |
| Scenarios.UpdateNullFirstName | models/user.js:76-83 | A NULL first name is a NOT NULL violation on an existing user, and `NotFound("No user: ghost")` for a missing one. |
| Scenarios.RemoveThenGet | models/user.js:88-98 | A removed user is not found, and removing them again is `NotFound`. |

## Left out

- SQL text itself (string building of `WHERE`, `SET`, `RETURNING` and aliases, including the `LEFT JOIN`) is modelled by its meaning (clauses, placeholders and the rows each statement reads or writes), not as strings.
- `ILIKE` wildcards inside the title text (`%` or `_` typed by a caller) are not modelled: the title is matched as a literal substring. Case folding is ASCII only, not locale-dependent.
- `ORDER BY title` is code-point order, not a database collation.
- bcrypt is a parameter `hash: string -> string` of the user store, and `compare(p, h)` is `hash(p) == h`: salts, the work factor 10 and timing are not modelled.
- Every operation is synchronous: `async`/`await`, connection errors and concurrency are not modelled.
- `models/user.js:73` calls `sqlForPartialUpdate` without importing it, so the call would throw at run time. The model treats it as imported, and the defect under Findings shows only with the import in place.
- `helpers/sql.js` is not part of this model; `sqlForPartialUpdate` is modelled by the behaviour both repositories rely on, and its error message "No data" is an assumption.
- The database schema is not part of this model. Assumed: `title` is NOT NULL, every user column is NOT NULL, `company_handle` references `companies`, and `username` is the primary key. A CHECK on the form of `email` is not modelled.
- Jobs.JobStore.CreateJob and Users.UserStore.Register: their inputs are records whose required fields always hold a value (`JobRow.title` and every `Registration` field is a string or a boolean), so the NOT NULL violation the INSERT raises for a missing title, first or last name, email or is_admin is not modelled. A missing password fails earlier, in the hash call at `models/user.js:14`, and that failure is not modelled either.
- Jobs.JobStore.CreateJob, Jobs.JobStore.UpdateJob and Jobs.JobStore.GetAllJobs: the CHECK on the range of `equity` and the 32-bit width of the integer columns `id` and `salary` are not modelled. Ids, salaries and `minSalary` are unbounded integers, so an equity above 1 or a salary past 2147483647 is stored, where the store refuses it. A `minSalary` past that range gives the empty list, where the store reports an error.
- The shared test fixture `models/_testCommon.js` is not part of this model. Scenarios.Fixture rebuilds the four test jobs from the results the no-filter test expects (`models/job.test.js:41-77`).
- Update keys are column names, because both repositories pass the remap table `{}`. A camelCase key such as `firstName` is an unknown column.
- `id`, `company_handle` and `username` are real columns but are not updatable in the model; assigning them is an unknown-column fault.
- An equity value is an exact decimal or NULL; NUMERIC parsing of caller strings is not modelled.
- The store's fault messages are fault kinds, not PostgreSQL messages. The order in which the store checks an UPDATE is a modelling choice.
- Users.UserStore.Register: a duplicate username is the store's unique violation. The "Duplicate username" message is not produced, because the code does not translate the fault.
- A failed insert does not advance the id counter, unlike a PostgreSQL sequence.
- Users.UserStore.FindAll: the result is a set, so the unspecified row order of the SELECT is not modelled.
- The `applications` list of a user (`models/user.test.js:99`) is not part of this model.
- Deleting a job or user does not cascade to applications.
- `getAllJobs(null)` (a null criteria object, which throws) is not modelled. A missing criteria object is `NO_CRITERIA`.
- HTTP routes, authorisation middleware and `routes/jobs.test.js` are outside the repositories and not modelled.

## Findings

| source | as written | input that shows it | evidently intended | confidence | as-written member | corrected member |
|---|---|---|---|---|---|---|
| models/user.js:72-80 | `update` writes `data.password` into the `password` column verbatim, while `register` and `authenticate` treat that column as a bcrypt hash | once the missing import at `models/user.js:73` is added (as written, `update` first throws a ReferenceError there): `update("u1", {password: "newpass"})` then `authenticate("u1", "newpass")`: `bcrypt.compare("newpass", "newpass")` is false, so the user can no longer log in | hash a new password with bcrypt before storing it, as `register` does | medium, not executed | Users.PasswordUpdateAsWritten | Users.UserStore.UpdateHashingPassword |
