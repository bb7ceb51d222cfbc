/** The user repository: an in-memory users table keyed by username, a
    one-way password hash that the store is given, registration,
    authentication and the read, update and remove operations. No
    operation returns the stored password. */
module Users {
  import opened Common
  import opened Sql

  /** A stored row of the users table, without its key. `password` holds
      what was stored for the password: its hash. */
  datatype UserRow = UserRow(firstName: string, lastName: string, password: string, email: string, isAdmin: bool)

  /** A user as every operation returns it: the row without the password. */
  datatype User = User(username: string, firstName: string, lastName: string, email: string, isAdmin: bool)

  /** A user as the authentication lookup selects it: the password included. */
  datatype StoredUser = StoredUser(password: string, user: User)

  /** The argument object of a registration. */
  datatype Registration = Registration(
    username: string, firstName: string, lastName: string,
    password: string, email: string, isAdmin: bool)

  const INVALID_CREDENTIALS := "Invalid username/password"

  /** The public record of a stored user. */
  function Public(username: string, row: UserRow): (u: User)
    ensures u.username == username
    ensures u.firstName == row.firstName && u.lastName == row.lastName
    ensures u.email == row.email && u.isAdmin == row.isAdmin
  {
    User(username, row.firstName, row.lastName, row.email, row.isAdmin)
  }

  /** `delete user.password`: the selected record without its password. */
  function WithoutPassword(s: StoredUser): User {
    s.user
  }

  /** The password is the only thing the public record drops: together
      with it the row comes back. */
  lemma PublicKeepsAllButPassword(username: string, row: UserRow)
    ensures var u := Public(username, row);
      UserRow(u.firstName, u.lastName, row.password, u.email, u.isAdmin) == row
    ensures WithoutPassword(StoredUser(row.password, Public(username, row))) == Public(username, row)
  {
  }

  /** The row a registration stores: the hash of the password, never the
      password itself. */
  function RegisteredRow(reg: Registration, hash: string -> string): (row: UserRow)
    ensures row.password == hash(reg.password)
    ensures Public(reg.username, row) == User(reg.username, reg.firstName, reg.lastName, reg.email, reg.isAdmin)
  {
    UserRow(reg.firstName, reg.lastName, hash(reg.password), reg.email, reg.isAdmin)
  }

  /** bcrypt's compare: the password hashes to what was stored. */
  predicate PasswordMatches(hash: string -> string, password: string, stored: string) {
    hash(password) == stored
  }

  /*** Updates ***/

  /** A column of a user row as the store returns it. */
  function Field(row: UserRow, column: string): SqlValue {
    match column
    case "first_name" => SqlText(row.firstName)
    case "last_name" => SqlText(row.lastName)
    case "password" => SqlText(row.password)
    case "email" => SqlText(row.email)
    case "is_admin" => SqlBool(row.isAdmin)
    case _ => SqlNull
  }

  /** The columns an update may assign. */
  const UPDATABLE: set<string> := {"first_name", "last_name", "password", "email", "is_admin"}

  /** The text columns take text and is_admin a boolean. Each of them
      also takes NULL as a value, which the NOT NULL constraints refuse on
      the row the update reaches. */
  predicate AcceptedBy(column: string, v: SqlValue) {
    v.SqlNull? || (if column == "is_admin" then v.SqlBool? else v.SqlText?)
  }

  /** What an update of the users table may assign. */
  const COLUMNS := Columns(UPDATABLE, AcceptedBy)

  /** The first column an update sets to NULL; every user column is NOT NULL. */
  function FirstNull(changes: seq<Change>): (c: Option<string>)
    ensures c == None <==> forall i | 0 <= i < |changes| :: changes[i].1 != SqlNull
    ensures c.Some? ==> exists i | 0 <= i < |changes| :: changes[i] == (c.value, SqlNull)
  {
    if changes == [] then None
    else if changes[0].1 == SqlNull then Some(changes[0].0)
    else
      var c := FirstNull(changes[1..]);
      assert c.Some? ==> exists i | 1 <= i < |changes| :: changes[i] == (c.value, SqlNull) by {
        if c.Some? {
          var i :| 0 <= i < |changes[1..]| && changes[1..][i] == (c.value, SqlNull);
          assert changes[1..][i] == changes[i + 1];
        }
      }
      c
  }

  /** The assignments an update may perform on a row. */
  predicate Admissible(changes: seq<Change>) {
    FirstFault(COLUMNS, changes) == None && FirstNull(changes) == None
  }

  /** One accepted assignment applied to a row; the password column takes
      the value as given. */
  function Assigned(row: UserRow, change: Change): UserRow {
    match change
    case ("first_name", SqlText(t)) => row.(firstName := t)
    case ("last_name", SqlText(t)) => row.(lastName := t)
    case ("password", SqlText(t)) => row.(password := t)
    case ("email", SqlText(t)) => row.(email := t)
    case ("is_admin", SqlBool(b)) => row.(isAdmin := b)
    case _ => row
  }

  /** A row with the assignments of a SET list applied in order. */
  function Updated(row: UserRow, changes: seq<Change>): UserRow
    decreases |changes|
  {
    if changes == [] then row else Updated(Assigned(row, changes[0]), changes[1..])
  }

  predicate AssignsColumn(changes: seq<Change>, column: string) {
    exists i | 0 <= i < |changes| :: changes[i].0 == column
  }

  /** One accepted assignment sets its column and no other. */
  lemma AssignedField(row: UserRow, change: Change)
    requires AssignmentFault(COLUMNS, change.0, change.1) == None && change.1 != SqlNull
    ensures Field(Assigned(row, change), change.0) == change.1
    ensures forall column | column != change.0 :: Field(Assigned(row, change), column) == Field(row, column)
  {
  }

  /** Every assigned column holds its new value, and every other column
      keeps its old one. */
  lemma {:induction false} UpdatedFields(row: UserRow, changes: seq<Change>)
    requires Admissible(changes) && DistinctKeys(changes)
    ensures forall i | 0 <= i < |changes| :: Field(Updated(row, changes), changes[i].0) == changes[i].1
    ensures forall column | !AssignsColumn(changes, column) :: Field(Updated(row, changes), column) == Field(row, column)
    decreases |changes|
  {
    if changes != [] {
      var rest := changes[1..];
      assert Admissible(rest) && DistinctKeys(rest) by {
        forall i | 0 <= i < |rest| ensures AssignmentFault(COLUMNS, rest[i].0, rest[i].1) == None && rest[i].1 != SqlNull {
          assert rest[i] == changes[i + 1];
        }
      }
      UpdatedFields(Assigned(row, changes[0]), rest);
      AssignedField(row, changes[0]);
      forall i | 0 <= i < |changes| ensures Field(Updated(row, changes), changes[i].0) == changes[i].1 {
        if i == 0 {
          assert !AssignsColumn(rest, changes[0].0) by {
            forall j | 0 <= j < |rest| ensures rest[j].0 != changes[0].0 {
              assert rest[j] == changes[j + 1];
            }
          }
        } else {
          assert changes[i] == rest[i - 1];
        }
      }
      forall column | !AssignsColumn(changes, column) ensures Field(Updated(row, changes), column) == Field(row, column) {
        assert changes[0].0 != column;
        assert !AssignsColumn(rest, column) by {
          forall j | 0 <= j < |rest| ensures rest[j].0 != column {
            assert rest[j] == changes[j + 1];
          }
        }
      }
    }
  }

  /** Applying the same update twice leaves the row as applying it once. */
  lemma {:induction false} UpdatedIdempotent(row: UserRow, changes: seq<Change>)
    requires Admissible(changes) && DistinctKeys(changes)
    ensures Updated(Updated(row, changes), changes) == Updated(row, changes)
  {
    var once := Updated(row, changes);
    var twice := Updated(once, changes);
    UpdatedFields(row, changes);
    UpdatedFields(once, changes);
    forall column ensures Field(twice, column) == Field(once, column) {
      if AssignsColumn(changes, column) {
        var i :| 0 <= i < |changes| && changes[i].0 == column;
      }
    }
    FieldsDetermineRow(twice, once);
  }

  /** A row is determined by its columns. */
  lemma FieldsDetermineRow(a: UserRow, b: UserRow)
    requires forall column :: Field(a, column) == Field(b, column)
    ensures a == b
  {
    assert Field(a, "first_name") == Field(b, "first_name");
    assert Field(a, "last_name") == Field(b, "last_name");
    assert Field(a, "password") == Field(b, "password");
    assert Field(a, "email") == Field(b, "email");
    assert Field(a, "is_admin") == Field(b, "is_admin");
  }

  /** A new password given to the update is stored as given. */
  lemma NewPasswordStored(row: UserRow, changes: seq<Change>, i: nat)
    requires Admissible(changes) && DistinctKeys(changes)
    requires i < |changes| && changes[i].0 == "password"
    ensures changes[i].1.SqlText?
    ensures Updated(row, changes).password == changes[i].1.text
  {
    assert AssignmentFault(COLUMNS, changes[i].0, changes[i].1) == None && changes[i].1 != SqlNull;
    UpdatedFields(row, changes);
    assert Field(Updated(row, changes), "password") == changes[i].1;
  }

  /** As written, the update puts a new password into the row verbatim,
      and authentication with that password then fails under any hash
      that does not map it to itself. */
  lemma PasswordUpdateAsWritten(row: UserRow, p: string, hash: string -> string)
    requires hash(p) != p
    ensures Updated(row, [("password", SqlText(p))]).password == p
    ensures !PasswordMatches(hash, p, Updated(row, [("password", SqlText(p))]).password)
  {
    NewPasswordStored(row, [("password", SqlText(p))], 0);
  }

  /** One key of an update object with a new password replaced by its hash. */
  function HashedChange(change: Change, hash: string -> string): (r: Change)
    ensures r.0 == change.0
    ensures change.0 == "password" && change.1.SqlText? ==> r.1 == SqlText(hash(change.1.text))
    ensures !(change.0 == "password" && change.1.SqlText?) ==> r.1 == change.1
  {
    if change.0 == "password" && change.1.SqlText? then (change.0, SqlText(hash(change.1.text))) else change
  }

  /** The update object with every new password replaced by its hash, as
      registration stores it. */
  function HashedPasswords(data: seq<Change>, hash: string -> string): (r: seq<Change>)
    ensures |r| == |data|
    ensures forall i | 0 <= i < |data| :: r[i] == HashedChange(data[i], hash)
  {
    if data == [] then [] else [HashedChange(data[0], hash)] + HashedPasswords(data[1..], hash)
  }

  /** Hashing the passwords changes neither the keys nor what the store
      refuses. */
  lemma {:induction false} HashingKeepsFaults(data: seq<Change>, hash: string -> string)
    ensures FirstFault(COLUMNS, HashedPasswords(data, hash)) == FirstFault(COLUMNS, data)
    ensures FirstNull(HashedPasswords(data, hash)) == FirstNull(data)
    ensures DistinctKeys(data) ==> DistinctKeys(HashedPasswords(data, hash))
  {
    var r := HashedPasswords(data, hash);
    if data != [] {
      HashingKeepsFaults(data[1..], hash);
      assert r[1..] == HashedPasswords(data[1..], hash);
      assert AssignmentFault(COLUMNS, r[0].0, r[0].1) == AssignmentFault(COLUMNS, data[0].0, data[0].1);
    }
  }

  /** With the new password hashed as registration does, authentication
      with it succeeds. */
  lemma PasswordUpdateAuthenticates(row: UserRow, data: seq<Change>, hash: string -> string, i: nat)
    requires Admissible(data) && DistinctKeys(data)
    requires i < |data| && data[i].0 == "password"
    ensures data[i].1.SqlText?
    ensures PasswordMatches(hash, data[i].1.text, Updated(row, HashedPasswords(data, hash)).password)
  {
    var hashed := HashedPasswords(data, hash);
    HashingKeepsFaults(data, hash);
    assert AssignmentFault(COLUMNS, data[i].0, data[i].1) == None && data[i].1 != SqlNull;
    NewPasswordStored(row, hashed, i);
  }

  /*** The store ***/

  class UserStore {
    var users: map<string, UserRow>
    /** The one-way password hash (bcrypt in the repository). */
    const hash: string -> string

    constructor (hash: string -> string)
      ensures users == map[] && this.hash == hash
    {
      this.hash := hash;
      users := map[];
    }

    /** Registers a user; the stored row holds the hash of the password,
        and the returned record holds no password. A taken username is
        refused by the primary key and the first record stays as it was. */
    method Register(reg: Registration) returns (r: Result<User>)
      modifies this
      ensures reg.username in old(users) ==>
        r == Failure(StoreFault(UniqueViolation("username"))) && users == old(users)
      ensures reg.username !in old(users) ==>
        && users == old(users)[reg.username := RegisteredRow(reg, hash)]
        && r == Success(User(reg.username, reg.firstName, reg.lastName, reg.email, reg.isAdmin))
    {
      var hashed := hash(reg.password);
      if reg.username in users {
        return Failure(StoreFault(UniqueViolation("username")));
      }
      var row := UserRow(reg.firstName, reg.lastName, hashed, reg.email, reg.isAdmin);
      users := users[reg.username := row];
      r := Success(Public(reg.username, row));
    }

    /** The row the authentication lookup selects, password included. */
    function Select(username: string): (s: Option<StoredUser>)
      reads this
      ensures s.Some? <==> username in users
      ensures s.Some? ==> s.value == StoredUser(users[username].password, Public(username, users[username]))
    {
      if username in users then Some(StoredUser(users[username].password, Public(username, users[username]))) else None
    }

    /** Checks a username and password: an unknown user and a wrong
        password are the same BadRequest; otherwise the user's record
        without its password. */
    method Authenticate(username: string, password: string) returns (r: Result<User>)
      ensures r.Success? <==> username in users && PasswordMatches(hash, password, users[username].password)
      ensures r.Failure? ==> r.error == BadRequest(INVALID_CREDENTIALS)
      ensures r.Success? ==> r.value == Public(username, users[username])
    {
      var found := Select(username);
      if found.None? {
        return Failure(BadRequest(INVALID_CREDENTIALS));
      }
      var user := found.value;
      var isValid := PasswordMatches(hash, password, user.password);
      if !isValid {
        return Failure(BadRequest(INVALID_CREDENTIALS));
      }
      r := Success(WithoutPassword(user));
    }

    /** Every user's public record. */
    function FindAll(): (all: set<User>)
      reads this
      ensures forall u | u in all :: u.username in users && u == Public(u.username, users[u.username])
      ensures forall name | name in users :: Public(name, users[name]) in all
    {
      set name | name in users :: Public(name, users[name])
    }

    /** A user's public record, or NotFound. */
    function Get(username: string): (r: Result<User>)
      reads this
      ensures r.Success? <==> username in users
      ensures r.Success? ==> r.value == Public(username, users[username])
      ensures r.Failure? ==> r.error == NotFound("No user: " + username)
    {
      if username in users then Success(Public(username, users[username]))
      else Failure(NotFound("No user: " + username))
    }

    /** Runs an `UPDATE users SET ... WHERE username = $k RETURNING ...`:
        binds the SET list and the key, refuses unknown columns, values of
        the wrong type and a column assigned twice, returns no row when no
        user has the key, refuses a NULL in any column of the row it
        updates, and otherwise assigns the columns as given and returns
        the updated user. */
    method ExecuteUpdate(stmt: UpdateStatement) returns (r: Result<Option<User>>)
      modifies this
      ensures r.Success? && r.value.Some? ==>
        && Resolve(stmt.setCols, stmt.params).Success?
        && var changes := Resolve(stmt.setCols, stmt.params).value;
        && Param(stmt.params, stmt.keyPlaceholder).Success?
        && Param(stmt.params, stmt.keyPlaceholder).value.SqlText?
        && var name := Param(stmt.params, stmt.keyPlaceholder).value.text;
        && name in old(users) && Admissible(changes) && DistinctKeys(changes)
        && r.value.value == Public(name, Updated(old(users)[name], changes))
        && users == old(users)[name := Updated(old(users)[name], changes)]
      ensures !(r.Success? && r.value.Some?) ==> users == old(users)
      ensures Resolve(stmt.setCols, stmt.params).Failure? ==> r == Failure(Resolve(stmt.setCols, stmt.params).error)
      ensures Resolve(stmt.setCols, stmt.params).Success? ==>
        var changes := Resolve(stmt.setCols, stmt.params).value;
        && (FirstFault(COLUMNS, changes).Some? ==> r == Failure(StoreFault(FirstFault(COLUMNS, changes).value)))
        && (FirstFault(COLUMNS, changes) == None && !DistinctKeys(changes) ==> r.Failure? && r.error.StoreFault? && r.error.fault.RepeatedColumn?)
        && (FirstFault(COLUMNS, changes) == None && DistinctKeys(changes) ==>
             var key := Param(stmt.params, stmt.keyPlaceholder);
             && (key.Failure? ==> r == Failure(key.error))
             && (key.Success? && !key.value.SqlText? ==> r == Failure(StoreFault(InvalidValue("username"))))
             && (key.Success? && key.value.SqlText? ==>
                  && (key.value.text !in old(users) ==> r == Success(None))
                  && (key.value.text in old(users) && FirstNull(changes).Some? ==>
                       r == Failure(StoreFault(NotNullViolation(FirstNull(changes).value))))
                  && (key.value.text in old(users) && FirstNull(changes) == None ==> r.Success? && r.value.Some?)))
    {
      var bound := Resolve(stmt.setCols, stmt.params);
      if bound.Failure? {
        return Failure(bound.error);
      }
      var changes := bound.value;
      var fault := FirstFault(COLUMNS, changes);
      if fault.Some? {
        return Failure(StoreFault(fault.value));
      }
      if !DistinctKeys(changes) {
        var i, j :| 0 <= i < j < |changes| && changes[i].0 == changes[j].0;
        return Failure(StoreFault(RepeatedColumn(changes[j].0)));
      }
      var key := Param(stmt.params, stmt.keyPlaceholder);
      if key.Failure? {
        return Failure(key.error);
      }
      if !key.value.SqlText? {
        return Failure(StoreFault(InvalidValue("username")));
      }
      var name := key.value.text;
      if name !in users {
        return Success(None);
      }
      var nullColumn := FirstNull(changes);
      if nullColumn.Some? {
        return Failure(StoreFault(NotNullViolation(nullColumn.value)));
      }
      var row := Updated(users[name], changes);
      users := users[name := row];
      r := Success(Some(Public(name, row)));
    }

    /** Updates the given columns of a user as given and returns the public
        record: an empty update is a BadRequest, a refused column or value
        is the store's fault, a missing user is NotFound, and a NULL on the
        user's row is refused, each with the store unchanged. A new
        password is stored as given, not hashed. */
    method Update(username: string, data: seq<Change>) returns (r: Result<User>)
      requires DistinctKeys(data)
      modifies this
      ensures data == [] ==> r == Failure(BadRequest(NO_DATA)) && users == old(users)
      ensures data != [] && FirstFault(COLUMNS, data).Some? ==>
        r == Failure(StoreFault(FirstFault(COLUMNS, data).value)) && users == old(users)
      ensures data != [] && FirstFault(COLUMNS, data) == None && username !in old(users) ==>
        r == Failure(NotFound("No user: " + username)) && users == old(users)
      ensures data != [] && FirstFault(COLUMNS, data) == None && username in old(users) && FirstNull(data).Some? ==>
        r == Failure(StoreFault(NotNullViolation(FirstNull(data).value))) && users == old(users)
      ensures data != [] && Admissible(data) && username in old(users) ==>
        && r == Success(Public(username, Updated(old(users)[username], data)))
        && users == old(users)[username := Updated(old(users)[username], data)]
    {
      var built := BuildUpdate(data, map[], SqlText(username));
      if built.Failure? {
        return Failure(built.error);
      }
      RenamedIdentity(data);
      var result := ExecuteUpdate(built.value);
      match result
      case Failure(e) =>
        r := Failure(e);
      case Success(None) =>
        r := Failure(NotFound("No user: " + username));
      case Success(Some(user)) =>
        r := Success(user);
    }

    /** The update with a new password hashed before it is stored, as
        registration does: the same outcomes as the update, and afterwards
        the user authenticates with the new password. */
    method UpdateHashingPassword(username: string, data: seq<Change>) returns (r: Result<User>)
      requires DistinctKeys(data)
      modifies this
      ensures data == [] ==> r == Failure(BadRequest(NO_DATA)) && users == old(users)
      ensures data != [] && FirstFault(COLUMNS, data).Some? ==>
        r == Failure(StoreFault(FirstFault(COLUMNS, data).value)) && users == old(users)
      ensures data != [] && FirstFault(COLUMNS, data) == None && username !in old(users) ==>
        r == Failure(NotFound("No user: " + username)) && users == old(users)
      ensures data != [] && FirstFault(COLUMNS, data) == None && username in old(users) && FirstNull(data).Some? ==>
        r == Failure(StoreFault(NotNullViolation(FirstNull(data).value))) && users == old(users)
      ensures data != [] && Admissible(data) && username in old(users) ==>
        && r == Success(Public(username, Updated(old(users)[username], HashedPasswords(data, hash))))
        && users == old(users)[username := Updated(old(users)[username], HashedPasswords(data, hash))]
        && forall i | 0 <= i < |data| && data[i].0 == "password" ::
             data[i].1.SqlText? && PasswordMatches(hash, data[i].1.text, users[username].password)
    {
      HashingKeepsFaults(data, hash);
      ghost var before := users;
      r := Update(username, HashedPasswords(data, hash));
      if data != [] && Admissible(data) && username in before {
        forall i | 0 <= i < |data| && data[i].0 == "password"
          ensures data[i].1.SqlText? && PasswordMatches(hash, data[i].1.text, users[username].password)
        {
          PasswordUpdateAuthenticates(before[username], data, hash, i);
        }
      }
    }

    /** Removes a user; a missing username is NotFound. */
    method Remove(username: string) returns (r: Result<()>)
      modifies this
      ensures username !in old(users) ==> r == Failure(NotFound("No user: " + username)) && users == old(users)
      ensures username in old(users) ==> r == Success(()) && users == old(users) - {username}
    {
      if username !in users {
        return Failure(NotFound("No user: " + username));
      }
      users := users - {username};
      r := Success(());
    }
  }
}
