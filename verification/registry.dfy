/**
 The in-memory user registry of the integration-testing exercise
 (`userManager.js`; the integration-testing template embeds the same code).
 The module-level object `_usersDb` (username to password) becomes an
 immutable map threaded through pure functions; `registerUser` either
 throws or returns a boolean.
 */
module Registry {
  import opened Js

  /** `_usersDb`: username to password. */
  type Db = map<string, string>

  const EmptyCredentialsMessage := "Username and password cannot be empty."

  /** The outcome of `registerUser` together with the store after it. */
  datatype Registration = Registration(outcome: Result<bool>, db: Db)

  /** Every store `registerUser` can build: no empty username, no empty
      password. */
  predicate WellFormed(db: Db)
  {
    forall u :: u in db ==> u != "" && db[u] != ""
  }

  /** `registerUser(username, password)`. */
  function RegisterUser(db: Db, username: string, password: string): (r: Registration)
    ensures r.outcome.Throws? <==> username == "" || password == ""
    ensures r.outcome.Throws? ==> r.outcome.message == EmptyCredentialsMessage
    ensures r.outcome != Returns(true) ==> r.db == db
    ensures r.outcome == Returns(true) ==>
              r.db.Keys == db.Keys + {username} && r.db[username] == password &&
              forall u :: u in db && u != username ==> r.db[u] == db[u]
  {
    if username == "" || password == "" then Registration(Throws(EmptyCredentialsMessage), db)
    else if OwnTruthy(db, username) then Registration(Returns(false), db)
    else Registration(Returns(true), db[username := password])
  }

  /** `loginUser(username, password)`. */
  function LoginUser(db: Db, username: string, password: string): (ok: bool)
    ensures ok ==> username in db && db[username] == password
  {
    if !OwnTruthy(db, username) then false else db[username] == password
  }

  /** `getUserCount()`: the number of own keys of `_usersDb`. */
  function UserCount(db: Db): (count: nat)
    ensures count == |db.Keys|
    ensures count == 0 <==> db == map[]
  {
    |db|
  }

  /** `clearUsers()`: deletes the stored names one at a time. */
  method ClearUsers(db: Db) returns (cleared: Db)
    ensures cleared == map[]
    ensures UserCount(cleared) == 0
    ensures forall u, p :: !LoginUser(cleared, u, p)
  {
    cleared := db;
    while cleared.Keys != {}
      decreases |cleared.Keys|
    {
      var key :| key in cleared.Keys;
      cleared := cleared - {key};
    }
    assert cleared == map[];
  }

  // ---------------------------------------------------------------------
  // Properties over well-formed stores.

  /** Registration keeps the store well formed. */
  lemma RegisterPreservesWellFormed(db: Db, username: string, password: string)
    requires WellFormed(db)
    ensures WellFormed(RegisterUser(db, username, password).db)
  {
  }

  /** Empty credentials throw, and nothing is stored. */
  lemma RegisterEmptyThrows(db: Db, username: string, password: string)
    requires username == "" || password == ""
    ensures RegisterUser(db, username, password) == Registration(Throws(EmptyCredentialsMessage), db)
    ensures UserCount(RegisterUser(db, username, password).db) == UserCount(db)
  {
  }

  /** A name already stored is refused; the store, its count and the stored
      password stay as they were. */
  lemma RegisterDuplicateRefused(db: Db, username: string, password: string)
    requires WellFormed(db) && username in db && password != ""
    ensures RegisterUser(db, username, password) == Registration(Returns(false), db)
    ensures UserCount(RegisterUser(db, username, password).db) == UserCount(db)
  {
  }

  /** A new name with non-empty credentials is stored: the count grows by
      exactly one and the new user can log in at once. */
  lemma RegisterFreshAccepted(db: Db, username: string, password: string)
    requires WellFormed(db) && username !in db && username != "" && password != ""
    ensures RegisterUser(db, username, password).outcome == Returns(true)
    ensures UserCount(RegisterUser(db, username, password).db) == UserCount(db) + 1
    ensures LoginUser(RegisterUser(db, username, password).db, username, password)
  {
  }

  /** Registration never overwrites: every stored user keeps its password,
      whatever the outcome. */
  lemma RegisterNeverOverwrites(db: Db, username: string, password: string)
    requires WellFormed(db)
    ensures forall u :: u in db ==>
              u in RegisterUser(db, username, password).db &&
              RegisterUser(db, username, password).db[u] == db[u]
  {
  }

  /** Login is an exact match of a stored password. */
  lemma LoginExactMatch(db: Db, username: string, password: string)
    requires WellFormed(db)
    ensures LoginUser(db, username, password) <==> username in db && db[username] == password
  {
  }

  /** An empty username or password never logs in. */
  lemma LoginEmptyFails(db: Db, username: string, password: string)
    requires WellFormed(db)
    ensures !LoginUser(db, "", password)
    ensures !LoginUser(db, username, "")
  {
  }

  /** Whenever `registerUser` answers true, logging in with the same
      credentials succeeds. */
  lemma RegisterThenLogin(db: Db, username: string, password: string)
    requires RegisterUser(db, username, password).outcome == Returns(true)
    ensures LoginUser(RegisterUser(db, username, password).db, username, password)
  {
  }

  /** The register tests, each starting from a cleared store. */
  lemma RegisterTestScenarios()
    ensures var r := RegisterUser(map[], "testuser", "password123");
            r.outcome == Returns(true) && UserCount(r.db) == 1
    ensures var first := RegisterUser(map[], "testuser", "password123");
            var second := RegisterUser(first.db, "testuser", "password123");
            second.outcome == Returns(false) && UserCount(second.db) == 1
    ensures var r := RegisterUser(map[], "", "password123");
            r.outcome.Throws? && UserCount(r.db) == 0
    ensures var r := RegisterUser(map[], "testuser", "");
            r.outcome.Throws? && UserCount(r.db) == 0
  {
    var first := RegisterUser(map[], "testuser", "password123");
    assert first.db == map["testuser" := "password123"];
  }

  /** The login tests, against a store holding only "validuser". */
  lemma LoginTestScenarios()
    ensures var db := RegisterUser(map[], "validuser", "correctpass").db;
            LoginUser(db, "validuser", "correctpass") &&
            !LoginUser(db, "validuser", "wrongpass") &&
            !LoginUser(db, "nonexistent", "anypass") &&
            !LoginUser(db, "", "correctpass") &&
            !LoginUser(db, "validuser", "")
  {
    var db := RegisterUser(map[], "validuser", "correctpass").db;
    assert db == map["validuser" := "correctpass"];
  }

  // ---------------------------------------------------------------------
  // `registerUser` as written: `_usersDb` is an object literal, so the
  // lookup `_usersDb[username]` also finds the members every object
  // inherits from `Object.prototype`.

  /** `registerUser` with the prototype-aware lookup the source performs. */
  function RegisterUserAsWritten(db: Db, username: string, password: string): (r: Registration)
    ensures username !in InheritedKeys ==> r == RegisterUser(db, username, password)
    ensures username in InheritedKeys && username !in db && password != "" ==>
              r == Registration(Returns(false), db)
  {
    if username == "" || password == "" then Registration(Throws(EmptyCredentialsMessage), db)
    else if LookupTruthy(db, username) then Registration(Returns(false), db)
    else Registration(Returns(true), db[username := password])
  }

  /** A name such as "constructor" is refused as a duplicate by an empty
      store, although no user of that name exists; the intended behaviour
      (`RegisterUser`) accepts it. */
  lemma InheritedNameRefusedAsWritten()
    ensures RegisterUserAsWritten(map[], "constructor", "pw").outcome == Returns(false)
    ensures RegisterUser(map[], "constructor", "pw").outcome == Returns(true)
    ensures UserCount(RegisterUser(map[], "constructor", "pw").db) == 1
  {
    assert "constructor" in InheritedKeys;
  }
}
