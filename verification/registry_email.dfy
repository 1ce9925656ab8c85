/**
 The registry of the mocks-and-stubs demo: the same `registerUser`, which on
 success also calls `sendWelcomeEmail(username)` right after storing the
 user. The call is observable only through the test double, so it is
 modelled as an event appended to a trace of sent emails.
 */
module WelcomeRegistry {
  import opened Js
  import opened Registry

  /** One call of `sendWelcomeEmail`. */
  datatype Event = WelcomeEmail(username: string)

  /** The store together with every email sent so far. */
  datatype Session = Session(db: Db, sent: seq<Event>)

  /** The outcome of `registerUser` and the session after it. */
  datatype EmailRegistration = EmailRegistration(outcome: Result<bool>, after: Session)

  /** `registerUser(username, password)` of the mocks-and-stubs demo. */
  function RegisterUserWithEmail(s: Session, username: string, password: string): (r: EmailRegistration)
    ensures r.outcome == RegisterUser(s.db, username, password).outcome
    ensures r.after.db == RegisterUser(s.db, username, password).db
    ensures r.outcome == Returns(true) ==>
              r.after.sent == s.sent + [WelcomeEmail(username)] && username in r.after.db
    ensures r.outcome != Returns(true) ==> r.after.sent == s.sent
  {
    var stored := RegisterUser(s.db, username, password);
    if stored.outcome == Returns(true) then
      EmailRegistration(stored.outcome, Session(stored.db, s.sent + [WelcomeEmail(username)]))
    else
      EmailRegistration(stored.outcome, Session(stored.db, s.sent))
  }

  /** The usernames the sent emails were addressed to. */
  function Recipients(sent: seq<Event>): (names: set<string>)
  {
    set i | 0 <= i < |sent| :: sent[i].username
  }

  /** What holds of every session reachable from an empty one by
      registrations: the store is well formed, exactly the stored users have
      been emailed, and each of them exactly once. */
  predicate Consistent(s: Session)
  {
    && WellFormed(s.db)
    && Recipients(s.sent) == s.db.Keys
    && |s.sent| == |s.db|
  }

  /** A successful registration emails exactly that user, once; nothing
      else is emailed, on any outcome. */
  lemma SuccessSendsOneEmail(s: Session, username: string, password: string)
    requires RegisterUserWithEmail(s, username, password).outcome == Returns(true)
    ensures |RegisterUserWithEmail(s, username, password).after.sent| == |s.sent| + 1
    ensures RegisterUserWithEmail(s, username, password).after.sent[|s.sent|] == WelcomeEmail(username)
  {
  }

  /** A duplicate registration returns false, sends nothing and leaves the
      count as it was. */
  lemma DuplicateSendsNoEmail(s: Session, username: string, password: string)
    requires WellFormed(s.db) && username in s.db && password != ""
    ensures RegisterUserWithEmail(s, username, password) == EmailRegistration(Returns(false), s)
  {
  }

  /** Empty credentials throw, send nothing and store nothing. */
  lemma EmptyCredentialsSendNoEmail(s: Session, username: string, password: string)
    requires username == "" || password == ""
    ensures RegisterUserWithEmail(s, username, password) ==
              EmailRegistration(Throws(EmptyCredentialsMessage), s)
  {
  }

  /** `loginUser` of this copy is the plain registry's: a user who was
      just registered and emailed logs in with the same password, and with
      no other. */
  lemma WelcomedUserLogsIn(s: Session, username: string, password: string, other: string)
    requires RegisterUserWithEmail(s, username, password).outcome == Returns(true)
    ensures LoginUser(RegisterUserWithEmail(s, username, password).after.db, username, other) <==>
              other == password
  {
  }

  lemma RecipientsAppend(sent: seq<Event>, e: Event)
    ensures Recipients(sent + [e]) == Recipients(sent) + {e.username}
  {
    var extended := sent + [e];
    assert extended[|sent|] == e;
    forall name | name in Recipients(sent)
      ensures name in Recipients(extended)
    {
      var i :| 0 <= i < |sent| && sent[i].username == name;
      assert extended[i] == sent[i];
    }
  }

  /** Every registration keeps a session consistent: an email goes out only
      for a user who has just been stored, and never twice for one user. */
  lemma RegisterKeepsConsistent(s: Session, username: string, password: string)
    requires Consistent(s)
    ensures Consistent(RegisterUserWithEmail(s, username, password).after)
  {
    var r := RegisterUserWithEmail(s, username, password);
    if r.outcome == Returns(true) {
      RecipientsAppend(s.sent, WelcomeEmail(username));
      assert username !in s.db;
    }
  }

  /** A sequence of registration attempts, applied in order. */
  function Replay(s: Session, attempts: seq<(string, string)>): (after: Session)
    decreases |attempts|
  {
    if attempts == [] then s
    else Replay(RegisterUserWithEmail(s, attempts[0].0, attempts[0].1).after, attempts[1..])
  }

  /** From a cleared store and a cleared mock, any run of registrations
      ends with one welcome email per stored user and no other email. */
  lemma {:induction false} ReplayConsistent(s: Session, attempts: seq<(string, string)>)
    requires Consistent(s)
    ensures Consistent(Replay(s, attempts))
    decreases |attempts|
  {
    if attempts != [] {
      RegisterKeepsConsistent(s, attempts[0].0, attempts[0].1);
      ReplayConsistent(RegisterUserWithEmail(s, attempts[0].0, attempts[0].1).after, attempts[1..]);
    }
  }

  /** The empty session (after `clearUsers` and `mockClear`) is consistent. */
  lemma EmptySessionConsistent()
    ensures Consistent(Session(map[], []))
  {
    assert Recipients([]) == {};
  }

  /** The tests: a new user is stored and emailed exactly once; a second
      registration of the same name is refused and emails nobody; an empty
      username throws and emails nobody; the new user logs in. */
  lemma EmailTestScenarios()
    ensures var r := RegisterUserWithEmail(Session(map[], []), "newuser", "securepassword");
            r.outcome == Returns(true) && UserCount(r.after.db) == 1 &&
            r.after.sent == [WelcomeEmail("newuser")] &&
            LoginUser(r.after.db, "newuser", "securepassword")
    ensures var first := RegisterUserWithEmail(Session(map[], []), "existinguser", "pass");
            var second := RegisterUserWithEmail(Session(first.after.db, []), "existinguser", "pass");
            second.outcome == Returns(false) && UserCount(second.after.db) == 1 &&
            second.after.sent == []
    ensures var r := RegisterUserWithEmail(Session(map[], []), "", "pass");
            r.outcome.Throws? && r.after.sent == []
  {
    var r := RegisterUserWithEmail(Session(map[], []), "newuser", "securepassword");
    assert r.after.db == map["newuser" := "securepassword"];
    var first := RegisterUserWithEmail(Session(map[], []), "existinguser", "pass");
    assert first.after.db == map["existinguser" := "pass"];
  }

  // ---------------------------------------------------------------------
  // `registerUser` of this copy as written: the same prototype-aware
  // lookup `_usersDb[username]` decides whether the email is sent.

  /** `registerUser` of the mocks-and-stubs demo with the lookup the
      source performs. */
  function RegisterUserWithEmailAsWritten(s: Session, username: string, password: string): (r: EmailRegistration)
    ensures r.outcome == RegisterUserAsWritten(s.db, username, password).outcome
    ensures r.after.db == RegisterUserAsWritten(s.db, username, password).db
    ensures r.outcome == Returns(true) ==> r.after.sent == s.sent + [WelcomeEmail(username)]
    ensures r.outcome != Returns(true) ==> r.after.sent == s.sent
    ensures username !in InheritedKeys ==> r == RegisterUserWithEmail(s, username, password)
  {
    var stored := RegisterUserAsWritten(s.db, username, password);
    if stored.outcome == Returns(true) then
      EmailRegistration(stored.outcome, Session(stored.db, s.sent + [WelcomeEmail(username)]))
    else
      EmailRegistration(stored.outcome, Session(stored.db, s.sent))
  }

  /** As written, "constructor" on an empty session is refused and nobody
      is emailed; the intended behaviour stores the user and sends one
      welcome email. */
  lemma InheritedNameNotWelcomedAsWritten()
    ensures RegisterUserWithEmailAsWritten(Session(map[], []), "constructor", "pw") ==
              EmailRegistration(Returns(false), Session(map[], []))
    ensures RegisterUserWithEmail(Session(map[], []), "constructor", "pw").after.sent ==
              [WelcomeEmail("constructor")]
  {
    assert "constructor" in InheritedKeys;
  }
}
