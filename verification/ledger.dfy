/**
 The banking API's ledger (`server.js`): the two module-level objects
 `users` (username to password) and `accounts` (username to balance), and
 the decision and mutation logic of the `/register`, `/login`, `/balance`
 and `/transfer` handlers. Each handler becomes a pure function from the
 request fields and the ledger to a reply (the HTTP status and message it
 sends) and the ledger after it.

 Request fields are strings; a missing field is the empty string, which is
 falsy like `undefined`. Amounts and balances are exact reals.
 */
module Ledger {
  import opened Js
  import opened Totals

  /** `users` and `accounts`; an account object `{ balance }` is its
      balance. */
  datatype Ledger = Ledger(users: map<string, string>, accounts: map<string, real>)

  /** Every new account starts with this balance. */
  const StartingBalance: real := 1000.0

  /** Every error reply a handler sends. */
  datatype Failure =
    | MissingCredentials      // register, login, balance: an empty field
    | UsernameTaken           // register: the name is taken
    | InvalidCredentials      // login
    | AuthenticationFailed    // balance
    | AccountNotFound         // balance
    | InvalidTransferDetails  // transfer: a missing field or a bad amount
    | SenderAuthFailed        // transfer
    | SelfTransfer            // transfer
    | SenderNotFound          // transfer
    | ReceiverNotFound        // transfer
    | InsufficientFunds       // transfer

  datatype Reply =
    | Created
    | LoginOk
    | BalanceIs(balance: real)
    | Transferred
    | Failed(failure: Failure)

  /** A reply together with the ledger after the request. */
  datatype Response = Response(reply: Reply, ledger: Ledger)

  /** The HTTP status each reply is sent with. */
  function Status(reply: Reply): (code: int)
    ensures reply.Failed? <==> 400 <= code
    ensures 200 <= code < 500
    ensures code == 201 <==> reply == Created
  {
    match reply
    case Created => 201
    case LoginOk => 200
    case BalanceIs(_) => 200
    case Transferred => 200
    case Failed(f) =>
      match f
      case UsernameTaken => 409
      case InvalidCredentials | AuthenticationFailed | SenderAuthFailed => 401
      case AccountNotFound | SenderNotFound | ReceiverNotFound => 404
      case _ => 400
  }

  /** The `message` of each error reply. */
  function Message(f: Failure): (text: string)
    ensures |text| > 0 && text[|text| - 1] == '.'
  {
    match f
    case MissingCredentials => "Username and password are required."
    case UsernameTaken => "Username already exists."
    case InvalidCredentials => "Invalid credentials."
    case AuthenticationFailed => "Authentication failed."
    case AccountNotFound => "User account not found."
    case InvalidTransferDetails => "Invalid transfer details. Check all fields and amount."
    case SenderAuthFailed => "Authentication failed for sender."
    case SelfTransfer => "Cannot transfer to yourself."
    case SenderNotFound => "Sender account not found."
    case ReceiverNotFound => "Receiver account not found."
    case InsufficientFunds => "Insufficient funds."
  }

  /** What every ledger the handlers build satisfies: the two maps have the
      same usernames, none of them empty, every password is non-empty and
      no balance is negative. */
  predicate Valid(l: Ledger)
  {
    && l.users.Keys == l.accounts.Keys
    && (forall u :: u in l.users ==> u != "" && l.users[u] != "")
    && (forall u :: u in l.accounts ==> l.accounts[u] >= 0.0)
  }

  /** `authenticateUser(username, password)`, read as a condition. */
  function Authenticate(l: Ledger, username: string, password: string): (ok: bool)
    ensures ok ==> username in l.users && l.users[username] == password && password != ""
  {
    OwnTruthy(l.users, username) && l.users[username] == password
  }

  /** On a valid ledger authentication is an exact match of the stored
      password, so "no such user" and "wrong password" look the same. */
  lemma AuthenticateExact(l: Ledger, username: string, password: string)
    requires Valid(l)
    ensures Authenticate(l, username, password) <==>
              username in l.users && l.users[username] == password
  {
  }

  // ---------------------------------------------------------------------
  // POST /register

  function Register(l: Ledger, username: string, password: string): (r: Response)
    ensures r.reply == Created || r.reply == Failed(MissingCredentials) || r.reply == Failed(UsernameTaken)
    ensures r.reply == Failed(MissingCredentials) <==> username == "" || password == ""
    ensures r.reply != Created ==> r.ledger == l
    ensures r.reply == Created ==>
              r.ledger == Ledger(l.users[username := password], l.accounts[username := StartingBalance])
  {
    if username == "" || password == "" then Response(Failed(MissingCredentials), l)
    else if OwnTruthy(l.users, username) then Response(Failed(UsernameTaken), l)
    else
      Response(Created, Ledger(l.users[username := password],
                               l.accounts[username := StartingBalance]))
  }

  /** On a valid ledger, registering a taken name is a conflict and
      changes nothing: the stored password and balance survive. */
  lemma RegisterTakenConflicts(l: Ledger, username: string, password: string)
    requires Valid(l) && username in l.users && password != ""
    ensures Register(l, username, password) == Response(Failed(UsernameTaken), l)
  {
  }

  /** On a valid ledger, a successful registration is exactly a fresh name
      with non-empty credentials; it adds that one user with the starting
      balance and keeps the ledger valid. */
  lemma RegisterCreates(l: Ledger, username: string, password: string)
    requires Valid(l)
    ensures Register(l, username, password).reply == Created <==>
              username != "" && password != "" && username !in l.users
    ensures Valid(Register(l, username, password).ledger)
    ensures Register(l, username, password).reply == Created ==>
              Authenticate(Register(l, username, password).ledger, username, password) &&
              Total(Register(l, username, password).ledger.accounts) == Total(l.accounts) + StartingBalance
  {
    var r := Register(l, username, password);
    if r.reply == Created {
      TotalInsert(l.accounts, username, StartingBalance);
    }
  }

  /** Registering the same name twice: the second attempt is a conflict
      that leaves the new account's balance at the starting amount. */
  lemma RegisterTwiceConflicts(l: Ledger, username: string, password: string, again: string)
    requires Valid(l) && Register(l, username, password).reply == Created && again != ""
    ensures var first := Register(l, username, password).ledger;
            Register(first, username, again) == Response(Failed(UsernameTaken), first) &&
            first.accounts[username] == StartingBalance
  {
  }

  // ---------------------------------------------------------------------
  // POST /login

  function Login(l: Ledger, username: string, password: string): (reply: Reply)
    ensures reply == LoginOk || reply == Failed(MissingCredentials) || reply == Failed(InvalidCredentials)
    ensures reply == Failed(MissingCredentials) <==> username == "" || password == ""
    ensures reply == LoginOk <==> username != "" && Authenticate(l, username, password)
  {
    if username == "" || password == "" then Failed(MissingCredentials)
    else if Authenticate(l, username, password) then LoginOk
    else Failed(InvalidCredentials)
  }

  // ---------------------------------------------------------------------
  // GET /balance

  function Balance(l: Ledger, username: string, password: string): (reply: Reply)
    ensures reply.BalanceIs? ==> username in l.accounts && reply.balance == l.accounts[username]
  {
    if username == "" || password == "" then Failed(MissingCredentials)
    else if !Authenticate(l, username, password) then Failed(AuthenticationFailed)
    else if username !in l.accounts then Failed(AccountNotFound)
    else BalanceIs(l.accounts[username])
  }

  /** The balance checks run in the order 400, 401, 404, 200: each reply
      is sent exactly when every earlier check passed and its own failed. */
  lemma BalancePrecedence(l: Ledger, username: string, password: string)
    ensures Balance(l, username, password) == Failed(MissingCredentials) <==>
              username == "" || password == ""
    ensures Balance(l, username, password) == Failed(AuthenticationFailed) <==>
              username != "" && password != "" && !Authenticate(l, username, password)
    ensures Balance(l, username, password) == Failed(AccountNotFound) <==>
              username != "" && Authenticate(l, username, password) && username !in l.accounts
    ensures Balance(l, username, password).BalanceIs? <==>
              username != "" && Authenticate(l, username, password) && username in l.accounts
  {
  }

  /** On a valid ledger an authenticated user always has an account, so
      the 404 reply is never sent, and no reported balance is negative. */
  lemma BalanceFoundWhenValid(l: Ledger, username: string, password: string)
    requires Valid(l)
    ensures Balance(l, username, password) != Failed(AccountNotFound)
    ensures Balance(l, username, password).BalanceIs? ==> Balance(l, username, password).balance >= 0.0
  {
  }

  // ---------------------------------------------------------------------
  // POST /transfer

  /** The first check: every field given and the amount a positive
      number. */
  predicate DetailsValid(sender: string, senderPassword: string, receiver: string, amount: JsValue)
  {
    sender != "" && senderPassword != "" && receiver != "" && amount.Number? && amount.num > 0.0
  }

  function Transfer(l: Ledger, sender: string, senderPassword: string, receiver: string, amount: JsValue): (r: Response)
    ensures r.ledger.users == l.users
    ensures r.reply == Transferred || r.reply.Failed?
    ensures r.reply != Transferred ==> r.ledger == l
    ensures r.reply == Transferred ==>
              && DetailsValid(sender, senderPassword, receiver, amount)
              && Authenticate(l, sender, senderPassword)
              && sender != receiver
              && sender in l.accounts && receiver in l.accounts
              && l.accounts[sender] >= amount.num
              && r.ledger.accounts.Keys == l.accounts.Keys
              && r.ledger.accounts[sender] == l.accounts[sender] - amount.num
              && r.ledger.accounts[receiver] == l.accounts[receiver] + amount.num
              && (forall u :: u in l.accounts && u != sender && u != receiver ==>
                    r.ledger.accounts[u] == l.accounts[u])
  {
    if !DetailsValid(sender, senderPassword, receiver, amount) then
      Response(Failed(InvalidTransferDetails), l)
    else if !Authenticate(l, sender, senderPassword) then Response(Failed(SenderAuthFailed), l)
    else if sender == receiver then Response(Failed(SelfTransfer), l)
    else if sender !in l.accounts then Response(Failed(SenderNotFound), l)
    else if receiver !in l.accounts then Response(Failed(ReceiverNotFound), l)
    else if l.accounts[sender] < amount.num then Response(Failed(InsufficientFunds), l)
    else
      var debited := l.accounts[sender := l.accounts[sender] - amount.num];
      var credited := debited[receiver := debited[receiver] + amount.num];
      Response(Transferred, Ledger(l.users, credited))
  }

  /** The transfer checks run in a fixed order and the first one that fails
      decides the reply: each failure is sent exactly when every earlier
      check passed and its own did not. */
  lemma TransferPrecedence(l: Ledger, sender: string, senderPassword: string, receiver: string, amount: JsValue)
    ensures var reply := Transfer(l, sender, senderPassword, receiver, amount).reply;
            var details := DetailsValid(sender, senderPassword, receiver, amount);
            var auth := Authenticate(l, sender, senderPassword);
            && (reply == Failed(InvalidTransferDetails) <==> !details)
            && (reply == Failed(SenderAuthFailed) <==> details && !auth)
            && (reply == Failed(SelfTransfer) <==> details && auth && sender == receiver)
            && (reply == Failed(SenderNotFound) <==>
                  details && auth && sender != receiver && sender !in l.accounts)
            && (reply == Failed(ReceiverNotFound) <==>
                  details && auth && sender != receiver && sender in l.accounts &&
                  receiver !in l.accounts)
            && (reply == Failed(InsufficientFunds) <==>
                  details && auth && sender != receiver && sender in l.accounts &&
                  receiver in l.accounts && l.accounts[sender] < amount.num)
            && (reply == Transferred <==>
                  details && auth && sender != receiver && sender in l.accounts &&
                  receiver in l.accounts && l.accounts[sender] >= amount.num)
  {
  }

  /** On a valid ledger an authenticated sender always has an account, so
      the "sender not found" reply is never sent. */
  lemma SenderAlwaysFoundWhenValid(l: Ledger, sender: string, senderPassword: string, receiver: string, amount: JsValue)
    requires Valid(l)
    ensures Transfer(l, sender, senderPassword, receiver, amount).reply != Failed(SenderNotFound)
  {
  }

  /** A successful transfer neither creates nor destroys money. */
  lemma TransferConservesTotal(l: Ledger, sender: string, senderPassword: string, receiver: string, amount: JsValue)
    ensures Total(Transfer(l, sender, senderPassword, receiver, amount).ledger.accounts) == Total(l.accounts)
  {
    var r := Transfer(l, sender, senderPassword, receiver, amount);
    if r.reply == Transferred {
      var debited := l.accounts[sender := l.accounts[sender] - amount.num];
      TotalUpdate(l.accounts, sender, l.accounts[sender] - amount.num);
      TotalUpdate(debited, receiver, debited[receiver] + amount.num);
    }
  }

  /** A transfer keeps the ledger valid; in particular no balance ever
      becomes negative, whichever way it ends. */
  lemma TransferPreservesValid(l: Ledger, sender: string, senderPassword: string, receiver: string, amount: JsValue)
    requires Valid(l)
    ensures Valid(Transfer(l, sender, senderPassword, receiver, amount).ledger)
  {
  }

  /** Within the transfer handler, replies sharing a status still differ
      in their message, so every failure is distinguishable. */
  lemma TransferFailuresDistinguishable(f: Failure, g: Failure)
    requires f in {InvalidTransferDetails, SenderAuthFailed, SelfTransfer, SenderNotFound,
                   ReceiverNotFound, InsufficientFunds}
    requires g in {InvalidTransferDetails, SenderAuthFailed, SelfTransfer, SenderNotFound,
                   ReceiverNotFound, InsufficientFunds}
    requires f != g
    ensures (Status(Failed(f)), Message(f)) != (Status(Failed(g)), Message(g))
  {
  }

  /** No two failures share a message, across all four handlers. */
  lemma MessagesDistinct(f: Failure, g: Failure)
    ensures Message(f) == Message(g) <==> f == g
  {
  }

  // ---------------------------------------------------------------------
  // The API as a whole.

  datatype Request =
    | RegisterRequest(username: string, password: string)
    | LoginRequest(username: string, password: string)
    | BalanceRequest(username: string, password: string)
    | TransferRequest(sender: string, senderPassword: string, receiver: string, amount: JsValue)

  /** Dispatches a request to its handler. */
  function Handle(l: Ledger, req: Request): (r: Response)
    ensures req.LoginRequest? || req.BalanceRequest? ==> r.ledger == l
  {
    match req
    case RegisterRequest(u, p) => Register(l, u, p)
    case LoginRequest(u, p) => Response(Login(l, u, p), l)
    case BalanceRequest(u, p) => Response(Balance(l, u, p), l)
    case TransferRequest(s, sp, rcv, a) => Transfer(l, s, sp, rcv, a)
  }

  /** Every request keeps the ledger valid, and money enters the ledger
      only as the starting balance of a new account. */
  lemma HandleInvariant(l: Ledger, req: Request)
    requires Valid(l)
    ensures Valid(Handle(l, req).ledger)
    ensures Total(Handle(l, req).ledger.accounts) ==
              Total(l.accounts) + (if Handle(l, req).reply == Created then StartingBalance else 0.0)
  {
    match req
    case RegisterRequest(u, p) =>
      RegisterCreates(l, u, p);
    case LoginRequest(_, _) =>
    case BalanceRequest(_, _) =>
    case TransferRequest(s, sp, rcv, a) =>
      TransferPreservesValid(l, s, sp, rcv, a);
      TransferConservesTotal(l, s, sp, rcv, a);
  }

  /** A sequence of requests, handled one after another. */
  function Run(l: Ledger, reqs: seq<Request>): (after: Ledger)
    decreases |reqs|
  {
    if reqs == [] then l else Run(Handle(l, reqs[0]).ledger, reqs[1..])
  }

  /** Any run of requests from a valid ledger ends in a valid ledger; the
      empty ledger of a first start with no database file is one. */
  lemma {:induction false} RunPreservesValid(l: Ledger, reqs: seq<Request>)
    requires Valid(l)
    ensures Valid(Run(l, reqs))
    decreases |reqs|
  {
    if reqs != [] {
      HandleInvariant(l, reqs[0]);
      RunPreservesValid(Handle(l, reqs[0]).ledger, reqs[1..]);
    }
  }

  // ---------------------------------------------------------------------
  // Worked scenario: alice and bob.

  lemma AliceAndBobScenario()
    ensures var l0 := Ledger(map[], map[]);
            var l1 := Register(l0, "alice", "pw1").ledger;
            var l2 := Register(l1, "bob", "pw2").ledger;
            var ok := Transfer(l2, "alice", "pw1", "bob", Number(300.0));
            var tooMuch := Transfer(l2, "alice", "pw1", "bob", Number(1500.0));
            var impostor := Transfer(l2, "bob", "pw1", "alice", Number(300.0));
            && ok.reply == Transferred
            && ok.ledger.accounts["alice"] == 700.0 && ok.ledger.accounts["bob"] == 1300.0
            && tooMuch == Response(Failed(InsufficientFunds), l2)
            && impostor == Response(Failed(SenderAuthFailed), l2)
  {
    var l1 := Register(Ledger(map[], map[]), "alice", "pw1").ledger;
    assert l1 == Ledger(map["alice" := "pw1"], map["alice" := 1000.0]);
    var l2 := Register(l1, "bob", "pw2").ledger;
    assert l2.accounts["alice"] == 1000.0 && l2.accounts["bob"] == 1000.0;
  }

  // ---------------------------------------------------------------------
  // The handlers as written: `users` and `accounts` are object literals,
  // so `users[name]` and `accounts[name]` also find the members every
  // object inherits from `Object.prototype`.

  /** `/register` with the prototype-aware lookup of `users[username]`. */
  function RegisterAsWritten(l: Ledger, username: string, password: string): (r: Response)
    ensures username !in InheritedKeys ==> r == Register(l, username, password)
    ensures username in InheritedKeys && username !in l.users && password != "" ==>
              r == Response(Failed(UsernameTaken), l)
  {
    if username == "" || password == "" then Response(Failed(MissingCredentials), l)
    else if LookupTruthy(l.users, username) then Response(Failed(UsernameTaken), l)
    else
      Response(Created, Ledger(l.users[username := password],
                               l.accounts[username := StartingBalance]))
  }

  /** "constructor" cannot be registered on an empty ledger as written,
      while the intended handler creates it. */
  lemma InheritedNameConflictsAsWritten()
    ensures RegisterAsWritten(Ledger(map[], map[]), "constructor", "pw") ==
              Response(Failed(UsernameTaken), Ledger(map[], map[]))
    ensures Register(Ledger(map[], map[]), "constructor", "pw").reply == Created
  {
    assert "constructor" in InheritedKeys;
  }

  /** `/transfer` with the prototype-aware lookups of `accounts[...]`. When
      the receiver is only an inherited member, `+= amount` lands on that
      shared object and no own account is credited. (Authentication is
      unaffected: an inherited member is a function, never `===` a
      password string.) */
  function TransferAsWritten(l: Ledger, sender: string, senderPassword: string, receiver: string, amount: JsValue): (r: Response)
    ensures receiver !in InheritedKeys && sender !in InheritedKeys ==>
              r == Transfer(l, sender, senderPassword, receiver, amount)
  {
    if !DetailsValid(sender, senderPassword, receiver, amount) then
      Response(Failed(InvalidTransferDetails), l)
    else if !Authenticate(l, sender, senderPassword) then Response(Failed(SenderAuthFailed), l)
    else if sender == receiver then Response(Failed(SelfTransfer), l)
    else if !HasMember(l.accounts, sender) then Response(Failed(SenderNotFound), l)
    else if !HasMember(l.accounts, receiver) then Response(Failed(ReceiverNotFound), l)
    // An inherited member has no `balance`: `undefined < amount` is false,
    // and the arithmetic lands on the shared inherited object.
    else if sender in l.accounts && l.accounts[sender] < amount.num then
      Response(Failed(InsufficientFunds), l)
    else
      var debited := if sender in l.accounts then l.accounts[sender := l.accounts[sender] - amount.num]
                     else l.accounts;
      var credited := if receiver in debited then debited[receiver := debited[receiver] + amount.num]
                      else debited;
      Response(Transferred, Ledger(l.users, credited))
  }

  /** As written, alice's transfer of 300 to "constructor" succeeds: her
      balance drops by 300 and the ledger's total drops with it, whereas
      the intended handler answers "receiver not found" and moves
      nothing. */
  lemma TransferToInheritedNameLosesMoney()
    ensures var l := Ledger(map["alice" := "pw1"], map["alice" := 1000.0]);
            var r := TransferAsWritten(l, "alice", "pw1", "constructor", Number(300.0));
            && Valid(l)
            && r.reply == Transferred
            && r.ledger.accounts == map["alice" := 700.0]
            && Total(r.ledger.accounts) == Total(l.accounts) - 300.0
            && Transfer(l, "alice", "pw1", "constructor", Number(300.0)) ==
                 Response(Failed(ReceiverNotFound), l)
  {
    var l := Ledger(map["alice" := "pw1"], map["alice" := 1000.0]);
    assert "constructor" in InheritedKeys;
    var r := TransferAsWritten(l, "alice", "pw1", "constructor", Number(300.0));
    assert r.ledger.accounts == l.accounts["alice" := 700.0];
    TotalUpdate(l.accounts, "alice", 700.0);
  }
}
