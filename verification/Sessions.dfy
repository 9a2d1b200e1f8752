/**
 * Accounts and sessions: the register, login, logout and get-user use cases over the table of users and a store of
 * sessions (use-cases/auth, adapters/http/wrapper.hpp), and what one of them changes. Each request is handled as one
 * step; its statements go to the connection at the front of the pool, and any command to the store may get an error.
 */
module Sessions {
  import opened Strings
  import opened UserTable
  import Postgres

  // ---------- Session ids ----------

  const SESSION_ID_LENGTH := 16
  const SMALL: Str := "abcdefghijklmnopqrstuvwxyz"
  const CAPITAL: Str := "ABCDEFGHIJKLMNOPQRSTUVWXYZ"
  const DIGITS: Str := "0123456789"
  const ALPHABET: Str := SMALL + CAPITAL + DIGITS

  // What one call of getrandom fills: sixteen 64-bit numbers.
  type Draw = d: seq<nat> | |d| == 16 witness [0, 0, 0, 0, 0, 0, 0, 0, 0, 0, 0, 0, 0, 0, 0, 0]

  function Letter(n: nat): Byte { ALPHABET[n % |ALPHABET|] }

  function SessionId(d: Draw): (sid: Str)
    ensures |sid| == SESSION_ID_LENGTH
    ensures forall i :: 0 <= i < |sid| ==> sid[i] == Letter(d[i])
  {
    seq(SESSION_ID_LENGTH, i requires 0 <= i < SESSION_ID_LENGTH => Letter(d[i]))
  }

  function Key(sid: Str): Str { "sess:" + sid }

  /** Two ids have two keys. */
  lemma KeyIsInjective(a: Str, b: Str)
    requires Key(a) == Key(b)
    ensures a == b
  {
    assert Key(a)[5..] == a && Key(b)[5..] == b;
  }

  predicate IsAlphanumeric(c: Byte) { 'a' <= c <= 'z' || 'A' <= c <= 'Z' || '0' <= c <= '9' }

  lemma SmallLetters()
    ensures forall i :: 0 <= i < |SMALL| ==> 'a' <= SMALL[i] <= 'z'
  {
  }

  lemma CapitalLetters()
    ensures forall i :: 0 <= i < |CAPITAL| ==> 'A' <= CAPITAL[i] <= 'Z'
  {
  }

  /** The alphabet has letters and digits only. */
  lemma LettersAreAlphanumeric(n: nat)
    ensures IsAlphanumeric(Letter(n))
  {
    var k := n % |ALPHABET|;
    SmallLetters();
    CapitalLetters();
    assert k < 26 ==> ALPHABET[k] == SMALL[k];
    assert 26 <= k < 52 ==> ALPHABET[k] == CAPITAL[k - 26];
    assert 52 <= k ==> ALPHABET[k] == DIGITS[k - 52];
  }

  lemma SmallLettersInOrder(i: nat)
    requires i < 26
    ensures |SMALL| == 26 && SMALL[i] as int == i + 97
  {
  }

  lemma CapitalLettersInOrder(i: nat)
    requires i < 26
    ensures |CAPITAL| == 26 && CAPITAL[i] as int == i + 65
  {
  }

  lemma DigitsInOrder(i: nat)
    requires i < 10
    ensures |DIGITS| == 10 && DIGITS[i] as int == i + 48
  {
  }

  lemma Parts(a: Str, b: Str, c: Str, k: nat)
    requires k < |a| + |b| + |c|
    ensures |a + b + c| == |a| + |b| + |c|
    ensures (a + b + c)[k] ==
            if k < |a| then a[k] else if k < |a| + |b| then b[k - |a|] else c[k - |a| - |b|]
  {
  }

  lemma AlphabetAt(k: nat)
    requires k < 62
    ensures |ALPHABET| == 62
    ensures ALPHABET[k] == if k < 26 then SMALL[k] else if k < 52 then CAPITAL[k - 26] else DIGITS[k - 52]
  {
    Parts(SMALL, CAPITAL, DIGITS, k);
  }

  // The code of the k-th letter of the alphabet.
  function LetterCode(k: nat): nat
    requires k < 62
  {
    if k < 26 then k + 97 else if k < 52 then k + 39 else k - 4
  }

  lemma LetterAt(k: nat)
    requires k < 62
    ensures |ALPHABET| == 62 && ALPHABET[k] as int == LetterCode(k)
  {
    AlphabetAt(k);
    if k < 26 {
      SmallLettersInOrder(k);
    } else if k < 52 {
      CapitalLettersInOrder(k - 26);
    } else {
      DigitsInOrder(k - 52);
    }
  }

  /** Every letter and digit is drawn for exactly one remainder of a number by 62. */
  lemma EveryLetterIsDrawnOnce(n: nat, c: Byte)
    ensures Letter(n) as int == LetterCode(n % 62)
    ensures IsAlphanumeric(c) <==> exists k :: 0 <= k < 62 && c as int == LetterCode(k)
    ensures forall i, j :: 0 <= i < j < 62 ==> LetterCode(i) != LetterCode(j)
  {
    LetterAt(n % 62);
    if IsAlphanumeric(c) {
      var k := if c >= 'a' then c as int - 97 else if c >= 'A' then c as int - 39 else c as int + 4;
      assert c as int == LetterCode(k);
    }
  }

  // ---------- The world the server runs in ----------

  // The password hash; None where the library reports an error.
  datatype Crypto = Crypto(hash: Str -> Option<Str>, verify: (Str, Str) -> Option<bool>)

  // All that is assumed of the hash: a password verifies against its own hash.
  ghost predicate Sound(crypto: Crypto) {
    forall p: Str :: crypto.hash(p).Some? ==> crypto.verify(p, crypto.hash(p).value) == Some(true)
  }

  // The k-th draw of random numbers.
  datatype World = World(crypto: Crypto, random: nat -> Draw)

  datatype SessionUser = SessionUser(id: Str, username: Str)

  // `drawn` counts the draws made so far.
  datatype State = State(db: UserDb, store: map<Str, SessionUser>, drawn: nat)

  function Start(clients: seq<Postgres.Client>): State { State(NewTable(clients), map[], 0) }

  datatype Credentials = Credentials(username: Str, password: Str)

  // A body that is empty, one that does not parse, or the two fields read from it.
  datatype Body = Empty | Invalid | Sent(credentials: Credentials)

  // Which commands of a request the store answers with an error: the EXISTS of is_auth, the EXISTS that checks draw
  // number k, SET, GET and DEL.
  datatype Faults = Faults(auth: bool, check: nat -> bool, put: bool, get: bool, del: bool)

  function NoFaults(): Faults { Faults(false, k => false, false, false, false) }

  // While `down`, the database refuses everything.
  datatype Request = Request(session: Str, body: Body, down: bool, faults: Faults)

  // `id` is the key the database would give a new row.
  datatype Event = Register(req: Request, id: Str) | Login(req: Request) | Logout(req: Request) | GetUser(req: Request)

  // What register says when it refuses.
  datatype Message =
    | EmptyBody | InvalidBody | EmptyField | ShortUsername | LongUsername | InvalidPassword | CouldNotHash
    | UsernameTaken | DatabaseMessage

  // What a response body holds.
  datatype Content = Nothing | Says(message: Message) | Id(id: Str) | Profile(user: SessionUser)

  // status 0: the request is never answered. `cookie` is the session id the response sets.
  datatype Response = Response(status: nat, content: Content, cookie: Option<Str>)

  function Status(n: nat): Response { Response(n, Nothing, None) }

  /** The id of a request: its own, or a new draw if it has none. */
  function Identify(w: World, s: State, session: Str): (Str, State) {
    if session != [] then (session, s) else (SessionId(w.random(s.drawn)), s.(drawn := s.drawn + 1))
  }

  /** Whether the store has a session under the request's id. */
  function Live(w: World, s: State, req: Request): bool { Key(Identify(w, s, req.session).0) in s.store }

  /** is_auth: an error of its EXISTS reads as a session that is not there. */
  function Authenticated(w: World, s: State, req: Request): bool { !req.faults.auth && Live(w, s, req) }

  // ---------- Drawing an unused id ----------

  function Drawn(w: World, k: nat): Str { SessionId(w.random(k)) }

  /** Whether the collision check accepts draw number k: its key is absent, or the EXISTS gets an error. */
  predicate Passes(w: World, store: map<Str, SessionUser>, check: nat -> bool, k: nat) {
    check(k) || Key(Drawn(w, k)) !in store
  }

  predicate FirstPasses(w: World, store: map<Str, SessionUser>, check: nat -> bool, from: nat, k: nat) {
    from <= k && Passes(w, store, check, k) && forall j :: from <= j < k ==> !Passes(w, store, check, j)
  }

  lemma {:induction false} FirstPassesExists(
      w: World, store: map<Str, SessionUser>, check: nat -> bool, from: nat, k: nat)
    returns (first: nat)
    requires from <= k && Passes(w, store, check, k)
    ensures FirstPasses(w, store, check, from, first)
    decreases k - from
  {
    if Passes(w, store, check, from) {
      first := from;
    } else {
      first := FirstPassesExists(w, store, check, from + 1, k);
    }
  }

  lemma FirstPassesIsUnique(w: World, store: map<Str, SessionUser>, check: nat -> bool, from: nat, a: nat, b: nat)
    requires FirstPasses(w, store, check, from, a) && FirstPasses(w, store, check, from, b)
    ensures a == b
  {
  }

  // Some draw ahead is accepted.
  ghost predicate SomePasses(w: World, store: map<Str, SessionUser>, check: nat -> bool, from: nat) {
    exists k :: from <= k && Passes(w, store, check, k)
  }

  ghost function NextPasses(w: World, store: map<Str, SessionUser>, check: nat -> bool, from: nat): (k: nat)
    requires SomePasses(w, store, check, from)
    ensures FirstPasses(w, store, check, from, k)
  {
    assert exists k :: FirstPasses(w, store, check, from, k) by {
      var some :| from <= some && Passes(w, store, check, some);
      var first := FirstPassesExists(w, store, check, from, some);
    }
    var k :| FirstPasses(w, store, check, from, k);
    k
  }

  // ---------- The use cases ----------

  const USERNAME_MIN := 8
  const USERNAME_MAX := 60
  const PASSWORD_MIN := 8
  const PASSWORD_MAX := 60

  predicate UsernameOk(name: Str) { USERNAME_MIN <= |name| <= USERNAME_MAX }

  predicate PasswordOk(password: Str) { PASSWORD_MIN <= |password| <= PASSWORD_MAX }

  lemma BoundsAreExact(s: Str)
    ensures UsernameOk(s) <==> 8 <= |s| <= 60
    ensures PasswordOk(s) <==> 8 <= |s| <= 60
  {
  }

  // The name of the constraint the use case knows, as it writes it.
  const TAKEN_CONSTRAINT: Str := "users_username_key"

  predicate Filled(body: Body) {
    body.Sent? && body.credentials.username != [] && body.credentials.password != []
  }

  /** What register finds wrong with a body before it asks the table. */
  function Objection(w: World, body: Body): Option<Message> {
    match body
    case Empty => Some(EmptyBody)
    case Invalid => Some(InvalidBody)
    case Sent(Credentials(username, password)) =>
      if username == [] || password == [] then Some(EmptyField)
      else if |Trim(username)| < USERNAME_MIN then Some(ShortUsername)
      else if |Trim(username)| > USERNAME_MAX then Some(LongUsername)
      else if !PasswordOk(password) then Some(InvalidPassword)
      else if w.crypto.hash(password).None? then Some(CouldNotHash)
      else None
  }

  function DoRegister(w: World, s: State, req: Request, id: Str): (State, Response) {
    var (_, s1) := Identify(w, s, req.session);
    var objection := Objection(w, req.body);
    if Authenticated(w, s, req) then (s1, Status(403))
    else if objection.Some? then (s1, Status(400).(content := Says(objection.value)))
    else if s.db.deque == [] then (s1, Status(0))
    else
      var Credentials(username, password) := req.body.credentials;
      var (db, answer) := AddRow(s.db, id, req.down, Trim(username), w.crypto.hash(password).value);
      var s2 := s1.(db := db);
      match answer
      case Rows(rows) => (s2, Status(201).(content := Id(rows[0][0])))
      case Fatal(constraint) =>
        (s2, Status(400).(content := Says(if constraint == TAKEN_CONSTRAINT then UsernameTaken else DatabaseMessage)))
  }

  /** The user a login is for, when it is let in. */
  function Admitted(w: World, db: UserDb, req: Request): Option<SessionUser> {
    if !Filled(req.body) || db.deque == [] then None
    else
      var Credentials(username, password) := req.body.credentials;
      var row := FindRow(db, req.down, username).1;
      if row.Some? && UsernameOk(Trim(username)) && w.crypto.verify(password, row.value.hashed) == Some(true) then
        Some(SessionUser(row.value.id, Trim(username)))
      else None
  }

  /** What the SET of an admitted login makes of the store; nobody looks at its reply. */
  function Put(store: map<Str, SessionUser>, failed: bool, sid: Str, user: SessionUser): map<Str, SessionUser> {
    if failed then store else store[Key(sid) := user]
  }

  ghost function DoLogin(w: World, s: State, req: Request): (State, Response) {
    var (_, s1) := Identify(w, s, req.session);
    if Authenticated(w, s, req) then (s1, Status(403))
    else if !Filled(req.body) then (s1, Status(401))
    else if s.db.deque == [] then (s1, Status(0))
    else
      var user := Admitted(w, s.db, req);
      var s2 := s1.(db := FindRow(s.db, req.down, req.body.credentials.username).0);
      if user.None? then (s2, Status(401))
      else if !SomePasses(w, s.store, req.faults.check, s1.drawn) then (s2, Status(0))
      else
        var k := NextPasses(w, s.store, req.faults.check, s1.drawn);
        var store := Put(s.store, req.faults.put, Drawn(w, k), user.value);
        (s2.(drawn := k + 1, store := store), Status(204).(cookie := Some(Drawn(w, k))))
  }

  function DoLogout(w: World, s: State, req: Request): (State, Response) {
    var (sid, s1) := Identify(w, s, req.session);
    if !Authenticated(w, s, req) then (s1, Status(401))
    else if req.faults.del then (s1, Status(500))
    else (s1.(store := s.store - {Key(sid)}), Status(204).(cookie := Some([])))
  }

  function DoGetUser(w: World, s: State, req: Request): (State, Response) {
    var (sid, s1) := Identify(w, s, req.session);
    if !Authenticated(w, s, req) then (s1, Status(401))
    else if req.faults.get then (s1, Status(500))
    else (s1, Status(200).(content := Profile(s.store[Key(sid)])))
  }

  ghost function Step(w: World, s: State, e: Event): (State, Response) {
    match e
    case Register(req, id) => DoRegister(w, s, req, id)
    case Login(req) => DoLogin(w, s, req)
    case Logout(req) => DoLogout(w, s, req)
    case GetUser(req) => DoGetUser(w, s, req)
  }

  // ---------- What every step keeps ----------

  predicate UsersOk(users: map<Str, Row>) {
    && (forall u :: u in users ==> Trim(u) == u && UsernameOk(u) && Characters(u) <= USERNAME_WIDTH)
    && forall u, v :: u in users && v in users && users[u].id == users[v].id ==> u == v
  }

  predicate Registered(users: map<Str, Row>, user: SessionUser) {
    user.username in users && users[user.username].id == user.id
  }

  predicate Valid(s: State) {
    UsersOk(s.db.users) && forall k :: k in s.store ==> Registered(s.db.users, s.store[k])
  }

  /** No row changes or goes away, no text under a connection's name does, and the pool keeps its size. */
  ghost predicate Grows(db: UserDb, later: UserDb) {
    && (forall u :: u in db.users ==> u in later.users && later.users[u] == db.users[u])
    && (forall c :: Lane(db, c).Some? ==> Lane(later, c) == Lane(db, c))
    && |later.deque| == |db.deque|
  }

  /** The user table was asked once: by the front connection, which went to the end. */
  ghost predicate Called(db: UserDb, later: UserDb, down: bool, st: Postgres.Statement) {
    db.deque != [] && later.prepared == Marked(db, down, st) && later.deque == Postgres.Turn(db.deque)
  }

  lemma CallGrows(db: UserDb, later: UserDb, down: bool, st: Postgres.Statement)
    requires Called(db, later, down, st)
    requires forall u :: u in db.users ==> u in later.users && later.users[u] == db.users[u]
    ensures Grows(db, later)
  {
    hide Name;
  }

  // A login that was let in.
  ghost predicate LetIn(w: World, s: State, e: Event) {
    e.Login? && Step(w, s, e).1.status == 204 && Step(w, s, e).1.cookie.Some?
  }

  /** The one key an event writes, and the one key it removes. */
  ghost function Written(w: World, s: State, e: Event): Option<Str> {
    if LetIn(w, s, e) && !e.req.faults.put then Some(Key(Step(w, s, e).1.cookie.value)) else None
  }

  function Removed(w: World, s: State, e: Event): Option<Str> {
    if e.Logout? && DoLogout(w, s, e.req).1.status == 204 then Some(Key(Identify(w, s, e.req.session).0)) else None
  }

  // The key an event writes although the EXISTS that should have told whether it was free got an error.
  ghost predicate WrittenUnchecked(w: World, s: State, e: Event, k: Str) {
    Written(w, s, e) == Some(k) && 0 < Step(w, s, e).0.drawn && e.req.faults.check(Step(w, s, e).0.drawn - 1)
  }

  ghost predicate ChangesOneKey(w: World, s: State, e: Event) {
    var s' := Step(w, s, e).0;
    var written, removed := Written(w, s, e), Removed(w, s, e);
    && (written.Some? ==> removed.None? && Admitted(w, s.db, e.req).Some?)
    && (written.Some? && written.value in s.store ==> WrittenUnchecked(w, s, e, written.value))
    && (removed.Some? ==> removed.value in s.store)
    && s'.store ==
       if written.Some? then s.store[written.value := Admitted(w, s.db, e.req).value]
       else if removed.Some? then s.store - {removed.value}
       else s.store
  }

  ghost predicate IsLocal(w: World, s: State, e: Event) {
    var s' := Step(w, s, e).0;
    Valid(s') && Grows(s.db, s'.db) && s.drawn <= s'.drawn && ChangesOneKey(w, s, e)
  }

  ghost predicate Adds(w: World, s: State, e: Event)
    requires e.Register?
  {
    var s' := Step(w, s, e).0;
    && e.req.body.Sent? && Objection(w, e.req.body).None?
    && Trim(e.req.body.credentials.username) !in s.db.users && !IdTaken(s.db.users, e.id)
    && Fits(Trim(e.req.body.credentials.username), w.crypto.hash(e.req.body.credentials.password).value)
    && s'.db.users == s.db.users[Trim(e.req.body.credentials.username) :=
                                   Row(e.id, w.crypto.hash(e.req.body.credentials.password).value)]
  }

  lemma RegisterEffect(w: World, s: State, e: Event)
    requires e.Register?
    ensures var (s', r) := Step(w, s, e);
            && s'.store == s.store && s.drawn <= s'.drawn
            && (s'.db == s.db || Called(s.db, s'.db, e.req.down, Insert()))
            && (r.status == 0 || r.status == 201 || r.status == 400 || r.status == 403)
            && (r.status == 403 <==> Authenticated(w, s, e.req))
            && (r.content == Says(UsernameTaken) ==>
                  e.req.body.Sent? && Trim(e.req.body.credentials.username) in s.db.users)
            && (if r.status == 201 then Adds(w, s, e) && r.content == Id(e.id) else s'.db.users == s.db.users)
  {
    hide Trim, AddRow, Reaches, Marked, Key, SessionId, IdTaken, Fits;
  }

  lemma NewRowIsOk(users: map<Str, Row>, name: Str, row: Row)
    requires UsersOk(users) && Trim(name) == name && UsernameOk(name) && !IdTaken(users, row.id)
    requires Fits(name, row.hashed)
    ensures UsersOk(users[name := row])
  {
    hide Trim, Characters;
  }

  lemma RegisterKeepsUsers(w: World, s: State, e: Event)
    requires UsersOk(s.db.users) && e.Register?
    ensures UsersOk(Step(w, s, e).0.db.users)
  {
    RegisterEffect(w, s, e);
    var (s', r) := Step(w, s, e);
    if r.status == 201 {
      var name := Trim(e.req.body.credentials.username);
      TrimIsIdempotent(e.req.body.credentials.username);
      hide Trim, Marked, Step, UsersOk, Fits, IdTaken;
      NewRowIsOk(s.db.users, name, s'.db.users[name]);
    }
    hide Step, UsersOk;
  }

  lemma RegisterGrows(w: World, s: State, e: Event)
    requires e.Register?
    ensures Grows(s.db, Step(w, s, e).0.db)
  {
    RegisterEffect(w, s, e);
    hide Trim, Marked, Step, Lane, Objection, Fits, IdTaken;
    var s' := Step(w, s, e).0;
    if s'.db != s.db {
      CallGrows(s.db, s'.db, e.req.down, Insert());
    }
    hide Called;
  }

  lemma MoreUsersIsValid(s: State, s': State)
    requires Valid(s) && s'.store == s.store && Grows(s.db, s'.db) && UsersOk(s'.db.users)
    ensures Valid(s')
  {
    hide UsersOk, Lane;
  }

  lemma RegisterIsLocal(w: World, s: State, e: Event)
    requires Valid(s) && e.Register?
    ensures IsLocal(w, s, e)
  {
    RegisterEffect(w, s, e);
    RegisterKeepsUsers(w, s, e);
    RegisterGrows(w, s, e);
    MoreUsersIsValid(s, Step(w, s, e).0);
    hide Step, Valid, UsersOk, Grows, Called, Adds;
  }

  lemma AdmittedIsRegistered(w: World, db: UserDb, req: Request)
    requires UsersOk(db.users) && Admitted(w, db, req).Some?
    ensures Registered(db.users, Admitted(w, db, req).value)
  {
    hide FindRow, Reaches;
  }

  /** What a login that is let in does: the first draw accepted is its id. */
  lemma LetInEffect(w: World, s: State, e: Event)
    requires e.Login? && Step(w, s, e).1.status == 204
    ensures var (s', r) := Step(w, s, e);
            && s.drawn < s'.drawn && r.cookie == Some(Drawn(w, s'.drawn - 1))
            && Passes(w, s.store, e.req.faults.check, s'.drawn - 1) && Admitted(w, s.db, e.req).Some?
            && s'.store == Put(s.store, e.req.faults.put, r.cookie.value, Admitted(w, s.db, e.req).value)
  {
    hide Admitted, Trim, Key, FindRow, Reaches, Marked, Put, Passes, Drawn, SessionId, Authenticated;
    var s1, check := Identify(w, s, e.req.session).1, e.req.faults.check;
    assert FirstPasses(w, s.store, check, s1.drawn, NextPasses(w, s.store, check, s1.drawn));
  }

  lemma LoginEffect(w: World, s: State, e: Event)
    requires e.Login?
    ensures var (s', r) := Step(w, s, e);
            && s'.db.users == s.db.users && s.drawn <= s'.drawn
            && (s'.db == s.db || Called(s.db, s'.db, e.req.down, Select()))
            && (r.status == 204 <==> r.cookie.Some?) && r.content == Nothing
            && (r.status == 0 || r.status == 204 || r.status == 401 || r.status == 403)
            && (r.status == 403 <==> Authenticated(w, s, e.req))
            && (r.status != 204 ==> s'.store == s.store)
  {
    hide Admitted, Trim, SessionId, Key, FindRow, Reaches, Marked, Put, Passes, Drawn, SomePasses, Authenticated;
    if Step(w, s, e).1.status == 204 {
      LetInEffect(w, s, e);
    }
  }

  lemma OneMoreSession(s: State, s': State, k: Str, user: SessionUser)
    requires Valid(s) && s'.db.users == s.db.users && s'.store == s.store[k := user] && Registered(s.db.users, user)
    ensures Valid(s')
  {
    hide UsersOk, Registered;
  }

  lemma LoginKeepsValid(w: World, s: State, e: Event)
    requires Valid(s) && e.Login?
    ensures var s' := Step(w, s, e).0; Valid(s') && Grows(s.db, s'.db)
  {
    LoginEffect(w, s, e);
    if Step(w, s, e).1.status == 204 {
      LetInEffect(w, s, e);
      AdmittedIsRegistered(w, s.db, e.req);
    }
    hide Step, Admitted, UsersOk, Registered, Key, Marked, Lane, Authenticated;
    var (s', r) := Step(w, s, e);
    if s'.db != s.db {
      CallGrows(s.db, s'.db, e.req.down, Select());
    }
    if r.status == 204 && !e.req.faults.put {
      OneMoreSession(s, s', Key(r.cookie.value), Admitted(w, s.db, e.req).value);
    }
    hide Called;
  }

  lemma LoginWritesOneKey(w: World, s: State, e: Event)
    requires e.Login?
    ensures ChangesOneKey(w, s, e)
  {
    LoginEffect(w, s, e);
    hide Step, Admitted, Key, Called, Authenticated, Drawn;
    if Step(w, s, e).1.status == 204 {
      LetInEffect(w, s, e);
    }
  }

  lemma LoginIsLocal(w: World, s: State, e: Event)
    requires Valid(s) && e.Login?
    ensures IsLocal(w, s, e)
  {
    LoginEffect(w, s, e);
    LoginKeepsValid(w, s, e);
    LoginWritesOneKey(w, s, e);
    hide Step, Admitted, Valid, Key, Called, Grows, Authenticated, Drawn, Put, ChangesOneKey;
  }

  lemma LogoutIsLocal(w: World, s: State, e: Event)
    requires Valid(s) && e.Logout?
    ensures IsLocal(w, s, e)
  {
    hide UsersOk, Registered, SessionId, Key, Lane;
  }

  lemma GetUserIsLocal(w: World, s: State, e: Event)
    requires Valid(s) && e.GetUser?
    ensures IsLocal(w, s, e)
  {
    hide UsersOk, Registered, SessionId, Key, Lane;
  }

  /**
   * A login writes one key, for a user whose password verified, and the key was absent unless the EXISTS that
   * checked it got an error; a logout removes the request's own key; no other session changes, and no account
   * changes or goes away.
   */
  lemma StepIsLocal(w: World, s: State, e: Event)
    requires Valid(s)
    ensures IsLocal(w, s, e)
  {
    hide IsLocal, Valid;
    match e
    case Register(_, _) => RegisterIsLocal(w, s, e);
    case Login(_) => LoginIsLocal(w, s, e);
    case Logout(_) => LogoutIsLocal(w, s, e);
    case GetUser(_) => GetUserIsLocal(w, s, e);
  }

  predicate Has(store: map<Str, SessionUser>, sid: Str, user: SessionUser) {
    Key(sid) in store && store[Key(sid)] == user
  }

  // What the answer to a login says of its session: 204 leaves it behind exactly when the SET was accepted, or when
  // the id was already that of a session of the same user, which takes an error of the collision check.
  ghost predicate LoginTellsTheStore(w: World, s: State, e: Event)
    requires e.Login?
  {
    var (s', r) := Step(w, s, e);
    && (r.status == 204 <==> r.cookie.Some?)
    && (r.status == 204 ==>
          && Admitted(w, s.db, e.req).Some?
          && var sid, user := r.cookie.value, Admitted(w, s.db, e.req).value;
             && (Has(s'.store, sid, user) <==> !e.req.faults.put || Has(s.store, sid, user))
             && (Key(sid) in s.store ==> e.req.faults.check(s'.drawn - 1))
             && |s'.store| == |s.store| + if e.req.faults.put || Key(sid) in s.store then 0 else 1)
    && (r.status != 204 || e.req.faults.put ==> s'.store == s.store)
  }

  ghost predicate TellsTheEffect(w: World, s: State, e: Event) {
    var (s', r) := Step(w, s, e);
    var live, faults := Live(w, s, e.req), e.req.faults;
    && (s'.db.users != s.db.users <==> r.status == 201)
    && (r.status == 201 ==> e.Register? && r.content == Id(e.id) && |s'.db.users| == |s.db.users| + 1)
    && (r.status == 403 <==> (e.Register? || e.Login?) && live && !faults.auth)
    && (e.Logout? || e.GetUser? ==> (r.status == 401 <==> !live || faults.auth))
    && (r.status == 500 <==> live && !faults.auth && ((e.Logout? && faults.del) || (e.GetUser? && faults.get)))
    && (r.status == 200 <==> e.GetUser? && live && !faults.auth && !faults.get)
    && (r.status == 204 ==> e.Login? || (e.Logout? && live && !faults.auth && !faults.del))
    && (e.Logout? ==>
          if r.status == 204 then s'.store != s.store && |s'.store| == |s.store| - 1 else s'.store == s.store)
    && (e.Login? ==> LoginTellsTheStore(w, s, e))
    && (e.Register? || e.GetUser? ==> s'.store == s.store)
    && (r.content == Says(UsernameTaken) ==>
          e.Register? && e.req.body.Sent? && Trim(e.req.body.credentials.username) in s.db.users)
  }

  lemma OneMore<V>(m: map<Str, V>, k: Str, v: V)
    requires k !in m
    ensures m[k := v] != m && |m[k := v]| == |m| + 1
  {
    assert k in m[k := v];
    assert m[k := v].Keys == m.Keys + {k};
  }

  lemma OneMoreOrSame<V>(m: map<Str, V>, k: Str, v: V)
    ensures |m[k := v]| == |m| + if k in m then 0 else 1
  {
    assert m[k := v].Keys == m.Keys + {k};
    if k in m {
      assert m.Keys + {k} == m.Keys;
    }
  }

  lemma OneFewer<V>(m: map<Str, V>, k: Str)
    requires k in m
    ensures m - {k} != m && |m - {k}| == |m| - 1
  {
    assert k !in m - {k};
    assert (m - {k}).Keys == m.Keys - {k};
  }

  lemma LoginTells(w: World, s: State, e: Event)
    requires e.Login?
    ensures TellsTheEffect(w, s, e)
  {
    hide Step, Admitted, Key, Called, Live, Drawn;
    LoginEffect(w, s, e);
    var r := Step(w, s, e).1;
    if r.status == 204 {
      LetInEffect(w, s, e);
      OneMoreOrSame(s.store, Key(r.cookie.value), Admitted(w, s.db, e.req).value);
    }
  }

  lemma LogoutTells(w: World, s: State, e: Event)
    requires e.Logout?
    ensures TellsTheEffect(w, s, e)
  {
    hide SessionId, Key;
    var k := Key(Identify(w, s, e.req.session).0);
    if k in s.store {
      OneFewer(s.store, k);
    }
  }

  lemma GetUserTells(w: World, s: State, e: Event)
    requires e.GetUser?
    ensures TellsTheEffect(w, s, e)
  {
    hide SessionId, Key;
  }

  lemma RegisterTells(w: World, s: State, e: Event)
    requires e.Register?
    ensures TellsTheEffect(w, s, e)
  {
    RegisterEffect(w, s, e);
    hide Step, Key, Trim, Called, Objection, Authenticated;
    if Step(w, s, e).1.status == 201 {
      var body := e.req.body.credentials;
      OneMore(s.db.users, Trim(body.username), Row(e.id, w.crypto.hash(body.password).value));
    }
  }

  /**
   * The answer tells the effect: the table changes exactly on 201; a logout's 204 is exactly one session gone, and
   * a login's 204 is one session more unless its SET failed, when nothing tells; 403 means exactly that a register
   * or login came from a live session whose EXISTS was answered, 401 on the other two that there was none or that
   * it was not, and 500 that their own command failed; a name said to be taken is taken.
   */
  lemma AnswerTellsTheEffect(w: World, s: State, e: Event)
    requires Valid(s)
    ensures TellsTheEffect(w, s, e)
  {
    hide Step, Valid, TellsTheEffect;
    match e
    case Register(_, _) => RegisterTells(w, s, e);
    case Login(_) => LoginTells(w, s, e);
    case Logout(_) => LogoutTells(w, s, e);
    case GetUser(_) => GetUserTells(w, s, e);
  }

  lemma LoginDrawsAnId(w: World, s: State, e: Event)
    requires LetIn(w, s, e)
    ensures var sid := Step(w, s, e).1.cookie.value;
            |sid| == 16 && forall j :: 0 <= j < |sid| ==> IsAlphanumeric(sid[j])
  {
    LetInEffect(w, s, e);
    hide Step;
    var k: nat := Step(w, s, e).0.drawn - 1;
    forall j | 0 <= j < 16
      ensures IsAlphanumeric(SessionId(w.random(k))[j])
    {
      LettersAreAlphanumeric(w.random(k)[j]);
    }
  }

  /**
   * The table's column is narrower than what a user may be called: an ASCII name of 51 to 60 bytes passes every
   * check of the server and is never registered.
   */
  lemma LongNamesAreRefused(w: World, s: State, e: Event)
    requires e.Register? && e.req.body.Sent?
    requires var name := Trim(e.req.body.credentials.username);
             USERNAME_WIDTH < |name| && forall i :: 0 <= i < |name| ==> name[i] as int < 0x80
    ensures Step(w, s, e).1.status != 201 && Step(w, s, e).0.db.users == s.db.users
  {
    RegisterEffect(w, s, e);
    AsciiCharacters(Trim(e.req.body.credentials.username));
    hide Step, Trim, Characters, Called;
  }
}
