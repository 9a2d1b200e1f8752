/**
 * The use cases as they are written, entities, statements and early returns included, against the steps of Sessions.
 */
module AuthServer {
  import opened Strings
  import opened UserTable
  import opened Sessions
  import Postgres

  class User {
    var id: Str
    var username: Str
    var password: Str
    var hashed: Str

    constructor (id: Str, username: Str, hashed: Str)
      ensures this.id == id && this.username == username && this.hashed == hashed && password == []
    {
      this.id, this.username, this.hashed, password := id, username, hashed, [];
    }

    method SetPassword(text: Str) returns (ok: bool)
      modifies this`password
      ensures ok == PasswordOk(text) && password == if ok then text else old(password)
    {
      if |text| < PASSWORD_MIN || |text| > PASSWORD_MAX {
        return false;
      }
      password := text;
      ok := true;
    }

    method HashPassword(crypto: Crypto) returns (ok: bool)
      modifies this`hashed
      ensures ok == crypto.hash(password).Some?
      ensures hashed == if ok then crypto.hash(password).value else old(hashed)
    {
      var hash := crypto.hash(password);
      if hash.None? {
        return false;
      }
      hashed := hash.value;
      ok := true;
    }

    method VerifyPassword(crypto: Crypto, text: Str) returns (same: Option<bool>)
      ensures same == crypto.verify(text, hashed)
    {
      same := crypto.verify(text, hashed);
    }
  }

  /** make_user trims the name it is given and refuses one that is then too short or too long. */
  method MakeUser(id: Str, name: Str, hashed: Str) returns (user: User?, error: Option<Message>)
    ensures user != null <==> UsernameOk(Trim(name))
    ensures user != null ==> fresh(user) && user.id == id && user.username == Trim(name) && user.hashed == hashed
    ensures error == if |Trim(name)| < USERNAME_MIN then Some(ShortUsername)
                     else if |Trim(name)| > USERNAME_MAX then Some(LongUsername)
                     else None
  {
    var username := EraseBoth(name);
    if |username| < USERNAME_MIN {
      return null, Some(ShortUsername);
    }
    if |username| > USERNAME_MAX {
      return null, Some(LongUsername);
    }
    user := new User(id, username, hashed);
    error := None;
  }

  /** The two queries of the user table. The result object each of them is handed is cleared when it returns. */
  class UserPostgres {
    const pg: Postgres.Pool<map<Str, Row>>
    const getUserStatement: Postgres.Statement
    const addUserStatement: Postgres.Statement

    predicate Valid()
      reads pg
    {
      getUserStatement == Select() && addUserStatement == Insert() && pg.semaphore == |pg.pool|
    }

    constructor (pg: Postgres.Pool<map<Str, Row>>)
      requires pg.statementCount == 0 && pg.semaphore == |pg.pool|
      ensures this.pg == pg && Valid()
    {
      this.pg := pg;
      var st := pg.MakeStatement(SelectText());
      getUserStatement := st;
      st := pg.MakeStatement(InsertText());
      addUserStatement := st;
    }

    function View(): UserDb
      reads pg
    {
      UserDb(pg.server.db, pg.server.prepared, pg.pool)
    }

    method GetUserByUsername(name: Str, down: bool) returns (user: User?)
      requires Valid() && View().deque != []
      modifies pg
      ensures Valid() && View() == FindRow(old(View()), down, name).0 && pg.results == old(pg.results)
      ensures var row := FindRow(old(View()), down, name).1;
              && (user != null <==> row.Some? && UsernameOk(Trim(name)))
              && (user != null ==>
                    fresh(user) && user.username == Trim(name) && row == Some(Row(user.id, user.hashed)))
    {
      hide SelectText, InsertText, Name, Trim;
      FindRowAnswer(View(), down, name);
      ghost var handed: Option<nat>;
      var answer: Postgres.Answer;
      handed, answer := pg.Query(Database([], down), getUserStatement, [name]);
      hide *;
      if answer.Fatal? {
        return null;
      }
      pg.PQclear(handed.value);
      if |answer.rows| == 0 {
        return null;
      }
      var error: Option<Message>;
      user, error := MakeUser(answer.rows[0][0], name, answer.rows[0][2]);
    }

    method AddUser(user: User, id: Str, down: bool) returns (answer: Postgres.Answer)
      requires Valid() && View().deque != []
      modifies pg
      ensures Valid() && pg.results == old(pg.results)
      ensures (View(), answer) == AddRow(old(View()), id, down, user.username, user.hashed)
    {
      ghost var handed: Option<nat>;
      handed, answer := pg.Query(Database(id, down), addUserStatement, [user.username, user.hashed]);
      if handed.Some? {
        pg.PQclear(handed.value);
      }
    }
  }

  /** A request on its way through a use case: its session id is filled in as it is asked for. */
  class WrapperRequest {
    var sessionId: Str
    var cookie: Option<Str>
    var status: nat
    var content: Content
    const body: Body
    const down: bool
    const faults: Faults

    function Result(): Response
      reads this
    {
      Response(status, content, cookie)
    }

    constructor (req: Request)
      ensures sessionId == req.session && body == req.body && down == req.down && faults == req.faults
      ensures Result() == Status(0)
    {
      sessionId, body, down, faults := req.session, req.body, req.down, req.faults;
      status, content, cookie := 0, Nothing, None;
    }
  }

  class Server {
    const world: World
    const db: UserPostgres
    var store: map<Str, SessionUser>
    var drawn: nat

    function View(): State
      reads this, db.pg
    {
      State(db.View(), store, drawn)
    }

    constructor (world: World, clients: seq<Postgres.Client>)
      ensures this.world == world && db.Valid() && fresh(db) && fresh(db.pg) && View() == Start(clients)
    {
      var pg := new Postgres.Pool<map<Str, Row>>(clients, map[]);
      var db := new UserPostgres(pg);
      this.world, this.db := world, db;
      store, drawn := map[], 0;
    }

    method Draw() returns (sid: Str)
      modifies this`drawn
      ensures sid == SessionId(world.random(old(drawn))) && drawn == old(drawn) + 1
    {
      var buffer := world.random(drawn);
      drawn := drawn + 1;
      sid := [];
      for i := 0 to SESSION_ID_LENGTH
        invariant |sid| == i && forall j :: 0 <= j < i ==> sid[j] == Letter(buffer[j])
      {
        sid := sid + [ALPHABET[buffer[i] % |ALPHABET|]];
      }
    }

    method GetSessionKey(req: WrapperRequest) returns (key: Str)
      modifies this`drawn, req`sessionId
      ensures (req.sessionId, View()) == Identify(world, old(View()), old(req.sessionId)) && key == Key(req.sessionId)
    {
      if req.sessionId == [] {
        req.sessionId := Draw();
      }
      key := Key(req.sessionId);
    }

    /** EXISTS: an error reads as a key that is not there. */
    method Exists(key: Str, fault: bool) returns (there: bool)
      ensures there <==> !fault && key in store
    {
      there := !fault && key in store;
    }

    /** SET: false on an error, which changes nothing. */
    method SetByteArray(key: Str, user: SessionUser, fault: bool) returns (ok: bool)
      modifies this`store
      ensures ok == !fault && store == if fault then old(store) else old(store)[key := user]
    {
      if !fault {
        store := store[key := user];
      }
      ok := !fault;
    }

    /** GET: no value where the key is absent or the reply is an error. */
    method GetByteArray(key: Str, fault: bool) returns (user: Option<SessionUser>)
      ensures user == if !fault && key in store then Some(store[key]) else None
    {
      user := if !fault && key in store then Some(store[key]) else None;
    }

    /** DEL: true exactly when a key was there and is gone. */
    method Del(key: Str, fault: bool) returns (deleted: bool)
      modifies this`store
      ensures deleted <==> !fault && key in old(store)
      ensures store == if deleted then old(store) - {key} else old(store)
    {
      deleted := !fault && key in store;
      if !fault {
        store := store - {key};
      }
    }

    // The request as it came, while its session id is still the one it came with.
    function Came(req: WrapperRequest): Request
      reads req`sessionId
    {
      Request(req.sessionId, req.body, req.down, req.faults)
    }

    method IsAuth(req: WrapperRequest) returns (auth: bool)
      modifies this`drawn, req`sessionId
      ensures (req.sessionId, View()) == Identify(world, old(View()), old(req.sessionId))
      ensures auth == Authenticated(world, old(View()), old(Came(req)))
    {
      var key := GetSessionKey(req);
      auth := Exists(key, req.faults.auth);
    }

    method TryAnId(req: WrapperRequest) returns (taken: bool)
      modifies this`drawn, req`sessionId
      ensures drawn == old(drawn) + 1 && req.sessionId == Drawn(world, old(drawn))
      ensures taken <==> !Passes(world, store, req.faults.check, old(drawn))
    {
      req.sessionId := Draw();
      taken := Exists(Key(req.sessionId), req.faults.check(drawn - 1));
    }

    /**
     * Draws ids until the collision check accepts one. It ends on every stream with a draw ahead that it accepts,
     * and the id is the first of them: the distance to it is the measure.
     */
    method GetNewSessionId(req: WrapperRequest)
      requires SomePasses(world, store, req.faults.check, drawn)
      modifies this`drawn, req`sessionId
      ensures var k := NextPasses(world, store, req.faults.check, old(drawn));
              req.sessionId == Drawn(world, k) && drawn == k + 1
    {
      ghost var first := NextPasses(world, store, req.faults.check, drawn);
      hide Passes, SessionId, Key;
      var taken := TryAnId(req);
      while taken
        invariant old(drawn) < drawn <= first + 1
        invariant req.sessionId == Drawn(world, drawn - 1)
        invariant taken <==> !Passes(world, store, req.faults.check, drawn - 1)
        invariant forall j :: old(drawn) <= j < drawn - 1 ==> !Passes(world, store, req.faults.check, j)
        decreases first + 1 - drawn
      {
        taken := TryAnId(req);
      }
      FirstPassesIsUnique(world, store, req.faults.check, old(drawn), drawn - 1, first);
    }

    /** The reply to the SET is not looked at. */
    method SetSessionUser(req: WrapperRequest, user: User)
      requires SomePasses(world, store, req.faults.check, drawn)
      modifies this`drawn, this`store, req`sessionId, req`cookie
      ensures var k := NextPasses(world, old(store), req.faults.check, old(drawn));
              var sid := Drawn(world, k);
              && drawn == k + 1 && store == Put(old(store), req.faults.put, sid, SessionUser(user.id, user.username))
              && req.sessionId == sid && req.cookie == Some(sid)
    {
      GetNewSessionId(req);
      var ok := SetByteArray(Key(req.sessionId), SessionUser(user.id, user.username), req.faults.put);
      req.cookie := Some(req.sessionId);
    }

    /** A register that needs the table returns only if the pool has a connection. */
    method RegisterUser(req: WrapperRequest, id: Str)
      requires req.Result() == Status(0) && db.Valid()
      requires View().db.deque != [] || Authenticated(world, View(), Came(req)) || Objection(world, req.body).Some?
      modifies this, db.pg, req
      ensures db.Valid() && db.pg.results == old(db.pg.results)
      ensures var r := old(Came(req));
              (View(), req.Result()) == DoRegister(world, old(View()), r, id)
    {
      hide Trim, AddRow, Reaches, Marked, Insert, Select;
      var auth := IsAuth(req);
      if auth {
        req.status := 403;
        return;
      }
      if !req.body.Sent? {
        req.content := Says(if req.body.Empty? then EmptyBody else InvalidBody);
        req.status := 400;
        return;
      }
      if req.body.credentials.username == [] || req.body.credentials.password == [] {
        req.content := Says(EmptyField);
        req.status := 400;
        return;
      }
      var user, error := MakeUser([], req.body.credentials.username, []);
      if user == null {
        req.content := Says(error.value);
        req.status := 400;
        return;
      }
      var ok := user.SetPassword(req.body.credentials.password);
      if !ok {
        req.content := Says(InvalidPassword);
        req.status := 400;
        return;
      }
      ok := user.HashPassword(world.crypto);
      if !ok {
        req.content := Says(CouldNotHash);
        req.status := 400;
        return;
      }
      var answer := db.AddUser(user, id, req.down);
      if answer.Fatal? {
        req.content := Says(if answer.constraint == TAKEN_CONSTRAINT then UsernameTaken else DatabaseMessage);
        req.status := 400;
        return;
      }
      req.content, req.status := Id(answer.rows[0][0]), 201;
    }

    /**
     * A login that needs the table returns only if the pool has a connection, and one that is let in only when a
     * free id lies ahead of the draws.
     */
    method LoginUser(req: WrapperRequest)
      requires req.Result() == Status(0) && db.Valid()
      requires View().db.deque != [] || Authenticated(world, View(), Came(req)) || !Filled(req.body)
      requires (!Authenticated(world, View(), Came(req))
                && Admitted(world, View().db, Came(req)).Some?) ==>
                 SomePasses(world, store, req.faults.check, Identify(world, View(), req.sessionId).1.drawn)
      modifies this, db.pg, req
      ensures db.Valid() && db.pg.results == old(db.pg.results)
      ensures var r := old(Came(req));
              (View(), req.Result()) == DoLogin(world, old(View()), r)
    {
      hide Trim, FindRow, Reaches, Marked, Insert, Select;
      var auth := IsAuth(req);
      if auth {
        req.status := 403;
        return;
      }
      if !req.body.Sent? || req.body.credentials.username == [] || req.body.credentials.password == [] {
        req.status := 401;
        return;
      }
      var user := db.GetUserByUsername(req.body.credentials.username, req.down);
      if user == null {
        req.status := 401;
        return;
      }
      var same := user.VerifyPassword(world.crypto, req.body.credentials.password);
      if same.None? {
        req.status := 401;
        return;
      }
      if !same.value {
        req.status := 401;
        return;
      }
      SetSessionUser(req, user);
      req.status := 204;
    }

    /** The store's answer to DEL decides whether the cookie is cleared. */
    method ClearSessionUser(req: WrapperRequest) returns (cleared: bool)
      requires req.sessionId != []
      modifies this`store, req`cookie
      ensures cleared <==> !req.faults.del && Key(req.sessionId) in old(store)
      ensures store == if cleared then old(store) - {Key(req.sessionId)} else old(store)
      ensures req.cookie == if cleared then Some([]) else old(req.cookie)
    {
      cleared := Del(Key(req.sessionId), req.faults.del);
      if cleared {
        req.cookie := Some([]);
      }
    }

    method LogoutUser(req: WrapperRequest)
      requires req.Result() == Status(0)
      modifies this`store, this`drawn, req
      ensures var r := old(Came(req));
              (View(), req.Result()) == DoLogout(world, old(View()), r)
    {
      var auth := IsAuth(req);
      if !auth {
        req.status := 401;
        return;
      }
      var cleared := ClearSessionUser(req);
      if !cleared {
        req.status := 500;
        return;
      }
      req.status := 204;
    }

    /** None where the store does not give the session's bytes. */
    method GetSessionUser(req: WrapperRequest) returns (user: Option<SessionUser>)
      modifies this`drawn, req`sessionId
      ensures (req.sessionId, View()) == Identify(world, old(View()), old(req.sessionId))
      ensures user == if !req.faults.get && Key(req.sessionId) in store then Some(store[Key(req.sessionId)]) else None
    {
      var key := GetSessionKey(req);
      user := GetByteArray(key, req.faults.get);
    }

    method GetUserOf(req: WrapperRequest)
      requires req.Result() == Status(0)
      modifies this`drawn, req
      ensures var r := old(Came(req));
              (View(), req.Result()) == DoGetUser(world, old(View()), r)
    {
      var auth := IsAuth(req);
      if !auth {
        req.status := 401;
        return;
      }
      var user := GetSessionUser(req);
      if user.None? {
        req.status := 500;
        return;
      }
      req.content, req.status := Profile(user.value), 200;
    }
  }
}
