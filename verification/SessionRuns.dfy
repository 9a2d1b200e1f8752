/** What holds over whole runs of register, login, logout and get-user: where sessions and accounts come from. */
module SessionRuns {
  import opened Strings
  import opened UserTable
  import opened Sessions
  import Postgres

  ghost function After(w: World, s: State, events: seq<Event>): State {
    if events == [] then s
    else Step(w, After(w, s, events[..|events| - 1]), events[|events| - 1]).0
  }

  // The state before, and the answer to, the i-th event of a run.
  ghost function Before(w: World, s: State, events: seq<Event>, i: nat): State
    requires i <= |events|
  {
    After(w, s, events[..i])
  }

  ghost function Answer(w: World, s: State, events: seq<Event>, i: nat): Response
    requires i < |events|
  {
    Step(w, Before(w, s, events, i), events[i]).1
  }

  lemma {:induction false} RunIsValid(w: World, clients: seq<Postgres.Client>, events: seq<Event>)
    ensures Valid(After(w, Start(clients), events))
    decreases |events|
  {
    if events != [] {
      RunIsValid(w, clients, events[..|events| - 1]);
      StepIsLocal(w, After(w, Start(clients), events[..|events| - 1]), events[|events| - 1]);
    }
  }

  lemma {:induction false} RunGrows(w: World, s: State, events: seq<Event>)
    requires Valid(s)
    ensures Valid(After(w, s, events)) && Grows(s.db, After(w, s, events).db)
    decreases |events|
  {
    if events != [] {
      RunGrows(w, s, events[..|events| - 1]);
      StepIsLocal(w, After(w, s, events[..|events| - 1]), events[|events| - 1]);
    }
  }

  lemma {:induction false} AfterConcat(w: World, s: State, a: seq<Event>, b: seq<Event>)
    ensures After(w, s, a + b) == After(w, After(w, s, a), b)
    decreases |b|
  {
    if b == [] {
      assert a + b == a;
    } else {
      AfterConcat(w, s, a, b[..|b| - 1]);
      assert (a + b)[..|a + b| - 1] == a + b[..|b| - 1];
    }
  }

  /**
   * A session's whole history: a login that was let in wrote it, when its key was free unless the EXISTS that
   * checked it got an error, and nothing touched it since.
   */
  ghost predicate WrittenAt(w: World, clients: seq<Postgres.Client>, events: seq<Event>, k: Str, i: nat) {
    && i < |events|
    && var s := Before(w, Start(clients), events, i);
       && Written(w, s, events[i]) == Some(k) && (k in s.store ==> WrittenUnchecked(w, s, events[i], k))
       && Admitted(w, s.db, events[i].req).Some?
       && k in After(w, Start(clients), events).store
       && After(w, Start(clients), events).store[k] == Admitted(w, s.db, events[i].req).value
  }

  lemma {:induction false} EverySessionWasWritten(w: World, clients: seq<Postgres.Client>, events: seq<Event>, k: Str)
    returns (i: nat)
    requires k in After(w, Start(clients), events).store
    ensures WrittenAt(w, clients, events, k, i)
    decreases |events|
  {
    hide Step, Admitted, Written, WrittenUnchecked, Removed, Valid, Grows;
    var front, last := events[..|events| - 1], events[|events| - 1];
    var s := After(w, Start(clients), front);
    RunIsValid(w, clients, front);
    StepIsLocal(w, s, last);
    assert Before(w, Start(clients), events, |events| - 1) == s;
    if Written(w, s, last) == Some(k) {
      i := |events| - 1;
    } else {
      i := EverySessionWasWritten(w, clients, front, k);
      assert events[..i] == front[..i];
    }
  }

  lemma AdmittedVerified(w: World, db: UserDb, later: UserDb, req: Request)
    requires UsersOk(db.users) && UsersOk(later.users) && Grows(db, later) && Admitted(w, db, req).Some?
    ensures var user := Admitted(w, db, req).value;
            && Registered(later.users, user) && Trim(user.username) == user.username && UsernameOk(user.username)
            && w.crypto.verify(req.body.credentials.password, later.users[user.username].hashed) == Some(true)
  {
    hide FindRow, Reaches, Lane;
  }

  lemma SessionNamesAnAccount(w: World, clients: seq<Postgres.Client>, events: seq<Event>, k: Str, i: nat)
    requires WrittenAt(w, clients, events, k, i)
    ensures var user, users := After(w, Start(clients), events).store[k], After(w, Start(clients), events).db.users;
            && Registered(users, user) && Trim(user.username) == user.username && UsernameOk(user.username)
            && w.crypto.verify(events[i].req.body.credentials.password, users[user.username].hashed) == Some(true)
  {
    hide Step, After, Admitted, UsersOk, Written;
    RunIsValid(w, clients, events);
    RunIsValid(w, clients, events[..i]);
    RunGrows(w, After(w, Start(clients), events[..i]), events[i..]);
    AfterConcat(w, Start(clients), events[..i], events[i..]);
    assert events == events[..i] + events[i..];
    AdmittedVerified(w, Before(w, Start(clients), events, i).db, After(w, Start(clients), events).db, events[i].req);
  }

  /**
   * In every run from an empty table and an empty store, each session in the store has the key of an
   * alphanumeric id of sixteen bytes, was written by a login whose password verified against the account's hash,
   * under a free key unless the EXISTS that checked it got an error, and names a registered account: its id, and
   * its trimmed name of 8 to 60 bytes.
   */
  lemma SessionsComeFromLogins(w: World, clients: seq<Postgres.Client>, events: seq<Event>, k: Str)
    returns (i: nat, sid: Str)
    requires k in After(w, Start(clients), events).store
    ensures i < |events| && events[i].Login? && Answer(w, Start(clients), events, i).status == 204
    ensures Answer(w, Start(clients), events, i).cookie == Some(sid) && k == Key(sid)
    ensures var s := Before(w, Start(clients), events, i); k in s.store ==> WrittenUnchecked(w, s, events[i], k)
    ensures |sid| == 16 && forall j :: 0 <= j < |sid| ==> IsAlphanumeric(sid[j])
    ensures var user, users := After(w, Start(clients), events).store[k], After(w, Start(clients), events).db.users;
            && Registered(users, user) && Trim(user.username) == user.username && UsernameOk(user.username)
            && w.crypto.verify(events[i].req.body.credentials.password, users[user.username].hashed) == Some(true)
  {
    i := EverySessionWasWritten(w, clients, events, k);
    SessionNamesAnAccount(w, clients, events, k, i);
    hide Step, After, Admitted, UsersOk, Written;
    var s := Before(w, Start(clients), events, i);
    LoginDrawsAnId(w, s, events[i]);
    sid := Step(w, s, events[i]).1.cookie.value;
  }

  /** An account's history: the registration that made it, under a free name, and the hash of its password. */
  ghost predicate RegisteredAt(w: World, clients: seq<Postgres.Client>, events: seq<Event>, name: Str, i: nat) {
    && i < |events| && events[i].Register?
    && var s, body := Before(w, Start(clients), events, i), events[i].req.body;
       && Answer(w, Start(clients), events, i).status == 201 && body.Sent?
       && name == Trim(body.credentials.username) && name !in s.db.users && PasswordOk(body.credentials.password)
       && name in After(w, Start(clients), events).db.users
       && Answer(w, Start(clients), events, i).content == Id(After(w, Start(clients), events).db.users[name].id)
       && w.crypto.hash(body.credentials.password) == Some(After(w, Start(clients), events).db.users[name].hashed)
  }

  lemma OnlyRegisterAddsAccounts(w: World, s: State, e: Event, name: Str)
    requires Valid(s) && name in Step(w, s, e).0.db.users && name !in s.db.users
    ensures e.Register? && Step(w, s, e).1.status == 201 && e.req.body.Sent?
    ensures name == Trim(e.req.body.credentials.username) && PasswordOk(e.req.body.credentials.password)
    ensures Step(w, s, e).1.content == Id(Step(w, s, e).0.db.users[name].id)
    ensures w.crypto.hash(e.req.body.credentials.password) == Some(Step(w, s, e).0.db.users[name].hashed)
  {
    if e.Register? {
      RegisterEffect(w, s, e);
    } else if e.Login? {
      LoginEffect(w, s, e);
    }
    hide Trim, UsersOk, Called, Reaches, FindRow, AddRow, SessionId, Key;
  }

  /**
   * In every run from an empty table, each account was made by a registration answered 201 with the account's
   * id, under its trimmed name when that was free, and still holds the hash of the password sent then.
   */
  lemma {:induction false} AccountsComeFromRegistrations(
      w: World, clients: seq<Postgres.Client>, events: seq<Event>, name: Str)
    returns (i: nat)
    requires name in After(w, Start(clients), events).db.users
    ensures RegisteredAt(w, clients, events, name, i)
    decreases |events|
  {
    hide Step, Valid;
    var front, last := events[..|events| - 1], events[|events| - 1];
    var s := After(w, Start(clients), front);
    RunIsValid(w, clients, front);
    StepIsLocal(w, s, last);
    assert Before(w, Start(clients), events, |events| - 1) == s;
    if name in s.db.users {
      i := AccountsComeFromRegistrations(w, clients, front, name);
      assert events[..i] == front[..i];
    } else {
      i := |events| - 1;
      OnlyRegisterAddsAccounts(w, s, last, name);
    }
  }

  // ---------- From registration to logout ----------

  // The credentials of a registration as a login must send them: the name trimmed.
  function LoginBody(req: Request): Body
    requires req.body.Sent?
  {
    Sent(Credentials(Trim(req.body.credentials.username), req.body.credentials.password))
  }

  // The account a registration answered 201 made.
  ghost function NewUser(w: World, s: State, e: Event): SessionUser
    requires Step(w, s, e).1.status == 201 && e.Register? && e.req.body.Sent?
  {
    SessionUser(e.id, Trim(e.req.body.credentials.username))
  }

  // A login without a session, with the credentials of an earlier registration answered 201, when ids are left.
  ghost predicate LogsInLater(w: World, s: State, e: Event, between: seq<Event>, login: Event) {
    && Valid(s) && Sound(w.crypto) && e.Register? && e.req.body.Sent? && Step(w, s, e).1.status == 201
    && login.Login? && login.req.body == LoginBody(e.req)
    && var t := After(w, Step(w, s, e).0, between);
       && !Authenticated(w, t, login.req)
       && SomePasses(w, t.store, login.req.faults.check, Identify(w, t, login.req.session).1.drawn)
  }

  // The credentials of an account: a name in the table and a password that verifies against its hash.
  predicate Knows(w: World, users: map<Str, Row>, req: Request) {
    && Filled(req.body) && req.body.credentials.username in users
    && w.crypto.verify(req.body.credentials.password, users[req.body.credentials.username].hashed) == Some(true)
  }

  // The user those credentials are of.
  function UserOf(users: map<Str, Row>, req: Request): SessionUser
    requires Filled(req.body) && req.body.credentials.username in users
  {
    SessionUser(users[req.body.credentials.username].id, req.body.credentials.username)
  }

  /** A login is let in exactly with the credentials of an account, on a connection that answers the SELECT. */
  lemma AdmittedExactly(w: World, db: UserDb, req: Request)
    requires UsersOk(db.users) && db.deque != []
    ensures Admitted(w, db, req) ==
            if Knows(w, db.users, req) && !req.down && Reaches(db, Select()) then Some(UserOf(db.users, req)) else None
  {
    hide Trim, Reaches, FindRow, Characters;
  }

  lemma RegisterNeedsAConnection(w: World, s: State, e: Event)
    requires e.Register? && Step(w, s, e).1.status == 201
    ensures s.db.deque != []
  {
    hide Trim, AddRow, Reaches, Key, SessionId;
  }

  lemma RegisteredUserKnows(w: World, s: State, e: Event, between: seq<Event>, req: Request)
    requires Valid(s) && Sound(w.crypto) && e.Register? && e.req.body.Sent? && Step(w, s, e).1.status == 201
    requires req.body == LoginBody(e.req)
    ensures var t := After(w, Step(w, s, e).0, between);
            && Valid(t) && t.db.deque != [] && Knows(w, t.db.users, req)
            && UserOf(t.db.users, req) == NewUser(w, s, e)
  {
    var s1, body := Step(w, s, e).0, e.req.body.credentials;
    StepIsLocal(w, s, e);
    RunGrows(w, s1, between);
    RegisterEffect(w, s, e);
    RegisterNeedsAConnection(w, s, e);
    TrimIsIdempotent(body.username);
    assert w.crypto.verify(body.password, w.crypto.hash(body.password).value) == Some(true);
    hide Step, After, Trim, Lane, Sound, Valid, Called, Fits, IdTaken;
    assert Trim(body.username) in s1.db.users;
  }

  lemma LoginIsAnswered(w: World, s: State, e: Event)
    requires e.Login? && Filled(e.req.body) && s.db.deque != [] && !Authenticated(w, s, e.req)
    requires SomePasses(w, s.store, e.req.faults.check, Identify(w, s, e.req.session).1.drawn)
    ensures var ((s', r), user) := (Step(w, s, e), Admitted(w, s.db, e.req));
            if user.None? then r.status == 401
            else
              && r.status == 204 && LetIn(w, s, e)
              && (Has(s'.store, r.cookie.value, user.value) <==>
                    !e.req.faults.put || Has(s.store, r.cookie.value, user.value))
  {
    hide Admitted, Trim, SessionId, Key, FindRow, Reaches, Marked, SomePasses, Passes, Identify;
  }

  /**
   * When a registered account can log in again, with the trimmed name and the same password: exactly when the
   * database is up and the connection the login gets has the SELECT, or nothing yet, under the shared name. It then
   * has a session exactly when the SET was accepted too, unless its id was that of another session of its own.
   */
  lemma RegisteredUserCanLogIn(w: World, s: State, e: Event, between: seq<Event>, login: Event)
    requires LogsInLater(w, s, e, between, login)
    ensures var t := After(w, Step(w, s, e).0, between);
            var (t', r) := Step(w, t, login);
            && (r.status == 204 <==> !login.req.down && Reaches(t.db, Select()))
            && (r.status == 401 <==> login.req.down || !Reaches(t.db, Select()))
            && (r.status == 204 ==>
                  && LetIn(w, t, login) && Admitted(w, t.db, login.req) == Some(NewUser(w, s, e))
                  && (Has(t'.store, r.cookie.value, NewUser(w, s, e)) <==>
                        !login.req.faults.put || Has(t.store, r.cookie.value, NewUser(w, s, e))))
  {
    RegisteredUserKnows(w, s, e, between, login.req);
    var t := After(w, Step(w, s, e).0, between);
    AdmittedExactly(w, t.db, login.req);
    hide After, Admitted, Reaches, Sound, Valid, Step, Authenticated, SomePasses, Has, LetIn, Identify;
    LoginIsAnswered(w, t, login);
  }

  // The event neither logs out of a session nor writes its key unchecked.
  ghost predicate Keeps(w: World, s: State, e: Event, sid: Str) {
    Removed(w, s, e) != Some(Key(sid)) && !WrittenUnchecked(w, s, e, Key(sid))
  }

  ghost predicate KeepsSession(w: World, s: State, events: seq<Event>, sid: Str) {
    forall i :: 0 <= i < |events| ==> Keeps(w, Before(w, s, events, i), events[i], sid)
  }

  // No login of the run draws an id.
  ghost predicate NeverDraws(w: World, s: State, events: seq<Event>, sid: Str) {
    forall i :: 0 <= i < |events| ==> Written(w, Before(w, s, events, i), events[i]) != Some(Key(sid))
  }

  lemma SessionStays(w: World, s: State, e: Event, sid: Str)
    requires Valid(s) && Key(sid) in s.store && Keeps(w, s, e, sid)
    ensures var s' := Step(w, s, e).0; Key(sid) in s'.store && s'.store[Key(sid)] == s.store[Key(sid)]
  {
    StepIsLocal(w, s, e);
    hide Step, Valid, Grows, Admitted, Key, Removed, Written, WrittenUnchecked;
  }

  // What a get-user request gets for a session of a user that is in the store.
  function GetUserAnswer(user: SessionUser, faults: Faults): Response {
    if faults.auth then Status(401) else if faults.get then Status(500) else Status(200).(content := Profile(user))
  }

  lemma LiveSessionIsGetUserAnswer(w: World, s: State, sid: Str, get: Event)
    requires sid != [] && Key(sid) in s.store && get.GetUser? && get.req.session == sid
    ensures Step(w, s, get).1 == GetUserAnswer(s.store[Key(sid)], get.req.faults)
  {
    hide Key;
  }

  lemma {:induction false} SessionIsKept(w: World, s: State, events: seq<Event>, sid: Str)
    requires Valid(s) && Key(sid) in s.store && KeepsSession(w, s, events, sid)
    ensures var t := After(w, s, events); Key(sid) in t.store && t.store[Key(sid)] == s.store[Key(sid)]
    decreases |events|
  {
    if events != [] {
      var front, last := events[..|events| - 1], events[|events| - 1];
      hide Step, Key, Valid, Keeps;
      forall i | 0 <= i < |front|
        ensures Keeps(w, Before(w, s, front, i), front[i], sid)
      {
        assert front[..i] == events[..i];
      }
      SessionIsKept(w, s, front, sid);
      RunGrows(w, s, front);
      assert Before(w, s, events, |events| - 1) == After(w, s, front);
      SessionStays(w, After(w, s, front), last, sid);
    }
  }

  /**
   * Until it is logged out, and no login draws its id while the store cannot tell that it is taken, a session gives
   * its user to every get-user request that carries its id, 401 if the EXISTS of that request gets an error, and 500
   * if its GET does.
   */
  lemma SessionLasts(w: World, s: State, events: seq<Event>, sid: Str, get: Event)
    requires Valid(s) && sid != [] && Key(sid) in s.store && KeepsSession(w, s, events, sid)
    requires get.GetUser? && get.req.session == sid
    ensures var t := After(w, s, events);
            Key(sid) in t.store && Step(w, t, get).1 == GetUserAnswer(s.store[Key(sid)], get.req.faults)
  {
    SessionIsKept(w, s, events, sid);
    hide Step, After, Key, Valid;
    LiveSessionIsGetUserAnswer(w, After(w, s, events), sid, get);
  }

  lemma SessionStaysAway(w: World, s: State, e: Event, sid: Str)
    requires Valid(s) && Key(sid) !in s.store && Written(w, s, e) != Some(Key(sid))
    ensures Key(sid) !in Step(w, s, e).0.store
  {
    StepIsLocal(w, s, e);
    hide Step, Valid, Grows, Admitted, Key, Removed, Written, WrittenUnchecked;
  }

  lemma {:induction false} SessionIsAway(w: World, s: State, events: seq<Event>, sid: Str)
    requires Valid(s) && Key(sid) !in s.store && NeverDraws(w, s, events, sid)
    ensures Key(sid) !in After(w, s, events).store
    decreases |events|
  {
    if events != [] {
      var front, last := events[..|events| - 1], events[|events| - 1];
      hide Step, Key, Valid, Written;
      forall i | 0 <= i < |front|
        ensures Written(w, Before(w, s, front, i), front[i]) != Some(Key(sid))
      {
        assert front[..i] == events[..i];
      }
      SessionIsAway(w, s, front, sid);
      RunGrows(w, s, front);
      assert Before(w, s, events, |events| - 1) == After(w, s, front);
      SessionStaysAway(w, After(w, s, front), last, sid);
    }
  }

  lemma NoSessionIsRefused(w: World, s: State, sid: Str, get: Event)
    requires sid != [] && Key(sid) !in s.store && get.GetUser? && get.req.session == sid
    ensures Step(w, s, get).1 == Status(401)
  {
    hide Key;
  }

  /** A logged-out session stays out: nobody is let in with its id until a login draws that id again. */
  lemma LoggedOutStaysOut(w: World, s: State, events: seq<Event>, sid: Str, get: Event)
    requires Valid(s) && sid != [] && Key(sid) !in s.store && NeverDraws(w, s, events, sid)
    requires get.GetUser? && get.req.session == sid
    ensures var t := After(w, s, events);
            Key(sid) !in t.store && Step(w, t, get).1 == Status(401)
  {
    SessionIsAway(w, s, events, sid);
    hide Step, After, Key, Valid;
    NoSessionIsRefused(w, After(w, s, events), sid, get);
  }

  /** Logging out with a live session's id removes that session exactly when its EXISTS and its DEL are answered. */
  lemma LogoutRemoves(w: World, s: State, sid: Str, out: Event)
    requires Valid(s) && sid != [] && Key(sid) in s.store && out.Logout? && out.req.session == sid
    ensures var (s', r) := Step(w, s, out);
            && (r.status == 204 <==> !out.req.faults.auth && !out.req.faults.del)
            && (Key(sid) !in s'.store <==> r.status == 204)
            && (Removed(w, s, out) == Some(Key(sid)) <==> r.status == 204)
  {
    hide Key, SessionId, Valid;
  }

  // The store answers the commands this request depends on.
  predicate Unhindered(e: Event) {
    && (e.Login? ==> !e.req.faults.put)
    && (e.Logout? ==> !e.req.faults.auth && !e.req.faults.del)
    && (e.GetUser? ==> !e.req.faults.auth && !e.req.faults.get)
  }

  lemma LifeAfterLogin(
      w: World, s: State, sid: Str, during: seq<Event>, out: Event, after: seq<Event>, get: Event)
    requires Valid(s) && sid != [] && Key(sid) in s.store && KeepsSession(w, s, during, sid)
    requires out.Logout? && out.req.session == sid && Unhindered(out)
    requires NeverDraws(w, Step(w, After(w, s, during), out).0, after, sid)
    requires get.GetUser? && get.req.session == sid && Unhindered(get)
    ensures var u := After(w, s, during);
            && Step(w, u, get).1 == Status(200).(content := Profile(s.store[Key(sid)]))
            && Step(w, u, out).1.status == 204
            && Step(w, After(w, Step(w, u, out).0, after), get).1.status == 401
  {
    hide Step, After, KeepsSession, NeverDraws, Valid, Key;
    SessionLasts(w, s, during, sid, get);
    RunGrows(w, s, during);
    var u := After(w, s, during);
    LogoutRemoves(w, u, sid, out);
    StepIsLocal(w, u, out);
    LoggedOutStaysOut(w, Step(w, u, out).0, after, sid, get);
  }

  /**
   * The whole life of a session: register, anything, log in on a connection that answers it, anything but its
   * logout, and get-user answers with the id from registration and the trimmed name; log out, anything that does
   * not draw the id again, and get-user answers 401. The commands of these three are answered by the store.
   */
  lemma SessionLife(
      w: World, s: State, e: Event, between: seq<Event>, login: Event,
      during: seq<Event>, out: Event, after: seq<Event>, get: Event)
    requires LogsInLater(w, s, e, between, login) && Unhindered(login) && Unhindered(out) && Unhindered(get)
    requires !login.req.down && Reaches(After(w, Step(w, s, e).0, between).db, Select())
    requires var (t', r) := Step(w, After(w, Step(w, s, e).0, between), login);
             && r.cookie.Some? && KeepsSession(w, t', during, r.cookie.value)
             && out.Logout? && out.req.session == r.cookie.value
             && NeverDraws(w, Step(w, After(w, t', during), out).0, after, r.cookie.value)
             && get.GetUser? && get.req.session == r.cookie.value
    ensures var t' := Step(w, After(w, Step(w, s, e).0, between), login).0;
            var u := After(w, t', during);
            && Step(w, u, get).1 == Status(200).(content := Profile(NewUser(w, s, e)))
            && Step(w, u, out).1.status == 204
            && Step(w, After(w, Step(w, u, out).0, after), get).1.status == 401
  {
    var t := After(w, Step(w, s, e).0, between);
    StepIsLocal(w, s, e);
    RunGrows(w, Step(w, s, e).0, between);
    RegisteredUserCanLogIn(w, s, e, between, login);
    var (t', r) := Step(w, t, login);
    LoginDrawsAnId(w, t, login);
    StepIsLocal(w, t, login);
    hide Step, After, KeepsSession, NeverDraws, Valid;
    LifeAfterLogin(w, t', r.cookie.value, during, out, after, get);
  }
}
