/** What each of the four use cases answers, exactly, and whose session an id is (use-cases/auth). */
module Answers {
  import opened Strings
  import opened UserTable
  import opened Sessions
  import opened SessionRuns
  import Postgres

  // ---------- Register ----------

  /** Which of its checks a registration fails first, in numbers. */
  lemma ObjectionsExactly(w: World, body: Body)
    ensures Objection(w, body) == Some(EmptyBody) <==> body == Empty
    ensures Objection(w, body) == Some(InvalidBody) <==> body == Invalid
    ensures body.Sent? ==>
              var Credentials(username, password) := body.credentials;
              var length, objection := |Trim(username)|, Objection(w, body);
              && (objection == Some(EmptyField) <==> username == [] || password == [])
              && (objection == Some(ShortUsername) <==> username != [] && password != [] && length < 8)
              && (objection == Some(LongUsername) <==> password != [] && length > 60)
              && (objection == Some(InvalidPassword) <==>
                    8 <= length <= 60 && password != [] && !(8 <= |password| <= 60))
              && (objection == Some(CouldNotHash) <==>
                    8 <= length <= 60 && 8 <= |password| <= 60 && w.crypto.hash(password) == None)
              && (objection == None <==>
                    8 <= length <= 60 && 8 <= |password| <= 60 && w.crypto.hash(password) != None)
  {
    if body.Sent? && body.credentials.username == [] {
      assert Trim([]) == [];
    }
    hide Trim;
  }

  // A registration gets as far as asking the table.
  predicate Asks(w: World, s: State, e: Event) {
    e.Register? && !Authenticated(w, s, e.req) && Objection(w, e.req.body) == None && s.db.deque != []
  }

  // The table runs its INSERT, and neither the values nor the new key stand in the way.
  predicate OnlyTheNameDecides(w: World, s: State, e: Event)
    requires e.Register? && Objection(w, e.req.body) == None
  {
    var Credentials(username, password) := e.req.body.credentials;
    && !e.req.down && Reaches(s.db, Insert()) && !IdTaken(s.db.users, e.id)
    && Fits(Trim(username), w.crypto.hash(password).value)
  }

  /**
   * A registration that asks the table is answered 201 with the new id exactly when nothing is in its way, and says
   * that the name is taken exactly when the name is all that is.
   */
  lemma AskedRegisterAnswers(w: World, s: State, e: Event)
    requires Asks(w, s, e)
    ensures var r, name := Step(w, s, e).1, Trim(e.req.body.credentials.username);
            r == if !OnlyTheNameDecides(w, s, e) then Response(400, Says(DatabaseMessage), None)
                 else if name in s.db.users then Response(400, Says(UsernameTaken), None)
                 else Response(201, Id(e.id), None)
  {
    hide Trim, AddRow, Reaches, Marked, Key, SessionId, IdTaken, Fits;
    assert TAKEN_CONSTRAINT == USERNAME_KEY;
  }

  /** Any other registration is refused before that, or waits for a connection for ever. */
  lemma UnaskedRegisterAnswers(w: World, s: State, e: Event)
    requires e.Register? && !Asks(w, s, e)
    ensures var r, objection := Step(w, s, e).1, Objection(w, e.req.body);
            r == if Authenticated(w, s, e.req) then Response(403, Nothing, None)
                 else if objection == None then Response(0, Nothing, None)
                 else Response(400, Says(objection.value), None)
  {
    hide Trim, AddRow, Reaches, Marked, Key, SessionId, Objection;
  }

  // ---------- Login, logout, get-user ----------

  // The id a request has or is given, and whether the store has a session under it.
  function IdOf(w: World, s: State, req: Request): Str {
    if req.session == [] then SessionId(w.random(s.drawn)) else req.session
  }

  predicate InStore(store: map<Str, SessionUser>, sid: Str) { "sess:" + sid in store }

  // The collision check accepts a draw exactly when its key is absent or the store does not tell.
  predicate Accepts(w: World, s: State, check: nat -> bool, k: nat) {
    !InStore(s.store, SessionId(w.random(k))) || check(k)
  }

  lemma DefinitionsAgree(w: World, s: State, req: Request, k: nat)
    ensures Identify(w, s, req.session).0 == IdOf(w, s, req)
    ensures Authenticated(w, s, req) <==> InStore(s.store, IdOf(w, s, req)) && !req.faults.auth
    ensures Passes(w, s.store, req.faults.check, k) <==> Accepts(w, s, req.faults.check, k)
  {
    hide SessionId;
  }

  /** A login from no live session is let in exactly with an account's credentials, a fitting connection, and an id. */
  lemma LoginAnswersExactly(w: World, s: State, e: Event)
    requires UsersOk(s.db.users) && e.Login?
    ensures var (s', r) := Step(w, s, e);
            var knows := Knows(w, s.db.users, e.req) && !e.req.down && Reaches(s.db, Select());
            var from := s.drawn + if e.req.session == [] then 1 else 0;
            var ids := exists k :: from <= k && Accepts(w, s, e.req.faults.check, k);
            && r.content == Nothing && (r.cookie != None <==> r.status == 204)
            && if InStore(s.store, IdOf(w, s, e.req)) && !e.req.faults.auth then r.status == 403
               else if !e.req.body.Sent? then r.status == 401
               else if e.req.body.credentials.username == [] then r.status == 401
               else if e.req.body.credentials.password == [] then r.status == 401
               else if s.db.deque == [] then r.status == 0
               else if !knows then r.status == 401
               else if !ids then r.status == 0
               else r.status == 204
  {
    if s.db.deque != [] {
      AdmittedExactly(w, s.db, e.req);
    }
    forall k: nat
      ensures Passes(w, s.store, e.req.faults.check, k) <==> Accepts(w, s, e.req.faults.check, k)
    {
      DefinitionsAgree(w, s, e.req, k);
    }
    hide Admitted, Trim, SessionId, Key, FindRow, Reaches, Marked, Passes, Accepts, Authenticated, Knows, UsersOk;
    hide InStore, IdOf;
  }

  /** A logout answers for the session of its own id, and its cookie then holds nothing. */
  lemma LogoutAnswersExactly(w: World, s: State, e: Event)
    requires e.Logout?
    ensures var (s', r) := Step(w, s, e);
            && r == (if !InStore(s.store, IdOf(w, s, e.req)) || e.req.faults.auth then Response(401, Nothing, None)
                     else if e.req.faults.del then Response(500, Nothing, None)
                     else Response(204, Nothing, Some([])))
            && s'.db == s.db
            && s'.store == if r.status == 204 then s.store - {"sess:" + IdOf(w, s, e.req)} else s.store
  {
    hide SessionId;
  }

  lemma GetUserAnswersExactly(w: World, s: State, e: Event)
    requires e.GetUser?
    ensures var (s', r) := Step(w, s, e);
            && r == (if !InStore(s.store, IdOf(w, s, e.req)) || e.req.faults.auth then Response(401, Nothing, None)
                     else if e.req.faults.get then Response(500, Nothing, None)
                     else Response(200, Profile(s.store["sess:" + IdOf(w, s, e.req)]), None))
            && s'.db == s.db && s'.store == s.store
  {
    hide SessionId;
  }

  lemma DrawsOfLogin(w: World, s: State, e: Event)
    requires LetIn(w, s, e)
    ensures var s' := Step(w, s, e).0;
            var used := s.drawn + if e.req.session == [] then 1 else 0;
            && used < s'.drawn && Accepts(w, s, e.req.faults.check, s'.drawn - 1)
            && (forall k :: used <= k < s'.drawn - 1 ==> !Accepts(w, s, e.req.faults.check, k))
            && Step(w, s, e).1.cookie == Some(SessionId(w.random(s'.drawn - 1)))
  {
    forall k: nat
      ensures Passes(w, s.store, e.req.faults.check, k) <==> Accepts(w, s, e.req.faults.check, k)
    {
      DefinitionsAgree(w, s, e.req, k);
    }
    hide Accepts, Admitted, Trim, Key, FindRow, Reaches, Marked, Put, Passes, SessionId, Authenticated;
    var check, from := e.req.faults.check, Identify(w, s, e.req.session).1.drawn;
    assert FirstPasses(w, s.store, check, from, NextPasses(w, s.store, check, from));
  }

  lemma DrawsOfOthers(w: World, s: State, e: Event)
    requires !LetIn(w, s, e)
    ensures Step(w, s, e).0.drawn == s.drawn + if e.req.session == [] then 1 else 0
  {
    hide Admitted, Objection, Trim, Key, FindRow, AddRow, Reaches, Marked, Put, Passes, SomePasses, SessionId;
    hide Authenticated;
  }

  /**
   * No random number is used twice: a request without an id uses up one, a login that is let in those up to the first
   * one that its collision check accepts, and the rest of the requests none.
   */
  lemma DrawsExactly(w: World, s: State, e: Event)
    ensures var s' := Step(w, s, e).0;
            var used := s.drawn + if e.req.session == [] then 1 else 0;
            if LetIn(w, s, e) then
              && used < s'.drawn && Accepts(w, s, e.req.faults.check, s'.drawn - 1)
              && (forall k :: used <= k < s'.drawn - 1 ==> !Accepts(w, s, e.req.faults.check, k))
              && Step(w, s, e).1.cookie == Some(SessionId(w.random(s'.drawn - 1)))
            else s'.drawn == used
  {
    hide Step, LetIn, Accepts, SessionId;
    if LetIn(w, s, e) {
      DrawsOfLogin(w, s, e);
    } else {
      DrawsOfOthers(w, s, e);
    }
  }

  // ---------- Whose session an id is ----------

  // The event logs out of the id, or is a login that draws it and has it stored.
  ghost predicate Touches(w: World, s: State, e: Event, sid: Str) {
    || (e.Logout? && Step(w, s, e).1.status == 204 && Identify(w, s, e.req.session).0 == sid)
    || (LetIn(w, s, e) && !e.req.faults.put && Step(w, s, e).1.cookie == Some(sid))
  }

  lemma TouchedWhenWritten(w: World, s: State, e: Event, sid: Str)
    ensures Written(w, s, e) == Some(Key(sid)) <==>
            LetIn(w, s, e) && !e.req.faults.put && Step(w, s, e).1.cookie == Some(sid)
    ensures Removed(w, s, e) == Some(Key(sid)) <==>
            e.Logout? && Step(w, s, e).1.status == 204 && Identify(w, s, e.req.session).0 == sid
  {
    if Written(w, s, e) == Some(Key(sid)) {
      KeyIsInjective(Step(w, s, e).1.cookie.value, sid);
    }
    if Removed(w, s, e) == Some(Key(sid)) {
      KeyIsInjective(Identify(w, s, e.req.session).0, sid);
    }
    hide Key, Identify;
  }

  /** A request under any other id leaves a session as it is, whether or not it is there. */
  lemma OthersLeaveItAlone(w: World, s: State, e: Event, sid: Str)
    requires Valid(s) && !Touches(w, s, e, sid)
    ensures var s' := Step(w, s, e).0;
            && (Key(sid) in s'.store <==> Key(sid) in s.store)
            && (Key(sid) in s.store ==> s'.store[Key(sid)] == s.store[Key(sid)])
  {
    StepIsLocal(w, s, e);
    TouchedWhenWritten(w, s, e, sid);
    hide Valid, Grows, Admitted, Key, Identify, WrittenUnchecked, Written, Removed, Step;
  }

  /** What it takes for an event to end a session, on ids: a logout of it, or an unchecked login that draws it. */
  lemma KeepsById(w: World, s: State, e: Event, sid: Str)
    ensures Keeps(w, s, e, sid) <==>
            && !(e.Logout? && Step(w, s, e).1.status == 204 && Identify(w, s, e.req.session).0 == sid)
            && !(LetIn(w, s, e) && !e.req.faults.put && Step(w, s, e).1.cookie == Some(sid)
                 && 0 < Step(w, s, e).0.drawn && e.req.faults.check(Step(w, s, e).0.drawn - 1))
  {
    TouchedWhenWritten(w, s, e, sid);
    hide Key, Identify, Written, Removed, Step;
  }

  // The i-th event is the login that set this id as its cookie, for this user.
  ghost predicate LoggedInAt(w: World, s: State, events: seq<Event>, i: nat, sid: Str, user: SessionUser) {
    && i < |events| && events[i].Login?
    && var before := Before(w, s, events, i);
       && LetIn(w, before, events[i]) && Step(w, before, events[i]).1.cookie == Some(sid)
       && Admitted(w, before.db, events[i].req) == Some(user)
  }

  /**
   * In every run from nothing, get-user answers 200 only under an id that a login of the run set as its cookie, and
   * with the user that login was for.
   */
  lemma ServedOnlyAfterLogin(w: World, clients: seq<Postgres.Client>, events: seq<Event>, get: Event)
    returns (i: nat, user: SessionUser)
    requires get.GetUser? && Step(w, After(w, Start(clients), events), get).1.status == 200
    ensures Step(w, After(w, Start(clients), events), get).1 == Response(200, Profile(user), None)
    ensures var sid := IdOf(w, After(w, Start(clients), events), get.req);
            LoggedInAt(w, Start(clients), events, i, sid, user)
  {
    var t := After(w, Start(clients), events);
    var sid := Identify(w, t, get.req.session).0;
    GetUserAnswersExactly(w, t, get);
    DefinitionsAgree(w, t, get.req, 0);
    assert "sess:" + sid == Key(sid);
    hide Step, After, Key, SessionId, Admitted, Identify, IdOf;
    user := t.store[Key(sid)];
    i := EverySessionWasWritten(w, clients, events, Key(sid));
    TouchedWhenWritten(w, Before(w, Start(clients), events, i), events[i], sid);
    hide WrittenUnchecked;
  }
}
