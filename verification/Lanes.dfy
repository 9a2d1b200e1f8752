/**
 * Which connection a register or login gets in a run, which statement that connection answers, and so which of the
 * two use cases can succeed.
 */
module Lanes {
  import opened Strings
  import opened UserTable
  import opened Sessions
  import opened SessionRuns
  import Postgres

  type Call = Postgres.Call<map<Str, Row>>

  /** The call an event makes to the pool, if it makes one. */
  function CallOf(w: World, s: State, e: Event): Option<Call> {
    if s.db.deque == [] || Authenticated(w, s, e.req) then None
    else
      match e
      case Register(req, id) =>
        if Objection(w, req.body).Some? then None
        else
          var Credentials(username, password) := req.body.credentials;
          var values := [Trim(username), w.crypto.hash(password).value];
          Some(Postgres.Call(s.db.deque[0], Insert(), values, Database(id, req.down)))
      case Login(req) =>
        if !Filled(req.body) then None
        else Some(Postgres.Call(s.db.deque[0], Select(), [req.body.credentials.username], Database([], req.down)))
      case Logout(_) => None
      case GetUser(_) => None
  }

  ghost function Calls(w: World, s: State, events: seq<Event>): seq<Call> {
    if events == [] then []
    else
      var front := events[..|events| - 1];
      var call := CallOf(w, After(w, s, front), events[|events| - 1]);
      Calls(w, s, front) + if call.Some? then [call.value] else []
  }

  lemma StepCalls(w: World, s: State, e: Event)
    ensures var call, db := CallOf(w, s, e), Step(w, s, e).0.db;
            match call
            case None => db == s.db
            case Some(Call(c, st, values, b)) =>
              && s.db.deque != [] && db.deque == Postgres.Turn(s.db.deque) && c == s.db.deque[0]
              && Postgres.Server(db.users, db.prepared)
              == Postgres.RanOnce(b, Postgres.Server(s.db.users, s.db.prepared), c, st, values).0
  {
    hide Trim, Reaches, Marked, Key, SessionId, Database, Insert, Select, Admitted;
    if s.db.deque != [] && e.Register? && !Authenticated(w, s, e.req) && Objection(w, e.req.body).None? {
      var Credentials(username, password) := e.req.body.credentials;
      assert Step(w, s, e).0.db == AddRow(s.db, e.id, e.req.down, Trim(username), w.crypto.hash(password).value).0;
    }
  }

  // What the calls of a run from nothing make of the table, and the client each of them gets.
  ghost predicate Follows(clients: seq<Postgres.Client>, calls: seq<Call>, db: UserDb) {
    && Postgres.Server(db.users, db.prepared) == Postgres.After(Postgres.Server(map[], map[]), calls)
    && (clients == [] ==> calls == [] && db.deque == [])
    && (clients != [] ==> db.deque == Postgres.Turns(clients, |calls|))
    && forall i :: 0 <= i < |calls| ==> clients != [] && calls[i].c == clients[i % |clients|]
  }

  lemma FollowsOne(clients: seq<Postgres.Client>, calls: seq<Call>, db: UserDb, call: Call, later: UserDb)
    requires Follows(clients, calls, db) && db.deque != [] && call.c == db.deque[0]
    requires later.deque == Postgres.Turn(db.deque)
    requires Postgres.Server(later.users, later.prepared)
          == Postgres.RanOnce(call.b, Postgres.Server(db.users, db.prepared), call.c, call.st, call.values).0
    ensures Follows(clients, calls + [call], later)
  {
    Postgres.ClientOfCall(clients, |calls|);
    assert (calls + [call])[..|calls|] == calls;
    hide Postgres.RanOnce;
  }

  /** In every run the table is what the run's calls make of it, and call number i has client number i mod N. */
  lemma {:induction false} RunCalls(w: World, clients: seq<Postgres.Client>, events: seq<Event>)
    ensures Follows(clients, Calls(w, Start(clients), events), After(w, Start(clients), events).db)
    decreases |events|
  {
    if events != [] {
      var front, last := events[..|events| - 1], events[|events| - 1];
      RunCalls(w, clients, front);
      var s, calls := After(w, Start(clients), front), Calls(w, Start(clients), front);
      StepCalls(w, s, last);
      var call := CallOf(w, s, last);
      hide Step, CallOf, Follows, Postgres.RanOnce;
      if call.Some? {
        FollowsOne(clients, calls, s.db, call.value, After(w, Start(clients), events).db);
      } else {
        assert calls + [] == calls;
      }
    }
  }

  /**
   * In every run, a register or login would reach its own text exactly when no other text was first to be
   * prepared on the client whose turn it is.
   */
  lemma ReachesExactly(w: World, clients: seq<Postgres.Client>, events: seq<Event>, st: Postgres.Statement)
    requires clients != []
    ensures var calls := Calls(w, Start(clients), events);
            var first := Postgres.FirstText(calls, clients[|calls| % |clients|], Name());
            Reaches(After(w, Start(clients), events).db, st) <==> first.None? || first.value == st.query
  {
    var calls := Calls(w, Start(clients), events);
    RunCalls(w, clients, events);
    Postgres.ClientOfCall(clients, |calls|);
    Postgres.NameStandsForFirstText<map<Str, Row>>(map[], calls, clients[|calls| % |clients|], Name());
  }

  // ---------- Calls on any connections ----------

  // A call of one of the two queries of the table.
  ghost predicate IsQuery(call: Call) {
    exists id, down :: call.b == Database(id, down)
      && ((call.st == Select() && |call.values| == 1) || (call.st == Insert() && |call.values| == 2))
  }

  // The i-th of the calls gets rows, and not an error.
  ghost predicate GetsRows(calls: seq<Call>, i: nat)
    requires i < |calls|
  {
    var c := calls[i];
    Postgres.RanOnce(c.b, Postgres.After(Postgres.Server(map[], map[]), calls[..i]), c.c, c.st, c.values).1.Rows?
  }

  /** A query gets rows only when its own text runs. */
  lemma RowsMeanOwnText(s: Postgres.Server<map<Str, Row>>, call: Call)
    requires IsQuery(call) && Postgres.RanOnce(call.b, s, call.c, call.st, call.values).1.Rows?
    ensures Postgres.RunsOn(call.b, s.prepared, call.c, call.st) == Some(call.st.query) && call.b.parses(call.st.query)
  {
    TextsDiffer();
    hide SelectText, InsertText, Name, Fits, IdTaken;
  }

  lemma {:induction false} FirstTextKept(calls: seq<Call>, i: nat, j: nat, c: Postgres.Client, name: Str)
    requires i <= j <= |calls| && Postgres.FirstText(calls[..i], c, name).Some?
    ensures Postgres.FirstText(calls[..j], c, name) == Postgres.FirstText(calls[..i], c, name)
    decreases j
  {
    if i < j {
      FirstTextKept(calls, i, j - 1, c, name);
      assert calls[..j][..j - 1] == calls[..j - 1];
    }
  }

  lemma RowsMeanFirstText(calls: seq<Call>, i: nat)
    requires i < |calls| && IsQuery(calls[i]) && GetsRows(calls, i)
    ensures var first := Postgres.FirstText(calls[..i], calls[i].c, Name());
            first.None? || first.value == calls[i].st.query
    ensures Postgres.FirstText(calls[..i + 1], calls[i].c, Name()) == Some(calls[i].st.query)
  {
    RowsMeanOwnText(Postgres.After(Postgres.Server(map[], map[]), calls[..i]), calls[i]);
    Postgres.NameStandsForFirstText<map<Str, Row>>(map[], calls[..i], calls[i].c, Name());
    assert calls[..i + 1][..i] == calls[..i];
    hide SelectText, InsertText, Name, Execute, Postgres.After;
  }

  /**
   * Whatever connections calls get, as those of threads interleaved in any way do, an INSERT and a SELECT that both
   * get rows, in either order, were on different connections.
   */
  lemma NeverBothOnOneClient(calls: seq<Call>, i: nat, j: nat)
    requires i < |calls| && calls[i].st == Insert() && IsQuery(calls[i]) && GetsRows(calls, i)
    requires j < |calls| && calls[j].st == Select() && IsQuery(calls[j]) && GetsRows(calls, j)
    ensures calls[i].c != calls[j].c
  {
    TextsDiffer();
    RowsMeanFirstText(calls, i);
    RowsMeanFirstText(calls, j);
    hide Select, Insert, Name, GetsRows, IsQuery, Postgres.FirstText;
    if calls[i].c == calls[j].c {
      if i < j {
        FirstTextKept(calls, i + 1, j, calls[i].c, Name());
      } else if j < i {
        FirstTextKept(calls, j + 1, i, calls[j].c, Name());
      }
    }
  }

  // ---------- Register and login on one connection ----------

  ghost predicate Served(w: World, s: State, e: Event) {
    (e.Register? && Step(w, s, e).1.status == 201) || (e.Login? && Step(w, s, e).1.status == 204)
  }

  lemma AnsweredMeansReached(w: World, s: State, e: Event)
    requires Served(w, s, e)
    ensures var st := if e.Register? then Insert() else Select();
            && s.db.deque != [] && Reaches(s.db, st) && Lane(Step(w, s, e).0.db, s.db.deque[0]) == Some(st.query)
  {
    hide Trim, Key, SessionId, Name, InsertText, SelectText;
  }

  /** The connection that answered one of the two will not answer the other. */
  lemma LaneIsTaken(w: World, s: State, e: Event, t: State, later: Event)
    requires Grows(Step(w, s, e).0.db, t.db) && (e.Register? <==> later.Login?)
    requires Served(w, s, e) && Served(w, t, later)
    ensures s.db.deque != [] && t.db.deque != [] && s.db.deque[0] != t.db.deque[0]
  {
    AnsweredMeansReached(w, s, e);
    AnsweredMeansReached(w, t, later);
    TextsDiffer();
    hide Step, Lane, Select, Insert, Served;
  }

  lemma AfterOne(w: World, s: State, events: seq<Event>, i: nat)
    requires i < |events|
    ensures Before(w, s, events, i + 1) == Step(w, Before(w, s, events, i), events[i]).0
  {
    assert events[..i + 1][..i] == events[..i];
  }

  lemma LaterIsAfter(w: World, s: State, events: seq<Event>, i: nat, j: nat)
    requires i <= j <= |events| && Valid(s)
    ensures Valid(Before(w, s, events, i)) && Grows(Before(w, s, events, i).db, Before(w, s, events, j).db)
  {
    RunGrows(w, s, events[..i]);
    RunGrows(w, Before(w, s, events, i), events[i..j]);
    AfterConcat(w, s, events[..i], events[i..j]);
    assert events[..i] + events[i..j] == events[..j];
  }

  // In a run from nothing, event i is a registration answered 201 and event j a login answered 204.
  ghost predicate ServesBoth(w: World, clients: seq<Postgres.Client>, events: seq<Event>, i: nat, j: nat) {
    && i < |events| && events[i].Register? && Served(w, Before(w, Start(clients), events, i), events[i])
    && j < |events| && events[j].Login? && Served(w, Before(w, Start(clients), events, j), events[j])
  }

  ghost function FrontAt(w: World, clients: seq<Postgres.Client>, events: seq<Event>, i: nat): Option<Postgres.Client>
    requires i <= |events|
  {
    var deque := Before(w, Start(clients), events, i).db.deque;
    if deque == [] then None else Some(deque[0])
  }

  lemma LaneStaysTaken(w: World, s: State, events: seq<Event>, i: nat, j: nat)
    requires Valid(s) && i < j < |events| && (events[i].Register? <==> events[j].Login?)
    requires Served(w, Before(w, s, events, i), events[i]) && Served(w, Before(w, s, events, j), events[j])
    ensures var first, last := Before(w, s, events, i).db.deque, Before(w, s, events, j).db.deque;
            first != [] && last != [] && first[0] != last[0]
  {
    AfterOne(w, s, events, i);
    hide Step, Before, Served, Valid, Grows;
    LaterIsAfter(w, s, events, i + 1, j);
    LaneIsTaken(w, Before(w, s, events, i), events[i], Before(w, s, events, j), events[j]);
  }

  /** A connection that ever answered a registration never answers a login, before or after, and the other way round. */
  lemma NeverBothOnOneConnection(w: World, clients: seq<Postgres.Client>, events: seq<Event>, i: nat, j: nat)
    requires ServesBoth(w, clients, events, i, j)
    ensures FrontAt(w, clients, events, i).Some? && FrontAt(w, clients, events, j).Some?
    ensures FrontAt(w, clients, events, i) != FrontAt(w, clients, events, j)
  {
    assert Valid(Start(clients));
    hide Start, Served, Before, Valid;
    if i < j {
      LaneStaysTaken(w, Start(clients), events, i, j);
    } else {
      LaneStaysTaken(w, Start(clients), events, j, i);
    }
  }

  lemma AfterTheRest(w: World, s: State, events: seq<Event>, i: nat)
    requires i < |events|
    ensures After(w, Step(w, Before(w, s, events, i), events[i]).0, events[i + 1..]) == After(w, s, events)
  {
    hide Step, After;
    AfterOne(w, s, events, i);
    AfterConcat(w, s, events[..i + 1], events[i + 1..]);
    assert events[..i + 1] + events[i + 1..] == events;
  }

  /**
   * In a run from nothing, an account registered at event i can be logged in to after the last one exactly when
   * the database is up and the first text prepared on the client whose turn it is, if any, was the SELECT.
   */
  lemma LoginSucceedsExactly(
      w: World, clients: seq<Postgres.Client>, events: seq<Event>, i: nat, login: Event)
    requires clients != [] && i < |events|
    requires LogsInLater(w, Before(w, Start(clients), events, i), events[i], events[i + 1..], login)
    ensures var calls := Calls(w, Start(clients), events);
            var first := Postgres.FirstText(calls, clients[|calls| % |clients|], Name());
            var r := Step(w, After(w, Start(clients), events), login).1;
            && (r.status == 204 <==> !login.req.down && (first.None? || first.value == Select().query))
            && (r.status == 401 <==> r.status != 204)
  {
    var s := Before(w, Start(clients), events, i);
    AfterTheRest(w, Start(clients), events, i);
    hide Step, LogsInLater, Reaches, Before, After, Start, Written, SelectText, Name;
    RegisteredUserCanLogIn(w, s, events[i], events[i + 1..], login);
    ReachesExactly(w, clients, events, Select());
  }

  // ---------- Trying again ----------

  // The same login k times, with no other request in between.
  function Tries(login: Event, k: nat): seq<Event> { seq(k, _ => login) }

  // The state some draws later.
  function DrawsOn(s: State, j: nat): State { s.(drawn := s.drawn + j) }

  // A request that is not authenticated, with an id to draw.
  ghost predicate Ready(w: World, s: State, req: Request) {
    && !Authenticated(w, s, req)
    && SomePasses(w, s.store, req.faults.check, Identify(w, s, req.session).1.drawn)
  }

  ghost predicate ReadyFor(w: World, s: State, req: Request, n: nat) {
    forall j: nat :: j <= n ==> Ready(w, DrawsOn(s, j), req)
  }

  // A login that can fail only for the connection it gets.
  ghost predicate MayTry(w: World, s: State, login: Event, n: nat) {
    && Valid(s) && s.db.deque != [] && login.Login? && !login.req.down
    && Knows(w, s.db.users, login.req) && ReadyFor(w, s, login.req, n)
  }

  lemma LoginAsks(w: World, s: State, e: Event)
    requires e.Login? && Filled(e.req.body) && s.db.deque != [] && !Authenticated(w, s, e.req)
    ensures var s' := Step(w, s, e).0;
            && s'.db == FindRow(s.db, e.req.down, e.req.body.credentials.username).0
            && (Admitted(w, s.db, e.req).None? ==> s.drawn <= s'.drawn <= s.drawn + 1)
  {
    hide Admitted, Trim, SessionId, Key, FindRow, Reaches, Marked;
  }

  /** One try: let in exactly when its connection answers the SELECT, and otherwise it costs a turn of the deque. */
  lemma OneTry(w: World, s: State, login: Event, n: nat)
    requires MayTry(w, s, login, n)
    ensures var (s', r) := Step(w, s, login);
            if Answers(s.db, s.db.deque[0], Select()) then r.status == 204
            else
              && r.status == 401 && s'.store == s.store && s.drawn <= s'.drawn <= s.drawn + 1
              && s'.db == s.db.(deque := Postgres.Turn(s.db.deque))
  {
    assert DrawsOn(s, 0) == s;
    assert Ready(w, s, login.req);
    AdmittedExactly(w, s.db, login.req);
    hide Step, ReadyFor, Authenticated, SomePasses, Identify, Valid, Admitted, Trim, Select, FindRow;
    LoginIsAnswered(w, s, login);
    LoginAsks(w, s, login);
    LoginEffect(w, s, login);
  }

  lemma FrontOfTurn(clients: seq<Postgres.Client>, k: nat)
    requires k < |clients|
    ensures Postgres.Turns(clients, k)[0] == clients[k]
    ensures Postgres.Turns(clients, k + 1) == Postgres.Turn(Postgres.Turns(clients, k))
  {
    Postgres.ClientOfCall(clients, k);
    Postgres.RemainderIs(k, 0, k, |clients|);
    hide Postgres.Turn;
  }

  lemma SameAnswers(db: UserDb, later: UserDb, c: Postgres.Client)
    requires later.prepared == db.prepared
    ensures Answers(later, c, Select()) == Answers(db, c, Select())
  {
  }

  lemma SameReady(w: World, s: State, t: State, req: Request)
    requires t.store == s.store && t.drawn == s.drawn
    ensures Ready(w, t, req) == Ready(w, s, req)
  {
    hide Key, SessionId, SomePasses;
  }

  lemma MayTryAgain(w: World, s: State, login: Event, t: State, k: nat, n: nat)
    requires MayTry(w, s, login, n) && k <= n && t.db.users == s.db.users && t.db.deque != []
    requires t.store == s.store && s.drawn <= t.drawn <= s.drawn + k
    ensures MayTry(w, t, login, n - k)
  {
    hide Knows, UsersOk, Registered, Ready;
    forall j: nat | j <= n - k
      ensures Ready(w, DrawsOn(t, j), login.req)
    {
      var d := t.drawn + j - s.drawn;
      assert Ready(w, DrawsOn(s, d), login.req);
      SameReady(w, DrawsOn(s, d), DrawsOn(t, j), login.req);
    }
  }

  // What k failed tries leave behind.
  ghost predicate Tried(s: State, t: State, k: nat)
    requires s.db.deque != []
  {
    t.store == s.store && s.drawn <= t.drawn <= s.drawn + k && t.db == s.db.(deque := Postgres.Turns(s.db.deque, k))
  }

  /** The next try, after k that failed. */
  lemma NextTry(w: World, s: State, login: Event, t: State, k: nat, n: nat)
    requires MayTry(w, s, login, n) && k <= n && k < |s.db.deque| && Tried(s, t, k)
    ensures Step(w, t, login).1.status == 204 <==> Answers(s.db, s.db.deque[k], Select())
    ensures Step(w, t, login).1.status != 204 ==> Tried(s, Step(w, t, login).0, k + 1)
  {
    FrontOfTurn(s.db.deque, k);
    MayTryAgain(w, s, login, t, k, n);
    SameAnswers(s.db, t.db, s.db.deque[k]);
    hide Step, MayTry, Answers, Postgres.Turns, Postgres.Turn;
    OneTry(w, t, login, n - k);
  }

  lemma {:induction false} TriesFail(w: World, s: State, login: Event, k: nat, n: nat)
    requires k <= n && k <= |s.db.deque| && MayTry(w, s, login, n)
    requires forall i :: 0 <= i < k ==> !Answers(s.db, s.db.deque[i], Select())
    ensures Tried(s, After(w, s, Tries(login, k)), k)
    decreases k
  {
    if k > 0 {
      TriesFail(w, s, login, k - 1, n);
      assert Tries(login, k)[..k - 1] == Tries(login, k - 1);
      hide Step, MayTry, Answers, Tried;
      NextTry(w, s, login, After(w, s, Tries(login, k - 1)), k - 1, n);
    }
  }

  /** The first try that gets a client which answers the SELECT is let in, and no earlier one. */
  lemma TryNumber(w: World, s: State, login: Event, k: nat)
    requires k < |s.db.deque| && MayTry(w, s, login, |s.db.deque|)
    requires forall i :: 0 <= i < k ==> !Answers(s.db, s.db.deque[i], Select())
    ensures Step(w, After(w, s, Tries(login, k)), login).1.status == 204 <==>
            Answers(s.db, s.db.deque[k], Select())
  {
    hide Step, MayTry, Answers, After, Tried;
    TriesFail(w, s, login, k, |s.db.deque|);
    NextTry(w, s, login, After(w, s, Tries(login, k)), k, |s.db.deque|);
  }

  lemma {:induction false} FirstAnswering(db: UserDb, i: nat) returns (k: nat)
    requires i < |db.deque| && Answers(db, db.deque[i], Select())
    ensures k <= i && Answers(db, db.deque[k], Select())
    ensures forall j :: 0 <= j < k ==> !Answers(db, db.deque[j], Select())
    decreases i
  {
    hide Answers;
    if j :| 0 <= j < i && Answers(db, db.deque[j], Select()) {
      k := FirstAnswering(db, j);
    } else {
      k := i;
    }
  }

  /**
   * From any state, a user who has an account and tries again and again is let in within one round of the deque
   * exactly when some client in it has the SELECT, or nothing, under the shared name.
   */
  lemma RetriesSucceedExactly(w: World, s: State, login: Event)
    requires MayTry(w, s, login, |s.db.deque|)
    ensures (exists k :: 0 <= k < |s.db.deque| && Step(w, After(w, s, Tries(login, k)), login).1.status == 204) <==>
            (exists i :: 0 <= i < |s.db.deque| && Answers(s.db, s.db.deque[i], Select()))
  {
    hide Step, After, MayTry, Answers, Tries;
    if i :| 0 <= i < |s.db.deque| && Answers(s.db, s.db.deque[i], Select()) {
      var k := FirstAnswering(s.db, i);
      TryNumber(w, s, login, k);
    } else {
      forall k: nat | k < |s.db.deque|
        ensures Step(w, After(w, s, Tries(login, k)), login).1.status != 204
      {
        TryNumber(w, s, login, k);
      }
    }
  }

  /** So it is for a registered account, in any state its registration leads to. */
  lemma RegisteredUserGetsInWithinARound(w: World, s: State, e: Event, between: seq<Event>, login: Event)
    requires Valid(s) && Sound(w.crypto) && e.Register? && e.req.body.Sent? && Step(w, s, e).1.status == 201
    requires login.Login? && !login.req.down && login.req.body == LoginBody(e.req)
    requires var t := After(w, Step(w, s, e).0, between); ReadyFor(w, t, login.req, |t.db.deque|)
    ensures var t := After(w, Step(w, s, e).0, between);
            (exists k :: 0 <= k < |t.db.deque| && Step(w, After(w, t, Tries(login, k)), login).1.status == 204) <==>
            (exists i :: 0 <= i < |t.db.deque| && Answers(t.db, t.db.deque[i], Select()))
  {
    hide Step, After, Answers, Tries, Valid, Sound, Knows, ReadyFor, LoginBody;
    RegisteredUserKnows(w, s, e, between, login.req);
    RetriesSucceedExactly(w, After(w, Step(w, s, e).0, between), login);
  }

  // ---------- How many connections the server needs ----------

  ghost predicate CanServeBoth(w: World, clients: seq<Postgres.Client>) {
    exists events, i, j :: ServesBoth(w, clients, events, i, j)
  }

  predicate TwoConnections(clients: seq<Postgres.Client>) {
    exists i :: 0 < i < |clients| && clients[i] != clients[0]
  }

  lemma FrontIsAClient(w: World, clients: seq<Postgres.Client>, events: seq<Event>)
    ensures var deque := After(w, Start(clients), events).db.deque;
            deque != [] ==> exists k :: 0 <= k < |clients| && deque[0] == clients[k]
  {
    RunCalls(w, clients, events);
    var calls := Calls(w, Start(clients), events);
    if clients != [] {
      Postgres.ClientOfCall(clients, |calls|);
      assert 0 <= |calls| % |clients| < |clients|;
    }
  }

  lemma OneConnectionIsNotEnough(w: World, clients: seq<Postgres.Client>)
    requires CanServeBoth(w, clients)
    ensures TwoConnections(clients)
  {
    var events, i, j :| ServesBoth(w, clients, events, i, j);
    NeverBothOnOneConnection(w, clients, events, i, j);
    FrontIsAClient(w, clients, events[..i]);
    FrontIsAClient(w, clients, events[..j]);
  }

  lemma FirstAndLast(w: World, s: State, e: Event, between: seq<Event>, last: Event)
    ensures var events := [e] + between + [last];
            && events[0] == e && Before(w, s, events, 0) == s
            && events[|between| + 1] == last
            && Before(w, s, events, |between| + 1) == After(w, Step(w, s, e).0, between)
  {
    var events := [e] + between + [last];
    assert events[..0] == [] && events[..|between| + 1] == [e] + between;
    assert [e][..0] == [];
    AfterConcat(w, s, [e], between);
    hide Step;
    assert After(w, s, [e]) == Step(w, After(w, s, []), e).0;
  }

  // Credentials that can be registered: the server finds nothing wrong, and they fit the columns.
  predicate Registrable(w: World, body: Body) {
    && Objection(w, body).None?
    && Fits(Trim(body.credentials.username), w.crypto.hash(body.credentials.password).value)
  }

  lemma RegisterFromNothing(w: World, clients: seq<Postgres.Client>, e: Event)
    requires clients != [] && e.Register? && Registrable(w, e.req.body) && !e.req.down
    ensures Valid(Start(clients)) && e.req.body.Sent? && Step(w, Start(clients), e).1.status == 201
    ensures var s' := Step(w, Start(clients), e).0;
            && s'.store == map[] && s'.db.deque == Postgres.Turn(clients)
            && forall c :: c != clients[0] ==> Lane(s'.db, c).None?
  {
    hide Trim, Key, SessionId, Name, InsertText, SelectText, Fits;
  }

  lemma MayTryFromNothing(w: World, s: State, login: Event, n: nat)
    requires Valid(s) && s.store == map[] && s.db.deque != [] && login.Login? && !login.req.down
    requires Knows(w, s.db.users, login.req)
    ensures MayTry(w, s, login, n)
  {
    hide Valid, Knows;
    forall j: nat | j <= n
      ensures Ready(w, DrawsOn(s, j), login.req)
    {
      var from := Identify(w, DrawsOn(s, j), login.req.session).1.drawn;
      assert Passes(w, s.store, login.req.faults.check, from);
    }
  }

  lemma KnowsFromNothing(w: World, clients: seq<Postgres.Client>, e: Event, req: Request)
    requires Sound(w.crypto) && Valid(Start(clients)) && e.Register? && e.req.body.Sent?
    requires Step(w, Start(clients), e).1.status == 201 && req.body == LoginBody(e.req)
    ensures var s := Step(w, Start(clients), e).0; Valid(s) && s.db.deque != [] && Knows(w, s.db.users, req)
  {
    hide Step, Sound, Valid, Knows, LoginBody;
    RegisteredUserKnows(w, Start(clients), e, [], req);
  }

  lemma TwoConnectionsAreEnough(w: World, clients: seq<Postgres.Client>, e: Event)
    requires Sound(w.crypto) && TwoConnections(clients)
    requires e.Register? && Registrable(w, e.req.body) && !e.req.down
    ensures CanServeBoth(w, clients)
  {
    hide Step, Registrable, Sound, Start, Before, Lane, Valid, Knows, MayTry, LoginBody, After;
    var i :| 0 < i < |clients| && clients[i] != clients[0];
    RegisterFromNothing(w, clients, e);
    var login, s := Login(Request([], LoginBody(e.req), false, NoFaults())), Step(w, Start(clients), e).0;
    KnowsFromNothing(w, clients, e, login.req);
    MayTryFromNothing(w, s, login, |clients|);
    assert s.db.deque[i - 1] == clients[i];
    RetriesSucceedExactly(w, s, login);
    var k :| 0 <= k < |s.db.deque| && Step(w, After(w, s, Tries(login, k)), login).1.status == 204;
    FirstAndLast(w, Start(clients), e, Tries(login, k), login);
    assert ServesBoth(w, clients, [e] + Tries(login, k) + [login], 0, k + 1);
  }

  /**
   * A server ever answers both a registration and a login exactly when its pool has two different connections,
   * given that some credentials can be registered at all.
   */
  lemma BothAreServedExactlyWithTwoConnections(w: World, clients: seq<Postgres.Client>, body: Body)
    requires Sound(w.crypto) && Registrable(w, body)
    ensures CanServeBoth(w, clients) <==> TwoConnections(clients)
  {
    if CanServeBoth(w, clients) {
      OneConnectionIsNotEnough(w, clients);
    }
    if TwoConnections(clients) {
      TwoConnectionsAreEnough(w, clients, Register(Request([], body, false, NoFaults()), []));
    }
  }
}
