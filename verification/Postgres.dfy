/** One query through the pool, with preparation on failure: db/core/pg.cpp. */
module Postgres {
  import opened Strings
  import Threads = Pool

  type Client = Threads.Client

  datatype Statement = Statement(name: Str, query: Str)

  // What the server does with a query it has prepared: carry it out and answer with rows, or refuse it, naming the
  // constraint that is violated if it is one, and change nothing.
  datatype Reply<Db> = Done(db: Db, rows: seq<seq<Str>>) | Refused(constraint: Str)

  // The database behind libpq during one call: how it runs a query on values, and which query texts it can prepare.
  datatype Backend<!Db> = Backend(run: (Db, Str, seq<Str>) -> Reply<Db>, parses: Str -> bool)

  // A result object: rows, or PGRES_FATAL_ERROR.
  datatype Answer = Rows(rows: seq<seq<Str>>) | Fatal(constraint: Str)

  // The server's side: the data, and the statements each connection has prepared.
  datatype Server<Db> = Server(db: Db, prepared: map<Client, map<Str, Str>>)

  function Prepared(prepared: map<Client, map<Str, Str>>, c: Client): map<Str, Str> {
    if c in prepared then prepared[c] else map[]
  }

  /** PQexecPrepared: an unknown name is a fatal error. */
  function ExecPrepared<Db>(b: Backend<Db>, s: Server<Db>, c: Client, name: Str, values: seq<Str>)
    : (Server<Db>, Answer)
  {
    if name !in Prepared(s.prepared, c) then (s, Fatal([]))
    else
      match b.run(s.db, Prepared(s.prepared, c)[name], values)
      case Done(db, rows) => (s.(db := db), Rows(rows))
      case Refused(constraint) => (s, Fatal(constraint))
  }

  /** PQprepare: a name already taken, or a text that does not parse, is an error. */
  function Prepare<Db>(b: Backend<Db>, s: Server<Db>, c: Client, name: Str, query: Str): (Server<Db>, bool) {
    if name in Prepared(s.prepared, c) || !b.parses(query) then (s, false)
    else (s.(prepared := s.prepared[c := Prepared(s.prepared, c)[name := query]]), true)
  }

  /** The query text a call runs on connection `c`, if it runs one. */
  function RunsOn<Db>(b: Backend<Db>, prepared: map<Client, map<Str, Str>>, c: Client, st: Statement): Option<Str> {
    if st.name in Prepared(prepared, c) then Some(Prepared(prepared, c)[st.name])
    else if b.parses(st.query) then Some(st.query)
    else None
  }

  /** The server after that text ran once, at most one effect and none if it was refused, and its answer. */
  function RanOnce<Db>(b: Backend<Db>, s: Server<Db>, c: Client, st: Statement, values: seq<Str>)
    : (Server<Db>, Answer)
  {
    var ran := RunsOn(b, s.prepared, c, st);
    if ran.None? then (s, Fatal([]))
    else
      var prepared := s.prepared[c := Prepared(s.prepared, c)[st.name := ran.value]];
      match b.run(s.db, ran.value, values)
      case Done(db, rows) => (Server(db, prepared), Rows(rows))
      case Refused(constraint) => (Server(s.db, prepared), Fatal(constraint))
  }

  /** One call takes the front client and puts it back at the end. */
  function Turn(deque: seq<Client>): seq<Client>
    requires deque != []
  {
    deque[1..] + [deque[0]]
  }

  lemma KeptName(prepared: map<Client, map<Str, Str>>, c: Client, name: Str)
    ensures name in Prepared(prepared, c) ==>
              prepared[c := Prepared(prepared, c)[name := Prepared(prepared, c)[name]]] == prepared
  {
    if name in Prepared(prepared, c) {
      assert Prepared(prepared, c)[name := Prepared(prepared, c)[name]] == prepared[c];
    }
  }

  lemma {:induction false} AllBelow(s: set<nat>) returns (bound: nat)
    ensures forall x :: x in s ==> x < bound
    decreases |s|
  {
    bound := 0;
    if x :| x in s {
      var rest := AllBelow(s - {x});
      bound := if x < rest then rest else x + 1;
      assert forall y :: y in s ==> y == x || y in s - {x};
    }
  }

  lemma {:induction false} UnusedExists(s: set<nat>)
    ensures exists n: nat :: n !in s
  {
    var bound := AllBelow(s);
    assert bound !in s;
  }

  ghost function Unused(s: set<nat>): (n: nat)
    ensures n !in s
  {
    UnusedExists(s);
    var n: nat :| n !in s;
    n
  }

  class Pool<!Db> {
    var pool: seq<Client>
    var semaphore: nat
    var statementCount: nat
    // The world outside: the server, and the result objects that are allocated and not yet cleared.
    var server: Server<Db>
    ghost var results: set<nat>

    constructor (clients: seq<Client>, db: Db)
      ensures pool == clients && semaphore == |clients| && statementCount == 0
      ensures server == Server(db, map[]) && results == {}
    {
      pool, semaphore, statementCount := clients, |clients|, 0;
      server, results := Server(db, map[]), {};
    }

    /** Acquire does not return while the count is zero. */
    method GetClient() returns (c: Client)
      requires 0 < semaphore <= |pool|
      modifies this`pool, this`semaphore
      ensures c == old(pool)[0] && pool == old(pool)[1..] && semaphore == old(semaphore) - 1
    {
      semaphore := semaphore - 1;
      c := pool[0];
      pool := pool[1..];
    }

    method ReleaseClient(c: Client)
      modifies this`pool, this`semaphore
      ensures pool == old(pool) + [c] && semaphore == old(semaphore) + 1
    {
      pool := pool + [c];
      semaphore := semaphore + 1;
    }

    /** The counter is read under its mutex and never moved. */
    method GetName() returns (name: Str)
      ensures name == Decimal(statementCount)
    {
      name := Decimal(statementCount);
    }

    method MakeStatement(query: Str) returns (st: Statement)
      ensures st == Statement(Decimal(statementCount), query)
    {
      var name := GetName();
      st := Statement(name, query);
    }

    method PQexecPrepared(b: Backend<Db>, c: Client, name: Str, values: seq<Str>)
      returns (ghost result: nat, answer: Answer)
      modifies this`server, this`results
      ensures (server, answer) == ExecPrepared(b, old(server), c, name, values)
      ensures result !in old(results) && results == old(results) + {result}
    {
      var r := ExecPrepared(b, server, c, name, values);
      server, answer := r.0, r.1;
      result := Unused(results);
      results := results + {result};
    }

    method PQprepare(b: Backend<Db>, c: Client, name: Str, query: Str) returns (ghost result: nat, ok: bool)
      modifies this`server, this`results
      ensures (server, ok) == Prepare(b, old(server), c, name, query)
      ensures result !in old(results) && results == old(results) + {result}
    {
      var r := Prepare(b, server, c, name, query);
      server, ok := r.0, r.1;
      result := Unused(results);
      results := results + {result};
    }

    /** A result may be cleared once: afterwards it is no longer there to be cleared. */
    ghost method PQclear(result: nat)
      requires result in results
      modifies this`results
      ensures results == old(results) - {result}
    {
      results := results - {result};
    }

    /**
     * At most one query text runs, once; the client comes back to the end of the deque; of the two or three
     * result objects the call makes, all but the one it hands on are cleared.
     */
    method QueryWithFallback(b: Backend<Db>, st: Statement, values: seq<Str>)
      returns (ghost result: nat, answer: Answer)
      requires 0 < semaphore <= |pool|
      modifies this`pool, this`semaphore, this`server, this`results
      ensures (server, answer) == RanOnce(b, old(server), old(pool)[0], st, values)
      ensures pool == Turn(old(pool)) && semaphore == old(semaphore)
      ensures result !in old(results) && results == old(results) + {result}
    {
      var client := GetClient();
      result, answer := PQexecPrepared(b, client, st.name, values);
      if answer.Fatal? {
        ghost var rtmp: nat;
        var prepared: bool;
        rtmp, prepared := PQprepare(b, client, st.name, st.query);
        if prepared {
          PQclear(result);
          result, answer := PQexecPrepared(b, client, st.name, values);
        }
        PQclear(rtmp);
      }
      KeptName(old(server).prepared, client, st.name);
      ReleaseClient(client);
    }

    /** On an error the result is cleared, otherwise it is handed on: never both, never neither. */
    method Query(b: Backend<Db>, st: Statement, values: seq<Str>) returns (ghost handed: Option<nat>, answer: Answer)
      requires 0 < semaphore <= |pool|
      modifies this`pool, this`semaphore, this`server, this`results
      ensures (server, answer) == RanOnce(b, old(server), old(pool)[0], st, values)
      ensures pool == Turn(old(pool)) && semaphore == old(semaphore)
      ensures answer.Rows? <==> handed.Some?
      ensures handed.Some? ==> handed.value !in old(results) && results == old(results) + {handed.value}
      ensures handed.None? ==> results == old(results)
    {
      ghost var result: nat;
      result, answer := QueryWithFallback(b, st, values);
      if answer.Fatal? {
        PQclear(result);
        handed := None;
      } else {
        handed := Some(result);
      }
    }
  }

  // ---------- Which connection a call gets ----------

  function Together(t: nat): seq<Threads.Step> {
    [Threads.Acquire(t)] + [Threads.Take(t)] + [Threads.PushBack(t)] + [Threads.Release(t)]
  }

  function Apart(t: nat): seq<Threads.Step> {
    [Threads.Acquire(t)] + [Threads.Front(t)] + [Threads.PopFront(t)] + [Threads.PushBack(t)] + [Threads.Release(t)]
  }

  // The pool once thread t is past its acquire, with the client at the front or without.
  function Inside(s: Threads.State, t: nat, deque: seq<Client>, th: Threads.Thread): Threads.State
    requires t < |s.threads| && s.semaphore > 0
  {
    s.(semaphore := s.semaphore - 1, deque := deque, threads := s.threads[t := th])
  }

  lemma Acquires(s: Threads.State, t: nat)
    requires t < |s.threads| && s.threads[t].Idle? && s.semaphore > 0
    ensures Threads.Exec(s, [Threads.Acquire(t)]) == Inside(s, t, s.deque, Threads.Acquired)
  {
    Threads.ExecThen(s, [], Threads.Acquire(t));
    assert [] + [Threads.Acquire(t)] == [Threads.Acquire(t)];
  }

  lemma PutsBack(s: Threads.State, t: nat, taken: seq<Threads.Step>)
    requires t < |s.threads| && s.threads[t].Idle? && s.semaphore > 0 && s.deque != []
    requires Threads.Exec(s, taken) == Inside(s, t, s.deque[1..], Threads.Holding(s.deque[0]))
    ensures Threads.Exec(s, taken + [Threads.PushBack(t)] + [Threads.Release(t)]) == s.(deque := Turn(s.deque))
  {
    Threads.ExecThen(s, taken, Threads.PushBack(t));
    Threads.ExecThen(s, taken + [Threads.PushBack(t)], Threads.Release(t));
    hide Threads.Exec;
    assert Threads.Exec(s, taken + [Threads.PushBack(t)]) == Inside(s, t, Turn(s.deque), Threads.Pushed);
    assert s.threads[t := Threads.Pushed][t := Threads.Idle] == s.threads;
  }

  /**
   * A call's turn of the deque is what one thread's way through get_client and release_client makes of the pool of
   * threads, whether it looks at the front and pops it in one step or in two.
   */
  lemma TurnIsOneThread(s: Threads.State, t: nat)
    requires t < |s.threads| && s.threads[t].Idle? && s.semaphore > 0 && s.deque != []
    ensures Threads.Exec(s, Together(t)) == Threads.Exec(s, Apart(t)) == s.(deque := Turn(s.deque))
  {
    var start := [Threads.Acquire(t)];
    Acquires(s, t);
    Threads.ExecThen(s, start, Threads.Take(t));
    Threads.ExecThen(s, start, Threads.Front(t));
    Threads.ExecThen(s, start + [Threads.Front(t)], Threads.PopFront(t));
    hide Threads.Exec;
    PutsBack(s, t, start + [Threads.Take(t)]);
    PutsBack(s, t, start + [Threads.Front(t)] + [Threads.PopFront(t)]);
  }

  function Turns(deque: seq<Client>, k: nat): (d: seq<Client>)
    requires deque != []
    ensures |d| == |deque|
  {
    if k == 0 then deque else Turn(Turns(deque, k - 1))
  }

  lemma MultipleIsLarge(d: int, n: nat)
    ensures d >= 1 ==> d * n >= n
    ensures d <= -1 ==> d * n <= -(n as int)
  {
    if d >= 1 {
      assert (d - 1) * n >= 0;
    } else if d <= -1 {
      assert (-d - 1) * n >= 0;
    }
  }

  lemma RemainderIs(k: nat, q: nat, r: nat, n: nat)
    requires r < n && k == q * n + r
    ensures k % n == r
  {
    assert k == (k / n) * n + k % n;
    assert (q - k / n) * n == k % n - r;
    MultipleIsLarge(q - k / n, n);
  }

  lemma NextIndex(k: nat, n: nat)
    requires n > 0
    ensures (k + 1) % n == if k % n + 1 == n then 0 else k % n + 1
  {
    var q, r := k / n, k % n;
    assert k == q * n + r;
    if r + 1 == n {
      assert (q + 1) * n == q * n + n;
      RemainderIs(k + 1, q + 1, 0, n);
    } else {
      RemainderIs(k + 1, q, r + 1, n);
    }
  }

  lemma TurnRotates(clients: seq<Client>, r: nat)
    requires r < |clients|
    ensures Turn(clients[r..] + clients[..r]) ==
            if r + 1 == |clients| then clients[0..] + clients[..0] else clients[r + 1..] + clients[..r + 1]
  {
    assert (clients[r..] + clients[..r])[1..] == clients[r + 1..] + clients[..r];
    assert clients[..r] + [clients[r]] == clients[..r + 1];
  }

  /** With N clients in the deque, call number k, counted from zero, gets the client with number k mod N. */
  lemma {:induction false} ClientOfCall(clients: seq<Client>, k: nat)
    requires clients != []
    ensures var r := k % |clients|; Turns(clients, k) == clients[r..] + clients[..r]
    ensures Turns(clients, k)[0] == clients[k % |clients|]
    decreases k
  {
    if k > 0 {
      ClientOfCall(clients, k - 1);
      NextIndex(k - 1, |clients|);
      var r := (k - 1) % |clients|;
      TurnRotates(clients, r);
    }
  }

  // ---------- Which query a call runs ----------

  // A call: the connection it got, the statement, the values, and the database as it is then.
  datatype Call<!Db> = Call(c: Client, st: Statement, values: seq<Str>, b: Backend<Db>)

  function After<Db>(s: Server<Db>, calls: seq<Call<Db>>): Server<Db> {
    if calls == [] then s
    else
      var last := calls[|calls| - 1];
      RanOnce(last.b, After(s, calls[..|calls| - 1]), last.c, last.st, last.values).0
  }

  /** The text of the first call that used a name on a connection with a text the database could prepare. */
  function FirstText<Db>(calls: seq<Call<Db>>, c: Client, name: Str): Option<Str> {
    if calls == [] then None
    else
      var before, last := FirstText(calls[..|calls| - 1], c, name), calls[|calls| - 1];
      if before.Some? then before
      else if last.c == c && last.st.name == name && last.b.parses(last.st.query) then Some(last.st.query)
      else None
  }

  /** What one call leaves under a name on a connection. */
  lemma RunMarks<Db>(
      b: Backend<Db>, s: Server<Db>, at: Client, st: Statement, values: seq<Str>, c: Client, name: Str)
    ensures var p, later := Prepared(s.prepared, c), Prepared(RanOnce(b, s, at, st, values).0.prepared, c);
            && (name in later <==> name in p || (at == c && st.name == name && b.parses(st.query)))
            && (name in p ==> later[name] == p[name])
            && (name in later && name !in p ==> later[name] == st.query)
  {
  }

  /** A name on a connection stands for the first text that was prepared under it, for ever. */
  lemma {:induction false} NameStandsForFirstText<Db>(db: Db, calls: seq<Call<Db>>, c: Client, name: Str)
    ensures var p := Prepared(After(Server(db, map[]), calls).prepared, c);
            var first := FirstText(calls, c, name);
            (name in p <==> first.Some?) && (name in p ==> p[name] == first.value)
    decreases |calls|
  {
    if calls != [] {
      var last := calls[|calls| - 1];
      NameStandsForFirstText(db, calls[..|calls| - 1], c, name);
      RunMarks(last.b, After(Server(db, map[]), calls[..|calls| - 1]), last.c, last.st, last.values, c, name);
      hide RanOnce;
    }
  }

  /**
   * After any calls on fresh connections, a call runs its own text exactly when no other text was first to be
   * prepared under its name on the connection it got.
   */
  lemma RunsItsOwnTextExactly<Db>(db: Db, calls: seq<Call<Db>>, next: Call<Db>)
    requires next.b.parses(next.st.query)
    ensures RunsOn(next.b, After(Server(db, map[]), calls).prepared, next.c, next.st) == Some(next.st.query) <==>
            var first := FirstText(calls, next.c, next.st.name); first.None? || first.value == next.st.query
  {
    NameStandsForFirstText(db, calls, next.c, next.st.name);
  }

  lemma {:induction false} FirstTextStays<Db>(before: seq<Call<Db>>, first: Call<Db>, between: seq<Call<Db>>)
    requires FirstText(before, first.c, first.st.name).None? && first.b.parses(first.st.query)
    ensures FirstText(before + [first] + between, first.c, first.st.name) == Some(first.st.query)
    decreases |between|
  {
    var calls := before + [first] + between;
    if between == [] {
      assert calls == before + [first] && calls[..|calls| - 1] == before;
    } else {
      FirstTextStays(before, first, between[..|between| - 1]);
      assert calls[..|calls| - 1] == before + [first] + between[..|between| - 1];
    }
  }

  /**
   * get_name gives every statement the same name, so a connection runs only the first text ever prepared on
   * it: whatever was called in between, a call of another statement there runs the first one again.
   */
  lemma FirstStatementWins<Db>(
      db: Db, before: seq<Call<Db>>, first: Call<Db>, between: seq<Call<Db>>, next: Call<Db>)
    requires next.c == first.c && next.st.name == first.st.name
    requires FirstText(before, first.c, first.st.name).None? && first.b.parses(first.st.query)
    ensures RunsOn(next.b, After(Server(db, map[]), before + [first] + between).prepared, next.c, next.st)
         == Some(first.st.query)
  {
    FirstTextStays(before, first, between);
    NameStandsForFirstText(db, before + [first] + between, next.c, next.st.name);
  }
}
