/**
 * The connection pool shared by server threads: a counting semaphore and a deque, get_client and release_client
 * in db/core/pg.cpp, get_context and release_context in interfaces/store/redis.cpp. Threads interleave step by step.
 */
module Pool {
  type Client = nat

  // Where a thread is between the statements of get_client and release_client.
  datatype Thread =
    | Idle
    | Acquired              // past semaphore.acquire()
    | Fronted(seen: Client) // past front(), not past pop_front()
    | Holding(client: Client)
    | Pushed                // past push_back(), not past semaphore.release()

  // `undefined` records that front() or pop_front() met an empty deque.
  datatype State = State(semaphore: nat, deque: seq<Client>, threads: seq<Thread>, undefined: bool)

  // `Take` is front() and pop_front() in one step.
  datatype Step =
    | Acquire(t: nat) | Front(t: nat) | PopFront(t: nat) | Take(t: nat) | PushBack(t: nat) | Release(t: nat)

  function Start(clients: seq<Client>, n: nat): State {
    State(|clients|, clients, seq(n, _ => Idle), false)
  }

  predicate Enabled(s: State, step: Step) {
    && step.t < |s.threads|
    && var th := s.threads[step.t];
       match step
       case Acquire(_) => th.Idle? && s.semaphore > 0
       case Front(_) => th.Acquired?
       case Take(_) => th.Acquired?
       case PopFront(_) => th.Fronted?
       case PushBack(_) => th.Holding?
       case Release(_) => th.Pushed?
  }

  function Put(s: State, t: nat, th: Thread): State
    requires t < |s.threads|
  {
    s.(threads := s.threads[t := th])
  }

  function Apply(s: State, step: Step): (s': State)
    requires Enabled(s, step)
    ensures |s'.threads| == |s.threads|
  {
    var t := step.t;
    match step
    case Acquire(_) => Put(s.(semaphore := s.semaphore - 1), t, Acquired)
    case Front(_) =>
      if s.deque == [] then s.(undefined := true) else Put(s, t, Fronted(s.deque[0]))
    case PopFront(_) =>
      if s.deque == [] then s.(undefined := true)
      else Put(s.(deque := s.deque[1..]), t, Holding(s.threads[t].seen))
    case Take(_) =>
      if s.deque == [] then s.(undefined := true)
      else Put(s.(deque := s.deque[1..]), t, Holding(s.deque[0]))
    case PushBack(_) => Put(s.(deque := s.deque + [s.threads[t].client]), t, Pushed)
    case Release(_) => Put(s.(semaphore := s.semaphore + 1), t, Idle)
  }

  /** A schedule: a step that is not enabled when its turn comes is a thread that waits. */
  function Exec(s: State, schedule: seq<Step>): (s': State)
    ensures |s'.threads| == |s.threads|
  {
    if schedule == [] then s
    else
      var before := Exec(s, schedule[..|schedule| - 1]);
      var step := schedule[|schedule| - 1];
      if Enabled(before, step) then Apply(before, step) else before
  }

  lemma ExecThen(s: State, schedule: seq<Step>, step: Step)
    ensures var before := Exec(s, schedule);
            Exec(s, schedule + [step]) == if Enabled(before, step) then Apply(before, step) else before
  {
    assert (schedule + [step])[..|schedule|] == schedule;
  }

  // Schedules in which the deque is read and popped in one step, and schedules in which it is not.
  predicate Atomic(schedule: seq<Step>) {
    forall i :: 0 <= i < |schedule| ==> !schedule[i].Front? && !schedule[i].PopFront?
  }

  predicate Separate(schedule: seq<Step>) { forall i :: 0 <= i < |schedule| ==> !schedule[i].Take? }

  predicate Distinct(clients: seq<Client>) {
    forall i, j :: 0 <= i < j < |clients| ==> clients[i] != clients[j]
  }

  // ---------- Counting threads ----------

  function Sum(weight: Thread -> nat, threads: seq<Thread>): nat {
    if threads == [] then 0
    else Sum(weight, threads[..|threads| - 1]) + weight(threads[|threads| - 1])
  }

  lemma {:induction false} SumUpdate(weight: Thread -> nat, threads: seq<Thread>, t: nat, th: Thread)
    requires t < |threads|
    ensures Sum(weight, threads[t := th]) + weight(threads[t]) == Sum(weight, threads) + weight(th)
    decreases |threads|
  {
    var front := threads[..|threads| - 1];
    if t < |front| {
      SumUpdate(weight, front, t, th);
      assert threads[t := th][..|threads| - 1] == front[t := th];
    } else {
      assert threads[t := th][..|threads| - 1] == front;
    }
  }

  lemma {:induction false} SumOfOne(weight: Thread -> nat, threads: seq<Thread>, t: nat)
    requires t < |threads|
    ensures Sum(weight, threads) >= weight(threads[t])
    decreases |threads|
  {
    if t < |threads| - 1 {
      SumOfOne(weight, threads[..|threads| - 1], t);
    }
  }

  lemma {:induction false} SumOfTwo(weight: Thread -> nat, threads: seq<Thread>, t: nat, u: nat)
    requires t < u < |threads|
    ensures Sum(weight, threads) >= weight(threads[t]) + weight(threads[u])
    decreases |threads|
  {
    if u < |threads| - 1 {
      SumOfTwo(weight, threads[..|threads| - 1], t, u);
    } else {
      SumOfOne(weight, threads[..|threads| - 1], t);
    }
  }

  lemma {:induction false} SumOfNone(weight: Thread -> nat, threads: seq<Thread>)
    requires forall i :: 0 <= i < |threads| ==> weight(threads[i]) == 0
    ensures Sum(weight, threads) == 0
    decreases |threads|
  {
    if threads != [] {
      SumOfNone(weight, threads[..|threads| - 1]);
    }
  }

  lemma {:induction false} SomeoneCounts(weight: Thread -> nat, threads: seq<Thread>) returns (t: nat)
    requires Sum(weight, threads) > 0
    ensures t < |threads| && weight(threads[t]) > 0
    decreases |threads|
  {
    t := |threads| - 1;
    if weight(threads[t]) == 0 {
      t := SomeoneCounts(weight, threads[..|threads| - 1]);
    }
  }

  function Active(th: Thread): nat { if th.Idle? then 0 else 1 }

  // A thread whose client is in the deque, still to be popped or already put back by it.
  function Reserves(th: Thread): nat { if th.Acquired? || th.Fronted? || th.Pushed? then 1 else 0 }

  function Holds(c: Client): Thread -> nat {
    (th: Thread) => if th.Holding? && th.client == c then 1 else 0
  }

  // ---------- Safety of the atomic pool ----------

  /** What the pool guarantees to the threads. */
  predicate Safe(s: State, clients: seq<Client>) {
    && !s.undefined
    && (forall i, j :: 0 <= i < j < |s.threads| && s.threads[i].Holding? && s.threads[j].Holding? ==>
          s.threads[i].client != s.threads[j].client)
    && (forall i :: 0 <= i < |s.threads| && s.threads[i].Holding? ==>
          s.threads[i].client in clients && s.threads[i].client !in s.deque)
    && Distinct(s.deque)
    && (forall i :: 0 <= i < |s.deque| ==> s.deque[i] in clients)
  }

  // How often a client is in the deque or with a thread.
  function Copies(s: State, c: Client): nat { multiset(s.deque)[c] + Sum(Holds(c), s.threads) }

  /** Every client is in the deque or with a thread, as often as it was there at the start. */
  ghost predicate Conserved(s: State, clients: seq<Client>) {
    forall c :: Copies(s, c) == multiset(clients)[c]
  }

  predicate Accounted(s: State) {
    && !s.undefined
    && |s.deque| == s.semaphore + Sum(Reserves, s.threads)
  }

  predicate Counted(s: State, clients: seq<Client>) {
    s.semaphore + Sum(Active, s.threads) == |clients|
  }

  lemma TakeFront(deque: seq<Client>, c: Client)
    requires deque != []
    ensures multiset(deque)[c] == multiset(deque[1..])[c] + if deque[0] == c then 1 else 0
  {
    assert deque == [deque[0]] + deque[1..];
  }

  lemma ActiveKept(s: State, step: Step, clients: seq<Client>)
    requires Enabled(s, step) && Counted(s, clients)
    ensures Counted(Apply(s, step), clients)
  {
    var s' := Apply(s, step);
    SumUpdate(Active, s.threads, step.t, s'.threads[step.t]);
    assert s'.threads == s.threads[step.t := s'.threads[step.t]];
  }

  lemma CopiesKept(s: State, step: Step, c: Client)
    requires Enabled(s, step)
    requires step.PopFront? && s.deque != [] ==> s.threads[step.t].seen == s.deque[0]
    ensures Copies(Apply(s, step), c) == Copies(s, c)
  {
    var s' := Apply(s, step);
    SumUpdate(Holds(c), s.threads, step.t, s'.threads[step.t]);
    assert s'.threads == s.threads[step.t := s'.threads[step.t]];
    if (step.Take? || step.PopFront?) && s.deque != [] {
      TakeFront(s.deque, c);
    }
  }

  lemma ConservedKept(s: State, step: Step, clients: seq<Client>)
    requires Enabled(s, step) && Conserved(s, clients)
    requires step.PopFront? && s.deque != [] ==> s.threads[step.t].seen == s.deque[0]
    ensures Conserved(Apply(s, step), clients)
  {
    forall c ensures Copies(Apply(s, step), c) == multiset(clients)[c] { CopiesKept(s, step, c); }
  }

  lemma AccountedKept(s: State, step: Step)
    requires Enabled(s, step) && Accounted(s)
    ensures Accounted(Apply(s, step))
  {
    var s' := Apply(s, step);
    SumUpdate(Reserves, s.threads, step.t, s'.threads[step.t]);
    assert s'.threads == s.threads[step.t := s'.threads[step.t]];
    SumOfOne(Reserves, s.threads, step.t);
  }

  lemma StartIsAccounted(clients: seq<Client>, n: nat)
    ensures Counted(Start(clients, n), clients)
    ensures Accounted(Start(clients, n)) && Conserved(Start(clients, n), clients)
  {
    var s := Start(clients, n);
    SumOfNone(Active, s.threads);
    SumOfNone(Reserves, s.threads);
    forall c ensures Sum(Holds(c), s.threads) == 0 { SumOfNone(Holds(c), s.threads); }
  }

  /**
   * The counting invariants, over every schedule of any number of threads, the deque's steps apart, together or
   * mixed: no thread ever meets an empty deque.
   */
  lemma {:induction false} CountsHold(clients: seq<Client>, n: nat, schedule: seq<Step>)
    ensures var s := Exec(Start(clients, n), schedule); Counted(s, clients) && Accounted(s)
    decreases |schedule|
  {
    if schedule == [] {
      StartIsAccounted(clients, n);
    } else {
      var step := schedule[|schedule| - 1];
      CountsHold(clients, n, schedule[..|schedule| - 1]);
      var s := Exec(Start(clients, n), schedule[..|schedule| - 1]);
      if Enabled(s, step) {
        ActiveKept(s, step, clients);
        AccountedKept(s, step);
      }
    }
  }

  predicate NobodyFronted(s: State) { forall i :: 0 <= i < |s.threads| ==> !s.threads[i].Fronted? }

  /** With front() and pop_front() in one step, no client is lost and none is made up. */
  lemma {:induction false} ClientsAreConserved(clients: seq<Client>, n: nat, schedule: seq<Step>)
    requires Atomic(schedule)
    ensures var s := Exec(Start(clients, n), schedule); Conserved(s, clients) && NobodyFronted(s)
    decreases |schedule|
  {
    if schedule == [] {
      StartIsAccounted(clients, n);
    } else {
      var step := schedule[|schedule| - 1];
      ClientsAreConserved(clients, n, schedule[..|schedule| - 1]);
      CountsHold(clients, n, schedule[..|schedule| - 1]);
      var s := Exec(Start(clients, n), schedule[..|schedule| - 1]);
      if Enabled(s, step) {
        AccountedKept(s, step);
        ConservedKept(s, step, clients);
      }
    }
  }

  lemma {:induction false} DistinctOccursOnce(clients: seq<Client>, c: Client)
    requires Distinct(clients)
    ensures multiset(clients)[c] <= 1
    decreases |clients|
  {
    if clients != [] {
      var front, last := clients[..|clients| - 1], clients[|clients| - 1];
      DistinctOccursOnce(front, c);
      assert clients == front + [last];
      if c == last {
        assert c !in front;
      }
    }
  }

  lemma OccursOnceIsDistinct(deque: seq<Client>)
    requires forall c :: multiset(deque)[c] <= 1
    ensures Distinct(deque)
  {
    forall i, j | 0 <= i < j < |deque|
      ensures deque[i] != deque[j]
    {
      assert deque == deque[..j] + deque[j..];
      assert deque[..j][i] == deque[i] && deque[j..][0] == deque[j];
      assert multiset(deque)[deque[i]] == multiset(deque[..j])[deque[i]] + multiset(deque[j..])[deque[i]];
    }
  }

  lemma InvariantsAreSafe(s: State, clients: seq<Client>)
    requires Distinct(clients) && Conserved(s, clients) && !s.undefined
    ensures Safe(s, clients)
  {
    forall c ensures multiset(clients)[c] <= 1 { DistinctOccursOnce(clients, c); }
    forall c ensures multiset(s.deque)[c] <= 1 { assert Copies(s, c) == multiset(clients)[c]; }
    OccursOnceIsDistinct(s.deque);
    forall i, j | 0 <= i < j < |s.threads| && s.threads[i].Holding? && s.threads[j].Holding?
      ensures s.threads[i].client != s.threads[j].client
    {
      SumOfTwo(Holds(s.threads[i].client), s.threads, i, j);
      assert Copies(s, s.threads[i].client) <= 1;
    }
    forall i | 0 <= i < |s.threads| && s.threads[i].Holding?
      ensures s.threads[i].client in clients && s.threads[i].client !in s.deque
    {
      var c := s.threads[i].client;
      SumOfOne(Holds(c), s.threads, i);
      assert Copies(s, c) == multiset(clients)[c] <= 1;
      assert c in multiset(clients) && c !in multiset(s.deque);
    }
    forall i | 0 <= i < |s.deque|
      ensures s.deque[i] in clients
    {
      var c := s.deque[i];
      assert Copies(s, c) == multiset(clients)[c];
      assert c in multiset(s.deque);
    }
  }

  /**
   * With front() and pop_front() in one step, over every schedule of any number of threads: the deque never
   * runs empty under a thread that acquired, no client has two holders, none is lost and none is made up.
   */
  lemma AtomicPoolIsSafe(clients: seq<Client>, n: nat, schedule: seq<Step>)
    requires Distinct(clients) && Atomic(schedule)
    ensures Safe(Exec(Start(clients, n), schedule), clients)
  {
    CountsHold(clients, n, schedule);
    ClientsAreConserved(clients, n, schedule);
    InvariantsAreSafe(Exec(Start(clients, n), schedule), clients);
  }

  /**
   * No deadlock, after any schedule: a thread waits in acquire only while another can move, and one that is past
   * it always can. `together` chooses between the two forms of taking a client.
   */
  lemma SomeThreadCanMove(clients: seq<Client>, n: nat, schedule: seq<Step>, waiting: nat, together: bool)
    returns (step: Step)
    requires clients != [] && waiting < n
    ensures var s := Exec(Start(clients, n), schedule);
            Enabled(s, step) && !Apply(s, step).undefined && (if together then !step.Front? else !step.Take?)
    ensures var s := Exec(Start(clients, n), schedule);
            !s.threads[waiting].Idle? || s.semaphore > 0 ==> step.t == waiting
  {
    CountsHold(clients, n, schedule);
    var s := Exec(Start(clients, n), schedule);
    var t := waiting;
    if s.threads[waiting].Idle? && s.semaphore == 0 {
      t := SomeoneCounts(Active, s.threads);
    }
    SumOfOne(Reserves, s.threads, t);
    match s.threads[t]
    case Idle => step := Acquire(t);
    case Acquired => step := if together then Take(t) else Front(t);
    case Fronted(_) => step := PopFront(t);
    case Holding(_) => step := PushBack(t);
    case Pushed => step := Release(t);
  }

  /**
   * Once every thread is done, after any schedule, the semaphore is at its start and the deque is full again;
   * with the deque's steps together it holds the original clients.
   */
  lemma IdlePoolIsWhole(clients: seq<Client>, n: nat, schedule: seq<Step>)
    requires forall i :: 0 <= i < n ==> Exec(Start(clients, n), schedule).threads[i].Idle?
    ensures var s := Exec(Start(clients, n), schedule); s.semaphore == |clients| && |s.deque| == |clients|
    ensures Atomic(schedule) ==> multiset(Exec(Start(clients, n), schedule).deque) == multiset(clients)
  {
    CountsHold(clients, n, schedule);
    var s := Exec(Start(clients, n), schedule);
    SumOfNone(Active, s.threads);
    SumOfNone(Reserves, s.threads);
    if Atomic(schedule) {
      ClientsAreConserved(clients, n, schedule);
      forall c ensures multiset(s.deque)[c] == multiset(clients)[c] {
        SumOfNone(Holds(c), s.threads);
        assert Copies(s, c) == multiset(clients)[c];
      }
    }
  }

  // ---------- The pool as it is: separate steps ----------

  /** With one client, the semaphore alone keeps the threads apart: what the one active thread sees. */
  predicate OneClient(s: State, c: Client) {
    && !s.undefined
    && s.semaphore + Sum(Active, s.threads) == 1
    && (s.semaphore == 1 ==> s.deque == [c])
    && forall i :: 0 <= i < |s.threads| ==>
         match s.threads[i]
         case Idle => true
         case Acquired => s.deque == [c]
         case Fronted(d) => d == c && s.deque == [c]
         case Holding(d) => d == c && s.deque == []
         case Pushed => s.deque == [c]
  }

  lemma OneClientKept(s: State, step: Step, c: Client)
    requires Enabled(s, step) && OneClient(s, c)
    ensures OneClient(Apply(s, step), c)
  {
    var s' := Apply(s, step);
    ActiveKept(s, step, [c]);
    assert s'.threads == s.threads[step.t := s'.threads[step.t]];
    forall i | 0 <= i < |s.threads| && i != step.t && !s.threads[i].Idle?
      ensures s.threads[step.t].Idle? && s.semaphore == 0
    {
      SumOfOne(Active, s.threads, i);
      if i < step.t {
        SumOfTwo(Active, s.threads, i, step.t);
      } else {
        SumOfTwo(Active, s.threads, step.t, i);
      }
    }
    SumOfOne(Active, s.threads, step.t);
  }

  lemma {:induction false} OneClientInvariant(c: Client, n: nat, schedule: seq<Step>)
    ensures var s := Exec(Start([c], n), schedule); OneClient(s, c) && Conserved(s, [c])
    decreases |schedule|
  {
    if schedule == [] {
      StartIsAccounted([c], n);
    } else {
      OneClientInvariant(c, n, schedule[..|schedule| - 1]);
      var s := Exec(Start([c], n), schedule[..|schedule| - 1]);
      if Enabled(s, schedule[|schedule| - 1]) {
        OneClientKept(s, schedule[|schedule| - 1], c);
        ConservedKept(s, schedule[|schedule| - 1], [c]);
      }
    }
  }

  lemma OneClientIsSafe(s: State, c: Client)
    requires OneClient(s, c)
    ensures Safe(s, [c])
  {
    forall i, j | 0 <= i < j < |s.threads| && s.threads[i].Holding? && s.threads[j].Holding?
      ensures s.threads[i].client != s.threads[j].client
    {
      SumOfTwo(Active, s.threads, i, j);
    }
    assert |s.deque| <= 1 by {
      if s.semaphore == 0 {
        var t := SomeoneCounts(Active, s.threads);
      }
    }
    forall i | 0 <= i < |s.deque|
      ensures s.deque[i] in [c]
    {
      if s.semaphore == 0 {
        var t := SomeoneCounts(Active, s.threads);
      }
    }
  }

  lemma {:induction false} NoClientNothingMoves(n: nat, schedule: seq<Step>)
    ensures Exec(Start([], n), schedule) == Start([], n)
    decreases |schedule|
  {
    if schedule != [] {
      NoClientNothingMoves(n, schedule[..|schedule| - 1]);
    }
  }

  lemma Then(s: State, schedule: seq<Step>, step: Step) returns (longer: seq<Step>)
    requires Separate(schedule) && !step.Take?
    ensures longer == schedule + [step] && Separate(longer)
    ensures var before := Exec(s, schedule);
            Exec(s, longer) == if Enabled(before, step) then Apply(before, step) else before
  {
    longer := schedule + [step];
    ExecThen(s, schedule, step);
  }

  /** With two clients, two threads can look at the front before either pops, and both leave with the same client. */
  lemma TwoClientsAreShared(clients: seq<Client>, n: nat) returns (schedule: seq<Step>)
    requires |clients| >= 2 && n >= 2
    ensures Separate(schedule)
    ensures var s := Exec(Start(clients, n), schedule);
            s.threads[0] == s.threads[1] == Holding(clients[0]) && |s.threads| == n
  {
    var s0 := Start(clients, n);
    schedule := [];
    assert Exec(s0, schedule) == s0;
    hide Exec;
    schedule := Then(s0, schedule, Acquire(0));
    schedule := Then(s0, schedule, Acquire(1));
    schedule := Then(s0, schedule, Front(0));
    schedule := Then(s0, schedule, Front(1));
    schedule := Then(s0, schedule, PopFront(0));
    schedule := Then(s0, schedule, PopFront(1));
  }

  /** A thread alone pops what it saw. */
  predicate SeesTheFront(s: State) {
    forall i :: 0 <= i < |s.threads| && s.threads[i].Fronted? ==> s.deque != [] && s.deque[0] == s.threads[i].seen
  }

  lemma {:induction false} OneThreadConserves(clients: seq<Client>, n: nat, schedule: seq<Step>)
    requires n <= 1
    ensures var s := Exec(Start(clients, n), schedule); Conserved(s, clients) && SeesTheFront(s)
    decreases |schedule|
  {
    if schedule == [] {
      StartIsAccounted(clients, n);
    } else {
      var step := schedule[|schedule| - 1];
      OneThreadConserves(clients, n, schedule[..|schedule| - 1]);
      CountsHold(clients, n, schedule);
      var s := Exec(Start(clients, n), schedule[..|schedule| - 1]);
      if Enabled(s, step) {
        ConservedKept(s, step, clients);
      }
    }
  }

  /**
   * The pool as written, front() and pop_front() apart, is safe and loses no client under every schedule exactly
   * when it has at most one client or serves at most one thread.
   */
  lemma SafeExactlyWithOne(clients: seq<Client>, n: nat)
    requires Distinct(clients)
    ensures |clients| <= 1 || n <= 1 <==>
            forall schedule :: Separate(schedule) ==>
              var s := Exec(Start(clients, n), schedule); Safe(s, clients) && Conserved(s, clients)
  {
    if |clients| >= 2 && n >= 2 {
      var schedule := TwoClientsAreShared(clients, n);
      assert !Safe(Exec(Start(clients, n), schedule), clients);
    } else {
      forall schedule | Separate(schedule)
        ensures Safe(Exec(Start(clients, n), schedule), clients)
        ensures Conserved(Exec(Start(clients, n), schedule), clients)
      {
        if n <= 1 {
          CountsHold(clients, n, schedule);
          OneThreadConserves(clients, n, schedule);
          InvariantsAreSafe(Exec(Start(clients, n), schedule), clients);
        } else if clients == [] {
          NoClientNothingMoves(n, schedule);
          StartIsAccounted(clients, n);
        } else {
          assert clients == [clients[0]];
          OneClientInvariant(clients[0], n, schedule);
          OneClientIsSafe(Exec(Start(clients, n), schedule), clients[0]);
        }
      }
    }
  }
}
