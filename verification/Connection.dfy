/** The first request of a connection: wrappers/http/connection.cpp. */
module Connection {
  import opened Strings
  import opened Cookies
  import opened RequestParser
  import opened RequestGrammar
  import opened RequestLaws
  import opened HeaderScan

  const BUFFER_SIZE := 8 * 1024

  // ---------- Unsigned arithmetic ----------

  const TWO_32 := 0x1_0000_0000
  const TWO_64 := 0x1_0000_0000_0000_0000

  /** `bytes_transferred + (data - it)` as a size_t sum, cut to a uint. */
  function BodySize(transferred: nat, consumed: nat): nat {
    (transferred + (-(consumed as int)) % TWO_64) % TWO_64 % TWO_32
  }

  lemma BodySizeIsTheRest(transferred: nat, consumed: nat)
    requires consumed <= transferred < 4294967296
    ensures BodySize(transferred, consumed) == transferred - consumed
  {
    if consumed > 0 {
      assert (-(consumed as int)) % TWO_64 == TWO_64 - consumed;
    }
  }

  // The int converted for a comparison with a uint and with a size_t.
  function AsUint(n: int): nat { n % TWO_32 }

  function AsSize(n: int): nat { n % TWO_64 }

  predicate IsInt(n: int) { -0x8000_0000 <= n <= 0x7fff_ffff }

  /** Both comparisons let a body through that fits a stated length, and any body of ordinary size if none is stated. */
  lemma LengthChecks(n: int, size: nat)
    requires IsInt(n)
    ensures n >= 0 ==> (size > AsUint(n) <==> size > n) && (size > AsSize(n) <==> size > n)
    ensures n < 0 && size < 2147483648 ==> size <= AsUint(n) && size <= AsSize(n)
    ensures n < 0 ==> AsUint(n) == n + 4294967296 && AsSize(n) == n + 18446744073709551616
  {
  }

  // ---------- Read completions ----------

  datatype Phase =
    | Reading    // a read is outstanding
    | Stalled    // the head is complete, more bytes are waiting, and no read was issued
    | Dispatched // given to the request handler
    | Rejected   // answered 400
    | Crashed    // stoi or substr threw

  // `more` is whether socket.available() is not zero.
  datatype Completion = Completion(bytes: Str, more: bool)

  datatype Conn = Conn(parser: Config, facts: Facts, body: Str, headerBuffer: bool, phase: Phase)

  function Opened(major: int, minor: int): Conn {
    Conn(Fresh(major, minor), NoFacts(), [], true, Reading)
  }

  predicate Open(c: Conn) { c.phase == Reading || c.phase == Stalled }

  function OnHeaderBuffer(c: Conn, e: Completion): (c': Conn)
    requires BackIsSafe(c.parser)
    ensures BackIsSafe(c'.parser)
  {
    var r := Run(c.parser, e.bytes);
    var c1 := c.(parser := r.config);
    match r.verdict
    case Indeterminate => c1.(phase := Reading)
    case Bad => c1.(phase := Rejected)
    case Good =>
      var f := Scan(c.facts, r.config.head.headers, 0);
      if f.None? then c1.(phase := Crashed)
      else
        var c2 := c1.(facts := f.value);
        var size := BodySize(|e.bytes|, r.consumed);
        if !e.more && size > AsUint(f.value.contentLen) then c2.(phase := Rejected)
        else
          var body := e.bytes[r.consumed..];
          if e.more then c2.(body := body, headerBuffer := false, phase := Stalled)
          else c2.(body := body, phase := Dispatched)
  }

  function OnBodyBuffer(c: Conn, e: Completion): Conn {
    var body := c.body + e.bytes;
    if |body| > AsSize(c.facts.contentLen) then c.(body := body, headerBuffer := true, phase := Rejected)
    else if !e.more then c.(body := body, headerBuffer := true, phase := Dispatched)
    else c.(body := body, phase := Reading)
  }

  /** A completion, whether or not the code asked for it; a request that is finished takes no more. */
  function Deliver(c: Conn, e: Completion): (c': Conn)
    requires BackIsSafe(c.parser)
    ensures BackIsSafe(c'.parser)
  {
    if !Open(c) then c
    else if c.headerBuffer then OnHeaderBuffer(c, e)
    else OnBodyBuffer(c, e)
  }

  predicate Fits(events: seq<Completion>) { forall i :: 0 <= i < |events| ==> |events[i].bytes| <= BUFFER_SIZE }

  function After(c: Conn, events: seq<Completion>): (c': Conn)
    requires BackIsSafe(c.parser)
    ensures BackIsSafe(c'.parser)
  {
    if events == [] then c
    else Deliver(After(c, events[..|events| - 1]), events[|events| - 1])
  }

  function Received(events: seq<Completion>): Str {
    if events == [] then []
    else Received(events[..|events| - 1]) + events[|events| - 1].bytes
  }

  // ---------- Framing depends on the bytes alone ----------

  // What all the bytes received say.
  function Whole(all: Str, m: int, n: int): Outcome { Run(Fresh(m, n), all) }

  function BodyOf(all: Str, m: int, n: int): Str { all[Whole(all, m, n).consumed..] }

  function FactsOf(all: Str, m: int, n: int): Option<Facts> {
    Scan(NoFacts(), Whole(all, m, n).config.head.headers, 0)
  }

  predicate TooLong(all: Str, m: int, n: int)
    requires FactsOf(all, m, n).Some?
  {
    |BodyOf(all, m, n)| > AsSize(FactsOf(all, m, n).value.contentLen)
  }

  /** An open connection, after the bytes `all`: still in the head, or collecting the body. */
  predicate Explained(c: Conn, all: Str, m: int, n: int) {
    var w := Whole(all, m, n);
    && c.parser == w.config
    && if c.headerBuffer then
         w.verdict == Indeterminate && c.facts == NoFacts() && c.body == [] && c.phase == Reading
       else
         w.verdict == Good && FactsOf(all, m, n) == Some(c.facts) && c.body == BodyOf(all, m, n)
  }

  /** What the whole of the bytes makes of a connection when its last completion has been handled. */
  predicate Framed(c: Conn, all: Str, headEndsHere: bool, more: bool, m: int, n: int) {
    var w := Whole(all, m, n);
    match w.verdict
    case Indeterminate => c.phase == Reading && c.headerBuffer
    case Bad => c.phase == Rejected
    case Good =>
      if FactsOf(all, m, n).None? then c.phase == Crashed
      else if headEndsHere && more then c.phase == Stalled
      else if TooLong(all, m, n) then c.phase == Rejected
      else if more then c.phase == Reading
      else
        && c.phase == Dispatched
        && c.parser.head == w.config.head && Some(c.facts) == FactsOf(all, m, n) && c.body == BodyOf(all, m, n)
  }

  lemma StoiIsInt(s: Str)
    ensures Stoi(s).Some? ==> IsInt(Stoi(s).value)
  {
  }

  lemma {:induction false} ScannedLengthIsInt(f: Facts, headers: seq<Header>, matches: nat)
    requires IsInt(f.contentLen)
    ensures Scan(f, headers, matches).Some? ==> IsInt(Scan(f, headers, matches).value.contentLen)
    decreases |headers|
  {
    if headers != [] {
      StoiIsInt(headers[0].value);
      var turn := ScanHeader(f, headers[0]);
      if turn.Some? && matches + turn.value.1 <= 2 {
        ScannedLengthIsInt(turn.value.0, headers[1..], matches + turn.value.1);
      }
    }
  }

  lemma WholeAppend(all: Str, bytes: Str, m: int, n: int)
    ensures var w := Whole(all, m, n);
            Whole(all + bytes, m, n) ==
            if w.verdict != Indeterminate then w
            else var r := Run(w.config, bytes); r.(consumed := |all| + r.consumed)
  {
    RunAppend(Fresh(m, n), all, bytes);
  }

  lemma HeaderStep(c: Conn, all: Str, e: Completion, m: int, n: int)
    requires BackIsSafe(c.parser) && Open(c) && c.headerBuffer && Explained(c, all, m, n) && |e.bytes| <= BUFFER_SIZE
    ensures var c' := Deliver(c, e);
            && Framed(c', all + e.bytes, Whole(all + e.bytes, m, n).verdict == Good, e.more, m, n)
            && (Open(c') ==> Explained(c', all + e.bytes, m, n))
  {
    WholeAppend(all, e.bytes, m, n);
    hide Run;
    var r := Run(c.parser, e.bytes);
    var now := all + e.bytes;
    if r.verdict == Good {
      BodySizeIsTheRest(|e.bytes|, r.consumed);
      assert now[|all| + r.consumed..] == e.bytes[r.consumed..];
      ScannedLengthIsInt(NoFacts(), r.config.head.headers, 0);
      if FactsOf(now, m, n).Some? {
        LengthChecks(FactsOf(now, m, n).value.contentLen, |e.bytes| - r.consumed);
      }
    }
  }

  lemma BodyStep(c: Conn, all: Str, e: Completion, m: int, n: int)
    requires BackIsSafe(c.parser) && Open(c) && !c.headerBuffer && Explained(c, all, m, n)
    ensures var c' := Deliver(c, e);
            && Framed(c', all + e.bytes, false, e.more, m, n)
            && (Open(c') ==> Explained(c', all + e.bytes, m, n))
  {
    WholeAppend(all, e.bytes, m, n);
    hide Run, Scan;
    var k := Whole(all, m, n).consumed;
    assert (all + e.bytes)[k..] == all[k..] + e.bytes;
  }

  lemma {:induction false} OpenIsExplained(events: seq<Completion>, m: int, n: int)
    requires Fits(events) && Open(After(Opened(m, n), events))
    ensures Explained(After(Opened(m, n), events), Received(events), m, n)
    decreases |events|
  {
    if events != [] {
      var front, last := events[..|events| - 1], events[|events| - 1];
      OpenIsExplained(front, m, n);
      var c := After(Opened(m, n), front);
      if c.headerBuffer {
        HeaderStep(c, Received(front), last, m, n);
      } else {
        BodyStep(c, Received(front), last, m, n);
      }
    }
  }

  /**
   * Over every sequence of read completions: what becomes of the request is decided by all the bytes received
   * so far, by whether the head ended in the last of them, and by whether more are waiting. If it is given to
   * the handler, head, facts and body are those of the bytes, in order and none missing.
   */
  lemma FramingIsExact(events: seq<Completion>, last: Completion, m: int, n: int)
    requires Fits(events) && |last.bytes| <= BUFFER_SIZE && Open(After(Opened(m, n), events))
    ensures var before, all := Received(events), Received(events) + last.bytes;
            var headEndsHere := Whole(before, m, n).verdict == Indeterminate && Whole(all, m, n).verdict == Good;
            Framed(Deliver(After(Opened(m, n), events), last), all, headEndsHere, last.more, m, n)
  {
    OpenIsExplained(events, m, n);
    var c := After(Opened(m, n), events);
    assert c.headerBuffer <==> Whole(Received(events), m, n).verdict == Indeterminate;
    hide Run, Scan, Deliver, Framed, After, Received, Explained, Whole;
    if c.headerBuffer {
      HeaderStep(c, Received(events), last, m, n);
    } else {
      BodyStep(c, Received(events), last, m, n);
    }
  }

  /** A body given to the handler is never longer than a length the request states. */
  lemma {:induction false} DispatchedBodyFits(events: seq<Completion>, m: int, n: int)
    requires Fits(events) && After(Opened(m, n), events).phase == Dispatched
    ensures var c := After(Opened(m, n), events);
            c.facts.contentLen >= 0 ==> |c.body| <= c.facts.contentLen
    decreases |events|
  {
    var front, last := events[..|events| - 1], events[|events| - 1];
    var before := After(Opened(m, n), front);
    if Open(before) {
      FramingIsExact(front, last, m, n);
      var c, all := After(Opened(m, n), events), Received(front) + last.bytes;
      ScannedLengthIsInt(NoFacts(), Whole(all, m, n).config.head.headers, 0);
      hide Run, Scan, Deliver, After, Received;
      LengthChecks(c.facts.contentLen, |c.body|);
    } else {
      DispatchedBodyFits(front, m, n);
    }
  }

  // ---------- The stalled connection ----------

  /** Completions arrive only while a read is outstanding. */
  function AfterLive(c: Conn, events: seq<Completion>): (c': Conn)
    requires BackIsSafe(c.parser)
    ensures BackIsSafe(c'.parser)
  {
    if events == [] then c
    else
      var before := AfterLive(c, events[..|events| - 1]);
      if before.phase == Reading then Deliver(before, events[|events| - 1]) else before
  }

  /**
   * The branch that keeps the rest of the head's buffer issues no read, so in a run of the server the body
   * buffer is never handled: a request is answered only when the read that ends its head was its last, and
   * otherwise the connection stays stalled whatever is sent.
   */
  lemma {:induction false} BodyBufferIsNeverReached(events: seq<Completion>, m: int, n: int)
    ensures var c := AfterLive(Opened(m, n), events);
            && (c.headerBuffer <==> c.phase != Stalled)
            && (c.phase == Reading ==> c == After(Opened(m, n), events))
    decreases |events|
  {
    if events != [] {
      BodyBufferIsNeverReached(events[..|events| - 1], m, n);
    }
  }

  lemma {:induction false} LiveWhileUndecided(events: seq<Completion>, m: int, n: int)
    requires Fits(events)
    ensures AfterLive(Opened(m, n), events).phase == Reading <==>
            Whole(Received(events), m, n).verdict == Indeterminate
    decreases |events|
  {
    if events != [] {
      var front, last := events[..|events| - 1], events[|events| - 1];
      LiveWhileUndecided(front, m, n);
      BodyBufferIsNeverReached(front, m, n);
      WholeAppend(Received(front), last.bytes, m, n);
      hide Run, Scan, Deliver, Whole;
      if AfterLive(Opened(m, n), front).phase == Reading {
        FramingIsExact(front, last, m, n);
      }
    }
  }

  // The k-th completion brings the parser's verdict.
  predicate DecidesAt(events: seq<Completion>, k: nat, m: int, n: int) {
    && k < |events| && Whole(Received(events[..k]), m, n).verdict == Indeterminate
    && Whole(Received(events[..k]) + events[k].bytes, m, n).verdict != Indeterminate
  }

  lemma {:induction false} SomeDecides(events: seq<Completion>, m: int, n: int) returns (k: nat)
    requires Whole(Received(events), m, n).verdict != Indeterminate
    ensures DecidesAt(events, k, m, n)
    decreases |events|
  {
    var front := events[..|events| - 1];
    if Whole(Received(front), m, n).verdict == Indeterminate {
      k := |events| - 1;
    } else {
      k := SomeDecides(front, m, n);
      assert front[..k] == events[..k];
    }
  }

  /** What that completion makes of the connection, it stays. */
  lemma {:induction false} DecidedForEver(events: seq<Completion>, k: nat, m: int, n: int)
    requires Fits(events) && DecidesAt(events, k, m, n)
    ensures AfterLive(Opened(m, n), events) == Deliver(After(Opened(m, n), events[..k]), events[k])
    ensures AfterLive(Opened(m, n), events[..k]).phase == Reading
    decreases |events|
  {
    var front := events[..|events| - 1];
    LiveWhileUndecided(events[..k], m, n);
    BodyBufferIsNeverReached(events[..k], m, n);
    if k < |events| - 1 {
      assert front[..k] == events[..k] && events[..k + 1][..k] == events[..k];
      DecidedForEver(front, k, m, n);
      DecidedForEver(events[..k + 1], k, m, n);
      LiveWhileUndecided(events[..k + 1], m, n);
    } else {
      assert front == events[..k];
    }
  }

  // The k-th completion ends an accepted head whose scan does not throw, while more bytes wait.
  predicate StallsAt(events: seq<Completion>, k: nat, m: int, n: int) {
    && DecidesAt(events, k, m, n) && events[k].more
    && var all := Received(events[..k]) + events[k].bytes;
       Whole(all, m, n).verdict == Good && FactsOf(all, m, n).Some?
  }

  lemma DecidedPhase(events: seq<Completion>, k: nat, m: int, n: int)
    requires Fits(events) && DecidesAt(events, k, m, n)
    ensures AfterLive(Opened(m, n), events).phase != Reading
    ensures AfterLive(Opened(m, n), events).phase == Stalled <==> StallsAt(events, k, m, n)
  {
    hide Run, Scan, Deliver, Whole, After, AfterLive, TooLong, BodyOf;
    DecidedForEver(events, k, m, n);
    BodyBufferIsNeverReached(events[..k], m, n);
    FramingIsExact(events[..k], events[k], m, n);
  }

  /**
   * Exactly the live runs that stall: some completion ends an accepted head, while more bytes wait and the
   * header scan does not throw.
   */
  lemma StalledExactly(events: seq<Completion>, m: int, n: int)
    requires Fits(events)
    ensures AfterLive(Opened(m, n), events).phase == Stalled <==> exists k: nat :: StallsAt(events, k, m, n)
  {
    LiveWhileUndecided(events, m, n);
    if Whole(Received(events), m, n).verdict != Indeterminate {
      var k := SomeDecides(events, m, n);
      DecidedPhase(events, k, m, n);
    }
    forall k: nat | DecidesAt(events, k, m, n)
      ensures AfterLive(Opened(m, n), events).phase != Reading
      ensures AfterLive(Opened(m, n), events).phase == Stalled <==> StallsAt(events, k, m, n)
    {
      DecidedPhase(events, k, m, n);
    }
    hide AfterLive, Whole, Received, FactsOf;
  }

  // ---------- The class ----------

  class Connection {
    const parser: Parser
    const req: Request
    var headerBuffer: bool
    var phase: Phase

    function JarView(): Jar
      reads req`sessionId, req`cookies
    {
      Jar(req.sessionId, req.cookies)
    }

    function FactsView(): Facts
      reads req`contentLen, req`contentType, req`sessionId, req`cookies
    {
      Facts(req.contentLen, req.contentType, JarView())
    }

    ghost function View(): Conn
      reads this, parser, req
    {
      Conn(parser.View(req), FactsView(), req.body, headerBuffer, phase)
    }

    constructor ()
      ensures fresh(parser) && fresh(req)
      ensures View() == Opened(req.major, req.minor)
    {
      parser := new Parser();
      req := new Request();
      headerBuffer, phase := true, Reading;
    }

    /** Adds one `name=value` piece to the request. */
    method AddCookie(piece: Str)
      modifies req`sessionId, req`cookies
      ensures JarView() == AddPiece(old(JarView()), piece)
    {
      var mid := Find(piece, '=', 0);
      if mid.Some? {
        var key := piece[..mid.value];
        if key == "SESSION" {
          req.sessionId := piece[mid.value + 1..];
        } else {
          req.cookies := req.cookies[key := piece[mid.value + 1..]];
        }
      }
    }

    method ParseCookie(text: Str) returns (threw: bool)
      modifies req`sessionId, req`cookies
      ensures threw <==> ParseFrom(old(JarView()), text, 0) == None
      ensures !threw ==> Some(JarView()) == ParseFrom(old(JarView()), text, 0)
    {
      var start := 0;
      var end := Find(text, ';', start);
      while end.Some?
        invariant start <= |text| + 1 && end == Find(text, ';', start)
        invariant ParseFrom(JarView(), text, start) == ParseFrom(old(JarView()), text, 0)
        decreases |text| + 1 - start
      {
        AddCookie(Substr(text, start, end.value));
        start := end.value + 2;
        end := Find(text, ';', start);
      }
      if start > |text| {
        return true;
      }
      AddCookie(Substr(text, start, |text|));
      threw := false;
    }

    /** The scan over the parsed headers. */
    method ScanHeaders() returns (threw: bool)
      modifies req`contentLen, req`contentType, req`sessionId, req`cookies
      ensures threw <==> Scan(old(FactsView()), req.headers, 0) == None
      ensures !threw ==> Some(FactsView()) == Scan(old(FactsView()), req.headers, 0)
    {
      var matches, i := 0, 0;
      threw := false;
      while i < |req.headers|
        invariant i <= |req.headers| && matches <= 2
        invariant Scan(FactsView(), req.headers[i..], matches) == Scan(old(FactsView()), req.headers, 0)
      {
        var h := req.headers[i];
        assert req.headers[i..][1..] == req.headers[i + 1..];
        if req.contentLen == -1 && IEquals(h.name, CONTENT_LENGTH) {
          var v := Stoi(h.value);
          if v.None? {
            return true;
          }
          req.contentLen := v.value;
          matches := matches + 1;
        } else if req.contentType == [] && IEquals(h.name, CONTENT_TYPE) {
          req.contentType := h.value;
          matches := matches + 1;
        } else if req.cookies == map[] && IEquals(h.name, COOKIE) {
          threw := ParseCookie(h.value);
          if threw {
            return;
          }
          matches := matches + 1;
        }
        if matches > 2 {
          return;
        }
        i := i + 1;
      }
    }

    method HandleHeaderBuffer(bytes: Str, more: bool)
      requires BackIsSafe(parser.View(req)) && |bytes| <= BUFFER_SIZE
      modifies this, parser, req
      ensures phase == OnHeaderBuffer(old(View()), Completion(bytes, more)).phase
      ensures phase != Crashed ==> View() == OnHeaderBuffer(old(View()), Completion(bytes, more))
    {
      var verdict, it := parser.Parse(req, bytes);
      if verdict == Good {
        var threw := ScanHeaders();
        if threw {
          phase := Crashed;
          return;
        }
        var bodySize := BodySize(|bytes|, it);
        BodySizeIsTheRest(|bytes|, it);
        assert bytes[it..it + bodySize] == bytes[it..];
        if !more {
          if bodySize > AsUint(req.contentLen) {
            phase := Rejected;
          } else {
            req.body := bytes[it..it + bodySize];
            phase := Dispatched;
          }
        } else {
          req.body := bytes[it..it + bodySize];
          headerBuffer := false;
          phase := Stalled;
        }
      } else if verdict == Bad {
        phase := Rejected;
      } else {
        phase := Reading;
      }
    }

    method HandleBodyBuffer(bytes: Str, more: bool)
      requires BackIsSafe(parser.View(req))
      modifies this`headerBuffer, this`phase, req`body
      ensures View() == OnBodyBuffer(old(View()), Completion(bytes, more))
    {
      req.body := req.body + bytes;
      if |req.body| > AsSize(req.contentLen) {
        headerBuffer, phase := true, Rejected;
      } else if !more {
        headerBuffer, phase := true, Dispatched;
      } else {
        phase := Reading;
      }
    }
  }
}
