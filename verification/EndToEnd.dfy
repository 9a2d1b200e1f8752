/** From the cookie a login sets to the session the next request is served with, through the bytes in between. */
module EndToEnd {
  import opened Strings
  import opened Cookies
  import opened RequestParser
  import opened RequestGrammar
  import opened RequestLaws
  import opened HeaderScan
  import opened Connection
  import Sessions
  import SessionRuns

  lemma NoSeparatorInId(sid: Str)
    requires forall j :: 0 <= j < |sid| ==> Sessions.IsAlphanumeric(sid[j])
    ensures NoByte(sid, ';')
  {
  }

  /** A proper part of a head gets no verdict yet. */
  lemma PartOfAHead(h: Head, rest: Str, part: Str, more: Str, m: int, n: int)
    requires WellFormedHead(h) && part + more == Print(h) + rest && |part| < |Print(h)|
    ensures Whole(part, m, n).verdict == Indeterminate
  {
    PrintThenParse(h, rest, m, n);
    RunAppend(Fresh(m, n), part, more);
  }

  lemma {:induction false} StillReading(h: Head, rest: Str, events: seq<Completion>, more: Str, m: int, n: int)
    requires WellFormedHead(h) && Fits(events)
    requires Received(events) + more == Print(h) + rest && |Received(events)| < |Print(h)|
    ensures After(Opened(m, n), events).phase == Reading && After(Opened(m, n), events).headerBuffer
    decreases |events|
  {
    if events != [] {
      var front, last := events[..|events| - 1], events[|events| - 1];
      assert Received(front) + (last.bytes + more) == Received(events) + more;
      StillReading(h, rest, front, last.bytes + more, m, n);
      PartOfAHead(h, rest, Received(events), more, m, n);
      hide Run, Scan, Deliver;
      FramingIsExact(front, last, m, n);
    }
  }

  /**
   * A printed request, cut into reads in any way that ends the head in the last one, is given to the handler
   * with its head, its body and the facts looked up by name, provided the body fits a length it states and
   * repeated headers have nothing to add.
   */
  lemma PrintedRequestIsDispatched(h: Head, rest: Str, events: seq<Completion>, last: Completion, m: int, n: int)
    requires WellFormedHead(h) && Settled(h.headers) && LookUp(NoFacts(), h.headers).Some?
    requires var length := LookUp(NoFacts(), h.headers).value.contentLen; length >= 0 ==> |rest| <= length
    requires Fits(events) && |last.bytes| <= BUFFER_SIZE && !last.more
    requires Received(events) + last.bytes == Print(h) + rest && |Received(events)| < |Print(h)|
    ensures var c := Deliver(After(Opened(m, n), events), last);
            && c.phase == Dispatched && c.parser.head == h && c.body == rest
            && Some(c.facts) == LookUp(NoFacts(), h.headers)
  {
    StillReading(h, rest, events, last.bytes, m, n);
    FramingIsExact(events, last, m, n);
    PrintThenParse(h, rest, m, n);
    EarlyExitLosesNothing(h.headers);
    ScannedLengthIsInt(NoFacts(), h.headers, 0);
    var all := Print(h) + rest;
    assert |rest| <= BUFFER_SIZE;
    assert BodyOf(all, m, n) == rest;
    LengthChecks(LookUp(NoFacts(), h.headers).value.contentLen, |rest|);
    hide Run, Scan, LookUp, Deliver, Print;
  }

  // The first Cookie header is the one that counts.
  lemma FirstCookieCounts(headers: seq<Header>)
    requires Settled(headers) && Values(headers, COOKIE) != []
    ensures FirstJar(NoFacts().jar, Values(headers, COOKIE)) == ParseFrom(NoFacts().jar, Values(headers, COOKIE)[0], 0)
  {
    hide Values, ParseFrom;
    var values := Values(headers, COOKIE);
    var jar := ParseFrom(NoFacts().jar, values[0], 0);
    assert |values| == 1 ==> values[1..] == [];
    if jar.Some? {
      assert FirstJar(jar.value, values[1..]) == Some(jar.value);
    }
  }

  /**
   * The pair the server sent is what the browser sends back; a request with it in its Cookie header, among other
   * cookies, on a connection that cuts the bytes anyhow before the head's end, is dispatched with that id.
   */
  lemma SessionIdTravels(
      cookie: Cookie, before: seq<Pair>, after: seq<Pair>,
      h: Head, rest: Str, arrivals: seq<Completion>, last: Completion, m: int, n: int)
    requires cookie.name == "SESSION" && NoByte(cookie.value, ';')
    requires PairsOk(before + after)
    requires forall i :: 0 <= i < |before + after| ==> (before + after)[i].name != "SESSION"
    requires WellFormedHead(h) && Settled(h.headers) && Values(h.headers, COOKIE) != []
    requires Values(h.headers, COOKIE)[0] == CookieString(before + [Pair("SESSION", cookie.value)] + after)
    requires var length := FirstLength(-1, Values(h.headers, CONTENT_LENGTH));
             length.Some? && (length.value >= 0 ==> |rest| <= length.value)
    requires Fits(arrivals) && |last.bytes| <= BUFFER_SIZE && !last.more
    requires Received(arrivals) + last.bytes == Print(h) + rest && |Received(arrivals)| < |Print(h)|
    ensures Pieces(before + [Pair("SESSION", cookie.value)] + after)[|before|] == BrowserPart(cookie.Rendered())
    ensures var c := Deliver(After(Opened(m, n), arrivals), last);
            c.phase == Dispatched && c.parser.head == h && c.body == rest && c.facts.jar.session == cookie.value
  {
    SessionSurvivesTheBrowser(NoFacts().jar, cookie, before, after);
    FirstCookieCounts(h.headers);
    hide Settled, Values, FirstJar, FirstLength, FirstType, ParseFrom, Run, Scan, Deliver, Print, After, Received;
    PrintedRequestIsDispatched(h, rest, arrivals, last, m, n);
  }

  // A login answered 204 that set this cookie and whose SET was accepted, and then a run that keeps its session.
  ghost predicate SetBy(
      w: Sessions.World, s: Sessions.State, login: Sessions.Event, between: seq<Sessions.Event>, sid: Str) {
    && Sessions.Valid(s) && login.Login? && !login.req.faults.put && Sessions.Step(w, s, login).1.status == 204
    && Sessions.Step(w, s, login).1.cookie == Some(sid)
    && SessionRuns.KeepsSession(w, Sessions.Step(w, s, login).0, between, sid)
  }

  lemma SetByIsServed(
      w: Sessions.World, s: Sessions.State, login: Sessions.Event, between: seq<Sessions.Event>, sid: Str,
      body: Sessions.Body)
    requires SetBy(w, s, login, between, sid)
    ensures NoByte(sid, ';') && Sessions.Admitted(w, s.db, login.req).Some?
    ensures var t := SessionRuns.After(w, Sessions.Step(w, s, login).0, between);
            Sessions.Step(w, t, Sessions.GetUser(Sessions.Request(sid, body, false, Sessions.NoFaults()))).1 ==
            Sessions.Status(200).(content := Sessions.Profile(Sessions.Admitted(w, s.db, login.req).value))
  {
    Sessions.LoginDrawsAnId(w, s, login);
    Sessions.StepIsLocal(w, s, login);
    NoSeparatorInId(sid);
    hide Sessions.Step, SessionRuns.After, SessionRuns.KeepsSession, Sessions.Valid, Sessions.Admitted, Sessions.Grows,
      Sessions.Key;
    var get := Sessions.GetUser(Sessions.Request(sid, body, false, Sessions.NoFaults()));
    SessionRuns.SessionLasts(w, Sessions.Step(w, s, login).0, between, sid, get);
  }

  /**
   * The whole way: a login is let in, has its session stored and sets its cookie; the browser keeps the pair and
   * sends it back; the request's bytes are parsed, scanned and dispatched; and get-user, at any later time before a
   * logout, answers 200 under the dispatched id with the very user the login was for.
   */
  lemma SessionTravels(
      w: Sessions.World, s: Sessions.State, login: Sessions.Event, between: seq<Sessions.Event>,
      cookie: Cookie, before: seq<Pair>, after: seq<Pair>,
      h: Head, rest: Str, arrivals: seq<Completion>, last: Completion, m: int, n: int, body: Sessions.Body)
    requires SetBy(w, s, login, between, cookie.value) && cookie.name == "SESSION"
    requires PairsOk(before + after)
    requires forall i :: 0 <= i < |before + after| ==> (before + after)[i].name != "SESSION"
    requires WellFormedHead(h) && Settled(h.headers) && Values(h.headers, COOKIE) != []
    requires Values(h.headers, COOKIE)[0] == CookieString(before + [Pair("SESSION", cookie.value)] + after)
    requires var length := FirstLength(-1, Values(h.headers, CONTENT_LENGTH));
             length.Some? && (length.value >= 0 ==> |rest| <= length.value)
    requires Fits(arrivals) && |last.bytes| <= BUFFER_SIZE && !last.more
    requires Received(arrivals) + last.bytes == Print(h) + rest && |Received(arrivals)| < |Print(h)|
    ensures Pieces(before + [Pair("SESSION", cookie.value)] + after)[|before|] == BrowserPart(cookie.Rendered())
    ensures var c := Deliver(After(Opened(m, n), arrivals), last);
            var t := SessionRuns.After(w, Sessions.Step(w, s, login).0, between);
            var get := Sessions.GetUser(Sessions.Request(c.facts.jar.session, body, false, Sessions.NoFaults()));
            && c.phase == Dispatched && c.parser.head == h && c.body == rest
            && Sessions.Admitted(w, s.db, login.req).Some?
            && Sessions.Step(w, t, get).1 ==
               Sessions.Status(200).(content := Sessions.Profile(Sessions.Admitted(w, s.db, login.req).value))
  {
    SetByIsServed(w, s, login, between, cookie.value, body);
    hide *;
    SessionIdTravels(cookie, before, after, h, rest, arrivals, last, m, n);
  }
}
