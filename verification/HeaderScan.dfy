/**
 * The loop over the headers of a request (wrappers/http/connection.cpp): which of them it reads, and what its exit
 * after three matches loses.
 */
module HeaderScan {
  import opened Strings
  import opened Cookies
  import opened RequestParser

  // What the scan fills in.
  datatype Facts = Facts(contentLen: int, contentType: Str, jar: Jar)

  function NoFacts(): Facts { Facts(-1, [], Jar([], map[])) }

  const CONTENT_LENGTH: Str := "content-length"
  const CONTENT_TYPE: Str := "content-type"
  const COOKIE: Str := "cookie"

  /** One turn of the loop: what it fills in, and whether it counts as a match; None when stoi or substr throws. */
  function ScanHeader(f: Facts, h: Header): Option<(Facts, nat)> {
    if f.contentLen == -1 && IEquals(h.name, CONTENT_LENGTH) then
      var v := Stoi(h.value);
      if v.None? then None else Some((f.(contentLen := v.value), 1))
    else if f.contentType == [] && IEquals(h.name, CONTENT_TYPE) then
      Some((f.(contentType := h.value), 1))
    else if f.jar.others == map[] && IEquals(h.name, COOKIE) then
      var jar := ParseFrom(f.jar, h.value, 0);
      if jar.None? then None else Some((f.(jar := jar.value), 1))
    else Some((f, 0))
  }

  /** The loop, which ends early after three matches. */
  function Scan(f: Facts, headers: seq<Header>, matches: nat): Option<Facts>
    decreases |headers|
  {
    if headers == [] then Some(f)
    else
      var turn := ScanHeader(f, headers[0]);
      if turn.None? then None
      else if matches + turn.value.1 > 2 then Some(turn.value.0)
      else Scan(turn.value.0, headers[1..], matches + turn.value.1)
  }

  lemma NamesDiffer(h: Header)
    ensures !(IEquals(h.name, CONTENT_LENGTH) && IEquals(h.name, CONTENT_TYPE))
    ensures !(IEquals(h.name, CONTENT_LENGTH) && IEquals(h.name, COOKIE))
    ensures !(IEquals(h.name, CONTENT_TYPE) && IEquals(h.name, COOKIE))
  {
    assert |CONTENT_LENGTH| == 14 && |CONTENT_TYPE| == 12 && |COOKIE| == 6;
  }

  // ---------- The loop without the exit ----------

  /** What all the headers fill in, and how many matches they count. */
  function FullScan(f: Facts, headers: seq<Header>): Option<(Facts, nat)>
    decreases |headers|
  {
    if headers == [] then Some((f, 0))
    else
      var turn := ScanHeader(f, headers[0]);
      if turn.None? then None
      else
        var rest := FullScan(turn.value.0, headers[1..]);
        if rest.None? then None else Some((rest.value.0, turn.value.1 + rest.value.1))
  }

  function FullFacts(f: Facts, headers: seq<Header>): Option<Facts> {
    var r := FullScan(f, headers);
    if r.None? then None else Some(r.value.0)
  }

  predicate Filled(f: Facts) { f.contentLen != -1 && f.contentType != [] && f.jar.others != map[] }

  lemma {:induction false} FilledIsIdle(f: Facts, headers: seq<Header>)
    requires Filled(f)
    ensures FullScan(f, headers) == Some((f, 0))
    decreases |headers|
  {
    if headers != [] {
      FilledIsIdle(f, headers[1..]);
    }
  }

  lemma OneHeader(f: Facts, h: Header)
    ensures FullFacts(f, [h]) == var turn := ScanHeader(f, h); if turn.None? then None else Some(turn.value.0)
  {
    hide ScanHeader;
    var turn := ScanHeader(f, h);
    if turn.Some? {
      assert [h][1..] == [];
      assert FullScan(turn.value.0, []) == Some((turn.value.0, 0));
    }
  }

  lemma LoneSemicolonThrows(jar: Jar)
    ensures ParseFrom(jar, [';'], 0) == None
  {
    assert Find([';'], ';', 0) == Some(0);
    assert Find([';'], ';', 2) == None;
    hide Find, AddPiece, Substr;
  }

  /** Some header still changes what is filled in, unless all three fields are. */
  lemma UnfilledIsNotIdle(f: Facts) returns (h: Header)
    requires !Filled(f)
    ensures FullFacts(f, [h]) != Some(f)
  {
    if f.contentLen == -1 {
      h := Header(CONTENT_LENGTH, PrintInt(0));
      PrintedIntParses(0, INT32_MIN, INT32_MAX);
    } else if f.contentType == [] {
      h := Header(CONTENT_TYPE, ['x']);
    } else {
      h := Header(COOKIE, [';']);
      LoneSemicolonThrows(f.jar);
    }
    NamesDiffer(h);
    OneHeader(f, h);
    assert IEquals(h.name, h.name);
    hide Stoi, ParseFrom, PrintInt;
  }

  /** Nothing that follows can change what is filled in exactly when all three fields are. */
  lemma IdleExactlyWhenFilled(f: Facts)
    ensures Filled(f) <==> forall rest :: FullFacts(f, rest) == Some(f)
  {
    if Filled(f) {
      forall rest ensures FullFacts(f, rest) == Some(f) {
        FilledIsIdle(f, rest);
      }
    } else {
      var h := UnfilledIsNotIdle(f);
    }
  }

  lemma {:induction false} FullScanAppend(f: Facts, a: seq<Header>, b: seq<Header>)
    ensures FullFacts(f, a + b) == var r := FullScan(f, a); if r.None? then None else FullFacts(r.value.0, b)
    decreases |a|
  {
    if a == [] {
      assert a + b == b;
    } else {
      var turn := ScanHeader(f, a[0]);
      hide ScanHeader;
      assert (a + b)[1..] == a[1..] + b;
      if turn.Some? {
        FullScanAppend(turn.value.0, a[1..], b);
      }
    }
  }

  lemma {:induction false} ScanUntilThree(f: Facts, a: seq<Header>, b: seq<Header>, matches: nat)
    requires FullScan(f, a).Some? && matches + FullScan(f, a).value.1 <= 2
    ensures Scan(f, a + b, matches) == var r := FullScan(f, a).value; Scan(r.0, b, matches + r.1)
    decreases |a|
  {
    if a == [] {
      assert a + b == b;
    } else {
      var turn := ScanHeader(f, a[0]);
      hide ScanHeader;
      assert (a + b)[1..] == a[1..] + b;
      ScanUntilThree(turn.value.0, a[1..], b, matches + turn.value.1);
    }
  }

  // ---------- What the exit loses ----------

  /** A header that leaves its field as if it were absent: a length of -1, an empty type, no cookie but SESSION. */
  predicate Useless(f: Facts, h: Header) {
    || (IEquals(h.name, CONTENT_LENGTH) && Stoi(h.value) == Some(-1))
    || (IEquals(h.name, CONTENT_TYPE) && h.value == [])
    || (IEquals(h.name, COOKIE)
        && var jar := ParseFrom(f.jar, h.value, 0); jar.Some? && jar.value.others == map[])
  }

  /** How many of the matches counted are of useless headers. */
  function Wasted(f: Facts, headers: seq<Header>): nat
    decreases |headers|
  {
    if headers == [] then 0
    else
      var turn := ScanHeader(f, headers[0]);
      if turn.None? then 0
      else (if turn.value.1 == 1 && Useless(f, headers[0]) then 1 else 0) + Wasted(turn.value.0, headers[1..])
  }

  function Count(a: bool, b: bool, c: bool): nat {
    (if a then 1 else 0) + (if b then 1 else 0) + (if c then 1 else 0)
  }

  /** How many of the three fields are filled. */
  function Fill(f: Facts): nat { Count(f.contentLen != -1, f.contentType != [], f.jar.others != map[]) }

  lemma OneMatch(f: Facts, h: Header)
    requires ScanHeader(f, h).Some?
    ensures var (f', n) := ScanHeader(f, h).value;
            Fill(f') + (if n == 1 && Useless(f, h) then 1 else 0) == Fill(f) + n
  {
    NamesDiffer(h);
    hide Stoi, ParseFrom, IEquals;
  }

  /** Every match counted fills one of the three fields, or is wasted. */
  lemma {:induction false} MatchesFillOrWaste(f: Facts, headers: seq<Header>)
    requires FullScan(f, headers).Some?
    ensures var (f', n) := FullScan(f, headers).value; Fill(f') + Wasted(f, headers) == Fill(f) + n
    decreases |headers|
  {
    if headers != [] {
      OneMatch(f, headers[0]);
      var turn := ScanHeader(f, headers[0]).value;
      hide ScanHeader, Useless, Fill;
      MatchesFillOrWaste(turn.0, headers[1..]);
    }
  }

  // The last of these headers is the third match.
  predicate ExitsAt(headers: seq<Header>) {
    && headers != [] && FullScan(NoFacts(), headers).Some? && FullScan(NoFacts(), headers).value.1 == 3
    && var front := FullScan(NoFacts(), headers[..|headers| - 1]); front.Some? && front.value.1 == 2
  }

  lemma ScanStops(f: Facts, last: Header, rest: seq<Header>)
    requires ScanHeader(f, last).Some? && ScanHeader(f, last).value.1 == 1
    ensures Scan(f, [last] + rest, 2) == Some(ScanHeader(f, last).value.0)
  {
    hide ScanHeader;
    assert ([last] + rest)[0] == last;
  }

  lemma {:induction false} CountsAdd(f: Facts, a: seq<Header>, b: seq<Header>)
    requires FullScan(f, a).Some? && FullScan(FullScan(f, a).value.0, b).Some?
    ensures FullScan(f, a + b).Some?
    ensures FullScan(f, a + b).value.1 == FullScan(f, a).value.1 + FullScan(FullScan(f, a).value.0, b).value.1
    decreases |a|
  {
    if a == [] {
      assert a + b == b;
    } else {
      var turn := ScanHeader(f, a[0]);
      hide ScanHeader;
      assert (a + b)[1..] == a[1..] + b;
      CountsAdd(turn.value.0, a[1..], b);
    }
  }

  lemma ThirdMatch(front: seq<Header>, last: Header)
    requires ExitsAt(front + [last])
    ensures FullScan(NoFacts(), front).Some? && FullScan(NoFacts(), front).value.1 == 2
    ensures var turn := ScanHeader(FullScan(NoFacts(), front).value.0, last); turn.Some? && turn.value.1 == 1
  {
    var headers := front + [last];
    assert headers[..|headers| - 1] == front;
    var (f, n) := FullScan(NoFacts(), front).value;
    FullScanAppend(NoFacts(), front, [last]);
    OneHeader(f, last);
    CountsAdd(NoFacts(), front, [last]);
    hide ScanHeader;
    var turn := ScanHeader(f, last);
    assert [last][1..] == [];
    assert FullScan(turn.value.0, []) == Some((turn.value.0, 0));
    assert FullScan(f, [last]) == Some((turn.value.0, turn.value.1));
  }

  lemma ScanExits(front: seq<Header>, last: Header, rest: seq<Header>)
    requires ExitsAt(front + [last])
    ensures Scan(NoFacts(), front + [last] + rest, 0) == FullFacts(NoFacts(), front + [last])
  {
    ThirdMatch(front, last);
    hide ScanHeader, FullScan, ExitsAt;
    var f := FullScan(NoFacts(), front).value.0;
    FullScanAppend(NoFacts(), front, [last]);
    OneHeader(f, last);
    ScanUntilThree(NoFacts(), front, [last] + rest, 0);
    assert front + [last] + rest == front + ([last] + rest);
    ScanStops(f, last, rest);
  }

  /**
   * The exact condition under which leaving the loop at the third match loses nothing, whatever headers follow:
   * none of the three matches was of a header that leaves its field as if it were absent.
   */
  lemma ExitIsHarmlessExactly(headers: seq<Header>)
    requires ExitsAt(headers)
    ensures (forall rest :: Scan(NoFacts(), headers + rest, 0) == FullFacts(NoFacts(), headers + rest)) <==>
            Wasted(NoFacts(), headers) == 0
  {
    var f := FullScan(NoFacts(), headers).value.0;
    MatchesFillOrWaste(NoFacts(), headers);
    assert Wasted(NoFacts(), headers) == 0 <==> Filled(f);
    IdleExactlyWhenFilled(f);
    forall rest
      ensures Scan(NoFacts(), headers + rest, 0) == Some(f)
      ensures FullFacts(NoFacts(), headers + rest) == FullFacts(f, rest)
    {
      assert headers[..|headers| - 1] + [headers[|headers| - 1]] == headers;
      ScanExits(headers[..|headers| - 1], headers[|headers| - 1], rest);
      FullScanAppend(NoFacts(), headers, rest);
    }
    hide *;
    assert (forall rest :: FullFacts(f, rest) == Some(f)) <==>
           (forall rest :: Scan(NoFacts(), headers + rest, 0) == FullFacts(NoFacts(), headers + rest));
  }

  /** Repeats do lose headers: three stated lengths of -1 count as three matches, and the rest is never read. */
  lemma RepeatsHideTheRest(rest: seq<Header>)
    ensures var h := Header(CONTENT_LENGTH, PrintInt(-1));
            Scan(NoFacts(), [h, h, h] + rest, 0) == Some(NoFacts())
  {
    var h := Header(CONTENT_LENGTH, PrintInt(-1));
    PrintedIntParses(-1, INT32_MIN, INT32_MAX);
    assert IEquals(h.name, CONTENT_LENGTH);
    assert ScanHeader(NoFacts(), h) == Some((NoFacts(), 1));
    hide ScanHeader;
    var all := [h, h, h] + rest;
    assert all[1..] == [h, h] + rest && all[1..][1..] == [h] + rest;
    assert Scan(NoFacts(), [h] + rest, 2) == Some(NoFacts());
    assert Scan(NoFacts(), [h, h] + rest, 1) == Scan(NoFacts(), [h] + rest, 2);
  }

  // ---------- Looking the three up by name ----------

  /** The values of the headers of a name, in order. */
  function Values(headers: seq<Header>, name: Str): seq<Str> {
    if headers == [] then []
    else (if IEquals(headers[0].name, name) then [headers[0].value] else []) + Values(headers[1..], name)
  }

  // Each field is decided by the values of its own name: the first that fills it, and an error before that.

  function FirstLength(n: int, values: seq<Str>): Option<int>
    decreases |values|
  {
    if n != -1 || values == [] then Some(n)
    else
      var v := Stoi(values[0]);
      if v.None? then None else FirstLength(v.value, values[1..])
  }

  function FirstType(kind: Str, values: seq<Str>): Str
    decreases |values|
  {
    if kind != [] || values == [] then kind else FirstType(values[0], values[1..])
  }

  function FirstJar(jar: Jar, values: seq<Str>): Option<Jar>
    decreases |values|
  {
    if jar.others != map[] || values == [] then Some(jar)
    else
      var v := ParseFrom(jar, values[0], 0);
      if v.None? then None else FirstJar(v.value, values[1..])
  }

  function LookUp(f: Facts, headers: seq<Header>): Option<Facts> {
    var n := FirstLength(f.contentLen, Values(headers, CONTENT_LENGTH));
    var jar := FirstJar(f.jar, Values(headers, COOKIE));
    if n.None? || jar.None? then None
    else Some(Facts(n.value, FirstType(f.contentType, Values(headers, CONTENT_TYPE)), jar.value))
  }

  lemma ValuesOfFirst(headers: seq<Header>, name: Str)
    requires headers != []
    ensures var values, rest := Values(headers, name), Values(headers[1..], name);
            if IEquals(headers[0].name, name) then values != [] && values[0] == headers[0].value && values[1..] == rest
            else values == rest
  {
  }

  lemma LookUpTurns(f: Facts, headers: seq<Header>)
    requires headers != []
    ensures var turn := ScanHeader(f, headers[0]);
            LookUp(f, headers) == if turn.None? then None else LookUp(turn.value.0, headers[1..])
  {
    NamesDiffer(headers[0]);
    ValuesOfFirst(headers, CONTENT_LENGTH);
    ValuesOfFirst(headers, CONTENT_TYPE);
    ValuesOfFirst(headers, COOKIE);
    hide Values, Stoi, ParseFrom, IEquals;
  }

  /** The loop without the exit looks the three fields up, each in the headers of its own name. */
  lemma {:induction false} FullScanLooksUp(f: Facts, headers: seq<Header>)
    ensures FullFacts(f, headers) == LookUp(f, headers)
    decreases |headers|
  {
    if headers != [] {
      LookUpTurns(f, headers);
      hide ScanHeader, LookUp;
      var turn := ScanHeader(f, headers[0]);
      if turn.Some? {
        FullScanLooksUp(turn.value.0, headers[1..]);
      }
    } else {
      hide ScanHeader;
    }
  }

  predicate SettledLength(values: seq<Str>) { |values| <= 1 || Stoi(values[0]) != Some(-1) }

  predicate SettledType(values: seq<Str>) { |values| <= 1 || values[0] != [] }

  predicate SettledJar(jar: Jar, values: seq<Str>) {
    |values| <= 1 || var j := ParseFrom(jar, values[0], 0); j.None? || j.value.others != map[]
  }

  // At most one header of each name, or the first one fills its field or throws.
  predicate Settled(headers: seq<Header>) {
    var length, kind, cookie := Values(headers, CONTENT_LENGTH), Values(headers, CONTENT_TYPE), Values(headers, COOKIE);
    SettledLength(length) && SettledType(kind) && SettledJar(NoFacts().jar, cookie)
  }

  // Which of the three have been counted: their fields are filled, or no more headers of the name follow.
  predicate Counted(f: Facts, headers: seq<Header>, length: bool, kind: bool, cookie: bool) {
    && (if length then f.contentLen != -1 || Values(headers, CONTENT_LENGTH) == []
        else f.contentLen == -1 && SettledLength(Values(headers, CONTENT_LENGTH)))
    && (if kind then f.contentType != [] || Values(headers, CONTENT_TYPE) == []
        else f.contentType == [] && SettledType(Values(headers, CONTENT_TYPE)))
    && (if cookie then f.jar.others != map[] || Values(headers, COOKIE) == []
        else f.jar == NoFacts().jar && SettledJar(f.jar, Values(headers, COOKIE)))
  }

  lemma CountedRest(f: Facts, headers: seq<Header>, length: bool, kind: bool, cookie: bool)
    requires headers != [] && Counted(f, headers, length, kind, cookie) && ScanHeader(f, headers[0]).Some?
    ensures var ((f', n), name) := (ScanHeader(f, headers[0]).value, headers[0].name);
            var l := length || IEquals(name, CONTENT_LENGTH);
            var k := kind || IEquals(name, CONTENT_TYPE);
            var c := cookie || IEquals(name, COOKIE);
            Counted(f', headers[1..], l, k, c) && Count(l, k, c) == Count(length, kind, cookie) + n
  {
    NamesDiffer(headers[0]);
    ValuesOfFirst(headers, CONTENT_LENGTH);
    ValuesOfFirst(headers, CONTENT_TYPE);
    ValuesOfFirst(headers, COOKIE);
    hide Values, Stoi, ParseFrom, IEquals;
  }

  lemma AllCounted(f: Facts, headers: seq<Header>)
    requires Counted(f, headers, true, true, true)
    ensures LookUp(f, headers) == Some(f)
  {
    hide Values, Stoi, ParseFrom;
  }

  lemma {:induction false} ScanLooksUp(f: Facts, headers: seq<Header>, length: bool, kind: bool, cookie: bool)
    requires Counted(f, headers, length, kind, cookie) && Count(length, kind, cookie) <= 2
    ensures Scan(f, headers, Count(length, kind, cookie)) == FullFacts(f, headers)
    decreases |headers|
  {
    if headers != [] && ScanHeader(f, headers[0]).Some? {
      CountedRest(f, headers, length, kind, cookie);
      var (f', n) := ScanHeader(f, headers[0]).value;
      var name := headers[0].name;
      var l, k := length || IEquals(name, CONTENT_LENGTH), kind || IEquals(name, CONTENT_TYPE);
      var c := cookie || IEquals(name, COOKIE);
      hide ScanHeader, Counted, LookUp, IEquals;
      if Count(l, k, c) <= 2 {
        ScanLooksUp(f', headers[1..], l, k, c);
      } else {
        AllCounted(f', headers[1..]);
        FullScanLooksUp(f', headers[1..]);
      }
    }
  }

  /** Leaving the loop after three matches loses nothing where repeats have nothing to add, wherever the headers are. */
  lemma EarlyExitLosesNothing(headers: seq<Header>)
    requires Settled(headers)
    ensures Scan(NoFacts(), headers, 0) == LookUp(NoFacts(), headers)
  {
    ScanLooksUp(NoFacts(), headers, false, false, false);
    FullScanLooksUp(NoFacts(), headers);
  }

  // ---------- The order of the headers ----------

  predicate NoRepeats(headers: seq<Header>) {
    |Values(headers, CONTENT_LENGTH)| <= 1 && |Values(headers, CONTENT_TYPE)| <= 1 && |Values(headers, COOKIE)| <= 1
  }

  lemma {:induction false} ValuesAppend(a: seq<Header>, b: seq<Header>, name: Str)
    ensures Values(a + b, name) == Values(a, name) + Values(b, name)
    decreases |a|
  {
    if a == [] {
      assert a + b == b;
    } else {
      ValuesAppend(a[1..], b, name);
      assert (a + b)[1..] == a[1..] + b;
    }
  }

  lemma WithoutOne(x: seq<Header>, h: Header, y: seq<Header>)
    ensures multiset(x + ([h] + y)) == multiset(x + y) + multiset{h}
  {
  }

  lemma Cancel(a: multiset<Header>, b: multiset<Header>, h: Header)
    requires a + multiset{h} == b + multiset{h}
    ensures a == b
  {
    forall g ensures a[g] == b[g] {
      assert (a + multiset{h})[g] == (b + multiset{h})[g];
    }
  }

  lemma SplitAtFirst(a: seq<Header>, b: seq<Header>) returns (x: seq<Header>, y: seq<Header>)
    requires multiset(a) == multiset(b) && b != []
    ensures a == x + ([b[0]] + y) && multiset(x + y) == multiset(b[1..])
  {
    assert b[0] in multiset(a);
    var i :| 0 <= i < |a| && a[i] == b[0];
    x, y := a[..i], a[i + 1..];
    assert a == x + ([b[0]] + y) && b == [] + ([b[0]] + b[1..]);
    WithoutOne(x, b[0], y);
    WithoutOne([], b[0], b[1..]);
    assert [] + b[1..] == b[1..];
    Cancel(multiset(x + y), multiset(b[1..]), b[0]);
  }

  lemma ValuesOfSplit(x: seq<Header>, h: Header, y: seq<Header>, name: Str)
    ensures multiset(Values(x + ([h] + y), name)) == multiset(Values(x + y, name)) + multiset(Values([h], name))
  {
    ValuesAppend(x, [h] + y, name);
    ValuesAppend([h], y, name);
    ValuesAppend(x, y, name);
    hide Values;
  }

  lemma {:induction false} ValuesInAnyOrder(a: seq<Header>, b: seq<Header>, name: Str)
    requires multiset(a) == multiset(b)
    ensures multiset(Values(a, name)) == multiset(Values(b, name))
    decreases |b|
  {
    if b == [] {
      assert |multiset(a)| == 0;
    } else {
      var x, y := SplitAtFirst(a, b);
      hide Values;
      ValuesInAnyOrder(x + y, b[1..], name);
      ValuesOfSplit(x, b[0], y, name);
      ValuesOfSplit([], b[0], b[1..], name);
      assert b == [] + ([b[0]] + b[1..]) && [] + b[1..] == b[1..];
    }
  }

  lemma SameShortList(u: seq<Str>, v: seq<Str>)
    requires multiset(u) == multiset(v) && |u| <= 1
    ensures u == v
  {
    assert |multiset(u)| == |multiset(v)|;
    if u != [] {
      assert v[0] in multiset(u);
      assert u == [u[0]] && v == [v[0]];
    }
  }

  lemma SameValues(a: seq<Header>, b: seq<Header>, name: Str)
    requires multiset(a) == multiset(b) && |Values(a, name)| <= 1
    ensures Values(a, name) == Values(b, name)
  {
    ValuesInAnyOrder(a, b, name);
    hide Values;
    SameShortList(Values(a, name), Values(b, name));
  }

  /** The order of the headers does not matter where no name is repeated. */
  lemma HeaderOrderDoesNotMatter(a: seq<Header>, b: seq<Header>)
    requires multiset(a) == multiset(b) && NoRepeats(a)
    ensures Scan(NoFacts(), a, 0) == Scan(NoFacts(), b, 0)
  {
    SameValues(a, b, CONTENT_LENGTH);
    SameValues(a, b, CONTENT_TYPE);
    SameValues(a, b, COOKIE);
    EarlyExitLosesNothing(a);
    EarlyExitLosesNothing(b);
  }

  // ---------- The spelling of the names ----------

  predicate SameName(s: Str, t: Str) { |s| == |t| && forall i :: 0 <= i < |s| ==> SameButCase(s[i], t[i]) }

  // The same headers but for the case of letters in their names.
  predicate SameHeaders(a: seq<Header>, b: seq<Header>) {
    && |a| == |b|
    && forall i :: 0 <= i < |a| ==> a[i].value == b[i].value && SameName(a[i].name, b[i].name)
  }

  lemma SameNameIsEqual(s: Str, t: Str, name: Str)
    requires SameName(s, t)
    ensures IEquals(s, name) == IEquals(t, name)
  {
    forall i | 0 <= i < |s|
      ensures ToLower(s[i]) == ToLower(t[i])
    {
      assert SameButCase(s[i], t[i]);
    }
    hide ToLower, SameButCase;
  }

  /** However the names are capitalised, the same headers give the same facts. */
  lemma {:induction false} NameCaseDoesNotMatter(f: Facts, a: seq<Header>, b: seq<Header>, matches: nat)
    requires SameHeaders(a, b)
    ensures Scan(f, a, matches) == Scan(f, b, matches)
    decreases |a|
  {
    if a != [] {
      SameNameIsEqual(a[0].name, b[0].name, CONTENT_LENGTH);
      SameNameIsEqual(a[0].name, b[0].name, CONTENT_TYPE);
      SameNameIsEqual(a[0].name, b[0].name, COOKIE);
      assert ScanHeader(f, a[0]) == ScanHeader(f, b[0]) by {
        hide Stoi, ParseFrom, IEquals;
      }
      hide ScanHeader, SameName, IEquals;
      var turn := ScanHeader(f, a[0]);
      if turn.Some? && matches + turn.value.1 <= 2 {
        NameCaseDoesNotMatter(turn.value.0, a[1..], b[1..], matches + turn.value.1);
      }
    }
  }

  lemma UsualNames()
    ensures IEquals("Content-Length", CONTENT_LENGTH) && IEquals("Content-Type", CONTENT_TYPE)
    ensures IEquals("Cookie", COOKIE)
  {
  }

  lemma SessionIsRead(sid: Str)
    requires NoByte(sid, ';')
    ensures ParseFrom(NoFacts().jar, "SESSION=" + sid, 0) == Some(Jar(sid, map[]))
  {
    var s: Str := "SESSION=" + sid;
    assert s == "SESSION" + ['='] + sid;
    assert NoByte(s, ';');
    FindNothing(s, ';', 0);
    FindAfter("SESSION", '=', sid, 0);
    assert s[..7] == "SESSION" && s[8..] == sid && Substr(s, 0, |s|) == s;
    hide Find;
  }

  lemma ThreeTurns(a: Header, b: Header, c: Header)
    requires ScanHeader(NoFacts(), a).Some? && ScanHeader(NoFacts(), a).value.1 == 1
    requires var f := ScanHeader(NoFacts(), a).value.0; ScanHeader(f, b).Some? && ScanHeader(f, b).value.1 == 1
    requires var g := ScanHeader(ScanHeader(NoFacts(), a).value.0, b).value.0;
             ScanHeader(g, c).Some? && ScanHeader(g, c).value.1 == 1
    ensures var g := ScanHeader(ScanHeader(NoFacts(), a).value.0, b).value.0;
            Scan(NoFacts(), [a, b, c], 0) == Some(ScanHeader(g, c).value.0)
  {
    hide ScanHeader;
    var f := ScanHeader(NoFacts(), a).value.0;
    assert [a, b, c][1..] == [b, c] && [b, c][1..] == [c];
    assert Scan(f, [b, c], 1) == Scan(ScanHeader(f, b).value.0, [c], 2);
  }

  /** The three headers in their usual spelling are read: a length, a type, and the session id. */
  lemma UsualSpellingIsRead(n: int, kind: Str, sid: Str)
    requires -2147483648 <= n <= 2147483647 && NoByte(sid, ';')
    ensures var headers := [Header("Content-Length", PrintInt(n)), Header("Content-Type", kind),
                            Header("Cookie", "SESSION=" + sid)];
            Scan(NoFacts(), headers, 0) == Some(Facts(n, kind, Jar(sid, map[])))
  {
    var length, ctype := Header("Content-Length", PrintInt(n)), Header("Content-Type", kind);
    var cookie := Header("Cookie", "SESSION=" + sid);
    UsualNames();
    WidthsAreExact(n);
    SessionIsRead(sid);
    NamesDiffer(length);
    NamesDiffer(ctype);
    NamesDiffer(cookie);
    hide Stoi, PrintInt, IEquals, ParseFrom;
    var f, g := Facts(n, [], NoFacts().jar), Facts(n, kind, NoFacts().jar);
    assert ScanHeader(NoFacts(), length) == Some((f, 1));
    assert ScanHeader(f, ctype) == Some((g, 1));
    assert ScanHeader(g, cookie) == Some((Facts(n, kind, Jar(sid, map[])), 1));
    hide ScanHeader;
    ThreeTurns(length, ctype, cookie);
  }
}
