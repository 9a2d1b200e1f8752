/** What dispatch means for the list of routes a server was given. */
module RouterLaws {
  import opened Strings
  import opened Router

  /** Every path of the list starts with a slash, as the API's own routes do. */
  predicate Rooted(routes: seq<Route>) {
    forall i :: 0 <= i < |routes| ==> routes[i].path != [] && routes[i].path[0] == '/'
  }

  /** The callback of the last route registered for a method and a path. */
  function LastRoute(routes: seq<Route>, verb: Str, path: Str): Option<Handler> {
    if routes == [] then None
    else
      var last := routes[|routes| - 1];
      if last.verb == verb && last.path == path then last.cb
      else LastRoute(routes[..|routes| - 1], verb, path)
  }

  /** The request path a route is meant to serve: "/" is the base itself. */
  function Mounted(base: Str, path: Str): Str {
    if path == "/" then base else base + path
  }

  /** What a reader of the list expects: the last route of the method whose mounted path is the request's path. */
  function Intended(routes: seq<Route>, base: Str, verb: Str, path: Str): Option<Handler> {
    if routes == [] then None
    else
      var last := routes[|routes| - 1];
      if last.verb == verb && Mounted(base, last.path) == path then last.cb
      else Intended(routes[..|routes| - 1], base, verb, path)
  }

  // ---------- Addresses are paths ----------

  lemma AddressOfRoot(r: Route, verb: Str)
    requires HasPath(r)
    ensures Address(r) == [verb] <==> r.verb == verb && r.path == "/"
  {
    assert Address(r)[0] == r.verb;
    assert r.path != "/" ==> |Address(r)| > 1;
  }

  /** The address of a route is its method and the segments of its path behind the first byte, whatever that byte is. */
  lemma AddressOfRest(r: Route, verb: Str, rest: Str)
    requires HasPath(r)
    ensures Address(r) == [verb] + Split(rest) <==> r.verb == verb && r.path != "/" && r.path[1..] == rest
  {
    JoinOfSplit(rest);
    JoinOfSplit(r.path[1..]);
    assert ([verb] + Split(rest))[1..] == Split(rest) && ([verb] + Split(rest))[0] == verb;
    assert Address(r)[0] == r.verb && Address(r)[1..] == if r.path == "/" then [] else Split(r.path[1..]);
    hide Split, Join;
  }

  // A route serves the base alone, or what follows the byte after it.
  predicate Serves(r: Route, verb: Str, rest: Option<Str>)
    requires HasPath(r)
  {
    r.verb == verb && if rest.None? then r.path == "/" else r.path != "/" && r.path[1..] == rest.value
  }

  function LastServing(routes: seq<Route>, verb: Str, rest: Option<Str>): Option<Handler>
    requires HavePaths(routes)
  {
    if routes == [] then None
    else
      var last := routes[|routes| - 1];
      if Serves(last, verb, rest) then last.cb else LastServing(routes[..|routes| - 1], verb, rest)
  }

  lemma {:induction false} LastAtIsLastServing(routes: seq<Route>, verb: Str, rest: Str)
    requires HavePaths(routes)
    ensures LastAt(routes, [verb]) == LastServing(routes, verb, None)
    ensures LastAt(routes, [verb] + Split(rest)) == LastServing(routes, verb, Some(rest))
    decreases |routes|
  {
    if routes != [] {
      LastAtIsLastServing(routes[..|routes| - 1], verb, rest);
      AddressOfRoot(routes[|routes| - 1], verb);
      AddressOfRest(routes[|routes| - 1], verb, rest);
    }
  }

  /**
   * Dispatch, for every list the constructor takes and every request: the last route "/" of the method for the base
   * alone, and for a longer path the last other route that, but for its first byte, is what follows the byte after the
   * base. Neither of the two bytes is looked at.
   */
  lemma DispatchExactly(routes: seq<Route>, base: Str, verb: Str, uri: Str)
    requires HavePaths(routes)
    ensures var path := PathOf(uri);
            Dispatch(routes, base, verb, uri) ==
            if !(base <= path) then None
            else LastServing(routes, verb, if path == base then None else Some(path[|base| + 1..]))
  {
    var path := PathOf(uri);
    if base <= path {
      LastAtIsLastServing(routes, verb, if |path| == |base| then [] else path[|base| + 1..]);
    }
  }

  lemma {:induction false} LastAtIsLastRoute(routes: seq<Route>, verb: Str, rest: Str)
    requires Rooted(routes)
    ensures LastAt(routes, [verb]) == LastRoute(routes, verb, "/")
    ensures LastAt(routes, [verb] + Split(rest)) == if rest == [] then None else LastRoute(routes, verb, "/" + rest)
    decreases |routes|
  {
    if routes != [] {
      var last := routes[|routes| - 1];
      LastAtIsLastRoute(routes[..|routes| - 1], verb, rest);
      AddressOfRoot(last, verb);
      AddressOfRest(last, verb, rest);
      assert last.path == "/" + last.path[1..];
      assert ("/" + rest)[1..] == rest;
      hide Split, Address;
    }
  }

  /**
   * Dispatch, for every list of rooted routes and every request: the base alone is the route "/"; a longer
   * path is the route made of "/" and what follows the byte after the base; anything else is 404.
   */
  lemma DispatchIsLastRoute(routes: seq<Route>, base: Str, verb: Str, uri: Str)
    requires Rooted(routes)
    ensures var path := PathOf(uri);
            Dispatch(routes, base, verb, uri) ==
            if !(base <= path) then None
            else if path == base then LastRoute(routes, verb, "/")
            else
              var rest := path[|base| + 1..];
              if rest == [] then None else LastRoute(routes, verb, "/" + rest)
  {
    var path := PathOf(uri);
    if base <= path {
      LastAtIsLastRoute(routes, verb, if |path| == |base| then [] else path[|base| + 1..]);
    }
  }

  // ---------- When dispatch is what the list says ----------

  /** The byte after the base is a slash, unless the path ends there or just behind it. */
  predicate GoodSeparator(base: Str, path: Str) {
    base <= path && |path| > |base| + 1 ==> path[|base|] == '/'
  }

  lemma {:induction false} IntendedIsLastRoute(routes: seq<Route>, base: Str, verb: Str, path: Str)
    requires Rooted(routes)
    ensures Intended(routes, base, verb, path) ==
            if !(base <= path) then None
            else if path == base then LastRoute(routes, verb, "/")
            else if path[|base|] != '/' || |path| == |base| + 1 then None
            else LastRoute(routes, verb, path[|base|..])
    decreases |routes|
  {
    if routes != [] {
      var last := routes[|routes| - 1];
      IntendedIsLastRoute(routes[..|routes| - 1], base, verb, path);
      if Mounted(base, last.path) == path {
        assert base <= path && path[|base|..] == if last.path == "/" then [] else last.path;
      } else if base <= path {
        assert path == base + path[|base|..];
      }
    }
  }

  /** With a good separator, dispatch is what the list of routes says. */
  lemma DispatchIsIntended(routes: seq<Route>, base: Str, verb: Str, uri: Str)
    requires Rooted(routes) && GoodSeparator(base, PathOf(uri))
    ensures Dispatch(routes, base, verb, uri) == Intended(routes, base, verb, PathOf(uri))
  {
    var path := PathOf(uri);
    DispatchIsLastRoute(routes, base, verb, uri);
    IntendedIsLastRoute(routes, base, verb, path);
    if base <= path && |path| > |base| + 1 {
      assert path[|base|..] == "/" + path[|base| + 1..];
    }
  }

  /** Without one, the walk skips a byte it never looked at, and some list is served wrongly. */
  lemma WrongSeparatorIsServed(base: Str, verb: Str, uri: Str) returns (routes: seq<Route>)
    requires !GoodSeparator(base, PathOf(uri))
    ensures Rooted(routes)
    ensures Dispatch(routes, base, verb, uri) == Some(0) && Intended(routes, base, verb, PathOf(uri)) == None
  {
    var path := PathOf(uri);
    var rest := path[|base| + 1..];
    routes := [Route(verb, "/" + rest, Some(0))];
    DispatchIsLastRoute(routes, base, verb, uri);
    IntendedIsLastRoute(routes, base, verb, path);
    assert LastRoute(routes, verb, "/" + rest) == Some(0);
  }

  /** The requests served as the list says, whatever the list, are exactly those with a good separator. */
  lemma IntendedExactlyWithGoodSeparator(base: Str, verb: Str, uri: Str)
    ensures GoodSeparator(base, PathOf(uri)) <==>
            forall routes :: Rooted(routes) ==>
              Dispatch(routes, base, verb, uri) == Intended(routes, base, verb, PathOf(uri))
  {
    if GoodSeparator(base, PathOf(uri)) {
      forall routes | Rooted(routes)
        ensures Dispatch(routes, base, verb, uri) == Intended(routes, base, verb, PathOf(uri))
      {
        DispatchIsIntended(routes, base, verb, uri);
      }
    } else {
      var routes := WrongSeparatorIsServed(base, verb, uri);
    }
  }

  /** A query changes nothing: the request is dispatched by what stands before the first '?'. */
  lemma QueryDoesNotMatter(routes: seq<Route>, base: Str, verb: Str, path: Str, query: Str)
    requires HavePaths(routes) && NoByte(path, '?')
    ensures PathOf(path) == path && PathOf(path + "?" + query) == path
    ensures Dispatch(routes, base, verb, path + "?" + query) == Dispatch(routes, base, verb, path)
  {
    FindAfter(path, '?', query, 0);
    FindNothing(path, '?', 0);
    assert (path + "?" + query)[..|path|] == path;
  }

  /** The family has members: "/api" serves "/apiXuser" as "/api/user". */
  lemma ApiWrongSeparator()
    ensures var routes := [Route("GET", "/user", Some(7))];
            && Dispatch(routes, "/api", "GET", "/apiXuser") == Some(7)
            && Intended(routes, "/api", "GET", "/apiXuser") == None
  {
    var routes, uri := [Route("GET", "/user", Some(7))], "/apiXuser";
    FindNothing(uri, '?', 0);
    DispatchIsLastRoute(routes, "/api", "GET", uri);
    assert uri[5..] == "user";
    assert LastRoute(routes, "GET", "/user") == Some(7);
    IntendedIsLastRoute(routes, "/api", "GET", uri);
    assert uri[4] == 'X';
  }

  // ---------- The order of registration ----------

  predicate SameKey(a: Route, b: Route) { a.verb == b.verb && a.path == b.path }

  predicate DistinctKeys(routes: seq<Route>) {
    forall i, j :: 0 <= i < j < |routes| ==> !SameKey(routes[i], routes[j])
  }

  // A route of the list that decides a lookup.
  predicate Decides(routes: seq<Route>, r: Route, verb: Str, path: Str) {
    r in routes && r.verb == verb && r.path == path
  }

  lemma {:induction false} LastRouteIsAMember(routes: seq<Route>, verb: Str, path: Str)
    ensures (exists r :: Decides(routes, r, verb, path) && LastRoute(routes, verb, path) == r.cb)
         || ((forall r :: !Decides(routes, r, verb, path)) && LastRoute(routes, verb, path) == None)
    decreases |routes|
  {
    if routes != [] {
      var front, last := routes[..|routes| - 1], routes[|routes| - 1];
      LastRouteIsAMember(front, verb, path);
      assert forall r :: r in routes <==> r in front || r == last;
      if last.verb == verb && last.path == path {
        assert Decides(routes, last, verb, path);
      } else if r :| Decides(front, r, verb, path) && LastRoute(front, verb, path) == r.cb {
        assert Decides(routes, r, verb, path);
      } else {
        forall r ensures !Decides(routes, r, verb, path) { assert !Decides(front, r, verb, path); }
      }
    }
  }

  lemma SameMembers(a: seq<Route>, b: seq<Route>)
    requires multiset(a) == multiset(b)
    ensures forall r :: r in a <==> r in b
  {
    assert forall r :: r in a <==> r in multiset(a);
    assert forall r :: r in b <==> r in multiset(b);
  }

  lemma PermutationKeepsLastRoute(a: seq<Route>, b: seq<Route>, verb: Str, path: Str)
    requires multiset(a) == multiset(b) && DistinctKeys(a)
    ensures LastRoute(a, verb, path) == LastRoute(b, verb, path)
  {
    LastRouteIsAMember(a, verb, path);
    LastRouteIsAMember(b, verb, path);
    SameMembers(a, b);
    hide LastRoute;
    if r :| Decides(a, r, verb, path) && LastRoute(a, verb, path) == r.cb {
      assert Decides(b, r, verb, path);
      var q :| Decides(b, q, verb, path) && LastRoute(b, verb, path) == q.cb;
      var i, j :| 0 <= i < |a| && 0 <= j < |a| && a[i] == r && a[j] == q;
      assert SameKey(a[i], a[j]) && SameKey(a[j], a[i]);
    } else {
      assert forall q :: Decides(b, q, verb, path) ==> Decides(a, q, verb, path);
    }
  }

  /** Registering routes of distinct method and path in another order changes no dispatch at all. */
  lemma OrderDoesNotMatter(a: seq<Route>, b: seq<Route>, base: Str, verb: Str, uri: Str)
    requires multiset(a) == multiset(b) && DistinctKeys(a) && Rooted(a)
    ensures Rooted(b) && Dispatch(a, base, verb, uri) == Dispatch(b, base, verb, uri)
  {
    SameMembers(a, b);
    forall i | 0 <= i < |b| ensures b[i].path != [] && b[i].path[0] == '/' { assert b[i] in a; }
    DispatchIsLastRoute(a, base, verb, uri);
    DispatchIsLastRoute(b, base, verb, uri);
    var path := PathOf(uri);
    PermutationKeepsLastRoute(a, b, verb, "/");
    if base <= path && path != base {
      PermutationKeepsLastRoute(a, b, verb, "/" + path[|base| + 1..]);
    }
  }

  lemma {:induction false} InsertedRoute(before: seq<Route>, r: Route, after: seq<Route>, verb: Str, path: Str)
    ensures var with, without := LastRoute(before + [r] + after, verb, path), LastRoute(before + after, verb, path);
            if r.verb != verb || r.path != path then with == without
            else if exists q :: q in after && SameKey(q, r) then with == without
            else with == r.cb
    decreases |after|
  {
    if after == [] {
      assert before + [r] + after == before + [r] && before + after == before;
      assert (before + [r])[..|before|] == before;
    } else {
      var front, last := after[..|after| - 1], after[|after| - 1];
      InsertedRoute(before, r, front, verb, path);
      var l, m := before + [r] + after, before + after;
      assert l[..|l| - 1] == before + [r] + front;
      assert m[..|m| - 1] == before + front;
      assert forall q :: q in after <==> q in front || q == last;
      if q :| q in front && SameKey(q, r) {
        assert q in after;
      } else {
        assert (exists q :: q in after && SameKey(q, r)) <==> SameKey(last, r);
      }
    }
  }

  // The route path a request path is looked up under, if it is looked up at all.
  predicate IsKeyOf(base: Str, path: Str, key: Str) {
    && base <= path && |path| != |base| + 1
    && key == if path == base then "/" else "/" + path[|base| + 1..]
  }

  lemma WithoutOne(before: seq<Route>, r: Route, after: seq<Route>)
    requires Rooted(before + [r] + after)
    ensures Rooted(before + after) && r.path != []
  {
    var l, m := before + [r] + after, before + after;
    forall i | 0 <= i < |m|
      ensures m[i].path != [] && m[i].path[0] == '/'
    {
      assert m[i] == if i < |before| then l[i] else l[i + 1];
    }
    assert r == l[|before|];
  }

  /**
   * Adding a route, anywhere in the list, changes the dispatch of the requests that are looked up under its own
   * method and path and of no other, even when paths run through the same nodes; and there it answers, unless a
   * later route of the same method and path replaces it.
   */
  lemma AddingARouteIsLocal(before: seq<Route>, r: Route, after: seq<Route>, base: Str, verb: Str, uri: Str)
    requires Rooted(before + [r] + after)
    ensures Rooted(before + after)
    ensures var with := Dispatch(before + [r] + after, base, verb, uri);
            var without := Dispatch(before + after, base, verb, uri);
            if r.verb != verb || !IsKeyOf(base, PathOf(uri), r.path) then with == without
            else if exists q :: q in after && SameKey(q, r) then with == without
            else with == r.cb
  {
    var path := PathOf(uri);
    WithoutOne(before, r, after);
    DispatchIsLastRoute(before + [r] + after, base, verb, uri);
    DispatchIsLastRoute(before + after, base, verb, uri);
    if base <= path && |path| != |base| + 1 {
      InsertedRoute(before, r, after, verb, if path == base then "/" else "/" + path[|base| + 1..]);
    }
  }

  /** With a good separator, the request paths looked up under a route are exactly the one it is mounted at. */
  lemma KeyIsMounted(base: Str, path: Str, r: Route)
    requires GoodSeparator(base, path) && r.path != [] && r.path[0] == '/'
    ensures IsKeyOf(base, path, r.path) <==> Mounted(base, r.path) == path
  {
    assert (base + r.path)[|base|..] == r.path;
    if base <= path {
      assert path == base + path[|base|..];
      if |path| > |base| + 1 {
        assert path[|base|..] == "/" + path[|base| + 1..];
      }
    }
  }
}
