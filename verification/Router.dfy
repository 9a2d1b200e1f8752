/** The router: a tree of maps per HTTP method, wrappers/http/request_handler.cpp and router.hpp. */
module Router {
  import opened Strings

  // A callback, known by a number; None is a null pointer.
  type Handler = nat

  datatype Route = Route(verb: Str, path: Str, cb: Option<Handler>)

  // ---------- Splitting paths ----------

  /** The segments of a path. */
  function Split(s: Str): (segments: seq<Str>)
    ensures segments != []
    decreases |s|
  {
    match Find(s, '/', 0)
    case None => [s]
    case Some(end) => [Substr(s, 0, end)] + Split(Drop(s, end + 1))
  }

  function Join(segments: seq<Str>): Str
    requires segments != []
  {
    if |segments| == 1 then segments[0] else segments[0] + "/" + Join(segments[1..])
  }

  /** Splitting loses nothing, so two paths split alike exactly when they are equal. */
  lemma {:induction false} JoinOfSplit(s: Str)
    ensures Join(Split(s)) == s
    decreases |s|
  {
    var end := Find(s, '/', 0);
    if end.Some? {
      var rest := Drop(s, end.value + 1);
      JoinOfSplit(rest);
      assert Split(s)[1..] == Split(rest);
      assert s == Substr(s, 0, end.value) + "/" + rest;
    }
  }

  /** No segment holds a slash. */
  lemma {:induction false} SegmentsHaveNoSlash(s: Str, i: nat, k: nat)
    requires i < |Split(s)| && k < |Split(s)[i]|
    ensures Split(s)[i][k] != '/'
    decreases |s|
  {
    var end := Find(s, '/', 0);
    if end.Some? && i > 0 {
      var rest := Split(Drop(s, end.value + 1));
      assert Split(s) == [Substr(s, 0, end.value)] + rest;
      hide Split;
      assert Split(s)[i] == rest[i - 1];
      SegmentsHaveNoSlash(Drop(s, end.value + 1), i - 1, k);
    }
  }

  // ---------- The route list ----------

  // substr(1) of an empty path throws, so the constructor of the handler demands this of its routes.
  predicate HasPath(r: Route) { r.path != [] }

  /** Where a route's callback is put: the method, then the segments after the first byte of the path. */
  function Address(r: Route): seq<Str>
    requires HasPath(r)
  {
    [r.verb] + if r.path == "/" then [] else Split(r.path[1..])
  }

  predicate HavePaths(routes: seq<Route>) { forall i :: 0 <= i < |routes| ==> HasPath(routes[i]) }

  /** The callback of the last route at an address. */
  function LastAt(routes: seq<Route>, a: seq<Str>): Option<Handler>
    requires HavePaths(routes)
  {
    if routes == [] then None
    else
      var last := routes[|routes| - 1];
      if Address(last) == a then last.cb else LastAt(routes[..|routes| - 1], a)
  }

  lemma LastAtAppend(routes: seq<Route>, r: Route, a: seq<Str>)
    requires HavePaths(routes) && HasPath(r)
    ensures LastAt(routes + [r], a) == if Address(r) == a then r.cb else LastAt(routes, a)
  {
    assert (routes + [r])[..|routes|] == routes;
  }

  /** The path of a URI: what comes before the query. */
  function PathOf(uri: Str): Str {
    match Find(uri, '?', 0)
    case None => uri
    case Some(i) => uri[..i]
  }

  /** The callback a request is dispatched to; None is the answer 404. */
  function Dispatch(routes: seq<Route>, base: Str, verb: Str, uri: Str): Option<Handler>
    requires HavePaths(routes)
  {
    var path := PathOf(uri);
    if !(base <= path) then None
    else if |path| == |base| then LastAt(routes, [verb])
    else LastAt(routes, [verb] + Split(path[|base| + 1..]))
  }

  // ---------- The tree ----------

  // The address one segment below `a`.
  ghost function Down(a: seq<Str>, segment: Str): seq<Str> { a + [segment] }

  ghost function Onto(a: seq<Str>, more: seq<Str>): seq<Str> { a + more }

  // The address one segment above `a`.
  ghost function Up(a: seq<Str>): seq<Str> { if a == [] then [] else a[..|a| - 1] }

  lemma DownIsInjective(a: seq<Str>, k: Str, b: seq<Str>, j: Str)
    requires Down(a, k) == Down(b, j)
    ensures a == b && k == j
  {
    assert Down(a, k)[..|a|] == a && Down(a, k)[|a|] == k;
    assert Down(b, j)[..|b|] == b && Down(b, j)[|b|] == j;
  }

  lemma DownAt(a: seq<Str>, k: Str)
    ensures |Down(a, k)| == |a| + 1 && Up(Down(a, k)) == a
  {
  }

  // The segments a cursor at `from` still has to pass.
  ghost function Ahead(s: Str, from: nat): seq<Str>
    requires from <= |s|
  {
    Split(Drop(s, from))
  }

  lemma AheadStep(s: Str, from: nat)
    requires from <= |s|
    ensures var end := Find(s, '/', from);
            Ahead(s, from) ==
            if end.None? then [Substr(s, from, |s|)] else [Substr(s, from, end.value)] + Ahead(s, end.value + 1)
  {
    FindInDrop(s, '/', from);
    var end := Find(Drop(s, from), '/', 0);
    assert Substr(s, from, |s|) == Drop(s, from);
    hide Find, Drop, Substr;
    if end.Some? {
      SubstrOfDrop(s, from, 0, end.value);
      SubstrOfDrop(s, from, 0, end.value + 1);
    }
  }

  lemma OntoStep(a: seq<Str>, segment: Str, rest: seq<Str>)
    ensures Onto(a, [segment] + rest) == Onto(Down(a, segment), rest)
  {
  }

  /** One turn of a cursor loop: the segment found moves from the rest of the path to the address. */
  lemma CursorStep(a: seq<Str>, s: Str, from: nat, end: nat)
    requires from <= |s| && Find(s, '/', from) == Some(end)
    ensures Onto(a, Ahead(s, from)) == Onto(Down(a, Substr(s, from, end)), Ahead(s, end + 1))
  {
    AheadStep(s, from);
    hide Find, Ahead, Substr;
    OntoStep(a, Substr(s, from, end), Ahead(s, end + 1));
  }

  /** After the last slash, the rest of the path is the last segment. */
  lemma CursorEnds(a: seq<Str>, s: Str, from: nat)
    requires from <= |s| && Find(s, '/', from) == None
    ensures Onto(a, Ahead(s, from)) == Down(a, Substr(s, from, |s|))
  {
    AheadStep(s, from);
    hide Find, Ahead, Substr;
  }

  class RouterNode {
    var children: map<Str, RouterNode>
    var cb: Option<Handler>
    // Where the tree holds this node.
    ghost const address: seq<Str>

    constructor (ghost address: seq<Str>)
      ensures children == map[] && cb == None && this.address == address
    {
      children, cb := map[], None;
      this.address := address;
    }
  }

  class RequestHandler {
    const basePath: Str
    var roots: map<Str, RouterNode>
    // The node at each address: the tree owns one node an address, and no other.
    ghost var nodes: map<seq<Str>, RouterNode>
    ghost var repr: set<RouterNode>
    ghost var routes: seq<Route>

    /** A node's map leads to the node one segment further, if there is one. */
    ghost predicate Link(a: seq<Str>, k: Str)
      requires a in nodes
      reads this, repr, nodes[a]
    {
      && (k in nodes[a].children <==> Down(a, k) in nodes)
      && (k in nodes[a].children ==> nodes[Down(a, k)] == nodes[a].children[k])
    }

    ghost predicate Shape()
      reads this, repr
    {
      && [] !in nodes
      && (forall a :: a in nodes ==> nodes[a] in repr && nodes[a].address == a)
      && (forall a {:trigger Up(a)} :: a in nodes && |a| > 1 ==> Up(a) in nodes)
      && (forall m :: m in roots <==> [m] in nodes)
      && (forall m :: m in roots ==> nodes[[m]] == roots[m])
      && (forall a, k :: a in nodes ==> Link(a, k))
    }

    // The pointer `ptr` stands at the address `a`.
    ghost predicate At(ptr: RouterNode, a: seq<Str>)
      reads this
    {
      ptr in repr && a in nodes && nodes[a] == ptr
    }

    ghost function Lookup(a: seq<Str>): Option<Handler>
      reads this, repr
    {
      if a in nodes && nodes[a] in repr then nodes[a].cb else None
    }

    ghost function Callbacks(): imap<seq<Str>, Option<Handler>>
      reads this, repr
    {
      imap a | true :: Lookup(a)
    }

    /** The tree holds, at every address, the callback of the last route registered there. */
    ghost predicate Valid()
      reads this, repr
    {
      Shape() && HavePaths(routes) && forall a :: Lookup(a) == LastAt(routes, a)
    }

    lemma IsOwned(ptr: RouterNode, a: seq<Str>)
      requires At(ptr, a)
      ensures ptr in repr
    {
    }

    lemma NothingUnder(a: seq<Str>)
      requires Shape() && a != [] && a !in nodes
      ensures forall k :: Down(a, k) !in nodes
    {
      forall k ensures Down(a, k) !in nodes { DownAt(a, k); }
    }

    // What is known of an address with no node, under one that has a node.
    lemma FreeAddress(a: seq<Str>, segment: Str)
      requires Shape() && a in nodes && Down(a, segment) !in nodes
      ensures var d := Down(a, segment);
              && |d| > 1 && Up(d) == a && (forall k :: Down(d, k) !in nodes && Down(d, k) != d)
              && forall b, k :: Down(b, k) == d ==> b == a && k == segment
    {
      var d := Down(a, segment);
      DownAt(a, segment);
      NothingUnder(d);
      forall k ensures Down(d, k) != d { DownAt(d, k); }
      forall b, k | Down(b, k) == d ensures b == a && k == segment { DownIsInjective(b, k, a, segment); }
    }

    method Attach(ptr: RouterNode, ghost a: seq<Str>, segment: Str, n: RouterNode)
      requires Shape() && At(ptr, a) && segment !in ptr.children && Down(a, segment) !in nodes
      requires n !in repr && n.children == map[] && n.cb == None && n.address == Down(a, segment)
      modifies this`nodes, this`repr, ptr`children
      ensures Shape() && At(n, Down(a, segment)) && repr == old(repr) + {n}
      ensures forall b :: Lookup(b) == old(Lookup(b))
    {
      FreeAddress(a, segment);
      ptr.children := ptr.children[segment := n];
      nodes, repr := nodes[Down(a, segment) := n], repr + {n};
      hide Down, Up;
      forall b, k | b in nodes
        ensures Link(b, k)
      {
        assert b in old(nodes) ==> old(Link(b, k));
      }
      hide Link;
    }

    method NewChild(ptr: RouterNode, ghost a: seq<Str>, segment: Str) returns (n: RouterNode)
      requires Shape() && At(ptr, a) && segment !in ptr.children
      modifies this`nodes, this`repr, ptr`children
      ensures Shape() && At(n, Down(a, segment))
      ensures forall b :: Lookup(b) == old(Lookup(b))
      ensures fresh(repr - old(repr))
    {
      assert Link(a, segment);
      hide *;
      n := new RouterNode(Down(a, segment));
      Attach(ptr, a, segment, n);
    }

    method Child(ptr: RouterNode, ghost a: seq<Str>, segment: Str) returns (node: RouterNode)
      requires Shape() && At(ptr, a)
      modifies this`nodes, this`repr, ptr`children
      ensures Shape() && At(node, Down(a, segment))
      ensures Callbacks() == old(Callbacks())
      ensures fresh(repr - old(repr))
    {
      assert Link(a, segment);
      if segment in ptr.children {
        node := ptr.children[segment];
      } else {
        node := NewChild(ptr, a, segment);
      }
    }

    /** One turn of it: the pointer moves over the segment from `start` to `end`. */
    method Advance(top: RouterNode, ghost at: seq<Str>, path: Str, start: nat, end: nat)
      returns (ptr: RouterNode, ghost a: seq<Str>)
      requires Shape() && At(top, at) && start <= end < |path| && Find(path, '/', start) == Some(end)
      modifies this`nodes, this`repr, top`children
      ensures Shape() && At(ptr, a)
      ensures Onto(a, Ahead(path, end + 1)) == Onto(at, Ahead(path, start))
      ensures Callbacks() == old(Callbacks())
      ensures top in old(repr) && fresh(repr - old(repr))
    {
      IsOwned(top, at);
      CursorStep(at, path, start, end);
      hide *;
      ptr := Child(top, at, Substr(path, start, end));
      a := Down(at, Substr(path, start, end));
    }

    /** The loop: it stops before the last segment, with the pointer at the node above. */
    method Descend(top: RouterNode, ghost at: seq<Str>, path: Str)
      returns (ptr: RouterNode, start: nat, ghost a: seq<Str>)
      requires Shape() && At(top, at) && path != []
      modifies this`nodes, this`repr, repr
      ensures Shape() && At(ptr, a) && start <= |path| && Find(path, '/', start) == None
      ensures Onto(a, Ahead(path, start)) == Onto(at, Ahead(path, 1))
      ensures Callbacks() == old(Callbacks())
      ensures fresh(repr - old(repr))
    {
      hide *;
      a, ptr, start := at, top, 1;
      var end := Find(path, '/', start);
      while end.Some?
        invariant 1 <= start <= |path| && end == Find(path, '/', start)
        invariant Shape() && At(ptr, a)
        invariant Onto(a, Ahead(path, start)) == Onto(at, Ahead(path, 1))
        invariant Callbacks() == old(Callbacks())
        invariant fresh(repr - old(repr))
        decreases |path| - start
      {
        IsOwned(ptr, a);
        ptr, a := Advance(ptr, a, path, start, end.value);
        start := end.value + 1;
        end := Find(path, '/', start);
      }
    }

    /** What is left behind the last slash is the last segment of the route's address. */
    lemma LastCut(rtr: Route, a: seq<Str>, start: nat)
      requires HasPath(rtr) && rtr.path != "/" && start <= |rtr.path| && Find(rtr.path, '/', start) == None
      requires Onto(a, Ahead(rtr.path, start)) == Onto([rtr.verb], Ahead(rtr.path, 1))
      ensures Down(a, Substr(rtr.path, start, |rtr.path|)) == Address(rtr)
    {
      CursorEnds(a, rtr.path, start);
      assert Address(rtr) == Onto([rtr.verb], Split(rtr.path[1..]));
    }

    method ReachBelow(top: RouterNode, rtr: Route) returns (ptr: RouterNode)
      requires Shape() && At(top, [rtr.verb]) && HasPath(rtr) && rtr.path != "/"
      modifies this`nodes, this`repr, repr
      ensures Shape() && At(ptr, Address(rtr))
      ensures Callbacks() == old(Callbacks())
      ensures fresh(repr - old(repr))
    {
      assert rtr.path != [];
      hide *;
      ghost var a;
      var start;
      ptr, start, a := Descend(top, [rtr.verb], rtr.path);
      LastCut(rtr, a, start);
      IsOwned(ptr, a);
      ptr := Child(ptr, a, Substr(rtr.path, start, |rtr.path|));
    }

    method AttachRoot(verb: Str, n: RouterNode)
      requires Shape() && verb !in roots
      requires n !in repr && n.children == map[] && n.cb == None && n.address == [verb]
      modifies this`roots, this`nodes, this`repr
      ensures Shape() && roots == old(roots)[verb := n] && repr == old(repr) + {n}
      ensures forall b :: Lookup(b) == old(Lookup(b))
    {
      NothingUnder([verb]);
      roots := roots[verb := n];
      nodes, repr := nodes[[verb] := n], repr + {n};
      forall a, k | a in nodes
        ensures Link(a, k)
      {
        DownAt(a, k);
        assert a in old(nodes) ==> old(Link(a, k));
      }
      hide Link, Down;
    }

    method Root(verb: Str) returns (node: RouterNode)
      requires Shape()
      modifies this`roots, this`nodes, this`repr
      ensures Shape() && At(node, [verb])
      ensures Callbacks() == old(Callbacks())
      ensures fresh(repr - old(repr))
    {
      if verb !in roots {
        var n := new RouterNode([verb]);
        AttachRoot(verb, n);
      }
      node := roots[verb];
    }

    /** The moving pointer: the node at the route's address, with the missing nodes on the way made. */
    method Reach(rtr: Route) returns (ptr: RouterNode)
      requires Shape() && HasPath(rtr)
      modifies this`roots, this`nodes, this`repr, repr
      ensures Shape() && At(ptr, Address(rtr))
      ensures Callbacks() == old(Callbacks())
      ensures fresh(repr - old(repr))
    {
      ptr := Root(rtr.verb);
      if rtr.path != "/" {
        ptr := ReachBelow(ptr, rtr);
      } else {
        assert Address(rtr) == [rtr.verb];
      }
    }

    /** One turn of the constructor's loop. */
    method Register(rtr: Route)
      requires Valid() && HasPath(rtr)
      modifies this, repr
      ensures Valid() && routes == old(routes) + [rtr]
      ensures fresh(repr - old(repr))
    {
      hide Address, LastAt;
      var ptr := Reach(rtr);
      forall b ensures Lookup(b) == LastAt(routes, b) { assert Callbacks()[b] == old(Callbacks())[b]; }
      label Reached:
      ptr.cb := rtr.cb;
      routes := routes + [rtr];
      forall b
        ensures Lookup(b) == LastAt(routes, b)
      {
        LastAtAppend(old(routes), rtr, b);
        assert b != Address(rtr) ==> Lookup(b) == old@Reached(Lookup(b));
      }
      assert Shape() by {
        forall a, k | a in nodes ensures Link(a, k) { assert old@Reached(Link(a, k)); }
      }
    }

    constructor (routers: seq<Route>, basePath: Str)
      requires HavePaths(routers)
      ensures Valid() && routes == routers && this.basePath == basePath
    {
      this.basePath := basePath;
      roots, nodes, repr, routes := map[], map[], {}, [];
      new;
      for i := 0 to |routers|
        invariant Valid() && routes == routers[..i]
        invariant fresh(repr)
      {
        assert routers[..i + 1] == routers[..i] + [routers[i]];
        Register(routers[i]);
      }
    }

    lemma Linked(a: seq<Str>, k: Str)
      requires Shape() && a in nodes
      ensures Link(a, k)
    {
    }

    lemma {:induction false} NothingBelow(a: seq<Str>, more: seq<Str>)
      requires Shape() && a != [] && a !in nodes
      ensures Onto(a, more) !in nodes
      decreases |more|
    {
      if more == [] {
        assert Onto(a, more) == a;
      } else {
        var front := more[..|more| - 1];
        NothingBelow(a, front);
        assert Up(Onto(a, more)) == Onto(a, front);
      }
    }

    lemma InRepr(a: seq<Str>)
      requires Shape() && a in nodes
      ensures nodes[a] in repr
    {
    }

    method Walk(top: RouterNode, ghost at: seq<Str>, path: Str, from: nat) returns (cb: Option<Handler>)
      requires Shape() && at in nodes && nodes[at] == top && from <= |path|
      ensures cb == Lookup(Onto(at, Ahead(path, from)))
    {
      ghost var a, target := at, Onto(at, Ahead(path, from));
      var node := top;
      var start := from;
      var end := Find(path, '/', start);
      hide Ahead, Substr, Down, Onto, Shape, Find;
      while end.Some?
        invariant start <= |path| && end == Find(path, '/', start)
        invariant a in nodes && nodes[a] == node
        invariant Onto(a, Ahead(path, start)) == target
        decreases |path| - start
      {
        var segment := Substr(path, start, end.value);
        CursorStep(a, path, start, end.value);
        Linked(a, segment);
        if segment !in node.children {
          DownAt(a, segment);
          NothingBelow(Down(a, segment), Ahead(path, end.value + 1));
          return None;
        }
        node := node.children[segment];
        a := Down(a, segment);
        start := end.value + 1;
        end := Find(path, '/', start);
      }
      var leaf := Substr(path, start, |path|);
      CursorEnds(a, path, start);
      Linked(a, leaf);
      if leaf !in node.children {
        return None;
      }
      node := node.children[leaf];
      InRepr(a);
      InRepr(Down(a, leaf));
      return node.cb;
    }

    /** The callback the request is given to, or None for 404. */
    method HandleRequest(verb: Str, uri: Str) returns (cb: Option<Handler>)
      requires Valid()
      ensures cb == Dispatch(routes, basePath, verb, uri)
    {
      var path := PathOf(uri);
      if !(basePath <= path) {
        return None;
      }
      if verb !in roots {
        NothingBelow([verb], if |path| == |basePath| then [] else Split(path[|basePath| + 1..]));
        assert [verb] + [] == [verb];
        return None;
      }
      var node := roots[verb];
      if |path| == |basePath| {
        return node.cb;
      }
      cb := Walk(node, [verb], path, |basePath| + 1);
    }
  }
}
