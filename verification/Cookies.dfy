/** Cookie strings: parse_cookie in wrappers/http/connection.cpp, and the cookies the server sets, cookie.hpp. */
module Cookies {
  import opened Strings

  // What parse_cookie fills: the session id and the other cookies.
  datatype Jar = Jar(session: Str, others: map<Str, Str>)

  /** One `name=value` piece; a piece without '=' is skipped. */
  function AddPiece(jar: Jar, piece: Str): Jar {
    match Find(piece, '=', 0)
    case None => jar
    case Some(mid) =>
      if piece[..mid] == "SESSION" then jar.(session := piece[mid + 1..])
      else jar.(others := jar.others[piece[..mid] := piece[mid + 1..]])
  }

  /** A piece without '=' is skipped. */
  lemma NamelessPieceIsSkipped(jar: Jar, piece: Str)
    requires NoByte(piece, '=')
    ensures AddPiece(jar, piece) == jar
  {
    FindNothing(piece, '=', 0);
  }

  /**
   * The cursor loop from `start` on. Each ';' ends a piece and the byte after it is skipped unread, so the
   * cursor can pass the end; the last substr then throws: None.
   */
  function ParseFrom(jar: Jar, s: Str, start: nat): Option<Jar>
    decreases |s| + 1 - start
  {
    match Find(s, ';', start)
    case Some(end) => ParseFrom(AddPiece(jar, Substr(s, start, end)), s, end + 2)
    case None => if start > |s| then None else Some(AddPiece(jar, Substr(s, start, |s|)))
  }

  /** The same loop, on what is left of the string. */
  function Parse(jar: Jar, s: Str): Option<Jar>
    decreases |s|
  {
    match Find(s, ';', 0)
    case Some(end) => if end + 2 > |s| then None else Parse(AddPiece(jar, Substr(s, 0, end)), Drop(s, end + 2))
    case None => Some(AddPiece(jar, s))
  }

  lemma OneTurn(jar: Jar, s: Str)
    ensures var end := Find(s, ';', 0);
            Parse(jar, s) ==
            if end.None? then Some(AddPiece(jar, s))
            else if end.value + 2 > |s| then None
            else Parse(AddPiece(jar, Substr(s, 0, end.value)), Drop(s, end.value + 2))
  {
    hide AddPiece, Drop, Substr, Find;
  }

  lemma OneTurnFrom(jar: Jar, s: Str, start: nat)
    requires start <= |s|
    ensures var end := Find(s, ';', start);
            ParseFrom(jar, s, start) ==
            if end.None? then Some(AddPiece(jar, Drop(s, start)))
            else if end.value + 2 > |s| then None
            else ParseFrom(AddPiece(jar, Substr(s, start, end.value)), s, end.value + 2)
  {
    assert Substr(s, start, |s|) == Drop(s, start);
    hide AddPiece, Drop, Substr;
  }

  lemma {:induction false} CursorIsSuffix(jar: Jar, s: Str, start: nat)
    requires start <= |s|
    ensures ParseFrom(jar, s, start) == Parse(jar, Drop(s, start))
    decreases |s| - start
  {
    hide AddPiece, Drop, Substr, Parse, ParseFrom, Find;
    var tail := Drop(s, start);
    FindInDrop(s, ';', start);
    OneTurn(jar, tail);
    OneTurnFrom(jar, s, start);
    var end := Find(tail, ';', 0);
    if end.Some? {
      SubstrOfDrop(s, start, 0, end.value);
      if end.value + 2 <= |tail| {
        SubstrOfDrop(s, start, 0, end.value + 2);
        CursorIsSuffix(AddPiece(jar, Substr(tail, 0, end.value)), s, start + end.value + 2);
      }
    }
  }

  // ---------- Strings that are pieces joined ----------

  /** Pieces with ';' between them, each followed by the byte that is skipped. */
  function Joined(pieces: seq<Str>, gaps: Str): Str
    requires |pieces| == |gaps| + 1
  {
    if gaps == [] then pieces[0]
    else pieces[0] + [';', gaps[0]] + Joined(pieces[1..], gaps[1..])
  }

  // The text of a set-cookie value with one more piece at its end.
  lemma {:induction false} JoinedAppend(pieces: seq<Str>, gaps: Str, last: Str, gap: Byte)
    requires |pieces| == |gaps| + 1
    ensures Joined(pieces + [last], gaps + [gap]) == Joined(pieces, gaps) + ([';', gap] + last)
    decreases |gaps|
  {
    if gaps == [] {
      assert (pieces + [last])[1..] == [last] && (gaps + [gap])[1..] == [];
    } else {
      JoinedAppend(pieces[1..], gaps[1..], last, gap);
      assert (pieces + [last])[1..] == pieces[1..] + [last] && (gaps + [gap])[1..] == gaps[1..] + [gap];
      var p, more := pieces[0] + [';', gaps[0]], [';', gap] + last;
      assert p + Joined(pieces[1..], gaps[1..]) + more == p + (Joined(pieces[1..], gaps[1..]) + more);
    }
  }

  function AddPieces(jar: Jar, pieces: seq<Str>): Jar
    decreases |pieces|
  {
    if pieces == [] then jar else AddPieces(AddPiece(jar, pieces[0]), pieces[1..])
  }

  /** Whatever the skipped bytes are, the pieces are added one by one. */
  lemma {:induction false} ParseJoined(jar: Jar, pieces: seq<Str>, gaps: Str)
    requires |pieces| == |gaps| + 1
    requires forall i :: 0 <= i < |pieces| ==> NoByte(pieces[i], ';')
    ensures Parse(jar, Joined(pieces, gaps)) == Some(AddPieces(jar, pieces))
    decreases |gaps|
  {
    var s := Joined(pieces, gaps);
    if gaps == [] {
      FindNothing(s, ';', 0);
      assert AddPieces(AddPiece(jar, pieces[0]), pieces[1..]) == AddPiece(jar, pieces[0]);
    } else {
      var p, rest := pieces[0], Joined(pieces[1..], gaps[1..]);
      assert s == p + [';'] + ([gaps[0]] + rest);
      FindAfter(p, ';', [gaps[0]] + rest, 0);
      assert Substr(s, 0, |p|) == p && Drop(s, |p| + 2) == rest;
      ParseJoined(AddPiece(jar, p), pieces[1..], gaps[1..]);
    }
  }

  /** How many ';' a string ends in. */
  function Trailing(s: Str): nat {
    if s != [] && s[|s| - 1] == ';' then 1 + Trailing(s[..|s| - 1]) else 0
  }

  lemma {:induction false} TrailingAppend(a: Str, b: Str)
    ensures Trailing(b) <= |b|
    ensures Trailing(a + b) == if Trailing(b) == |b| then |b| + Trailing(a) else Trailing(b)
    decreases |b|
  {
    if b == [] {
      assert a + b == a;
    } else {
      TrailingAppend(a, b[..|b| - 1]);
      assert (a + b)[..|a + b| - 1] == a + b[..|b| - 1];
    }
  }

  lemma TrailingOfFirst(s: Str, e: nat)
    requires e < |s| && Find(s, ';', 0) == Some(e)
    ensures e + 1 == |s| ==> Trailing(s) == 1
    ensures e + 2 <= |s| ==> Trailing(s[..e + 2]) == if s[e + 1] == ';' then 2 else 0
  {
    assert Trailing(s[..e]) == 0;
    assert s[..e + 1][..e] == s[..e];
    if e + 2 <= |s| {
      assert s[..e + 2][..e + 1] == s[..e + 1];
    } else {
      assert s[..e + 1] == s;
    }
  }

  /** A first ';' and the byte behind it do not change the parity. */
  lemma TrailingParity(s: Str, e: nat)
    requires e + 2 <= |s| && Find(s, ';', 0) == Some(e)
    ensures Trailing(s) % 2 == Trailing(Drop(s, e + 2)) % 2
  {
    TrailingOfFirst(s, e);
    TrailingAppend(s[..e + 2], Drop(s, e + 2));
    assert s == s[..e + 2] + Drop(s, e + 2);
  }

  /** The parser throws exactly when the string ends in an odd number of ';': the last of them ends a piece. */
  lemma {:induction false} ThrowsExactlyAtOddTrailing(jar: Jar, s: Str)
    ensures Parse(jar, s) == None <==> Trailing(s) % 2 == 1
    decreases |s|
  {
    OneTurn(jar, s);
    hide Find, Parse, AddPiece, Substr;
    var end := Find(s, ';', 0);
    if end.None? {
      assert Trailing(s) == 0;
    } else if end.value + 2 > |s| {
      TrailingOfFirst(s, end.value);
    } else {
      hide Trailing;
      TrailingParity(s, end.value);
      ThrowsExactlyAtOddTrailing(AddPiece(jar, Substr(s, 0, end.value)), Drop(s, end.value + 2));
    }
  }

  // ---------- Cookie strings of name and value pairs ----------

  datatype Pair = Pair(name: Str, value: Str)

  predicate PairOk(p: Pair) { NoByte(p.name, ';') && NoByte(p.name, '=') && NoByte(p.value, ';') }

  predicate PairsOk(pairs: seq<Pair>) { forall i :: 0 <= i < |pairs| ==> PairOk(pairs[i]) }

  function PairText(name: Str, value: Str): Str { name + "=" + value }

  function Piece(p: Pair): Str { PairText(p.name, p.value) }

  function Pieces(pairs: seq<Pair>): (pieces: seq<Str>)
    ensures |pieces| == |pairs|
    ensures forall i :: 0 <= i < |pairs| ==> pieces[i] == Piece(pairs[i])
  {
    seq(|pairs|, i requires 0 <= i < |pairs| => Piece(pairs[i]))
  }

  /** Pieces, each but the first behind "; ". */
  function Listed(list: seq<Str>): Str
    requires list != []
  {
    Joined(list, seq(|list| - 1, _ => ' '))
  }

  /** A cookie string as section 4.2.1 of RFC 6265 has it: pairs joined by "; ". */
  function CookieString(pairs: seq<Pair>): Str
    requires pairs != []
  {
    Listed(Pieces(pairs))
  }

  /** The value of the last pair of a name. */
  function LastValue(pairs: seq<Pair>, name: Str): Option<Str> {
    if pairs == [] then None
    else if pairs[|pairs| - 1].name == name then Some(pairs[|pairs| - 1].value)
    else LastValue(pairs[..|pairs| - 1], name)
  }

  predicate HoldsLastAt(jar: Jar, pairs: seq<Pair>, was: Jar, n: Str) {
    var last := LastValue(pairs, n);
    if n != "SESSION" && last.Some? then n in jar.others && jar.others[n] == last.value
    else (n in jar.others <==> n in was.others) && (n in jar.others ==> jar.others[n] == was.others[n])
  }

  // The jar holds, for every name, the last value, and for SESSION the session id.
  ghost predicate HoldsLast(jar: Jar, pairs: seq<Pair>, was: Jar) {
    && jar.session == (if LastValue(pairs, "SESSION").Some? then LastValue(pairs, "SESSION").value else was.session)
    && forall n :: n in jar.others || n in was.others || LastValue(pairs, n).Some? ==> HoldsLastAt(jar, pairs, was, n)
  }

  lemma AddPair(jar: Jar, p: Pair)
    requires PairOk(p)
    ensures AddPiece(jar, Piece(p)) ==
            if p.name == "SESSION" then jar.(session := p.value)
            else jar.(others := jar.others[p.name := p.value])
  {
    FindAfter(p.name, '=', p.value, 0);
    assert Piece(p)[..|p.name|] == p.name && Piece(p)[|p.name| + 1..] == p.value;
  }

  lemma {:induction false} AddPiecesAppend(jar: Jar, pieces: seq<Str>, last: Str)
    ensures AddPieces(jar, pieces + [last]) == AddPiece(AddPieces(jar, pieces), last)
    decreases |pieces|
  {
    if pieces == [] {
      assert pieces + [last] == [last] && [last][1..] == [];
    } else {
      AddPiecesAppend(AddPiece(jar, pieces[0]), pieces[1..], last);
      assert (pieces + [last])[1..] == pieces[1..] + [last];
    }
  }

  lemma {:induction false} PairsHoldLast(jar: Jar, pairs: seq<Pair>)
    requires PairsOk(pairs)
    ensures HoldsLast(AddPieces(jar, Pieces(pairs)), pairs, jar)
    decreases |pairs|
  {
    if pairs != [] {
      var front, last := pairs[..|pairs| - 1], pairs[|pairs| - 1];
      PairsHoldLast(jar, front);
      assert Pieces(pairs) == Pieces(front) + [Piece(last)];
      AddPiecesAppend(jar, Pieces(front), Piece(last));
      var before := AddPieces(jar, Pieces(front));
      AddPair(before, last);
      var after := AddPieces(jar, Pieces(pairs));
      forall n | n in after.others || n in jar.others || LastValue(pairs, n).Some?
        ensures HoldsLastAt(after, pairs, jar, n)
      {
        assert n in before.others || n in jar.others || LastValue(front, n).Some? ==>
            HoldsLastAt(before, front, jar, n);
      }
    }
  }

  /** A cookie string never throws, and gives the last value of every name. */
  lemma CookieStringParses(jar: Jar, pairs: seq<Pair>)
    requires pairs != [] && PairsOk(pairs)
    ensures ParseFrom(jar, CookieString(pairs), 0).Some?
    ensures HoldsLast(ParseFrom(jar, CookieString(pairs), 0).value, pairs, jar)
  {
    var s := CookieString(pairs);
    CursorIsSuffix(jar, s, 0);
    assert Drop(s, 0) == s;
    forall i | 0 <= i < |pairs|
      ensures NoByte(Pieces(pairs)[i], ';')
    {
      assert PairOk(pairs[i]);
    }
    ParseJoined(jar, Pieces(pairs), seq(|pairs| - 1, _ => ' '));
    PairsHoldLast(jar, pairs);
  }

  // ---------- The cookies the server sets ----------

  const PATH: Str := "; Path="
  const DOMAIN: Str := "; Domain="
  const SAME_SITE: Str := "; SameSite="
  const MAX_AGE: Str := "; MaxAge="
  const SECURE: Str := "; Secure"
  const HTTP_ONLY: Str := "; HttpOnly"

  // What follows the pair: nothing, or an attribute and its ';'.
  predicate AttributesText(s: Str) { s != [] ==> s[0] == ';' }

  function With(text: Str, on: bool, more: Str): Str { if on then text + more else text }

  lemma WithAttribute(p: Str, a: Str, on: bool, more: Str) returns (b: Str)
    requires AttributesText(a) && AttributesText(more)
    ensures With(p + a, on, more) == p + b && AttributesText(b)
  {
    b := if on then a + more else a;
    assert p + a + more == p + (a + more);
  }

  function Added(list: seq<Str>, on: bool, last: Str): seq<Str> { if on then list + [last] else list }

  lemma ListedWith(list: seq<Str>, on: bool, key: Str, start: Str, value: Str)
    requires list != [] && start == "; " + key
    ensures Added(list, on, key + value) != []
    ensures With(Listed(list), on, start + value) == Listed(Added(list, on, key + value))
  {
    if on {
      var last := key + value;
      assert start + value == "; " + last;
      var gaps: Str := seq(|list| - 1, _ => ' ');
      JoinedAppend(list, gaps, last, ' ');
      assert gaps + [' '] == seq(|list|, _ => ' ');
      assert [';', ' '] + last == "; " + last;
    }
  }

  lemma ListedFlag(list: seq<Str>, on: bool, key: Str, start: Str)
    requires list != [] && start == "; " + key
    ensures Added(list, on, key) != [] && With(Listed(list), on, start) == Listed(Added(list, on, key))
  {
    assert key + [] == key && start + [] == start;
    hide Listed;
    ListedWith(list, on, key, start, []);
  }

  // The names of the attributes, in the order they are sent in.
  function Label(i: nat): Str {
    match i
    case 0 => "Path="
    case 1 => "Domain="
    case 2 => "SameSite="
    case 3 => "MaxAge="
    case 4 => "Secure"
    case _ => "HttpOnly"
  }

  lemma Labels()
    ensures PATH == "; " + Label(0) && DOMAIN == "; " + Label(1) && SAME_SITE == "; " + Label(2)
    ensures MAX_AGE == "; " + Label(3) && SECURE == "; " + Label(4) && HTTP_ONLY == "; " + Label(5)
  {
  }

  class Cookie {
    var name: Str
    var value: Str
    var path: Str
    var domain: Str
    var sameSite: Str
    var maxAge: int
    var secure: bool
    var httpOnly: bool
    var cookieValue: Str

    constructor (name: Str, value: Str, path: Str, sameSite: Str, maxAge: int)
      ensures this.name == name && this.value == value && this.path == path && domain == []
      ensures this.sameSite == sameSite && this.maxAge == maxAge && !secure && !httpOnly && cookieValue == []
    {
      this.name, this.value, this.path, domain, this.sameSite := name, value, path, [], sameSite;
      this.maxAge, secure, httpOnly, cookieValue := maxAge, false, false, [];
    }

    /** The text of the fields. */
    function Rendered(): Str
      reads this
    {
      With(With(With(With(With(With(
        PairText(name, value),
        path != [], PATH + path),
        domain != [], DOMAIN + domain),
        sameSite != [], SAME_SITE + sameSite),
        maxAge > -1, MAX_AGE + Decimal(if maxAge > -1 then maxAge else 0)),
        secure, SECURE),
        httpOnly, HTTP_ONLY)
    }

    /**
     * The first call renders the fields and keeps the text; later calls give that text again, even when a
     * field has changed in between. A cookie without a name is never rendered.
     */
    method ToString() returns (text: Str)
      modifies this`cookieValue
      ensures text == cookieValue
      ensures cookieValue ==
              if old(cookieValue) != [] then old(cookieValue) else if name == [] then [] else old(Rendered())
    {
      if cookieValue != [] {
        return cookieValue;
      }
      if name == [] {
        cookieValue := [];
        return cookieValue;
      }
      var val := PairText(name, value);
      if path != [] {
        val := val + (PATH + path);
      }
      if domain != [] {
        val := val + (DOMAIN + domain);
      }
      if sameSite != [] {
        val := val + (SAME_SITE + sameSite);
      }
      if maxAge > -1 {
        val := val + (MAX_AGE + Decimal(maxAge));
      }
      if secure {
        val := val + SECURE;
      }
      if httpOnly {
        val := val + HTTP_ONLY;
      }
      cookieValue := val;
      return cookieValue;
    }

    // The pair, then the attributes that are set, in the order they are sent in.
    function Attributes(): (list: seq<Str>)
      reads this
      ensures list != []
    {
      Added(Added(Added(Added(Added(Added(
        [PairText(name, value)],
        path != [], Label(0) + path),
        domain != [], Label(1) + domain),
        sameSite != [], Label(2) + sameSite),
        maxAge > -1, Label(3) + PrintInt(maxAge)),
        secure, Label(4)),
        httpOnly, Label(5))
    }

    /** A cookie's text is its list of attributes, each behind "; ". */
    lemma RenderedIsJoined()
      ensures Rendered() == Listed(Attributes())
    {
      var l := [PairText(name, value)];
      assert Listed(l) == PairText(name, value);
      if maxAge > -1 {
        assert PrintInt(maxAge) == Decimal(maxAge);
      }
      hide With, Added, Listed, PairText, PrintInt, Decimal, Label;
      Labels();
      ListedWith(l, path != [], Label(0), PATH, path);
      l := Added(l, path != [], Label(0) + path);
      ListedWith(l, domain != [], Label(1), DOMAIN, domain);
      l := Added(l, domain != [], Label(1) + domain);
      ListedWith(l, sameSite != [], Label(2), SAME_SITE, sameSite);
      l := Added(l, sameSite != [], Label(2) + sameSite);
      ListedWith(l, maxAge > -1, Label(3), MAX_AGE, PrintInt(maxAge));
      l := Added(l, maxAge > -1, Label(3) + PrintInt(maxAge));
      ListedFlag(l, secure, Label(4), SECURE);
      ListedFlag(Added(l, secure, Label(4)), httpOnly, Label(5), HTTP_ONLY);
    }

    /** Everything a cookie renders after its pair begins with ';'. */
    lemma RenderedShape() returns (attributes: Str)
      ensures Rendered() == PairText(name, value) + attributes && AttributesText(attributes)
    {
      var p := PairText(name, value);
      var a := WithAttribute(p, [], path != [], PATH + path);
      a := WithAttribute(p, a, domain != [], DOMAIN + domain);
      a := WithAttribute(p, a, sameSite != [], SAME_SITE + sameSite);
      a := WithAttribute(p, a, maxAge > -1, MAX_AGE + Decimal(if maxAge > -1 then maxAge else 0));
      a := WithAttribute(p, a, secure, SECURE);
      attributes := WithAttribute(p, a, httpOnly, HTTP_ONLY);
      assert p + [] == p;
    }
  }

  /** What a browser keeps of a Set-Cookie value: the bytes before the first ';'. */
  function BrowserPart(text: Str): Str {
    match Find(text, ';', 0) case None => text case Some(i) => text[..i]
  }

  /** Of a rendered cookie the browser keeps exactly the pair. */
  lemma BrowserKeepsThePair(p: Pair, attributes: Str)
    requires PairOk(p) && AttributesText(attributes)
    ensures BrowserPart(Piece(p) + attributes) == Piece(p)
  {
    var text := Piece(p) + attributes;
    if attributes == [] {
      assert text == Piece(p);
      FindNothing(text, ';', 0);
    } else {
      assert text == Piece(p) + [';'] + attributes[1..];
      FindAfter(Piece(p), ';', attributes[1..], 0);
    }
  }

  lemma {:induction false} LastValueOf(pairs: seq<Pair>, k: nat)
    requires k < |pairs|
    requires forall i :: 0 <= i < |pairs| && i != k ==> pairs[i].name != pairs[k].name
    ensures LastValue(pairs, pairs[k].name) == Some(pairs[k].value)
    decreases |pairs|
  {
    if k < |pairs| - 1 {
      LastValueOf(pairs[..|pairs| - 1], k);
    }
  }

  lemma PairsAround(before: seq<Pair>, p: Pair, after: seq<Pair>)
    requires PairsOk(before + after) && PairOk(p)
    requires forall i :: 0 <= i < |before + after| ==> (before + after)[i].name != "SESSION"
    ensures var pairs := before + [p] + after;
            PairsOk(pairs) && forall i :: 0 <= i < |pairs| && i != |before| ==> pairs[i].name != "SESSION"
  {
    var pairs := before + [p] + after;
    hide PairOk;
    forall i | 0 <= i < |pairs|
      ensures PairOk(pairs[i]) && (i != |before| ==> pairs[i].name != "SESSION")
    {
      if i != |before| {
        assert pairs[i] == (before + after)[if i < |before| then i else i - 1];
      }
    }
  }

  /**
   * A session id without ';' survives the browser: what it keeps of the cookie's text, sent back at any place
   * of a cookie string with no other SESSION pair, is parsed to the same id.
   */
  lemma SessionSurvivesTheBrowser(jar: Jar, c: Cookie, before: seq<Pair>, after: seq<Pair>)
    requires c.name == "SESSION" && NoByte(c.value, ';')
    requires PairsOk(before + after)
    requires forall i :: 0 <= i < |before + after| ==> (before + after)[i].name != "SESSION"
    ensures var pairs := before + [Pair(c.name, c.value)] + after;
            && Pieces(pairs)[|before|] == BrowserPart(c.Rendered())
            && PairsOk(pairs)
            && ParseFrom(jar, CookieString(pairs), 0).Some?
            && ParseFrom(jar, CookieString(pairs), 0).value.session == c.value
  {
    var p := Pair(c.name, c.value);
    var pairs := before + [p] + after;
    assert PairOk(p);
    hide ParseFrom, CookieString, LastValue, BrowserPart, PairText, AttributesText, PairOk, Cookie.Rendered;
    var attributes := c.RenderedShape();
    BrowserKeepsThePair(p, attributes);
    PairsAround(before, p, after);
    CookieStringParses(jar, pairs);
    LastValueOf(pairs, |before|);
  }
}
