/** What follows from the agreement of machine and grammar: exactness, round trips, splitting, version arithmetic. */
module RequestLaws {
  import opened Strings
  import opened RequestParser
  import opened RequestGrammar
  import opened RequestTrace

  // ---------- The main results ----------

  /** The parser accepts a byte string exactly when some well-formed head is spelled at its start. */
  lemma AcceptedExactlyWhenInGrammar(s: Str, m: int, n: int)
    ensures Run(Fresh(m, n), s).verdict == Good <==> exists src :: WellFormed(src) && Render(src) <= s
  {
    hide Run, Render, WellFormed, Meaning;
    if Run(Fresh(m, n), s).verdict == Good {
      var src := OnlyGrammarIsAccepted(s, m, n);
    }
    if src :| WellFormed(src) && Render(src) <= s {
      GrammarIsAccepted(src, s[|Render(src)|..], m, n);
      assert s == Render(src) + s[|Render(src)|..];
    }
  }

  /** Two spellings at the start of the same bytes are equally long and mean the same. */
  lemma GrammarIsUnambiguous(s: Str, a: Source, b: Source)
    requires WellFormed(a) && WellFormed(b) && Render(a) <= s && Render(b) <= s
    ensures Render(a) == Render(b) && Meaning(a) == Meaning(b)
  {
    hide Run, Render, Meaning, WellFormed;
    GrammarIsAccepted(a, s[|Render(a)|..], 0, 0);
    GrammarIsAccepted(b, s[|Render(b)|..], 0, 0);
    assert s == Render(a) + s[|Render(a)|..] == Render(b) + s[|Render(b)|..];
  }

  predicate HeaderOk(h: Header) { h.name != [] && Token(h.name) && Text(h.value) }

  /** What a request holds after a verdict of `Good`. */
  predicate WellFormedHead(h: Head) {
    && h.verb != [] && Token(h.verb)
    && UriText(h.uri)
    && 0 <= h.major && 0 <= h.minor
    && forall i :: 0 <= i < |h.headers| ==> HeaderOk(h.headers[i])
  }

  function Fields(hs: seq<Header>): (lines: seq<Line>)
    ensures |lines| == |hs|
    ensures forall i :: 0 <= i < |hs| ==> lines[i] == Field(hs[i].name, hs[i].value)
  {
    seq(|hs|, i requires 0 <= i < |hs| => Field(hs[i].name, hs[i].value))
  }

  /** The canonical spelling: versions without leading zeros, one `name: value` line a header, no folds. */
  function Canonical(h: Head): (src: Source)
    requires WellFormedHead(h)
    ensures WellFormed(src)
  {
    Source(h.verb, h.uri, Decimal(h.major), Decimal(h.minor), Fields(h.headers))
  }

  function Print(h: Head): Str
    requires WellFormedHead(h)
  {
    Render(Canonical(h))
  }

  lemma {:induction false} HeadersOfFields(hs: seq<Header>)
    ensures Headers(Fields(hs)) == hs
    decreases |hs|
  {
    if hs != [] {
      var before := hs[..|hs| - 1];
      HeadersOfFields(before);
      assert Fields(hs)[..|hs| - 1] == Fields(before);
      assert hs == before + [hs[|hs| - 1]];
    }
  }

  lemma {:induction false} HeadersAreOk(lines: seq<Line>)
    requires LinesOk(lines)
    ensures forall i :: 0 <= i < |Headers(lines)| ==> HeaderOk(Headers(lines)[i])
    decreases |lines|
  {
    if lines != [] {
      HeadersAreOk(lines[..|lines| - 1]);
    }
  }

  /** Print, then parse: every field comes back, and what follows the head is left alone. */
  lemma PrintThenParse(h: Head, rest: Str, m: int, n: int)
    requires WellFormedHead(h)
    ensures Run(Fresh(m, n), Print(h) + rest)
         == Outcome(Config(Newline3, h, h.major <= VERSION_MAX && h.minor <= VERSION_MAX), Good, |Print(h)|)
  {
    GrammarIsAccepted(Canonical(h), rest, m, n);
    HeadersOfFields(h.headers);
  }

  /**
   * Parse, then print: whatever was accepted, the canonical print of what the request then holds is accepted
   * too, to its last byte, and gives the same request.
   */
  lemma CanonicalFormIsAFixedPoint(s: Str, m: int, n: int, m': int, n': int)
    requires Run(Fresh(m, n), s).verdict == Good
    ensures var first := Run(Fresh(m, n), s).config;
            && WellFormedHead(first.head)
            && Run(Fresh(m', n'), Print(first.head)) == Outcome(first, Good, |Print(first.head)|)
  {
    var src := OnlyGrammarIsAccepted(s, m, n);
    var h := Meaning(src);
    HeadersAreOk(src.lines);
    PrintThenParse(h, [], m', n');
    assert Print(h) + [] == Print(h);
  }

  // ---------- When a verdict is given ----------

  // The bytes that take a state one step on towards the end of a head.
  function Onward(state: State): Byte {
    match state
    case MethodStart => 'G'
    case Method => ' '
    case Uri => ' '
    case VersionH => 'H'
    case VersionT1 => 'T'
    case VersionT2 => 'T'
    case VersionP => 'P'
    case VersionSlash => '/'
    case MajorStart => '1'
    case Major => '.'
    case MinorStart => '1'
    case Minor => '\r'
    case Newline1 => '\n'
    case LineStart => '\r'
    case Lws => '\r'
    case Name => ':'
    case SpaceBeforeValue => ' '
    case Value => '\r'
    case Newline2 => '\n'
    case Newline3 => '\n'
  }

  function StepsLeft(state: State): nat {
    match state
    case MethodStart => 14
    case Method => 13
    case Uri => 12
    case VersionH => 11
    case VersionT1 => 10
    case VersionT2 => 9
    case VersionP => 8
    case VersionSlash => 7
    case MajorStart => 6
    case Major => 5
    case MinorStart => 4
    case Minor => 3
    case Newline1 => 2
    case LineStart => 1
    case Lws => 3
    case Name => 5
    case SpaceBeforeValue => 4
    case Value => 3
    case Newline2 => 2
    case Newline3 => 0
  }

  lemma OneStepOn(c: Config)
    requires BackIsSafe(c)
    ensures var (c', v) := Step(c, Onward(c.state));
            if c.state == Newline3 then v == Good
            else v == Indeterminate && StepsLeft(c'.state) < StepsLeft(c.state)
  {
  }

  /** Whatever has been read without a verdict can be completed to a head that is accepted. */
  lemma {:induction false} CanBeCompleted(c: Config) returns (more: Str)
    requires BackIsSafe(c)
    ensures Run(c, more).verdict == Good
    decreases StepsLeft(c.state)
  {
    OneStepOn(c);
    var (c', v) := Step(c, Onward(c.state));
    more := [];
    if c.state != Newline3 {
      hide Step;
      more := CanBeCompleted(c');
    }
    assert ([Onward(c.state)] + more)[1..] == more;
    more := [Onward(c.state)] + more;
  }

  /** A byte string is refused as soon as nothing that follows could make it a head, and never before. */
  lemma RefusedExactlyWhenHopeless(s: Str, m: int, n: int)
    ensures Run(Fresh(m, n), s).verdict == Bad <==> forall more :: Run(Fresh(m, n), s + more).verdict != Good
  {
    var r := Run(Fresh(m, n), s);
    forall more
      ensures r.verdict == Bad ==> Run(Fresh(m, n), s + more).verdict == Bad
      ensures r.verdict == Good ==> Run(Fresh(m, n), s + more).verdict == Good
    {
      RunAppend(Fresh(m, n), s, more);
    }
    if r.verdict == Indeterminate {
      var more := CanBeCompleted(r.config);
      RunAppend(Fresh(m, n), s, more);
      assert Run(Fresh(m, n), s + more).verdict == Good;
    } else {
      assert r.verdict == Good ==> Run(Fresh(m, n), s + []).verdict == Good;
    }
    hide Run;
  }

  // ---------- Splitting the input over several reads ----------

  function Flatten(pieces: seq<Str>): Str {
    if pieces == [] then [] else pieces[0] + Flatten(pieces[1..])
  }

  /** Successive calls of parse, one a piece, up to the first verdict. */
  function Feed(c: Config, pieces: seq<Str>): Outcome
    requires BackIsSafe(c)
    decreases |pieces|
  {
    if pieces == [] then Outcome(c, Indeterminate, 0)
    else
      var first := Run(c, pieces[0]);
      if first.verdict != Indeterminate then first
      else
        var rest := Feed(first.config, pieces[1..]);
        rest.(consumed := |pieces[0]| + rest.consumed)
  }

  /** However the bytes are cut into reads, verdict, request and bytes consumed are those of one call on all. */
  lemma {:induction false} SplittingDoesNotMatter(c: Config, pieces: seq<Str>)
    requires BackIsSafe(c)
    ensures Feed(c, pieces) == Run(c, Flatten(pieces))
    decreases |pieces|
  {
    if pieces != [] {
      RunAppend(c, pieces[0], Flatten(pieces[1..]));
      if Run(c, pieces[0]).verdict == Indeterminate {
        SplittingDoesNotMatter(Run(c, pieces[0]).config, pieces[1..]);
      }
    }
  }

  lemma VerdictChangesNothing(c: Config, b: Byte)
    requires BackIsSafe(c) && Step(c, b).1 != Indeterminate
    ensures Step(c, b).0 == c
  {
  }

  /**
   * A verdict is not remembered: the byte that got it changed nothing, so a later call goes on, in what it does,
   * what it answers and how far it moves, as if that byte had never been sent.
   */
  lemma VerdictIsNotSticky(c: Config, s: Str, more: Str)
    requires BackIsSafe(c) && Run(c, s).verdict != Indeterminate
    ensures var k, later := Run(c, s).consumed, Run(Run(c, s).config, more);
            Run(c, s[..k - 1] + more) == later.(consumed := k - 1 + later.consumed)
  {
    VerdictByte(c, s);
    var k := Run(c, s).consumed;
    RunAppend(c, s[..k - 1], more);
    VerdictChangesNothing(Run(c, s[..k - 1]).config, s[k - 1]);
  }

  // ---------- Version arithmetic ----------

  function PowerOfTen(n: nat): nat { if n == 0 then 1 else 10 * PowerOfTen(n - 1) }

  lemma {:induction false} DecimalBound(s: Str)
    requires Digits(s)
    ensures DecimalValue(s) < PowerOfTen(|s|)
    decreases |s|
  {
    if s != [] {
      DecimalBound(s[..|s| - 1]);
    }
  }

  lemma {:induction false} PowerOfTenGrows(a: nat, b: nat)
    requires a <= b
    ensures PowerOfTen(a) <= PowerOfTen(b)
    decreases b
  {
    if a < b {
      PowerOfTenGrows(a, b - 1);
    }
  }

  lemma {:induction false} LeadingZeros(zeros: Str, digits: Str)
    requires Digits(digits)
    requires forall i :: 0 <= i < |zeros| ==> zeros[i] == '0'
    ensures Digits(zeros + digits) && DecimalValue(zeros + digits) == DecimalValue(digits)
    decreases |zeros| + |digits|
  {
    if digits != [] {
      LeadingZeros(zeros, digits[..|digits| - 1]);
      assert (zeros + digits)[..|zeros + digits| - 1] == zeros + digits[..|digits| - 1];
    } else if zeros != [] {
      LeadingZeros(zeros[..|zeros| - 1], []);
      assert zeros[..|zeros| - 1] + [] == (zeros + digits)[..|zeros| - 1];
    }
  }

  /** Nine digits never overflow; leading zeros are free. */
  lemma NineDigitsFit(zeros: Str, digits: Str)
    requires Digits(digits) && |digits| <= 9
    requires forall i :: 0 <= i < |zeros| ==> zeros[i] == '0'
    ensures Digits(zeros + digits) && DecimalValue(zeros + digits) == DecimalValue(digits)
    ensures VersionFits(zeros + digits)
  {
    LeadingZeros(zeros, digits);
    DecimalBound(digits);
    assert PowerOfTen(9) == 1000000000;
    PowerOfTenGrows(|digits|, 9);
  }
}
