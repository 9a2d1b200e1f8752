/** Percent decoding: url_decode in wrappers/http/request_handler.cpp. */
module UrlDecode {
  import opened Strings

  // How an input stream reads two characters as a hexadecimal number; None where the extraction fails.
  type HexReader = (Byte, Byte) -> Option<Byte>

  function HexValue(c: Byte): Option<nat> {
    if '0' <= c <= '9' then Some(c as int - 48)
    else if 'a' <= c <= 'f' then Some(c as int - 87)
    else if 'A' <= c <= 'F' then Some(c as int - 55)
    else None
  }

  // All that is assumed of a reader: two hexadecimal digits are read as the number they spell.
  ghost predicate ReadsHex(read: HexReader) {
    forall a: Byte, b: Byte :: HexValue(a).Some? && HexValue(b).Some? ==>
      read(a, b) == Some((16 * HexValue(a).value + HexValue(b).value) as char)
  }

  function Prepend(out: Str, rest: Option<Str>): Option<Str> {
    if rest.None? then None else Some(out + rest.value)
  }

  lemma PrependTwice(a: Str, b: Str, rest: Option<Str>)
    ensures Prepend(a, Prepend(b, rest)) == Prepend(a + b, rest)
    ensures Prepend([], rest) == rest
  {
    if rest.Some? {
      assert a + (b + rest.value) == a + b + rest.value;
      assert [] + rest.value == rest.value;
    }
  }

  function Decoded(s: Str, read: HexReader): Option<Str>
    decreases |s|
  {
    if s == [] then Some([])
    else if s[0] == '%' then
      if |s| < 3 || read(s[1], s[2]).None? then None
      else Prepend([read(s[1], s[2]).value], Decoded(s[3..], read))
    else Prepend([if s[0] == '+' then ' ' else s[0]], Decoded(s[1..], read))
  }

  method Decode(input: Str, read: HexReader) returns (ok: bool, out: Str)
    ensures ok <==> Decoded(input, read).Some?
    ensures ok ==> Some(out) == Decoded(input, read)
  {
    out := [];
    var i := 0;
    assert input[0..] == input;
    PrependTwice([], [], Decoded(input, read));
    while i < |input|
      invariant i <= |input|
      invariant Decoded(input, read) == Prepend(out, Decoded(input[i..], read))
    {
      ghost var rest, before := input[i..], out;
      if input[i] == '%' {
        if i + 3 <= |input| {
          var value := read(input[i + 1], input[i + 2]);
          if value.None? {
            return false, out;
          }
          assert rest[3..] == input[i + 3..];
          PrependTwice(out, [value.value], Decoded(rest[3..], read));
          out := out + [value.value];
          i := i + 2;
        } else {
          return false, out;
        }
      } else {
        var c := if input[i] == '+' then ' ' else input[i];
        assert rest[1..] == input[i + 1..];
        PrependTwice(out, [c], Decoded(rest[1..], read));
        out := out + [c];
      }
      i := i + 1;
    }
    assert input[i..] == [] && out + [] == out;
    ok := true;
  }

  // ---------- What is decoded ----------

  // What the loop takes in one turn: a byte as it is, a '+', or '%' and two characters the reader accepts.
  datatype Unit = Literal(c: Byte) | Space | Coded(a: Byte, b: Byte)

  predicate UnitOk(u: Unit, read: HexReader) {
    match u
    case Literal(c) => c != '%' && c != '+'
    case Space => true
    case Coded(a, b) => read(a, b).Some?
  }

  function UnitText(u: Unit): Str {
    match u
    case Literal(c) => [c]
    case Space => "+"
    case Coded(a, b) => ['%', a, b]
  }

  function UnitValue(u: Unit, read: HexReader): Byte
    requires UnitOk(u, read)
  {
    match u
    case Literal(c) => c
    case Space => ' '
    case Coded(a, b) => read(a, b).value
  }

  predicate UnitsOk(units: seq<Unit>, read: HexReader) {
    forall i :: 0 <= i < |units| ==> UnitOk(units[i], read)
  }

  function UnitsText(units: seq<Unit>): Str {
    if units == [] then [] else UnitText(units[0]) + UnitsText(units[1..])
  }

  function UnitsValue(units: seq<Unit>, read: HexReader): Str
    requires UnitsOk(units, read)
  {
    seq(|units|, i requires 0 <= i < |units| => UnitValue(units[i], read))
  }

  lemma UnitDecodes(u: Unit, rest: Str, read: HexReader)
    requires UnitOk(u, read)
    ensures Decoded(UnitText(u) + rest, read) == Prepend([UnitValue(u, read)], Decoded(rest, read))
  {
    var s := UnitText(u) + rest;
    assert s[|UnitText(u)|..] == rest;
    if u.Coded? {
      assert s[0] == '%' && s[1] == u.a && s[2] == u.b;
    }
  }

  lemma {:induction false} UnitsDecode(units: seq<Unit>, read: HexReader)
    requires UnitsOk(units, read)
    ensures Decoded(UnitsText(units), read) == Some(UnitsValue(units, read))
    decreases |units|
  {
    if units != [] {
      UnitsDecode(units[1..], read);
      UnitDecodes(units[0], UnitsText(units[1..]), read);
      assert [UnitValue(units[0], read)] + UnitsValue(units[1..], read) == UnitsValue(units, read);
    }
  }

  lemma {:induction false} DecodedHasUnits(s: Str, read: HexReader) returns (units: seq<Unit>)
    requires Decoded(s, read).Some?
    ensures UnitsOk(units, read) && UnitsText(units) == s
    decreases |s|
  {
    units := [];
    if s != [] {
      var u := if s[0] == '%' then Coded(s[1], s[2]) else if s[0] == '+' then Space else Literal(s[0]);
      var rest := s[|UnitText(u)|..];
      assert s == UnitText(u) + rest && UnitOk(u, read);
      var more := DecodedHasUnits(rest, read);
      units := [u] + more;
      assert units[1..] == more;
    }
  }

  /** A string decodes to another exactly when it spells, unit by unit, what that other string holds. */
  lemma DecodedExactly(s: Str, t: Str, read: HexReader)
    ensures Decoded(s, read) == Some(t) <==>
            exists units :: UnitsOk(units, read) && UnitsText(units) == s && UnitsValue(units, read) == t
  {
    if Decoded(s, read) == Some(t) {
      var units := DecodedHasUnits(s, read);
      UnitsDecode(units, read);
    }
    if units :| UnitsOk(units, read) && UnitsText(units) == s && UnitsValue(units, read) == t {
      UnitsDecode(units, read);
    }
  }

  // ---------- Encoders ----------

  // How one byte is written: as it is, as '+', or as '%' and two digits, each in either case.
  datatype Style = Plain | Plus | Escape(upper1: bool, upper2: bool)

  function HexDigit(v: nat, upper: bool): Byte
    requires v < 16
  {
    (if v < 10 then v + 48 else if upper then v + 55 else v + 87) as char
  }

  predicate Suits(style: Style, c: Byte) {
    match style
    case Plain => c != '%' && c != '+'
    case Plus => c == ' '
    case Escape(_, _) => true
  }

  function Written(c: Byte, style: Style): Str {
    match style
    case Plain => [c]
    case Plus => "+"
    case Escape(u1, u2) => ['%', HexDigit(c as int / 16, u1), HexDigit(c as int % 16, u2)]
  }

  function Encoded(s: Str, styles: seq<Style>): Str
    requires |styles| == |s|
  {
    if s == [] then [] else Written(s[0], styles[0]) + Encoded(s[1..], styles[1..])
  }

  lemma HexDigits(c: Byte, v: nat)
    ensures HexValue(c) == Some(v) <==> v < 16 && (c == "0123456789abcdef"[v] || c == "0123456789ABCDEF"[v])
  {
  }

  lemma HexDigitReads(v: nat, upper: bool)
    requires v < 16
    ensures HexValue(HexDigit(v, upper)) == Some(v)
  {
  }

  lemma WrittenDecodes(c: Byte, style: Style, rest: Str, read: HexReader)
    requires Suits(style, c) && ReadsHex(read)
    ensures Decoded(Written(c, style) + rest, read) == Prepend([c], Decoded(rest, read))
  {
    var s := Written(c, style) + rest;
    if style.Escape? {
      HexDigitReads(c as int / 16, style.upper1);
      HexDigitReads(c as int % 16, style.upper2);
      assert s[0] == '%' && s[1] == Written(c, style)[1] && s[2] == Written(c, style)[2];
      assert (16 * (c as int / 16) + c as int % 16) as char == c;
      assert s[3..] == rest;
    } else {
      assert s[1..] == rest;
    }
  }

  /** Decoding inverts every encoder: whichever bytes it escapes, in whichever case. */
  lemma {:induction false} DecodeInvertsEncode(s: Str, styles: seq<Style>, read: HexReader)
    requires |styles| == |s| && ReadsHex(read)
    requires forall i :: 0 <= i < |s| ==> Suits(styles[i], s[i])
    ensures Decoded(Encoded(s, styles), read) == Some(s)
    decreases |s|
  {
    if s != [] {
      DecodeInvertsEncode(s[1..], styles[1..], read);
      WrittenDecodes(s[0], styles[0], Encoded(s[1..], styles[1..]), read);
      assert [s[0]] + s[1..] == s;
    }
  }
}
