/** Byte strings and the std::string and utils::string operations the server is built on. */
module Strings {

  datatype Option<+T> = None | Some(value: T)

  // A C++ char. It is signed on the server's platform: codes from 128 on are its negative values.
  type Byte = c: char | c as int < 256 witness ' '
  type Str = seq<Byte>

  /** The value of a char once it is promoted to int. */
  function Promoted(c: Byte): int {
    if c as int < 128 then c as int else c as int - 256
  }

  /** It is the 8-bit two's complement value. */
  lemma PromotedIsSigned(c: Byte)
    ensures -128 <= Promoted(c) < 128 && (Promoted(c) - c as int) % 256 == 0
  {
  }

  /** std::string::find of one char; None stands for npos. */
  function Find(s: Str, c: Byte, from: nat): (r: Option<nat>)
    ensures r.Some? ==> from <= r.value < |s| && s[r.value] == c && forall i :: from <= i < r.value ==> s[i] != c
    ensures r.None? ==> forall i :: from <= i < |s| ==> s[i] != c
    decreases |s| - from
  {
    if from >= |s| then None
    else if s[from] == c then Some(from)
    else Find(s, c, from + 1)
  }

  predicate NoByte(s: Str, c: Byte) { forall i :: 0 <= i < |s| ==> s[i] != c }

  lemma {:induction false} FindAfter(a: Str, c: Byte, b: Str, from: nat)
    requires NoByte(a, c) && from <= |a|
    ensures Find(a + [c] + b, c, from) == Some(|a|)
    decreases |a| - from
  {
    var s := a + [c] + b;
    if from < |a| {
      assert s[from] == a[from];
      FindAfter(a, c, b, from + 1);
    } else {
      assert s[from] == c;
    }
  }

  lemma FindNothing(a: Str, c: Byte, from: nat)
    requires NoByte(a, c)
    ensures Find(a, c, from) == None
  {
  }

  lemma {:induction false} FindShifted(s: Str, c: Byte, k: nat, from: nat)
    requires k + from <= |s|
    ensures Find(s, c, k + from) ==
            match Find(s[k..], c, from) case None => None case Some(i) => Some(k + i)
    decreases |s| - from
  {
    if k + from < |s| && s[k + from] != c {
      FindShifted(s, c, k, from + 1);
    }
  }

  /** std::string::substr, by its two ends. */
  function Substr(s: Str, from: nat, to: nat): Str
    requires from <= to <= |s|
  {
    s[from..to]
  }

  function Drop(s: Str, k: nat): Str
    requires k <= |s|
  {
    s[k..]
  }

  lemma SubstrOfDrop(s: Str, k: nat, i: nat, j: nat)
    requires i <= j && k + j <= |s|
    ensures |Drop(s, k)| == |s| - k
    ensures Substr(Drop(s, k), i, j) == Substr(s, k + i, k + j)
    ensures Drop(Drop(s, k), j) == Drop(s, k + j)
  {
  }

  lemma FindInDrop(s: Str, c: Byte, k: nat)
    requires k <= |s|
    ensures |Drop(s, k)| == |s| - k
    ensures Find(s, c, k) ==
            match Find(Drop(s, k), c, 0) case None => None case Some(i) => Some(k + i)
  {
    FindShifted(s, c, k, 0);
  }

  // ---------- Decimal numerals ----------

  predicate IsDigit(c: Byte) { 48 <= Promoted(c) <= 57 }

  lemma DigitBytes(c: Byte)
    ensures IsDigit(c) <==> c in "0123456789"
  {
  }

  predicate Digits(s: Str) { forall i :: 0 <= i < |s| ==> IsDigit(s[i]) }

  function DigitValue(c: Byte): nat
    requires IsDigit(c)
  {
    Promoted(c) - 48
  }

  function DecimalValue(s: Str): nat
    requires Digits(s)
  {
    if s == [] then 0
    else DecimalValue(s[..|s| - 1]) * 10 + DigitValue(s[|s| - 1])
  }

  /** The decimal numeral std::to_string and "%d" print for a number that is not negative. */
  function Decimal(n: nat): (s: Str)
    ensures s != [] && Digits(s) && (|s| > 1 ==> s[0] != '0')
    ensures DecimalValue(s) == n
  {
    var last: Byte := (48 + n % 10) as char;
    if n < 10 then [last]
    else
      var s := Decimal(n / 10) + [last];
      assert s[..|s| - 1] == Decimal(n / 10);
      s
  }

  // ---------- Trimming ----------

  /** isspace in the C locale. */
  predicate IsSpace(c: Byte) { c == ' ' || 9 <= c as int <= 13 }

  // Tab, line feed, vertical tab, form feed, carriage return, space.
  lemma SpaceBytes(c: Byte)
    ensures IsSpace(c) <==> c as int in [9, 10, 11, 12, 13, 32]
  {
  }

  predicate Spaces(s: Str) { forall i :: 0 <= i < |s| ==> IsSpace(s[i]) }

  function Ltrim(s: Str): Str {
    if s != [] && IsSpace(s[0]) then Ltrim(s[1..]) else s
  }

  function Rtrim(s: Str): Str {
    if s != [] && IsSpace(s[|s| - 1]) then Rtrim(s[..|s| - 1]) else s
  }

  function Trim(s: Str): Str { Rtrim(Ltrim(s)) }

  /** Neither end is a space. */
  predicate Trimmed(s: Str) { s != [] ==> !IsSpace(s[0]) && !IsSpace(s[|s| - 1]) }

  lemma {:induction false} LtrimDropsSpaces(s: Str)
    ensures |Ltrim(s)| <= |s|
    ensures Ltrim(s) == s[|s| - |Ltrim(s)|..] && Spaces(s[..|s| - |Ltrim(s)|])
    ensures Ltrim(s) != [] ==> !IsSpace(Ltrim(s)[0])
    decreases |s|
  {
    if s != [] && IsSpace(s[0]) {
      LtrimDropsSpaces(s[1..]);
      var k := |s| - |Ltrim(s)|;
      assert s[1..][k - 1..] == s[k..];
      assert s[..k] == [s[0]] + s[1..][..k - 1];
    }
  }

  lemma {:induction false} RtrimDropsSpaces(s: Str)
    ensures |Rtrim(s)| <= |s|
    ensures Rtrim(s) == s[..|Rtrim(s)|] && Spaces(s[|Rtrim(s)|..])
    ensures Rtrim(s) != [] ==> !IsSpace(Rtrim(s)[|Rtrim(s)| - 1])
    decreases |s|
  {
    if s != [] && IsSpace(s[|s| - 1]) {
      RtrimDropsSpaces(s[..|s| - 1]);
      var k := |Rtrim(s)|;
      assert s[..|s| - 1][..k] == s[..k];
      assert s[k..] == s[..|s| - 1][k..] + [s[|s| - 1]];
    }
  }

  /** trim takes spaces off both ends, all of them, and nothing else. */
  lemma TrimDropsSpaces(s: Str) returns (left: Str, right: Str)
    ensures Spaces(left) && Spaces(right)
    ensures s == left + Trim(s) + right && Trimmed(Trim(s))
  {
    var l := Ltrim(s);
    LtrimDropsSpaces(s);
    RtrimDropsSpaces(l);
    assert Trim(s) == Rtrim(l);
    hide Ltrim, Rtrim, Trim, IsSpace;
    left, right := s[..|s| - |l|], l[|Rtrim(l)|..];
    assert s == left + l && l == Rtrim(l) + right;
  }

  lemma TrimmedStays(s: Str)
    requires Trimmed(s)
    ensures Trim(s) == s
  {
  }

  lemma TrimIsIdempotent(s: Str)
    ensures Trim(Trim(s)) == Trim(s) && Trimmed(Trim(s))
  {
    var left, right := TrimDropsSpaces(s);
    TrimmedStays(Trim(s));
  }

  /** ltrim: everything before the first byte that is not a space is erased. */
  method EraseLeft(s: Str) returns (t: Str)
    ensures t == Ltrim(s)
  {
    var i := 0;
    while i < |s| && IsSpace(s[i])
      invariant i <= |s| && Ltrim(s[i..]) == Ltrim(s)
    {
      assert s[i..][1..] == s[i + 1..];
      i := i + 1;
    }
    t := s[i..];
  }

  /** rtrim: everything behind the last byte that is not a space is erased. */
  method EraseRight(s: Str) returns (t: Str)
    ensures t == Rtrim(s)
  {
    var i := |s|;
    assert s[..i] == s;
    while i > 0 && IsSpace(s[i - 1])
      invariant i <= |s| && Rtrim(s[..i]) == Rtrim(s)
    {
      assert s[..i][..i - 1] == s[..i - 1];
      i := i - 1;
    }
    t := s[..i];
  }

  method EraseBoth(s: Str) returns (t: Str)
    ensures t == Trim(s)
  {
    t := EraseLeft(s);
    t := EraseRight(t);
  }

  // ---------- Case ----------

  /** tolower in the C locale. */
  function ToLower(c: Byte): Byte {
    if 'A' <= c <= 'Z' then (c as int + 32) as char else c
  }

  /** utils::string::iequals; the second string is in small letters. */
  predicate IEquals(s1: Str, s2: Str) {
    |s1| == |s2| && forall i :: 0 <= i < |s1| ==> ToLower(s1[i]) == s2[i]
  }

  // The same letter in either case, or the same byte.
  predicate SameButCase(a: Byte, b: Byte) {
    || a == b
    || ('a' <= b <= 'z' && a as int + 32 == b as int)
    || ('a' <= a <= 'z' && b as int + 32 == a as int)
  }

  predicate NoCapitals(s: Str) { forall i :: 0 <= i < |s| ==> !('A' <= s[i] <= 'Z') }

  /** iequals tells whether two strings differ in case alone, when the second has no capitals. */
  lemma IEqualsExactly(s: Str, t: Str)
    requires NoCapitals(t)
    ensures IEquals(s, t) <==> |s| == |t| && forall i :: 0 <= i < |s| ==> SameButCase(s[i], t[i])
  {
  }

  // ---------- Integers ----------

  const INT32_MIN := -0x8000_0000
  const INT32_MAX := 0x7fff_ffff
  const INT64_MIN := -0x8000_0000_0000_0000
  const INT64_MAX := 0x7fff_ffff_ffff_ffff

  function LeadingDigits(s: Str): (d: Str)
    ensures Digits(d) && |d| <= |s|
  {
    if s != [] && IsDigit(s[0]) then [s[0]] + LeadingDigits(s[1..]) else []
  }

  lemma {:induction false} LeadingDigitsOfNumeral(s: Str, rest: Str)
    requires Digits(s) && (rest == [] || !IsDigit(rest[0]))
    ensures LeadingDigits(s + rest) == s
    decreases |s|
  {
    if s == [] {
      assert s + rest == rest;
    } else {
      LeadingDigitsOfNumeral(s[1..], rest);
      assert (s + rest)[1..] == s[1..] + rest;
    }
  }

  lemma {:induction false} LeadingDigitsLead(s: Str)
    ensures var d := LeadingDigits(s); d == s[..|d|] && (|d| < |s| ==> !IsDigit(s[|d|]))
    decreases |s|
  {
    if s != [] && IsDigit(s[0]) {
      LeadingDigitsLead(s[1..]);
      var d := LeadingDigits(s[1..]);
      assert s[..|d| + 1] == [s[0]] + s[1..][..|d|];
    }
  }

  /** std::stoi and std::stoll: spaces, a sign, digits, and whatever follows; None where they throw. */
  function ParseInt(s: Str, min: int, max: int): Option<int> {
    var t := Ltrim(s);
    var signed := t != [] && (t[0] == '-' || t[0] == '+');
    var digits := LeadingDigits(if signed then t[1..] else t);
    var sign := if signed && t[0] == '-' then -1 else 1;
    var v := sign * DecimalValue(digits);
    if digits != [] && min <= v <= max then Some(v) else None
  }

  lemma {:induction false} LtrimSkips(spaces: Str, t: Str)
    requires Spaces(spaces) && (t == [] || !IsSpace(t[0]))
    ensures Ltrim(spaces + t) == t
    decreases |spaces|
  {
    if spaces == [] {
      assert spaces + t == t;
    } else {
      LtrimSkips(spaces[1..], t);
      assert (spaces + t)[1..] == spaces[1..] + t;
    }
  }

  // The parts an integer is read from: spaces, a sign or none, digits or none, and a rest that continues none of them.
  datatype IntText = IntText(spaces: Str, sign: Str, digits: Str, rest: Str)

  predicate IsIntText(p: IntText) {
    && Spaces(p.spaces) && (p.sign == [] || p.sign == "-" || p.sign == "+") && Digits(p.digits)
    && (p.rest == [] || !IsDigit(p.rest[0]))
    && (p.digits == [] && p.sign == [] && p.rest != [] ==>
          !IsSpace(p.rest[0]) && p.rest[0] != '-' && p.rest[0] != '+')
  }

  function Spell(p: IntText): Str { p.spaces + (p.sign + (p.digits + p.rest)) }

  function SignOf(t: Str): Str { if t != [] && (t[0] == '-' || t[0] == '+') then t[..1] else [] }

  lemma SignIsRead(p: IntText)
    requires IsIntText(p)
    ensures var t := p.sign + (p.digits + p.rest);
            SignOf(t) == p.sign && t[|p.sign|..] == p.digits + p.rest && (t != [] ==> !IsSpace(t[0]))
  {
    var u := p.digits + p.rest;
    var t := p.sign + u;
    if p.sign == [] {
      assert t == u;
      if p.digits == [] {
        assert u == p.rest;
      } else {
        assert u[0] == p.digits[0] && IsDigit(u[0]);
      }
    } else {
      assert t[0] == p.sign[0] && t[..1] == p.sign && t[1..] == u;
    }
  }

  /** What is read is decided by the digits and the sign, whatever follows; without digits it throws. */
  lemma ParsesExactly(p: IntText, min: int, max: int)
    requires IsIntText(p)
    ensures var v: int := if p.sign == "-" then 0 - DecimalValue(p.digits) else DecimalValue(p.digits);
            ParseInt(Spell(p), min, max) == if p.digits != [] && min <= v <= max then Some(v) else None
  {
    hide Ltrim, LeadingDigits, DecimalValue, IsSpace, IsDigit;
    SignIsRead(p);
    var t := p.sign + (p.digits + p.rest);
    LtrimSkips(p.spaces, t);
    LeadingDigitsOfNumeral(p.digits, p.rest);
    assert SignOf(t) == [] ==> t[0..] == t;
  }

  lemma HasSign(t: Str) returns (p: IntText)
    requires t != [] ==> !IsSpace(t[0])
    ensures IsIntText(p) && p.spaces == [] && p.sign + (p.digits + p.rest) == t
  {
    var sign := SignOf(t);
    var u := t[|sign|..];
    LeadingDigitsLead(u);
    var digits := LeadingDigits(u);
    p := IntText([], sign, digits, u[|digits|..]);
    hide LeadingDigits, IsSpace, IsDigit;
    assert u == digits + u[|digits|..] && t == sign + u;
  }

  /** Every string has such parts. */
  lemma HasIntText(s: Str) returns (p: IntText)
    ensures IsIntText(p) && Spell(p) == s
  {
    hide Ltrim, LeadingDigits, IsSpace, IsDigit, SignOf;
    LtrimDropsSpaces(s);
    var t := Ltrim(s);
    p := HasSign(t);
    p := p.(spaces := s[..|s| - |t|]);
    assert s == p.spaces + t;
  }

  function Stoi(s: Str): Option<int> { ParseInt(s, INT32_MIN, INT32_MAX) }

  /** std::to_string, and the "%d" and "%lld" the store's setters print with. */
  function PrintInt(n: int): Str {
    if n < 0 then "-" + Decimal(-n) else Decimal(n)
  }

  lemma PrintedIntHasNoSpace(n: int)
    ensures Ltrim(PrintInt(n)) == PrintInt(n)
  {
    hide DecimalValue, Decimal;
  }

  /** A number printed and parsed comes back, with either width, when it fits that width. */
  lemma PrintedIntParses(n: int, min: int, max: int)
    ensures ParseInt(PrintInt(n), min, max) == if min <= n <= max then Some(n) else None
  {
    hide DecimalValue, Decimal, LeadingDigits, Ltrim;
    var d, s := Decimal(if n < 0 then -n else n), PrintInt(n);
    LeadingDigitsOfNumeral(d, []);
    assert d + [] == d;
    PrintedIntHasNoSpace(n);
    assert n < 0 ==> s[0] == '-' && s[1..] == d;
    assert n >= 0 ==> s == d && IsDigit(s[0]);
    hide PrintInt;
  }

  /** A negative number is printed as '-' and the numeral of its opposite, any other as its numeral alone. */
  lemma PrintedIntShape(n: int)
    ensures n >= 0 ==> Digits(PrintInt(n))
    ensures n < 0 ==> PrintInt(n)[0] == '-' && PrintInt(n)[1..] == PrintInt(-n)
  {
    hide Decimal;
  }

  /** stoi reads exactly the printed integers of 32 bits, and stoll those of 64. */
  lemma WidthsAreExact(n: int)
    ensures Stoi(PrintInt(n)) == if -2147483648 <= n <= 2147483647 then Some(n) else None
    ensures ParseInt(PrintInt(n), INT64_MIN, INT64_MAX) ==
            if -9223372036854775808 <= n <= 9223372036854775807 then Some(n) else None
  {
    PrintedIntParses(n, INT32_MIN, INT32_MAX);
    PrintedIntParses(n, INT64_MIN, INT64_MAX);
    hide ParseInt, PrintInt;
  }
}
