/**
 * The table of users behind the pool (db/user/pg.cpp, db/user/sql.sql): its two statements, which share one name, and
 * what the connection a call gets makes of them.
 */
module UserTable {
  import opened Strings
  import opened Postgres

  datatype Row = Row(id: Str, hashed: Str)

  // The rows by username, the statements each connection has prepared, and the deque of connections.
  datatype UserDb = UserDb(users: map<Str, Row>, prepared: map<Client, map<Str, Str>>, deque: seq<Client>)

  function NewTable(clients: seq<Client>): UserDb { UserDb(map[], map[], clients) }

  function SelectText(): (s: Str)
    ensures s != [] && s[0] == 'S'
  {
    "SELECT id, username, password\n" + "FROM   users\nWHERE  username=$1" + "\nLIMIT  1;"
  }

  function InsertText(): (s: Str)
    ensures s != [] && s[0] == 'I'
  {
    "INSERT INTO users (username, " + "password)\nVALUES ($1, $2)\n" + "RETURNING id;"
  }

  // The name of every statement: the counter is never moved.
  function Name(): Str { Decimal(0) }

  function Select(): Statement { Statement(Name(), SelectText()) }

  function Insert(): Statement { Statement(Name(), InsertText()) }

  lemma TextsDiffer()
    ensures Select().query != Insert().query
  {
    hide SelectText, InsertText, Name;
    assert SelectText()[0] != InsertText()[0];
  }

  // ---------- The table as a database ----------

  const PRIMARY_KEY: Str := "users_pkey"
  const USERNAME_KEY: Str := "users_username_key"

  predicate IdTaken(users: map<Str, Row>, id: Str) { exists u :: u in users && users[u].id == id }

  const USERNAME_WIDTH := 50
  const PASSWORD_WIDTH := 150

  /** The characters of a text in UTF-8: the bytes that do not continue one. */
  function Characters(s: Str): nat {
    if s == [] then 0
    else
      var last := s[|s| - 1] as int;
      Characters(s[..|s| - 1]) + if 0x80 <= last < 0xC0 then 0 else 1
  }

  lemma {:induction false} AsciiCharacters(s: Str)
    requires forall i :: 0 <= i < |s| ==> s[i] as int < 0x80
    ensures Characters(s) == |s|
    decreases |s|
  {
    if s != [] {
      AsciiCharacters(s[..|s| - 1]);
    }
  }

  /** One code point in UTF-8, as section 3 of RFC 3629 has it. */
  function Utf8(cp: nat): Str
    requires cp < 0x11_0000
  {
    if cp < 0x80 then [cp as char]
    else if cp < 0x800 then [(0xC0 + cp / 0x40) as char, (0x80 + cp % 0x40) as char]
    else if cp < 0x1_0000 then
      [(0xE0 + cp / 0x1000) as char, (0x80 + cp / 0x40 % 0x40) as char, (0x80 + cp % 0x40) as char]
    else
      [(0xF0 + cp / 0x4_0000) as char, (0x80 + cp / 0x1000 % 0x40) as char, (0x80 + cp / 0x40 % 0x40) as char,
       (0x80 + cp % 0x40) as char]
  }

  function Utf8Text(cps: seq<nat>): Str
    requires forall i :: 0 <= i < |cps| ==> cps[i] < 0x11_0000
  {
    if cps == [] then [] else Utf8Text(cps[..|cps| - 1]) + Utf8(cps[|cps| - 1])
  }

  lemma OneByte(s: Str, b: Byte)
    ensures Characters(s + [b]) == Characters(s) + if 0x80 <= b as int < 0xC0 then 0 else 1
  {
    assert (s + [b])[..|s|] == s;
  }

  lemma {:induction false} Continued(s: Str, u: Str)
    requires forall i :: 0 <= i < |u| ==> 0x80 <= u[i] as int < 0xC0
    ensures Characters(s + u) == Characters(s)
    decreases |u|
  {
    if u == [] {
      assert s + u == s;
    } else {
      Continued(s, u[..|u| - 1]);
      OneByte(s + u[..|u| - 1], u[|u| - 1]);
      assert s + u == s + u[..|u| - 1] + [u[|u| - 1]];
    }
  }

  lemma CharactersOfOne(s: Str, cp: nat)
    requires cp < 0x11_0000
    ensures Characters(s + Utf8(cp)) == Characters(s) + 1
  {
    var u := Utf8(cp);
    hide Characters;
    OneByte(s, u[0]);
    Continued(s + [u[0]], u[1..]);
    assert s + u == s + [u[0]] + u[1..];
  }

  /** The characters counted are the code points encoded. */
  lemma {:induction false} CharactersAreCodePoints(cps: seq<nat>)
    requires forall i :: 0 <= i < |cps| ==> cps[i] < 0x11_0000
    ensures Characters(Utf8Text(cps)) == |cps|
    decreases |cps|
  {
    if cps != [] {
      CharactersAreCodePoints(cps[..|cps| - 1]);
      hide Characters, Utf8;
      CharactersOfOne(Utf8Text(cps[..|cps| - 1]), cps[|cps| - 1]);
    }
  }

  /** Whether a new row's values fit the columns, which count characters. */
  predicate Fits(name: Str, hashed: Str) {
    Characters(name) <= USERNAME_WIDTH && Characters(hashed) <= PASSWORD_WIDTH
  }

  /** 50 characters of name and 150 of hash fit, and not one more. */
  lemma FitsExactly(name: seq<nat>, hashed: seq<nat>)
    requires forall i :: 0 <= i < |name| ==> name[i] < 0x11_0000
    requires forall i :: 0 <= i < |hashed| ==> hashed[i] < 0x11_0000
    ensures Fits(Utf8Text(name), Utf8Text(hashed)) <==> |name| <= 50 && |hashed| <= 150
  {
    CharactersAreCodePoints(name);
    CharactersAreCodePoints(hashed);
    hide Characters;
  }

  /** One query text carried out, given the key a new row would get. The wrong number of values is refused. */
  function Execute(id: Str, users: map<Str, Row>, text: Str, values: seq<Str>): Reply<map<Str, Row>> {
    if text == InsertText() && |values| == 2 then
      if !Fits(values[0], values[1]) then Refused([])
      else if IdTaken(users, id) then Refused(PRIMARY_KEY)
      else if values[0] in users then Refused(USERNAME_KEY)
      else Done(users[values[0] := Row(id, values[1])], [[id]])
    else if text == SelectText() && |values| == 1 then
      Done(users, if values[0] in users then [[users[values[0]].id, values[0], users[values[0]].hashed]] else [])
    else Refused([])
  }

  /** The database during one call; while it is down it refuses everything. */
  function Database(id: Str, down: bool): Backend<map<Str, Row>> {
    if down then Backend((users, text, values) => Refused([]), text => false)
    else
      Backend(
        (users, text, values) => Execute(id, users, text, values),
        text => text == SelectText() || text == InsertText())
  }

  /** One call of Postgres::query: the front connection runs one text and goes to the end. */
  function Ask(db: UserDb, b: Backend<map<Str, Row>>, st: Statement, values: seq<Str>): (UserDb, Answer)
    requires db.deque != []
  {
    var (server, answer) := RanOnce(b, Server(db.users, db.prepared), db.deque[0], st, values);
    (UserDb(server.db, server.prepared, Turn(db.deque)), answer)
  }

  // ---------- Which statement a connection answers ----------

  /** The text that stands under the shared name on a connection. */
  function Lane(db: UserDb, c: Client): Option<Str> {
    var p := Prepared(db.prepared, c);
    if Name() in p then Some(p[Name()]) else None
  }

  /** A connection runs a statement's own text when it has nothing under the name, or that same text. */
  predicate Answers(db: UserDb, c: Client, st: Statement) { Lane(db, c).None? || Lane(db, c).value == st.query }

  /** Whether the next call would run its own text. */
  predicate Reaches(db: UserDb, st: Statement) { db.deque != [] && Answers(db, db.deque[0], st) }

  /** After a call the front connection has a text under the name, unless it had none and the database was down. */
  function Marked(db: UserDb, down: bool, st: Statement): map<Client, map<Str, Str>>
    requires db.deque != []
  {
    var c := db.deque[0];
    if down || Lane(db, c).Some? then db.prepared
    else db.prepared[c := Prepared(db.prepared, c)[Name() := st.query]]
  }

  lemma AskMarks(db: UserDb, id: Str, down: bool, st: Statement, values: seq<Str>)
    requires db.deque != [] && (st == Select() || st == Insert())
    ensures var (db', _) := Ask(db, Database(id, down), st, values);
            db'.prepared == Marked(db, down, st) && db'.deque == Turn(db.deque)
  {
    KeptName(db.prepared, db.deque[0], Name());
    hide SelectText, InsertText, Name;
  }

  /**
   * get_user_by_username's query: the row of that name, if the call reached the SELECT. It never changes a row.
   */
  function FindRow(db: UserDb, down: bool, name: Str): (r: (UserDb, Option<Row>))
    requires db.deque != []
    ensures r.0 == UserDb(db.users, Marked(db, down, Select()), Turn(db.deque))
    ensures r.1 == if !down && Reaches(db, Select()) && name in db.users then Some(db.users[name]) else None
  {
    AskMarks(db, [], down, Select(), [name]);
    TextsDiffer();
    hide SelectText, InsertText, Name, Marked;
    var (db', answer) := Ask(db, Database([], down), Select(), [name]);
    (db', if answer.Fatal? || answer.rows == [] then None else Some(Row(answer.rows[0][0], answer.rows[0][2])))
  }

  /** What FindRow reads in the answer of the SELECT: at most one row, of three columns. */
  lemma FindRowAnswer(db: UserDb, down: bool, name: Str)
    requires db.deque != []
    ensures var (db', answer) := Ask(db, Database([], down), Select(), [name]);
            var row := FindRow(db, down, name).1;
            && db' == FindRow(db, down, name).0
            && (row.Some? <==> answer.Rows? && answer.rows != [])
            && (row.Some? ==> |answer.rows[0]| == 3 && row == Some(Row(answer.rows[0][0], answer.rows[0][2])))
  {
    TextsDiffer();
    hide SelectText, InsertText, Name, Marked;
  }

  /**
   * add_user's query: a row is added exactly when the call reached the INSERT, the values fit the columns and both
   * keys were free, and the constraint on the name is reported exactly when only the name was in the way.
   */
  function AddRow(db: UserDb, id: Str, down: bool, name: Str, hashed: Str): (r: (UserDb, Answer))
    requires db.deque != []
    ensures r.0.prepared == Marked(db, down, Insert()) && r.0.deque == Turn(db.deque)
    ensures var reached := !down && Reaches(db, Insert()) && Fits(name, hashed) && !IdTaken(db.users, id);
            && r.0.users == (if reached && name !in db.users then db.users[name := Row(id, hashed)] else db.users)
            && (r.1 == Rows([[id]]) <==> reached && name !in db.users)
            && (r.1 == Fatal(USERNAME_KEY) <==> reached && name in db.users)
            && (r.1.Rows? ==> reached && name !in db.users)
  {
    AskMarks(db, id, down, Insert(), [name, hashed]);
    TextsDiffer();
    assert PRIMARY_KEY != USERNAME_KEY;
    assert USERNAME_KEY != [];
    hide SelectText, InsertText, Name, Marked, IdTaken, Fits;
    Ask(db, Database(id, down), Insert(), [name, hashed])
  }
}
