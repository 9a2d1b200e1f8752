/** Integers, existence and deletion in the store: interfaces/store/redis.cpp. Redis keeps every value as text. */
module Store {
  import opened Strings

  // What redisCommand answers.
  datatype Reply = Text(text: Str) | Nil | Number(n: int) | Error(msg: Str)

  // The getters: a value, no value, or an error.
  datatype Found = Found(value: int) | Missing | Failed

  /** How a getter of one width reads a GET reply. */
  function FromReply(r: Reply, min: int, max: int): Found {
    match r
    case Text(text) => if ParseInt(text, min, max).Some? then Found(ParseInt(text, min, max).value) else Failed
    case Nil => Missing
    case _ => Failed
  }

  /** No value means a nil reply, a value a text that parses within the width, and anything else is an error. */
  lemma RepliesAreToldApart(r: Reply, p: IntText, min: int, max: int)
    requires r.Text? ==> IsIntText(p) && Spell(p) == r.text
    ensures FromReply(r, min, max) == Missing <==> r.Nil?
    ensures FromReply(r, min, max).Found? ==> r.Text?
    ensures r.Text? ==>
              var v: int := if p.sign == "-" then 0 - DecimalValue(p.digits) else DecimalValue(p.digits);
              FromReply(r, min, max) == if p.digits != [] && min <= v <= max then Found(v) else Failed
  {
    if r.Text? {
      ParsesExactly(p, min, max);
      hide ParseInt, IsIntText;
    }
  }

  function Lookup(data: map<Str, Str>, key: Str): Reply { if key in data then Text(data[key]) else Nil }

  function Stored(data: map<Str, Str>, key: Str, n: int): map<Str, Str> { data[key := PrintInt(n)] }

  /**
   * A value set and got under the same key comes back with either getter, unless it does not fit the getter's
   * width, which is an error and not another number; any other key reads as before.
   */
  lemma SetThenGet(data: map<Str, Str>, key: Str, n: int, other: Str, min: int, max: int)
    ensures var later := Stored(data, key, n);
            FromReply(Lookup(later, other), min, max) ==
            if other != key then FromReply(Lookup(data, other), min, max)
            else if min <= n <= max then Found(n)
            else Failed
    ensures key !in data ==> FromReply(Lookup(data, key), min, max) == Missing
  {
    PrintedIntParses(n, min, max);
  }

  class RedisStore {
    var data: map<Str, Str>

    constructor ()
      ensures data == map[]
    {
      data := map[];
    }

    /** `down` is a server that answers with an error. */
    method GetInt32(key: Str, down: bool) returns (r: Found)
      ensures r == if down then Failed else FromReply(Lookup(data, key), INT32_MIN, INT32_MAX)
    {
      var reply := if down then Error("down") else Lookup(data, key);
      if reply.Text? {
        var val := Stoi(reply.text);
        return if val.Some? then Found(val.value) else Failed;
      }
      if reply.Nil? {
        return Missing;
      }
      r := Failed;
    }

    method GetInt64(key: Str, down: bool) returns (r: Found)
      ensures r == if down then Failed else FromReply(Lookup(data, key), INT64_MIN, INT64_MAX)
    {
      var reply := if down then Error("down") else Lookup(data, key);
      if reply.Text? {
        var val := ParseInt(reply.text, INT64_MIN, INT64_MAX);
        return if val.Some? then Found(val.value) else Failed;
      }
      if reply.Nil? {
        return Missing;
      }
      r := Failed;
    }

    /** Both integer setters; an error reply is reported and changes nothing. */
    method SetInt(key: Str, n: int, down: bool) returns (ok: bool)
      modifies this
      ensures ok == !down && data == if down then old(data) else Stored(old(data), key, n)
    {
      if !down {
        data := data[key := PrintInt(n)];
      }
      ok := !down;
    }

    /** An error reply reads as a key that is not there. */
    method Exists(key: Str, down: bool) returns (there: bool)
      ensures there <==> !down && key in data
    {
      var reply := if down then Error("down") else Number(if key in data then 1 else 0);
      there := reply.Number? && reply.n > 0;
    }

    /** True exactly when a key was there and is gone. */
    method Del(key: Str, down: bool) returns (deleted: bool)
      modifies this
      ensures deleted <==> !down && key in old(data)
      ensures data == if down then old(data) else old(data) - {key}
    {
      var reply := if down then Error("down") else Number(if key in data then 1 else 0);
      if !down {
        data := data - {key};
      }
      deleted := reply.Number? && reply.n > 0;
    }
  }
}
