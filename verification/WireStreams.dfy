/** The codec as the program runs it (gpu_wire.rs): `put` appends to a growing output and
    `get` advances a cursor, one element at a time for arrays and sequences. */
module WireStreams {
  import opened Base
  import opened WireCodec

  class Output {
    var bytes: Bytes

    constructor ()
      ensures bytes == []
    {
      bytes := [];
    }

    method Put(v: Value, s: Schema)
      requires HasType(v, s)
      modifies this
      ensures bytes == old(bytes) + Enc(v, s)
      decreases s, 0
    {
      match s {
        case Pair(a, b) =>
          SplitFront(bytes, Enc(v.first, a), Enc(v.second, b));
          Put(v.first, a);
          Put(v.second, b);
        case Struct(f) =>
          Put(v, f);
        case Array(_, e) =>
          PutAll(v.items, e);
        case Maybe(e) =>
          bytes := bytes + [if v.Present? then 1 else 0];
          if v.Present? {
            SplitFront(old(bytes), [1], Enc(v.value, e));
            Put(v.value, e);
          }
        case List(e) =>
          SplitFront(bytes, ToLe(|v.items|, 4), EncAll(v.items, e));
          bytes := bytes + ToLe(|v.items|, 4);
          PutAll(v.items, e);
        case Variant(name, cases) =>
          SplitFront(bytes, [v.tag as byte], Enc(v.value, cases[v.tag]));
          bytes := bytes + [v.tag as byte];
          Put(v.value, cases[v.tag]);
        case _ =>
          bytes := bytes + Enc(v, s);
      }
    }

    method PutAll(vs: seq<Value>, e: Schema)
      requires AllHaveType(vs, e)
      modifies this
      ensures bytes == old(bytes) + EncAll(vs, e)
      decreases e, 1
    {
      var i := 0;
      while i < |vs|
        invariant 0 <= i <= |vs|
        invariant bytes + EncAll(vs[i..], e) == old(bytes) + EncAll(vs, e)
      {
        assert vs[i..] == [vs[i]] + vs[i + 1..];
        Put(vs[i], e);
        i := i + 1;
      }
    }
  }

  /** Elements already read, put in front of what the rest of the sequence yields. */
  ghost function Prepend(items: seq<Value>, r: Parsed): Parsed {
    match r
    case Bad(e) => Bad(e)
    case Got(v, rest) => if v.Items? then Got(Items(items + v.items), rest) else r
  }

  lemma PrependOne(items: seq<Value>, e: Schema, n: nat, bytes: Bytes)
    requires n > 0
    ensures Prepend(items, GetAll(e, n, bytes)) ==
      match Get(e, bytes)
      case Bad(x) => Bad(x)
      case Got(v, rest) => Prepend(items + [v], GetAll(e, n - 1, rest))
  {
    match Get(e, bytes) {
      case Bad(_) =>
      case Got(v, rest) =>
        var tail := GetAll(e, n - 1, rest);
        assert tail.Got? ==> items + ([v] + tail.value.items) == (items + [v]) + tail.value.items;
    }
  }

  class Reader {
    var bytes: Bytes

    constructor (bytes: Bytes)
      ensures this.bytes == bytes
    {
      this.bytes := bytes;
    }

    method TakeBytes(count: nat) returns (r: Result<Bytes>)
      modifies this
      ensures Take(old(bytes), count) == if r.Ok? then Got(Raw(r.value), bytes) else Bad(r.error)
    {
      if count > |bytes| {
        return Err("truncated");
      }
      r := Ok(bytes[..count]);
      bytes := bytes[count..];
    }

    method Finish() returns (r: Result<()>)
      ensures r.Ok? <==> bytes == []
      ensures r.Err? ==> r.error == "trailing bytes"
    {
      r := if bytes == [] then Ok(()) else Err("trailing bytes");
    }

    method GetValue(s: Schema) returns (r: Result<Value>)
      modifies this
      ensures Get(s, old(bytes)) == if r.Ok? then Got(r.value, bytes) else Bad(r.error)
      decreases s, 0
    {
      match s {
        case Pair(a, b) =>
          var x := GetValue(a);
          if x.Err? {
            return x;
          }
          var y := GetValue(b);
          r := if y.Ok? then Ok(Both(x.value, y.value)) else y;
        case Struct(f) =>
          r := GetValue(f);
        case Array(n, e) =>
          r := GetMany(e, n);
        case Maybe(e) =>
          var flag := GetFlag();
          if flag.Err? {
            return Err(flag.error);
          }
          if !flag.value {
            return Ok(Absent);
          }
          var x := GetValue(e);
          r := if x.Ok? then Ok(Present(x.value)) else x;
        case List(e) =>
          var head := TakeBytes(4);
          if head.Err? {
            return Err(head.error);
          }
          var length := FromLe(head.value);
          if SaturatingMul(length, Max(MinBytes(e), 1)) > |bytes| {
            return Err("sequence exceeds message");
          }
          assert Power256(4) == TWO_32;
          GuardBoundsReservation(length, e, |bytes|);
          assert length <= |bytes|;
          r := GetMany(e, length);
        case Variant(name, cases) =>
          var head := TakeBytes(1);
          if head.Err? {
            return Err(head.error);
          }
          var tag := head.value[0] as nat;
          if tag >= |cases| {
            return Err("invalid " + name);
          }
          var x := GetValue(cases[tag]);
          r := if x.Ok? then Ok(Case(tag, x.value)) else x;
        case _ =>
          var parsed := Get(s, bytes);
          match parsed {
            case Got(v, rest) =>
              r := Ok(v);
              bytes := rest;
            case Bad(e) =>
              r := Err(e);
          }
      }
    }

    method GetFlag() returns (r: Result<bool>)
      modifies this
      ensures GetBool(old(bytes)) == if r.Ok? then Got(Flag(r.value), bytes) else Bad(r.error)
    {
      var head := TakeBytes(1);
      if head.Err? {
        return Err(head.error);
      }
      r := if head.value[0] == 0 then Ok(false)
           else if head.value[0] == 1 then Ok(true)
           else Err("invalid boolean");
    }

    method GetMany(e: Schema, n: nat) returns (r: Result<Value>)
      modifies this
      ensures GetAll(e, n, old(bytes)) == if r.Ok? then Got(r.value, bytes) else Bad(r.error)
      decreases e, 1
    {
      var values: seq<Value> := [];
      ghost var whole := GetAll(e, n, bytes);
      var i := 0;
      while i < n
        invariant 0 <= i <= n
        invariant whole == Prepend(values, GetAll(e, n - i, bytes))
      {
        PrependOne(values, e, n - i, bytes);
        var x := GetValue(e);
        if x.Err? {
          return x;
        }
        values := values + [x.value];
        i := i + 1;
      }
      assert values + [] == values;
      r := Ok(Items(values));
    }
  }
}
