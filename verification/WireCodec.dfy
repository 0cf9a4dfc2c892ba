/** The binary codec between the emulation and compute workers (gpu_wire.rs). A schema
    stands for a `Wire` instance, so each law is proved once for every message type. */
module WireCodec {
  import opened Base

  /** `usize` is 32 bits wide on the WebAssembly target. */
  const USIZE_MAX: nat := 0xFFFF_FFFF

  datatype Schema =
    | UInt(width: nat)
    | Int32
    | Float                                   // an f32 travels as four opaque bytes
    | Bool
    | Usize                                   // always eight bytes on the wire
    | Unit
    | Pair(first: Schema, second: Schema)     // tuples, and the field lists of structs
    | Struct(fields: Schema)
    | Array(count: nat, element: Schema)
    | Maybe(element: Schema)
    | List(element: Schema)
    | Text
    | Variant(name: string, cases: seq<Schema>)   // a tag byte, then the case's fields

  datatype Value =
    | Number(n: int)
    | Raw(bytes: Bytes)
    | Flag(b: bool)
    | Void
    | Both(first: Value, second: Value)
    | Absent
    | Present(value: Value)
    | Items(items: seq<Value>)
    | Case(tag: nat, value: Value)

  datatype Parsed = Got(value: Value, rest: Bytes) | Bad(error: string)

  // ---------- Little-endian numbers ----------

  function Power256(w: nat): (p: nat)
    ensures p > 0
  {
    if w == 0 then 1 else 256 * Power256(w - 1)
  }

  function ToLe(n: nat, w: nat): (bytes: Bytes)
    ensures |bytes| == w
  {
    if w == 0 then [] else [(n % 256) as byte] + ToLe(n / 256, w - 1)
  }

  function FromLe(bytes: Bytes): (n: nat)
    ensures n < Power256(|bytes|)
  {
    if bytes == [] then 0 else bytes[0] as nat + 256 * FromLe(bytes[1..])
  }

  lemma {:induction false} FromToLe(n: nat, w: nat)
    requires n < Power256(w)
    ensures FromLe(ToLe(n, w)) == n
  {
    if w > 0 {
      FromToLe(n / 256, w - 1);
      assert ToLe(n, w)[1..] == ToLe(n / 256, w - 1);
    }
  }

  /** A byte counts 256 times as much as the one before it. */
  lemma {:induction false} LeSplits(bytes: Bytes, i: nat)
    requires i <= |bytes|
    ensures FromLe(bytes) == FromLe(bytes[..i]) + Power256(i) * FromLe(bytes[i..])
  {
    if i > 0 {
      LeSplits(bytes[1..], i - 1);
      var low, high := FromLe(bytes[1..][..i - 1]), FromLe(bytes[1..][i - 1..]);
      assert bytes[..i][1..] == bytes[1..][..i - 1] && bytes[i..] == bytes[1..][i - 1..];
      Weighs(low, Power256(i - 1), high);
    }
  }

  lemma Weighs(low: nat, power: nat, high: nat)
    ensures 256 * (low + power * high) == 256 * low + 256 * power * high
  {
  }

  lemma LowByte(low: nat, high: nat)
    requires low < 256
    ensures (low + 256 * high) % 256 == low && (low + 256 * high) / 256 == high
  {
  }

  lemma {:induction false} ToFromLe(bytes: Bytes)
    ensures ToLe(FromLe(bytes), |bytes|) == bytes
  {
    if bytes != [] {
      ToFromLe(bytes[1..]);
      LowByte(bytes[0] as nat, FromLe(bytes[1..]));
      assert bytes == [bytes[0]] + bytes[1..];
    }
  }

  const TWO_31: int := 0x8000_0000
  const TWO_32: int := 0x1_0000_0000

  function FromInt32(n: int): nat
    requires -TWO_31 <= n < TWO_31
  {
    if n < 0 then n + TWO_32 else n
  }

  function ToInt32(n: nat): int
    requires n < TWO_32
  {
    if n >= TWO_31 then n - TWO_32 else n
  }

  // ---------- UTF-8 (section 3 of RFC 3629) ----------

  predicate Continuation(b: byte) { 0x80 <= b < 0xC0 }

  /** Length of the well-formed character at the front, or 0. */
  function CharLength(s: Bytes): (n: nat)
    ensures n <= |s| && n <= 4
    ensures forall i :: 1 <= i < n ==> Continuation(s[i])
    ensures n > 0 ==> !Continuation(s[0])
  {
    if s == [] then 0
    else if s[0] < 0x80 then 1
    else if 0xC2 <= s[0] <= 0xDF then if |s| >= 2 && Continuation(s[1]) then 2 else 0
    else if 0xE0 <= s[0] <= 0xEF then
      if |s| >= 3 && Continuation(s[1]) && Continuation(s[2])
         && (s[0] == 0xE0 ==> s[1] >= 0xA0) && (s[0] == 0xED ==> s[1] < 0xA0) then 3 else 0
    else if 0xF0 <= s[0] <= 0xF4 then
      if |s| >= 4 && Continuation(s[1]) && Continuation(s[2]) && Continuation(s[3])
         && (s[0] == 0xF0 ==> s[1] >= 0x90) && (s[0] == 0xF4 ==> s[1] < 0x90) then 4 else 0
    else 0
  }

  predicate ValidUtf8(s: Bytes) {
    s == [] || (CharLength(s) > 0 && ValidUtf8(s[CharLength(s)..]))
  }

  predicate CharBoundary(s: Bytes, i: nat) {
    i == 0 || i == |s| || (i < |s| && !Continuation(s[i]))
  }

  lemma PrefixKeepsChar(s: Bytes, i: nat)
    requires 0 < CharLength(s) <= i <= |s|
    ensures CharLength(s[..i]) == CharLength(s)
  {
  }

  lemma SliceOfSlice(s: Bytes, n: nat, i: nat)
    requires n <= i <= |s|
    ensures s[..i][n..] == s[n..][..i - n]
  {
  }

  /** Cutting valid text at a character boundary leaves valid text. */
  lemma {:induction false} CutAtBoundary(s: Bytes, i: nat)
    requires ValidUtf8(s) && i <= |s| && CharBoundary(s, i)
    ensures ValidUtf8(s[..i])
  {
    if 0 < i {
      var n := CharLength(s);
      if n <= i {
        var tail := s[n..];
        assert CharBoundary(tail, i - n);
        CutAtBoundary(tail, i - n);
        PrefixKeepsChar(s, i);
        SliceOfSlice(s, n, i);
      }
    }
  }

  // ---------- Types ----------

  predicate HasType(v: Value, s: Schema)
    decreases s, 0
  {
    match s
    case UInt(w) => v.Number? && 0 <= v.n < Power256(w)
    case Int32 => v.Number? && -TWO_31 <= v.n < TWO_31
    case Float => v.Raw? && |v.bytes| == 4
    case Bool => v.Flag?
    case Usize => v.Number? && 0 <= v.n <= USIZE_MAX
    case Unit => v.Void?
    case Pair(a, b) => v.Both? && HasType(v.first, a) && HasType(v.second, b)
    case Struct(f) => HasType(v, f)
    case Array(n, e) => v.Items? && |v.items| == n && AllHaveType(v.items, e)
    case Maybe(e) => v.Absent? || (v.Present? && HasType(v.value, e))
    case List(e) => v.Items? && |v.items| < TWO_32 && AllHaveType(v.items, e)
    case Text => v.Raw? && |v.bytes| < TWO_32 && ValidUtf8(v.bytes)
    case Variant(name, cases) => v.Case? && v.tag < |cases| && v.tag < 256 && HasType(v.value, cases[v.tag])
  }

  predicate AllHaveType(vs: seq<Value>, e: Schema)
    decreases e, 1
  {
    forall i :: 0 <= i < |vs| ==> HasType(vs[i], e)
  }

  /** The declared lower bound `MIN_BYTES` used to size sequences; structs declare none. */
  function MinBytes(s: Schema): nat {
    match s
    case UInt(w) => w
    case Int32 => 4
    case Float => 4
    case Bool => 1
    case Usize => 8
    case Unit => 0
    case Pair(a, b) => MinBytes(a) + MinBytes(b)
    case Struct(_) => 0
    case Array(n, e) => n * MinBytes(e)
    case Maybe(_) => 1
    case List(_) => 4
    case Text => 4
    case Variant(_, _) => 1
  }

  /** Whether every encoding has at least one byte. */
  predicate Occupies(s: Schema) {
    match s
    case UInt(w) => w > 0
    case Unit => false
    case Pair(a, b) => Occupies(a) || Occupies(b)
    case Struct(f) => Occupies(f)
    case Array(n, e) => n > 0 && Occupies(e)
    case _ => true
  }

  /** Sequence elements are never empty on the wire; every `Vec` in a message satisfies this. */
  predicate WellFormed(s: Schema) {
    match s
    case Pair(a, b) => WellFormed(a) && WellFormed(b)
    case Struct(f) => WellFormed(f)
    case Array(_, e) => WellFormed(e)
    case Maybe(e) => WellFormed(e)
    case List(e) => WellFormed(e) && Occupies(e)
    case Variant(name, cases) => forall i :: 0 <= i < |cases| ==> WellFormed(cases[i])
    case _ => true
  }

  // ---------- Encoding ----------

  function Enc(v: Value, s: Schema): Bytes
    requires HasType(v, s)
    decreases s, 0
  {
    match s
    case UInt(w) => ToLe(v.n, w)
    case Int32 => ToLe(FromInt32(v.n), 4)
    case Float => v.bytes
    case Bool => [if v.b then 1 else 0]
    case Usize => ToLe(v.n, 8)
    case Unit => []
    case Pair(a, b) => Enc(v.first, a) + Enc(v.second, b)
    case Struct(f) => Enc(v, f)
    case Array(_, e) => EncAll(v.items, e)
    case Maybe(e) => if v.Absent? then [0] else [1] + Enc(v.value, e)
    case List(e) => ToLe(|v.items|, 4) + EncAll(v.items, e)
    case Text => ToLe(|v.bytes|, 4) + v.bytes
    case Variant(name, cases) => [v.tag as byte] + Enc(v.value, cases[v.tag])
  }

  function EncAll(vs: seq<Value>, e: Schema): Bytes
    requires AllHaveType(vs, e)
    decreases e, 1 + |vs|
  {
    if vs == [] then [] else Enc(vs[0], e) + EncAll(vs[1..], e)
  }

  /** Numbers travel in little-endian order, in two's complement when signed; flags are one byte. */
  lemma NumberBytes(m: byte, n: byte)
    ensures HasType(Number(m as int + 256 * n as int), UInt(2)) && HasType(Number(m as int + 256 * n as int), Usize)
    ensures Enc(Number(m as int + 256 * n as int), UInt(2)) == [m, n]
    ensures Enc(Number(m as int + 256 * n as int), Usize) == [m, n] + [0, 0, 0, 0, 0, 0]
    ensures Enc(Number(-1 - m as int), Int32) == [255 - m, 255, 255, 255]
    ensures Enc(Flag(true), Bool) == [1] && Enc(Flag(false), Bool) == [0]
  {
    assert Power256(0) == 1 && Power256(1) == 256 && Power256(2) == 65536;
    TwoBytes(m, n, 2);
    TwoBytes(m, n, 8);
    Zeros();
    NegativeBytes(m);
  }

  /** Presence is told by one byte; fields and the elements of an array follow each other. */
  lemma FieldBytes(v: Value, w: Value, s: Schema)
    requires HasType(v, s) && HasType(w, s)
    ensures Enc(Absent, Maybe(s)) == [0] && Enc(Present(v), Maybe(s)) == [1] + Enc(v, s)
    ensures Enc(Both(v, w), Pair(s, s)) == Enc(v, s) + Enc(w, s)
    ensures HasType(Items([v, w]), Array(2, s)) && Enc(Items([v, w]), Array(2, s)) == Enc(v, s) + Enc(w, s)
  {
    TwoItems(v, w, s);
  }

  /** Sequences and text have a count of four bytes before them. */
  lemma CountedBytes(v: Value, w: Value, s: Schema, text: Bytes)
    requires HasType(v, s) && HasType(w, s) && ValidUtf8(text) && |text| < 256
    ensures HasType(Items([v, w]), List(s)) && Enc(Items([v, w]), List(s)) == [2, 0, 0, 0] + (Enc(v, s) + Enc(w, s))
    ensures HasType(Raw(text), Text) && Enc(Raw(text), Text) == [|text| as byte, 0, 0, 0] + text
  {
    TwoItems(v, w, s);
    CountBytes(2);
    CountBytes(|text|);
    assert |text| < TWO_32;
  }

  /** One byte tells the case of a variant. */
  lemma CaseBytes(v: Value, name: string, cases: seq<Schema>, tag: nat)
    requires tag < |cases| <= 256 && HasType(v, cases[tag])
    ensures Enc(Case(tag, v), Variant(name, cases)) == [tag as byte] + Enc(v, cases[tag])
  {
  }

  lemma TwoItems(v: Value, w: Value, s: Schema)
    requires HasType(v, s) && HasType(w, s)
    ensures AllHaveType([v, w], s) && EncAll([v, w], s) == Enc(v, s) + Enc(w, s)
  {
    var items := [v, w];
    assert items[1..] == [w] && [w][1..] == [];
    assert EncAll(items, s) == Enc(v, s) + EncAll([w], s);
    assert EncAll([w], s) == Enc(w, s) + EncAll([], s);
  }

  lemma CountBytes(n: nat)
    requires n < 256
    ensures ToLe(n, 4) == [n as byte, 0, 0, 0]
  {
    assert ToLe(n / 256, 3) == [0] + ToLe(0, 2) && ToLe(0, 2) == [0] + ToLe(0, 1);
  }

  lemma Zeros()
    ensures ToLe(0, 0) == [] && ToLe(0, 6) == [0, 0, 0, 0, 0, 0]
  {
    assert ToLe(0, 3) == [0] + ToLe(0, 2) && ToLe(0, 2) == [0] + ToLe(0, 1);
    assert ToLe(0, 6) == [0] + ToLe(0, 5) && ToLe(0, 5) == [0] + ToLe(0, 4) && ToLe(0, 4) == [0] + ToLe(0, 3);
  }

  lemma TwoBytes(m: byte, n: byte, w: nat)
    requires w >= 2
    ensures ToLe(m as nat + 256 * n as nat, w) == [m, n] + ToLe(0, w - 2)
  {
    LowByte(m as nat, n as nat);
    LowByte(n as nat, 0);
    assert ToLe(n as nat, w - 1) == [n] + ToLe(0, w - 2);
  }

  lemma NegativeBytes(m: byte)
    ensures FromInt32(-1 - m as int) == 0xFFFF_FFFF - m as nat
    ensures ToLe(0xFFFF_FFFF - m as nat, 4) == [255 - m, 255, 255, 255]
  {
    LowByte(255 - m as nat, 0xFF_FFFF);
    assert ToLe(0xFF_FFFF, 3) == [255] + ToLe(0xFFFF, 2) && ToLe(0xFFFF, 2) == [255] + ToLe(0xFF, 1);
    assert ToLe(0xFF, 1) == [255] + ToLe(0, 0);
  }

  // ---------- Decoding ----------

  function SaturatingMul(a: nat, b: nat): nat { Min(a * b, USIZE_MAX) }

  /** The guard before reserving space for a sequence. */
  predicate Admits(length: nat, e: Schema, remaining: nat) {
    SaturatingMul(length, Max(MinBytes(e), 1)) <= remaining
  }

  function Take(bytes: Bytes, n: nat): Parsed {
    if n > |bytes| then Bad("truncated") else Got(Raw(bytes[..n]), bytes[n..])
  }

  /** Strict: any byte but 0 and 1 is refused. */
  function GetBool(bytes: Bytes): (r: Parsed)
    ensures r.Got? ==> r.value.Flag?
  {
    match Take(bytes, 1)
    case Got(v, rest) =>
      if v.bytes[0] == 0 then Got(Flag(false), rest)
      else if v.bytes[0] == 1 then Got(Flag(true), rest)
      else Bad("invalid boolean")
    case Bad(e) => Bad(e)
  }

  function Get(s: Schema, bytes: Bytes): Parsed
    decreases s, 0
  {
    match s
    case UInt(w) =>
      (match Take(bytes, w) case Got(v, rest) => Got(Number(FromLe(v.bytes)), rest) case Bad(e) => Bad(e))
    case Int32 =>
      (match Take(bytes, 4) case Got(v, rest) => Got(Number(Signed(v.bytes)), rest) case Bad(e) => Bad(e))
    case Float => Take(bytes, 4)
    case Bool => GetBool(bytes)
    case Usize =>
      (match Take(bytes, 8)
       case Got(v, rest) =>
         if FromLe(v.bytes) <= USIZE_MAX then Got(Number(FromLe(v.bytes)), rest) else Bad("index overflow")
       case Bad(e) => Bad(e))
    case Unit => Got(Void, bytes)
    case Pair(a, b) =>
      (match Get(a, bytes)
       case Got(x, rest) => (match Get(b, rest) case Got(y, tail) => Got(Both(x, y), tail) case Bad(e) => Bad(e))
       case Bad(e) => Bad(e))
    case Struct(f) => Get(f, bytes)
    case Array(n, e) => GetAll(e, n, bytes)
    case Maybe(e) =>
      (match GetBool(bytes)
       case Got(flag, rest) =>
         if !flag.b then Got(Absent, rest)
         else (match Get(e, rest) case Got(v, tail) => Got(Present(v), tail) case Bad(x) => Bad(x))
       case Bad(x) => Bad(x))
    case List(e) =>
      (match Take(bytes, 4)
       case Got(v, rest) =>
         var length := FromLe(v.bytes);
         if !Admits(length, e, |rest|) then Bad("sequence exceeds message") else GetAll(e, length, rest)
       case Bad(x) => Bad(x))
    case Text =>
      (match Take(bytes, 4)
       case Got(v, rest) =>
         var length := FromLe(v.bytes);
         if !Admits(length, UInt(1), |rest|) then Bad("sequence exceeds message")
         else (match Take(rest, length)
               case Got(t, tail) => if ValidUtf8(t.bytes) then Got(t, tail) else Bad("invalid text")
               case Bad(x) => Bad(x))
       case Bad(x) => Bad(x))
    case Variant(name, cases) =>
      (match Take(bytes, 1)
       case Got(v, rest) =>
         var tag := v.bytes[0] as nat;
         if tag >= |cases| then Bad("invalid " + name)
         else (match Get(cases[tag], rest) case Got(x, tail) => Got(Case(tag, x), tail) case Bad(e) => Bad(e))
       case Bad(e) => Bad(e))
  }

  function Signed(bytes: Bytes): int
    requires |bytes| == 4
  {
    assert Power256(4) == TWO_32;
    ToInt32(FromLe(bytes))
  }

  function GetAll(e: Schema, n: nat, bytes: Bytes): (r: Parsed)
    ensures r.Got? ==> r.value.Items? && |r.value.items| == n
    decreases e, 1 + n
  {
    if n == 0 then Got(Items([]), bytes)
    else match Get(e, bytes)
      case Bad(x) => Bad(x)
      case Got(first, rest) =>
        match GetAll(e, n - 1, rest)
        case Bad(x) => Bad(x)
        case Got(others, tail) => Got(Items([first] + others.items), tail)
  }

  // ---------- Laws ----------

  lemma {:induction false} OccupiesIsPositive(v: Value, s: Schema)
    requires HasType(v, s) && Occupies(s)
    ensures |Enc(v, s)| >= 1
    decreases s
  {
    match s {
      case Pair(a, b) =>
        if Occupies(a) {
          OccupiesIsPositive(v.first, a);
        } else {
          OccupiesIsPositive(v.second, b);
        }
      case Struct(f) => OccupiesIsPositive(v, f);
      case Array(n, e) => OccupiesIsPositive(v.items[0], e);
      case _ =>
    }
  }

  /** No encoding is shorter than its declared `MIN_BYTES`. */
  lemma {:induction false} MinBytesIsLowerBound(v: Value, s: Schema)
    requires HasType(v, s)
    ensures |Enc(v, s)| >= MinBytes(s)
    decreases s, 0
  {
    match s {
      case Pair(a, b) =>
        MinBytesIsLowerBound(v.first, a);
        MinBytesIsLowerBound(v.second, b);
      case Array(n, e) => ElementsFill(v.items, e, MinBytes(e));
      case _ =>
    }
  }

  lemma {:induction false} ElementsFill(vs: seq<Value>, e: Schema, least: nat)
    requires AllHaveType(vs, e)
    requires least == MinBytes(e) || (least == 1 && Occupies(e))
    ensures |EncAll(vs, e)| >= |vs| * least
    decreases e, 1 + |vs|
  {
    if vs != [] {
      if least == MinBytes(e) {
        MinBytesIsLowerBound(vs[0], e);
      } else {
        OccupiesIsPositive(vs[0], e);
      }
      ElementsFill(vs[1..], e, least);
      OneMoreTime(|vs[1..]|, least);
    }
  }

  /** The sequence guard admits every honestly encoded sequence. */
  lemma GuardAdmitsHonest(vs: seq<Value>, e: Schema, rest: Bytes)
    requires AllHaveType(vs, e) && Occupies(e)
    ensures Admits(|vs|, e, |EncAll(vs, e) + rest|)
  {
    ElementsFill(vs, e, if MinBytes(e) >= 1 then MinBytes(e) else 1);
  }

  /** Once the guard admits a length that fits 32 bits, no more elements are reserved than bytes remain. */
  lemma GuardBoundsReservation(length: nat, e: Schema, remaining: nat)
    requires Admits(length, e, remaining) && length <= USIZE_MAX
    ensures length <= remaining
  {
    MulMono(1, Max(MinBytes(e), 1), length);
  }

  lemma SplitFront(a: Bytes, b: Bytes, c: Bytes)
    ensures (a + b) + c == a + (b + c)
    ensures (a + c)[..|a|] == a && (a + c)[|a|..] == c
  {
  }

  lemma TakeFront(a: Bytes, c: Bytes)
    ensures Take(a + c, |a|) == Got(Raw(a), c)
  {
    SplitFront(a, [], c);
  }

  /** Decoding undoes encoding, whatever follows on the wire. */
  lemma {:induction false} DecodeEncode(v: Value, s: Schema, rest: Bytes)
    requires HasType(v, s) && WellFormed(s)
    ensures Get(s, Enc(v, s) + rest) == Got(v, rest)
    decreases s, 0
  {
    match s {
      case UInt(_) => DecodeEncodeLeaf(v, s, rest);
      case Int32 => DecodeEncodeLeaf(v, s, rest);
      case Float => DecodeEncodeLeaf(v, s, rest);
      case Bool => DecodeEncodeLeaf(v, s, rest);
      case Usize => DecodeEncodeLeaf(v, s, rest);
      case Unit => DecodeEncodeLeaf(v, s, rest);
      case Pair(a, b) =>
        SplitFront(Enc(v.first, a), Enc(v.second, b), rest);
        DecodeEncode(v.first, a, Enc(v.second, b) + rest);
        DecodeEncode(v.second, b, rest);
      case Struct(f) => DecodeEncode(v, f, rest);
      case Array(n, e) => DecodeEncodeAll(v.items, e, rest);
      case Maybe(e) =>
        if v.Present? {
          SplitFront([1], Enc(v.value, e), rest);
          TakeFront([1], Enc(v.value, e) + rest);
          DecodeEncode(v.value, e, rest);
        } else {
          TakeFront([0], rest);
        }
      case List(e) =>
        DecodeEncodeLength(|v.items|, EncAll(v.items, e), rest);
        GuardAdmitsHonest(v.items, e, rest);
        DecodeEncodeAll(v.items, e, rest);
      case Text => DecodeEncodeText(v, rest);
      case Variant(name, cases) =>
        var payload := Enc(v.value, cases[v.tag]);
        SplitFront([v.tag as byte], payload, rest);
        TakeFront([v.tag as byte], payload + rest);
        DecodeEncode(v.value, cases[v.tag], rest);
    }
  }

  lemma DecodeEncodeLeaf(v: Value, s: Schema, rest: Bytes)
    requires HasType(v, s) && (s.UInt? || s.Int32? || s.Float? || s.Bool? || s.Usize? || s.Unit?)
    ensures Get(s, Enc(v, s) + rest) == Got(v, rest)
  {
    TakeFront(Enc(v, s), rest);
    match s {
      case UInt(w) => FromToLe(v.n, w);
      case Int32 =>
        assert Power256(4) == TWO_32;
        FromToLe(FromInt32(v.n), 4);
      case Usize =>
        assert Power256(8) == 0x1_0000_0000_0000_0000;
        FromToLe(v.n, 8);
      case _ =>
    }
  }

  lemma DecodeEncodeText(v: Value, rest: Bytes)
    requires HasType(v, Text)
    ensures Get(Text, Enc(v, Text) + rest) == Got(v, rest)
  {
    DecodeEncodeLength(|v.bytes|, v.bytes, rest);
    TakeFront(v.bytes, rest);
    TextAdmitted(|v.bytes|, |v.bytes + rest|);
  }

  lemma TextAdmitted(length: nat, remaining: nat)
    requires length < TWO_32 && length <= remaining
    ensures Admits(length, UInt(1), remaining)
  {
  }

  lemma DecodeEncodeLength(length: nat, body: Bytes, rest: Bytes)
    requires length < TWO_32
    ensures Take(ToLe(length, 4) + body + rest, 4) == Got(Raw(ToLe(length, 4)), body + rest)
    ensures FromLe(ToLe(length, 4)) == length
  {
    assert Power256(4) == TWO_32;
    FromToLe(length, 4);
    SplitFront(ToLe(length, 4), body, rest);
    TakeFront(ToLe(length, 4), body + rest);
  }

  lemma {:induction false} DecodeEncodeAll(vs: seq<Value>, e: Schema, rest: Bytes)
    requires AllHaveType(vs, e) && WellFormed(e)
    ensures GetAll(e, |vs|, EncAll(vs, e) + rest) == Got(Items(vs), rest)
    decreases e, 1 + |vs|
  {
    if vs == [] {
      assert EncAll(vs, e) + rest == rest;
    } else {
      SplitFront(Enc(vs[0], e), EncAll(vs[1..], e), rest);
      DecodeEncode(vs[0], e, EncAll(vs[1..], e) + rest);
      DecodeEncodeAll(vs[1..], e, rest);
      assert vs == [vs[0]] + vs[1..];
    }
  }

  lemma TakeSplits(bytes: Bytes, n: nat)
    requires Take(bytes, n).Got?
    ensures var r := Take(bytes, n);
            r.value.Raw? && |r.value.bytes| == n && r.value.bytes + r.rest == bytes
            && FromLe(r.value.bytes) < Power256(n) && ToLe(FromLe(r.value.bytes), n) == r.value.bytes
  {
    TakeParts(bytes, n);
    ToFromLe(Take(bytes, n).value.bytes);
  }

  lemma TakeParts(bytes: Bytes, n: nat)
    requires Take(bytes, n).Got?
    ensures var r := Take(bytes, n); r.value.Raw? && |r.value.bytes| == n && r.value.bytes + r.rest == bytes
  {
  }

  ghost predicate Reencodes(s: Schema, bytes: Bytes, r: Parsed)
    requires r.Got?
  {
    HasType(r.value, s) && Enc(r.value, s) + r.rest == bytes
  }

  /** Whatever decodes is typed and re-encodes to exactly the bytes consumed: one encoding per value. */
  lemma {:induction false} EncodeDecode(s: Schema, bytes: Bytes)
    requires Get(s, bytes).Got?
    ensures Reencodes(s, bytes, Get(s, bytes))
    decreases s, 0
  {
    match s {
      case UInt(_) => LeafReencodes(s, bytes);
      case Int32 => SignedReencodes(bytes);
      case Float => LeafReencodes(s, bytes);
      case Bool => LeafReencodes(s, bytes);
      case Usize => LeafReencodes(s, bytes);
      case Unit => LeafReencodes(s, bytes);
      case Pair(a, b) =>
        var x := Get(a, bytes);
        var y := Get(b, x.rest);
        EncodeDecode(a, bytes);
        EncodeDecode(b, x.rest);
        SplitFront(Enc(x.value, a), Enc(y.value, b), y.rest);
      case Struct(f) => EncodeDecode(f, bytes);
      case Array(n, e) => EncodeDecodeAll(e, n, bytes);
      case Maybe(e) =>
        TakeSplits(bytes, 1);
        var flag := GetBool(bytes);
        if flag.value.b {
          EncodeDecode(e, flag.rest);
          var x := Get(e, flag.rest);
          SplitFront([1], Enc(x.value, e), x.rest);
        }
      case List(e) =>
        TakeSplits(bytes, 4);
        var head := Take(bytes, 4);
        var length := FromLe(head.value.bytes);
        assert Power256(4) == TWO_32;
        EncodeDecodeAll(e, length, head.rest);
        var r := GetAll(e, length, head.rest);
        SplitFront(head.value.bytes, EncAll(r.value.items, e), r.rest);
      case Text => TextReencodes(bytes);
      case Variant(name, cases) =>
        TakeSplits(bytes, 1);
        var head := Take(bytes, 1);
        var tag := head.value.bytes[0] as nat;
        EncodeDecode(cases[tag], head.rest);
        var x := Get(cases[tag], head.rest);
        assert [tag as byte] == head.value.bytes;
        SplitFront([tag as byte], Enc(x.value, cases[tag]), x.rest);
    }
  }

  lemma LeafReencodes(s: Schema, bytes: Bytes)
    requires (s.UInt? || s.Float? || s.Bool? || s.Usize? || s.Unit?) && Get(s, bytes).Got?
    ensures Reencodes(s, bytes, Get(s, bytes))
  {
    match s {
      case UInt(w) => TakeSplits(bytes, w);
      case Float => TakeSplits(bytes, 4);
      case Bool => TakeSplits(bytes, 1);
      case Usize => TakeSplits(bytes, 8);
      case Unit => assert [] + bytes == bytes;
      case _ =>
    }
  }

  lemma TextReencodes(bytes: Bytes)
    requires Get(Text, bytes).Got?
    ensures Reencodes(Text, bytes, Get(Text, bytes))
  {
    TakeSplits(bytes, 4);
    var head := Take(bytes, 4);
    var length := FromLe(head.value.bytes);
    assert Power256(4) == TWO_32;
    TakeParts(head.rest, length);
    var t := Take(head.rest, length);
    SplitFront(head.value.bytes, t.value.bytes, t.rest);
  }

  lemma SignedReencodes(bytes: Bytes)
    requires Get(Int32, bytes).Got?
    ensures Reencodes(Int32, bytes, Get(Int32, bytes))
  {
    assert Power256(4) == TWO_32;
    TakeSplits(bytes, 4);
  }

  lemma {:induction false} EncodeDecodeAll(e: Schema, n: nat, bytes: Bytes)
    requires GetAll(e, n, bytes).Got?
    ensures var r := GetAll(e, n, bytes);
            && AllHaveType(r.value.items, e)
            && EncAll(r.value.items, e) + r.rest == bytes
    decreases e, 1 + n
  {
    var r := GetAll(e, n, bytes);
    if n == 0 {
      assert [] + bytes == bytes;
    } else {
      var first := Get(e, bytes);
      EncodeDecode(e, bytes);
      EncodeDecodeAll(e, n - 1, first.rest);
      var others := GetAll(e, n - 1, first.rest);
      assert r.value.items[1..] == others.value.items;
      SplitFront(Enc(first.value, e), EncAll(others.value.items, e), r.rest);
    }
  }
}
