/** Replies of the compute worker (gpu_wire.rs): their encoding, the truncation of failure
    texts, and the capacity the emulation worker reserves before it blocks. */
module GpuReplies {
  import opened Base
  import opened WireCodec
  import opened GpuMessages

  datatype ReplyKind = Pixels | Words | Bytewise | Halfwords

  datatype Reply =
    | Success(kind: ReplyKind, payload: Value)
    | Failed(fatal: bool, message: Bytes)
  {
    /** A Rust `String` is always valid UTF-8. */
    predicate Valid() {
      if Success? then HasType(payload, ReplySchema(kind)) else ValidUtf8(message)
    }
  }

  function Element(kind: ReplyKind): (s: Schema)
    ensures WellFormed(s) && Occupies(s)
  {
    match kind case Pixels => PixelRecord() case Words => U32 case Bytewise => U8 case Halfwords => U16
  }

  function ReplySchema(kind: ReplyKind): (s: Schema)
    ensures WellFormed(s)
  {
    List(Element(kind))
  }

  // ---------- Failure texts ----------

  const MAX_MESSAGE: nat := 2048

  /** The last character boundary at or before `end`. */
  function CutPoint(s: Bytes, end: nat): (cut: nat)
    requires end <= |s|
    ensures cut <= end && CharBoundary(s, cut)
    ensures forall i :: cut < i <= end ==> !CharBoundary(s, i)
  {
    if CharBoundary(s, end) then end else CutPoint(s, end - 1)
  }

  function Truncated(s: Bytes): Bytes {
    if |s| > MAX_MESSAGE then s[..CutPoint(s, MAX_MESSAGE)] else s
  }

  method Truncate(text: Bytes) returns (cut: Bytes)
    ensures cut == Truncated(text)
  {
    if |text| <= MAX_MESSAGE {
      return text;
    }
    var end: nat := MAX_MESSAGE;
    while !CharBoundary(text, end)
      invariant end <= MAX_MESSAGE
      invariant CutPoint(text, end) == CutPoint(text, MAX_MESSAGE)
      decreases end
    {
      end := end - 1;
    }
    cut := text[..end];
  }

  /** In valid text a boundary is never more than three bytes back. */
  lemma {:induction false} BoundaryNearby(s: Bytes, i: nat)
    requires ValidUtf8(s) && i <= |s|
    ensures i <= CutPoint(s, i) + 3
  {
    var n := CharLength(s);
    if s != [] && n <= i {
      var tail := s[n..];
      BoundaryNearby(tail, i - n);
      var cut := CutPoint(tail, i - n);
      assert tail != [] ==> CharLength(tail) > 0;
      assert CharBoundary(s, n + cut);
    }
  }

  /** Truncation keeps valid text valid, keeps a prefix, stays within the bound and drops no
      more than a partial character. */
  lemma TruncationIsTight(s: Bytes)
    requires ValidUtf8(s)
    ensures var t := Truncated(s);
            && ValidUtf8(t) && t <= s && |t| <= MAX_MESSAGE
            && (|s| <= MAX_MESSAGE ==> t == s)
            && (|s| > MAX_MESSAGE ==> |t| >= MAX_MESSAGE - 3)
  {
    if |s| > MAX_MESSAGE {
      CutAtBoundary(s, CutPoint(s, MAX_MESSAGE));
      BoundaryNearby(s, MAX_MESSAGE);
    }
  }

  // ---------- Encoding ----------

  datatype Decoded = Delivered(reply: Reply) | Malformed(error: string)

  function ReplyTag(kind: ReplyKind): byte {
    match kind case Pixels => 1 case Words => 2 case Bytewise => 3 case Halfwords => 4
  }

  function ReplyKindOf(tag: byte): Option<ReplyKind> {
    match tag
    case 1 => Some(Pixels)
    case 2 => Some(Words)
    case 3 => Some(Bytewise)
    case 4 => Some(Halfwords)
    case _ => None
  }

  lemma TruncatedHasType(reply: Reply)
    requires reply.Failed? && reply.Valid()
    ensures HasType(Raw(Truncated(reply.message)), Text)
  {
    TruncationIsTight(reply.message);
  }

  function EncodeReply(reply: Reply): Bytes
    requires reply.Valid()
  {
    match reply
    case Success(kind, payload) => EncodeMessage(ReplySchema(kind), ReplyTag(kind), payload)
    case Failed(fatal, message) =>
      TruncatedHasType(reply);
      EncodeMessage(Text, if fatal then 5 else 0, Raw(Truncated(message)))
  }

  function Finish(parsed: Parsed, deliver: Value -> Reply): Decoded {
    match parsed
    case Bad(e) => Malformed(e)
    case Got(v, rest) => if rest == [] then Delivered(deliver(v)) else Malformed("trailing bytes")
  }

  /** A malformed reply reaches the caller as a fatal failure. */
  function DecodeReply(bytes: Bytes): Decoded {
    if |bytes| < 1 then Malformed("truncated")
    else if bytes[0] != WIRE_VERSION then Malformed("version mismatch")
    else if |bytes| < 2 then Malformed("truncated")
    else if bytes[1] == 0 || bytes[1] == 5 then
      Finish(Get(Text, bytes[2..]), (v: Value) => Failed(bytes[1] == 5, if v.Raw? then v.bytes else []))
    else match ReplyKindOf(bytes[1])
      case None => Malformed("unknown response")
      case Some(kind) => Finish(Get(ReplySchema(kind), bytes[2..]), (v: Value) => Success(kind, v))
  }

  lemma BodyDecodes(schema: Schema, tag: byte, payload: Value)
    requires WellFormed(schema) && HasType(payload, schema)
    ensures var bytes := EncodeMessage(schema, tag, payload);
            && |bytes| >= 2 && bytes[0] == WIRE_VERSION && bytes[1] == tag
            && Get(schema, bytes[2..]) == Got(payload, [])
  {
    var body := Enc(payload, schema);
    DecodeEncode(payload, schema, []);
    assert body + [] == body;
    assert EncodeMessage(schema, tag, payload)[2..] == body;
  }

  lemma SuccessRoundTrip(kind: ReplyKind, payload: Value)
    requires HasType(payload, ReplySchema(kind))
    ensures DecodeReply(EncodeMessage(ReplySchema(kind), ReplyTag(kind), payload)) == Delivered(Success(kind, payload))
  {
    BodyDecodes(ReplySchema(kind), ReplyTag(kind), payload);
    assert ReplyKindOf(ReplyTag(kind)) == Some(kind);
  }

  lemma FailureRoundTrip(fatal: bool, text: Bytes)
    requires HasType(Raw(text), Text)
    ensures DecodeReply(EncodeMessage(Text, if fatal then 5 else 0, Raw(text))) == Delivered(Failed(fatal, text))
  {
    BodyDecodes(Text, if fatal then 5 else 0, Raw(text));
  }

  /** A success arrives unchanged; a failure arrives with its text cut as above. */
  lemma ReplyRoundTrip(reply: Reply)
    requires reply.Valid()
    ensures DecodeReply(EncodeReply(reply)) ==
      Delivered(if reply.Failed? then Failed(reply.fatal, Truncated(reply.message)) else reply)
  {
    match reply {
      case Success(kind, payload) =>
        SuccessRoundTrip(kind, payload);
      case Failed(fatal, message) =>
        TruncatedHasType(reply);
        FailureRoundTrip(fatal, Truncated(message));
    }
  }

  // ---------- Capacity ----------

  function Field(v: Value, k: nat): Value {
    if !v.Both? then Void else if k == 0 then v.first else Field(v.second, k - 1)
  }

  function AsNat(v: Value): nat { if v.Number? && v.n >= 0 then v.n else 0 }
  function Count(v: Value): nat { if v.Items? then |v.items| else 0 }
  function Item(v: Value, k: nat): int { if v.Items? && k < |v.items| && v.items[k].Number? then v.items[k].n else 0 }

  function SaturatingAdd(a: nat, b: nat): nat { Min(a + b, USIZE_MAX) }

  /** Pixels of a shape's area: both sides positive, no step overflowing. */
  function PixelCount(area: Value): Option<nat> {
    var width, height := Item(area, 2) - Item(area, 0), Item(area, 3) - Item(area, 1);
    if !(-TWO_31 <= width < TWO_31) || !(-TWO_31 <= height < TWO_31) then None
    else if width <= 0 || height <= 0 then None
    else if width * height > USIZE_MAX then None
    else Some(width * height)
  }

  /** A shape has pixels exactly when both sides are positive and no step overflows; it has one for every
      position between its edges. */
  lemma PixelCountIsArea(left: int, top: int, right: int, bottom: int, area: Value)
    requires area == Items([Number(left), Number(top), Number(right), Number(bottom)])
    ensures PixelCount(area).Some? <==>
            && left < right < left + 0x8000_0000 && top < bottom < top + 0x8000_0000
            && (right - left) * (bottom - top) <= USIZE_MAX
    ensures PixelCount(area).Some? ==> PixelCount(area).value == (right - left) * (bottom - top)
  {
  }

  const HEADER: nat := 16
  const ERROR_TEXT: nat := 4096

  /** Elements of the reply a request's kernel returns; a shape without pixels has no kernel. */
  function ReplyCount(r: Request): Option<nat> {
    match r.kind
    case Raster => PixelCount(Field(Field(r.payload, 0), 3))
    case BlitCells => Some(Count(Field(r.payload, 3)) * Count(Field(r.payload, 4)))
    case BlitWords => Some(Count(Field(r.payload, 3)) * Count(Field(r.payload, 4)))
    case PackedBlit => Some(AsNat(Field(r.payload, 6)) * AsNat(Field(r.payload, 2)))
    case Qd3d => Some(AsNat(Field(Field(r.payload, 0), 0)) * AsNat(Field(Field(r.payload, 0), 1)))
  }

  function ElementBytes(kind: ReplyKind): nat {
    match kind case Pixels => 5 case Words => 4 case Bytewise => 1 case Halfwords => 2
  }

  function ReplyKindFor(kind: Kind): ReplyKind {
    match kind case Raster => Pixels case BlitCells => Pixels case BlitWords => Words
               case PackedBlit => Bytewise case Qd3d => Halfwords
  }

  /** The reply buffer reserved before blocking. Each product saturates at `usize::MAX`. */
  function ResponseCapacity(r: Request): nat {
    var blitCells := SaturatingMul(Count(Field(r.payload, 3)), Count(Field(r.payload, 4)));
    var payload := match r.kind
      case Raster =>
        (match PixelCount(Field(Field(r.payload, 0), 3)) case Some(n) => SaturatingMul(n, 5) case None => 0)
      case BlitCells => SaturatingMul(blitCells, 5)
      case BlitWords => SaturatingMul(blitCells, 4)
      case PackedBlit => SaturatingMul(AsNat(Field(r.payload, 6)), AsNat(Field(r.payload, 2)))
      case Qd3d =>
        SaturatingMul(SaturatingMul(AsNat(Field(Field(r.payload, 0), 0)), AsNat(Field(Field(r.payload, 0), 1))), 2);
    SaturatingAdd(Max(payload, ERROR_TEXT), HEADER)
  }

  /** Saturating twice is saturating once: the buffer has room for every element the kernel returns and for
      the longest failure text, and is exactly that large. */
  lemma CapacityIsExact(r: Request)
    ensures ResponseCapacity(r) == Min(Max(ReplySize(r), 4096) + 16, USIZE_MAX)
  {
    match r.kind {
      case Raster =>
      case BlitCells => SaturateOnce(Count(Field(r.payload, 3)), Count(Field(r.payload, 4)), 5);
      case BlitWords => SaturateOnce(Count(Field(r.payload, 3)), Count(Field(r.payload, 4)), 4);
      case PackedBlit =>
      case Qd3d => SaturateOnce(AsNat(Field(Field(r.payload, 0), 0)), AsNat(Field(Field(r.payload, 0), 1)), 2);
    }
  }

  /** Bytes of the elements of a reply: five for a pixel, four for a word, two for a halfword. */
  function ReplySize(r: Request): nat {
    match ReplyCount(r)
    case None => 0
    case Some(n) => n * (match r.kind case Raster => 5 case BlitCells => 5 case BlitWords => 4
                                      case PackedBlit => 1 case Qd3d => 2)
  }

  lemma SaturateOnce(a: nat, b: nat, k: nat)
    requires k > 0
    ensures SaturatingMul(SaturatingMul(a, b), k) == Min(a * b * k, USIZE_MAX)
  {
    var n := a * b;
    if n > USIZE_MAX {
      MulMono(USIZE_MAX, n, k);
      MulMono(1, k, USIZE_MAX);
    }
  }

  /** A request's fields in order: columns and rows are the fourth and fifth of a blit, the stride and the
      height the seventh and third of a packed copy. */
  lemma CountsInFields(r: Request, v0: Value, v1: Value, v2: Value, v3: Value, v4: Value, v5: Value, v6: Value,
                       rest: Value)
    requires r.payload == Both(v0, Both(v1, Both(v2, Both(v3, Both(v4, Both(v5, Both(v6, rest)))))))
    ensures (r.kind.BlitCells? || r.kind.BlitWords?) && v3.Items? && v4.Items? ==>
              ReplyCount(r) == Some(|v3.items| * |v4.items|)
    ensures r.kind.PackedBlit? && v2.Number? && v6.Number? && v2.n >= 0 && v6.n >= 0 ==>
              ReplyCount(r) == Some(v6.n * v2.n)
    ensures r.kind.Qd3d? && v0.Both? && v0.second.Both? && v0.first.Number? && v0.second.first.Number?
            && v0.first.n >= 0 && v0.second.first.n >= 0 ==>
              ReplyCount(r) == Some(v0.first.n * v0.second.first.n)
    ensures r.kind.Raster? && v0.Both? && v0.second.Both? && v0.second.second.Both? && v0.second.second.second.Both? ==>
              ReplyCount(r) == PixelCount(v0.second.second.second.first)
  {
    SeventhField(r.payload, v0, v1, v2, v3, v4, v5, v6, rest);
    if r.kind.Raster? && v0.Both? && v0.second.Both? && v0.second.second.Both? {
      assert Field(v0, 3) == Field(v0.second, 2) == Field(v0.second.second, 1);
      assert Field(v0.second.second, 1) == Field(v0.second.second.second, 0);
    }
    assert r.kind.Qd3d? && v0.Both? ==> Field(v0, 1) == Field(v0.second, 0);
  }

  lemma SeventhField(v: Value, v0: Value, v1: Value, v2: Value, v3: Value, v4: Value, v5: Value, v6: Value, rest: Value)
    requires v == Both(v0, Both(v1, Both(v2, Both(v3, Both(v4, Both(v5, Both(v6, rest)))))))
    ensures Field(v, 0) == v0 && Field(v, 2) == v2 && Field(v, 3) == v3 && Field(v, 4) == v4 && Field(v, 6) == v6
  {
    var a := v.second.second;
    assert Field(v, 2) == Field(v.second, 1) == Field(a, 0);
    assert Field(v, 3) == Field(v.second, 2) == Field(a, 1) == v3;
    assert Field(v, 4) == Field(v.second, 3) == Field(a, 2) == Field(a.second, 1) == v4;
    assert Field(v, 6) == Field(v.second, 5) == Field(a, 4) == Field(a.second, 3) == Field(a.second.second, 2);
    assert Field(a.second.second, 2) == Field(a.second.second.second, 1) == v6;
  }

  /** What the kernel for a request may answer: any failure, or a success of its shape. */
  predicate Honest(r: Request, reply: Reply) {
    reply.Valid() &&
    (reply.Success? ==>
       && reply.kind == ReplyKindFor(r.kind)
       && ReplyCount(r) == Some(Count(reply.payload)))
  }

  lemma {:induction false} ElementsLength(vs: seq<Value>, e: Schema, k: nat)
    requires AllHaveType(vs, e)
    requires forall v | v in vs :: HasType(v, e) ==> |Enc(v, e)| == k
    ensures |EncAll(vs, e)| == |vs| * k
  {
    if vs != [] {
      ElementsLength(vs[1..], e, k);
      OneMoreTime(|vs[1..]|, k);
    }
  }

  lemma ElementLength(kind: ReplyKind, v: Value)
    requires HasType(v, Element(kind))
    ensures |Enc(v, Element(kind))| == ElementBytes(kind)
  {
    if kind == Pixels {
      PixelLength(v);
    }
  }

  lemma PayloadLength(kind: ReplyKind, items: seq<Value>)
    requires AllHaveType(items, Element(kind))
    ensures |EncAll(items, Element(kind))| == |items| * ElementBytes(kind)
  {
    var e := Element(kind);
    forall v | v in items && HasType(v, e) ensures |Enc(v, e)| == ElementBytes(kind) {
      ElementLength(kind, v);
    }
    ElementsLength(items, e, ElementBytes(kind));
  }

  lemma ReplyLength(reply: Reply)
    requires reply.Valid()
    ensures |EncodeReply(reply)| ==
      if reply.Success? then 6 + Count(reply.payload) * ElementBytes(reply.kind) else 6 + |Truncated(reply.message)|
  {
    if reply.Success? {
      PayloadLength(reply.kind, reply.payload.items);
    }
  }

  lemma PixelLength(v: Value)
    requires HasType(v, PixelRecord())
    ensures |Enc(v, PixelRecord())| == 5
  {
    assert [U32, Bool][1..] == [Bool] && [Bool][1..] == [];
    assert Fields([U32, Bool]) == Pair(U32, Fields([Bool]));
    assert Fields([Bool]) == Pair(Bool, Unit);
  }

  /** An honest reply always fits the reserved buffer: the saturating products only ever
      stop at a size no reply can exceed. */
  lemma HonestReplyFits(r: Request, reply: Reply)
    requires Honest(r, reply) && |EncodeReply(reply)| <= USIZE_MAX
    ensures |EncodeReply(reply)| <= ResponseCapacity(r)
  {
    ReplyLength(reply);
    if reply.Failed? {
      TruncationIsTight(reply.message);
    } else {
      var n, k := Count(reply.payload), ElementBytes(reply.kind);
      assert ResponseCapacity(r) == SaturatingAdd(Max(SaturatingMul(SaturatingMul(n, 1), k), ERROR_TEXT), HEADER);
    }
  }
}
