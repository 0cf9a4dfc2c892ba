/** The request and response messages of the GPU compute bridge (gpu_wire.rs), with the
    field lists of the guest's QuickDraw and QD3D types. */
module GpuMessages {
  import opened Base
  import opened WireCodec

  const WIRE_VERSION: byte := 1

  // ---------- Message types ----------

  /** A struct's fields in declaration order. Each is well formed and the first takes space. */
  function Fields(parts: seq<Schema>): (s: Schema)
    requires forall i :: 0 <= i < |parts| ==> WellFormed(parts[i])
    ensures WellFormed(s)
    ensures parts != [] && Occupies(parts[0]) ==> Occupies(s)
  {
    if parts == [] then Unit else Pair(parts[0], Fields(parts[1..]))
  }

  function Record(parts: seq<Schema>): (s: Schema)
    requires parts != [] && Occupies(parts[0]) && forall i :: 0 <= i < |parts| ==> WellFormed(parts[i])
    ensures WellFormed(s) && Occupies(s)
  {
    Struct(Fields(parts))
  }

  const U8 := UInt(1)
  const U16 := UInt(2)
  const U32 := UInt(4)
  const Float3 := Array(3, Float)
  const Float4 := Array(4, Float)
  const Vector3 := Pair(Float, Pair(Float, Float))
  const Clut := List(Array(3, U16))
  const Span := Array(2, U32)

  function Mask(): (s: Schema)
    ensures WellFormed(s) && Occupies(s)
  {
    Record([Array(2, Int32), Span, List(U8), U8, Bool])
  }

  function Command(): (s: Schema)
    ensures WellFormed(s) && Occupies(s)
  {
    Record([Maybe(Mask()), Maybe(List(List(Int32))), Maybe(List(Float4)), Array(4, Int32), Array(4, Int32),
            Maybe(Array(2, Int32)), Array(8, U8), Array(2, Span)])
  }

  function PixelRecord(): (s: Schema)
    ensures WellFormed(s) && Occupies(s)
  {
    Record([U32, Bool])
  }

  function DirectColor(): (s: Schema)
    ensures WellFormed(s) && Occupies(s)
  {
    Record([U32, U32, List(U32)])
  }

  function BlitClip(): (s: Schema)
    ensures WellFormed(s) && Occupies(s)
  {
    Record([Maybe(List(U8)), Maybe(Span)])
  }

  function Arithmetic(): (s: Schema)
    ensures WellFormed(s) && Occupies(s)
  {
    Record([U32, U32, Array(3, U16), Clut, Clut, List(U32)])
  }

  function DeepMask(): (s: Schema)
    ensures WellFormed(s) && Occupies(s)
  {
    Record([U32, U32, U32, U32, Bool, Clut, Clut, Clut, U32, U32, List(U32), List(U32), List(U32), List(U32)])
  }

  function Blit(): (s: Schema)
    ensures WellFormed(s) && Occupies(s)
  {
    Record([U32, U32, List(U32), List(Span), List(Span), Maybe(Array(256, U32)),
            Maybe(DirectColor()), Maybe(BlitClip()), Maybe(Arithmetic()), Maybe(DeepMask())])
  }

  function PackedCopy(): (s: Schema)
    ensures WellFormed(s) && Occupies(s)
  {
    Record([U32, U32, U32, U32, U32, List(U8), U32, U32, List(U8), Maybe(Array(256, U8))])
  }

  function Texture(): (s: Schema)
    ensures WellFormed(s) && Occupies(s)
  {
    Record([U32, U32, List(U8), Bool, Bool])
  }

  function LightKind(): (s: Schema)
    ensures WellFormed(s) && Occupies(s)
  {
    Variant("light kind", [Unit,
                           Fields([U32, Vector3]),
                           Fields([U32, U32, Vector3]),
                           Fields([U32, U32, Vector3, Vector3, Float, Float, U32])])
  }

  function LightData(): (s: Schema)
    ensures WellFormed(s) && Occupies(s)
  {
    Record([U32, Float, Vector3])
  }

  function LightRecord(): (s: Schema)
    ensures WellFormed(s) && Occupies(s)
  {
    Record([U32, U32, LightData(), LightKind()])
  }

  function Lighting(): (s: Schema)
    ensures WellFormed(s) && Occupies(s)
  {
    Record([List(LightRecord()), U32, U32])
  }

  function Fog(): (s: Schema)
    ensures WellFormed(s) && Occupies(s)
  {
    Record([U32, U32, Float, Float, Float, Pair(Float, Pair(Float, Pair(Float, Float)))])
  }

  function Shading(): (s: Schema)
    ensures WellFormed(s) && Occupies(s)
  {
    Record([Bool, Maybe(Float3), Float3, Maybe(Float3), Float3, Float])
  }

  function Vertex(): (s: Schema)
    ensures WellFormed(s) && Occupies(s)
  {
    Record([Shading(), Float, Float, Maybe(Float), Float, Float, Float, Float, Array(2, Float), Float4])
  }

  function Primitive(): (s: Schema)
    ensures WellFormed(s) && Occupies(s)
  {
    Variant("primitive", [Unit, Unit, Unit])
  }

  function RasterDraw(): (s: Schema)
    ensures WellFormed(s) && Occupies(s)
  {
    Record([Primitive(), Bool, Maybe(Lighting()), Maybe(Float3), Bool, Maybe(Fog()), Maybe(Usize),
            List(Vertex()), Bool, Bool])
  }

  function RasterFrame(): (s: Schema)
    ensures WellFormed(s) && Occupies(s)
  {
    Record([U32, U32, Array(4, Int32), Maybe(Float4), List(Texture()), List(RasterDraw())])
  }

  // ---------- Requests ----------

  datatype Kind = Raster | BlitCells | BlitWords | PackedBlit | Qd3d

  function Tag(kind: Kind): byte {
    match kind case Raster => 1 case BlitCells => 2 case BlitWords => 3 case PackedBlit => 4 case Qd3d => 5
  }

  function KindOf(tag: byte): Option<Kind> {
    match tag case 1 => Some(Raster) case 2 => Some(BlitCells) case 3 => Some(BlitWords)
              case 4 => Some(PackedBlit) case 5 => Some(Qd3d) case _ => None
  }

  /** The struct layouts that requests are built from. */
  datatype Layouts = Layouts(command: Schema, blit: Schema, packed: Schema, frame: Schema) {
    predicate Valid() { WellFormed(command) && WellFormed(blit) && WellFormed(packed) && WellFormed(frame) }
  }

  /** The layouts of this version of the protocol. */
  function CurrentLayouts(): (l: Layouts)
    ensures l.Valid()
  {
    Layouts(Command(), Blit(), PackedCopy(), RasterFrame())
  }

  function Payload(l: Layouts, kind: Kind): (s: Schema)
    ensures l.Valid() ==> WellFormed(s)
  {
    match kind
    case Raster => Pair(l.command, Pair(List(U32), Unit))
    case BlitCells => l.blit
    case BlitWords => l.blit
    case PackedBlit => l.packed
    case Qd3d => Pair(l.frame, Pair(List(U16), Pair(Maybe(Array(256, Array(3, U16))), Unit)))
  }

  datatype Request = Request(kind: Kind, payload: Value) {
    predicate Valid(l: Layouts) { HasType(payload, Payload(l, kind)) }
  }

  function EncodeMessage(schema: Schema, tag: byte, payload: Value): Bytes
    requires HasType(payload, schema)
  {
    [WIRE_VERSION, tag] + Enc(payload, schema)
  }

  function DecodeMessage<K>(kindOf: byte -> Option<K>, schemaOf: K -> Schema, bytes: Bytes): Result<(K, Value)> {
    if |bytes| < 1 then Err("truncated")
    else if bytes[0] != WIRE_VERSION then Err("version mismatch")
    else if |bytes| < 2 then Err("truncated")
    else match kindOf(bytes[1])
      case None => Err("unknown request")
      case Some(kind) =>
        match Get(schemaOf(kind), bytes[2..])
        case Bad(e) => Err(e)
        case Got(v, rest) => if rest == [] then Ok((kind, v)) else Err("trailing bytes")
  }

  lemma MessageRoundTrip<K>(kindOf: byte -> Option<K>, schemaOf: K -> Schema, kind: K, tag: byte, payload: Value)
    requires kindOf(tag) == Some(kind) && WellFormed(schemaOf(kind)) && HasType(payload, schemaOf(kind))
    ensures DecodeMessage(kindOf, schemaOf, EncodeMessage(schemaOf(kind), tag, payload)) == Ok((kind, payload))
  {
    var body := Enc(payload, schemaOf(kind));
    DecodeEncode(payload, schemaOf(kind), []);
    assert body + [] == body;
    assert EncodeMessage(schemaOf(kind), tag, payload)[2..] == body;
  }

  lemma MessageIsCanonical<K>(kindOf: byte -> Option<K>, schemaOf: K -> Schema, bytes: Bytes)
    requires DecodeMessage(kindOf, schemaOf, bytes).Ok?
    ensures var (kind, payload) := DecodeMessage(kindOf, schemaOf, bytes).value;
            && |bytes| >= 2 && kindOf(bytes[1]) == Some(kind)
            && HasType(payload, schemaOf(kind))
            && EncodeMessage(schemaOf(kind), bytes[1], payload) == bytes
  {
    var (kind, payload) := DecodeMessage(kindOf, schemaOf, bytes).value;
    EncodeDecode(schemaOf(kind), bytes[2..]);
    var body := Enc(payload, schemaOf(kind));
    assert body + [] == body;
    assert bytes == [bytes[0], bytes[1]] + bytes[2..];
  }

  function EncodeRequest(l: Layouts, r: Request): Bytes
    requires r.Valid(l)
  {
    EncodeMessage(Payload(l, r.kind), Tag(r.kind), r.payload)
  }

  function DecodeRequest(l: Layouts, bytes: Bytes): Result<Request> {
    match DecodeMessage(KindOf, (kind: Kind) => Payload(l, kind), bytes)
    case Ok((kind, payload)) => Ok(Request(kind, payload))
    case Err(e) => Err(e)
  }

  /** Every request survives the worker boundary. */
  lemma RequestRoundTrip(l: Layouts, r: Request)
    requires l.Valid() && r.Valid(l)
    ensures DecodeRequest(l, EncodeRequest(l, r)) == Ok(r)
  {
    MessageRoundTrip(KindOf, (kind: Kind) => Payload(l, kind), r.kind, Tag(r.kind), r.payload);
  }

  /** Only canonical bytes decode: strict booleans and tags, no trailing bytes. */
  lemma RequestIsCanonical(l: Layouts, bytes: Bytes)
    requires DecodeRequest(l, bytes).Ok?
    ensures var r := DecodeRequest(l, bytes).value; r.Valid(l) && EncodeRequest(l, r) == bytes
  {
    MessageIsCanonical(KindOf, (kind: Kind) => Payload(l, kind), bytes);
  }
}
