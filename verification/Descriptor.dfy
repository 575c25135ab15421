/** The schema descriptor tree: its wire format, its length calculator and its decoder
    (crates/pardosa/src/schema.rs). */
module Descriptor {
  import opened Wire

  const MAX_DESCRIPTOR_DEPTH: nat := 16

  datatype FieldDescriptor = FieldDescriptor(name: Str, node: DescriptorNode)

  datatype VariantDescriptor =
    VariantDescriptor(discriminant: u32, name: Str, payload: Option<DescriptorNode>)

  datatype DescriptorNode =
    | U8 | U16 | U32 | U64 | I8 | I16 | I32 | I64 | Bool
    | EventString(maxBytes: u32)
    | NonEmptyEventString(maxBytes: u32)
    | EventBytes(maxBytes: u32)
    | EventVec(inner: DescriptorNode, maxItems: u32)
    | OptionOf(inner: DescriptorNode)
    | Struct(name: Str, fields: seq<FieldDescriptor>)
    | Enum(name: Str, discriminantWidth: byte, variants: seq<VariantDescriptor>)
    | Timestamp | Uuid | OrderedF32 | OrderedF64

  function ConstructorTag(node: DescriptorNode): (tag: byte)
    ensures 0x01 <= tag <= 0x14
  {
    match node
    case U8 => 0x01
    case U16 => 0x02
    case U32 => 0x03
    case U64 => 0x04
    case I8 => 0x05
    case I16 => 0x06
    case I32 => 0x07
    case I64 => 0x08
    case Bool => 0x09
    case EventString(_) => 0x0A
    case NonEmptyEventString(_) => 0x0B
    case EventBytes(_) => 0x0C
    case EventVec(_, _) => 0x0D
    case OptionOf(_) => 0x0E
    case Struct(_, _) => 0x0F
    case Enum(_, _, _) => 0x10
    case Timestamp => 0x11
    case Uuid => 0x12
    case OrderedF32 => 0x13
    case OrderedF64 => 0x14
  }

  /** The constructors that are nothing but their tag. */
  function ScalarOf(tag: byte): (node: Option<DescriptorNode>)
    ensures node.Some? ==> ConstructorTag(node.value) == tag && IsScalar(node.value)
    ensures node.None? <==> tag == 0 || 0x0A <= tag <= 0x10 || tag > 0x14
  {
    match tag
    case 0x01 => Some(U8)
    case 0x02 => Some(U16)
    case 0x03 => Some(U32)
    case 0x04 => Some(U64)
    case 0x05 => Some(I8)
    case 0x06 => Some(I16)
    case 0x07 => Some(I32)
    case 0x08 => Some(I64)
    case 0x09 => Some(Bool)
    case 0x11 => Some(Timestamp)
    case 0x12 => Some(Uuid)
    case 0x13 => Some(OrderedF32)
    case 0x14 => Some(OrderedF64)
    case _ => None
  }

  predicate IsScalar(node: DescriptorNode) {
    !(0x0A <= ConstructorTag(node) <= 0x10)
  }

  // ---- Wire format ----

  function EncodeCount(n: nat): Result<Bytes, EncodeError> {
    if n > U32_MAX then Err(WireLengthOverflow) else Ok(Le(n, 4))
  }

  /** Every width other than 1 is written as two bytes. */
  function EncodeDiscriminant(d: u32, width: byte): Result<Bytes, EncodeError> {
    if width == 1 then
      if d > 0xFF then Err(DiscriminantExceedsWidth) else Ok(Le(d, 1))
    else
      if d > 0xFFFF then Err(DiscriminantExceedsWidth) else Ok(Le(d, 2))
  }

  function Encode(node: DescriptorNode, depth: nat): Result<Bytes, EncodeError>
    decreases node
  {
    if depth > MAX_DESCRIPTOR_DEPTH then Err(DepthExceeded) else
    match node
    case EventString(m) => Ok([0x0A] + Le(m, 4))
    case NonEmptyEventString(m) => Ok([0x0B] + Le(m, 4))
    case EventBytes(m) => Ok([0x0C] + Le(m, 4))
    case EventVec(inner, m) =>
      var b :- Encode(inner, depth + 1);
      Ok([0x0D] + (b + Le(m, 4)))
    case OptionOf(inner) =>
      var b :- Encode(inner, depth + 1);
      Ok([0x0E] + b)
    case Struct(name, fields) =>
      var t :- EncodeText(name);
      var c :- EncodeCount(|fields|);
      var b :- EncodeFields(fields, depth + 1);
      Ok([0x0F] + (t + (c + b)))
    case Enum(name, width, variants) =>
      var t :- EncodeText(name);
      var c :- EncodeCount(|variants|);
      var b :- EncodeVariants(variants, width, depth + 1);
      Ok([0x10] + (t + ([width] + (c + b))))
    case _ => Ok([ConstructorTag(node)])
  }

  function EncodeField(f: FieldDescriptor, depth: nat): Result<Bytes, EncodeError>
    decreases f
  {
    var t :- EncodeText(f.name);
    var b :- Encode(f.node, depth);
    Ok(t + b)
  }

  function EncodeFields(fields: seq<FieldDescriptor>, depth: nat): Result<Bytes, EncodeError>
    decreases fields
  {
    if fields == [] then Ok([]) else
    var b :- EncodeField(fields[0], depth);
    var r :- EncodeFields(fields[1..], depth);
    Ok(b + r)
  }

  function EncodePayload(p: Option<DescriptorNode>, depth: nat): Result<Bytes, EncodeError>
    decreases p
  {
    if p.None? then Ok([0x00]) else Encode(p.value, depth)
  }

  function EncodeVariant(v: VariantDescriptor, width: byte, depth: nat): Result<Bytes, EncodeError>
    decreases v
  {
    var d :- EncodeDiscriminant(v.discriminant, width);
    var t :- EncodeText(v.name);
    var b :- EncodePayload(v.payload, depth);
    Ok(d + (t + b))
  }

  function EncodeVariants(variants: seq<VariantDescriptor>, width: byte, depth: nat): Result<Bytes, EncodeError>
    decreases variants
  {
    if variants == [] then Ok([]) else
    var b :- EncodeVariant(variants[0], width, depth);
    var r :- EncodeVariants(variants[1..], width, depth);
    Ok(b + r)
  }

  // ---- Parser ----

  function Parse(depth: nat, s: Bytes): Parsed<DescriptorNode>
    decreases MAX_DESCRIPTOR_DEPTH + 1 - depth, 2, 0
  {
    if depth > MAX_DESCRIPTOR_DEPTH then Err(CycleDetected)
    else if s == [] then Err(TruncatedPayload)
    else ParseBody(depth, s[0], s[1..])
  }

  function ParseBody(depth: nat, tag: byte, s: Bytes): Parsed<DescriptorNode>
    requires depth <= MAX_DESCRIPTOR_DEPTH
    decreases MAX_DESCRIPTOR_DEPTH + 1 - depth, 1, 0
  {
    match tag
    case 0x0A => var (m, r) :- TakeU32(s); Ok((EventString(m), r))
    case 0x0B => var (m, r) :- TakeU32(s); Ok((NonEmptyEventString(m), r))
    case 0x0C => var (m, r) :- TakeU32(s); Ok((EventBytes(m), r))
    case 0x0D =>
      var (inner, r) :- Parse(depth + 1, s);
      var (m, r) :- TakeU32(r);
      Ok((EventVec(inner, m), r))
    case 0x0E =>
      var (inner, r) :- Parse(depth + 1, s);
      Ok((OptionOf(inner), r))
    case 0x0F => ParseStruct(depth, s)
    case 0x10 => ParseEnum(depth, s)
    case _ =>
      if ScalarOf(tag).Some? then Ok((ScalarOf(tag).value, s)) else Err(UnknownConstructorTag)
  }

  function ParseStruct(depth: nat, s: Bytes): Parsed<DescriptorNode>
    requires depth <= MAX_DESCRIPTOR_DEPTH
    decreases MAX_DESCRIPTOR_DEPTH + 1 - depth, 0, 0
  {
    var (name, r) :- TakeText(s);
    var (n, r) :- TakeU32(r);
    if !CountFits(n, 5, |r|) then Err(TruncatedPayload) else
    var (fields, r) :- ParseFields(depth + 1, n, [], r);
    Ok((Struct(name, fields), r))
  }

  function ParseEnum(depth: nat, s: Bytes): Parsed<DescriptorNode>
    requires depth <= MAX_DESCRIPTOR_DEPTH
    decreases MAX_DESCRIPTOR_DEPTH + 1 - depth, 0, 0
  {
    var (name, r) :- TakeText(s);
    var (w, r) :- TakeWidth(r);
    var (n, r) :- TakeU32(r);
    if !CountFits(n, w + 5, |r|) then Err(TruncatedPayload) else
    var (variants, r) :- ParseVariants(depth + 1, w, n, [], r);
    Ok((Enum(name, w, variants), r))
  }

  /** The allocation guard: a declared count must fit in what remains of the buffer. */
  predicate CountFits(count: nat, minBytes: nat, remaining: nat)
    requires minBytes > 0
  {
    remaining / minBytes >= count
  }

  function TakeWidth(s: Bytes): (p: Parsed<byte>)
    ensures p.Ok? ==> p.value.0 in {1, 2} && s == [p.value.0] + p.value.1
  {
    if s == [] then Err(TruncatedPayload)
    else if s[0] != 1 && s[0] != 2 then Err(InvalidDiscriminantWidth)
    else Ok((s[0], s[1..]))
  }

  function ParseField(depth: nat, s: Bytes): Parsed<FieldDescriptor>
    decreases MAX_DESCRIPTOR_DEPTH + 1 - depth, 3, 0
  {
    var (name, r) :- TakeText(s);
    var (node, r) :- Parse(depth, r);
    Ok((FieldDescriptor(name, node), r))
  }

  /** Reads `n` more fields after `acc`. */
  function ParseFields(depth: nat, n: nat, acc: seq<FieldDescriptor>, s: Bytes): Parsed<seq<FieldDescriptor>>
    decreases MAX_DESCRIPTOR_DEPTH + 1 - depth, 4, n
  {
    if n == 0 then Ok((acc, s)) else
    var (f, r) :- ParseField(depth, s);
    ParseFields(depth, n - 1, acc + [f], r)
  }

  function TakeDiscriminant(width: byte, s: Bytes): Parsed<u32> {
    if width == 1 then
      if |s| < 1 then Err(TruncatedPayload) else Widths(); Ok((FromLe(s[..1]), s[1..]))
    else
      if |s| < 2 then Err(TruncatedPayload) else Widths(); Ok((FromLe(s[..2]), s[2..]))
  }

  function ParsePayload(depth: nat, s: Bytes): Parsed<Option<DescriptorNode>>
    decreases MAX_DESCRIPTOR_DEPTH + 1 - depth, 3, 0
  {
    if s == [] then Err(TruncatedPayload)
    else if s[0] == 0x00 then Ok((None, s[1..]))
    else
      var (node, r) :- Parse(depth, s);
      Ok((Some(node), r))
  }

  function ParseVariant(depth: nat, width: byte, s: Bytes): Parsed<VariantDescriptor>
    decreases MAX_DESCRIPTOR_DEPTH + 1 - depth, 4, 0
  {
    var (d, r) :- TakeDiscriminant(width, s);
    var (name, r) :- TakeText(r);
    var (payload, r) :- ParsePayload(depth, r);
    Ok((VariantDescriptor(d, name, payload), r))
  }

  function ParseVariants(depth: nat, width: byte, n: nat, acc: seq<VariantDescriptor>, s: Bytes)
    : Parsed<seq<VariantDescriptor>>
    decreases MAX_DESCRIPTOR_DEPTH + 1 - depth, 5, n
  {
    if n == 0 then Ok((acc, s)) else
    var (v, r) :- ParseVariant(depth, width, s);
    ParseVariants(depth, width, n - 1, acc + [v], r)
  }
}
