/** Which descriptors can be encoded at all: how deep a node nests, which sizes fit the wire,
    and that nothing else stands in the way (crates/pardosa/src/schema.rs:296-392). */
module DescriptorLimits {
  import opened Wire
  import opened Descriptor

  function Max(a: nat, b: nat): nat {
    if a < b then b else a
  }

  // ---- Nesting of a descriptor ----

  function Nesting(node: DescriptorNode): nat
    decreases node
  {
    match node
    case EventVec(inner, _) => 1 + Nesting(inner)
    case OptionOf(inner) => 1 + Nesting(inner)
    case Struct(_, fields) => FieldNesting(fields)
    case Enum(_, _, variants) => VariantNesting(variants)
    case _ => 0
  }

  function FieldNesting(fields: seq<FieldDescriptor>): nat
    decreases fields
  {
    if fields == [] then 0 else Max(1 + Nesting(fields[0].node), FieldNesting(fields[1..]))
  }

  function PayloadNesting(p: Option<DescriptorNode>): nat
    decreases p
  {
    if p.None? then 0 else 1 + Nesting(p.value)
  }

  function VariantNesting(variants: seq<VariantDescriptor>): nat
    decreases variants
  {
    if variants == [] then 0 else Max(PayloadNesting(variants[0].payload), VariantNesting(variants[1..]))
  }

  // ---- Sizes ----

  /** Every name and count fits four bytes and every discriminant its width. */
  predicate SizesFit(node: DescriptorNode)
    decreases node
  {
    match node
    case EventVec(inner, _) => SizesFit(inner)
    case OptionOf(inner) => SizesFit(inner)
    case Struct(name, fields) => |name| <= U32_MAX && |fields| <= U32_MAX && FieldSizesFit(fields)
    case Enum(name, width, variants) =>
      |name| <= U32_MAX && |variants| <= U32_MAX && VariantSizesFit(variants, width)
    case _ => true
  }

  predicate FieldSizesFit(fields: seq<FieldDescriptor>)
    decreases fields
  {
    fields != [] ==> |fields[0].name| <= U32_MAX && SizesFit(fields[0].node) && FieldSizesFit(fields[1..])
  }

  predicate PayloadSizesFit(p: Option<DescriptorNode>)
    decreases p
  {
    p.Some? ==> SizesFit(p.value)
  }

  predicate VariantSizesFit(variants: seq<VariantDescriptor>, width: byte)
    decreases variants
  {
    variants != [] ==>
      && variants[0].discriminant <= (if width == 1 then 0xFF else 0xFFFF)
      && |variants[0].name| <= U32_MAX && PayloadSizesFit(variants[0].payload)
      && VariantSizesFit(variants[1..], width)
  }

  // ---- The encoder ----

  /** `r` is the outcome of encoding something whose sizes fit or not, at a depth that is
      within the limit or not. */
  predicate Outcome(r: Result<Bytes, EncodeError>, sizes: bool, within: bool) {
    && (r.Ok? <==> sizes && within)
    && (within ==> r != Err(DepthExceeded))
    && (sizes && !within ==> r == Err(DepthExceeded))
  }

  /** Encoding succeeds exactly when the sizes fit and the node nests within sixteen levels.
      It never blames the depth of a node within them, and blames nothing else when the sizes
      fit. */
  lemma {:induction false} EncodesIff(node: DescriptorNode, depth: nat)
    ensures Outcome(Encode(node, depth), SizesFit(node), depth + Nesting(node) <= MAX_DESCRIPTOR_DEPTH)
    decreases node
  {
    hide Le, Outcome, EncodeFields, EncodeVariants, FieldNesting, VariantNesting, FieldSizesFit, VariantSizesFit;
    if depth <= MAX_DESCRIPTOR_DEPTH {
      match node {
        case EventVec(inner, m) =>
          EncodesIff(inner, depth + 1);
          OutcomeThrough(Encode(inner, depth + 1), Encode(node, depth), SizesFit(inner),
                         depth + 1 + Nesting(inner) <= MAX_DESCRIPTOR_DEPTH);
        case OptionOf(inner) =>
          EncodesIff(inner, depth + 1);
          OutcomeThrough(Encode(inner, depth + 1), Encode(node, depth), SizesFit(inner),
                         depth + 1 + Nesting(inner) <= MAX_DESCRIPTOR_DEPTH);
        case Struct(name, fields) =>
          FieldsEncodeIff(fields, depth + 1);
          OutcomeOfSized(EncodeFields(fields, depth + 1), Encode(node, depth), |name| <= U32_MAX && |fields| <= U32_MAX,
                         FieldSizesFit(fields), depth + FieldNesting(fields) <= MAX_DESCRIPTOR_DEPTH);
        case Enum(name, width, variants) =>
          VariantsEncodeIff(variants, width, depth + 1);
          OutcomeOfSized(EncodeVariants(variants, width, depth + 1), Encode(node, depth),
                         |name| <= U32_MAX && |variants| <= U32_MAX, VariantSizesFit(variants, width),
                         depth + VariantNesting(variants) <= MAX_DESCRIPTOR_DEPTH);
        case _ => LeafEncodes(node, depth);
      }
    } else {
      TooDeep(node, depth);
    }
  }

  lemma OutcomeThrough(r: Result<Bytes, EncodeError>, r': Result<Bytes, EncodeError>, sizes: bool, within: bool)
    requires Outcome(r, sizes, within) && (r.Ok? <==> r'.Ok?) && (r.Err? ==> r' == Err(r.error))
    ensures Outcome(r', sizes, within)
  {
  }

  /** A header that fits or not comes first. */
  lemma OutcomeOfSized(r: Result<Bytes, EncodeError>, r': Result<Bytes, EncodeError>, header: bool, sizes: bool, within: bool)
    requires Outcome(r, sizes, within)
    requires if header then (r.Ok? <==> r'.Ok?) && (r.Err? ==> r' == Err(r.error)) else r' == Err(WireLengthOverflow)
    ensures Outcome(r', header && sizes, within)
  {
  }

  lemma LeafEncodes(node: DescriptorNode, depth: nat)
    requires depth <= MAX_DESCRIPTOR_DEPTH && !node.EventVec? && !node.OptionOf? && !node.Struct? && !node.Enum?
    ensures Outcome(Encode(node, depth), SizesFit(node), depth + Nesting(node) <= MAX_DESCRIPTOR_DEPTH)
  {
    hide Le;
  }

  lemma TooDeep(node: DescriptorNode, depth: nat)
    requires depth > MAX_DESCRIPTOR_DEPTH
    ensures Outcome(Encode(node, depth), SizesFit(node), depth + Nesting(node) <= MAX_DESCRIPTOR_DEPTH)
  {
    hide SizesFit, Nesting;
  }

  lemma {:induction false} FieldsEncodeIff(fields: seq<FieldDescriptor>, depth: nat)
    requires 0 < depth <= MAX_DESCRIPTOR_DEPTH + 1
    ensures Outcome(EncodeFields(fields, depth), FieldSizesFit(fields),
                    depth - 1 + FieldNesting(fields) <= MAX_DESCRIPTOR_DEPTH)
    decreases fields
  {
    hide Le, Encode, Nesting, SizesFit;
    if fields != [] {
      EncodesIff(fields[0].node, depth);
      FieldsEncodeIff(fields[1..], depth);
    }
  }

  lemma {:induction false} PayloadEncodesIff(p: Option<DescriptorNode>, depth: nat)
    requires 0 < depth <= MAX_DESCRIPTOR_DEPTH + 1
    ensures Outcome(EncodePayload(p, depth), PayloadSizesFit(p),
                    depth - 1 + PayloadNesting(p) <= MAX_DESCRIPTOR_DEPTH)
    decreases p
  {
    hide Encode, Nesting, SizesFit;
    if p.Some? {
      EncodesIff(p.value, depth);
    }
  }

  lemma {:induction false} VariantsEncodeIff(variants: seq<VariantDescriptor>, width: byte, depth: nat)
    requires 0 < depth <= MAX_DESCRIPTOR_DEPTH + 1
    ensures Outcome(EncodeVariants(variants, width, depth), VariantSizesFit(variants, width),
                    depth - 1 + VariantNesting(variants) <= MAX_DESCRIPTOR_DEPTH)
    decreases variants
  {
    hide Le, EncodePayload, PayloadNesting, PayloadSizesFit;
    if variants != [] {
      PayloadEncodesIff(variants[0].payload, depth);
      VariantsEncodeIff(variants[1..], width, depth);
    }
  }

  /** A name or count beyond four bytes and a discriminant beyond its width are refused each
      with its own error, the header of a node before its parts. */
  lemma SizeRefusals(depth: nat, name: Str, fields: seq<FieldDescriptor>, width: byte, v: VariantDescriptor)
    requires depth <= MAX_DESCRIPTOR_DEPTH
    ensures |name| > U32_MAX || |fields| > U32_MAX ==> Encode(Struct(name, fields), depth) == Err(WireLengthOverflow)
    ensures v.discriminant > (if width == 1 then 0xFF else 0xFFFF) ==>
              EncodeVariant(v, width, depth) == Err(DiscriminantExceedsWidth)
    ensures v.discriminant <= (if width == 1 then 0xFF else 0xFFFF) && |v.name| > U32_MAX ==>
              EncodeVariant(v, width, depth) == Err(WireLengthOverflow)
  {
    hide Le, EncodeFields, EncodePayload;
  }
}
