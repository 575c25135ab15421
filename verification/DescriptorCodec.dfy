/** The descriptor codec is a bijection: encoding then decoding gives the node back whatever
    bytes follow, and whatever decodes re-encodes to exactly the bytes that were consumed. */
module DescriptorCodec {
  import opened Wire
  import opened Descriptor

  /** The decoder insists on a discriminant width of 1 or 2; the encoder does not. */
  predicate WidthsValid(node: DescriptorNode)
    decreases node
  {
    match node
    case EventVec(inner, _) => WidthsValid(inner)
    case OptionOf(inner) => WidthsValid(inner)
    case Struct(_, fields) => FieldWidthsValid(fields)
    case Enum(_, width, variants) => width in {1, 2} && VariantWidthsValid(variants)
    case _ => true
  }

  predicate FieldWidthsValid(fields: seq<FieldDescriptor>)
    decreases fields
  {
    fields != [] ==> WidthsValid(fields[0].node) && FieldWidthsValid(fields[1..])
  }

  predicate PayloadWidthsValid(p: Option<DescriptorNode>)
    decreases p
  {
    p.Some? ==> WidthsValid(p.value)
  }

  predicate VariantWidthsValid(variants: seq<VariantDescriptor>)
    decreases variants
  {
    variants != [] ==> PayloadWidthsValid(variants[0].payload) && VariantWidthsValid(variants[1..])
  }

  // ---- Decoding an encoding ----

  lemma TagFirst(node: DescriptorNode, depth: nat)
    requires Encode(node, depth).Ok?
    ensures |Encode(node, depth).value| >= 1 && Encode(node, depth).value[0] == ConstructorTag(node)
  {
  }

  lemma PayloadAtLeastOne(p: Option<DescriptorNode>, depth: nat)
    requires EncodePayload(p, depth).Ok?
    ensures |EncodePayload(p, depth).value| >= 1
  {
    if p.Some? {
      TagFirst(p.value, depth);
    }
  }

  /** Every field takes at least five bytes, so the guard on the declared count never fires. */
  lemma {:induction false} FieldsAtLeast(fields: seq<FieldDescriptor>, depth: nat)
    requires EncodeFields(fields, depth).Ok?
    ensures |EncodeFields(fields, depth).value| >= 5 * |fields|
  {
    if fields != [] {
      TagFirst(fields[0].node, depth);
      FieldsAtLeast(fields[1..], depth);
    }
  }

  lemma {:induction false} VariantsAtLeast(variants: seq<VariantDescriptor>, width: byte, depth: nat)
    requires width in {1, 2}
    requires EncodeVariants(variants, width, depth).Ok?
    ensures |EncodeVariants(variants, width, depth).value| >= (width + 5) * |variants|
  {
    if variants != [] {
      PayloadAtLeastOne(variants[0].payload, depth);
      VariantsAtLeast(variants[1..], width, depth);
      assert (width + 5) * |variants| == (width + 5) * (|variants| - 1) + (width + 5);
    }
  }

  lemma DiscriminantOfEncode(d: u32, width: byte, r: Bytes)
    requires width in {1, 2} && EncodeDiscriminant(d, width).Ok?
    ensures TakeDiscriminant(width, EncodeDiscriminant(d, width).value + r) == Ok((d, r))
  {
    Widths();
    TakeLeExact(width, Le(d, width) + r, d, r);
  }

  lemma VecOfEncode(depth: nat, inner: DescriptorNode, m: u32, r: Bytes)
    requires Encode(EventVec(inner, m), depth).Ok?
    requires Parse(depth + 1, Encode(inner, depth + 1).value + (Le(m, 4) + r)) == Ok((inner, Le(m, 4) + r))
    ensures Parse(depth, Encode(EventVec(inner, m), depth).value + r) == Ok((EventVec(inner, m), r))
  {
    hide Le;
    var b := Encode(inner, depth + 1).value;
    Assoc3(b, Le(m, 4), r);
    TakeU32Exact(Le(m, 4) + r, m, r);
    TaggedParse(depth, 0x0D, b + Le(m, 4), r);
  }

  lemma OptionOfEncode(depth: nat, inner: DescriptorNode, r: Bytes)
    requires Encode(OptionOf(inner), depth).Ok?
    requires Parse(depth + 1, Encode(inner, depth + 1).value + r) == Ok((inner, r))
    ensures Parse(depth, Encode(OptionOf(inner), depth).value + r) == Ok((OptionOf(inner), r))
  {
    TaggedParse(depth, 0x0E, Encode(inner, depth + 1).value, r);
  }

  lemma StructOfEncode(depth: nat, name: Str, fields: seq<FieldDescriptor>, r: Bytes)
    requires Encode(Struct(name, fields), depth).Ok?
    requires ParseFields(depth + 1, |fields|, [], EncodeFields(fields, depth + 1).value + r) == Ok((fields, r))
    ensures Parse(depth, Encode(Struct(name, fields), depth).value + r) == Ok((Struct(name, fields), r))
  {
    hide Le, ParseFields, EncodeFields, ParseStruct;
    var t, c, b := EncodeText(name).value, Le(|fields|, 4), EncodeFields(fields, depth + 1).value;
    FieldsAtLeast(fields, depth + 1);
    StructParts(depth, name, fields, b, r);
    TaggedParse(depth, 0x0F, t + (c + b), r);
  }

  lemma StructParts(depth: nat, name: Str, fields: seq<FieldDescriptor>, b: Bytes, r: Bytes)
    requires depth <= MAX_DESCRIPTOR_DEPTH
    requires EncodeText(name).Ok? && |fields| <= U32_MAX && |b| >= 5 * |fields|
    requires ParseFields(depth + 1, |fields|, [], b + r) == Ok((fields, r))
    ensures ParseStruct(depth, (EncodeText(name).value + (Le(|fields|, 4) + b)) + r)
         == Ok((Struct(name, fields), r))
  {
    var t, c := EncodeText(name).value, Le(|fields|, 4);
    Assoc4(t, c, b, r);
    TakeTextExact(t + (c + (b + r)), name, c + (b + r));
    TakeU32Exact(c + (b + r), |fields|, b + r);
  }

  lemma WidthOfEncode(width: byte, r: Bytes)
    requires width in {1, 2}
    ensures TakeWidth([width] + r) == Ok((width, r))
  {
    HeadTail(width, r);
  }

  lemma EnumOfEncode(depth: nat, name: Str, width: byte, variants: seq<VariantDescriptor>, r: Bytes)
    requires width in {1, 2} && Encode(Enum(name, width, variants), depth).Ok?
    requires ParseVariants(depth + 1, width, |variants|, [], EncodeVariants(variants, width, depth + 1).value + r)
          == Ok((variants, r))
    ensures Parse(depth, Encode(Enum(name, width, variants), depth).value + r) == Ok((Enum(name, width, variants), r))
  {
    hide Le, ParseVariants, EncodeVariants, ParseEnum, CountFits;
    var t, c, b := EncodeText(name).value, Le(|variants|, 4), EncodeVariants(variants, width, depth + 1).value;
    VariantsAtLeast(variants, width, depth + 1);
    QuotientAtLeast(|b + r|, width + 5, |variants|);
    EnumParts(depth, name, width, variants, b, r);
    TaggedParse(depth, 0x10, t + ([width] + (c + b)), r);
  }

  lemma EnumParts(depth: nat, name: Str, width: byte, variants: seq<VariantDescriptor>, b: Bytes, r: Bytes)
    requires depth <= MAX_DESCRIPTOR_DEPTH && width in {1, 2}
    requires EncodeText(name).Ok? && |variants| <= U32_MAX && CountFits(|variants|, width + 5, |b + r|)
    requires ParseVariants(depth + 1, width, |variants|, [], b + r) == Ok((variants, r))
    ensures ParseEnum(depth, (EncodeText(name).value + ([width] + (Le(|variants|, 4) + b))) + r)
         == Ok((Enum(name, width, variants), r))
  {
    var t, c := EncodeText(name).value, Le(|variants|, 4);
    Assoc5(t, [width], c, b, r);
    TakeTextExact(t + ([width] + (c + (b + r))), name, [width] + (c + (b + r)));
    WidthOfEncode(width, c + (b + r));
    TakeU32Exact(c + (b + r), |variants|, b + r);
  }

  /** Decoding an encoding gives the node back and leaves what follows: no allocation guard
      rejects it, and the "no payload" byte is never taken for a constructor tag. */
  lemma {:induction false} ParseOfEncode(node: DescriptorNode, depth: nat, r: Bytes)
    requires Encode(node, depth).Ok? && WidthsValid(node)
    ensures Parse(depth, Encode(node, depth).value + r) == Ok((node, r))
    decreases node
  {
    hide Le, EncodeText, Parse, ParseBody, ParseFields, ParseVariants, EncodeFields, EncodeVariants;
    match node {
      case EventVec(inner, m) =>
        ParseOfEncode(inner, depth + 1, Le(m, 4) + r);
        VecOfEncode(depth, inner, m, r);
      case OptionOf(inner) =>
        ParseOfEncode(inner, depth + 1, r);
        OptionOfEncode(depth, inner, r);
      case Struct(name, fields) =>
        ParseFieldsOfEncode(fields, depth + 1, [], r);
        assert [] + fields == fields;
        StructOfEncode(depth, name, fields, r);
      case Enum(name, width, variants) =>
        ParseVariantsOfEncode(variants, width, depth + 1, [], r);
        assert [] + variants == variants;
        EnumOfEncode(depth, name, width, variants, r);
      case _ => LeafParseOfEncode(node, depth, r);
    }
  }

  lemma LeafParseOfEncode(node: DescriptorNode, depth: nat, r: Bytes)
    requires !node.EventVec? && !node.OptionOf? && !node.Struct? && !node.Enum?
    requires Encode(node, depth).Ok?
    ensures Parse(depth, Encode(node, depth).value + r) == Ok((node, r))
  {
    hide Le;
    match node {
      case EventString(m) => TakeU32Exact(Le(m, 4) + r, m, r); TaggedParse(depth, 0x0A, Le(m, 4), r);
      case NonEmptyEventString(m) => TakeU32Exact(Le(m, 4) + r, m, r); TaggedParse(depth, 0x0B, Le(m, 4), r);
      case EventBytes(m) => TakeU32Exact(Le(m, 4) + r, m, r); TaggedParse(depth, 0x0C, Le(m, 4), r);
      case _ => TagTwice(node); HeadTail(ConstructorTag(node), r);
    }
  }

  lemma TagTwice(node: DescriptorNode)
    requires IsScalar(node)
    ensures ScalarOf(ConstructorTag(node)) == Some(node)
  {
  }

  lemma TaggedParse(depth: nat, tag: byte, b: Bytes, r: Bytes)
    requires depth <= MAX_DESCRIPTOR_DEPTH
    ensures Parse(depth, ([tag] + b) + r) == ParseBody(depth, tag, b + r)
  {
    Assoc3([tag], b, r);
    HeadTail(tag, b + r);
  }

  lemma QuotientAtLeast(a: nat, d: nat, n: nat)
    requires d in {6, 7} && a >= d * n
    ensures CountFits(n, d, a)
  {
    // One constant divisor at a time.
    if d == 6 {} else {}
  }

  lemma FieldOfEncode(f: FieldDescriptor, depth: nat, r: Bytes)
    requires EncodeField(f, depth).Ok?
    requires Parse(depth, Encode(f.node, depth).value + r) == Ok((f.node, r))
    ensures ParseField(depth, EncodeField(f, depth).value + r) == Ok((f, r))
  {
    var t, b := EncodeText(f.name).value, Encode(f.node, depth).value;
    Assoc3(t, b, r);
    TakeTextExact(t + (b + r), f.name, b + r);
  }

  lemma {:induction false} ParseFieldsOfEncode(
    fields: seq<FieldDescriptor>, depth: nat, acc: seq<FieldDescriptor>, r: Bytes)
    requires EncodeFields(fields, depth).Ok? && FieldWidthsValid(fields)
    ensures ParseFields(depth, |fields|, acc, EncodeFields(fields, depth).value + r) == Ok((acc + fields, r))
    decreases fields
  {
    if fields == [] {
      assert acc + fields == acc && [] + r == r;
    } else {
      var b, q := EncodeField(fields[0], depth).value, EncodeFields(fields[1..], depth).value;
      Assoc3(b, q, r);
      ParseOfEncode(fields[0].node, depth, q + r);
      FieldOfEncode(fields[0], depth, q + r);
      ParseFieldsOfEncode(fields[1..], depth, acc + [fields[0]], r);
      assert acc + [fields[0]] + fields[1..] == acc + fields;
    }
  }

  lemma {:induction false} ParsePayloadOfEncode(p: Option<DescriptorNode>, depth: nat, r: Bytes)
    requires EncodePayload(p, depth).Ok? && PayloadWidthsValid(p)
    ensures ParsePayload(depth, EncodePayload(p, depth).value + r) == Ok((p, r))
    decreases p
  {
    if p.Some? {
      TagFirst(p.value, depth);
      ParseOfEncode(p.value, depth, r);
    } else {
      HeadTail(0x00, r);
    }
  }

  lemma {:induction false} VariantOfEncode(v: VariantDescriptor, width: byte, depth: nat, r: Bytes)
    requires width in {1, 2} && EncodeVariant(v, width, depth).Ok? && PayloadWidthsValid(v.payload)
    ensures ParseVariant(depth, width, EncodeVariant(v, width, depth).value + r) == Ok((v, r))
    decreases v
  {
    hide ParsePayload, EncodePayload;
    ParsePayloadOfEncode(v.payload, depth, r);
    var d, t := EncodeDiscriminant(v.discriminant, width).value, EncodeText(v.name).value;
    var b := EncodePayload(v.payload, depth).value;
    Assoc4(d, t, b, r);
    DiscriminantOfEncode(v.discriminant, width, t + (b + r));
    TakeTextExact(t + (b + r), v.name, b + r);
  }

  lemma {:induction false} ParseVariantsOfEncode(
    variants: seq<VariantDescriptor>, width: byte, depth: nat, acc: seq<VariantDescriptor>, r: Bytes)
    requires width in {1, 2} && EncodeVariants(variants, width, depth).Ok? && VariantWidthsValid(variants)
    ensures ParseVariants(depth, width, |variants|, acc, EncodeVariants(variants, width, depth).value + r)
         == Ok((acc + variants, r))
    decreases variants
  {
    hide ParseVariant, EncodeVariant;
    if variants == [] {
      assert acc + variants == acc && [] + r == r;
    } else {
      var v := variants[0];
      var b, q := EncodeVariant(v, width, depth).value, EncodeVariants(variants[1..], width, depth).value;
      Assoc3(b, q, r);
      VariantOfEncode(v, width, depth, q + r);
      ParseVariantsOfEncode(variants[1..], width, depth, acc + [v], r);
      assert acc + [v] + variants[1..] == acc + variants;
    }
  }

  // ---- Re-encoding what was decoded ----

  /** `node` re-encodes to the bytes by which `s` exceeds `r`. */
  predicate Consumed(node: DescriptorNode, depth: nat, s: Bytes, r: Bytes) {
    WidthsValid(node) && Encode(node, depth).Ok? && s == Encode(node, depth).value + r
  }

  lemma VecOfParse(depth: nat, s: Bytes)
    requires depth <= MAX_DESCRIPTOR_DEPTH && ParseBody(depth, 0x0D, s).Ok?
    requires var (inner, r) := Parse(depth + 1, s).value; Consumed(inner, depth + 1, s, r)
    ensures var (node, r) := ParseBody(depth, 0x0D, s).value; Consumed(node, depth, [0x0D] + s, r)
  {
    var (inner, q) := Parse(depth + 1, s).value;
    var (m, r) := TakeU32(q).value;
    TakeU32Exact(q, m, r);
    var b := Encode(inner, depth + 1).value;
    Assoc4([0x0D], b, Le(m, 4), r);
  }

  lemma StructOfParse(depth: nat, s: Bytes)
    requires depth <= MAX_DESCRIPTOR_DEPTH && ParseStruct(depth, s).Ok?
    requires var (name, q) := TakeText(s).value; var (n, q) := TakeU32(q).value;
             FieldsConsumed(depth + 1, n, [], q)
    ensures var (node, r) := ParseStruct(depth, s).value; Consumed(node, depth, [0x0F] + s, r)
  {
    var (name, q0) := TakeText(s).value;
    var (n, q1) := TakeU32(q0).value;
    var (fields, r) := ParseFields(depth + 1, n, [], q1).value;
    TakeTextExact(s, name, q0);
    TakeU32Exact(q0, n, q1);
    assert fields[0..] == fields;
    Assoc5([0x0F], EncodeText(name).value, Le(n, 4), EncodeFields(fields, depth + 1).value, r);
  }

  lemma EnumOfParse(depth: nat, s: Bytes)
    requires depth <= MAX_DESCRIPTOR_DEPTH && ParseEnum(depth, s).Ok?
    requires var (name, q) := TakeText(s).value; var (w, q) := TakeWidth(q).value; var (n, q) := TakeU32(q).value;
             VariantsConsumed(depth + 1, w, n, [], q)
    ensures var (node, r) := ParseEnum(depth, s).value; Consumed(node, depth, [0x10] + s, r)
  {
    var (name, q0) := TakeText(s).value;
    var (w, q1) := TakeWidth(q0).value;
    var (n, q2) := TakeU32(q1).value;
    var (variants, r) := ParseVariants(depth + 1, w, n, [], q2).value;
    TakeTextExact(s, name, q0);
    TakeU32Exact(q1, n, q2);
    assert variants[0..] == variants;
    Assoc6([0x10], EncodeText(name).value, [w], Le(n, 4), EncodeVariants(variants, w, depth + 1).value, r);
  }

  lemma {:induction false} EncodeOfParse(depth: nat, s: Bytes)
    requires Parse(depth, s).Ok?
    ensures var (node, r) := Parse(depth, s).value; Consumed(node, depth, s, r)
    decreases MAX_DESCRIPTOR_DEPTH + 1 - depth, 1, 0
  {
    var tag, b := s[0], s[1..];
    assert s == [tag] + b;
    EncodeOfParseBody(depth, tag, b);
  }

  lemma {:induction false} EncodeOfParseBody(depth: nat, tag: byte, s: Bytes)
    requires depth <= MAX_DESCRIPTOR_DEPTH && ParseBody(depth, tag, s).Ok?
    ensures var (node, r) := ParseBody(depth, tag, s).value; Consumed(node, depth, [tag] + s, r)
    decreases MAX_DESCRIPTOR_DEPTH + 1 - depth, 0, 0
  {
    hide Consumed, Encode, Le, IsScalar, ScalarOf;
    match tag {
      case 0x0D => EncodeOfParse(depth + 1, s); VecOfParse(depth, s);
      case 0x0E => EncodeOfParse(depth + 1, s); OptionOfParse(depth, s);
      case 0x0F =>
        var (n, q) := TakeU32(TakeText(s).value.1).value;
        EncodeOfParseFields(depth + 1, n, [], q);
        StructOfParse(depth, s);
      case 0x10 =>
        var (w, q0) := TakeWidth(TakeText(s).value.1).value;
        var (n, q) := TakeU32(q0).value;
        EncodeOfParseVariants(depth + 1, w, n, [], q);
        EnumOfParse(depth, s);
      case _ => LeafOfParse(depth, tag, s);
    }
  }

  lemma OptionOfParse(depth: nat, s: Bytes)
    requires depth <= MAX_DESCRIPTOR_DEPTH && ParseBody(depth, 0x0E, s).Ok?
    requires var (inner, r) := Parse(depth + 1, s).value; Consumed(inner, depth + 1, s, r)
    ensures var (node, r) := ParseBody(depth, 0x0E, s).value; Consumed(node, depth, [0x0E] + s, r)
  {
    var (inner, r) := Parse(depth + 1, s).value;
    Assoc3([0x0E], Encode(inner, depth + 1).value, r);
  }

  lemma LeafOfParse(depth: nat, tag: byte, s: Bytes)
    requires depth <= MAX_DESCRIPTOR_DEPTH && ParseBody(depth, tag, s).Ok? && tag !in {0x0D, 0x0E, 0x0F, 0x10}
    ensures var (node, r) := ParseBody(depth, tag, s).value; Consumed(node, depth, [tag] + s, r)
  {
    hide Le;
    var (node, r) := ParseBody(depth, tag, s).value;
    if tag in {0x0A, 0x0B, 0x0C} {
      TakeU32Exact(s, node.maxBytes, r);
      Assoc3([tag], Le(node.maxBytes, 4), r);
    }
  }

  predicate FieldsConsumed(depth: nat, n: nat, acc: seq<FieldDescriptor>, s: Bytes)
    requires ParseFields(depth, n, acc, s).Ok?
  {
    var (fields, r) := ParseFields(depth, n, acc, s).value;
    && |fields| == |acc| + n && acc == fields[..|acc|]
    && FieldWidthsValid(fields[|acc|..])
    && EncodeFields(fields[|acc|..], depth).Ok?
    && s == EncodeFields(fields[|acc|..], depth).value + r
  }

  lemma {:induction false} EncodeOfParseFields(depth: nat, n: nat, acc: seq<FieldDescriptor>, s: Bytes)
    requires ParseFields(depth, n, acc, s).Ok?
    ensures FieldsConsumed(depth, n, acc, s)
    decreases MAX_DESCRIPTOR_DEPTH + 1 - depth, 3, n
  {
    if n > 0 {
      var (f, q) := ParseField(depth, s).value;
      var (name, q0) := TakeText(s).value;
      TakeTextExact(s, name, q0);
      EncodeOfParse(depth, q0);
      EncodeOfParseFields(depth, n - 1, acc + [f], q);
      var (fields, r) := ParseFields(depth, n, acc, s).value;
      SplitAfter(fields, acc, f);
      Assoc3(EncodeText(name).value, Encode(f.node, depth).value, q);
      Assoc3(EncodeField(f, depth).value, EncodeFields(fields[|acc| + 1..], depth).value, r);
    }
  }

  lemma SplitAfter<T>(xs: seq<T>, acc: seq<T>, x: T)
    requires |xs| > |acc| && xs[..|acc| + 1] == acc + [x]
    ensures xs[..|acc|] == acc && xs[|acc|..] == [x] + xs[|acc| + 1..]
    ensures xs[|acc|..][0] == x && xs[|acc|..][1..] == xs[|acc| + 1..]
  {
    assert xs[..|acc|] == xs[..|acc| + 1][..|acc|];
    assert xs[|acc|] == xs[..|acc| + 1][|acc|];
  }

  predicate VariantsConsumed(depth: nat, width: byte, n: nat, acc: seq<VariantDescriptor>, s: Bytes)
    requires ParseVariants(depth, width, n, acc, s).Ok?
  {
    var (variants, r) := ParseVariants(depth, width, n, acc, s).value;
    && |variants| == |acc| + n && acc == variants[..|acc|]
    && VariantWidthsValid(variants[|acc|..])
    && EncodeVariants(variants[|acc|..], width, depth).Ok?
    && s == EncodeVariants(variants[|acc|..], width, depth).value + r
  }

  lemma {:induction false} EncodeOfParseVariants(
    depth: nat, width: byte, n: nat, acc: seq<VariantDescriptor>, s: Bytes)
    requires width in {1, 2} && ParseVariants(depth, width, n, acc, s).Ok?
    ensures VariantsConsumed(depth, width, n, acc, s)
    decreases MAX_DESCRIPTOR_DEPTH + 1 - depth, 4, n
  {
    hide ParseVariant, EncodeVariant;
    if n > 0 {
      var (v, q) := ParseVariant(depth, width, s).value;
      EncodeOfParseVariant(depth, width, s);
      EncodeOfParseVariants(depth, width, n - 1, acc + [v], q);
      var (variants, r) := ParseVariants(depth, width, n, acc, s).value;
      SplitAfter(variants, acc, v);
      Assoc3(EncodeVariant(v, width, depth).value, EncodeVariants(variants[|acc| + 1..], width, depth).value, r);
    }
  }

  lemma {:induction false} EncodeOfParseVariant(depth: nat, width: byte, s: Bytes)
    requires width in {1, 2} && ParseVariant(depth, width, s).Ok?
    ensures var (v, r) := ParseVariant(depth, width, s).value;
            && PayloadWidthsValid(v.payload)
            && EncodeVariant(v, width, depth).Ok? && s == EncodeVariant(v, width, depth).value + r
    decreases MAX_DESCRIPTOR_DEPTH + 1 - depth, 3, 0
  {
    var (d, q0) := TakeDiscriminant(width, s).value;
    var (name, q1) := TakeText(q0).value;
    var (p, r) := ParsePayload(depth, q1).value;
    EncodeOfTakeDiscriminant(width, s);
    TakeTextExact(q0, name, q1);
    EncodeOfParsePayload(depth, q1);
    Assoc4(EncodeDiscriminant(d, width).value, EncodeText(name).value, EncodePayload(p, depth).value, r);
  }

  lemma EncodeOfTakeDiscriminant(width: byte, s: Bytes)
    requires width in {1, 2} && TakeDiscriminant(width, s).Ok?
    ensures var (d, r) := TakeDiscriminant(width, s).value;
            EncodeDiscriminant(d, width).Ok? && s == EncodeDiscriminant(d, width).value + r
  {
    Widths();
    var (d, r) := TakeDiscriminant(width, s).value;
    TakeLeExact(width, s, d, r);
  }

  lemma {:induction false} EncodeOfParsePayload(depth: nat, s: Bytes)
    requires ParsePayload(depth, s).Ok?
    ensures var (p, r) := ParsePayload(depth, s).value;
            PayloadWidthsValid(p) && EncodePayload(p, depth).Ok? && s == EncodePayload(p, depth).value + r
    decreases MAX_DESCRIPTOR_DEPTH + 1 - depth, 2, 0
  {
    if s[0] == 0x00 {
      assert s == [0x00] + s[1..];
    } else {
      EncodeOfParse(depth, s);
    }
  }

  // ---- The bijection ----

  /** The decoder accepts exactly the encodings of nodes with legal widths, and returns the
      one node each of them encodes. */
  lemma DescriptorCodecExact(depth: nat, s: Bytes, node: DescriptorNode, r: Bytes)
    ensures Parse(depth, s) == Ok((node, r))
        <==> Encode(node, depth).Ok? && WidthsValid(node) && s == Encode(node, depth).value + r
  {
    if Parse(depth, s) == Ok((node, r)) {
      EncodeOfParse(depth, s);
    }
    if Encode(node, depth).Ok? && WidthsValid(node) && s == Encode(node, depth).value + r {
      ParseOfEncode(node, depth, r);
    }
  }

  // ---- The tags and the refusals ----

  /** The tags of the scalar constructors; 0 is no tag and stands for no payload. */
  lemma ScalarTags()
    ensures ScalarOf(0x00).None?
    ensures ConstructorTag(U8) == 0x01 && ConstructorTag(U16) == 0x02 && ConstructorTag(U32) == 0x03
    ensures ConstructorTag(U64) == 0x04 && ConstructorTag(I8) == 0x05 && ConstructorTag(I16) == 0x06
    ensures ConstructorTag(I32) == 0x07 && ConstructorTag(I64) == 0x08 && ConstructorTag(Bool) == 0x09
    ensures ConstructorTag(Timestamp) == 0x11 && ConstructorTag(Uuid) == 0x12
    ensures ConstructorTag(OrderedF32) == 0x13 && ConstructorTag(OrderedF64) == 0x14
  {
  }

  /** The tags of the others. */
  lemma CompoundTags(node: DescriptorNode)
    ensures ConstructorTag(node) == 0x0A <==> node.EventString?
    ensures ConstructorTag(node) == 0x0B <==> node.NonEmptyEventString?
    ensures ConstructorTag(node) == 0x0C <==> node.EventBytes?
    ensures ConstructorTag(node) == 0x0D <==> node.EventVec?
    ensures ConstructorTag(node) == 0x0E <==> node.OptionOf?
    ensures ConstructorTag(node) == 0x0F <==> node.Struct?
    ensures ConstructorTag(node) == 0x10 <==> node.Enum?
  {
  }

  /** A count that cannot fit in what is left is refused before anything is read for it. */
  lemma FieldCountRefused(depth: nat, name: Str, n: u32, r: Bytes)
    requires depth <= MAX_DESCRIPTOR_DEPTH && EncodeText(name).Ok? && 5 * n > |r|
    ensures Parse(depth, [0x0F] + (EncodeText(name).value + (Le(n, 4) + r))) == Err(TruncatedPayload)
  {
    hide Le, FromLe, ParseFields, TakeU32, TakeText, EncodeText;
    var q := Le(n, 4) + r;
    var s := EncodeText(name).value + q;
    TakeU32Exact(q, n, r);
    TakeTextExact(s, name, q);
    assert ParseStruct(depth, s) == Err(TruncatedPayload);
    HeadTail(0x0F, s);
  }

  lemma VariantCountRefused(depth: nat, name: Str, width: byte, n: u32, r: Bytes)
    requires depth <= MAX_DESCRIPTOR_DEPTH && EncodeText(name).Ok? && width in {1, 2} && (width + 5) * n > |r|
    ensures Parse(depth, [0x10] + (EncodeText(name).value + ([width] + (Le(n, 4) + r)))) == Err(TruncatedPayload)
  {
    hide Le, FromLe, ParseVariants, TakeU32, TakeText, EncodeText, CountFits;
    var q := Le(n, 4) + r;
    var s := EncodeText(name).value + ([width] + q);
    TakeU32Exact(q, n, r);
    WidthOfEncode(width, q);
    TakeTextExact(s, name, [width] + q);
    QuotientBelow(|r|, width + 5, n);
    assert ParseEnum(depth, s) == Err(TruncatedPayload);
    HeadTail(0x10, s);
  }

  lemma QuotientBelow(a: nat, d: nat, n: nat)
    requires d in {6, 7} && a < d * n
    ensures !CountFits(n, d, a)
  {
    // One constant divisor at a time.
    if d == 6 {} else {}
  }

  /** Depth and tag are refused each with its own error. */
  lemma NodeRefusals(depth: nat, tag: byte, r: Bytes)
    ensures depth > MAX_DESCRIPTOR_DEPTH ==> Parse(depth, [tag] + r) == Err(CycleDetected)
    ensures depth <= MAX_DESCRIPTOR_DEPTH && (tag == 0 || tag > 0x14) ==> Parse(depth, [tag] + r) == Err(UnknownConstructorTag)
  {
    hide ParseStruct, ParseEnum, TakeU32;
    HeadTail(tag, r);
  }

  lemma WidthRefused(depth: nat, name: Str, w: byte, r: Bytes)
    requires depth <= MAX_DESCRIPTOR_DEPTH && EncodeText(name).Ok? && w !in {1, 2}
    ensures Parse(depth, [0x10] + (EncodeText(name).value + ([w] + r))) == Err(InvalidDiscriminantWidth)
  {
    hide ParseVariants, TakeU32, TakeText, EncodeText, CountFits;
    var s := EncodeText(name).value + ([w] + r);
    TakeTextExact(s, name, [w] + r);
    HeadTail(w, r);
    assert ParseEnum(depth, s) == Err(InvalidDiscriminantWidth);
    HeadTail(0x10, s);
  }
}
