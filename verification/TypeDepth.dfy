/** The compile-time nesting bound: what `TYPE_DEPTH` counts, what the descriptor of a type
    really nests, and where the two part
    (crates/pardosa-derive/src/lib.rs:215-239, 364-368, 419-421, 498-500, 589-605). */
module TypeDepth {
  import opened Wire
  import opened Descriptor
  import opened DescriptorLimits
  import opened Payload

  // ---- The descriptor of a type ----

  /** Container bounds that fit the wire; a larger one panics instead of giving a descriptor. */
  predicate BoundsOk(t: Ty)
    decreases t
  {
    match t
    case UintT(w) => w in {1, 2, 4, 8}
    case IntT(w) => w in {1, 2, 4, 8}
    case StringT(max) => max <= U32_MAX
    case NonEmptyStringT(max) => max <= U32_MAX
    case BytesT(max) => max <= U32_MAX
    case VecT(inner, max) => max <= U32_MAX && BoundsOk(inner)
    case OptionT(inner) => BoundsOk(inner)
    case StructT(_, fields) => FieldBoundsOk(fields)
    case EnumT(_, variants) => VariantBoundsOk(variants)
    case _ => true
  }

  predicate FieldBoundsOk(fields: seq<Field>)
    decreases fields
  {
    fields != [] ==> BoundsOk(fields[0].ty) && FieldBoundsOk(fields[1..])
  }

  predicate BodyBoundsOk(body: Body)
    decreases body
  {
    match body
    case Unit => true
    case Single(t) => BoundsOk(t)
    case Braced(fields) => FieldBoundsOk(fields)
  }

  predicate VariantBoundsOk(variants: seq<Variant>)
    decreases variants
  {
    variants != [] ==> BodyBoundsOk(variants[0].body) && VariantBoundsOk(variants[1..])
  }

  /** The struct a braced variant carries is named after its enum and the variant, joined by an
      underscore. Joining UTF-8 gives UTF-8; that is left open here, hence the other branch. */
  function JoinedName(owner: Str, variant: Str): (t: Str)
    ensures |t| <= |owner| + 1 + |variant|
  {
    var t := owner + [0x5F] + variant;
    if ValidUtf8(t) then t else []
  }

  function Desc(t: Ty): DescriptorNode
    requires BoundsOk(t)
    decreases t
  {
    match t
    case UintT(w) => if w == 1 then U8 else if w == 2 then U16 else if w == 4 then U32 else U64
    case IntT(w) => if w == 1 then I8 else if w == 2 then I16 else if w == 4 then I32 else I64
    case BoolT => Bool
    case TimestampT => Timestamp
    case UuidT => Uuid
    case StringT(max) => EventString(max)
    case NonEmptyStringT(max) => NonEmptyEventString(max)
    case BytesT(max) => EventBytes(max)
    case VecT(inner, max) => EventVec(Desc(inner), max)
    case OptionT(inner) => OptionOf(Desc(inner))
    case StructT(name, fields) => Struct(name, DescFields(fields))
    case EnumT(name, variants) => Enum(name, DiscriminantWidth(variants), DescVariants(name, variants))
  }

  function DescFields(fields: seq<Field>): seq<FieldDescriptor>
    requires FieldBoundsOk(fields)
    decreases fields
  {
    if fields == [] then [] else
    [FieldDescriptor(fields[0].name, Desc(fields[0].ty))] + DescFields(fields[1..])
  }

  function DescBody(name: Str, body: Body): Option<DescriptorNode>
    requires BodyBoundsOk(body)
    decreases body
  {
    match body
    case Unit => None
    case Single(t) => Some(Desc(t))
    case Braced(fields) => Some(Struct(name, DescFields(fields)))
  }

  function DescVariants(owner: Str, variants: seq<Variant>): seq<VariantDescriptor>
    requires VariantBoundsOk(variants)
    decreases variants
  {
    if variants == [] then [] else
    var v := variants[0];
    [VariantDescriptor(v.discriminant, v.name, DescBody(JoinedName(owner, v.name), v.body))]
    + DescVariants(owner, variants[1..])
  }

  // ---- What a descriptor says ----

  lemma {:induction false} FieldsDescribed(fields: seq<Field>)
    requires FieldBoundsOk(fields)
    ensures |DescFields(fields)| == |fields|
    ensures forall i | 0 <= i < |fields| ::
              && BoundsOk(fields[i].ty)
              && DescFields(fields)[i] == FieldDescriptor(fields[i].name, Desc(fields[i].ty))
    decreases fields
  {
    hide BoundsOk, Desc;
    if fields != [] {
      FieldsDescribed(fields[1..]);
      assert forall i | 0 < i < |fields| :: fields[i] == fields[1..][i - 1] && DescFields(fields)[i] == DescFields(fields[1..])[i - 1];
    }
  }

  /** A struct is described field by field, in order, each under its name. */
  lemma StructDescribed(name: Str, fields: seq<Field>)
    requires BoundsOk(StructT(name, fields))
    ensures var d := Desc(StructT(name, fields));
            && d.Struct? && d.name == name && |d.fields| == |fields|
            && forall i | 0 <= i < |fields| ::
                 BoundsOk(fields[i].ty) && d.fields[i] == FieldDescriptor(fields[i].name, Desc(fields[i].ty))
  {
    FieldsDescribed(fields);
  }

  lemma {:induction false} VariantsDescribed(owner: Str, variants: seq<Variant>)
    requires VariantBoundsOk(variants)
    ensures |DescVariants(owner, variants)| == |variants|
    ensures forall i | 0 <= i < |variants| ::
              && BodyBoundsOk(variants[i].body)
              && DescVariants(owner, variants)[i] ==
                   VariantDescriptor(variants[i].discriminant, variants[i].name,
                                     DescBody(JoinedName(owner, variants[i].name), variants[i].body))
    decreases variants
  {
    hide BodyBoundsOk, DescBody, JoinedName;
    if variants != [] {
      VariantsDescribed(owner, variants[1..]);
      assert forall i | 0 < i < |variants| ::
        variants[i] == variants[1..][i - 1] && DescVariants(owner, variants)[i] == DescVariants(owner, variants[1..])[i - 1];
    }
  }

  /** An enum is described variant by variant, in order, under the width its values are written
      with: one byte exactly when every discriminant fits one. */
  lemma EnumDescribed(name: Str, variants: seq<Variant>)
    requires BoundsOk(EnumT(name, variants))
    ensures var d := Desc(EnumT(name, variants));
            && d.Enum? && d.name == name && |d.variants| == |variants|
            && d.discriminantWidth == (if forall i | 0 <= i < |variants| :: variants[i].discriminant <= 0xFF then 1 else 2)
            && forall i | 0 <= i < |variants| ::
                 && d.variants[i].discriminant == variants[i].discriminant && d.variants[i].name == variants[i].name
                 && (d.variants[i].payload.None? <==> variants[i].body.Unit?)
  {
    VariantsDescribed(name, variants);
  }

  /** A described scalar has the size of the values of the type. */
  function ScalarSize(node: DescriptorNode): nat {
    match node
    case U8 => 1
    case I8 => 1
    case Bool => 1
    case U16 => 2
    case I16 => 2
    case U32 => 4
    case I32 => 4
    case U64 => 8
    case I64 => 8
    case Timestamp => 8
    case Uuid => 16
    case _ => 0
  }

  lemma ScalarDescribed(t: Ty, v: Val)
    requires TyOk(t) && BoundsOk(t) && HasType(t, v)
    requires t.UintT? || t.IntT? || t.BoolT? || t.TimestampT? || t.UuidT?
    ensures |Enc(t, v)| == ScalarSize(Desc(t))
    ensures t.IntT? <==> Desc(t) in {I8, I16, I32, I64}
    ensures t.UintT? <==> Desc(t) in {U8, U16, U32, U64}
    ensures (t.BoolT? <==> Desc(t) == Bool) && (t.UuidT? <==> Desc(t) == Uuid)
  {
  }

  /** A bounded container is described with its own bound. */
  lemma BoundDescribed(t: Ty)
    requires BoundsOk(t)
    ensures t.StringT? <==> Desc(t).EventString?
    ensures t.NonEmptyStringT? <==> Desc(t).NonEmptyEventString?
    ensures t.BytesT? <==> Desc(t).EventBytes?
    ensures t.StringT? || t.NonEmptyStringT? || t.BytesT? ==> Desc(t).maxBytes == t.max
    ensures t.VecT? ==> Desc(t) == EventVec(Desc(t.inner), t.max)
    ensures t.OptionT? ==> Desc(t) == OptionOf(Desc(t.inner))
  {
    hide DescFields, DescVariants, DiscriminantWidth;
  }

  // ---- TYPE_DEPTH ----

  function TypeDepth(t: Ty): nat
    decreases t
  {
    match t
    case VecT(inner, _) => TypeDepth(inner) + 1
    case OptionT(inner) => TypeDepth(inner) + 1
    case StructT(_, fields) => FieldDepth(fields, 1)
    case EnumT(_, variants) => VariantDepth(variants)
    case _ => 0
  }

  /** The running maximum over the fields; zero when there are none. */
  function FieldDepth(fields: seq<Field>, overhead: nat): nat
    decreases fields
  {
    if fields == [] then 0 else Max(TypeDepth(fields[0].ty) + overhead, FieldDepth(fields[1..], overhead))
  }

  function BodyDepth(body: Body): nat
    decreases body
  {
    match body
    case Unit => 0
    case Single(t) => TypeDepth(t) + 1
    case Braced(fields) => FieldDepth(fields, 2)
  }

  function VariantDepth(variants: seq<Variant>): nat
    decreases variants
  {
    if variants == [] then 0 else Max(BodyDepth(variants[0].body), VariantDepth(variants[1..]))
  }

  /** How deep the deepest variant written `V {}` or `V()` sits; zero when there is none.
      Such a variant puts an empty struct one level below its enum. */
  function EmptyVariantDepth(t: Ty): nat
    decreases t
  {
    match t
    case VecT(inner, _) => Below(EmptyVariantDepth(inner), 1)
    case OptionT(inner) => Below(EmptyVariantDepth(inner), 1)
    case StructT(_, fields) => FieldEmptyDepth(fields, 1)
    case EnumT(_, variants) => VariantEmptyDepth(variants)
    case _ => 0
  }

  function Below(d: nat, levels: nat): nat {
    if d == 0 then 0 else d + levels
  }

  function FieldEmptyDepth(fields: seq<Field>, overhead: nat): nat
    decreases fields
  {
    if fields == [] then 0
    else Max(Below(EmptyVariantDepth(fields[0].ty), overhead), FieldEmptyDepth(fields[1..], overhead))
  }

  function BodyEmptyDepth(body: Body): nat
    decreases body
  {
    match body
    case Unit => 0
    case Single(t) => Below(EmptyVariantDepth(t), 1)
    case Braced(fields) => if fields == [] then 1 else FieldEmptyDepth(fields, 2)
  }

  function VariantEmptyDepth(variants: seq<Variant>): nat
    decreases variants
  {
    if variants == [] then 0 else Max(BodyEmptyDepth(variants[0].body), VariantEmptyDepth(variants[1..]))
  }

  // ---- The two measures compared ----

  /** A descriptor nests exactly as deep as TYPE_DEPTH says, or as its deepest empty braced
      variant does, whichever is deeper. */
  lemma {:induction false} NestingIsTypeDepth(t: Ty)
    requires BoundsOk(t)
    ensures Nesting(Desc(t)) == Max(TypeDepth(t), EmptyVariantDepth(t))
    decreases t
  {
    hide FieldNesting, VariantNesting, FieldDepth, VariantDepth, FieldEmptyDepth, VariantEmptyDepth, DescFields, DescVariants, DiscriminantWidth;
    match t {
      case VecT(inner, _) => NestingIsTypeDepth(inner);
      case OptionT(inner) => NestingIsTypeDepth(inner);
      case StructT(_, fields) => FieldNestingIsDepth(fields, 0);
      case EnumT(name, variants) => VariantNestingIsDepth(name, variants);
      case _ => LeafNesting(t);
    }
  }

  lemma LeafNesting(t: Ty)
    requires BoundsOk(t) && !t.VecT? && !t.OptionT? && !t.StructT? && !t.EnumT?
    ensures Nesting(Desc(t)) == Max(TypeDepth(t), EmptyVariantDepth(t))
  {
  }

  /** `extra` levels above the fields shift both measures alike. */
  lemma {:induction false} FieldNestingIsDepth(fields: seq<Field>, extra: nat)
    requires FieldBoundsOk(fields)
    ensures Below(FieldNesting(DescFields(fields)), extra)
         == Max(FieldDepth(fields, 1 + extra), FieldEmptyDepth(fields, 1 + extra))
    ensures fields != [] ==> FieldNesting(DescFields(fields)) > 0
    decreases fields
  {
    if fields != [] {
      NestingIsTypeDepth(fields[0].ty);
      FieldNestingIsDepth(fields[1..], extra);
      var ds := DescFields(fields);
      assert ds[0].node == Desc(fields[0].ty) && ds[1..] == DescFields(fields[1..]);
    }
  }

  lemma {:induction false} BodyNestingIsDepth(name: Str, body: Body)
    requires BodyBoundsOk(body)
    ensures PayloadNesting(DescBody(name, body)) == Max(BodyDepth(body), BodyEmptyDepth(body))
    decreases body
  {
    match body {
      case Unit =>
      case Single(t) => NestingIsTypeDepth(t);
      case Braced(fields) => FieldNestingIsDepth(fields, 1);
    }
  }

  lemma {:induction false} VariantNestingIsDepth(owner: Str, variants: seq<Variant>)
    requires VariantBoundsOk(variants)
    ensures VariantNesting(DescVariants(owner, variants)) == Max(VariantDepth(variants), VariantEmptyDepth(variants))
    decreases variants
  {
    if variants != [] {
      var v := variants[0];
      BodyNestingIsDepth(JoinedName(owner, v.name), v.body);
      VariantNestingIsDepth(owner, variants[1..]);
      var ds := DescVariants(owner, variants);
      assert ds[0].payload == DescBody(JoinedName(owner, v.name), v.body) && ds[1..] == DescVariants(owner, variants[1..]);
    }
  }

  // ---- What the assertions guarantee ----

  /** Every derived struct, enum and schema root asserts at compile time that its `TYPE_DEPTH`
      is at most sixteen. For a type within that bound whose names and counts fit the wire, the
      descriptor can be encoded exactly when no empty braced variant sits deeper than sixteen,
      and fails on depth otherwise. */
  lemma AssertionAndDepthLimit(t: Ty)
    requires BoundsOk(t) && TypeDepth(t) <= MAX_DESCRIPTOR_DEPTH
    ensures Encode(Desc(t), 0).Ok? <==> SizesFit(Desc(t)) && EmptyVariantDepth(t) <= MAX_DESCRIPTOR_DEPTH
    ensures EmptyVariantDepth(t) <= MAX_DESCRIPTOR_DEPTH ==> Encode(Desc(t), 0) != Err(DepthExceeded)
    ensures SizesFit(Desc(t)) && EmptyVariantDepth(t) > MAX_DESCRIPTOR_DEPTH ==> Encode(Desc(t), 0) == Err(DepthExceeded)
  {
    hide Encode, SizesFit, Nesting, TypeDepth, EmptyVariantDepth, Desc;
    NestingIsTypeDepth(t);
    EncodesIff(Desc(t), 0);
  }

  /** `enum inner { variant {} }` under `n` options. */
  function EmptyVariantUnder(n: nat, inner: Str, variant: Str): (t: Ty)
    ensures BoundsOk(t)
  {
    if n == 0 then EnumT(inner, [Variant(0, variant, Braced([]))]) else OptionT(EmptyVariantUnder(n - 1, inner, variant))
  }

  predicate NamesFit(owner: Str, variant: Str) {
    |owner| + 1 + |variant| <= U32_MAX
  }

  lemma OneEmptyVariant(owner: Str, variant: Str)
    requires NamesFit(owner, variant)
    ensures var vs := [Variant(0, variant, Braced([]))];
            && VariantBoundsOk(vs) && VariantDepth(vs) == 0 && VariantEmptyDepth(vs) == 1
            && DiscriminantWidth(vs) == 1 && |DescVariants(owner, vs)| == 1 && VariantSizesFit(DescVariants(owner, vs), 1)
  {
    var v := Variant(0, variant, Braced([]));
    var vs := [v];
    assert vs[1..] == [];
    assert FieldBoundsOk([]) && BodyBoundsOk(v.body) && VariantBoundsOk(vs[1..]);
    assert DescFields([]) == [] && DescVariants(owner, vs[1..]) == [];
    var d := VariantDescriptor(0, variant, DescBody(JoinedName(owner, variant), v.body));
    var ds := DescVariants(owner, vs);
    assert ds == [d] && ds[1..] == [];
    assert SizesFit(d.payload.value);
  }

  lemma {:induction false} EmptyVariantUnderDepths(n: nat, inner: Str, variant: Str)
    requires NamesFit(inner, variant)
    ensures var t := EmptyVariantUnder(n, inner, variant);
            TypeDepth(t) == n && EmptyVariantDepth(t) == n + 1 && SizesFit(Desc(t))
  {
    hide VariantDepth, VariantEmptyDepth, DescVariants, VariantSizesFit, DiscriminantWidth, VariantBoundsOk;
    if n > 0 {
      EmptyVariantUnderDepths(n - 1, inner, variant);
    } else {
      OneEmptyVariant(inner, variant);
    }
  }

  /** A struct with one field adds one level and nothing else. */
  lemma OneFieldStruct(outer: Str, field: Str, ty: Ty)
    requires |outer| <= U32_MAX && |field| <= U32_MAX
    requires BoundsOk(ty) && SizesFit(Desc(ty)) && EmptyVariantDepth(ty) > 0
    ensures var t := StructT(outer, [Field(field, ty)]);
            && BoundsOk(t) && SizesFit(Desc(t))
            && TypeDepth(t) == TypeDepth(ty) + 1 && EmptyVariantDepth(t) == EmptyVariantDepth(ty) + 1
  {
    var f := Field(field, ty);
    var fs := [f];
    assert fs[1..] == [];
    assert FieldBoundsOk(fs[1..]) && FieldBoundsOk(fs);
    assert DescFields(fs[1..]) == [];
    var ds := DescFields(fs);
    assert ds == [FieldDescriptor(field, Desc(ty))] && ds[1..] == [];
    assert FieldSizesFit(ds[1..]) && FieldSizesFit(ds);
    OneFieldDepths(f);
  }

  lemma OneFieldDepths(f: Field)
    ensures FieldDepth([f], 1) == TypeDepth(f.ty) + 1 && FieldEmptyDepth([f], 1) == Below(EmptyVariantDepth(f.ty), 1)
  {
    hide TypeDepth, EmptyVariantDepth;
    var fs := [f];
    assert fs[1..] == [];
    assert FieldDepth(fs[1..], 1) == 0 && FieldEmptyDepth(fs[1..], 1) == 0;
  }

  /** The assertions alone are not enough: a derived struct with one field, of fifteen options
      over an enum with a variant `V {}`, passes its own and the enum's, whatever the names,
      and its descriptor is refused as too deep. */
  lemma AssertionMissesEmptyVariants(outer: Str, field: Str, inner: Str, variant: Str)
    requires |outer| <= U32_MAX && |field| <= U32_MAX && NamesFit(inner, variant)
    ensures var e := EmptyVariantUnder(0, inner, variant);
            var t := StructT(outer, [Field(field, EmptyVariantUnder(15, inner, variant))]);
            && TypeDepth(e) <= MAX_DESCRIPTOR_DEPTH && TypeDepth(t) <= MAX_DESCRIPTOR_DEPTH
            && BoundsOk(t) && Encode(Desc(t), 0) == Err(DepthExceeded)
  {
    hide Encode, Desc, BoundsOk, SizesFit, TypeDepth, EmptyVariantDepth, EmptyVariantUnder;
    EmptyVariantUnderDepths(0, inner, variant);
    EmptyVariantUnderDepths(15, inner, variant);
    OneFieldStruct(outer, field, EmptyVariantUnder(15, inner, variant));
    AssertionAndDepthLimit(StructT(outer, [Field(field, EmptyVariantUnder(15, inner, variant))]));
  }
}
