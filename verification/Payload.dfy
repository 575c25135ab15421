/** Payload types: the value codec shared by the primitive types, the bounded containers and
    the code generated for derived structs and enums
    (crates/pardosa/src/schema.rs:1194-1585, crates/pardosa-derive/src/lib.rs:40-1060). */
module Payload {
  import opened Wire
  import opened Descriptor

  datatype Field = Field(name: Str, ty: Ty)

  /** A one-field tuple variant carries its type bare; every other variant with braces or
      parentheses carries a struct, even when it has no field. */
  datatype Body = Unit | Single(ty: Ty) | Braced(fields: seq<Field>)

  datatype Variant = Variant(discriminant: u32, name: Str, body: Body)

  datatype Ty =
    | UintT(width: nat)
    | IntT(width: nat)
    | BoolT
    | TimestampT
    | UuidT
    | StringT(max: nat)
    | NonEmptyStringT(max: nat)
    | BytesT(max: nat)
    | VecT(inner: Ty, max: nat)
    | OptionT(inner: Ty)
    | StructT(name: Str, fields: seq<Field>)
    | EnumT(name: Str, variants: seq<Variant>)

  datatype Val =
    | Num(n: int)
    | Flag(b: bool)
    | Raw(bytes: Bytes)
    | Nothing
    | Just(v: Val)
    | Items(vs: seq<Val>)
    | Case(index: nat, payload: seq<Val>)

  // ---- What the type system and the macro guarantee ----

  /** Discriminants of an enum differ and are at most 65535; integers are 1, 2, 4 or 8 bytes. */
  predicate TyOk(t: Ty)
    decreases t
  {
    match t
    case UintT(w) => w in {1, 2, 4, 8}
    case IntT(w) => w in {1, 2, 4, 8}
    case VecT(inner, _) => TyOk(inner)
    case OptionT(inner) => TyOk(inner)
    case StructT(_, fields) => FieldsOk(fields)
    case EnumT(_, variants) =>
      && variants != []
      && (forall i | 0 <= i < |variants| :: variants[i].discriminant <= 0xFFFF)
      && (forall i, j | 0 <= i < j < |variants| :: variants[i].discriminant != variants[j].discriminant)
      && (forall i | 0 <= i < |variants| :: BodyOk(variants[i].body))
    case _ => true
  }

  predicate FieldsOk(fields: seq<Field>)
    decreases fields
  {
    fields != [] ==> TyOk(fields[0].ty) && FieldsOk(fields[1..])
  }

  predicate BodyOk(body: Body)
    decreases body
  {
    match body
    case Unit => true
    case Single(t) => TyOk(t)
    case Braced(fields) => FieldsOk(fields)
  }

  /** The values a type has. A container bound over u32::MAX leaves the type without values. */
  predicate HasType(t: Ty, v: Val)
    decreases t, 0
  {
    match t
    case UintT(w) => v.Num? && 0 <= v.n < Pow256(w)
    case IntT(w) => v.Num? && 0 <= 2 * v.n + Pow256(w) < 2 * Pow256(w)
    case BoolT => v.Flag?
    case TimestampT => v.Num? && 0 < v.n < Pow256(8)
    case UuidT => v.Raw? && |v.bytes| == 16
    case StringT(max) => v.Raw? && |v.bytes| <= max <= U32_MAX && ValidUtf8(v.bytes)
    case NonEmptyStringT(max) => v.Raw? && 0 < |v.bytes| <= max <= U32_MAX && ValidUtf8(v.bytes)
    case BytesT(max) => v.Raw? && |v.bytes| <= max <= U32_MAX
    case VecT(inner, max) => v.Items? && |v.vs| <= max <= U32_MAX && AllHaveType(inner, v.vs)
    case OptionT(inner) => v.Nothing? || (v.Just? && HasType(inner, v.v))
    case StructT(_, fields) => v.Items? && FieldsHaveType(fields, v.vs)
    case EnumT(_, variants) => v.Case? && v.index < |variants| && BodyHasType(variants[v.index].body, v.payload)
  }

  predicate AllHaveType(t: Ty, vs: seq<Val>)
    decreases t, 1, vs
  {
    vs != [] ==> HasType(t, vs[0]) && AllHaveType(t, vs[1..])
  }

  predicate FieldsHaveType(fields: seq<Field>, vs: seq<Val>)
    decreases fields, 0
  {
    if fields == [] then vs == []
    else vs != [] && HasType(fields[0].ty, vs[0]) && FieldsHaveType(fields[1..], vs[1..])
  }

  predicate BodyHasType(body: Body, vs: seq<Val>)
    decreases body, 0
  {
    match body
    case Unit => vs == []
    case Single(t) => |vs| == 1 && HasType(t, vs[0])
    case Braced(fields) => FieldsHaveType(fields, vs)
  }

  // ---- Encoding ----

  /** Two's complement in `w` bytes. */
  function Wrap(n: int, w: nat): nat
    requires 0 <= 2 * n + Pow256(w) < 2 * Pow256(w)
  {
    if n < 0 then n + Pow256(w) else n
  }

  function Unwrap(m: nat, w: nat): int {
    if 2 * m < Pow256(w) then m else m - Pow256(w)
  }

  function DiscriminantWidth(variants: seq<Variant>): (w: byte)
    ensures w in {1, 2}
  {
    if exists i | 0 <= i < |variants| :: variants[i].discriminant > 0xFF then 2 else 1
  }

  function Counted(n: nat, b: Bytes): Bytes {
    Le(n, 4) + b
  }

  function Enc(t: Ty, v: Val): Bytes
    requires HasType(t, v)
    decreases t, 0
  {
    match t
    case UintT(w) => Le(v.n, w)
    case IntT(w) => Le(Wrap(v.n, w), w)
    case BoolT => [if v.b then 1 else 0]
    case TimestampT => Le(v.n, 8)
    case UuidT => v.bytes
    case StringT(_) => Counted(|v.bytes|, v.bytes)
    case NonEmptyStringT(_) => Counted(|v.bytes|, v.bytes)
    case BytesT(_) => Counted(|v.bytes|, v.bytes)
    case VecT(inner, _) => Counted(|v.vs|, EncAll(inner, v.vs))
    case OptionT(inner) => if v.Nothing? then [0x00] else [0x01] + Enc(inner, v.v)
    case StructT(_, fields) => EncFields(fields, v.vs)
    case EnumT(_, variants) =>
      Le(variants[v.index].discriminant, DiscriminantWidth(variants)) + EncBody(variants[v.index].body, v.payload)
  }

  function EncAll(t: Ty, vs: seq<Val>): Bytes
    requires AllHaveType(t, vs)
    decreases t, 1, vs
  {
    if vs == [] then [] else Enc(t, vs[0]) + EncAll(t, vs[1..])
  }

  function EncFields(fields: seq<Field>, vs: seq<Val>): Bytes
    requires FieldsHaveType(fields, vs)
    decreases fields, 0
  {
    if fields == [] then [] else Enc(fields[0].ty, vs[0]) + EncFields(fields[1..], vs[1..])
  }

  function EncBody(body: Body, vs: seq<Val>): Bytes
    requires BodyHasType(body, vs)
    decreases body, 0
  {
    match body
    case Unit => []
    case Single(t) => Enc(t, vs[0])
    case Braced(fields) => EncFields(fields, vs)
  }

  // ---- Decoding ----

  function Dec(t: Ty, s: Bytes): Parsed<Val>
    decreases t, 0
  {
    match t
    case UintT(w) => var (n, r) :- TakeLe(w, s); Ok((Num(n), r))
    case IntT(w) => var (n, r) :- TakeLe(w, s); Ok((Num(Unwrap(n, w)), r))
    case BoolT => DecFlag(s)
    case TimestampT =>
      var (n, r) :- TakeLe(8, s);
      if n == 0 then Err(InvalidTimestampSentinel) else Ok((Num(n), r))
    case UuidT => var (b, r) :- Take(16, s); Ok((Raw(b), r))
    case StringT(max) =>
      var (n, r) :- TakeBounded(max, LengthExceeded, s);
      var (b, r) :- TakeUtf8(n, r);
      Ok((Raw(b), r))
    case NonEmptyStringT(max) =>
      var (n, r) :- TakeNonEmpty(max, s);
      var (b, r) :- TakeUtf8(n, r);
      Ok((Raw(b), r))
    case BytesT(max) =>
      var (n, r) :- TakeBounded(max, LengthExceeded, s);
      var (b, r) :- Take(n, r);
      Ok((Raw(b), r))
    case VecT(inner, max) =>
      var (n, r) :- TakeBounded(max, ItemCountExceeded, s);
      var (vs, r) :- DecAll(inner, n, [], r);
      Ok((Items(vs), r))
    case OptionT(inner) =>
      if s == [] then Err(TruncatedPayload)
      else if s[0] == 0x00 then Ok((Nothing, s[1..]))
      else if s[0] == 0x01 then
        var (v, r) :- Dec(inner, s[1..]);
        Ok((Just(v), r))
      else Err(InvalidOptionTag)
    case StructT(_, fields) =>
      var (vs, r) :- DecFields(fields, s);
      Ok((Items(vs), r))
    case EnumT(_, variants) =>
      var (d, r) :- TakeDiscriminant(DiscriminantWidth(variants), s);
      var i := IndexOf(variants, d);
      if i == |variants| then Err(UnknownVariantDiscriminant) else
      var (vs, r) :- DecBody(variants[i].body, r);
      Ok((Case(i, vs), r))
  }

  function DecFlag(s: Bytes): Parsed<Val> {
    if s == [] then Err(TruncatedPayload)
    else if s[0] == 0x00 then Ok((Flag(false), s[1..]))
    else if s[0] == 0x01 then Ok((Flag(true), s[1..]))
    else Err(InvalidBoolean)
  }

  function TakeBounded(max: nat, over: DecodeError, s: Bytes): Parsed<u32> {
    if max > U32_MAX then Err(ValueConstraintViolated(TooLong)) else
    var (n, r) :- TakeU32(s);
    if n > max then Err(over) else Ok((n, r))
  }

  function TakeNonEmpty(max: nat, s: Bytes): Parsed<u32> {
    if max > U32_MAX then Err(ValueConstraintViolated(TooLong)) else
    var (n, r) :- TakeU32(s);
    if n == 0 then Err(EmptyNonEmptyString)
    else if n > max then Err(LengthExceeded) else Ok((n, r))
  }

  /** Reads `n` more items after `acc`. */
  function DecAll(t: Ty, n: nat, acc: seq<Val>, s: Bytes): Parsed<seq<Val>>
    decreases t, 1, n
  {
    if n == 0 then Ok((acc, s)) else
    var (v, r) :- Dec(t, s);
    DecAll(t, n - 1, acc + [v], r)
  }

  function DecFields(fields: seq<Field>, s: Bytes): Parsed<seq<Val>>
    decreases fields, 0
  {
    if fields == [] then Ok(([], s)) else
    var (v, r) :- Dec(fields[0].ty, s);
    var (vs, r) :- DecFields(fields[1..], r);
    Ok(([v] + vs, r))
  }

  function DecBody(body: Body, s: Bytes): Parsed<seq<Val>>
    decreases body, 0
  {
    match body
    case Unit => Ok(([], s))
    case Single(t) => var (v, r) :- Dec(t, s); Ok(([v], r))
    case Braced(fields) => DecFields(fields, s)
  }

  /** The match arm a discriminant selects; the number of variants when there is none. */
  function IndexOf(variants: seq<Variant>, d: u32): (i: nat)
    ensures i <= |variants|
    ensures i < |variants| ==> variants[i].discriminant == d
    ensures i == |variants| ==> forall j | 0 <= j < |variants| :: variants[j].discriminant != d
  {
    if variants == [] then 0
    else if variants[0].discriminant == d then 0
    else 1 + IndexOf(variants[1..], d)
  }

  /** The root of a payload must use every byte. */
  function DecodePayload(t: Ty, s: Bytes): Result<Val, DecodeError> {
    var (v, r) :- Dec(t, s);
    if r == [] then Ok(v) else Err(TruncatedPayload)
  }
}
