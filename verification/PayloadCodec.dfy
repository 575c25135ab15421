/** The payload codec is exact: `Dec` accepts precisely the encodings of the values of a type,
    and at the schema root every byte is accounted for. */
module PayloadCodec {
  import opened Wire
  import opened Descriptor
  import opened DescriptorCodec
  import opened Payload

  // ---- Leaves ----

  lemma IntExact(w: nat, s: Bytes, n: int, r: Bytes)
    requires w in {1, 2, 4, 8}
    ensures Dec(IntT(w), s) == Ok((Num(n), r))
        <==> HasType(IntT(w), Num(n)) && s == Enc(IntT(w), Num(n)) + r
  {
    Widths();
    if HasType(IntT(w), Num(n)) {
      TakeLeExact(w, s, Wrap(n, w), r);
    }
    if TakeLe(w, s).Ok? {
      TakeLeExact(w, s, TakeLe(w, s).value.0, TakeLe(w, s).value.1);
    }
  }

  lemma CountedOf(max: nat, over: DecodeError, n: nat, b: Bytes, r: Bytes)
    requires n <= max <= U32_MAX
    ensures TakeBounded(max, over, Counted(n, b) + r) == Ok((n, b + r))
    ensures n > 0 ==> TakeNonEmpty(max, Counted(n, b) + r) == Ok((n, b + r))
  {
    Assoc3(Le(n, 4), b, r);
    TakeU32Exact(Le(n, 4) + (b + r), n, b + r);
  }

  lemma BoundedOf(max: nat, over: DecodeError, s: Bytes)
    requires TakeBounded(max, over, s).Ok?
    ensures var (n, r) := TakeBounded(max, over, s).value; n <= max <= U32_MAX && s == Le(n, 4) + r
  {
    var (n, r) := TakeBounded(max, over, s).value;
    TakeU32Exact(s, n, r);
  }

  lemma NonEmptyOf(max: nat, s: Bytes)
    requires TakeNonEmpty(max, s).Ok?
    ensures var (n, r) := TakeNonEmpty(max, s).value; 0 < n <= max <= U32_MAX && s == Le(n, 4) + r
  {
    var (n, r) := TakeNonEmpty(max, s).value;
    TakeU32Exact(s, n, r);
  }

  predicate IsLeaf(t: Ty) {
    !t.VecT? && !t.OptionT? && !t.StructT? && !t.EnumT?
  }

  lemma LeafDecOfEnc(t: Ty, v: Val, r: Bytes)
    requires IsLeaf(t) && TyOk(t) && HasType(t, v)
    ensures Dec(t, Enc(t, v) + r) == Ok((v, r))
  {
    match t {
      case UintT(w) => TakeLeExact(w, Enc(t, v) + r, v.n, r);
      case IntT(w) => IntExact(w, Enc(t, v) + r, v.n, r);
      case BoolT => HeadTail(if v.b then 1 else 0, r);
      case TimestampT => TakeLeExact(8, Enc(t, v) + r, v.n, r);
      case UuidT => TakeExact(16, v.bytes + r, v.bytes, r);
      case StringT(max) => CountedOf(max, LengthExceeded, |v.bytes|, v.bytes, r); TakeExact(|v.bytes|, v.bytes + r, v.bytes, r);
      case NonEmptyStringT(max) => CountedOf(max, LengthExceeded, |v.bytes|, v.bytes, r); TakeExact(|v.bytes|, v.bytes + r, v.bytes, r);
      case BytesT(max) => CountedOf(max, LengthExceeded, |v.bytes|, v.bytes, r); TakeExact(|v.bytes|, v.bytes + r, v.bytes, r);
    }
  }

  /** What `Dec` read from `s` is a value of the type, and re-encodes to what was read. */
  predicate Sound(t: Ty, s: Bytes)
    requires Dec(t, s).Ok?
  {
    var (v, r) := Dec(t, s).value;
    HasType(t, v) && s == Enc(t, v) + r
  }

  lemma LeafEncOfDec(t: Ty, s: Bytes)
    requires IsLeaf(t) && TyOk(t) && Dec(t, s).Ok?
    ensures Sound(t, s)
  {
    var (v, r) := Dec(t, s).value;
    match t {
      case UintT(w) => TakeLeExact(w, s, v.n, r);
      case IntT(w) => IntExact(w, s, v.n, r);
      case BoolT => assert s == [s[0]] + r;
      case TimestampT => TakeLeExact(8, s, v.n, r);
      case UuidT => TakeExact(16, s, v.bytes, r);
      case StringT(max) => TextSound(max, s);
      case NonEmptyStringT(max) => NonEmptyTextSound(max, s);
      case BytesT(max) => BytesSound(max, s);
    }
  }

  lemma TextSound(max: nat, s: Bytes)
    requires Dec(StringT(max), s).Ok?
    ensures Sound(StringT(max), s)
  {
    var (v, r) := Dec(StringT(max), s).value;
    var (n, q) := TakeBounded(max, LengthExceeded, s).value;
    BoundedOf(max, LengthExceeded, s);
    TakeExact(n, q, v.bytes, r);
    Assoc3(Le(n, 4), v.bytes, r);
  }

  lemma NonEmptyTextSound(max: nat, s: Bytes)
    requires Dec(NonEmptyStringT(max), s).Ok?
    ensures Sound(NonEmptyStringT(max), s)
  {
    var (v, r) := Dec(NonEmptyStringT(max), s).value;
    var (n, q) := TakeNonEmpty(max, s).value;
    NonEmptyOf(max, s);
    TakeExact(n, q, v.bytes, r);
    Assoc3(Le(n, 4), v.bytes, r);
  }

  lemma BytesSound(max: nat, s: Bytes)
    requires Dec(BytesT(max), s).Ok?
    ensures Sound(BytesT(max), s)
  {
    var (v, r) := Dec(BytesT(max), s).value;
    var (n, q) := TakeBounded(max, LengthExceeded, s).value;
    BoundedOf(max, LengthExceeded, s);
    TakeExact(n, q, v.bytes, r);
    Assoc3(Le(n, 4), v.bytes, r);
  }

  // ---- Enums ----

  lemma IndexOfDiscriminant(variants: seq<Variant>, i: nat)
    requires i < |variants|
    requires forall j, k | 0 <= j < k < |variants| :: variants[j].discriminant != variants[k].discriminant
    ensures IndexOf(variants, variants[i].discriminant) == i
  {
  }

  /** The width the macro picks holds every discriminant of the enum. */
  lemma DiscriminantFits(variants: seq<Variant>, i: nat)
    requires i < |variants| && variants[i].discriminant <= 0xFFFF
    ensures EncodeDiscriminant(variants[i].discriminant, DiscriminantWidth(variants))
         == Ok(Le(variants[i].discriminant, DiscriminantWidth(variants)))
  {
  }

  // ---- Decoding an encoding ----

  lemma {:induction false} DecOfEnc(t: Ty, v: Val, r: Bytes)
    requires TyOk(t) && HasType(t, v)
    ensures Dec(t, Enc(t, v) + r) == Ok((v, r))
    decreases t, 0
  {
    if IsLeaf(t) {
      LeafDecOfEnc(t, v, r);
    } else {
      match t {
        case VecT(inner, max) =>
          CountedOf(max, ItemCountExceeded, |v.vs|, EncAll(inner, v.vs), r);
          DecAllOfEnc(inner, v.vs, [], r);
          assert [] + v.vs == v.vs;
        case OptionT(inner) =>
          if v.Just? {
            Assoc3([0x01], Enc(inner, v.v), r);
            HeadTail(0x01, Enc(inner, v.v) + r);
            DecOfEnc(inner, v.v, r);
          } else {
            HeadTail(0x00, r);
          }
        case StructT(_, fields) => DecFieldsOfEnc(fields, v.vs, r);
        case EnumT(_, variants) =>
          DecBodyOfEnc(variants[v.index].body, v.payload, r);
          EnumDecOfEnc(t, v, r);
      }
    }
  }

  lemma EnumDecOfEnc(t: Ty, v: Val, r: Bytes)
    requires t.EnumT? && TyOk(t) && HasType(t, v)
    requires var body := t.variants[v.index].body;
             DecBody(body, EncBody(body, v.payload) + r) == Ok((v.payload, r))
    ensures Dec(t, Enc(t, v) + r) == Ok((v, r))
  {
    var x, w := t.variants[v.index], DiscriminantWidth(t.variants);
    var b := EncBody(x.body, v.payload);
    DiscriminantFits(t.variants, v.index);
    Assoc3(Le(x.discriminant, w), b, r);
    DiscriminantOfEncode(x.discriminant, w, b + r);
    IndexOfDiscriminant(t.variants, v.index);
  }

  lemma {:induction false} DecAllOfEnc(t: Ty, vs: seq<Val>, acc: seq<Val>, r: Bytes)
    requires TyOk(t) && AllHaveType(t, vs)
    ensures DecAll(t, |vs|, acc, EncAll(t, vs) + r) == Ok((acc + vs, r))
    decreases t, 1, vs
  {
    if vs == [] {
      assert acc + vs == acc && [] + r == r;
    } else {
      var b, q := Enc(t, vs[0]), EncAll(t, vs[1..]);
      Assoc3(b, q, r);
      DecOfEnc(t, vs[0], q + r);
      DecAllOfEnc(t, vs[1..], acc + [vs[0]], r);
      assert acc + [vs[0]] + vs[1..] == acc + vs;
    }
  }

  lemma {:induction false} DecFieldsOfEnc(fields: seq<Field>, vs: seq<Val>, r: Bytes)
    requires FieldsOk(fields) && FieldsHaveType(fields, vs)
    ensures DecFields(fields, EncFields(fields, vs) + r) == Ok((vs, r))
    decreases fields, 0
  {
    if fields == [] {
      assert [] + r == r;
    } else {
      var b, q := Enc(fields[0].ty, vs[0]), EncFields(fields[1..], vs[1..]);
      Assoc3(b, q, r);
      DecOfEnc(fields[0].ty, vs[0], q + r);
      DecFieldsOfEnc(fields[1..], vs[1..], r);
      assert vs == [vs[0]] + vs[1..];
    }
  }

  lemma {:induction false} DecBodyOfEnc(body: Body, vs: seq<Val>, r: Bytes)
    requires BodyOk(body) && BodyHasType(body, vs)
    ensures DecBody(body, EncBody(body, vs) + r) == Ok((vs, r))
    decreases body, 0
  {
    match body {
      case Unit => assert [] + r == r;
      case Single(t) => DecOfEnc(t, vs[0], r); assert vs == [vs[0]];
      case Braced(fields) => DecFieldsOfEnc(fields, vs, r);
    }
  }

  // ---- Re-encoding what was decoded ----

  lemma {:induction false} EncOfDec(t: Ty, s: Bytes)
    requires TyOk(t) && Dec(t, s).Ok?
    ensures Sound(t, s)
    decreases t, 0
  {
    if IsLeaf(t) {
      LeafEncOfDec(t, s);
    } else {
      var (v, r) := Dec(t, s).value;
      match t {
        case VecT(inner, max) =>
          var (n, q) := TakeBounded(max, ItemCountExceeded, s).value;
          BoundedOf(max, ItemCountExceeded, s);
          EncOfDecAll(inner, n, [], q);
          assert v.vs[0..] == v.vs;
          Assoc3(Le(n, 4), EncAll(inner, v.vs), r);
        case OptionT(inner) =>
          assert s == [s[0]] + s[1..];
          if s[0] == 0x01 {
            EncOfDec(inner, s[1..]);
            Assoc3([0x01], Enc(inner, v.v), r);
          }
        case StructT(_, fields) => EncOfDecFields(fields, s);
        case EnumT(_, variants) =>
          var (d, q) := TakeDiscriminant(DiscriminantWidth(variants), s).value;
          EncOfDecBody(variants[IndexOf(variants, d)].body, q);
          EnumEncOfDec(t, s);
      }
    }
  }

  lemma EnumEncOfDec(t: Ty, s: Bytes)
    requires t.EnumT? && TyOk(t) && Dec(t, s).Ok?
    requires var (d, q) := TakeDiscriminant(DiscriminantWidth(t.variants), s).value;
             BodySound(t.variants[IndexOf(t.variants, d)].body, q)
    ensures Sound(t, s)
  {
    var (v, r) := Dec(t, s).value;
    var w := DiscriminantWidth(t.variants);
    var (d, q) := TakeDiscriminant(w, s).value;
    EncodeOfTakeDiscriminant(w, s);
    DiscriminantFits(t.variants, v.index);
    Assoc3(Le(d, w), EncBody(t.variants[v.index].body, v.payload), r);
  }

  predicate AllSound(t: Ty, n: nat, acc: seq<Val>, s: Bytes)
    requires DecAll(t, n, acc, s).Ok?
  {
    var (vs, r) := DecAll(t, n, acc, s).value;
    && |vs| == |acc| + n && vs[..|acc|] == acc
    && AllHaveType(t, vs[|acc|..]) && s == EncAll(t, vs[|acc|..]) + r
  }

  lemma {:induction false} EncOfDecAll(t: Ty, n: nat, acc: seq<Val>, s: Bytes)
    requires TyOk(t) && DecAll(t, n, acc, s).Ok?
    ensures AllSound(t, n, acc, s)
    decreases t, 1, n
  {
    if n > 0 {
      var (v, q) := Dec(t, s).value;
      EncOfDec(t, s);
      EncOfDecAll(t, n - 1, acc + [v], q);
      var (vs, r) := DecAll(t, n, acc, s).value;
      SplitAfter(vs, acc, v);
      Assoc3(Enc(t, v), EncAll(t, vs[|acc| + 1..]), r);
    }
  }

  lemma {:induction false} EncOfDecFields(fields: seq<Field>, s: Bytes)
    requires FieldsOk(fields) && DecFields(fields, s).Ok?
    ensures var (vs, r) := DecFields(fields, s).value;
            FieldsHaveType(fields, vs) && s == EncFields(fields, vs) + r
    decreases fields, 0
  {
    if fields == [] {
    } else {
      var (v, q) := Dec(fields[0].ty, s).value;
      var (vs, r) := DecFields(fields[1..], q).value;
      EncOfDec(fields[0].ty, s);
      EncOfDecFields(fields[1..], q);
      assert ([v] + vs)[1..] == vs;
      Assoc3(Enc(fields[0].ty, v), EncFields(fields[1..], vs), r);
    }
  }

  predicate BodySound(body: Body, s: Bytes)
    requires DecBody(body, s).Ok?
  {
    var (vs, r) := DecBody(body, s).value;
    BodyHasType(body, vs) && s == EncBody(body, vs) + r
  }

  lemma {:induction false} EncOfDecBody(body: Body, s: Bytes)
    requires BodyOk(body) && DecBody(body, s).Ok?
    ensures BodySound(body, s)
    decreases body, 0
  {
    match body {
      case Unit =>
      case Single(t) => EncOfDec(t, s);
      case Braced(fields) => EncOfDecFields(fields, s);
    }
  }

  // ---- Exactness ----

  lemma PayloadCodecExact(t: Ty, s: Bytes, v: Val, r: Bytes)
    requires TyOk(t)
    ensures Dec(t, s) == Ok((v, r)) <==> HasType(t, v) && s == Enc(t, v) + r
  {
    if Dec(t, s) == Ok((v, r)) {
      EncOfDec(t, s);
    }
    if HasType(t, v) && s == Enc(t, v) + r {
      DecOfEnc(t, v, r);
    }
  }

  /** At the root, a payload is accepted exactly when it is the encoding of some value. */
  lemma RootAcceptsExactlyTheImage(t: Ty, s: Bytes, v: Val)
    requires TyOk(t)
    ensures DecodePayload(t, s) == Ok(v) <==> HasType(t, v) && s == Enc(t, v)
  {
    PayloadCodecExact(t, s, v, []);
    if HasType(t, v) {
      assert Enc(t, v) + [] == Enc(t, v);
    }
  }

  // ---- The bytes themselves ----

  predicate OneByteEnum(variants: seq<Variant>) {
    forall i | 0 <= i < |variants| :: variants[i].discriminant <= 0xFF
  }

  /** An enum value is its discriminant and its payload: one byte of discriminant when all
      discriminants of the enum fit one, otherwise two, the low one first. */
  lemma EnumWire(t: Ty, v: Val)
    requires t.EnumT? && TyOk(t) && HasType(t, v)
    ensures var x := t.variants[v.index];
            && x.discriminant <= 0xFFFF
            && Enc(t, v) == (if OneByteEnum(t.variants) then [x.discriminant] else [x.discriminant % 256, x.discriminant / 256])
                            + EncBody(x.body, v.payload)
  {
    hide EncBody;
    var d := t.variants[v.index].discriminant;
    assert Le(d, 1) == [d % 256] + Le(d / 256, 0);
    assert Le(d, 2) == [d % 256] + Le(d / 256, 1);
    assert Le(d / 256, 1) == [d / 256 % 256] + Le(d / 256 / 256, 0);
  }

  /** Negative numbers are written as their two's complement, the others as they are. */
  lemma SignedWire(w: nat, n: int)
    requires w in {1, 2, 4, 8} && HasType(IntT(w), Num(n))
    ensures var b := Enc(IntT(w), Num(n));
            && |b| == w && FromLe(b) == if n >= 0 then n else Pow256(w) + n
  {
    Widths();
    FromLeOfLe(Wrap(n, w), w);
  }

  /** How the other leaves and the containers begin. */
  lemma ValueWire(t: Ty, v: Val)
    requires TyOk(t) && HasType(t, v)
    ensures t.UintT? ==> |Enc(t, v)| == t.width && FromLe(Enc(t, v)) == v.n
    ensures t.TimestampT? ==> |Enc(t, v)| == 8 && FromLe(Enc(t, v)) == v.n
    ensures t.BoolT? ==> Enc(t, v) == [if v.b then 0x01 else 0x00]
    ensures t.OptionT? ==> Enc(t, v) == if v.Just? then [0x01] + Enc(t.inner, v.v) else [0x00]
    ensures t.StringT? || t.NonEmptyStringT? || t.BytesT? ==>
              |Enc(t, v)| == 4 + |v.bytes| && FromLe(Enc(t, v)[..4]) == |v.bytes| && Enc(t, v)[4..] == v.bytes
    ensures t.VecT? ==>
              |Enc(t, v)| >= 4 && FromLe(Enc(t, v)[..4]) == |v.vs| && Enc(t, v)[4..] == EncAll(t.inner, v.vs)
  {
    hide EncAll, EncFields, EncBody, AllHaveType, FieldsHaveType, BodyHasType;
    Widths();
    match t {
      case UintT(w) => FromLeOfLe(v.n, w);
      case TimestampT => FromLeOfLe(v.n, 8);
      case StringT(_) => FromLeOfLe(|v.bytes|, 4);
      case NonEmptyStringT(_) => FromLeOfLe(|v.bytes|, 4);
      case BytesT(_) => FromLeOfLe(|v.bytes|, 4);
      case VecT(_, _) => FromLeOfLe(|v.vs|, 4);
      case _ =>
    }
  }

  /** What each bound and tag refuses, whatever follows. */
  lemma Refusals(t: Ty, n: u32, b: byte, r: Bytes)
    requires TyOk(t)
    ensures (t.StringT? || t.NonEmptyStringT? || t.BytesT?) && t.max <= U32_MAX && n > t.max ==>
              Dec(t, Le(n, 4) + r) == Err(if t.NonEmptyStringT? && n == 0 then EmptyNonEmptyString else LengthExceeded)
    ensures t.NonEmptyStringT? && t.max <= U32_MAX && n == 0 ==> Dec(t, Le(n, 4) + r) == Err(EmptyNonEmptyString)
    ensures t.VecT? && t.max <= U32_MAX && n > t.max ==> Dec(t, Le(n, 4) + r) == Err(ItemCountExceeded)
    ensures t.BoolT? && b > 1 ==> Dec(t, [b] + r) == Err(InvalidBoolean)
    ensures t.OptionT? && b > 1 ==> Dec(t, [b] + r) == Err(InvalidOptionTag)
    ensures t.TimestampT? ==> Dec(t, Le(0, 8) + r) == Err(InvalidTimestampSentinel)
    ensures t.EnumT? && n <= (if OneByteEnum(t.variants) then 0xFF else 0xFFFF)
              && (forall i | 0 <= i < |t.variants| :: t.variants[i].discriminant != n) ==>
              Dec(t, Le(n, if OneByteEnum(t.variants) then 1 else 2) + r) == Err(UnknownVariantDiscriminant)
  {
    hide Le, FromLe, DecAll, DecFields, DecBody;
    Widths();
    TakeU32Exact(Le(n, 4) + r, n, r);
    TakeLeExact(8, Le(0, 8) + r, 0, r);
    if t.EnumT? && n <= (if OneByteEnum(t.variants) then 0xFF else 0xFFFF) {
      DiscriminantOfEncode(n, DiscriminantWidth(t.variants), r);
    }
  }
}
