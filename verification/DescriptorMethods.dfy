/** The descriptor operations as the program runs them: encoders that push into a buffer,
    a length calculator that adds up a total, a decoder that advances a cursor, and the
    structural check that keeps a set of seen discriminants
    (crates/pardosa/src/schema.rs:162-879, 951-1104). */
module DescriptorMethods {
  import opened Wire
  import opened Descriptor

  function Prepend(pre: Bytes, x: Result<Bytes, EncodeError>): Result<Bytes, EncodeError> {
    match x
    case Ok(b) => Ok(pre + b)
    case Err(e) => Err(e)
  }

  lemma PrependStep(pre: Bytes, b: Bytes, x: Result<Bytes, EncodeError>)
    ensures Prepend(pre, Prepend(b, x)) == Prepend(pre + b, x)
  {
    if x.Ok? {
      Assoc3(pre, b, x.value);
    }
  }

  lemma PrependNil(x: Result<Bytes, EncodeError>)
    ensures Prepend([], x) == x
  {
    if x.Ok? {
      assert [] + x.value == x.value;
    }
  }

  lemma FieldsFrom(fields: seq<FieldDescriptor>, i: nat, depth: nat)
    requires i < |fields|
    ensures match EncodeField(fields[i], depth)
            case Ok(b) => EncodeFields(fields[i..], depth) == Prepend(b, EncodeFields(fields[i + 1..], depth))
            case Err(e) => EncodeFields(fields[i..], depth) == Err(e)
  {
    assert fields[i..][0] == fields[i] && fields[i..][1..] == fields[i + 1..];
  }

  lemma VariantsFrom(variants: seq<VariantDescriptor>, i: nat, width: byte, depth: nat)
    requires i < |variants|
    ensures match EncodeVariant(variants[i], width, depth)
            case Ok(b) => EncodeVariants(variants[i..], width, depth)
                       == Prepend(b, EncodeVariants(variants[i + 1..], width, depth))
            case Err(e) => EncodeVariants(variants[i..], width, depth) == Err(e)
  {
    assert variants[i..][0] == variants[i] && variants[i..][1..] == variants[i + 1..];
  }

  // ---- Length calculator ----

  ghost predicate HasLength(r: Result<nat, EncodeError>, x: Result<Bytes, EncodeError>) {
    match x
    case Ok(b) => r == Ok(|b|)
    case Err(e) => r == Err(e)
  }

  /** The length is computed without encoding; it fails exactly when encoding would, with
      the same error, and otherwise is the number of bytes encoding would append. */
  method EncodedLenRecursive(node: DescriptorNode, depth: nat) returns (r: Result<nat, EncodeError>)
    ensures HasLength(r, Encode(node, depth))
    decreases node, 1
  {
    if depth > MAX_DESCRIPTOR_DEPTH {
      return Err(DepthExceeded);
    }
    match node {
      case EventString(_) => return Ok(5);
      case NonEmptyEventString(_) => return Ok(5);
      case EventBytes(_) => return Ok(5);
      case EventVec(inner, _) =>
        var n :- EncodedLenRecursive(inner, depth + 1);
        return Ok(1 + n + 4);
      case OptionOf(inner) =>
        var n :- EncodedLenRecursive(inner, depth + 1);
        return Ok(1 + n);
      case Struct(name, fields) =>
        if |name| > U32_MAX || |fields| > U32_MAX {
          return Err(WireLengthOverflow);
        }
        var n :- FieldsLen(fields, depth + 1);
        return Ok(1 + 4 + |name| + 4 + n);
      case Enum(name, width, variants) =>
        if |name| > U32_MAX || |variants| > U32_MAX {
          return Err(WireLengthOverflow);
        }
        var n :- VariantsLen(variants, width, depth + 1);
        return Ok(1 + 4 + |name| + 1 + 4 + n);
      case _ => return Ok(1);
    }
  }

  method FieldsLen(fields: seq<FieldDescriptor>, depth: nat) returns (r: Result<nat, EncodeError>)
    ensures HasLength(r, EncodeFields(fields, depth))
    decreases fields, 0
  {
    var total := 0;
    ghost var pre: Bytes := [];
    PrependNil(EncodeFields(fields, depth));
    assert fields[0..] == fields;
    for i := 0 to |fields|
      invariant total == |pre|
      invariant EncodeFields(fields, depth) == Prepend(pre, EncodeFields(fields[i..], depth))
    {
      FieldsFrom(fields, i, depth);
      if |fields[i].name| > U32_MAX {
        return Err(WireLengthOverflow);
      }
      var n :- EncodedLenRecursive(fields[i].node, depth);
      ghost var b := EncodeField(fields[i], depth).value;
      PrependStep(pre, b, EncodeFields(fields[i + 1..], depth));
      total, pre := total + 4 + |fields[i].name| + n, pre + b;
    }
    return Ok(total);
  }

  method VariantsLen(variants: seq<VariantDescriptor>, width: byte, depth: nat)
    returns (r: Result<nat, EncodeError>)
    ensures HasLength(r, EncodeVariants(variants, width, depth))
    decreases variants, 0
  {
    var total := 0;
    ghost var pre: Bytes := [];
    PrependNil(EncodeVariants(variants, width, depth));
    assert variants[0..] == variants;
    for i := 0 to |variants|
      invariant total == |pre|
      invariant EncodeVariants(variants, width, depth) == Prepend(pre, EncodeVariants(variants[i..], width, depth))
    {
      VariantsFrom(variants, i, width, depth);
      var n :- VariantLen(variants[i], width, depth);
      ghost var b := EncodeVariant(variants[i], width, depth).value;
      PrependStep(pre, b, EncodeVariants(variants[i + 1..], width, depth));
      total, pre := total + n, pre + b;
    }
    return Ok(total);
  }

  method VariantLen(v: VariantDescriptor, width: byte, depth: nat) returns (r: Result<nat, EncodeError>)
    ensures HasLength(r, EncodeVariant(v, width, depth))
    decreases v, 0
  {
    if v.discriminant > (if width == 1 then 255 else 65535) {
      return Err(DiscriminantExceedsWidth);
    }
    if |v.name| > U32_MAX {
      return Err(WireLengthOverflow);
    }
    var payloadLen := 1;
    if v.payload.Some? {
      payloadLen :- EncodedLenRecursive(v.payload.value, depth);
    }
    return Ok((if width == 1 then 1 else 2) + 4 + |v.name| + payloadLen);
  }

  // ---- Encoder ----

  twostate predicate Appended(buf: Buffer, new r: Result<(), EncodeError>, x: Result<Bytes, EncodeError>)
    reads buf
  {
    match x
    case Ok(b) => r.Ok? && buf.bytes == old(buf.bytes) + b
    case Err(e) => r == Err(e)
  }

  method EncodeRecursive(node: DescriptorNode, buf: Buffer, depth: nat) returns (r: Result<(), EncodeError>)
    modifies buf
    ensures Appended(buf, r, Encode(node, depth))
    decreases node, 1
  {
    hide Encode, EncodeFields, EncodeVariants, EncodeText, Le;
    if depth > MAX_DESCRIPTOR_DEPTH {
      TooDeep(node, depth);
      return Err(DepthExceeded);
    }
    ghost var before := buf.bytes;
    buf.Push(ConstructorTag(node));
    match node {
      case EventString(m) =>
        buf.Extend(Le(m, 4));
        LeafBytes(before, node, m, depth);
      case NonEmptyEventString(m) =>
        buf.Extend(Le(m, 4));
        LeafBytes(before, node, m, depth);
      case EventBytes(m) =>
        buf.Extend(Le(m, 4));
        LeafBytes(before, node, m, depth);
      case EventVec(inner, m) =>
        VecBytes(before, inner, m, depth);
        var _ :- EncodeRecursive(inner, buf, depth + 1);
        buf.Extend(Le(m, 4));
      case OptionOf(inner) =>
        OptionBytes(before, inner, depth);
        var _ :- EncodeRecursive(inner, buf, depth + 1);
      case Struct(name, fields) =>
        StructBytes(before, name, fields, depth);
        var _ :- EncodeNameAndCount(name, [], |fields|, buf);
        var _ :- EncodeFieldsInto(fields, buf, depth + 1);
      case Enum(name, width, variants) =>
        EnumBytes(before, name, width, variants, depth);
        var _ :- EncodeNameAndCount(name, [width], |variants|, buf);
        var _ :- EncodeVariantsInto(variants, width, buf, depth + 1);
      case _ => TagBytes(node, depth);
    }
    return Ok(());
  }

  lemma TooDeep(node: DescriptorNode, depth: nat)
    requires depth > MAX_DESCRIPTOR_DEPTH
    ensures Encode(node, depth) == Err(DepthExceeded)
  {
  }

  lemma TagBytes(node: DescriptorNode, depth: nat)
    requires depth <= MAX_DESCRIPTOR_DEPTH
    requires !node.EventString? && !node.NonEmptyEventString? && !node.EventBytes?
    requires !node.EventVec? && !node.OptionOf? && !node.Struct? && !node.Enum?
    ensures Encode(node, depth) == Ok([ConstructorTag(node)])
  {
  }

  lemma LeafBytes(before: Bytes, node: DescriptorNode, m: u32, depth: nat)
    requires depth <= MAX_DESCRIPTOR_DEPTH
    requires node == EventString(m) || node == NonEmptyEventString(m) || node == EventBytes(m)
    ensures Encode(node, depth).Ok?
    ensures before + Encode(node, depth).value == before + [ConstructorTag(node)] + Le(m, 4)
  {
    hide Le;
    Assoc3(before, [ConstructorTag(node)], Le(m, 4));
  }

  lemma VecBytes(before: Bytes, inner: DescriptorNode, m: u32, depth: nat)
    requires depth <= MAX_DESCRIPTOR_DEPTH
    ensures var e, b := Encode(EventVec(inner, m), depth), Encode(inner, depth + 1);
            if b.Err? then e == Err(b.error)
            else e.Ok? && before + e.value == before + [0x0D] + b.value + Le(m, 4)
  {
    hide Le;
    var b := Encode(inner, depth + 1);
    if b.Ok? {
      Regroup(before, [0x0D], b.value, Le(m, 4));
    }
  }

  lemma OptionBytes(before: Bytes, inner: DescriptorNode, depth: nat)
    requires depth <= MAX_DESCRIPTOR_DEPTH
    ensures var e, b := Encode(OptionOf(inner), depth), Encode(inner, depth + 1);
            if b.Err? then e == Err(b.error) else e.Ok? && before + e.value == before + [0x0E] + b.value
  {
    var b := Encode(inner, depth + 1);
    if b.Ok? {
      Assoc3(before, [0x0E], b.value);
    }
  }

  lemma StructBytes(before: Bytes, name: Str, fields: seq<FieldDescriptor>, depth: nat)
    requires depth <= MAX_DESCRIPTOR_DEPTH
    ensures var e, b := Encode(Struct(name, fields), depth), EncodeFields(fields, depth + 1);
            if |name| > U32_MAX || |fields| > U32_MAX then e == Err(WireLengthOverflow)
            else if b.Err? then e == Err(b.error)
            else e.Ok? && before + e.value
                       == before + [0x0F] + (EncodeText(name).value + ([] + Le(|fields|, 4))) + b.value
  {
    hide Le, EncodeFields;
    var b := EncodeFields(fields, depth + 1);
    if |name| <= U32_MAX && |fields| <= U32_MAX && b.Ok? {
      var t, n := EncodeText(name).value, Le(|fields|, 4);
      Regroup(before, [0x0F], t + ([] + n), b.value);
      Assoc3(t, [] + n, b.value);
      assert [] + n == n;
    }
  }

  lemma EnumBytes(before: Bytes, name: Str, width: byte, variants: seq<VariantDescriptor>, depth: nat)
    requires depth <= MAX_DESCRIPTOR_DEPTH
    ensures var e, b := Encode(Enum(name, width, variants), depth), EncodeVariants(variants, width, depth + 1);
            if |name| > U32_MAX || |variants| > U32_MAX then e == Err(WireLengthOverflow)
            else if b.Err? then e == Err(b.error)
            else e.Ok? && before + e.value
                       == before + [0x10] + (EncodeText(name).value + ([width] + Le(|variants|, 4))) + b.value
  {
    hide Le, EncodeVariants;
    var b := EncodeVariants(variants, width, depth + 1);
    if |name| <= U32_MAX && |variants| <= U32_MAX && b.Ok? {
      var t, n := EncodeText(name).value, Le(|variants|, 4);
      Regroup(before, [0x10], t + ([width] + n), b.value);
      Assoc4(t, [width], n, b.value);
    }
  }

  lemma Regroup(a: Bytes, b: Bytes, c: Bytes, d: Bytes)
    ensures ((a + b) + c) + d == a + (b + (c + d))
  {
    Assoc3(a + b, c, d);
    Assoc3(a, b, c + d);
  }

  method EncodeNameAndCount(name: Str, middle: Bytes, n: nat, buf: Buffer) returns (r: Result<(), EncodeError>)
    modifies buf
    ensures |name| > U32_MAX || n > U32_MAX ==> r == Err(WireLengthOverflow)
    ensures |name| <= U32_MAX && n <= U32_MAX ==>
              r.Ok? && buf.bytes == old(buf.bytes) + (EncodeText(name).value + (middle + Le(n, 4)))
  {
    if |name| > U32_MAX {
      return Err(WireLengthOverflow);
    }
    ghost var before := buf.bytes;
    buf.Extend(Le(|name|, 4));
    buf.Extend(name);
    Assoc3(before, Le(|name|, 4), name);
    buf.Extend(middle);
    if n > U32_MAX {
      return Err(WireLengthOverflow);
    }
    buf.Extend(Le(n, 4));
    Regroup(before, EncodeText(name).value, middle, Le(n, 4));
    return Ok(());
  }

  method EncodeFieldsInto(fields: seq<FieldDescriptor>, buf: Buffer, depth: nat) returns (r: Result<(), EncodeError>)
    modifies buf
    ensures Appended(buf, r, EncodeFields(fields, depth))
    decreases fields, 0
  {
    ghost var pre: Bytes := [];
    PrependNil(EncodeFields(fields, depth));
    assert fields[0..] == fields;
    for i := 0 to |fields|
      invariant buf.bytes == old(buf.bytes) + pre
      invariant EncodeFields(fields, depth) == Prepend(pre, EncodeFields(fields[i..], depth))
    {
      FieldsFrom(fields, i, depth);
      var name := fields[i].name;
      if |name| > U32_MAX {
        return Err(WireLengthOverflow);
      }
      ghost var before := buf.bytes;
      buf.Extend(Le(|name|, 4));
      buf.Extend(name);
      Assoc3(before, Le(|name|, 4), name);
      var _ :- EncodeRecursive(fields[i].node, buf, depth);
      Assoc3(before, EncodeText(name).value, Encode(fields[i].node, depth).value);
      ghost var b := EncodeField(fields[i], depth).value;
      Assoc3(old(buf.bytes), pre, b);
      PrependStep(pre, b, EncodeFields(fields[i + 1..], depth));
      pre := pre + b;
    }
    return Ok(());
  }

  method EncodeVariantsInto(variants: seq<VariantDescriptor>, width: byte, buf: Buffer, depth: nat)
    returns (r: Result<(), EncodeError>)
    modifies buf
    ensures Appended(buf, r, EncodeVariants(variants, width, depth))
    decreases variants, 0
  {
    ghost var pre: Bytes := [];
    PrependNil(EncodeVariants(variants, width, depth));
    assert variants[0..] == variants;
    for i := 0 to |variants|
      invariant buf.bytes == old(buf.bytes) + pre
      invariant EncodeVariants(variants, width, depth) == Prepend(pre, EncodeVariants(variants[i..], width, depth))
    {
      VariantsFrom(variants, i, width, depth);
      var _ :- EncodeVariantInto(variants[i], width, buf, depth);
      ghost var b := EncodeVariant(variants[i], width, depth).value;
      Assoc3(old(buf.bytes), pre, b);
      PrependStep(pre, b, EncodeVariants(variants[i + 1..], width, depth));
      pre := pre + b;
    }
    return Ok(());
  }

  method EncodeVariantInto(v: VariantDescriptor, width: byte, buf: Buffer, depth: nat)
    returns (r: Result<(), EncodeError>)
    modifies buf
    ensures Appended(buf, r, EncodeVariant(v, width, depth))
    decreases v, 0
  {
    ghost var before := buf.bytes;
    if width == 1 {
      if v.discriminant > 255 {
        return Err(DiscriminantExceedsWidth);
      }
      buf.Extend(Le(v.discriminant, 1));
    } else {
      if v.discriminant > 65535 {
        return Err(DiscriminantExceedsWidth);
      }
      buf.Extend(Le(v.discriminant, 2));
    }
    ghost var d := EncodeDiscriminant(v.discriminant, width).value;
    if |v.name| > U32_MAX {
      return Err(WireLengthOverflow);
    }
    buf.Extend(Le(|v.name|, 4));
    buf.Extend(v.name);
    Assoc3(before + d, Le(|v.name|, 4), v.name);
    if v.payload.Some? {
      assert EncodePayload(v.payload, depth) == Encode(v.payload.value, depth);
      var _ :- EncodeRecursive(v.payload.value, buf, depth);
    } else {
      buf.Push(0x00);
    }
    Regroup(before, d, EncodeText(v.name).value, EncodePayload(v.payload, depth).value);
    return Ok(());
  }

  // ---- Decoder ----

  /** The pair (value, cursor) found in `buf` is what the rest-passing parser found. */
  ghost predicate Follows<T>(buf: Bytes, r: Result<(T, nat), DecodeError>, p: Parsed<T>) {
    match (r, p)
    case (Ok((v, n)), Ok((w, q))) => v == w && n <= |buf| && q == buf[n..]
    case (Err(e), Err(f)) => e == f
    case _ => false
  }

  lemma SliceSlice(buf: Bytes, a: nat, b: nat)
    requires a + b <= |buf|
    ensures buf[a..][b..] == buf[a + b..] && buf[a..][..b] == buf[a..a + b]
  {
  }

  method ReadU32(buf: Bytes, cursor: nat) returns (r: Result<(u32, nat), DecodeError>)
    requires cursor <= |buf|
    ensures Follows(buf, r, TakeU32(buf[cursor..]))
  {
    if |buf| < cursor + 4 {
      return Err(TruncatedPayload);
    }
    Widths();
    SliceSlice(buf, cursor, 4);
    var word := buf[cursor..cursor + 4];
    assert |word| == 4;
    return Ok((FromLe(word), cursor + 4));
  }

  method ReadText(buf: Bytes, cursor: nat) returns (r: Result<(Str, nat), DecodeError>)
    requires cursor <= |buf|
    ensures Follows(buf, r, TakeText(buf[cursor..]))
  {
    var t :- ReadU32(buf, cursor);
    var len: nat, at: nat := t.0, t.1;
    if |buf| < at + len {
      return Err(TruncatedPayload);
    }
    SliceSlice(buf, at, len);
    if !ValidUtf8(buf[at..at + len]) {
      return Err(InvalidUtf8);
    }
    return Ok((buf[at..at + len], at + len));
  }

  method ReadDiscriminant(buf: Bytes, cursor: nat, width: byte) returns (r: Result<(u32, nat), DecodeError>)
    requires cursor <= |buf| && width in {1, 2}
    ensures Follows(buf, r, TakeDiscriminant(width, buf[cursor..]))
  {
    if |buf| < cursor + width {
      return Err(TruncatedPayload);
    }
    Widths();
    SliceSlice(buf, cursor, width);
    assert Pow256(width) <= 0x1_0000;
    return Ok((FromLe(buf[cursor..cursor + width]), cursor + width));
  }

  /** `consumed` counts from the start of the slice `buf[cursor..]`. */
  method DecodeAt(buf: Bytes, cursor: nat, depth: nat) returns (r: Result<(DescriptorNode, nat), DecodeError>)
    requires cursor <= |buf|
    ensures Follows(buf, r, Parse(depth, buf[cursor..]))
    decreases MAX_DESCRIPTOR_DEPTH + 1 - depth, 2, 0
  {
    var t :- DecodeRecursive(buf[cursor..], depth);
    SliceSlice(buf, cursor, t.1);
    return Ok((t.0, cursor + t.1));
  }

  method DecodeRecursive(buf: Bytes, depth: nat) returns (r: Result<(DescriptorNode, nat), DecodeError>)
    ensures Follows(buf, r, Parse(depth, buf))
    decreases MAX_DESCRIPTOR_DEPTH + 1 - depth, 1, 0
  {
    if depth > MAX_DESCRIPTOR_DEPTH {
      return Err(CycleDetected);
    }
    if buf == [] {
      return Err(TruncatedPayload);
    }
    var tag := buf[0];
    assert Parse(depth, buf) == ParseBody(depth, tag, buf[1..]);
    if tag == 0x0A {
      var t :- ReadU32(buf, 1);
      return Ok((EventString(t.0), t.1));
    } else if tag == 0x0B {
      var t :- ReadU32(buf, 1);
      return Ok((NonEmptyEventString(t.0), t.1));
    } else if tag == 0x0C {
      var t :- ReadU32(buf, 1);
      return Ok((EventBytes(t.0), t.1));
    } else if tag == 0x0D {
      var t :- DecodeAt(buf, 1, depth + 1);
      var m :- ReadU32(buf, t.1);
      return Ok((EventVec(t.0, m.0), m.1));
    } else if tag == 0x0E {
      var t :- DecodeAt(buf, 1, depth + 1);
      return Ok((OptionOf(t.0), t.1));
    } else if tag == 0x0F {
      r := DecodeStruct(buf, depth);
    } else if tag == 0x10 {
      r := DecodeEnum(buf, depth);
    } else if ScalarOf(tag).Some? {
      return Ok((ScalarOf(tag).value, 1));
    } else {
      return Err(UnknownConstructorTag);
    }
  }

  method DecodeStruct(buf: Bytes, depth: nat) returns (r: Result<(DescriptorNode, nat), DecodeError>)
    requires |buf| >= 1 && depth <= MAX_DESCRIPTOR_DEPTH
    ensures Follows(buf, r, ParseStruct(depth, buf[1..]))
    decreases MAX_DESCRIPTOR_DEPTH + 1 - depth, 0, 0
  {
    var name :- ReadText(buf, 1);
    var count :- ReadU32(buf, name.1);
    if !CountFits(count.0, 5, |buf| - count.1) {
      return Err(TruncatedPayload);
    }
    var fs :- DecodeFields(buf, count.1, count.0, depth + 1);
    return Ok((Struct(name.0, fs.0), fs.1));
  }

  method DecodeFields(buf: Bytes, start: nat, count: nat, depth: nat)
    returns (r: Result<(seq<FieldDescriptor>, nat), DecodeError>)
    requires start <= |buf|
    ensures Follows(buf, r, ParseFields(depth, count, [], buf[start..]))
    decreases MAX_DESCRIPTOR_DEPTH + 1 - depth, 3, 0
  {
    var cursor: nat := start;
    var fields := [];
    for i := 0 to count
      invariant cursor <= |buf|
      invariant ParseFields(depth, count, [], buf[start..]) == ParseFields(depth, count - i, fields, buf[cursor..])
    {
      var name :- ReadText(buf, cursor);
      var node :- DecodeAt(buf, name.1, depth);
      cursor := node.1;
      fields := fields + [FieldDescriptor(name.0, node.0)];
    }
    return Ok((fields, cursor));
  }

  method DecodeEnum(buf: Bytes, depth: nat) returns (r: Result<(DescriptorNode, nat), DecodeError>)
    requires |buf| >= 1 && depth <= MAX_DESCRIPTOR_DEPTH
    ensures Follows(buf, r, ParseEnum(depth, buf[1..]))
    decreases MAX_DESCRIPTOR_DEPTH + 1 - depth, 0, 0
  {
    var name :- ReadText(buf, 1);
    if |buf| < name.1 + 1 {
      return Err(TruncatedPayload);
    }
    SliceSlice(buf, name.1, 1);
    var width := buf[name.1];
    if width != 1 && width != 2 {
      return Err(InvalidDiscriminantWidth);
    }
    var count :- ReadU32(buf, name.1 + 1);
    if !CountFits(count.0, width + 5, |buf| - count.1) {
      return Err(TruncatedPayload);
    }
    var vs :- DecodeVariants(buf, count.1, width, count.0, depth + 1);
    return Ok((Enum(name.0, width, vs.0), vs.1));
  }

  method DecodeVariants(buf: Bytes, start: nat, width: byte, count: nat, depth: nat)
    returns (r: Result<(seq<VariantDescriptor>, nat), DecodeError>)
    requires start <= |buf| && width in {1, 2}
    ensures Follows(buf, r, ParseVariants(depth, width, count, [], buf[start..]))
    decreases MAX_DESCRIPTOR_DEPTH + 1 - depth, 4, 0
  {
    var cursor: nat := start;
    var variants := [];
    for i := 0 to count
      invariant cursor <= |buf|
      invariant ParseVariants(depth, width, count, [], buf[start..])
             == ParseVariants(depth, width, count - i, variants, buf[cursor..])
    {
      var v :- DecodeVariant(buf, cursor, width, depth);
      cursor := v.1;
      variants := variants + [v.0];
    }
    return Ok((variants, cursor));
  }

  method DecodeVariant(buf: Bytes, start: nat, width: byte, depth: nat)
    returns (r: Result<(VariantDescriptor, nat), DecodeError>)
    requires start <= |buf| && width in {1, 2}
    ensures Follows(buf, r, ParseVariant(depth, width, buf[start..]))
    decreases MAX_DESCRIPTOR_DEPTH + 1 - depth, 3, 0
  {
    var d :- ReadDiscriminant(buf, start, width);
    var name :- ReadText(buf, d.1);
    var cursor := name.1;
    if |buf| < cursor + 1 {
      assert ParsePayload(depth, buf[cursor..]) == Err(TruncatedPayload);
      return Err(TruncatedPayload);
    }
    if buf[cursor] == 0x00 {
      SliceSlice(buf, cursor, 1);
      return Ok((VariantDescriptor(d.0, name.0, None), cursor + 1));
    }
    var node :- DecodeAt(buf, cursor, depth);
    return Ok((VariantDescriptor(d.0, name.0, Some(node.0)), node.1));
  }
}
