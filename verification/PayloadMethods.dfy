/** The payload codec as the generated code runs it: encoders append to the buffer field by
    field, decoders advance a cursor field by field and item by item
    (crates/pardosa/src/schema.rs:1194-1585, crates/pardosa-derive/src/lib.rs:51-649). */
module PayloadMethods {
  import opened Wire
  import opened DescriptorMethods
  import opened Payload

  // ---- Encoder ----

  method EncodeType(t: Ty, v: Val, buf: Buffer)
    requires HasType(t, v)
    modifies buf
    ensures buf.bytes == old(buf.bytes) + Enc(t, v)
    decreases t, 0
  {
    ghost var before := buf.bytes;
    match t {
      case UintT(w) => buf.Extend(Le(v.n, w));
      case IntT(w) => buf.Extend(Le(Wrap(v.n, w), w));
      case BoolT => buf.Push(if v.b then 1 else 0);
      case TimestampT => buf.Extend(Le(v.n, 8));
      case UuidT => buf.Extend(v.bytes);
      case StringT(_) => EncodeCounted(v.bytes, buf);
      case NonEmptyStringT(_) => EncodeCounted(v.bytes, buf);
      case BytesT(_) => EncodeCounted(v.bytes, buf);
      case VecT(inner, _) =>
        buf.Extend(Le(|v.vs|, 4));
        EncodeItems(inner, v.vs, buf);
        Assoc3(before, Le(|v.vs|, 4), EncAll(inner, v.vs));
      case OptionT(inner) =>
        if v.Nothing? {
          buf.Push(0x00);
        } else {
          buf.Push(0x01);
          EncodeType(inner, v.v, buf);
          Assoc3(before, [0x01], Enc(inner, v.v));
        }
      case StructT(_, fields) => EncodeFieldValues(fields, v.vs, buf);
      case EnumT(_, variants) =>
        var x := variants[v.index];
        buf.Extend(Le(x.discriminant, DiscriminantWidth(variants)));
        match x.body {
          case Unit => assert EncBody(x.body, v.payload) == [];
          case Single(inner) => EncodeType(inner, v.payload[0], buf);
          case Braced(fields) => EncodeFieldValues(fields, v.payload, buf);
        }
        Assoc3(before, Le(x.discriminant, DiscriminantWidth(variants)), EncBody(x.body, v.payload));
    }
  }

  method EncodeCounted(b: Bytes, buf: Buffer)
    modifies buf
    ensures buf.bytes == old(buf.bytes) + Counted(|b|, b)
  {
    ghost var before := buf.bytes;
    buf.Extend(Le(|b|, 4));
    buf.Extend(b);
    Assoc3(before, Le(|b|, 4), b);
  }

  lemma {:induction false} EncAllSnoc(t: Ty, vs: seq<Val>, i: nat)
    requires AllHaveType(t, vs) && i < |vs|
    ensures AllHaveType(t, vs[..i]) && HasType(t, vs[i]) && AllHaveType(t, vs[..i + 1])
    ensures EncAll(t, vs[..i + 1]) == EncAll(t, vs[..i]) + Enc(t, vs[i])
    decreases i
  {
    hide Enc, HasType;
    if i == 0 {
      assert vs[..1] == [vs[0]];
      assert Enc(t, vs[0]) + [] == [] + Enc(t, vs[0]);
    } else {
      EncAllSnoc(t, vs[1..], i - 1);
      assert vs[..i + 1][1..] == vs[1..][..i] && vs[..i][1..] == vs[1..][..i - 1];
      Assoc3(Enc(t, vs[0]), EncAll(t, vs[1..][..i - 1]), Enc(t, vs[i]));
    }
  }

  method EncodeItems(t: Ty, vs: seq<Val>, buf: Buffer)
    requires AllHaveType(t, vs)
    modifies buf
    ensures buf.bytes == old(buf.bytes) + EncAll(t, vs)
    decreases t, 1
  {
    for i := 0 to |vs|
      invariant AllHaveType(t, vs[..i])
      invariant buf.bytes == old(buf.bytes) + EncAll(t, vs[..i])
    {
      EncAllSnoc(t, vs, i);
      EncodeType(t, vs[i], buf);
      Assoc3(old(buf.bytes), EncAll(t, vs[..i]), Enc(t, vs[i]));
    }
    assert vs[..|vs|] == vs;
  }

  method EncodeFieldValues(fields: seq<Field>, vs: seq<Val>, buf: Buffer)
    requires FieldsHaveType(fields, vs)
    modifies buf
    ensures buf.bytes == old(buf.bytes) + EncFields(fields, vs)
    decreases fields, 0
  {
    FieldsMatch(fields, vs);
    var i := 0;
    ghost var pre: Bytes := [];
    assert fields[0..] == fields && vs[0..] == vs && pre + EncFields(fields, vs) == EncFields(fields, vs);
    while i < |fields|
      invariant i <= |fields| == |vs|
      invariant FieldsHaveType(fields[i..], vs[i..])
      invariant buf.bytes == old(buf.bytes) + pre
      invariant EncFields(fields, vs) == pre + EncFields(fields[i..], vs[i..])
    {
      assert fields[i..][0] == fields[i] && fields[i..][1..] == fields[i + 1..];
      assert vs[i..][0] == vs[i] && vs[i..][1..] == vs[i + 1..];
      EncodeType(fields[i].ty, vs[i], buf);
      Assoc3(old(buf.bytes), pre, Enc(fields[i].ty, vs[i]));
      Assoc3(pre, Enc(fields[i].ty, vs[i]), EncFields(fields[i + 1..], vs[i + 1..]));
      pre := pre + Enc(fields[i].ty, vs[i]);
      i := i + 1;
    }
  }

  lemma {:induction false} FieldsMatch(fields: seq<Field>, vs: seq<Val>)
    requires FieldsHaveType(fields, vs)
    ensures |fields| == |vs|
  {
    if fields != [] {
      FieldsMatch(fields[1..], vs[1..]);
    }
  }

  // ---- Decoder ----

  method ReadLe(buf: Bytes, w: nat) returns (r: Result<(nat, nat), DecodeError>)
    ensures Follows(buf, r, TakeLe(w, buf))
  {
    if |buf| < w {
      return Err(TruncatedPayload);
    }
    return Ok((FromLe(buf[..w]), w));
  }

  method ReadCount(buf: Bytes, max: nat, nonEmpty: bool, over: DecodeError)
    returns (r: Result<(u32, nat), DecodeError>)
    ensures !nonEmpty ==> Follows(buf, r, TakeBounded(max, over, buf))
    ensures nonEmpty && over == LengthExceeded ==> Follows(buf, r, TakeNonEmpty(max, buf))
  {
    if max > U32_MAX {
      return Err(ValueConstraintViolated(TooLong));
    }
    assert buf[0..] == buf;
    var n :- ReadU32(buf, 0);
    if nonEmpty && n.0 == 0 {
      return Err(EmptyNonEmptyString);
    }
    if n.0 > max {
      return Err(over);
    }
    return Ok(n);
  }

  method ReadBytes(buf: Bytes, cursor: nat, n: nat) returns (r: Result<(Bytes, nat), DecodeError>)
    requires cursor <= |buf|
    ensures Follows(buf, r, Take(n, buf[cursor..]))
  {
    if |buf| < cursor + n {
      return Err(TruncatedPayload);
    }
    SliceSlice(buf, cursor, n);
    return Ok((buf[cursor..cursor + n], cursor + n));
  }

  method ReadUtf8(buf: Bytes, cursor: nat, n: nat) returns (r: Result<(Str, nat), DecodeError>)
    requires cursor <= |buf|
    ensures Follows(buf, r, TakeUtf8(n, buf[cursor..]))
  {
    if |buf| < cursor + n {
      return Err(TruncatedPayload);
    }
    SliceSlice(buf, cursor, n);
    if !ValidUtf8(buf[cursor..cursor + n]) {
      return Err(InvalidUtf8);
    }
    return Ok((buf[cursor..cursor + n], cursor + n));
  }

  method DecodeLeaf(t: Ty, buf: Bytes) returns (r: Result<(Val, nat), DecodeError>)
    requires !t.VecT? && !t.OptionT? && !t.StructT? && !t.EnumT?
    ensures Follows(buf, r, Dec(t, buf))
  {
    match t {
      case UintT(w) =>
        var n :- ReadLe(buf, w);
        return Ok((Num(n.0), n.1));
      case IntT(w) =>
        var n :- ReadLe(buf, w);
        return Ok((Num(Unwrap(n.0, w)), n.1));
      case BoolT =>
        if buf == [] {
          return Err(TruncatedPayload);
        }
        if buf[0] == 0x00 {
          return Ok((Flag(false), 1));
        } else if buf[0] == 0x01 {
          return Ok((Flag(true), 1));
        }
        return Err(InvalidBoolean);
      case TimestampT =>
        var n :- ReadLe(buf, 8);
        if n.0 == 0 {
          return Err(InvalidTimestampSentinel);
        }
        return Ok((Num(n.0), n.1));
      case UuidT =>
        assert buf[0..] == buf;
        var b :- ReadBytes(buf, 0, 16);
        return Ok((Raw(b.0), b.1));
      case StringT(max) =>
        var n :- ReadCount(buf, max, false, LengthExceeded);
        var b :- ReadUtf8(buf, n.1, n.0);
        return Ok((Raw(b.0), b.1));
      case NonEmptyStringT(max) =>
        var n :- ReadCount(buf, max, true, LengthExceeded);
        var b :- ReadUtf8(buf, n.1, n.0);
        return Ok((Raw(b.0), b.1));
      case BytesT(max) =>
        var n :- ReadCount(buf, max, false, LengthExceeded);
        var b :- ReadBytes(buf, n.1, n.0);
        return Ok((Raw(b.0), b.1));
    }
  }

  method DecodeType(t: Ty, buf: Bytes) returns (r: Result<(Val, nat), DecodeError>)
    ensures Follows(buf, r, Dec(t, buf))
    decreases t, 0
  {
    match t {
      case VecT(inner, max) =>
        var n :- ReadCount(buf, max, false, ItemCountExceeded);
        var vs :- DecodeItems(inner, n.0, buf, n.1);
        return Ok((Items(vs.0), vs.1));
      case OptionT(inner) =>
        if buf == [] {
          return Err(TruncatedPayload);
        }
        if buf[0] == 0x00 {
          return Ok((Nothing, 1));
        } else if buf[0] == 0x01 {
          var v :- DecodeType(inner, buf[1..]);
          SliceSlice(buf, 1, v.1);
          return Ok((Just(v.0), 1 + v.1));
        }
        return Err(InvalidOptionTag);
      case StructT(_, fields) =>
        assert buf[0..] == buf;
        var vs :- DecodeFieldValues(fields, buf, 0);
        return Ok((Items(vs.0), vs.1));
      case EnumT(_, variants) =>
        var w := DiscriminantWidth(variants);
        assert buf[0..] == buf;
        var d :- ReadDiscriminant(buf, 0, w);
        var i := IndexOf(variants, d.0);
        if i == |variants| {
          return Err(UnknownVariantDiscriminant);
        }
        match variants[i].body {
          case Unit => return Ok((Case(i, []), d.1));
          case Single(inner) =>
            var v :- DecodeType(inner, buf[d.1..]);
            SliceSlice(buf, d.1, v.1);
            return Ok((Case(i, [v.0]), d.1 + v.1));
          case Braced(fields) =>
            var vs :- DecodeFieldValues(fields, buf, d.1);
            return Ok((Case(i, vs.0), vs.1));
        }
      case _ => r := DecodeLeaf(t, buf);
    }
  }

  method DecodeItems(t: Ty, count: nat, buf: Bytes, start: nat) returns (r: Result<(seq<Val>, nat), DecodeError>)
    requires start <= |buf|
    ensures Follows(buf, r, DecAll(t, count, [], buf[start..]))
    decreases t, 1
  {
    var cursor: nat := start;
    var items := [];
    for i := 0 to count
      invariant cursor <= |buf|
      invariant DecAll(t, count, [], buf[start..]) == DecAll(t, count - i, items, buf[cursor..])
    {
      var item :- DecodeType(t, buf[cursor..]);
      SliceSlice(buf, cursor, item.1);
      cursor := cursor + item.1;
      items := items + [item.0];
    }
    return Ok((items, cursor));
  }

  /** What remains of a struct once some of its fields have been read. */
  function Resume(pre: seq<Val>, p: Parsed<seq<Val>>): Parsed<seq<Val>> {
    match p
    case Ok((vs, r)) => Ok((pre + vs, r))
    case Err(e) => Err(e)
  }

  lemma ResumeStep(pre: seq<Val>, v: Val, p: Parsed<seq<Val>>)
    ensures Resume(pre, Resume([v], p)) == Resume(pre + [v], p)
  {
    if p.Ok? {
      assert pre + ([v] + p.value.0) == pre + [v] + p.value.0;
    }
  }

  method DecodeFieldValues(fields: seq<Field>, buf: Bytes, start: nat)
    returns (r: Result<(seq<Val>, nat), DecodeError>)
    requires start <= |buf|
    ensures Follows(buf, r, DecFields(fields, buf[start..]))
    decreases fields, 0
  {
    var cursor: nat := start;
    var values := [];
    var i := 0;
    assert fields[0..] == fields;
    assert Resume([], DecFields(fields, buf[start..])) == DecFields(fields, buf[start..]) by {
      if DecFields(fields, buf[start..]).Ok? {
        assert [] + DecFields(fields, buf[start..]).value.0 == DecFields(fields, buf[start..]).value.0;
      }
    }
    while i < |fields|
      invariant i <= |fields| && cursor <= |buf|
      invariant DecFields(fields, buf[start..]) == Resume(values, DecFields(fields[i..], buf[cursor..]))
    {
      assert fields[i..][0] == fields[i] && fields[i..][1..] == fields[i + 1..];
      var v :- DecodeType(fields[i].ty, buf[cursor..]);
      SliceSlice(buf, cursor, v.1);
      ResumeStep(values, v.0, DecFields(fields[i + 1..], buf[cursor + v.1..]));
      cursor := cursor + v.1;
      values := values + [v.0];
      i := i + 1;
    }
    assert values + [] == values;
    return Ok((values, cursor));
  }

  /** The decoder at the schema root: nothing may remain. */
  method DecodePayloadBytes(t: Ty, buf: Bytes) returns (r: Result<Val, DecodeError>)
    ensures r == DecodePayload(t, buf)
  {
    var v :- DecodeType(t, buf);
    if v.1 != |buf| {
      return Err(TruncatedPayload);
    }
    return Ok(v.0);
  }
}
