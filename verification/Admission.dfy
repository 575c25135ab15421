/** Structural completeness and admission of schema descriptors
    (crates/pardosa/src/schema.rs:841-880, 951-1128). */
module Admission {
  import opened Wire
  import opened Descriptor
  import opened DescriptorCodec
  import opened DescriptorLimits
  import opened DescriptorMethods

  const MAX_DESCRIPTOR_RECORD_BYTES: nat := 65536

  /** A descriptor is complete when every bound, field, variant and width in it is real,
      discriminants within one enum differ, and it nests at most 16 levels deep. */
  predicate Complete(node: DescriptorNode, depth: nat)
    decreases node
  {
    && depth <= MAX_DESCRIPTOR_DEPTH
    && match node
       case EventString(m) => m != 0
       case NonEmptyEventString(m) => m != 0
       case EventBytes(m) => m != 0
       case EventVec(inner, m) => m != 0 && Complete(inner, depth + 1)
       case OptionOf(inner) => Complete(inner, depth + 1)
       case Struct(_, fields) =>
         forall i | 0 <= i < |fields| :: fields[i].name != [] && Complete(fields[i].node, depth + 1)
       case Enum(_, width, variants) =>
         && variants != [] && width in {1, 2}
         && (forall i | 0 <= i < |variants| :: VariantComplete(variants[i], width, depth + 1))
         && Distinct(variants)
       case _ => true
  }

  predicate VariantComplete(v: VariantDescriptor, width: byte, depth: nat)
    decreases v
  {
    && v.name != []
    && v.discriminant <= (if width == 1 then 255 else 65535)
    && (v.payload.Some? ==> Complete(v.payload.value, depth))
  }

  predicate Distinct(variants: seq<VariantDescriptor>) {
    forall i, j | 0 <= i < j < |variants| :: variants[i].discriminant != variants[j].discriminant
  }

  // ---- The first violation ----

  /** The constraint violated first, parents before children and left to right. */
  function Fault(node: DescriptorNode, depth: nat): Option<ValueConstraint>
    decreases node
  {
    if depth > MAX_DESCRIPTOR_DEPTH then Some(TooLong) else
    match node
    case EventString(m) => if m == 0 then Some(Empty) else None
    case NonEmptyEventString(m) => if m == 0 then Some(Empty) else None
    case EventBytes(m) => if m == 0 then Some(Empty) else None
    case EventVec(inner, m) => if m == 0 then Some(Empty) else Fault(inner, depth + 1)
    case OptionOf(inner) => Fault(inner, depth + 1)
    case Struct(_, fields) => FieldsFault(fields, depth + 1)
    case Enum(_, width, variants) =>
      if variants == [] then Some(Empty)
      else if width !in {1, 2} then Some(NotReal)
      else VariantsFault({}, variants, width, depth + 1)
    case _ => None
  }

  function FieldsFault(fields: seq<FieldDescriptor>, depth: nat): Option<ValueConstraint>
    decreases fields
  {
    if fields == [] then None
    else if fields[0].name == [] then Some(Empty)
    else if Fault(fields[0].node, depth).Some? then Fault(fields[0].node, depth)
    else FieldsFault(fields[1..], depth)
  }

  function VariantFault(seen: set<u32>, v: VariantDescriptor, width: byte, depth: nat): Option<ValueConstraint>
    decreases v
  {
    if v.name == [] then Some(Empty)
    else if v.discriminant > (if width == 1 then 255 else 65535) then Some(TooLong)
    else if v.discriminant in seen then Some(NotReal)
    else if v.payload.Some? then Fault(v.payload.value, depth) else None
  }

  function VariantsFault(seen: set<u32>, variants: seq<VariantDescriptor>, width: byte, depth: nat): Option<ValueConstraint>
    decreases variants
  {
    if variants == [] then None
    else if VariantFault(seen, variants[0], width, depth).Some? then VariantFault(seen, variants[0], width, depth)
    else VariantsFault(seen + {variants[0].discriminant}, variants[1..], width, depth)
  }

  predicate FieldsComplete(fields: seq<FieldDescriptor>, depth: nat) {
    forall i | 0 <= i < |fields| :: fields[i].name != [] && Complete(fields[i].node, depth)
  }

  lemma FieldsSplit(fields: seq<FieldDescriptor>, depth: nat)
    requires fields != []
    ensures FieldsComplete(fields, depth) <==>
              fields[0].name != [] && Complete(fields[0].node, depth) && FieldsComplete(fields[1..], depth)
  {
    hide Complete;
    assert fields == [fields[0]] + fields[1..];
    if FieldsComplete(fields, depth) {
      forall i | 0 <= i < |fields[1..]|
        ensures fields[1..][i].name != [] && Complete(fields[1..][i].node, depth)
      {
        assert fields[1..][i] == fields[i + 1];
      }
    }
  }

  lemma {:induction false} FieldsFaultIff(fields: seq<FieldDescriptor>, depth: nat)
    ensures FieldsFault(fields, depth).None? <==> FieldsComplete(fields, depth)
    decreases fields
  {
    hide Complete, Fault, FieldsComplete;
    if fields == [] {
      assert FieldsComplete(fields, depth) by { NoFields(depth); }
    } else {
      FieldsSplit(fields, depth);
      FaultIff(fields[0].node, depth);
      FieldsFaultIff(fields[1..], depth);
    }
  }

  lemma NoFields(depth: nat)
    ensures FieldsComplete([], depth)
  {
  }

  predicate VariantsComplete(seen: set<u32>, variants: seq<VariantDescriptor>, width: byte, depth: nat) {
    && (forall i | 0 <= i < |variants| :: VariantComplete(variants[i], width, depth))
    && (forall i | 0 <= i < |variants| :: variants[i].discriminant !in seen)
    && Distinct(variants)
  }

  lemma VariantsSplit(seen: set<u32>, variants: seq<VariantDescriptor>, width: byte, depth: nat)
    requires variants != []
    ensures VariantsComplete(seen, variants, width, depth) <==>
              && VariantComplete(variants[0], width, depth) && variants[0].discriminant !in seen
              && VariantsComplete(seen + {variants[0].discriminant}, variants[1..], width, depth)
  {
    hide VariantComplete;
    var rest := variants[1..];
    assert variants == [variants[0]] + rest;
    assert forall i | 0 <= i < |rest| :: rest[i] == variants[i + 1];
    if VariantsComplete(seen + {variants[0].discriminant}, rest, width, depth) {
      forall i, j | 0 <= i < j < |variants| ensures variants[i].discriminant != variants[j].discriminant {
        assert variants[j] == rest[j - 1];
        assert i > 0 ==> variants[i] == rest[i - 1];
      }
    }
  }

  lemma {:induction false} VariantsFaultIff(seen: set<u32>, variants: seq<VariantDescriptor>, width: byte, depth: nat)
    ensures VariantsFault(seen, variants, width, depth).None? <==> VariantsComplete(seen, variants, width, depth)
    decreases variants
  {
    hide VariantsComplete, Complete, Fault;
    if variants == [] {
      assert VariantsComplete(seen, [], width, depth) by { NoVariants(seen, width, depth); }
    } else {
      VariantsSplit(seen, variants, width, depth);
      if variants[0].payload.Some? {
        FaultIff(variants[0].payload.value, depth);
      }
      VariantsFaultIff(seen + {variants[0].discriminant}, variants[1..], width, depth);
    }
  }

  lemma NoVariants(seen: set<u32>, width: byte, depth: nat)
    ensures VariantsComplete(seen, [], width, depth)
  {
  }

  /** A descriptor is complete exactly when the walk meets no violation. */
  lemma {:induction false} FaultIff(node: DescriptorNode, depth: nat)
    ensures Fault(node, depth).None? <==> Complete(node, depth)
    decreases node
  {
    hide VariantComplete, Distinct, FieldsFault, VariantsFault;
    match node {
      case EventVec(inner, _) => FaultIff(inner, depth + 1);
      case OptionOf(inner) => FaultIff(inner, depth + 1);
      case Struct(_, fields) => FieldsFaultIff(fields, depth + 1);
      case Enum(_, width, variants) => VariantsFaultIff({}, variants, width, depth + 1);
      case _ =>
    }
  }

  /** The walk that stops at the first violation names it, and finds none exactly in a
      complete descriptor. */
  method ValidateRecursive(node: DescriptorNode, depth: nat) returns (fault: Option<ValueConstraint>)
    ensures fault == Fault(node, depth)
    ensures fault.None? <==> Complete(node, depth)
    decreases node
  {
    hide Complete, FieldsFault, VariantsFault;
    FaultIff(node, depth);
    if depth > MAX_DESCRIPTOR_DEPTH {
      return Some(TooLong);
    }
    match node {
      case EventString(m) => return if m == 0 then Some(Empty) else None;
      case NonEmptyEventString(m) => return if m == 0 then Some(Empty) else None;
      case EventBytes(m) => return if m == 0 then Some(Empty) else None;
      case EventVec(inner, m) =>
        if m == 0 {
          return Some(Empty);
        }
        fault := ValidateRecursive(inner, depth + 1);
      case OptionOf(inner) => fault := ValidateRecursive(inner, depth + 1);
      case Struct(_, fields) =>
        assert fields[0..] == fields;
        for i := 0 to |fields|
          invariant FieldsFault(fields, depth + 1) == FieldsFault(fields[i..], depth + 1)
        {
          FieldsFaultStep(fields, i, depth + 1);
          if fields[i].name == [] {
            return Some(Empty);
          }
          var inner := ValidateRecursive(fields[i].node, depth + 1);
          if inner.Some? {
            return inner;
          }
        }
        assert fields[|fields|..] == [];
        NothingLeft(depth + 1);
        return None;
      case Enum(_, width, variants) =>
        if variants == [] {
          return Some(Empty);
        }
        if width != 1 && width != 2 {
          return Some(NotReal);
        }
        var seen: set<u32> := {};
        assert variants[0..] == variants;
        for i := 0 to |variants|
          invariant VariantsFault({}, variants, width, depth + 1) == VariantsFault(seen, variants[i..], width, depth + 1)
        {
          VariantsFaultStep(seen, variants, i, width, depth + 1);
          var v := variants[i];
          if v.name == [] {
            return Some(Empty);
          }
          if (width == 1 && v.discriminant > 255) || (width == 2 && v.discriminant > 65535) {
            return Some(TooLong);
          }
          if v.discriminant in seen {
            return Some(NotReal);
          }
          if v.payload.Some? {
            var inner := ValidateRecursive(v.payload.value, depth + 1);
            if inner.Some? {
              return inner;
            }
          }
          seen := seen + {v.discriminant};
        }
        assert variants[|variants|..] == [];
        NoVariantLeft(seen, width, depth + 1);
        return None;
      case _ => return None;
    }
  }

  lemma FieldsFaultStep(fields: seq<FieldDescriptor>, i: nat, depth: nat)
    requires i < |fields|
    ensures FieldsFault(fields[i..], depth)
         == if fields[i].name == [] then Some(Empty)
            else if Fault(fields[i].node, depth).Some? then Fault(fields[i].node, depth)
            else FieldsFault(fields[i + 1..], depth)
  {
    hide Fault;
    assert fields[i..][0] == fields[i] && fields[i..][1..] == fields[i + 1..];
  }

  lemma NothingLeft(depth: nat)
    ensures FieldsFault([], depth).None?
  {
  }

  lemma NoVariantLeft(seen: set<u32>, width: byte, depth: nat)
    ensures VariantsFault(seen, [], width, depth).None?
  {
  }

  lemma VariantsFaultStep(seen: set<u32>, variants: seq<VariantDescriptor>, i: nat, width: byte, depth: nat)
    requires i < |variants|
    ensures var v := variants[i];
            VariantsFault(seen, variants[i..], width, depth) ==
              if VariantFault(seen, v, width, depth).Some? then VariantFault(seen, v, width, depth)
              else VariantsFault(seen + {v.discriminant}, variants[i + 1..], width, depth)
  {
    hide VariantFault;
    assert variants[i..][0] == variants[i] && variants[i..][1..] == variants[i + 1..];
  }

  datatype SchemaDescriptor = SchemaDescriptor(version: u32, root: DescriptorNode)

  datatype AdmittedDescriptor =
    AdmittedDescriptor(descriptor: SchemaDescriptor, encodedRecord: Bytes, identity: Digest)

  datatype AdmissionError = MissingSchemaDescriptor | Incomplete(constraint: ValueConstraint) | RecordTooLong

  /** The wire record of a descriptor: record tag 0x09, version, tree. */
  function RecordOf(version: u32, tree: Bytes): Bytes {
    [0x09] + (Le(version, 4) + tree)
  }

  predicate Admissible(d: SchemaDescriptor) {
    && d.version != 0
    && Complete(d.root, 0)
    && Encode(d.root, 0).Ok?
    && |RecordOf(d.version, Encode(d.root, 0).value)| <= MAX_DESCRIPTOR_RECORD_BYTES
  }

  /** A descriptor is admitted exactly when it is complete, encodable and its record fits in
      64 KiB; the length is known before a byte is encoded, and encoding then cannot fail. */
  method TryFromDescriptor(d: SchemaDescriptor) returns (r: Result<AdmittedDescriptor, AdmissionError>)
    ensures r.Ok? <==> Admissible(d)
    ensures r.Ok? ==>
              && r.value.descriptor == d
              && r.value.encodedRecord == RecordOf(d.version, Encode(d.root, 0).value)
              && r.value.identity == Blake3(Le(d.version, 4) + Encode(d.root, 0).value)
    ensures r == Err(MissingSchemaDescriptor) <==> d.version == 0
    ensures d.version != 0 && !Complete(d.root, 0) ==>
              Fault(d.root, 0).Some? && r == Err(Incomplete(Fault(d.root, 0).value))
    ensures d.version != 0 && Complete(d.root, 0) && r.Err? ==> r.error == RecordTooLong
  {
    if d.version == 0 {
      return Err(MissingSchemaDescriptor);
    }
    var fault := ValidateRecursive(d.root, 0);
    if fault.Some? {
      return Err(Incomplete(fault.value));
    }
    var len := EncodedLenRecursive(d.root, 0);
    if len.Err? || 1 + 4 + len.value > MAX_DESCRIPTOR_RECORD_BYTES {
      return Err(RecordTooLong);
    }
    var buf := new Buffer();
    var encoded := EncodeRecursive(d.root, buf, 0);
    if encoded.Err? {
      return Err(RecordTooLong);
    }
    assert buf.bytes == Encode(d.root, 0).value;
    var record := RecordOf(d.version, buf.bytes);
    HeadTail(0x09, Le(d.version, 4) + buf.bytes);
    return Ok(AdmittedDescriptor(d, record, Blake3(record[1..])));
  }

  lemma {:induction false} CompleteFieldsHaveValidWidths(fields: seq<FieldDescriptor>, depth: nat)
    requires forall i | 0 <= i < |fields| :: Complete(fields[i].node, depth)
    ensures FieldWidthsValid(fields)
    decreases fields
  {
    if fields != [] {
      CompleteHasValidWidths(fields[0].node, depth);
      CompleteFieldsHaveValidWidths(fields[1..], depth);
    }
  }

  lemma {:induction false} CompleteVariantsHaveValidWidths(variants: seq<VariantDescriptor>, width: byte, depth: nat)
    requires forall i | 0 <= i < |variants| :: VariantComplete(variants[i], width, depth)
    ensures VariantWidthsValid(variants)
    decreases variants
  {
    if variants != [] {
      assert VariantComplete(variants[0], width, depth);
      if variants[0].payload.Some? {
        CompleteHasValidWidths(variants[0].payload.value, depth);
      }
      CompleteVariantsHaveValidWidths(variants[1..], width, depth);
    }
  }

  lemma {:induction false} CompleteHasValidWidths(node: DescriptorNode, depth: nat)
    requires Complete(node, depth)
    ensures WidthsValid(node)
    decreases node
  {
    match node {
      case EventVec(inner, _) => CompleteHasValidWidths(inner, depth + 1);
      case OptionOf(inner) => CompleteHasValidWidths(inner, depth + 1);
      case Struct(_, fields) => CompleteFieldsHaveValidWidths(fields, depth + 1);
      case Enum(_, width, variants) => CompleteVariantsHaveValidWidths(variants, width, depth + 1);
      case _ =>
    }
  }

  /** `r` fails, if at all, because a name or a count does not fit four bytes. */
  predicate FailsOnLength(r: Result<Bytes, EncodeError>) {
    r.Err? ==> r.error == WireLengthOverflow
  }

  lemma {:induction false} CompleteFieldsEncode(fields: seq<FieldDescriptor>, depth: nat)
    requires forall i | 0 <= i < |fields| :: Complete(fields[i].node, depth)
    requires 0 < depth <= MAX_DESCRIPTOR_DEPTH + 1
    ensures depth - 1 + FieldNesting(fields) <= MAX_DESCRIPTOR_DEPTH && FailsOnLength(EncodeFields(fields, depth))
    decreases fields
  {
    hide Le, Nesting, Encode, Complete;
    if fields != [] {
      CompleteEncodes(fields[0].node, depth);
      CompleteFieldsEncode(fields[1..], depth);
    }
  }

  lemma {:induction false} CompletePayloadEncodes(p: Option<DescriptorNode>, depth: nat)
    requires p.Some? ==> Complete(p.value, depth)
    requires 0 < depth <= MAX_DESCRIPTOR_DEPTH + 1
    ensures depth - 1 + PayloadNesting(p) <= MAX_DESCRIPTOR_DEPTH && FailsOnLength(EncodePayload(p, depth))
    decreases p
  {
    hide Nesting, Encode, Complete;
    if p.Some? {
      CompleteEncodes(p.value, depth);
    }
  }

  lemma {:induction false} CompleteVariantsEncode(variants: seq<VariantDescriptor>, width: byte, depth: nat)
    requires width in {1, 2} && forall i | 0 <= i < |variants| :: VariantComplete(variants[i], width, depth)
    requires 0 < depth <= MAX_DESCRIPTOR_DEPTH + 1
    ensures depth - 1 + VariantNesting(variants) <= MAX_DESCRIPTOR_DEPTH
    ensures FailsOnLength(EncodeVariants(variants, width, depth))
    decreases variants
  {
    hide Le, Complete, EncodePayload, PayloadNesting;
    if variants != [] {
      assert VariantComplete(variants[0], width, depth);
      CompletePayloadEncodes(variants[0].payload, depth);
      CompleteVariantsEncode(variants[1..], width, depth);
    }
  }

  lemma {:induction false} CompleteEncodes(node: DescriptorNode, depth: nat)
    requires Complete(node, depth)
    ensures depth + Nesting(node) <= MAX_DESCRIPTOR_DEPTH && FailsOnLength(Encode(node, depth))
    decreases node
  {
    hide Le, EncodeFields, EncodeVariants, FieldNesting, VariantNesting, VariantComplete, Distinct;
    match node {
      case EventVec(inner, _) => CompleteEncodes(inner, depth + 1);
      case OptionOf(inner) => CompleteEncodes(inner, depth + 1);
      case Struct(_, fields) => CompleteFieldsEncode(fields, depth + 1);
      case Enum(_, width, variants) => CompleteVariantsEncode(variants, width, depth + 1);
      case _ =>
    }
  }

  /** Completeness leaves a single reason not to encode, a name or count beyond four bytes, so
      admission is decided by the version, completeness, the sizes and the record's length. */
  lemma AdmissibleIff(d: SchemaDescriptor)
    ensures Complete(d.root, 0) ==> Encode(d.root, 0).Ok? || Encode(d.root, 0) == Err(WireLengthOverflow)
    ensures Complete(d.root, 0) ==> (Encode(d.root, 0).Ok? <==> SizesFit(d.root))
    ensures Admissible(d) <==>
              && d.version != 0 && Complete(d.root, 0) && SizesFit(d.root)
              && (Encode(d.root, 0).Ok? ==> 5 + |Encode(d.root, 0).value| <= MAX_DESCRIPTOR_RECORD_BYTES)
  {
    hide Encode, Complete, SizesFit, Nesting;
    EncodesIff(d.root, 0);
    if Complete(d.root, 0) {
      CompleteEncodes(d.root, 0);
    }
  }

  /** The record of an admitted descriptor reads back as that descriptor, so two admitted
      descriptors with the same record are the same descriptor. */
  lemma AdmittedRecordReadsBack(d: SchemaDescriptor)
    requires Admissible(d)
    ensures var record := RecordOf(d.version, Encode(d.root, 0).value);
            && |record| >= 5 && record[0] == 0x09
            && TakeU32(record[1..]) == Ok((d.version, Encode(d.root, 0).value))
            && Parse(0, record[5..]) == Ok((d.root, []))
  {
    var tree := Encode(d.root, 0).value;
    var record := RecordOf(d.version, tree);
    HeadTail(0x09, Le(d.version, 4) + tree);
    TakeU32Exact(record[1..], d.version, tree);
    assert record[5..] == tree;
    CompleteHasValidWidths(d.root, 0);
    ParseOfEncode(d.root, 0, []);
    assert tree + [] == tree;
  }

  // ---- Which violation comes first ----

  /** In a struct, the first field that is unnamed or has a violation of its own decides. */
  lemma {:induction false} FirstFieldFault(fields: seq<FieldDescriptor>, i: nat, depth: nat)
    requires i < |fields| && FieldsComplete(fields[..i], depth)
    ensures FieldsFault(fields, depth)
         == if fields[i].name == [] then Some(Empty)
            else if Fault(fields[i].node, depth).Some? then Fault(fields[i].node, depth)
            else FieldsFault(fields[i + 1..], depth)
    decreases i
  {
    hide Fault, Complete;
    FieldsFaultStep(fields, 0, depth);
    assert fields[0..] == fields;
    if i > 0 {
      assert fields[..i][0] == fields[0] && fields[..i][1..] == fields[1..][..i - 1];
      FieldsSplit(fields[..i], depth);
      FaultIff(fields[0].node, depth);
      FirstFieldFault(fields[1..], i - 1, depth);
      assert fields[1..][i..] == fields[i + 1..];
    }
  }

  function DiscriminantsOf(variants: seq<VariantDescriptor>): set<u32> {
    set i | 0 <= i < |variants| :: variants[i].discriminant
  }

  /** In an enum, the first variant that is unnamed, out of range, repeated or has a violation
      in its payload decides, in this order. */
  lemma {:induction false} FirstVariantFault(seen: set<u32>, variants: seq<VariantDescriptor>, i: nat, width: byte, depth: nat)
    requires i < |variants| && VariantsComplete(seen, variants[..i], width, depth)
    ensures var v := variants[i];
            VariantsFault(seen, variants, width, depth) ==
              if v.name == [] then Some(Empty)
              else if v.discriminant > (if width == 1 then 255 else 65535) then Some(TooLong)
              else if v.discriminant in seen + DiscriminantsOf(variants[..i]) then Some(NotReal)
              else if v.payload.Some? && Fault(v.payload.value, depth).Some? then Fault(v.payload.value, depth)
              else VariantsFault(seen + DiscriminantsOf(variants[..i + 1]), variants[i + 1..], width, depth)
    decreases i
  {
    hide Fault, Complete, VariantsComplete;
    VariantsFaultStep(seen, variants, 0, width, depth);
    assert variants[0..] == variants;
    if i == 0 {
      assert DiscriminantsOf(variants[..0]) == {};
      assert variants[..1] == [variants[0]] && DiscriminantsOf(variants[..1]) == {variants[0].discriminant};
    } else {
      var first, rest := variants[0], variants[1..];
      assert variants[..i][0] == first && variants[..i][1..] == rest[..i - 1];
      VariantsSplit(seen, variants[..i], width, depth);
      if first.payload.Some? {
        FaultIff(first.payload.value, depth);
      }
      FirstVariantFault(seen + {first.discriminant}, rest, i - 1, width, depth);
      assert rest[i..] == variants[i + 1..];
      DiscriminantsSplit(first, rest[..i - 1]);
      DiscriminantsSplit(first, rest[..i]);
      assert variants[..i] == [first] + rest[..i - 1] && variants[..i + 1] == [first] + rest[..i];
      assert seen + {first.discriminant} + DiscriminantsOf(rest[..i - 1]) == seen + DiscriminantsOf(variants[..i]);
      assert seen + {first.discriminant} + DiscriminantsOf(rest[..i]) == seen + DiscriminantsOf(variants[..i + 1]);
    }
  }

  lemma DiscriminantsSplit(v: VariantDescriptor, variants: seq<VariantDescriptor>)
    ensures DiscriminantsOf([v] + variants) == {v.discriminant} + DiscriminantsOf(variants)
  {
    var all := [v] + variants;
    assert all[0] == v;
    forall d | d in DiscriminantsOf(variants) ensures d in DiscriminantsOf(all) {
      var i :| 0 <= i < |variants| && variants[i].discriminant == d;
      assert all[i + 1] == variants[i];
    }
    forall d | d in DiscriminantsOf(all) ensures d in {v.discriminant} + DiscriminantsOf(variants) {
      var i :| 0 <= i < |all| && all[i].discriminant == d;
      assert i > 0 ==> all[i] == variants[i - 1];
    }
  }

  /** Depth is too long, a zero bound or an enum without variants is empty, a width other than
      one or two is not real; otherwise the parts decide. */
  lemma NodeFault(node: DescriptorNode, depth: nat)
    ensures depth > MAX_DESCRIPTOR_DEPTH ==> Fault(node, depth) == Some(TooLong)
    ensures depth <= MAX_DESCRIPTOR_DEPTH ==>
              && (node.EventString? || node.NonEmptyEventString? || node.EventBytes? ==>
                    Fault(node, depth) == if node.maxBytes == 0 then Some(Empty) else None)
              && (node.EventVec? && node.maxItems == 0 ==> Fault(node, depth) == Some(Empty))
              && (node.EventVec? && node.maxItems > 0 ==> Fault(node, depth) == Fault(node.inner, depth + 1))
              && (node.OptionOf? ==> Fault(node, depth) == Fault(node.inner, depth + 1))
              && (node.Struct? ==> Fault(node, depth) == FieldsFault(node.fields, depth + 1))
              && (node.Enum? && node.variants == [] ==> Fault(node, depth) == Some(Empty))
              && (node.Enum? && node.variants != [] && node.discriminantWidth !in {1, 2} ==>
                    Fault(node, depth) == Some(NotReal))
              && (node.Enum? && node.variants != [] && node.discriminantWidth in {1, 2} ==>
                    Fault(node, depth) == VariantsFault({}, node.variants, node.discriminantWidth, depth + 1))
  {
    hide FieldsFault, VariantsFault;
  }
}
