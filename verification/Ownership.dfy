/** The nine ownership records and their wire format
    (crates/pardosa/src/encoding.rs:1012-1665). */
module Ownership {
  import opened Wire

  datatype PartitioningRule =
    | StaticModulo(totalDraglines: u32)
    | ConsistentHash(hashSeed: u64, virtualNodeCount: u32)

  datatype MigrationStatus = Complete | Interrupted

  datatype OwnershipClaim = OwnershipClaim(
    epoch: u64, machineId: Id, bootId: Id, processId: u64, processStart: u64, claimTime: u64, operatorLabel: Str)

  datatype OwnershipRecord =
    | Claim(claim: OwnershipClaim)
    | CleanRelease(epoch: u64, releaseTime: u64)
    | MigrationStart(source: u32, target: u32, startTime: u64, rescuePolicyTag: byte)
    | MigrationEnd(source: u32, target: u32, endTime: u64, status: MigrationStatus)
    | InboundPointer(priorLocator: Id, priorEpoch: u64)
    | OutboundPointer(nextLocator: Id, cutoverEpoch: u64)
    | RescuePolicyChoice(policyTag: byte, parameters: Bytes)
    | IdentityStructure(datasetId: Id, structureVersion: u32, draglineId: u32, rule: PartitioningRule)
    | SchemaRecord(version: u32, tree: Bytes)

  /** Lengths the encoder can write; anything longer panics. */
  predicate Encodable(rec: OwnershipRecord) {
    match rec
    case Claim(c) => |c.operatorLabel| <= U32_MAX
    case RescuePolicyChoice(_, p) => |p| <= U32_MAX
    case _ => true
  }

  // ---- Encoding: the bytes of a record followed by `r` ----

  function Text(t: Bytes, r: Bytes): Bytes {
    Le(|t|, 4) + (t + r)
  }

  function ClaimThen(c: OwnershipClaim, r: Bytes): Bytes {
    Le(c.epoch, 8) + (c.machineId + (c.bootId + (Le(c.processId, 8) + (Le(c.processStart, 8)
    + (Le(c.claimTime, 8) + Text(c.operatorLabel, r))))))
  }

  function StatusByte(s: MigrationStatus): byte {
    if s == Complete then 0x01 else 0x02
  }

  function RuleThen(rule: PartitioningRule, r: Bytes): Bytes {
    match rule
    case StaticModulo(n) => [0x01] + Text(Le(n, 4), r)
    case ConsistentHash(seed, n) => [0x02] + Text(Le(seed, 8) + Le(n, 4), r)
  }

  function EncodeThen(rec: OwnershipRecord, r: Bytes): Bytes {
    match rec
    case Claim(c) => [0x01] + ClaimThen(c, r)
    case CleanRelease(e, t) => [0x02] + (Le(e, 8) + (Le(t, 8) + r))
    case MigrationStart(s, t, at, tag) => [0x03] + (Le(s, 4) + (Le(t, 4) + (Le(at, 8) + ([tag] + r))))
    case MigrationEnd(s, t, at, st) => [0x04] + (Le(s, 4) + (Le(t, 4) + (Le(at, 8) + ([StatusByte(st)] + r))))
    case InboundPointer(id, e) => [0x05] + (id + (Le(e, 8) + r))
    case OutboundPointer(id, e) => [0x06] + (id + (Le(e, 8) + r))
    case RescuePolicyChoice(tag, p) => [0x07] + ([tag] + Text(p, r))
    case IdentityStructure(id, v, d, rule) => [0x08] + (id + (Le(v, 4) + (Le(d, 4) + RuleThen(rule, r))))
    case SchemaRecord(v, tree) => [0x09] + (Le(v, 4) + (tree + r))
  }

  function EncodeRecord(rec: OwnershipRecord): Bytes {
    EncodeThen(rec, [])
  }

  // ---- Decoding ----

  function TakeU64(s: Bytes): Parsed<u64> {
    if |s| < 8 then Err(TruncatedPayload) else Widths(); Ok((FromLe(s[..8]), s[8..]))
  }

  function TakeId(s: Bytes): Parsed<Id> {
    if |s| < 16 then Err(TruncatedPayload) else Ok((s[..16], s[16..]))
  }

  function TakeByte(s: Bytes): Parsed<byte> {
    if s == [] then Err(TruncatedPayload) else Ok((s[0], s[1..]))
  }

  function ParseClaim(s: Bytes): Parsed<OwnershipClaim> {
    var (epoch, r) :- TakeU64(s);
    var (machine, r) :- TakeId(r);
    var (boot, r) :- TakeId(r);
    var (pid, r) :- TakeU64(r);
    var (start, r) :- TakeU64(r);
    var (time, r) :- TakeU64(r);
    var (text, r) :- TakeText(r);
    Ok((OwnershipClaim(epoch, machine, boot, pid, start, time, text), r))
  }

  /** Parameters longer than a rule needs are accepted and dropped. */
  function ParseRule(s: Bytes): Parsed<PartitioningRule> {
    var (tag, r) :- TakeByte(s);
    var (n, r) :- TakeU32(r);
    var (p, r) :- Take(n, r);
    if tag == 0x01 then
      var (total, _) :- TakeU32(p);
      Ok((StaticModulo(total), r))
    else if tag == 0x02 then
      if |p| < 12 then Err(TruncatedPayload) else
      var (seed, q) :- TakeU64(p);
      var (nodes, _) :- TakeU32(q);
      Ok((ConsistentHash(seed, nodes), r))
    else Err(UnknownPartitioningRuleTag)
  }

  function ParseStatus(s: Bytes): Parsed<MigrationStatus> {
    var (b, r) :- TakeByte(s);
    if b == 0x01 then Ok((Complete, r)) else if b == 0x02 then Ok((Interrupted, r)) else Err(InvalidMigrationStatus)
  }

  function ParseSpan(s: Bytes): Parsed<(u32, u32, u64)> {
    var (source, r) :- TakeU32(s);
    var (target, r) :- TakeU32(r);
    var (time, r) :- TakeU64(r);
    Ok(((source, target, time), r))
  }

  function ParsePointer(s: Bytes): Parsed<(Id, u64)> {
    var (id, r) :- TakeId(s);
    var (epoch, r) :- TakeU64(r);
    Ok(((id, epoch), r))
  }

  function ParseBody(tag: byte, s: Bytes): Parsed<OwnershipRecord> {
    match tag
    case 0x01 => var (c, r) :- ParseClaim(s); Ok((Claim(c), r))
    case 0x02 =>
      var (epoch, r) :- TakeU64(s);
      var (time, r) :- TakeU64(r);
      Ok((CleanRelease(epoch, time), r))
    case 0x03 =>
      var (x, r) :- ParseSpan(s);
      var (b, r) :- TakeByte(r);
      Ok((MigrationStart(x.0, x.1, x.2, b), r))
    case 0x04 =>
      var (x, r) :- ParseSpan(s);
      var (status, r) :- ParseStatus(r);
      Ok((MigrationEnd(x.0, x.1, x.2, status), r))
    case 0x05 => var (x, r) :- ParsePointer(s); Ok((InboundPointer(x.0, x.1), r))
    case 0x06 => var (x, r) :- ParsePointer(s); Ok((OutboundPointer(x.0, x.1), r))
    case 0x07 =>
      var (b, r) :- TakeByte(s);
      var (n, r) :- TakeU32(r);
      var (p, r) :- Take(n, r);
      Ok((RescuePolicyChoice(b, p), r))
    case 0x08 =>
      var (id, r) :- TakeId(s);
      var (version, r) :- TakeU32(r);
      var (dragline, r) :- TakeU32(r);
      var (rule, r) :- ParseRule(r);
      Ok((IdentityStructure(id, version, dragline, rule), r))
    // A schema record runs to the end of its frame.
    case 0x09 => var (version, r) :- TakeU32(s); Ok((SchemaRecord(version, r), []))
    case _ => Err(UnknownRecordTag)
  }

  function ParseRecord(s: Bytes): Parsed<OwnershipRecord> {
    if s == [] then Err(TruncatedPayload) else ParseBody(s[0], s[1..])
  }

  // ---- Round trip ----

  lemma TakeU64Exact(s: Bytes, n: u64, r: Bytes)
    ensures TakeU64(s) == Ok((n, r)) <==> s == Le(n, 8) + r
  {
    Widths();
    TakeLeExact(8, s, n, r);
  }

  lemma TakeIdExact(s: Bytes, id: Id, r: Bytes)
    ensures TakeId(s) == Ok((id, r)) <==> s == id + r
  {
    TakeExact(16, s, id, r);
  }

  lemma TakeByteExact(s: Bytes, b: byte, r: Bytes)
    ensures TakeByte(s) == Ok((b, r)) <==> s == [b] + r
  {
  }

  lemma ParseOfClaim(c: OwnershipClaim, r: Bytes)
    requires |c.operatorLabel| <= U32_MAX
    ensures ParseClaim(ClaimThen(c, r)) == Ok((c, r))
  {
    hide TakeU64, TakeId, TakeText, Le;
    var e := Text(c.operatorLabel, r);
    Assoc3(Le(|c.operatorLabel|, 4), c.operatorLabel, r);
    TakeTextExact(e, c.operatorLabel, r);
    var d := Le(c.claimTime, 8) + e;
    TakeU64Exact(d, c.claimTime, e);
    var b := Le(c.processStart, 8) + d;
    TakeU64Exact(b, c.processStart, d);
    var a := Le(c.processId, 8) + b;
    TakeU64Exact(a, c.processId, b);
    TakeIdExact(c.bootId + a, c.bootId, a);
    TakeIdExact(c.machineId + (c.bootId + a), c.machineId, c.bootId + a);
    TakeU64Exact(ClaimThen(c, r), c.epoch, c.machineId + (c.bootId + a));
  }

  lemma ParseOfRule(rule: PartitioningRule, r: Bytes)
    ensures ParseRule(RuleThen(rule, r)) == Ok((rule, r))
  {
    hide Le, ParseRule;
    assert RuleParameters(rule) + [] == RuleParameters(rule);
    ParameterOfWith(rule, [], r);
  }

  lemma ParseOfSpan(s: u32, t: u32, at: u64, r: Bytes)
    ensures ParseSpan(Le(s, 4) + (Le(t, 4) + (Le(at, 8) + r))) == Ok(((s, t, at), r))
  {
    hide TakeU64, TakeU32, Le;
    TakeU64Exact(Le(at, 8) + r, at, r);
    TakeU32Exact(Le(t, 4) + (Le(at, 8) + r), t, Le(at, 8) + r);
    TakeU32Exact(Le(s, 4) + (Le(t, 4) + (Le(at, 8) + r)), s, Le(t, 4) + (Le(at, 8) + r));
  }

  lemma ParseOfPointer(id: Id, epoch: u64, r: Bytes)
    ensures ParsePointer(id + (Le(epoch, 8) + r)) == Ok(((id, epoch), r))
  {
    hide TakeU64, TakeId, Le;
    TakeU64Exact(Le(epoch, 8) + r, epoch, r);
    TakeIdExact(id + (Le(epoch, 8) + r), id, Le(epoch, 8) + r);
  }

  /** Every record reads back from its encoding, whatever follows; a schema record, which has
      no length of its own, reads back when nothing follows. */
  lemma ParseOfRecord(rec: OwnershipRecord, r: Bytes)
    requires Encodable(rec) && (rec.SchemaRecord? ==> r == [])
    ensures ParseRecord(EncodeThen(rec, r)) == Ok((rec, r))
  {
    hide TakeU64, TakeId, TakeU32, TakeByte, Take, Le, ParseClaim, ParseRule, ParseSpan, ParsePointer, ClaimThen, RuleThen;
    var e := EncodeThen(rec, r);
    match rec {
      case Claim(c) => HeadTail(0x01, ClaimThen(c, r)); ParseOfClaim(c, r);
      case CleanRelease(x, t) =>
        HeadTail(0x02, Le(x, 8) + (Le(t, 8) + r));
        TakeU64Exact(e[1..], x, Le(t, 8) + r);
        TakeU64Exact(Le(t, 8) + r, t, r);
      case MigrationStart(s, t, at, tag) =>
        HeadTail(0x03, Le(s, 4) + (Le(t, 4) + (Le(at, 8) + ([tag] + r))));
        ParseOfSpan(s, t, at, [tag] + r);
        TakeByteExact([tag] + r, tag, r);
      case MigrationEnd(s, t, at, st) =>
        HeadTail(0x04, Le(s, 4) + (Le(t, 4) + (Le(at, 8) + ([StatusByte(st)] + r))));
        ParseOfSpan(s, t, at, [StatusByte(st)] + r);
        TakeByteExact([StatusByte(st)] + r, StatusByte(st), r);
      case InboundPointer(id, x) => HeadTail(0x05, id + (Le(x, 8) + r)); ParseOfPointer(id, x, r);
      case OutboundPointer(id, x) => HeadTail(0x06, id + (Le(x, 8) + r)); ParseOfPointer(id, x, r);
      case RescuePolicyChoice(tag, p) =>
        HeadTail(0x07, [tag] + Text(p, r));
        TakeByteExact([tag] + Text(p, r), tag, Text(p, r));
        TakeU32Exact(Text(p, r), |p|, p + r);
        TakeExact(|p|, p + r, p, r);
      case IdentityStructure(id, v, d, rule) =>
        var t := RuleThen(rule, r);
        HeadTail(0x08, id + (Le(v, 4) + (Le(d, 4) + t)));
        TakeIdExact(e[1..], id, Le(v, 4) + (Le(d, 4) + t));
        TakeU32Exact(Le(v, 4) + (Le(d, 4) + t), v, Le(d, 4) + t);
        TakeU32Exact(Le(d, 4) + t, d, t);
        ParseOfRule(rule, r);
      case SchemaRecord(v, tree) =>
        HeadTail(0x09, Le(v, 4) + (tree + r));
        assert tree + [] == tree;
        TakeU32Exact(e[1..], v, tree);
    }
  }

  // ---- Canonicity ----

  lemma PointerOfParse(s: Bytes)
    requires ParsePointer(s).Ok?
    ensures var (x, r) := ParsePointer(s).value; s == x.0 + (Le(x.1, 8) + r)
  {
    var (x, r) := ParsePointer(s).value;
    var (id, q) := TakeId(s).value;
    TakeIdExact(s, id, q);
    TakeU64Exact(q, x.1, r);
  }

  lemma SpanOfParse(s: Bytes)
    requires ParseSpan(s).Ok?
    ensures var (x, r) := ParseSpan(s).value; s == Le(x.0, 4) + (Le(x.1, 4) + (Le(x.2, 8) + r))
  {
    hide Le, FromLe;
    var (x, r) := ParseSpan(s).value;
    var (_, q0) := TakeU32(s).value;
    var (_, q1) := TakeU32(q0).value;
    TakeU32Exact(s, x.0, q0);
    TakeU32Exact(q0, x.1, q1);
    TakeU64Exact(q1, x.2, r);
  }

  lemma ClaimOfParse(s: Bytes)
    requires ParseClaim(s).Ok?
    ensures var (c, r) := ParseClaim(s).value; |c.operatorLabel| <= U32_MAX && s == ClaimThen(c, r)
  {
    hide Le, FromLe, TakeU64, TakeId, TakeText;
    var (c, r) := ParseClaim(s).value;
    var (_, q0) := TakeU64(s).value;
    var (_, q1) := TakeId(q0).value;
    var (_, q2) := TakeId(q1).value;
    var (_, q3) := TakeU64(q2).value;
    var (_, q4) := TakeU64(q3).value;
    var (_, q5) := TakeU64(q4).value;
    TakeU64Exact(s, c.epoch, q0);
    TakeIdExact(q0, c.machineId, q1);
    TakeIdExact(q1, c.bootId, q2);
    TakeU64Exact(q2, c.processId, q3);
    TakeU64Exact(q3, c.processStart, q4);
    TakeU64Exact(q4, c.claimTime, q5);
    var (text, q6) := TakeText(q5).value;
    TakeTextExact(q5, text, q6);
    Assoc3(Le(|c.operatorLabel|, 4), c.operatorLabel, r);
    assert q5 == Text(c.operatorLabel, r);
    assert q2 == Le(c.processId, 8) + (Le(c.processStart, 8) + (Le(c.claimTime, 8) + q5));
  }

  lemma StatusOfParse(s: Bytes)
    requires ParseStatus(s).Ok?
    ensures var (st, r) := ParseStatus(s).value; s == [StatusByte(st)] + r
  {
  }

  /** What the decoder can have read: the whole encoding of the record and what follows. */
  predicate ReadFrom(s: Bytes, rec: OwnershipRecord, r: Bytes) {
    Encodable(rec) && (rec.SchemaRecord? ==> r == []) && s == EncodeThen(rec, r)
  }

  lemma BodyOfParse(tag: byte, s: Bytes)
    requires ParseBody(tag, s).Ok? && tag != 0x08
    ensures var (rec, r) := ParseBody(tag, s).value; ReadFrom([tag] + s, rec, r)
  {
    hide Le, FromLe, TakeU64, TakeU32, Take, TakeByte, ParseClaim, ParseSpan, ParsePointer, ParseStatus, ClaimThen, StatusByte;
    var (rec, r) := ParseBody(tag, s).value;
    match tag {
      case 0x01 => ClaimOfParse(s);
      case 0x02 =>
        var (epoch, q0) := TakeU64(s).value;
        var (time, q1) := TakeU64(q0).value;
        TakeU64Exact(s, epoch, q0);
        TakeU64Exact(q0, time, q1);
      case 0x03 =>
        SpanOfParse(s);
        var (b, q) := TakeByte(ParseSpan(s).value.1).value;
        TakeByteExact(ParseSpan(s).value.1, b, q);
      case 0x04 =>
        SpanOfParse(s);
        StatusOfParse(ParseSpan(s).value.1);
      case 0x05 => PointerOfParse(s);
      case 0x06 => PointerOfParse(s);
      case 0x07 =>
        var (b, q0) := TakeByte(s).value;
        var (n, q1) := TakeU32(q0).value;
        TakeByteExact(s, b, q0);
        TakeU32Exact(q0, n, q1);
        var (p, q2) := Take(n, q1).value;
        TakeExact(n, q1, p, q2);
      case 0x09 =>
        var (version, tree) := TakeU32(s).value;
        TakeU32Exact(s, version, tree);
        assert tree + [] == tree;
      case _ => assert false;
    }
  }

  /** The records without a partitioning rule are canonical: each is read from its encoding
      and from nothing else. */
  lemma RecordExact(s: Bytes, rec: OwnershipRecord, r: Bytes)
    requires !rec.IdentityStructure?
    ensures ParseRecord(s) == Ok((rec, r)) <==> ReadFrom(s, rec, r)
  {
    hide ParseBody, EncodeThen, Encodable;
    if ParseRecord(s) == Ok((rec, r)) {
      IdentityHasItsTag(s);
      BodyOfParse(s[0], s[1..]);
      assert s == [s[0]] + s[1..];
    }
    if ReadFrom(s, rec, r) {
      ParseOfRecord(rec, r);
    }
  }

  lemma IdentityHasItsTag(s: Bytes)
    requires ParseRecord(s).Ok?
    ensures s[0] == 0x08 <==> ParseRecord(s).value.0.IdentityStructure?
  {
    hide TakeU64, TakeId, TakeU32, Take, ParseClaim, ParseSpan, ParsePointer, ParseStatus, ParseRule;
  }

  // ---- Identity structures, which are not canonical ----

  function RuleTag(rule: PartitioningRule): byte {
    if rule.StaticModulo? then 0x01 else 0x02
  }

  /** The parameters a rule needs: 4 bytes for a modulo, 12 for a consistent hash. */
  function RuleParameters(rule: PartitioningRule): (p: Bytes)
    ensures |p| == if rule.StaticModulo? then 4 else 12
  {
    match rule
    case StaticModulo(n) => Le(n, 4)
    case ConsistentHash(seed, n) => Le(seed, 8) + Le(n, 4)
  }

  /** A rule whose parameters are followed by `extra` bytes. */
  function RuleWith(rule: PartitioningRule, extra: Bytes, r: Bytes): Bytes {
    [RuleTag(rule)] + Text(RuleParameters(rule) + extra, r)
  }

  lemma ParameterOfWith(rule: PartitioningRule, extra: Bytes, r: Bytes)
    requires |RuleParameters(rule)| + |extra| <= U32_MAX
    ensures ParseRule(RuleWith(rule, extra, r)) == Ok((rule, r))
  {
    hide TakeU64, TakeU32, TakeByte, Take, Le;
    var p := RuleParameters(rule) + extra;
    TakeByteExact(RuleWith(rule, extra, r), RuleTag(rule), Text(p, r));
    TakeU32Exact(Text(p, r), |p|, p + r);
    TakeExact(|p|, p + r, p, r);
    match rule {
      case StaticModulo(n) => TakeU32Exact(p, n, extra);
      case ConsistentHash(seed, n) =>
        Assoc3(Le(seed, 8), Le(n, 4), extra);
        TakeU64Exact(p, seed, Le(n, 4) + extra);
        TakeU32Exact(Le(n, 4) + extra, n, extra);
    }
  }

  /** What follows the parameters a rule needs within those it declares. */
  lemma RuleOfParse(s: Bytes) returns (extra: Bytes)
    requires ParseRule(s).Ok?
    ensures var (rule, r) := ParseRule(s).value;
            |RuleParameters(rule)| + |extra| <= U32_MAX && s == RuleWith(rule, extra, r)
  {
    hide TakeU64, TakeU32, TakeByte, Take, Le, FromLe;
    var (rule, r) := ParseRule(s).value;
    var (tag, q) := TakeByte(s).value;
    var (n, q1) := TakeU32(q).value;
    var (p, q2) := Take(n, q1).value;
    TakeByteExact(s, tag, q);
    TakeU32Exact(q, n, q1);
    TakeExact(n, q1, p, q2);
    if tag == 0x01 {
      var (total, e) := TakeU32(p).value;
      TakeU32Exact(p, total, e);
      extra := e;
    } else {
      var (seed, p1) := TakeU64(p).value;
      var (nodes, e) := TakeU32(p1).value;
      TakeU64Exact(p, seed, p1);
      TakeU32Exact(p1, nodes, e);
      Assoc3(Le(seed, 8), Le(nodes, 4), e);
      extra := e;
    }
  }

  /** An identity structure whose rule carries `extra` bytes too many. */
  function IdentityWith(rec: OwnershipRecord, extra: Bytes, r: Bytes): Bytes
    requires rec.IdentityStructure?
  {
    [0x08] + (rec.datasetId + (Le(rec.structureVersion, 4) + (Le(rec.draglineId, 4) + RuleWith(rec.rule, extra, r))))
  }

  predicate IdentityReads(s: Bytes, rec: OwnershipRecord, extra: Bytes, r: Bytes)
    requires rec.IdentityStructure?
  {
    |RuleParameters(rec.rule)| + |extra| <= U32_MAX && s == IdentityWith(rec, extra, r)
  }

  lemma IdentityOfWith(rec: OwnershipRecord, extra: Bytes, r: Bytes)
    requires rec.IdentityStructure? && |RuleParameters(rec.rule)| + |extra| <= U32_MAX
    ensures ParseRecord(IdentityWith(rec, extra, r)) == Ok((rec, r))
  {
    hide TakeId, TakeU32, ParseRule, RuleWith, Le;
    var t := RuleWith(rec.rule, extra, r);
    var d := Le(rec.draglineId, 4) + t;
    var v := Le(rec.structureVersion, 4) + d;
    ParameterOfWith(rec.rule, extra, r);
    HeadTail(0x08, rec.datasetId + v);
    TakeIdExact(rec.datasetId + v, rec.datasetId, v);
    TakeU32Exact(v, rec.structureVersion, d);
    TakeU32Exact(d, rec.draglineId, t);
  }

  lemma IdentityOfParse(s: Bytes) returns (extra: Bytes)
    requires ParseRecord(s).Ok? && ParseRecord(s).value.0.IdentityStructure?
    ensures var (rec, r) := ParseRecord(s).value; IdentityReads(s, rec, extra, r)
  {
    hide TakeId, TakeU32, ParseRule, RuleWith, Le, FromLe, RuleParameters;
    IdentityHasItsTag(s);
    assert s == [s[0]] + s[1..];
    var (id, q) := TakeId(s[1..]).value;
    var (v, q1) := TakeU32(q).value;
    var (d, q2) := TakeU32(q1).value;
    var (rule, r) := ParseRule(q2).value;
    TakeIdExact(s[1..], id, q);
    TakeU32Exact(q, v, q1);
    TakeU32Exact(q1, d, q2);
    extra := RuleOfParse(q2);
  }

  /** Exactly what reads as an identity structure: its encoding, with any bytes after the
      parameters its rule needs, as long as the declared length counts them. */
  lemma IdentityExact(s: Bytes, rec: OwnershipRecord, r: Bytes)
    requires rec.IdentityStructure?
    ensures ParseRecord(s) == Ok((rec, r)) <==> exists extra :: IdentityReads(s, rec, extra, r)
  {
    hide ParseRecord, IdentityWith, RuleParameters;
    if ParseRecord(s) == Ok((rec, r)) {
      var extra := IdentityOfParse(s);
    }
    if exists extra :: IdentityReads(s, rec, extra, r) {
      var extra :| IdentityReads(s, rec, extra, r);
      IdentityOfWith(rec, extra, r);
    }
  }

  /** The parameter length an identity structure declares, behind tag, dataset, version,
      dragline and rule tag. */
  function DeclaredLength(s: Bytes): nat
    requires |s| >= 30
  {
    TakeU32(s[26..]).value.0
  }

  lemma LengthOfWith(rec: OwnershipRecord, extra: Bytes, r: Bytes)
    requires rec.IdentityStructure? && |RuleParameters(rec.rule)| + |extra| <= U32_MAX
    ensures var s := IdentityWith(rec, extra, r);
            && |s| >= 30 && DeclaredLength(s) == |RuleParameters(rec.rule)| + |extra|
            && |s| == 30 + |RuleParameters(rec.rule)| + |extra| + |r|
  {
    hide TakeU32, Le, RuleParameters;
    var p := RuleParameters(rec.rule) + extra;
    var front := [0x08] + (rec.datasetId + (Le(rec.structureVersion, 4) + (Le(rec.draglineId, 4) + [RuleTag(rec.rule)])));
    var s := IdentityWith(rec, extra, r);
    assert s == front + (Le(|p|, 4) + (p + r));
    assert |front| == 26 && s[26..] == Le(|p|, 4) + (p + r);
    TakeU32Exact(s[26..], |p|, p + r);
  }

  lemma IdentityEncoding(rec: OwnershipRecord, r: Bytes)
    requires rec.IdentityStructure?
    ensures IdentityWith(rec, [], r) == EncodeThen(rec, r)
  {
    hide Le, Text;
    assert RuleParameters(rec.rule) + [] == RuleParameters(rec.rule);
  }

  /** An accepted identity structure is the encoding of what it reads as exactly when it
      declares the length its rule needs: 4 for a modulo, 12 for a consistent hash. */
  lemma IdentityCanonicalIff(s: Bytes, rec: OwnershipRecord, r: Bytes)
    requires ParseRecord(s) == Ok((rec, r)) && rec.IdentityStructure?
    ensures |s| >= 30
    ensures s == EncodeThen(rec, r) <==> DeclaredLength(s) == if rec.rule.StaticModulo? then 4 else 12
  {
    hide ParseRecord, EncodeThen, IdentityWith, DeclaredLength;
    var extra := IdentityOfParse(s);
    LengthOfWith(rec, extra, r);
    LengthOfWith(rec, [], r);
    IdentityEncoding(rec, r);
  }

  /** So every identity structure, whatever its rule, also reads from an input that is not its
      encoding. */
  lemma IdentityIsNotCanonical(rec: OwnershipRecord, r: Bytes)
    requires rec.IdentityStructure?
    ensures exists s :: ParseRecord(s) == Ok((rec, r)) && s != EncodeThen(rec, r)
  {
    hide ParseRecord, EncodeThen, IdentityWith, DeclaredLength;
    var s := IdentityWith(rec, [0x00], r);
    IdentityOfWith(rec, [0x00], r);
    LengthOfWith(rec, [0x00], r);
    IdentityCanonicalIff(s, rec, r);
  }

  /** An outbound pointer is recognised from its bytes alone, so nothing else can be read as
      the record that retires a store. */
  lemma OutboundExact(s: Bytes, id: Id, epoch: u64, r: Bytes)
    ensures ParseRecord(s) == Ok((OutboundPointer(id, epoch), r)) <==> s == EncodeThen(OutboundPointer(id, epoch), r)
  {
    hide ParseRecord, EncodeThen;
    RecordExact(s, OutboundPointer(id, epoch), r);
  }

  // ---- The tags on the wire ----

  /** The first byte of each record. */
  function WireTag(rec: OwnershipRecord): byte {
    match rec
    case Claim(_) => 0x01
    case CleanRelease(_, _) => 0x02
    case MigrationStart(_, _, _, _) => 0x03
    case MigrationEnd(_, _, _, _) => 0x04
    case InboundPointer(_, _) => 0x05
    case OutboundPointer(_, _) => 0x06
    case RescuePolicyChoice(_, _) => 0x07
    case IdentityStructure(_, _, _, _) => 0x08
    case SchemaRecord(_, _) => 0x09
  }

  /** The tag is what the encoder writes first and what alone decides which record is read; a
      migration that completed ends in 1, one that was interrupted in 2. */
  lemma TagDecides(s: Bytes, rec: OwnershipRecord, r: Bytes)
    ensures EncodeThen(rec, r)[0] == WireTag(rec)
    ensures ParseRecord(s).Ok? ==> s != [] && s[0] == WireTag(ParseRecord(s).value.0)
    ensures rec.MigrationEnd? ==>
              |EncodeThen(rec, r)| == 18 + |r| && EncodeThen(rec, r)[17] == if rec.status == Complete then 0x01 else 0x02
    ensures RuleWith(StaticModulo(0), [], r)[0] == 0x01 && RuleWith(ConsistentHash(0, 0), [], r)[0] == 0x02
  {
    hide Le, TakeU64, TakeU32, TakeByte, TakeId, Take, ParseClaim, ParseSpan, ParsePointer, ParseStatus, ParseRule, Text;
  }

  /** How bytes that hold no record are refused. */
  lemma RecordRefusals(s: Bytes, source: u32, target: u32, time: u64, b: byte)
    ensures ParseRecord([]) == Err(TruncatedPayload)
    ensures s != [] && (s[0] == 0 || s[0] > 0x09) ==> ParseRecord(s) == Err(UnknownRecordTag)
    ensures b !in {0x01, 0x02} ==>
              ParseRecord([0x04] + (Le(source, 4) + (Le(target, 4) + (Le(time, 8) + [b])))) == Err(InvalidMigrationStatus)
  {
    hide Le, TakeU64, TakeU32, TakeByte, ParseSpan, ParseClaim, ParsePointer, ParseRule;
    HeadTail(0x04, Le(source, 4) + (Le(target, 4) + (Le(time, 8) + [b])));
    ParseOfSpan(source, target, time, [b]);
    TakeByteExact([b], b, []);
    assert [b] + [] == [b];
  }
}
