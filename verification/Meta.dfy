/** The ownership file: a container of ownership records, folded into one summary
    (crates/pardosa/src/file.rs:468-591, 607-662, 1226-1263, 1613-1648). */
module Meta {
  import opened Wire
  import opened Container
  import opened Ownership
  import opened Admission
  import Descriptor

  datatype MetaRecords = MetaRecords(
    latestClaim: Option<OwnershipClaim>,
    schema: Option<SchemaDescriptor>,
    outbound: Option<OwnershipRecord>,
    inbound: Option<OwnershipRecord>,
    migrationStart: Option<OwnershipRecord>,
    migrationEnd: Option<OwnershipRecord>,
    rescuePolicy: Option<OwnershipRecord>)

  const NoRecords: MetaRecords := MetaRecords(None, None, None, None, None, None, None)

  /** Every way of failing to read the file is the same condition. */
  datatype MetaError = OwnershipRecordUnreadable

  function FoldSchema(m: MetaRecords, version: u32, tree: Bytes): Result<MetaRecords, MetaError> {
    match Descriptor.Parse(0, tree)
    case Err(_) => Err(OwnershipRecordUnreadable)
    case Ok((root, r)) =>
      var d := SchemaDescriptor(version, root);
      if r != [] || (m.schema.Some? && m.schema.value != d) then Err(OwnershipRecordUnreadable)
      else Ok(m.(schema := Some(d)))
  }

  function FoldRecord(m: MetaRecords, rec: OwnershipRecord): Result<MetaRecords, MetaError> {
    match rec
    case Claim(c) => Ok(m.(latestClaim := Some(c)))
    case SchemaRecord(v, tree) => FoldSchema(m, v, tree)
    case OutboundPointer(_, _) => Ok(m.(outbound := Some(rec)))
    case InboundPointer(_, _) => Ok(m.(inbound := Some(rec)))
    case MigrationStart(_, _, _, _) => Ok(m.(migrationStart := Some(rec)))
    case MigrationEnd(_, _, _, _) => Ok(m.(migrationEnd := Some(rec)))
    case RescuePolicyChoice(_, _) => Ok(m.(rescuePolicy := Some(rec)))
    case CleanRelease(_, _) => Ok(m)
    case IdentityStructure(_, _, _, _) => Ok(m)
  }

  function FoldFrame(m: MetaRecords, p: Payload): Result<MetaRecords, MetaError> {
    match ParseRecord(p)
    case Err(_) => Err(OwnershipRecordUnreadable)
    case Ok((rec, r)) => if r != [] then Err(OwnershipRecordUnreadable) else FoldRecord(m, rec)
  }

  function FoldFrames(m: MetaRecords, ps: seq<Payload>): Result<MetaRecords, MetaError>
    decreases |ps|
  {
    if ps == [] then Ok(m) else
    var m' :- FoldFrame(m, ps[0]);
    FoldFrames(m', ps[1..])
  }

  /** A missing file has no records; a torn or unreadable one has no reading at all. */
  function ReadMeta(file: Option<Bytes>): Result<MetaRecords, MetaError> {
    if file.None? then Ok(NoRecords) else
    match ScanFile(file.value)
    case Err(_) => Err(OwnershipRecordUnreadable)
    case Ok(scan) => if scan.tail != [] then Err(OwnershipRecordUnreadable) else FoldFrames(NoRecords, scan.frames)
  }

  method ReadMetaRecords(file: Option<Bytes>) returns (r: Result<MetaRecords, MetaError>)
    ensures r == ReadMeta(file)
  {
    if file.None? {
      return Ok(NoRecords);
    }
    var scan := ReadContainerFrames(file.value);
    if scan.Err? || scan.value.2 != 0 {
      return Err(OwnershipRecordUnreadable);
    }
    var frames, records := scan.value.0, NoRecords;
    assert frames[0..] == frames;
    for i := 0 to |frames|
      invariant FoldFrames(NoRecords, frames) == FoldFrames(records, frames[i..])
    {
      assert frames[i..][0] == frames[i] && frames[i..][1..] == frames[i + 1..];
      var next := ParseRecord(frames[i]);
      if next.Err? || next.value.1 != [] {
        return Err(OwnershipRecordUnreadable);
      }
      var folded := FoldRecord(records, next.value.0);
      if folded.Err? {
        return folded;
      }
      records := folded.value;
    }
    return Ok(records);
  }

  /** Appending a record writes one frame at the end of the file. */
  function WithRecord(file: Bytes, rec: OwnershipRecord): Bytes
    requires |EncodeRecord(rec)| <= U32_MAX
  {
    file + Frame(EncodeRecord(rec))
  }

  // ---- The fold over what is appended ----

  lemma {:induction false} FoldAppend(m: MetaRecords, ps: seq<Payload>, qs: seq<Payload>)
    ensures FoldFrames(m, ps + qs) ==
              match FoldFrames(m, ps) case Ok(n) => FoldFrames(n, qs) case Err(e) => Err(e)
    decreases |ps|
  {
    hide FoldFrame;
    if ps == [] {
      assert ps + qs == qs;
    } else {
      assert (ps + qs)[0] == ps[0] && (ps + qs)[1..] == ps[1..] + qs;
      if FoldFrame(m, ps[0]).Ok? {
        FoldAppend(FoldFrame(m, ps[0]).value, ps[1..], qs);
      }
    }
  }

  /** Reading a clean file with more bytes appended either fails, or goes on folding from
      where the clean file left off. */
  lemma ReadAppended(ps: seq<Payload>, more: Bytes)
    ensures var r := ReadMeta(Some(File(ps) + more));
            r.Ok? ==> && FoldFrames(NoRecords, ps).Ok? && ScanFrames(more).Ok?
                      && r == FoldFrames(FoldFrames(NoRecords, ps).value, ScanFrames(more).value.frames)
  {
    hide HeaderBytes, Frames, FoldFrames;
    Assoc3(HeaderBytes(), Frames(ps), more);
    HeaderExact(File(ps) + more, Frames(ps) + more);
    ScanAppend(ps, more);
    if ScanFrames(more).Ok? {
      FoldAppend(NoRecords, ps, ScanFrames(more).value.frames);
    }
  }

  lemma ReadableIsClean(file: Bytes)
    requires ReadMeta(Some(file)).Ok?
    ensures var ps := ScanFile(file).value.frames; file == File(ps) && ReadMeta(Some(file)) == FoldFrames(NoRecords, ps)
  {
    var scan := ScanFile(file).value;
    ScanFileExact(file, scan.frames, []);
    assert File(scan.frames) + [] == File(scan.frames);
  }

  /** Exactly which ownership files read: a missing one, as empty, and a container of whole
      frames whose records fold; a torn one never does. */
  lemma ReadableIff(file: Bytes)
    ensures ReadMeta(None) == Ok(NoRecords)
    ensures ReadMeta(Some(file)).Ok? <==> exists ps :: file == File(ps) && FoldFrames(NoRecords, ps).Ok?
  {
    hide FoldFrames, ScanFile, File;
    if ReadMeta(Some(file)).Ok? {
      ReadableIsClean(file);
    }
    if exists ps :: file == File(ps) && FoldFrames(NoRecords, ps).Ok? {
      var ps :| file == File(ps) && FoldFrames(NoRecords, ps).Ok?;
      CleanFileScans(ps);
    }
  }

  /** Every frame of a readable file is one record and nothing else. */
  lemma {:induction false} FramesAreRecords(m: MetaRecords, ps: seq<Payload>)
    requires FoldFrames(m, ps).Ok?
    ensures forall i | 0 <= i < |ps| :: ParseRecord(ps[i]).Ok? && ParseRecord(ps[i]).value.1 == []
    decreases |ps|
  {
    hide ParseRecord, FoldRecord;
    if ps != [] {
      FramesAreRecords(FoldFrame(m, ps[0]).value, ps[1..]);
      assert forall i | 0 < i < |ps| :: ps[i] == ps[1..][i - 1];
    }
  }

  /** A frame that reads as an outbound pointer. */
  predicate Retires(p: Payload) {
    ParseRecord(p).Ok? && ParseRecord(p).value.0.OutboundPointer?
  }

  /** A readable file says "retired" exactly when one of its records is an outbound pointer:
      no other record sets the mark and none takes it back. */
  lemma {:induction false} RetiredIffRecorded(m: MetaRecords, ps: seq<Payload>)
    requires FoldFrames(m, ps).Ok?
    ensures FoldFrames(m, ps).value.outbound.Some? <==> m.outbound.Some? || AnyRetires(ps)
    decreases |ps|
  {
    hide FoldFrame, Retires;
    if ps != [] {
      FrameRetires(m, ps[0]);
      RetiredIffRecorded(FoldFrame(m, ps[0]).value, ps[1..]);
      assert ps == [ps[0]] + ps[1..];
    }
  }

  predicate AnyRetires(ps: seq<Payload>) {
    exists i :: 0 <= i < |ps| && Retires(ps[i])
  }

  lemma FrameRetires(m: MetaRecords, p: Payload)
    requires FoldFrame(m, p).Ok?
    ensures FoldFrame(m, p).value.outbound.Some? <==> m.outbound.Some? || Retires(p)
  {
    hide ParseRecord;
  }

  /** Retirement is permanent and fails closed: whatever bytes are appended to a retired
      ownership file, more records, a conflicting descriptor or a torn frame, it reads as
      retired or does not read. */
  lemma RetirementIsPermanent(file: Bytes, more: Bytes)
    requires ReadMeta(Some(file)).Ok? && ReadMeta(Some(file)).value.outbound.Some?
    ensures var r := ReadMeta(Some(file + more)); r.Err? || r.value.outbound.Some?
  {
    hide FoldFrames, ScanFrames;
    ReadableIsClean(file);
    var ps := ScanFile(file).value.frames;
    ReadAppended(ps, more);
    if ReadMeta(Some(file + more)).Ok? {
      RetiredIffRecorded(FoldFrames(NoRecords, ps).value, ScanFrames(more).value.frames);
    }
  }

  /** The last claim appended is the one that counts. */
  lemma AppendedClaimCounts(file: Bytes, c: OwnershipClaim)
    requires ReadMeta(Some(file)).Ok? && |EncodeRecord(Claim(c))| <= U32_MAX && Encodable(Claim(c))
    ensures ReadMeta(Some(WithRecord(file, Claim(c))))
         == Ok(ReadMeta(Some(file)).value.(latestClaim := Some(c)))
  {
    hide EncodeRecord;
    ReadableIsClean(file);
    var ps, p: Payload := ScanFile(file).value.frames, EncodeRecord(Claim(c));
    FileSnoc(ps, p);
    CleanFileScans(ps + [p]);
    FoldAppend(NoRecords, ps, [p]);
    FoldOne(FoldFrames(NoRecords, ps).value, Claim(c));
  }

  lemma FoldOne(m: MetaRecords, rec: OwnershipRecord)
    requires Encodable(rec) && |EncodeRecord(rec)| <= U32_MAX
    ensures FoldFrames(m, [EncodeRecord(rec)]) == FoldRecord(m, rec)
  {
    hide EncodeThen, ParseRecord, FoldRecord;
    ParseOfRecord(rec, []);
    assert [EncodeRecord(rec)][1..] == [];
    assert FoldFrame(m, EncodeRecord(rec)) == FoldRecord(m, rec);
    if FoldRecord(m, rec).Ok? {
      assert FoldFrames(FoldRecord(m, rec).value, []) == FoldRecord(m, rec);
    }
  }

  // ---- Which records count ----

  /** The descriptor a frame reads as, if it is a schema record that reads. */
  function DescriptorIn(p: Payload): Option<SchemaDescriptor> {
    match ParseRecord(p)
    case Err(_) => None
    case Ok((rec, _)) =>
      if !rec.SchemaRecord? then None else
      match Descriptor.Parse(0, rec.tree)
      case Err(_) => None
      case Ok((root, r)) => if r == [] then Some(SchemaDescriptor(rec.version, root)) else None
  }

  predicate IsSchema(p: Payload) {
    ParseRecord(p).Ok? && ParseRecord(p).value.0.SchemaRecord?
  }

  predicate AllSay(ps: seq<Payload>, d: SchemaDescriptor) {
    forall i | 0 <= i < |ps| && IsSchema(ps[i]) :: DescriptorIn(ps[i]) == Some(d)
  }

  predicate AnySchema(ps: seq<Payload>) {
    exists i :: 0 <= i < |ps| && IsSchema(ps[i])
  }

  lemma SchemaOfFrame(m: MetaRecords, p: Payload)
    requires FoldFrame(m, p).Ok?
    ensures var n := FoldFrame(m, p).value;
            if IsSchema(p) then n.schema.Some? && n.schema == DescriptorIn(p) && (m.schema.None? || m.schema == n.schema)
            else n.schema == m.schema
  {
    hide ParseRecord, Descriptor.Parse;
  }

  lemma SaySplit(ps: seq<Payload>, d: SchemaDescriptor)
    requires ps != []
    ensures AllSay(ps, d) <==> (IsSchema(ps[0]) ==> DescriptorIn(ps[0]) == Some(d)) && AllSay(ps[1..], d)
    ensures AnySchema(ps) <==> IsSchema(ps[0]) || AnySchema(ps[1..])
  {
    hide IsSchema, DescriptorIn;
    var rest := ps[1..];
    assert forall i | 0 <= i < |rest| :: rest[i] == ps[i + 1];
    if AnySchema(ps) && !IsSchema(ps[0]) {
      var i :| 0 <= i < |ps| && IsSchema(ps[i]);
      assert rest[i - 1] == ps[i];
    }
    if AllSay(ps, d) {
      forall i | 0 <= i < |rest| && IsSchema(rest[i]) ensures DescriptorIn(rest[i]) == Some(d) {
        assert rest[i] == ps[i + 1];
      }
    }
    if AllSay(rest, d) {
      forall i | 0 < i < |ps| && IsSchema(ps[i]) ensures DescriptorIn(ps[i]) == Some(d) {
        assert rest[i - 1] == ps[i];
      }
    }
  }

  /** A readable file has one descriptor however many schema records it holds: all of them say
      the same, and a file where two differ does not read. */
  lemma {:induction false} OneDescriptor(m: MetaRecords, ps: seq<Payload>, d: SchemaDescriptor)
    requires FoldFrames(m, ps).Ok?
    ensures FoldFrames(m, ps).value.schema == Some(d) <==>
              (m.schema == Some(d) || (m.schema.None? && AnySchema(ps))) && AllSay(ps, d)
    ensures m.schema.Some? ==> FoldFrames(m, ps).value.schema == m.schema
    decreases |ps|
  {
    hide FoldFrame, IsSchema, DescriptorIn, AllSay, AnySchema;
    if ps == [] {
      assert AllSay(ps, d) && !AnySchema(ps) by { NoFrames(d); }
    } else {
      SchemaOfFrame(m, ps[0]);
      SaySplit(ps, d);
      OneDescriptor(FoldFrame(m, ps[0]).value, ps[1..], d);
    }
  }

  lemma NoFrames(d: SchemaDescriptor)
    ensures AllSay([], d) && !AnySchema([])
  {
  }

  lemma SchemaIffRecorded(file: Bytes, d: SchemaDescriptor)
    requires ReadMeta(Some(file)).Ok?
    ensures ScanFile(file).Ok?
    ensures var ps := ScanFile(file).value.frames;
            ReadMeta(Some(file)).value.schema == Some(d) <==> AnySchema(ps) && AllSay(ps, d)
  {
    hide FoldFrames, ScanFile, AnySchema, AllSay;
    ReadableIsClean(file);
    OneDescriptor(NoRecords, ScanFile(file).value.frames, d);
  }

  /** The descriptor a store was created with stays: whatever bytes are appended to its
      ownership file, it has that descriptor or does not read. */
  lemma DescriptorIsPermanent(file: Bytes, more: Bytes, d: SchemaDescriptor)
    requires ReadMeta(Some(file)).Ok? && ReadMeta(Some(file)).value.schema == Some(d)
    ensures var r := ReadMeta(Some(file + more)); r.Err? || r.value.schema == Some(d)
  {
    hide FoldFrames, ScanFrames, AnySchema, AllSay;
    ReadableIsClean(file);
    var ps := ScanFile(file).value.frames;
    ReadAppended(ps, more);
    if ReadMeta(Some(file + more)).Ok? {
      OneDescriptor(FoldFrames(NoRecords, ps).value, ScanFrames(more).value.frames, d);
    }
  }

  /** A second, different descriptor makes the file unreadable. */
  lemma ConflictFails(file: Bytes, d: SchemaDescriptor, p: Payload)
    requires ReadMeta(Some(file)).Ok? && ReadMeta(Some(file)).value.schema == Some(d)
    requires IsSchema(p) && DescriptorIn(p) != Some(d)
    ensures ReadMeta(Some(file + Frame(p))) == Err(OwnershipRecordUnreadable)
  {
    hide FoldFrames, FoldFrame, ScanFile, IsSchema, DescriptorIn, Frame;
    ReadableIsClean(file);
    var ps := ScanFile(file).value.frames;
    FileSnoc(ps, p);
    CleanFileScans(ps + [p]);
    FoldAppend(NoRecords, ps, [p]);
    var m := FoldFrames(NoRecords, ps).value;
    if FoldFrames(m, [p]).Ok? {
      FirstOfFold(m, p);
      SchemaOfFrame(m, p);
      assert false;
    }
    assert FoldFrames(NoRecords, ps + [p]) == FoldFrames(m, [p]);
    assert FoldFrames(m, [p]).error == OwnershipRecordUnreadable;
  }

  lemma FirstOfFold(m: MetaRecords, p: Payload)
    requires FoldFrames(m, [p]).Ok?
    ensures FoldFrame(m, p).Ok?
  {
  }

  /** The last record in `ps` that starts with this wire tag. */
  function LastTagged(ps: seq<Payload>, tag: byte): Option<OwnershipRecord> {
    if ps == [] then None else
    var p := ps[|ps| - 1];
    if p != [] && p[0] == tag && ParseRecord(p).Ok? then Some(ParseRecord(p).value.0)
    else LastTagged(ps[..|ps| - 1], tag)
  }

  function Latest(ps: seq<Payload>, tag: byte, before: Option<OwnershipRecord>): Option<OwnershipRecord> {
    if LastTagged(ps, tag).Some? then LastTagged(ps, tag) else before
  }

  function ClaimRecorded(m: MetaRecords): Option<OwnershipRecord> {
    if m.latestClaim.Some? then Some(Claim(m.latestClaim.value)) else None
  }

  /** Every slot but the schema's holds the latest record of its kind. */
  predicate HoldsLatest(m: MetaRecords, n: MetaRecords, ps: seq<Payload>) {
    && ClaimRecorded(n) == Latest(ps, 0x01, ClaimRecorded(m))
    && n.migrationStart == Latest(ps, 0x03, m.migrationStart)
    && n.migrationEnd == Latest(ps, 0x04, m.migrationEnd)
    && n.inbound == Latest(ps, 0x05, m.inbound)
    && n.outbound == Latest(ps, 0x06, m.outbound)
    && n.rescuePolicy == Latest(ps, 0x07, m.rescuePolicy)
  }

  lemma LatestOfOne(m: MetaRecords, p: Payload)
    requires FoldFrame(m, p).Ok?
    ensures HoldsLatest(m, FoldFrame(m, p).value, [p])
  {
    hide ParseClaim, ParseSpan, ParsePointer, ParseStatus, ParseRule, TakeU64, TakeU32, TakeByte, TakeId, Take, Descriptor.Parse;
    assert [p][..0] == [];
    forall tag ensures LastTagged([p], tag) == if p[0] == tag then Some(ParseRecord(p).value.0) else None {
    }
  }

  lemma {:induction false} LatestSplit(p: Payload, ps: seq<Payload>, tag: byte, before: Option<OwnershipRecord>)
    ensures Latest([p] + ps, tag, before) == Latest(ps, tag, Latest([p], tag, before))
    decreases |ps|
  {
    hide ParseRecord;
    if ps == [] {
      assert [p] + ps == [p];
    } else {
      var all := [p] + ps;
      assert all[..|all| - 1] == [p] + ps[..|ps| - 1];
      LatestSplit(p, ps[..|ps| - 1], tag, before);
    }
  }

  /** Reading the ownership file keeps, of each kind of record, the latest. */
  lemma {:induction false} LatestCounts(m: MetaRecords, ps: seq<Payload>)
    requires FoldFrames(m, ps).Ok?
    ensures HoldsLatest(m, FoldFrames(m, ps).value, ps)
    decreases |ps|
  {
    hide FoldFrame, Latest;
    if ps == [] {
      NoneLater(m);
    } else {
      var n := FoldFrame(m, ps[0]).value;
      LatestOfOne(m, ps[0]);
      LatestCounts(n, ps[1..]);
      assert ps == [ps[0]] + ps[1..];
      forall tag: byte, before: Option<OwnershipRecord>
        ensures Latest(ps, tag, before) == Latest(ps[1..], tag, Latest([ps[0]], tag, before))
      {
        LatestSplit(ps[0], ps[1..], tag, before);
      }
    }
  }

  lemma NoneLater(m: MetaRecords)
    ensures HoldsLatest(m, m, [])
  {
  }
}
