/** Creating a store on files, and what a crash at any byte of it leaves
    (crates/pardosa/src/file.rs:811-1004, 1130-1355, crates/pardosa/src/store.rs:1813-1824). */
module FileCreate {
  import opened Wire
  import opened Container
  import opened Ownership
  import opened Admission
  import opened Meta
  import FileEngine
  import Descriptor

  /** The two components of an artefact, each present or not. */
  datatype Artefact = Artefact(meta: Option<Bytes>, data: Option<Bytes>)

  datatype CreateError = StoreAlreadyExists | ClaimTooLong | Interrupted

  datatype OpenError =
    | NoArtefactExists
    | OwnershipUnestablished
    | DataPresent
    | MissingSchema
    | Refused(failure: FileEngine.Failure)

  /** What a writer session starts from. */
  datatype Opened = Opened(claim: OwnershipClaim, schema: SchemaDescriptor, frames: seq<Payload>)

  // ---- Opening, whatever is present ----

  /** Creation left unfinished is completed only for the claim that is on record. */
  function CompleteCreation(a: Artefact, claim: OwnershipClaim): Result<Opened, OpenError> {
    if a.data.Some? then Err(DataPresent)
    else if a.meta.None? then Err(NoArtefactExists)
    else match ReadMeta(a.meta)
         case Err(_) => Err(Refused(FileEngine.Unreadable))
         case Ok(m) =>
           if m.schema.None? || !Admissible(m.schema.value) then Err(MissingSchema)
           else if m.latestClaim.None? then Err(Refused(FileEngine.MissingClaim))
           else if m.latestClaim.value != claim then Err(OwnershipUnestablished)
           else Ok(Opened(claim, m.schema.value, []))
  }

  /** What completion takes: the ownership file alone, readable, with an admissible descriptor,
      and the supplied claim as its latest. */
  predicate Completable(a: Artefact, claim: OwnershipClaim) {
    && a.meta.Some? && a.data.None? && ReadMeta(a.meta).Ok?
    && var m := ReadMeta(a.meta).value;
       m.schema.Some? && Admissible(m.schema.value) && m.latestClaim == Some(claim)
  }

  /** An outbound pointer plays no part: completion does not look for one. */
  lemma CompletionIff(a: Artefact, claim: OwnershipClaim)
    ensures CompleteCreation(a, claim).Ok? <==> Completable(a, claim)
    ensures Completable(a, claim) ==>
              CompleteCreation(a, claim) == Ok(Opened(claim, ReadMeta(a.meta).value.schema.value, []))
    ensures CompleteCreation(a, claim) == Err(DataPresent) <==> a.data.Some?
    ensures CompleteCreation(a, claim) == Err(NoArtefactExists) <==> a.data.None? && a.meta.None?
    ensures CompleteCreation(a, claim) == Err(OwnershipUnestablished) ==>
              ReadMeta(a.meta).Ok? && ReadMeta(a.meta).value.latestClaim != Some(claim)
  {
    hide ReadMeta, Admissible;
  }

  function OpenMetaOnly(a: Artefact, epoch: nat): Result<Opened, OpenError> {
    match ReadMeta(a.meta)
    case Err(_) => Err(Refused(FileEngine.Unreadable))
    case Ok(m) =>
      if m.outbound.Some? then Err(Refused(FileEngine.RetiredMigrationSource))
      else if m.latestClaim.None? then Err(OwnershipUnestablished)
      else if m.latestClaim.value.epoch != epoch then Err(Refused(FileEngine.StaleEpoch))
      else CompleteCreation(a, m.latestClaim.value)
  }

  function OpenBoth(a: Artefact, epoch: nat): Result<Opened, OpenError>
    requires a.data.Some?
  {
    var d := FileEngine.Settled(a.data.value);
    var r := FileEngine.OpenWrite(d, a.meta, epoch, FileEngine.OpenSucceeds).1;
    if r.Err? then Err(Refused(r.error)) else
    var m := ReadMeta(a.meta).value;
    Ok(Opened(m.latestClaim.value, m.schema.value, ScanFile(a.data.value).value.frames))
  }

  function OpenWrite(a: Artefact, epoch: nat): Result<Opened, OpenError> {
    match (a.meta, a.data)
    case (None, None) => Err(NoArtefactExists)
    case (None, Some(_)) => Err(OwnershipUnestablished)
    case (Some(_), None) => OpenMetaOnly(a, epoch)
    case (Some(_), Some(_)) => OpenBoth(a, epoch)
  }

  /** Exactly which artefacts open, and to what: with both files present, the ownership file
      must give authority and the data file scan; with the ownership file alone, it must be
      readable, not retired, with a latest claim of the carried epoch and an admissible
      descriptor. Nothing else opens. */
  lemma OpenWriteIff(a: Artefact, epoch: nat)
    ensures OpenWrite(a, epoch).Ok? <==>
              && a.meta.Some? && ReadMeta(a.meta).Ok?
              && (var m := ReadMeta(a.meta).value;
                  && m.outbound.None? && m.schema.Some? && Admissible(m.schema.value)
                  && m.latestClaim.Some? && m.latestClaim.value.epoch == epoch)
              && (a.data.Some? ==> ScanFile(a.data.value).Ok?)
    ensures OpenWrite(a, epoch).Ok? ==>
              var m := ReadMeta(a.meta).value;
              OpenWrite(a, epoch).value == Opened(m.latestClaim.value, m.schema.value,
                                                  if a.data.Some? then ScanFile(a.data.value).value.frames else [])
    ensures a.meta.None? ==>
              OpenWrite(a, epoch) == Err(if a.data.None? then NoArtefactExists else OwnershipUnestablished)
  {
    hide ReadMeta, Admissible, ScanFile;
    FileEngine.OpenAuthorityIff(a.meta, epoch);
  }

  /** The artefact after an attempt to open it: completed, cut to its whole frames, or as it was. */
  function AfterOpen(a: Artefact, epoch: nat): Artefact {
    if OpenWrite(a, epoch).Err? then a
    else if a.data.None? then a.(data := Some(HeaderBytes()))
    else
      var scan := ScanFile(a.data.value).value;
      FileEngine.TailWithin(a.data.value);
      a.(data := Some(a.data.value[..|a.data.value| - |scan.tail|]))
  }

  /** Opening settles a store: opening it again, with the same epoch, gives the same session
      start and changes nothing more. */
  lemma ReopenIsStable(a: Artefact, epoch: nat)
    requires OpenWrite(a, epoch).Ok?
    ensures OpenWrite(AfterOpen(a, epoch), epoch) == OpenWrite(a, epoch)
    ensures AfterOpen(AfterOpen(a, epoch), epoch) == AfterOpen(a, epoch)
  {
    hide ReadMeta, Admissible, ScanFile;
    if a.data.None? {
      HeaderScans();
      assert HeaderBytes()[..12] == HeaderBytes();
    } else {
      CutTailScans(a.data.value);
      var cut := AfterOpen(a, epoch).data.value;
      assert cut[..|cut|] == cut;
    }
  }

  lemma HeaderScans()
    ensures ScanFile(HeaderBytes()) == Ok(Scan([], []))
  {
    hide ScanFile, HeaderBytes;
    assert HeaderBytes() + [] == HeaderBytes();
    CleanFileScans([]);
  }

  // ---- Creating ----

  /** The claim fits a frame. */
  predicate ClaimFits(c: OwnershipClaim) {
    69 + |c.operatorLabel| <= U32_MAX
  }

  lemma ClaimLength(c: OwnershipClaim)
    ensures |EncodeRecord(Claim(c))| == 69 + |c.operatorLabel|
  {
  }

  predicate Creatable(c: OwnershipClaim, d: SchemaDescriptor) {
    ClaimFits(c) && Admissible(d)
  }

  function DescriptorRecord(d: SchemaDescriptor): (b: Payload)
    requires Admissible(d)
  {
    RecordOf(d.version, Descriptor.Encode(d.root, 0).value)
  }

  function ClaimRecord(c: OwnershipClaim): (b: Payload)
    requires ClaimFits(c)
  {
    ClaimLength(c);
    EncodeRecord(Claim(c))
  }

  /** The complete ownership file of a new store. */
  function InitialMeta(c: OwnershipClaim, d: SchemaDescriptor): Bytes
    requires Creatable(c, d)
  {
    File([ClaimRecord(c), DescriptorRecord(d)])
  }

  /** Where creation stops: before it starts, with `n` bytes of the ownership file, or, that
      file being complete and synced, with `n` bytes of the data file. */
  datatype Point = Nowhere | InMeta(n: nat) | InData(n: nat)

  predicate PointFits(x: Point, c: OwnershipClaim, d: SchemaDescriptor)
    requires Creatable(c, d)
  {
    match x
    case Nowhere => true
    case InMeta(n) => n <= |InitialMeta(c, d)|
    case InData(n) => n <= 12
  }

  function LeftAt(x: Point, c: OwnershipClaim, d: SchemaDescriptor): Artefact
    requires Creatable(c, d) && PointFits(x, c, d)
  {
    match x
    case Nowhere => Artefact(None, None)
    case InMeta(n) => Artefact(Some(InitialMeta(c, d)[..n]), None)
    case InData(n) => Artefact(Some(InitialMeta(c, d)), Some(HeaderBytes()[..n]))
  }

  class Directory {
    var meta: Option<Bytes>
    var data: Option<Bytes>

    constructor ()
      ensures meta.None? && data.None?
    {
      meta, data := None, None;
    }

    ghost function Contents(): Artefact
      reads this
    {
      Artefact(meta, data)
    }

    /** Appends as much of `b` as fits under `limit`; true when all of it did. */
    method WriteMeta(b: Bytes, limit: nat) returns (ok: bool)
      requires meta.Some? && |meta.value| <= limit
      modifies this`meta
      ensures meta.Some? && ok == (|old(meta).value| + |b| <= limit)
      ensures meta.value == if ok then old(meta).value + b else (old(meta).value + b)[..limit]
    {
      var next := meta.value + b;
      ok := |next| <= limit;
      meta := Some(if ok then next else next[..limit]);
    }

    /** Creation refuses when anything is there already; otherwise it writes header, claim and
        descriptor, then the data header, and stops where it is interrupted. */
    method Create(c: OwnershipClaim, d: SchemaDescriptor, record: Bytes, stop: Point) returns (r: Result<(), CreateError>)
      requires Admissible(d) && record == DescriptorRecord(d)
      requires Creatable(c, d) ==> stop != Nowhere ==> PointFits(stop, c, d)
      modifies this
      ensures old(meta).Some? || old(data).Some? ==> r == Err(StoreAlreadyExists) && Contents() == old(Contents())
      ensures old(meta).None? && old(data).None? && !ClaimFits(c) ==>
                r == Err(ClaimTooLong) && Contents() == old(Contents())
      ensures old(meta).None? && old(data).None? && ClaimFits(c) ==>
                if stop == Nowhere then r.Ok? && Contents() == LeftAt(InData(12), c, d)
                else r == Err(CreateError.Interrupted) && Contents() == LeftAt(stop, c, d)
    {
      hide HeaderBytes, Frame, Admissible, EncodeRecord;
      if meta.Some? || data.Some? {
        return Err(StoreAlreadyExists);
      }
      if 69 + |c.operatorLabel| > U32_MAX {
        return Err(ClaimTooLong);
      }
      ClaimLength(c);
      var claim: Payload := EncodeRecord(Claim(c));
      var whole := HeaderBytes() + (Frame(claim) + Frame(record));
      MetaLayout(c, d);
      var limit := if stop.InMeta? then stop.n else |whole|;
      meta := Some([]);
      Prefixes(HeaderBytes(), Frame(claim), Frame(record), limit);
      var ok := WriteMeta(HeaderBytes(), limit);
      if !ok {
        return Err(CreateError.Interrupted);
      }
      ok := WriteMeta(Frame(claim), limit);
      if !ok {
        return Err(CreateError.Interrupted);
      }
      ok := WriteMeta(Frame(record), limit);
      if !ok || stop.InMeta? {
        return Err(CreateError.Interrupted);
      }
      data := Some(HeaderBytes()[..if stop.InData? then stop.n else 12]);
      if stop.InData? {
        return Err(CreateError.Interrupted);
      }
      return Ok(());
    }

    /** Writes the data file that creation did not get to write. */
    method Complete(claim: OwnershipClaim) returns (r: Result<Opened, OpenError>)
      modifies this`data
      ensures r == CompleteCreation(old(Contents()), claim)
      ensures r.Ok? <==> Completable(old(Contents()), claim)
      ensures data == if r.Ok? then Some(HeaderBytes()) else old(data)
    {
      hide ReadMeta, Admissible, HeaderBytes;
      if data.Some? {
        return Err(DataPresent);
      }
      if meta.None? {
        return Err(NoArtefactExists);
      }
      var read := ReadMetaRecords(meta);
      if read.Err? {
        return Err(Refused(FileEngine.Unreadable));
      }
      var m := read.value;
      if m.schema.None? {
        return Err(MissingSchema);
      }
      var admitted := TryFromDescriptor(m.schema.value);
      if admitted.Err? {
        return Err(MissingSchema);
      }
      if m.latestClaim.None? {
        return Err(Refused(FileEngine.MissingClaim));
      }
      if m.latestClaim.value != claim {
        return Err(OwnershipUnestablished);
      }
      data := Some(HeaderBytes());
      return Ok(Opened(claim, m.schema.value, []));
    }
  }

  lemma FramesSingle(p: Payload)
    ensures Frames([p]) == Frame(p)
  {
    hide Frame;
    assert Frames([]) == [];
    assert Frames([p]) == Frame(p) + [];
  }

  lemma MetaLayout(c: OwnershipClaim, d: SchemaDescriptor)
    requires Creatable(c, d)
    ensures InitialMeta(c, d) == HeaderBytes() + (Frame(ClaimRecord(c)) + Frame(DescriptorRecord(d)))
  {
    hide HeaderBytes, Frame, ClaimRecord, DescriptorRecord, Admissible;
    var first, second := ClaimRecord(c), DescriptorRecord(d);
    FramesAppend([first], [second]);
    FramesSingle(first);
    FramesSingle(second);
    assert [first] + [second] == [first, second];
  }

  lemma Prefixes(h: Bytes, f: Bytes, g: Bytes, limit: nat)
    requires limit <= |h + (f + g)|
    ensures [] + h == h && h + f + g == h + (f + g)
    ensures limit < |h| ==> h[..limit] == (h + (f + g))[..limit]
    ensures |h| <= limit < |h + f| ==> (h + f)[..limit] == (h + (f + g))[..limit]
    ensures limit == |h + (f + g)| ==> (h + (f + g))[..limit] == h + (f + g)
  {
  }

  // ---- What a crash leaves ----

  lemma DescriptorRecordIsRecord(d: SchemaDescriptor)
    requires Admissible(d)
    ensures DescriptorRecord(d) == EncodeRecord(SchemaRecord(d.version, Descriptor.Encode(d.root, 0).value))
  {
    var tree := Descriptor.Encode(d.root, 0).value;
    assert tree + [] == tree;
  }

  lemma FoldOfClaim(c: OwnershipClaim)
    requires ClaimFits(c)
    ensures FoldFrames(NoRecords, [ClaimRecord(c)]) == Ok(NoRecords.(latestClaim := Some(c)))
  {
    hide EncodeRecord, FoldFrames;
    ClaimLength(c);
    FoldOne(NoRecords, Claim(c));
  }

  lemma FoldOfBoth(c: OwnershipClaim, d: SchemaDescriptor)
    requires Creatable(c, d)
    ensures FoldFrames(NoRecords, [ClaimRecord(c), DescriptorRecord(d)])
         == Ok(NoRecords.(latestClaim := Some(c), schema := Some(d)))
  {
    hide EncodeRecord, FoldFrames, DescriptorRecord, Admissible, ClaimRecord;
    var tree := Descriptor.Encode(d.root, 0).value by { AdmissibleEncodes(d); }
    FoldOfClaim(c);
    var m := NoRecords.(latestClaim := Some(c));
    FoldAppend(NoRecords, [ClaimRecord(c)], [DescriptorRecord(d)]);
    assert [ClaimRecord(c)] + [DescriptorRecord(d)] == [ClaimRecord(c), DescriptorRecord(d)];
    DescriptorRecordIsRecord(d);
    FoldOne(m, SchemaRecord(d.version, tree));
    TreeReadsBack(d);
  }

  lemma AdmissibleEncodes(d: SchemaDescriptor)
    requires Admissible(d)
    ensures Descriptor.Encode(d.root, 0).Ok?
  {
  }

  lemma TreeReadsBack(d: SchemaDescriptor)
    requires Admissible(d)
    ensures Descriptor.Encode(d.root, 0).Ok?
    ensures Descriptor.Parse(0, Descriptor.Encode(d.root, 0).value) == Ok((d.root, []))
  {
    AdmittedRecordReadsBack(d);
    var tree := Descriptor.Encode(d.root, 0).value;
    assert RecordOf(d.version, tree)[5..] == tree;
  }

  /** The prefixes of an ownership file that can be read at all end on a frame boundary. */
  lemma PrefixReading(c: OwnershipClaim, d: SchemaDescriptor, n: nat)
    requires Creatable(c, d) && n <= |InitialMeta(c, d)|
    ensures var r := ReadMeta(Some(InitialMeta(c, d)[..n]));
            r.Ok? ==> || r.value == NoRecords
                      || r.value == NoRecords.(latestClaim := Some(c))
                      || (n == |InitialMeta(c, d)| && r.value == NoRecords.(latestClaim := Some(c), schema := Some(d)))
  {
    hide FoldFrames, HeaderBytes, Admissible, ClaimRecord, DescriptorRecord, Whole, File;
    var ps := [ClaimRecord(c), DescriptorRecord(d)];
    if n >= 12 {
      CutFileScans(ps, n);
      var m := Whole(ps, n - 12);
      FoldOfClaim(c);
      FoldOfBoth(c, d);
      if m == 0 {
        assert ps[..0] == [];
        FoldOfNothing();
      } else if m == 1 {
        assert ps[..1] == [ClaimRecord(c)];
      } else {
        assert ps[..2] == ps;
      }
    }
  }

  lemma FoldOfNothing()
    ensures FoldFrames(NoRecords, []) == Ok(NoRecords)
  {
  }

  lemma CompleteReading(c: OwnershipClaim, d: SchemaDescriptor)
    requires Creatable(c, d)
    ensures ReadMeta(Some(InitialMeta(c, d))) == Ok(NoRecords.(latestClaim := Some(c), schema := Some(d)))
  {
    hide FoldFrames, File, ScanFile, Admissible;
    CleanFileScans([ClaimRecord(c), DescriptorRecord(d)]);
    FoldOfBoth(c, d);
  }

  lemma OpenAfterMetaCrash(c: OwnershipClaim, d: SchemaDescriptor, n: nat, epoch: nat)
    requires Creatable(c, d) && n <= |InitialMeta(c, d)|
    ensures OpenWrite(LeftAt(InMeta(n), c, d), epoch).Ok? <==> n == |InitialMeta(c, d)| && epoch == c.epoch
    ensures OpenWrite(LeftAt(InMeta(n), c, d), epoch).Ok? ==>
              OpenWrite(LeftAt(InMeta(n), c, d), epoch).value == Opened(c, d, [])
  {
    hide ReadMeta, Admissible, InitialMeta;
    PrefixReading(c, d, n);
    CompleteReading(c, d);
    if n == |InitialMeta(c, d)| {
      assert InitialMeta(c, d)[..n] == InitialMeta(c, d);
    }
  }

  lemma OpenAfterDataCrash(c: OwnershipClaim, d: SchemaDescriptor, n: nat, epoch: nat)
    requires Creatable(c, d) && n <= 12
    ensures OpenWrite(LeftAt(InData(n), c, d), epoch).Ok? <==> n == 12 && epoch == c.epoch
    ensures OpenWrite(LeftAt(InData(n), c, d), epoch).Ok? ==>
              OpenWrite(LeftAt(InData(n), c, d), epoch).value == Opened(c, d, [])
  {
    hide ReadMeta, Admissible, InitialMeta, HeaderBytes;
    CompleteReading(c, d);
    if n == 12 {
      assert HeaderBytes()[..12] == HeaderBytes() && HeaderBytes() + [] == HeaderBytes();
      CleanFileScans([]);
    }
  }

  /** A crash at any byte of creation leaves a store that `create` refuses as soon as the
      ownership file exists, and that opens exactly when the ownership file is complete and
      the data file is either absent or has its whole header; it then opens with the initial
      claim, the admitted descriptor and no frame. A data file cut inside its header can be
      neither opened, completed nor created again. */
  lemma CrashDuringCreate(c: OwnershipClaim, d: SchemaDescriptor, x: Point, epoch: nat)
    requires Creatable(c, d) && PointFits(x, c, d)
    ensures var left := LeftAt(x, c, d);
            var r := OpenWrite(left, epoch);
            && (x != Nowhere ==> left.meta.Some?)
            && (r.Ok? <==> epoch == c.epoch && (x == InMeta(|InitialMeta(c, d)|) || x == InData(12)))
            && (r.Ok? ==> r.value == Opened(c, d, []))
            && (x.InData? && x.n < 12 ==> r.Err? && CompleteCreation(left, c).Err?)
  {
    hide ReadMeta, Admissible, InitialMeta, HeaderBytes, OpenMetaOnly, OpenBoth;
    match x {
      case Nowhere =>
      case InMeta(n) => OpenAfterMetaCrash(c, d, n, epoch);
      case InData(n) => OpenAfterDataCrash(c, d, n, epoch);
    }
  }

  // ---- A store retired before its data file was written ----

  /** Opening refuses a retired store, whichever of its files are present and whatever is
      appended to the ownership file. */
  lemma RetiredNeverOpens(meta: Bytes, more: Bytes, data: Option<Bytes>, epoch: nat)
    requires ReadMeta(Some(meta)).Ok? && ReadMeta(Some(meta)).value.outbound.Some?
    ensures var a := Artefact(Some(meta + more), data);
            OpenWrite(a, epoch).Err? && AfterOpen(a, epoch) == a
  {
    hide ReadMeta, ScanFile;
    RetirementIsPermanent(meta, more);
  }

  /** The ownership file of a new store with a retirement recorded right after creation. */
  function RetiredMeta(c: OwnershipClaim, d: SchemaDescriptor, next: Id, cutover: u64): Bytes
    requires Creatable(c, d)
  {
    OutboundLength(next, cutover);
    WithRecord(InitialMeta(c, d), OutboundPointer(next, cutover))
  }

  lemma OutboundLength(next: Id, cutover: u64)
    ensures |EncodeRecord(OutboundPointer(next, cutover))| == 25
  {
  }

  lemma RetiredReading(c: OwnershipClaim, d: SchemaDescriptor, next: Id, cutover: u64)
    requires Creatable(c, d)
    ensures ReadMeta(Some(RetiredMeta(c, d, next, cutover)))
         == Ok(NoRecords.(latestClaim := Some(c), schema := Some(d), outbound := Some(OutboundPointer(next, cutover))))
  {
    hide EncodeRecord, FoldFrames, Frame, HeaderBytes, Frames, ScanFile, Admissible, ClaimRecord, DescriptorRecord;
    OutboundLength(next, cutover);
    var ps, p: Payload := [ClaimRecord(c), DescriptorRecord(d)], EncodeRecord(OutboundPointer(next, cutover));
    FileSnoc(ps, p);
    CleanFileScans(ps + [p]);
    FoldAppend(NoRecords, ps, [p]);
    FoldOfBoth(c, d);
    FoldOne(NoRecords.(latestClaim := Some(c), schema := Some(d)), OutboundPointer(next, cutover));
  }

  /** Completion fails open where opening fails closed: with only the ownership file present, a
      retired store is refused by `open_write` and still completed by `complete_creation`. The
      session this yields has no authority to append. */
  lemma RetiredIsStillCompleted(c: OwnershipClaim, d: SchemaDescriptor, next: Id, cutover: u64)
    requires Creatable(c, d)
    ensures var meta := Some(RetiredMeta(c, d, next, cutover));
            && OpenWrite(Artefact(meta, None), c.epoch) == Err(Refused(FileEngine.RetiredMigrationSource))
            && CompleteCreation(Artefact(meta, None), c) == Ok(Opened(c, d, []))
            && !FileEngine.Authorised(FileEngine.Engine(c.epoch, true, 0, false), meta)
  {
    hide ReadMeta, Admissible, RetiredMeta;
    RetiredReading(c, d, next, cutover);
  }
}
