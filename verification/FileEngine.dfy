/** The file engine: appends with short writes, a rollback that can fail at three points and
    failing syncs; crashes; reopening with torn-tail reconciliation
    (crates/pardosa/src/file.rs:428-466, 1226-1355, 1557-1800, 1908-1923).

    The disk is assumed to lose work only in order: a crash leaves the contents after some
    prefix of the operations issued since the last successful sync, and a write may stop
    after any prefix of its bytes. */
module FileEngine {
  import opened Wire
  import opened Container
  import opened Admission
  import opened Meta

  // ---- The disk ----

  /** The visible contents, and every contents a crash may leave instead. */
  datatype Disk = Disk(bytes: Bytes, crashes: set<Bytes>)

  function Settled(bytes: Bytes): Disk {
    Disk(bytes, {bytes})
  }

  function Write(d: Disk, b: Bytes, n: nat): Disk
    requires n <= |b|
  {
    Disk(d.bytes + b[..n], d.crashes + set k | 0 <= k <= n :: d.bytes + b[..k])
  }

  function Truncate(d: Disk, n: nat): Disk
    requires n <= |d.bytes|
  {
    Disk(d.bytes[..n], d.crashes + {d.bytes[..n]})
  }

  function Sync(d: Disk): Disk {
    Settled(d.bytes)
  }

  class DataFile {
    var disk: Disk

    constructor (disk: Disk)
      ensures this.disk == disk
    {
      this.disk := disk;
    }

    method WriteAtEnd(b: Bytes, n: nat)
      requires n <= |b|
      modifies this
      ensures disk == Write(old(disk), b, n)
    {
      disk := Write(disk, b, n);
    }

    method SetLen(n: nat)
      requires n <= |disk.bytes|
      modifies this
      ensures disk == Truncate(old(disk), n)
    {
      disk := Truncate(disk, n);
    }

    method SyncData()
      modifies this
      ensures disk == Sync(old(disk))
    {
      disk := Sync(disk);
    }
  }

  // ---- One append ----

  datatype RollbackIo = TruncateFails | RollbackSyncFails | SeekBackFails | RollbackSucceeds

  /** How the system calls of one append turn out. */
  datatype AppendIo =
    | SeekFails
    | WriteFails(written: nat, rollback: RollbackIo)
    | WriteSucceeds(synced: bool)

  datatype Failure =
    | Uncertain
    | AnotherOwnerHoldsExclusion
    | Unreadable
    | RetiredMigrationSource
    | MissingClaim
    | StaleEpoch
    | TransportUnavailable
    | MissingSchemaDescriptor
    | BrokenContainer(error: ScanError)
    | SyncFailed

  datatype Verdict = Landed(frames: nat) | Undetermined(carriedEpoch: nat)

  datatype Engine = Engine(carriedEpoch: nat, locked: bool, frameCount: nat, uncertain: bool)

  function CheckAuthority(e: Engine, meta: Option<Bytes>): Option<Failure> {
    if e.uncertain then Some(Uncertain)
    else if !e.locked then Some(AnotherOwnerHoldsExclusion)
    else match ReadMeta(meta)
         case Err(_) => Some(Unreadable)
         case Ok(m) =>
           if m.outbound.Some? then Some(RetiredMigrationSource)
           else if m.latestClaim.None? then Some(MissingClaim)
           else if m.latestClaim.value.epoch != e.carriedEpoch then Some(StaleEpoch)
           else None
  }

  /** Authority to append or sync: a certain, locked session of the epoch on record in a
      readable ownership file that no outbound pointer has retired. */
  predicate Authorised(e: Engine, meta: Option<Bytes>) {
    && !e.uncertain && e.locked
    && ReadMeta(meta).Ok?
    && var m := ReadMeta(meta).value;
       m.outbound.None? && m.latestClaim.Some? && m.latestClaim.value.epoch == e.carriedEpoch
  }

  lemma AuthorityIff(e: Engine, meta: Option<Bytes>)
    ensures CheckAuthority(e, meta).None? <==> Authorised(e, meta)
  {
    hide ReadMeta;
  }

  /** Why an append or sync is refused, one reason counting before the next. */
  lemma RefusalMeans(e: Engine, meta: Option<Bytes>)
    ensures CheckAuthority(e, meta) == Some(Uncertain) <==> e.uncertain
    ensures CheckAuthority(e, meta) == Some(AnotherOwnerHoldsExclusion) <==> !e.uncertain && !e.locked
    ensures !e.uncertain && e.locked ==>
              && (CheckAuthority(e, meta) == Some(Unreadable) <==> ReadMeta(meta).Err?)
              && (CheckAuthority(e, meta) == Some(RetiredMigrationSource) <==>
                    ReadMeta(meta).Ok? && ReadMeta(meta).value.outbound.Some?)
              && (CheckAuthority(e, meta) == Some(MissingClaim) <==>
                    ReadMeta(meta).Ok? && ReadMeta(meta).value.outbound.None? && ReadMeta(meta).value.latestClaim.None?)
              && (CheckAuthority(e, meta) == Some(StaleEpoch) <==>
                    ReadMeta(meta).Ok? && ReadMeta(meta).value.outbound.None? && ReadMeta(meta).value.latestClaim.Some?
                    && ReadMeta(meta).value.latestClaim.value.epoch != e.carriedEpoch)
  {
    hide ReadMeta;
  }

  function IoFits(block: Bytes, io: AppendIo): bool {
    io.WriteFails? ==> io.written <= |block|
  }

  /** What rolling back to length `n` leaves. */
  function Rollback(d: Disk, n: nat, io: RollbackIo): Disk
    requires n <= |d.bytes|
  {
    match io
    case TruncateFails => d
    case RollbackSyncFails => Truncate(d, n)
    case _ => Sync(Truncate(d, n))
  }

  /** The disk after an append that was authorised. */
  function AppendDisk(d: Disk, block: Bytes, io: AppendIo): Disk
    requires IoFits(block, io)
  {
    match io
    case SeekFails => d
    case WriteFails(n, rb) => Rollback(Write(d, block, n), |d.bytes|, rb)
    case WriteSucceeds(synced) => if synced then Sync(Write(d, block, |block|)) else Write(d, block, |block|)
  }

  function AppendEngine(e: Engine, io: AppendIo): Engine {
    match io
    case SeekFails => e
    case WriteFails(_, _) => e.(uncertain := true)
    case WriteSucceeds(synced) => if synced then e.(frameCount := e.frameCount + 1) else e.(uncertain := true)
  }

  function AppendResult(e: Engine, io: AppendIo): Result<Verdict, Failure> {
    match io
    case SeekFails => Err(TransportUnavailable)
    case WriteFails(_, _) => Ok(Undetermined(e.carriedEpoch))
    case WriteSucceeds(synced) => if synced then Ok(Landed(e.frameCount + 1)) else Ok(Undetermined(e.carriedEpoch))
  }

  /** What the caller is told, by what the system calls did: an error means that nothing was
      done, `Landed` that the block is on the disk to stay, and everything in between is
      undetermined and ends the session. */
  lemma AppendVerdict(d: Disk, block: Bytes, e: Engine, io: AppendIo)
    requires IoFits(block, io)
    ensures AppendResult(e, io).Err? <==> io.SeekFails?
    ensures AppendResult(e, io).Err? ==> AppendDisk(d, block, io) == d && AppendEngine(e, io) == e
    ensures AppendResult(e, io) == Ok(Undetermined(e.carriedEpoch)) <==> io.WriteFails? || io == WriteSucceeds(false)
    ensures io.WriteFails? || io == WriteSucceeds(false) ==> AppendEngine(e, io) == e.(uncertain := true)
    ensures AppendResult(e, io) == Ok(Landed(e.frameCount + 1)) <==> io == WriteSucceeds(true)
    ensures io == WriteSucceeds(true) ==>
              AppendDisk(d, block, io) == Settled(d.bytes + block) && AppendEngine(e, io) == e.(frameCount := e.frameCount + 1)
  {
    assert block[..|block|] == block;
  }

  /** What a failed write leaves behind: nothing, durably, when its rollback got as far as the
      sync; nothing visible when only the sync failed; and otherwise the part that was written. */
  lemma FailedWriteLeaves(d: Disk, block: Bytes, n: nat, rollback: RollbackIo)
    requires n <= |block|
    ensures var after := AppendDisk(d, block, WriteFails(n, rollback));
            match rollback
            case TruncateFails => after.bytes == d.bytes + block[..n]
            case RollbackSyncFails => after.bytes == d.bytes
            case _ => after == Settled(d.bytes)
  {
    assert (d.bytes + block[..n])[..|d.bytes|] == d.bytes;
  }

  class FileEngine {
    const file: DataFile
    const carriedEpoch: nat
    var locked: bool
    var frameCount: nat
    var uncertain: bool

    constructor (file: DataFile, epoch: nat, frames: nat)
      ensures this.file == file && Model() == Engine(epoch, true, frames, false)
    {
      this.file, carriedEpoch, locked, frameCount, uncertain := file, epoch, true, frames, false;
    }

    ghost function Model(): Engine
      reads this
    {
      Engine(carriedEpoch, locked, frameCount, uncertain)
    }

    method CheckEngineAuthority(meta: Option<Bytes>) returns (f: Option<Failure>)
      ensures f == CheckAuthority(Model(), meta)
      ensures f.None? <==> Authorised(Model(), meta)
    {
      hide ReadMeta;
      if uncertain {
        return Some(Uncertain);
      }
      if !locked {
        return Some(AnotherOwnerHoldsExclusion);
      }
      var m := ReadMetaRecords(meta);
      if m.Err? {
        return Some(Unreadable);
      }
      if m.value.outbound.Some? {
        return Some(RetiredMigrationSource);
      }
      if m.value.latestClaim.None? {
        return Some(MissingClaim);
      }
      if m.value.latestClaim.value.epoch != carriedEpoch {
        return Some(StaleEpoch);
      }
      return None;
    }

    /** Refused appends touch nothing. An authorised append lands, fails before writing, or
        leaves the session uncertain; the disk is what its system calls made it. Their outcome
        is a parameter; the method ties the engine to the steps of whole runs, about which the
        results are proved. */
    method AppendBlock(block: Bytes, meta: Option<Bytes>, io: AppendIo) returns (r: Result<Verdict, Failure>)
      requires IoFits(block, io)
      modifies this, file
      ensures var f := CheckAuthority(old(Model()), meta);
              if f.Some? then r == Err(f.value) && Model() == old(Model()) && file.disk == old(file.disk)
              else
                && r == AppendResult(old(Model()), io)
                && Model() == AppendEngine(old(Model()), io)
                && file.disk == AppendDisk(old(file.disk), block, io)
      ensures Authorised(old(Model()), meta) ==>
                && (r.Err? <==> io.SeekFails?)
                && (r == Ok(Undetermined(carriedEpoch)) <==> io.WriteFails? || io == WriteSucceeds(false))
                && (r == Ok(Landed(old(frameCount) + 1)) <==> io == WriteSucceeds(true))
    {
      hide ReadMeta;
      var f := CheckEngineAuthority(meta);
      if f.Some? {
        return Err(f.value);
      }
      if io.SeekFails? {
        return Err(TransportUnavailable);
      }
      var initialLen := |file.disk.bytes|;
      if io.WriteFails? {
        file.WriteAtEnd(block, io.written);
        if io.rollback != TruncateFails {
          file.SetLen(initialLen);
          if io.rollback != RollbackSyncFails {
            file.SyncData();
          }
        }
        uncertain := true;
        return Ok(Undetermined(carriedEpoch));
      }
      file.WriteAtEnd(block, |block|);
      if !io.synced {
        uncertain := true;
        return Ok(Undetermined(carriedEpoch));
      }
      file.SyncData();
      frameCount := frameCount + 1;
      return Ok(Landed(frameCount));
    }

    method SyncNow(meta: Option<Bytes>, ok: bool) returns (r: Result<(), Failure>)
      modifies this, file
      ensures var f := CheckAuthority(old(Model()), meta);
              if f.Some? then r == Err(f.value) && Model() == old(Model()) && file.disk == old(file.disk)
              else if ok then r == Ok(()) && Model() == old(Model()) && file.disk == Sync(old(file.disk))
              else r == Err(SyncFailed) && Model() == old(Model()).(uncertain := true) && file.disk == old(file.disk)
    {
      hide ReadMeta;
      var f := CheckEngineAuthority(meta);
      if f.Some? {
        return Err(f.value);
      }
      if !ok {
        uncertain := true;
        return Err(SyncFailed);
      }
      file.SyncData();
      return Ok(());
    }
  }

  // ---- Opening ----

  datatype OpenIo = SetLenFails | OpenSyncFails | OpenSeekFails | OpenSucceeds

  function OpenAuthority(meta: Option<Bytes>, epoch: nat): Option<Failure> {
    match ReadMeta(meta)
    case Err(_) => Some(Unreadable)
    case Ok(m) =>
      if m.outbound.Some? then Some(RetiredMigrationSource)
      else if m.schema.None? || !Admissible(m.schema.value) then Some(Failure.MissingSchemaDescriptor)
      else if m.latestClaim.None? then Some(MissingClaim)
      else if m.latestClaim.value.epoch != epoch then Some(StaleEpoch)
      else None
  }

  /** Authority to open for writing: a readable ownership file, not retired, with an admissible
      descriptor and a latest claim of the carried epoch. */
  lemma OpenAuthorityIff(meta: Option<Bytes>, epoch: nat)
    ensures OpenAuthority(meta, epoch).None? <==>
              && ReadMeta(meta).Ok?
              && var m := ReadMeta(meta).value;
                 && m.outbound.None? && m.schema.Some? && Admissible(m.schema.value)
                 && m.latestClaim.Some? && m.latestClaim.value.epoch == epoch
    ensures OpenAuthority(meta, epoch) == Some(Unreadable) <==> ReadMeta(meta).Err?
    ensures ReadMeta(meta).Ok? ==>
              var m, f := ReadMeta(meta).value, OpenAuthority(meta, epoch);
              && (f == Some(RetiredMigrationSource) <==> m.outbound.Some?)
              && (f == Some(Failure.MissingSchemaDescriptor) <==>
                    m.outbound.None? && (m.schema.None? || !Admissible(m.schema.value)))
              && (m.outbound.None? && m.schema.Some? && Admissible(m.schema.value) ==>
                    && (f == Some(MissingClaim) <==> m.latestClaim.None?)
                    && (f == Some(StaleEpoch) <==> m.latestClaim.Some? && m.latestClaim.value.epoch != epoch))
  {
    hide ReadMeta, Admissible;
  }

  /** A clean container is left alone; a torn one is cut to its valid length and synced. */
  function Reconcile(d: Disk, tail: Bytes, io: OpenIo): Disk
    requires |tail| <= |d.bytes|
  {
    if tail == [] || io.SetLenFails? then d
    else if io.OpenSyncFails? then Truncate(d, |d.bytes| - |tail|)
    else Sync(Truncate(d, |d.bytes| - |tail|))
  }

  lemma TailWithin(file: Bytes)
    requires ScanFile(file).Ok?
    ensures |ScanFile(file).value.tail| <= |file|
  {
    var scan := ScanFile(file).value;
    ScanFileExact(file, scan.frames, scan.tail);
  }

  /** Both components present: check the ownership file, scan, reconcile. */
  function OpenWrite(d: Disk, meta: Option<Bytes>, epoch: nat, io: OpenIo): (Disk, Result<Engine, Failure>) {
    var f := OpenAuthority(meta, epoch);
    if f.Some? then (d, Err(f.value)) else
    match ScanFile(d.bytes)
    case Err(e) => (d, Err(BrokenContainer(e)))
    case Ok(scan) =>
      TailWithin(d.bytes);
      (Reconcile(d, scan.tail, io),
       if io.OpenSucceeds? || (scan.tail == [] && !io.OpenSeekFails?)
       then Ok(Engine(epoch, true, |scan.frames|, false)) else Err(TransportUnavailable))
  }

  /** A corrupt container is never cut: opening fails and leaves the file, with whatever good
      frames follow the bad one, as it was. */
  lemma CorruptFileIsRefused(d: Disk, meta: Option<Bytes>, epoch: nat, io: OpenIo, ps: seq<Payload>, s: Bytes)
    requires OpenAuthority(meta, epoch).None? && d.bytes == File(ps) + s && WrongChecksum(s)
    ensures OpenWrite(d, meta, epoch, io) == (d, Err(BrokenContainer(BadFrame(ChecksumMismatch))))
  {
    hide OpenAuthority, ScanFile, File, WrongChecksum;
    CorruptFrameFails(ps, s);
  }

  /** A torn one is: what opening keeps is exactly the whole frames before the tear. A length
      damaged so that it points past the end of the file is such a tear, and what follows it is
      cut off as well. */
  lemma TornFileIsCut(d: Disk, meta: Option<Bytes>, epoch: nat, ps: seq<Payload>, s: Bytes)
    requires OpenAuthority(meta, epoch).None? && d.bytes == File(ps) + s && s != [] && CutShort(s)
    ensures OpenWrite(d, meta, epoch, OpenSucceeds) == (Settled(File(ps)), Ok(Engine(epoch, true, |ps|, false)))
  {
    hide OpenAuthority, ScanFile, File, CutShort;
    ScanFileExact(d.bytes, ps, s);
    assert d.bytes[..|d.bytes| - |s|] == File(ps);
  }
}
