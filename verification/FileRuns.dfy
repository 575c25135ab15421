/** Whole runs of the file store: appends, syncs, ownership changes, crashes and reopens in
    any order, with every system call free to fail
    (crates/pardosa/src/file.rs:1274-1355, 1613-1800, 1908-1923). */
module FileRuns {
  import opened Wire
  import opened Container
  import opened Meta
  import opened FileEngine

  /** A frame some session tried to append past the authority check, and whether it was told
      that it landed. */
  datatype Attempt = Attempt(payload: Payload, landed: bool, session: nat)

  /** One store: its data file, its ownership file, the session holding the exclusion, if
      any, and the history of attempts. Sessions are numbered as they open. */
  datatype Store = Store(disk: Disk, meta: Option<Bytes>, live: Option<Engine>, session: nat, attempts: seq<Attempt>)

  datatype Label =
    | Append(payload: Payload, io: AppendIo)
    | SyncCall(ok: bool)
    | Recount
    | Release
    | EndSession
    | MetaChanges(meta: Option<Bytes>)
    | Crash(contents: Bytes)
    | Open(epoch: nat, openIo: OpenIo)

  predicate Enabled(s: Store, l: Label) {
    match l
    case Append(p, io) => s.live.Some? && IoFits(Frame(p), io)
    case SyncCall(_) => s.live.Some?
    // Folding over all envelopes scans the file again; a torn one is an error and counts nothing.
    case Recount => s.live.Some? && ScanFile(s.disk.bytes).Ok? && ScanFile(s.disk.bytes).value.tail == []
    case Release => s.live.Some?
    case EndSession => s.live.Some?
    case MetaChanges(_) => true
    case Crash(b) => b in s.disk.crashes
    // The exclusion admits one locked session at a time.
    case Open(_, _) => s.live.None? || !s.live.value.locked
  }

  function ApplyAppend(s: Store, p: Payload, io: AppendIo): Store
    requires s.live.Some? && IoFits(Frame(p), io)
  {
    if CheckAuthority(s.live.value, s.meta).Some? then s else
    s.(disk := AppendDisk(s.disk, Frame(p), io),
       live := Some(AppendEngine(s.live.value, io)),
       attempts := if io.SeekFails? then s.attempts
                   else s.attempts + [Attempt(p, io == WriteSucceeds(true), s.session)])
  }

  function Apply(s: Store, l: Label): Store
    requires Enabled(s, l)
  {
    match l
    case Append(p, io) => ApplyAppend(s, p, io)
    case SyncCall(ok) =>
      if CheckAuthority(s.live.value, s.meta).Some? then s
      else if ok then s.(disk := Sync(s.disk)) else s.(live := Some(s.live.value.(uncertain := true)))
    case Recount => s.(live := Some(s.live.value.(frameCount := |ScanFile(s.disk.bytes).value.frames|)))
    case Release => s.(live := Some(s.live.value.(locked := false)))
    case EndSession => s.(live := None)
    case MetaChanges(m) => s.(meta := m)
    case Crash(b) => s.(disk := Settled(b), live := None)
    case Open(epoch, io) =>
      var (d, r) := OpenWrite(s.disk, s.meta, epoch, io);
      if r.Ok? then s.(disk := d, live := Some(r.value), session := s.session + 1) else s.(disk := d, live := None)
  }

  /** A freshly created store: an empty container, durable. */
  predicate Init(s: Store) {
    s.disk == Settled(File([])) && s.attempts == [] && s.live.None?
  }

  predicate CanRun(s: Store, ls: seq<Label>)
    decreases |ls|
  {
    ls != [] ==> Enabled(s, ls[0]) && CanRun(Apply(s, ls[0]), ls[1..])
  }

  function Run(s: Store, ls: seq<Label>): Store
    requires CanRun(s, ls)
    decreases |ls|
  {
    if ls == [] then s else Run(Apply(s, ls[0]), ls[1..])
  }

  // ---- What every contents the disk can show looks like ----

  /** The payloads of the attempts marked in `keep`, in order. */
  function Kept(attempts: seq<Attempt>, keep: seq<bool>): seq<Payload>
    requires |keep| == |attempts|
  {
    if attempts == [] then [] else
    var n := |attempts| - 1;
    if keep[n] then Kept(attempts[..n], keep[..n]) + [attempts[n].payload] else Kept(attempts[..n], keep[..n])
  }

  /** Every landed attempt is kept; an undetermined one may or may not be. */
  predicate KeepsLanded(attempts: seq<Attempt>, keep: seq<bool>) {
    |keep| == |attempts| && forall i | 0 <= i < |attempts| :: attempts[i].landed ==> keep[i]
  }

  predicate ImageBy(b: Bytes, attempts: seq<Attempt>, keep: seq<bool>, tail: Bytes) {
    |keep| == |attempts| && KeepsLanded(attempts, keep) && b == File(Kept(attempts, keep)) + tail && Torn(tail)
  }

  /** A container of attempted frames in attempt order, all landed ones among them, followed
      at most by the torn beginning of another. */
  ghost predicate Image(b: Bytes, attempts: seq<Attempt>) {
    exists keep, tail :: ImageBy(b, attempts, keep, tail)
  }

  /** The same with nothing torn. */
  ghost predicate CleanImage(b: Bytes, attempts: seq<Attempt>, frames: nat) {
    exists keep :: ImageBy(b, attempts, keep, []) && |Kept(attempts, keep)| == frames
  }

  /** No session has two undetermined attempts. */
  predicate OneUndetermined(attempts: seq<Attempt>, session: nat) {
    && (forall i | 0 <= i < |attempts| :: attempts[i].session <= session)
    && (forall i, j | 0 <= i < j < |attempts| ::
          attempts[i].landed || attempts[j].landed || attempts[i].session != attempts[j].session)
  }

  predicate SettledSession(attempts: seq<Attempt>, session: nat) {
    forall i | 0 <= i < |attempts| && attempts[i].session == session :: attempts[i].landed
  }

  ghost predicate Inv(s: Store) {
    && s.disk.bytes in s.disk.crashes
    && (forall b | b in s.disk.crashes :: Image(b, s.attempts))
    && OneUndetermined(s.attempts, s.session)
    && (s.live.Some? && !s.live.value.uncertain ==>
          CleanImage(s.disk.bytes, s.attempts, s.live.value.frameCount) && SettledSession(s.attempts, s.session))
  }

  // ---- Images under appends ----

  lemma KeptSnoc(attempts: seq<Attempt>, keep: seq<bool>, a: Attempt, k: bool)
    requires |keep| == |attempts|
    ensures Kept(attempts + [a], keep + [k])
         == if k then Kept(attempts, keep) + [a.payload] else Kept(attempts, keep)
  {
    assert (attempts + [a])[..|attempts|] == attempts && (keep + [k])[..|keep|] == keep;
  }

  /** A new attempt leaves older contents as they are, when it did not land. */
  lemma ImageSkips(b: Bytes, attempts: seq<Attempt>, a: Attempt)
    requires Image(b, attempts) && !a.landed
    ensures Image(b, attempts + [a])
  {
    hide Kept, File, Torn;
    var keep, tail :| ImageBy(b, attempts, keep, tail);
    KeptSnoc(attempts, keep, a, false);
    assert ImageBy(b, attempts + [a], keep + [false], tail);
  }

  /** Any prefix of a frame written after a clean image is an image again. */
  lemma ImageGrows(b: Bytes, attempts: seq<Attempt>, frames: nat, p: Payload, session: nat, k: nat)
    requires CleanImage(b, attempts, frames) && k <= |Frame(p)|
    ensures Image(b + Frame(p)[..k], attempts + [Attempt(p, false, session)])
  {
    hide Kept, File, Frame, KeepsLanded;
    var a := Attempt(p, false, session);
    var keep :| ImageBy(b, attempts, keep, []) && |Kept(attempts, keep)| == frames;
    assert b == File(Kept(attempts, keep)) by { AppendNil(File(Kept(attempts, keep))); }
    if k == |Frame(p)| {
      LandedImage(b, attempts, frames, p, false, session);
      assert Frame(p)[..k] == Frame(p);
      CleanIsImage(b + Frame(p), attempts + [a], frames + 1);
    } else {
      if k > 0 {
        FrameCutShort(p, k);
      }
      KeptSnoc(attempts, keep, a, false);
      KeepsMore(attempts, keep, a, false);
      assert ImageBy(b + Frame(p)[..k], attempts + [a], keep + [false], Frame(p)[..k]);
    }
  }

  lemma AppendNil(b: Bytes)
    ensures b + [] == b
  {
  }

  lemma KeepsMore(attempts: seq<Attempt>, keep: seq<bool>, a: Attempt, k: bool)
    requires KeepsLanded(attempts, keep) && (a.landed ==> k)
    ensures KeepsLanded(attempts + [a], keep + [k])
  {
  }

  lemma CleanIsImage(b: Bytes, attempts: seq<Attempt>, frames: nat)
    requires CleanImage(b, attempts, frames)
    ensures Image(b, attempts)
  {
    hide Kept, File, KeepsLanded;
    var keep :| ImageBy(b, attempts, keep, []) && |Kept(attempts, keep)| == frames;
  }

  /** A whole frame after a clean image is a clean image with one more frame. */
  lemma LandedImage(b: Bytes, attempts: seq<Attempt>, frames: nat, p: Payload, landed: bool, session: nat)
    requires CleanImage(b, attempts, frames)
    ensures CleanImage(b + Frame(p), attempts + [Attempt(p, landed, session)], frames + 1)
  {
    hide Kept, File, Frame, KeepsLanded;
    var a := Attempt(p, landed, session);
    var keep :| ImageBy(b, attempts, keep, []) && |Kept(attempts, keep)| == frames;
    var ps := Kept(attempts, keep);
    KeptSnoc(attempts, keep, a, true);
    KeepsMore(attempts, keep, a, true);
    AppendNil(File(ps));
    FileSnoc(ps, p);
    AppendNil(File(ps + [p]));
    assert ImageBy(b + Frame(p), attempts + [a], keep + [true], []);
  }

  lemma OneMoreAttempt(attempts: seq<Attempt>, session: nat, a: Attempt)
    requires OneUndetermined(attempts, session) && SettledSession(attempts, session) && a.session == session
    ensures OneUndetermined(attempts + [a], session)
    ensures a.landed ==> SettledSession(attempts + [a], session)
  {
  }

  // ---- Every step keeps the invariant ----

  /** Every contents reachable by a crash after an append is one of three kinds. */
  lemma AppendCrashes(d: Disk, b: Bytes, io: AppendIo, c: Bytes)
    requires IoFits(b, io) && !io.SeekFails? && c in AppendDisk(d, b, io).crashes && d.bytes in d.crashes
    ensures io == WriteSucceeds(true) ==> c == d.bytes + b
    ensures io != WriteSucceeds(true) ==> c in d.crashes || exists k :: 0 <= k <= |b| && c == d.bytes + b[..k]
  {
    assert b[..|b|] == b;
    match io {
      case WriteFails(n, rb) => assert (d.bytes + b[..n])[..|d.bytes|] == d.bytes;
      case WriteSucceeds(_) =>
      case SeekFails =>
    }
  }

  lemma AppendVisible(d: Disk, b: Bytes, io: AppendIo)
    requires IoFits(b, io) && d.bytes in d.crashes
    ensures AppendDisk(d, b, io).bytes in AppendDisk(d, b, io).crashes
    ensures io == WriteSucceeds(true) ==> AppendDisk(d, b, io) == Settled(d.bytes + b)
  {
    assert b[..|b|] == b;
    match io {
      case WriteFails(n, rb) =>
        var w := Write(d, b, n);
        assert d.bytes + b[..n] in w.crashes;
      case WriteSucceeds(_) =>
        assert d.bytes + b[..|b|] in Write(d, b, |b|).crashes;
      case SeekFails =>
    }
  }

  lemma AppendKeepsInv(s: Store, p: Payload, io: AppendIo)
    requires Inv(s) && Enabled(s, Append(p, io))
    ensures Inv(ApplyAppend(s, p, io))
  {
    hide CheckAuthority, Image, CleanImage, Frame, AppendDisk, OneUndetermined, SettledSession;
    if CheckAuthority(s.live.value, s.meta).None? && !io.SeekFails? {
      var s' := ApplyAppend(s, p, io);
      AuthorityMeansCertain(s.live.value, s.meta);
      var a := Attempt(p, io == WriteSucceeds(true), s.session);
      OneMoreAttempt(s.attempts, s.session, a);
      AppendVisible(s.disk, Frame(p), io);
      forall c | c in s'.disk.crashes ensures Image(c, s'.attempts) {
        AppendCrashes(s.disk, Frame(p), io, c);
        if io == WriteSucceeds(true) {
          LandedImage(s.disk.bytes, s.attempts, s.live.value.frameCount, p, true, s.session);
          CleanIsImage(c, s'.attempts, s.live.value.frameCount + 1);
        } else if c in s.disk.crashes {
          ImageSkips(c, s.attempts, a);
        } else {
          var k :| 0 <= k <= |Frame(p)| && c == s.disk.bytes + Frame(p)[..k];
          ImageGrows(s.disk.bytes, s.attempts, s.live.value.frameCount, p, s.session, k);
        }
      }
      if io == WriteSucceeds(true) {
        LandedImage(s.disk.bytes, s.attempts, s.live.value.frameCount, p, true, s.session);
      }
    } else {
      SeekTouchesNothing(s.disk, Frame(p), io);
    }
  }

  lemma SeekTouchesNothing(d: Disk, b: Bytes, io: AppendIo)
    requires IoFits(b, io)
    ensures io.SeekFails? ==> AppendDisk(d, b, io) == d
  {
  }

  lemma AuthorityMeansCertain(e: Engine, meta: Option<Bytes>)
    requires CheckAuthority(e, meta).None?
    ensures !e.uncertain && e.locked
  {
  }

  /** What scanning an image finds: the kept frames, all landed ones among them. */
  lemma ScanOfImage(b: Bytes, attempts: seq<Attempt>)
    requires Image(b, attempts)
    ensures ScanFile(b).Ok?
    ensures var scan := ScanFile(b).value;
            && |scan.tail| <= |b|
            && (scan.tail == [] ==> CleanImage(b, attempts, |scan.frames|))
            && CleanImage(b[..|b| - |scan.tail|], attempts, |scan.frames|)
  {
    hide Kept, File, Torn, KeepsLanded, ScanFile;
    var keep, tail :| ImageBy(b, attempts, keep, tail);
    var ps := Kept(attempts, keep);
    ScanFileExact(b, ps, tail);
    assert b[..|b| - |tail|] == File(ps);
    AppendNil(File(ps));
    CleanFileScans(ps);
    ScanFileExact(File(ps), ps, []);
    assert ImageBy(File(ps), attempts, keep, []);
    if tail == [] {
      assert b[..|b| - |tail|] == b;
    }
  }

  lemma OpenKeepsInv(s: Store, epoch: nat, io: OpenIo)
    requires Inv(s) && Enabled(s, Open(epoch, io))
    ensures Inv(Apply(s, Open(epoch, io)))
  {
    hide OpenAuthority, Image, CleanImage, ScanFile;
    ScanOfImage(s.disk.bytes, s.attempts);
    var scan := ScanFile(s.disk.bytes).value;
    var cut := s.disk.bytes[..|s.disk.bytes| - |scan.tail|];
    CleanIsImage(cut, s.attempts, |scan.frames|);
  }

  lemma StepKeepsInv(s: Store, l: Label)
    requires Inv(s) && Enabled(s, l)
    ensures Inv(Apply(s, l))
  {
    hide Image, CleanImage, CheckAuthority, OneUndetermined, SettledSession, OpenWrite, ApplyAppend;
    match l {
      case Append(p, io) => AppendKeepsInv(s, p, io);
      case Open(epoch, io) => OpenKeepsInv(s, epoch, io);
      case Recount => RecountFindsTheSame(s);
      case _ =>
    }
  }

  /** A certain session counts what it has counted all along. */
  lemma RecountFindsTheSame(s: Store)
    requires Inv(s) && Enabled(s, Recount)
    ensures !s.live.value.uncertain ==> Apply(s, Recount) == s
  {
    hide Image, CleanImage, OneUndetermined, SettledSession, ScanFile;
    if !s.live.value.uncertain {
      CountOfClean(s.disk.bytes, s.attempts, s.live.value.frameCount);
    }
  }

  lemma {:induction false} RunKeepsInv(s: Store, ls: seq<Label>)
    requires Inv(s) && CanRun(s, ls)
    ensures Inv(Run(s, ls))
    decreases |ls|
  {
    hide Inv;
    if ls != [] {
      StepKeepsInv(s, ls[0]);
      RunKeepsInv(Apply(s, ls[0]), ls[1..]);
    }
  }

  lemma InitInv(s: Store)
    requires Init(s)
    ensures Inv(s)
  {
    AppendNil(File([]));
    assert ImageBy(File([]), [], [], []);
  }

  // ---- Main results ----

  /** After any run, whatever the disk shows and whatever a crash would leave, the frames
      recovered are attempted frames in attempt order: every landed one, and besides them at
      most one undetermined frame of each session. */
  lemma RecoveryKeepsLanded(s: Store, ls: seq<Label>, contents: Bytes)
    requires Init(s) && CanRun(s, ls) && contents in Run(s, ls).disk.crashes
    ensures var end := Run(s, ls);
            && ScanFile(contents).Ok?
            && (exists keep :: KeepsLanded(end.attempts, keep) && ScanFile(contents).value.frames == Kept(end.attempts, keep))
            && OneUndetermined(end.attempts, end.session)
  {
    hide Run, CanRun, Kept, File, ScanFile, KeepsLanded, Torn;
    InitInv(s);
    RunKeepsInv(s, ls);
    var end := Run(s, ls);
    assert Image(contents, end.attempts);
    var keep, tail :| ImageBy(contents, end.attempts, keep, tail);
    ScanFileExact(contents, Kept(end.attempts, keep), tail);
  }

  /** In a live session `Landed(n)` means the file now scans clean to exactly `n` frames, the
      last of them the one appended, and no crash can leave anything else. */
  lemma LandedMeansDurable(s: Store, ls: seq<Label>, p: Payload)
    requires Init(s) && CanRun(s, ls)
    requires Run(s, ls).live.Some? && CheckAuthority(Run(s, ls).live.value, Run(s, ls).meta).None?
    ensures var end := Run(s, ls);
            var io := WriteSucceeds(true);
            var after := ApplyAppend(end, p, io);
            && AppendResult(end.live.value, io) == Ok(Landed(after.live.value.frameCount))
            && after.disk.crashes == {after.disk.bytes}
            && ScanFile(after.disk.bytes).Ok?
            && var scan := ScanFile(after.disk.bytes).value;
            && scan.tail == [] && |scan.frames| == after.live.value.frameCount
            && scan.frames != [] && scan.frames[|scan.frames| - 1] == p
  {
    hide Run, CanRun, Kept, File, ScanFile, KeepsLanded, Torn, CheckAuthority, Frame, AppendDisk;
    InitInv(s);
    RunKeepsInv(s, ls);
    var end := Run(s, ls);
    AuthorityMeansCertain(end.live.value, end.meta);
    AppendVisible(end.disk, Frame(p), WriteSucceeds(true));
    var keep :| ImageBy(end.disk.bytes, end.attempts, keep, []) && |Kept(end.attempts, keep)| == end.live.value.frameCount;
    var ps := Kept(end.attempts, keep);
    AppendNil(File(ps));
    FileSnoc(ps, p);
    CleanFileScans(ps + [p]);
  }

  /** The calls after which a session no longer knows what its file holds: an authorised append
      whose write or sync fails, or an authorised sync that fails. */
  predicate Strands(s: Store, l: Label)
    requires Enabled(s, l)
  {
    match l
    case Append(_, io) => Authorised(s.live.value, s.meta) && (io.WriteFails? || io == WriteSucceeds(false))
    case SyncCall(ok) => Authorised(s.live.value, s.meta) && !ok
    case _ => false
  }

  /** What the caller of an append is told. */
  function Answer(s: Store, io: AppendIo): Result<Verdict, Failure>
    requires s.live.Some?
  {
    var f := CheckAuthority(s.live.value, s.meta);
    if f.Some? then Err(f.value) else AppendResult(s.live.value, io)
  }

  /** An append is answered with an error exactly when nothing was attempted, and then nothing
      has changed; with `Undetermined` exactly when it strands the session, leaving an attempt
      that did not land; and with `Landed` exactly when its attempt did. */
  lemma AnswersIff(s: Store, p: Payload, io: AppendIo)
    requires Enabled(s, Append(p, io))
    ensures var after := ApplyAppend(s, p, io);
            && (Answer(s, io).Err? <==> !Authorised(s.live.value, s.meta) || io.SeekFails?)
            && (Answer(s, io).Err? <==> after.attempts == s.attempts)
            && (Answer(s, io).Err? ==> after == s)
            && (Answer(s, io) == Ok(Undetermined(s.live.value.carriedEpoch)) <==> Strands(s, Append(p, io)))
            && (Answer(s, io) == Ok(Undetermined(s.live.value.carriedEpoch)) <==>
                  after.attempts == s.attempts + [Attempt(p, false, s.session)])
            && (Answer(s, io) == Ok(Landed(s.live.value.frameCount + 1)) <==>
                  after.attempts == s.attempts + [Attempt(p, true, s.session)])
  {
    hide ReadMeta, Frame, CheckAuthority, Authorised, AppendDisk;
    AuthorityIff(s.live.value, s.meta);
    AppendVerdict(s.disk, Frame(p), s.live.value, io);
    var a := s.attempts;
    assert |a + [Attempt(p, true, s.session)]| != |a| && |a + [Attempt(p, false, s.session)]| != |a|;
    assert (a + [Attempt(p, true, s.session)])[|a|] != (a + [Attempt(p, false, s.session)])[|a|];
  }

  /** What the crashes in `ls`, and nothing else, make of a disk. */
  function CrashesOnly(d: Disk, ls: seq<Label>): Disk
    decreases |ls|
  {
    if ls == [] then d
    else CrashesOnly(if ls[0].Crash? then Settled(ls[0].contents) else d, ls[1..])
  }

  /** No session is left, or only one that has given up. */
  predicate Stranded(s: Store) {
    s.live.None? || s.live.value.uncertain
  }

  lemma StrandedStep(s: Store, l: Label)
    requires Stranded(s) && Enabled(s, l) && !l.Open?
    ensures var s' := Apply(s, l);
            && Stranded(s') && s'.attempts == s.attempts && s'.session == s.session
            && s'.disk == if l.Crash? then Settled(l.contents) else s.disk
  {
    hide ReadMeta;
  }

  lemma {:induction false} StrandedRun(s: Store, ls: seq<Label>)
    requires Stranded(s) && CanRun(s, ls) && forall l | l in ls :: !l.Open?
    ensures Run(s, ls).disk == CrashesOnly(s.disk, ls) && Run(s, ls).attempts == s.attempts
    decreases |ls|
  {
    hide Enabled, Apply, Stranded;
    if ls != [] {
      StrandedStep(s, ls[0]);
      StrandedRun(Apply(s, ls[0]), ls[1..]);
    }
  }

  /** Session `k` is over or stranded. */
  predicate Over(s: Store, k: nat) {
    s.session > k || (s.session == k && Stranded(s))
  }

  predicate AddsAfter(older: seq<Attempt>, newer: seq<Attempt>, k: nat) {
    older <= newer && forall i | |older| <= i < |newer| :: newer[i].session > k
  }

  lemma OverStep(s: Store, l: Label, k: nat)
    requires Over(s, k) && Enabled(s, l)
    ensures Over(Apply(s, l), k) && AddsAfter(s.attempts, Apply(s, l).attempts, k)
  {
    hide OpenWrite, ReadMeta, AppendDisk, Frame;
    if Stranded(s) && !l.Open? {
      StrandedStep(s, l);
    }
  }

  lemma {:induction false} OverRun(s: Store, ls: seq<Label>, k: nat)
    requires Over(s, k) && CanRun(s, ls)
    ensures AddsAfter(s.attempts, Run(s, ls).attempts, k)
    decreases |ls|
  {
    hide Enabled, Apply, Over;
    if ls != [] {
      OverStep(s, ls[0], k);
      OverRun(Apply(s, ls[0]), ls[1..], k);
    }
  }

  lemma StrandingStrands(s: Store, l: Label)
    requires Enabled(s, l) && Strands(s, l)
    ensures Stranded(Apply(s, l)) && Apply(s, l).session == s.session
  {
    hide ReadMeta, AppendDisk, Frame, CheckAuthority, Authorised;
    AuthorityIff(s.live.value, s.meta);
  }

  /** An append reported undetermined, or a failed sync, is the last thing its session does to
      the file. However the run goes on, no attempt of that session is ever added, and until
      the store is opened again only crashes change what the disk holds or may come to hold. */
  lemma UncertainIsFinal(s: Store, l: Label, more: seq<Label>)
    requires Enabled(s, l) && Strands(s, l) && CanRun(Apply(s, l), more)
    ensures var after := Apply(s, l);
            var end := Run(after, more);
            && AddsAfter(after.attempts, end.attempts, s.session)
            && ((forall m | m in more :: !m.Open?) ==>
                  end.disk == CrashesOnly(after.disk, more) && end.attempts == after.attempts)
  {
    hide Enabled, Strands, Apply, Stranded, CanRun, Run, CrashesOnly, AddsAfter;
    StrandingStrands(s, l);
    OverRun(Apply(s, l), more, s.session);
    if forall m | m in more :: !m.Open? {
      StrandedRun(Apply(s, l), more);
    }
  }

  /** Once an outbound pointer is in the ownership file, then whatever is appended to that
      file, appends, syncs and opens are refused and leave the data file alone. */
  lemma RetiredStoreRefuses(s: Store, meta: Bytes, more: Bytes, l: Label)
    requires ReadMeta(Some(meta)).Ok? && ReadMeta(Some(meta)).value.outbound.Some?
    requires s.meta == Some(meta + more) && Enabled(s, l) && (l.Append? || l.SyncCall? || l.Open?)
    ensures Apply(s, l).disk == s.disk && Apply(s, l).attempts == s.attempts
    ensures l.Open? ==> OpenWrite(s.disk, s.meta, l.epoch, l.openIo).1.Err?
    ensures !l.Open? ==> Apply(s, l) == s && CheckAuthority(s.live.value, s.meta).Some?
  {
    hide ReadMeta, ScanFile;
    RetirementIsPermanent(meta, more);
  }

  // ---- Which recovered frames are durable ----

  /** Whatever a crash leaves, exactly these frames are recovered from it. */
  predicate AllRecover(d: Disk, ps: seq<Payload>) {
    forall c | c in d.crashes :: ScanFile(c).Ok? && ScanFile(c).value.frames == ps
  }

  /** The frames a session recovers when it opens are durable exactly when the container was
      torn, so that cutting it was followed by a sync, or when they were durable before. */
  lemma RecoveredIsDurableIff(s: Store, epoch: nat, io: OpenIo)
    requires Inv(s) && Enabled(s, Open(epoch, io)) && OpenWrite(s.disk, s.meta, epoch, io).1.Ok?
    ensures ScanFile(s.disk.bytes).Ok?
    ensures var scan := ScanFile(s.disk.bytes).value;
            AllRecover(Apply(s, Open(epoch, io)).disk, scan.frames) <==> scan.tail != [] || AllRecover(s.disk, scan.frames)
  {
    hide Image, OpenAuthority, ScanFile, File, Torn;
    var scan := ScanFile(s.disk.bytes).value;
    if scan.tail != [] {
      CutTailScans(s.disk.bytes);
    }
  }

  function Payloads(attempts: seq<Attempt>): seq<Payload> {
    if attempts == [] then [] else Payloads(attempts[..|attempts| - 1]) + [attempts[|attempts| - 1].payload]
  }

  lemma {:induction false} KeepingAll(attempts: seq<Attempt>, keep: seq<bool>)
    requires |keep| == |attempts| && forall i | 0 <= i < |keep| :: keep[i]
    ensures Kept(attempts, keep) == Payloads(attempts)
  {
    if attempts != [] {
      KeepingAll(attempts[..|attempts| - 1], keep[..|keep| - 1]);
    }
  }

  /** As long as no append was reported undetermined, every frame ever appended is durable. */
  lemma LandedOnlyIsDurable(s: Store)
    requires Inv(s) && forall i | 0 <= i < |s.attempts| :: s.attempts[i].landed
    ensures AllRecover(s.disk, Payloads(s.attempts))
  {
    hide File, ScanFile, Kept, Torn, OneUndetermined;
    forall c | c in s.disk.crashes ensures ScanFile(c).Ok? && ScanFile(c).value.frames == Payloads(s.attempts) {
      assert Image(c, s.attempts);
      var keep, tail :| ImageBy(c, s.attempts, keep, tail);
      KeepingAll(s.attempts, keep);
      ScanFileExact(c, Kept(s.attempts, keep), tail);
    }
  }

  predicate StartsWith(b: Bytes, ps: seq<Payload>) {
    |File(ps)| <= |b| && b[..|File(ps)|] == File(ps)
  }

  lemma GrownStartsWith(b: Bytes, more: Bytes, ps: seq<Payload>)
    requires StartsWith(b, ps)
    ensures StartsWith(b + more, ps)
  {
    hide File;
    assert (b + more)[..|File(ps)|] == b[..|File(ps)|];
  }

  lemma LongerStartsWith(ps: seq<Payload>, qs: seq<Payload>)
    ensures StartsWith(File(ps + qs), ps)
  {
    hide HeaderBytes, Frames;
    FramesAppend(ps, qs);
    Assoc3(HeaderBytes(), Frames(ps), Frames(qs));
  }

  /** A scan of a file that begins with these frames finds them first. */
  lemma ScanStartsWith(b: Bytes, ps: seq<Payload>)
    requires StartsWith(b, ps) && ScanFile(b).Ok?
    ensures ps <= ScanFile(b).value.frames
  {
    hide HeaderBytes, Frames, ScanFrames;
    var more := b[|File(ps)|..];
    assert b == File(ps) + more;
    Assoc3(HeaderBytes(), Frames(ps), more);
    HeaderExact(b, Frames(ps) + more);
    ScanAppend(ps, more);
  }

  ghost predicate Anchored(s: Store, ps: seq<Payload>) {
    forall c | c in s.disk.crashes :: StartsWith(c, ps)
  }

  lemma AppendKeepsAnchor(s: Store, p: Payload, io: AppendIo, ps: seq<Payload>)
    requires Inv(s) && Anchored(s, ps) && Enabled(s, Append(p, io))
    ensures Anchored(ApplyAppend(s, p, io), ps)
  {
    hide CheckAuthority, Image, CleanImage, Frame, AppendDisk, OneUndetermined, SettledSession, StartsWith;
    var s' := ApplyAppend(s, p, io);
    SeekTouchesNothing(s.disk, Frame(p), io);
    if CheckAuthority(s.live.value, s.meta).None? && !io.SeekFails? {
      forall c | c in s'.disk.crashes ensures StartsWith(c, ps) {
        AppendCrashes(s.disk, Frame(p), io, c);
        if io == WriteSucceeds(true) {
          GrownStartsWith(s.disk.bytes, Frame(p), ps);
        } else if c !in s.disk.crashes {
          var k :| 0 <= k <= |Frame(p)| && c == s.disk.bytes + Frame(p)[..k];
          GrownStartsWith(s.disk.bytes, Frame(p)[..k], ps);
        }
      }
    }
  }

  lemma CutStartsWith(b: Bytes, ps: seq<Payload>)
    requires StartsWith(b, ps) && ScanFile(b).Ok?
    ensures |ScanFile(b).value.tail| <= |b| && StartsWith(b[..|b| - |ScanFile(b).value.tail|], ps)
  {
    hide File, ScanFile, Torn, StartsWith;
    var scan := ScanFile(b).value;
    ScanFileExact(b, scan.frames, scan.tail);
    assert b[..|b| - |scan.tail|] == File(scan.frames);
    ScanStartsWith(b, ps);
    assert scan.frames == ps + scan.frames[|ps|..];
    LongerStartsWith(ps, scan.frames[|ps|..]);
  }

  lemma OpenKeepsAnchor(s: Store, epoch: nat, io: OpenIo, ps: seq<Payload>)
    requires Inv(s) && Anchored(s, ps) && Enabled(s, Open(epoch, io))
    ensures Anchored(Apply(s, Open(epoch, io)), ps)
  {
    hide OpenAuthority, Image, CleanImage, ScanFile, StartsWith;
    if ScanFile(s.disk.bytes).Ok? {
      CutStartsWith(s.disk.bytes, ps);
    }
  }

  lemma {:induction false} RunKeepsAnchor(s: Store, ls: seq<Label>, ps: seq<Payload>)
    requires Inv(s) && Anchored(s, ps) && CanRun(s, ls)
    ensures Anchored(Run(s, ls), ps)
    decreases |ls|
  {
    hide Inv, Anchored, Apply, Enabled;
    if ls != [] {
      StepKeepsInv(s, ls[0]);
      StepKeepsAnchor(s, ls[0], ps);
      RunKeepsAnchor(Apply(s, ls[0]), ls[1..], ps);
    }
  }

  lemma StepKeepsAnchor(s: Store, l: Label, ps: seq<Payload>)
    requires Inv(s) && Anchored(s, ps) && Enabled(s, l)
    ensures Anchored(Apply(s, l), ps)
  {
    hide Image, CleanImage, CheckAuthority, OneUndetermined, SettledSession, OpenWrite, ApplyAppend, StartsWith;
    match l {
      case Append(p, io) => AppendKeepsAnchor(s, p, io, ps);
      case Open(epoch, io) => OpenKeepsAnchor(s, epoch, io, ps);
      case _ =>
    }
  }

  /** What is on the disk at a moment when a crash could leave nothing else stays: after any
      further run with any further crashes, these frames are recovered, in order, first. */
  lemma DurableFramesStay(s: Store, ls: seq<Label>, contents: Bytes)
    requires Inv(s) && s.disk.crashes == {s.disk.bytes}
    requires CanRun(s, ls) && contents in Run(s, ls).disk.crashes
    ensures ScanFile(s.disk.bytes).Ok? && ScanFile(contents).Ok?
    ensures ScanFile(s.disk.bytes).value.frames <= ScanFile(contents).value.frames
  {
    hide Run, CanRun, Image, ScanFile, StartsWith, OneUndetermined;
    ScanOfImage(s.disk.bytes, s.attempts);
    var ps := ScanFile(s.disk.bytes).value.frames;
    AnchoredByScan(s.disk.bytes);
    RunKeepsAnchor(s, ls, ps);
    RunKeepsInv(s, ls);
    ScanOfImage(contents, Run(s, ls).attempts);
    ScanStartsWith(contents, ps);
  }

  lemma AnchoredByScan(b: Bytes)
    requires ScanFile(b).Ok?
    ensures StartsWith(b, ScanFile(b).value.frames)
  {
    hide File, ScanFile, Torn;
    var scan := ScanFile(b).value;
    ScanFileExact(b, scan.frames, scan.tail);
  }

  /** A successful sync makes what the session recovered, and all it appended since, durable:
      it is recovered first after any further run. */
  lemma SyncedFramesStay(s: Store, ls: seq<Label>, contents: Bytes)
    requires Inv(s) && s.live.Some? && CheckAuthority(s.live.value, s.meta).None?
    requires CanRun(Apply(s, SyncCall(true)), ls) && contents in Run(Apply(s, SyncCall(true)), ls).disk.crashes
    ensures ScanFile(s.disk.bytes).Ok? && |ScanFile(s.disk.bytes).value.frames| == s.live.value.frameCount
    ensures ScanFile(contents).Ok? && ScanFile(s.disk.bytes).value.frames <= ScanFile(contents).value.frames
  {
    hide Run, CanRun, Image, ScanFile, CheckAuthority, CleanImage, OneUndetermined, SettledSession;
    StepKeepsInv(s, SyncCall(true));
    DurableFramesStay(Apply(s, SyncCall(true)), ls, contents);
    AuthorityMeansCertain(s.live.value, s.meta);
    CountOfClean(s.disk.bytes, s.attempts, s.live.value.frameCount);
  }

  lemma CountOfClean(b: Bytes, attempts: seq<Attempt>, frames: nat)
    requires CleanImage(b, attempts, frames)
    ensures ScanFile(b).Ok? && |ScanFile(b).value.frames| == frames
  {
    hide File, ScanFile, Kept, KeepsLanded;
    var keep :| ImageBy(b, attempts, keep, []) && |Kept(attempts, keep)| == frames;
    ScanFileExact(b, Kept(attempts, keep), []);
  }

  /** Reopening a clean container does not sync it, so a frame whose landing was never
      determined can be recovered by one session and still be gone after a crash. */
  lemma RecoveredFrameCanVanish(s: Store, epoch: nat, p: Payload)
    requires Init(s) && OpenAuthority(s.meta, epoch).None?
    ensures var ls := [Open(epoch, OpenSucceeds), Append(p, WriteSucceeds(false)), EndSession, Open(epoch, OpenSucceeds)];
            && CanRun(s, ls)
            && Run(s, ls).live == Some(Engine(epoch, true, 1, false))
            && ScanFile(Run(s, ls).disk.bytes) == Ok(Scan([p], []))
            && Enabled(Run(s, ls), Crash(File([])))
  {
    hide ReadMeta, ScanFile, File, Frame, CanRun, Run;
    var open := Open(epoch, OpenSucceeds);
    CleanFileScans([]);
    var s1 := Apply(s, open);
    assert s1 == s.(live := Some(Engine(epoch, true, 0, false)), session := s.session + 1);
    OpenedMayAppend(s.meta, epoch, 0);
    var s2 := Apply(s1, Append(p, WriteSucceeds(false)));
    assert Frame(p)[..|Frame(p)|] == Frame(p) && Frame(p)[..0] == [];
    FileSnoc([], p);
    AppendNil(File([]));
    assert [] + [p] == [p];
    assert s2.disk.bytes == File([p]);
    var s3 := Apply(s2, EndSession);
    CleanFileScans([p]);
    var s4 := Apply(s3, open);
    assert s4.live == Some(Engine(epoch, true, 1, false));
    RunFour(s, open, Append(p, WriteSucceeds(false)), EndSession, open);
  }

  lemma OpenedMayAppend(meta: Option<Bytes>, epoch: nat, frames: nat)
    requires OpenAuthority(meta, epoch).None?
    ensures CheckAuthority(Engine(epoch, true, frames, false), meta).None?
  {
    hide ReadMeta;
  }

  lemma RunFour(s: Store, a: Label, b: Label, c: Label, d: Label)
    requires Enabled(s, a) && Enabled(Apply(s, a), b) && Enabled(Apply(Apply(s, a), b), c)
    requires Enabled(Apply(Apply(Apply(s, a), b), c), d)
    ensures CanRun(s, [a, b, c, d]) && Run(s, [a, b, c, d]) == Apply(Apply(Apply(Apply(s, a), b), c), d)
  {
    hide Enabled, Apply, CanRun, Run;
    var s1 := Apply(s, a);
    var s2 := Apply(s1, b);
    var s3 := Apply(s2, c);
    RunNone(Apply(s3, d));
    assert [d] + [] == [d] && [c] + [d] == [c, d] && [b] + [c, d] == [b, c, d] && [a] + [b, c, d] == [a, b, c, d];
    RunOne(s3, d, []);
    RunOne(s2, c, [d]);
    RunOne(s1, b, [c, d]);
    RunOne(s, a, [b, c, d]);
  }

  lemma RunNone(s: Store)
    ensures CanRun(s, []) && Run(s, []) == s
  {
  }

  lemma RunOne(s: Store, l: Label, rest: seq<Label>)
    requires Enabled(s, l) && CanRun(Apply(s, l), rest)
    ensures CanRun(s, [l] + rest) && Run(s, [l] + rest) == Run(Apply(s, l), rest)
  {
    hide Enabled, Apply;
    assert ([l] + rest)[0] == l && ([l] + rest)[1..] == rest;
  }
}
