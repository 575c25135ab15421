/** Writer pipelines over the file engine: each session rebuilds its index whenever it reads all
    frames, checks what it appends against it, and nothing is assumed of its callers
    (crates/pardosa/src/store/pipeline.rs:44-70, 355-430, 549-757,
    crates/pardosa/src/file.rs:1274-1355, 1716-1878). */
module FilePipelines {
  import opened Wire
  import opened History
  import opened Container
  import opened FileEngine
  import Sessions
  import Runs = FileRuns
  import Composition

  type Index = Composition.Index

  /** The store, and the index of the session that holds it. */
  datatype Pipeline = Pipeline(store: Runs.Store, index: Option<Index>)

  /** A session whose index could not be built has none, and appends nothing. */
  datatype Step =
    | OpenSession(epoch: nat, openIo: OpenIo, built: Option<Index>)
    | AppendFrame(payload: Payload, io: AppendIo)
    | Reread(rebuilt: Index, recounts: bool)
    | Other(move: Runs.Label)

  /** The frames are whole envelopes and form a valid dragline. */
  ghost predicate Sound(ps: seq<Payload>) {
    Sessions.AllDecode(ps) && ValidHistory(Sessions.Events(ps))
  }

  ghost predicate SoundFile(b: Bytes) {
    ScanFile(b).Ok? && Sound(ScanFile(b).value.frames)
  }

  ghost predicate IndexFits(x: Index, b: Bytes) {
    SoundFile(b) && Composition.StandsFor(x, Sessions.Events(ScanFile(b).value.frames))
  }

  predicate Admitted(x: Index, p: Payload) {
    && Sessions.DecodeFrame(p).Some?
    && Sessions.ValidateAppend(x.fibers, x.seen, Sessions.DecodeFrame(p).value).Ok?
  }

  ghost predicate Enabled(y: Pipeline, step: Step) {
    match step
    case OpenSession(e, io, built) =>
      && Runs.Enabled(y.store, Runs.Open(e, io))
      && (built.Some? ==>
            && OpenWrite(y.store.disk, y.store.meta, e, io).1.Ok?
            && ScanFile(y.store.disk.bytes).Ok?
            && var ps := ScanFile(y.store.disk.bytes).value.frames;
               Sessions.AllDecode(ps) && Composition.StandsFor(built.value, Sessions.Events(ps)))
    case AppendFrame(p, io) =>
      Runs.Enabled(y.store, Runs.Append(p, io)) && y.index.Some? && Admitted(y.index.value, p)
    // Folding over all envelopes also counts the frames anew; merely reading them does not.
    case Reread(x, _) => y.index.Some? && Runs.Enabled(y.store, Runs.Recount) && IndexFits(x, y.store.disk.bytes)
    case Other(l) => !l.Open? && !l.Append? && Runs.Enabled(y.store, l)
  }

  predicate Lands(s: Runs.Store, io: AppendIo)
    requires s.live.Some?
  {
    CheckAuthority(s.live.value, s.meta).None? && io == WriteSucceeds(true)
  }

  /** Only a landed frame enters the index. */
  function Apply(y: Pipeline, step: Step): Pipeline
    requires Enabled(y, step)
  {
    match step
    case OpenSession(e, io, built) => Pipeline(Runs.Apply(y.store, Runs.Open(e, io)), built)
    case AppendFrame(p, io) =>
      Pipeline(Runs.ApplyAppend(y.store, p, io),
               if Lands(y.store, io) then Some(Composition.Committed(y.index.value, Sessions.DecodeFrame(p).value))
               else y.index)
    case Reread(x, recounts) =>
      Pipeline(if recounts then Runs.Apply(y.store, Runs.Recount) else y.store, Some(x))
    case Other(l) => Pipeline(Runs.Apply(y.store, l), y.index)
  }

  ghost predicate CanRun(y: Pipeline, steps: seq<Step>)
    decreases |steps|
  {
    steps != [] ==> Enabled(y, steps[0]) && CanRun(Apply(y, steps[0]), steps[1..])
  }

  function Run(y: Pipeline, steps: seq<Step>): Pipeline
    requires CanRun(y, steps)
    decreases |steps|
  {
    if steps == [] then y else Run(Apply(y, steps[0]), steps[1..])
  }

  // ---- Safety ----

  ghost predicate CrashesSound(d: Disk) {
    forall c | c in d.crashes :: SoundFile(c)
  }

  /** A certain session has a clean file, and its index, if any, stands for it. */
  ghost predicate SessionOk(y: Pipeline) {
    y.store.live.Some? && !y.store.live.value.uncertain && y.index.Some? ==>
      IndexFits(y.index.value, y.store.disk.bytes)
  }

  ghost predicate Inv(y: Pipeline) {
    Runs.Inv(y.store) && CrashesSound(y.store.disk) && SessionOk(y)
  }

  lemma CleanFile(s: Runs.Store)
    requires Runs.Inv(s) && s.live.Some? && !s.live.value.uncertain
    ensures ScanFile(s.disk.bytes).Ok? && s.disk.bytes == File(ScanFile(s.disk.bytes).value.frames)
  {
    hide File, ScanFile, Runs.Kept, Runs.KeepsLanded, Runs.Image, Runs.OneUndetermined, Runs.SettledSession;
    var keep :| Runs.ImageBy(s.disk.bytes, s.attempts, keep, [])
                && |Runs.Kept(s.attempts, keep)| == s.live.value.frameCount;
    var ps := Runs.Kept(s.attempts, keep);
    Runs.AppendNil(File(ps));
    CleanFileScans(ps);
  }

  /** Any part of a frame written after whole frames scans to those frames, or to one more. */
  lemma PartialWrite(ps: seq<Payload>, p: Payload, k: nat)
    requires k <= |Frame(p)|
    ensures var b := File(ps) + Frame(p)[..k];
            ScanFile(b).Ok? && ScanFile(b).value.frames == if k == |Frame(p)| then ps + [p] else ps
  {
    hide File, Frame, ScanFile, ParseFrame;
    if k == |Frame(p)| {
      assert Frame(p)[..k] == Frame(p);
      FileSnoc(ps, p);
      CleanFileScans(ps + [p]);
    } else {
      if k > 0 {
        FrameCutShort(p, k);
      }
      ScanFileExact(File(ps) + Frame(p)[..k], ps, Frame(p)[..k]);
    }
  }

  lemma EventsOfMore(ps: seq<Payload>, p: Payload)
    requires Sessions.AllDecode(ps) && Sessions.DecodeFrame(p).Some?
    ensures Sessions.AllDecode(ps + [p])
    ensures Sessions.Events(ps + [p]) == Sessions.Events(ps) + [Sessions.DecodeFrame(p).value]
  {
    hide Sessions.DecodeFrame;
    var qs := ps + [p];
    forall i | 0 <= i < |qs| ensures Sessions.DecodeFrame(qs[i]).Some? {
      assert i < |ps| ==> qs[i] == ps[i];
    }
  }

  /** A frame the index admits keeps the frames sound, and once committed the index stands for
      them. */
  lemma AdmittedIsSound(x: Index, ps: seq<Payload>, p: Payload)
    requires Sound(ps) && Composition.StandsFor(x, Sessions.Events(ps)) && Admitted(x, p)
    ensures Sound(ps + [p])
    ensures Composition.StandsFor(Composition.Committed(x, Sessions.DecodeFrame(p).value), Sessions.Events(ps + [p]))
  {
    hide Sessions.Represents, Sessions.Bounded, Sessions.ValidateAppend, Sessions.Room, Extends, Sessions.Intact;
    hide ValidHistory, Sessions.DecodeFrame, Composition.Committed;
    var h, e := Sessions.Events(ps), Sessions.DecodeFrame(p).value;
    Sessions.AdmitsExactlyExtensions(x.fibers, x.seen, h, e);
    EventsOfMore(ps, p);
    ValidSnoc(h, e);
    Composition.CommitStands(x, h, e);
  }

  lemma AppendCrashIsSound(y: Pipeline, p: Payload, io: AppendIo, c: Bytes)
    requires Inv(y) && Enabled(y, AppendFrame(p, io)) && !io.SeekFails?
    requires CheckAuthority(y.store.live.value, y.store.meta).None?
    requires c in AppendDisk(y.store.disk, Frame(p), io).crashes
    ensures SoundFile(c)
    ensures io == WriteSucceeds(true) ==>
              IndexFits(Composition.Committed(y.index.value, Sessions.DecodeFrame(p).value), c)
  {
    hide CheckAuthority, AppendDisk, Sound, Admitted, ScanFile, File, Frame, Composition.Committed, Composition.StandsFor;
    hide Runs.Inv;
    var s := y.store;
    Runs.AuthorityMeansCertain(s.live.value, s.meta);
    CleanFile(s);
    var ps := ScanFile(s.disk.bytes).value.frames;
    AdmittedIsSound(y.index.value, ps, p);
    VisibleMayRemain(s);
    Runs.AppendCrashes(s.disk, Frame(p), io, c);
    if io == WriteSucceeds(true) {
      assert Frame(p)[..|Frame(p)|] == Frame(p);
      PartialWrite(ps, p, |Frame(p)|);
    } else if c !in s.disk.crashes {
      var k :| 0 <= k <= |Frame(p)| && c == s.disk.bytes + Frame(p)[..k];
      PartialWrite(ps, p, k);
    }
  }

  lemma VisibleMayRemain(s: Runs.Store)
    requires Runs.Inv(s)
    ensures s.disk.bytes in s.disk.crashes
  {
  }

  lemma AppendKeepsInv(y: Pipeline, p: Payload, io: AppendIo)
    requires Inv(y) && Enabled(y, AppendFrame(p, io))
    ensures Inv(Apply(y, AppendFrame(p, io)))
  {
    hide CheckAuthority, AppendDisk, SoundFile, IndexFits, Admitted, Composition.Committed, Runs.Inv, IoFits;
    var s := y.store;
    Runs.AppendKeepsInv(s, p, io);
    if CheckAuthority(s.live.value, s.meta).None? && !io.SeekFails? {
      var d := AppendDisk(s.disk, Frame(p), io);
      forall c | c in d.crashes ensures SoundFile(c) {
        AppendCrashIsSound(y, p, io, c);
      }
      if io == WriteSucceeds(true) {
        VisibleMayRemain(Runs.ApplyAppend(s, p, io));
        AppendCrashIsSound(y, p, io, d.bytes);
      }
    } else {
      Runs.SeekTouchesNothing(s.disk, Frame(p), io);
    }
  }

  lemma OpenKeepsInv(y: Pipeline, step: Step)
    requires step.OpenSession? && Inv(y) && Enabled(y, step)
    ensures Inv(Apply(y, step))
  {
    hide OpenAuthority, ScanFile, Sound, Composition.StandsFor, Runs.Inv;
    Runs.OpenKeepsInv(y.store, step.epoch, step.openIo);
    VisibleMayRemain(y.store);
    CutTailScans(y.store.disk.bytes);
  }

  lemma RereadKeepsInv(y: Pipeline, step: Step)
    requires step.Reread? && Inv(y) && Enabled(y, step)
    ensures Inv(Apply(y, step))
  {
    hide IndexFits, SoundFile, Runs.Inv, ScanFile;
    Runs.StepKeepsInv(y.store, Runs.Recount);
  }

  lemma OtherKeepsInv(y: Pipeline, l: Runs.Label)
    requires Inv(y) && Enabled(y, Other(l))
    ensures Inv(Apply(y, Other(l)))
  {
    hide CheckAuthority, SoundFile, IndexFits, Runs.Inv;
    Runs.StepKeepsInv(y.store, l);
    VisibleMayRemain(y.store);
  }

  lemma {:induction false} RunKeepsInv(y: Pipeline, steps: seq<Step>)
    requires Inv(y) && CanRun(y, steps)
    ensures Inv(Run(y, steps))
    decreases |steps|
  {
    hide Inv, Enabled, Apply;
    if steps != [] {
      match steps[0] {
        case OpenSession(_, _, _) => OpenKeepsInv(y, steps[0]);
        case AppendFrame(p, io) => AppendKeepsInv(y, p, io);
        case Reread(_, _) => RereadKeepsInv(y, steps[0]);
        case Other(l) => OtherKeepsInv(y, l);
      }
      RunKeepsInv(Apply(y, steps[0]), steps[1..]);
    }
  }

  lemma InitInv(y: Pipeline)
    requires Runs.Init(y.store)
    ensures Inv(y)
  {
    hide ScanFile, File, Runs.Inv;
    Runs.InitInv(y.store);
    CleanFileScans([]);
    assert Sessions.AllDecode([]) && Sessions.Events([]) == [];
  }

  /** End to end on files: whatever envelopes callers submit, however often they read the file
      again, however system calls fail and sessions end, crash and reopen, every contents a crash can leave decodes to a valid
      dragline, and the index of a certain session stands for exactly what its file holds. */
  lemma FileDraglineStaysValid(y: Pipeline, steps: seq<Step>, contents: Bytes)
    requires Runs.Init(y.store) && CanRun(y, steps) && contents in Run(y, steps).store.disk.crashes
    ensures SoundFile(contents) && SessionOk(Run(y, steps))
  {
    hide CanRun, Run, SoundFile, SessionOk, Runs.Inv, Runs.Init;
    InitInv(y);
    RunKeepsInv(y, steps);
  }

  /** An append that its index admits, from an authorised session on a working disk, lands: the
      file holds the frame last, durably, and the index stands for it. */
  lemma AdmittedLands(y: Pipeline, p: Payload)
    requires Inv(y) && y.store.live.Some? && y.index.Some? && Admitted(y.index.value, p)
    requires Authorised(y.store.live.value, y.store.meta)
    ensures var step := AppendFrame(p, WriteSucceeds(true));
            && Enabled(y, step)
            && var end := Apply(y, step);
               && end.store.disk == Settled(y.store.disk.bytes + Frame(p))
               && end.index.Some? && IndexFits(end.index.value, end.store.disk.bytes)
               && ScanFile(end.store.disk.bytes).value.frames == ScanFile(y.store.disk.bytes).value.frames + [p]
  {
    hide Authorised, CheckAuthority, AppendDisk, IndexFits, SoundFile, Admitted, ScanFile, File, Frame, Runs.Inv;
    var io := WriteSucceeds(true);
    AuthorityIff(y.store.live.value, y.store.meta);
    AppendVerdict(y.store.disk, Frame(p), y.store.live.value, io);
    var d := AppendDisk(y.store.disk, Frame(p), io);
    AppendCrashIsSound(y, p, io, d.bytes);
    Runs.AuthorityMeansCertain(y.store.live.value, y.store.meta);
    CleanFile(y.store);
    assert Frame(p)[..|Frame(p)|] == Frame(p);
    PartialWrite(ScanFile(y.store.disk.bytes).value.frames, p, |Frame(p)|);
    FitsMeansSound(Apply(y, AppendFrame(p, io)).index.value, d.bytes);
  }

  lemma FitsMeansSound(x: Index, b: Bytes)
    requires IndexFits(x, b)
    ensures ScanFile(b).Ok?
  {
    hide ScanFile;
  }
}
