/** Writer pipelines over the JetStream protocol: each session checks what it submits against
    its own index, rebuilds it whenever it reads the stream, and nothing is assumed of its callers
    (crates/pardosa/src/store/pipeline.rs:44-70, 355-430, 549-757,
    crates/pardosa-nats/src/adapter.rs:2602-2872). */
module Composition {
  import opened Wire
  import opened Envelope
  import opened History
  import Sessions
  import Nats = NatsWriter

  datatype Index = Index(fibers: Sessions.Slots, seen: set<Id>)

  datatype System = System(net: Nats.State, indexes: map<nat, Index>)

  datatype Step =
    | ReadStream(read: Nats.Label, built: Index)
    | Protocol(move: Nats.Label)

  ghost predicate StandsFor(x: Index, h: seq<EventEnvelope>) {
    Sessions.Represents(x.fibers, x.seen, h) && Sessions.Bounded(x.fibers)
  }

  /** Opening, recovering and reading everything. */
  predicate Reads(l: Nats.Label) {
    l.Open? || l.Recover? || l.Reread?
  }

  /** A session that reads the stream builds an index for what it found, or gives up and changes
      nothing; a submission must pass the index. */
  ghost predicate Enabled(y: System, step: Step) {
    match step
    case ReadStream(l, built) =>
      Reads(l) && Nats.Possible(y.net, l) && StandsFor(built, Nats.Events(y.net.stream))
    case Protocol(l) =>
      && !Reads(l) && Nats.Possible(y.net, l)
      && (l.AckArrives? ==> l.s in y.indexes)
      && (l.Check? ==> l.s in y.indexes
                       && Sessions.ValidateAppend(y.indexes[l.s].fibers, y.indexes[l.s].seen, l.block).Ok?)
  }

  function Committed(x: Index, e: EventEnvelope): Index {
    var f := e.header.fiberId;
    Index(x.fibers[f := Sessions.Active(e, Sessions.CountOf(x.fibers, f) + 1)], x.seen + {e.header.eventId})
  }

  /** Only an acknowledged block enters the index. */
  function Apply(y: System, step: Step): System
    requires Enabled(y, step)
  {
    match step
    case ReadStream(l, built) => System(Nats.Apply(y.net, l), y.indexes[l.s := built])
    case Protocol(l) =>
      System(Nats.Apply(y.net, l),
             if l.AckArrives?
             then y.indexes[l.s := Committed(y.indexes[l.s], y.net.sessions[l.s].phase.msg.block)]
             else y.indexes)
  }

  ghost predicate CanRun(y: System, steps: seq<Step>)
    decreases |steps|
  {
    steps != [] ==> Enabled(y, steps[0]) && CanRun(Apply(y, steps[0]), steps[1..])
  }

  function Run(y: System, steps: seq<Step>): System
    requires CanRun(y, steps)
    decreases |steps|
  {
    if steps == [] then y else Run(Apply(y, steps[0]), steps[1..])
  }

  // ---- Safety ----

  /** The block a session is about to publish or waits for, if any. */
  function InHand(p: Nats.Phase): Option<EventEnvelope> {
    match p
    case Idle => None
    case Checked(b) => Some(b)
    case Awaiting(m) => Some(m.block)
  }

  ghost predicate IndexOk(x: Index, session: Nats.Session) {
    && StandsFor(x, Nats.Events(session.view))
    && (InHand(session.phase).Some? ==> Sessions.Room(x.fibers, InHand(session.phase).value.header.fiberId))
  }

  ghost predicate Inv(y: System) {
    && Nats.Inv(y.net)
    && forall s | s in y.net.sessions :: s in y.indexes && IndexOk(y.indexes[s], y.net.sessions[s])
  }

  /** A submission that passes the index is one the protocol may rely on. */
  lemma StepIsProtocolStep(y: System, l: Nats.Label)
    requires Inv(y) && Enabled(y, Protocol(l))
    ensures Nats.Enabled(y.net, l)
    ensures l.Check? ==> Sessions.Room(y.indexes[l.s].fibers, l.block.header.fiberId)
  {
    hide Nats.Inv, Nats.Possible, Sessions.Represents, Sessions.Bounded, Sessions.ValidateAppend, Extends, Sessions.Room;
    hide Nats.Events;
    if l.Check? {
      assert l.s in y.net.sessions by { CheckKnowsSession(y.net, l); }
      var x := y.indexes[l.s];
      Sessions.AdmitsExactlyExtensions(x.fibers, x.seen, Nats.Events(y.net.sessions[l.s].view), l.block);
    }
  }

  lemma CheckKnowsSession(st: Nats.State, l: Nats.Label)
    requires l.Check? && Nats.Possible(st, l)
    ensures l.s in st.sessions
  {
  }

  /** Committing an event that extends a valid dragline keeps the index standing for it. */
  lemma CommitStands(x: Index, h: seq<EventEnvelope>, e: EventEnvelope)
    requires StandsFor(x, h) && ValidHistory(h + [e]) && Sessions.Room(x.fibers, e.header.fiberId)
    ensures StandsFor(Committed(x, e), h + [e])
  {
    hide Sessions.Represents, Sessions.Bounded, Extends, Sessions.Intact, ValidHistory, Sessions.Room;
    ValidSnoc(h, e);
    Sessions.ValidIffAllIntact(h);
    Sessions.AfterRepresents(x.fibers, x.seen, h, e);
    Sessions.AfterBounded(x.fibers, h, e);
    assert Sessions.Intact(h, e.header.fiberId);
  }

  lemma AckKeepsIndex(y: System, s: nat)
    requires Inv(y) && Enabled(y, Protocol(Nats.AckArrives(s)))
    ensures var end := Apply(y, Protocol(Nats.AckArrives(s)));
            s in end.net.sessions && IndexOk(end.indexes[s], end.net.sessions[s])
  {
    hide StandsFor, Nats.Events, ValidHistory, Sessions.Room, Committed;
    var l := Nats.AckArrives(s);
    var x := y.net.sessions[s];
    var m := x.phase.msg;
    Nats.StepKeepsInv(y.net, l);
    Nats.EventsSnoc(x.view, m);
    ViewIsValid(Nats.Apply(y.net, l), s);
    CommitStands(y.indexes[s], Nats.Events(x.view), m.block);
  }

  /** What a session knows is a prefix of the stream, so it is a valid dragline. */
  lemma ViewIsValid(st: Nats.State, s: nat)
    requires Nats.Inv(st) && s in st.sessions
    ensures ValidHistory(Nats.Events(st.sessions[s].view))
  {
    hide ValidHistory, Nats.Events;
    assert Nats.SessionOk(st, s);
    PrefixIsValid(st.stream, |st.sessions[s].view|);
  }

  lemma {:induction false} PrefixIsValid(slots: seq<Nats.Slot>, n: nat)
    requires n <= |slots| && ValidHistory(Nats.Events(slots))
    ensures ValidHistory(Nats.Events(slots[..n]))
    decreases |slots|
  {
    hide ValidHistory;
    if n < |slots| {
      var k := |slots| - 1;
      var before := slots[..k];
      assert before[..n] == slots[..n];
      if slots[k].Event? {
        ValidSnoc(Nats.Events(before), slots[k].msg.block);
      }
      PrefixIsValid(before, n);
    } else {
      assert slots[..n] == slots;
    }
  }

  /** Unless it reads, only an acknowledgement changes what a session knows, and only a check
      puts a new block in its hand. */
  lemma ViewsStay(st: Nats.State, l: Nats.Label, s: nat)
    requires Nats.Possible(st, l) && !Reads(l) && s in st.sessions && (l.AckArrives? ==> l.s != s)
    ensures var after := Nats.Apply(st, l);
            && s in after.sessions && after.sessions[s].view == st.sessions[s].view
            && (InHand(after.sessions[s].phase) == InHand(st.sessions[s].phase)
                || InHand(after.sessions[s].phase).None?
                || (l.Check? && l.s == s && InHand(after.sessions[s].phase) == Some(l.block)))
  {
    hide Extends, Nats.Events;
  }

  lemma SessionsStay(st: Nats.State, l: Nats.Label)
    requires Nats.Possible(st, l) && !l.Open?
    ensures Nats.Apply(st, l).sessions.Keys == st.sessions.Keys
  {
    hide Extends, Nats.Events;
  }

  lemma ProtocolKeepsInv(y: System, l: Nats.Label)
    requires Inv(y) && Enabled(y, Protocol(l))
    ensures Inv(Apply(y, Protocol(l)))
  {
    hide Nats.Inv, Nats.Possible, Nats.Apply, StandsFor, Sessions.Room, Sessions.ValidateAppend, Committed, InHand, Nats.Enabled;
    var end := Apply(y, Protocol(l));
    StepIsProtocolStep(y, l);
    Nats.StepKeepsInv(y.net, l);
    SessionsStay(y.net, l);
    forall s | s in end.net.sessions ensures s in end.indexes && IndexOk(end.indexes[s], end.net.sessions[s]) {
      assert s in y.net.sessions.Keys;
      if l.AckArrives? && l.s == s {
        AckKeepsIndex(y, s);
      } else {
        ViewsStay(y.net, l, s);
      }
    }
  }

  lemma ReadChangesOne(st: Nats.State, l: Nats.Label)
    requires Reads(l) && Nats.Possible(st, l)
    ensures var after := Nats.Apply(st, l);
            && after.stream == st.stream && l.s in after.sessions && after.sessions == st.sessions[l.s := after.sessions[l.s]]
            && after.sessions[l.s].view == st.stream && after.sessions[l.s].phase.Idle?
  {
    hide Nats.Events;
  }

  lemma ReadKeepsInv(y: System, l: Nats.Label, built: Index)
    requires Inv(y) && Enabled(y, ReadStream(l, built))
    ensures Inv(Apply(y, ReadStream(l, built)))
  {
    hide Nats.Inv, Nats.Possible, Nats.Apply, StandsFor, Sessions.Room, Nats.Events;
    ReadIsProtocolStep(y.net, l);
    Nats.StepKeepsInv(y.net, l);
    ReadChangesOne(y.net, l);
  }

  lemma ReadIsProtocolStep(st: Nats.State, l: Nats.Label)
    requires Reads(l) && Nats.Possible(st, l)
    ensures Nats.Enabled(st, l)
  {
  }

  lemma {:induction false} RunKeepsInv(y: System, steps: seq<Step>)
    requires Inv(y) && CanRun(y, steps)
    ensures Inv(Run(y, steps))
    decreases |steps|
  {
    hide Inv, Enabled, Apply;
    if steps != [] {
      match steps[0] {
        case ReadStream(l, built) => ReadKeepsInv(y, l, built);
        case Protocol(l) => ProtocolKeepsInv(y, l);
      }
      RunKeepsInv(Apply(y, steps[0]), steps[1..]);
    }
  }

  /** End to end: however many writer pipelines run against one stream, whatever envelopes
      their callers submit, however often they read the stream again and whatever the network
      does, the data stream is always a valid dragline. Each session's index stands for exactly
      the prefix of the stream the session knows; where that is more than its engine expects,
      none of its publishes, made or to come, can land as things stand. */
  lemma PipelinesKeepDraglineValid(y: System, steps: seq<Step>)
    requires Nats.Init(y.net) && CanRun(y, steps)
    ensures var end := Run(y, steps);
            && ValidHistory(Nats.Events(end.net.stream))
            && forall s | s in end.net.sessions ::
                 && s in end.indexes && StandsFor(end.indexes[s], Nats.Events(end.net.sessions[s].view))
                 && end.net.sessions[s].view <= end.net.stream
                 && (Nats.Behind(end.net.sessions[s]) ==> !Nats.Armed(end.net, s))
                 && (!Nats.Behind(end.net.sessions[s]) ==>
                       |end.net.sessions[s].view| == end.net.sessions[s].engine.lastDataSeq)
  {
    hide CanRun, Run, StandsFor, ValidHistory, Nats.Events, Nats.Armed, Nats.Behind, Nats.Init;
    Nats.InitInv(y.net);
    InitInv(y);
    RunKeepsInv(y, steps);
    var end := Run(y, steps);
    forall s | s in end.net.sessions ensures SessionFacts(end.net, s) {
      BehindIsDisarmed(end.net, s);
    }
  }

  lemma InitInv(y: System)
    requires Nats.Init(y.net) && Nats.Inv(y.net)
    ensures Inv(y)
  {
  }

  predicate SessionFacts(st: Nats.State, s: nat)
    requires s in st.sessions
  {
    var x := st.sessions[s];
    && x.view <= st.stream
    && (Nats.Behind(x) ==> !Nats.Armed(st, s))
    && (!Nats.Behind(x) ==> |x.view| == x.engine.lastDataSeq)
  }

  lemma BehindIsDisarmed(st: Nats.State, s: nat)
    requires Nats.Inv(st) && s in st.sessions
    ensures SessionFacts(st, s)
  {
    hide Extends, ValidHistory, Nats.Events;
    assert Nats.SessionOk(st, s);
    forall m | m in st.net && m.session == s ensures m.expected <= st.sessions[s].engine.lastDataSeq {
      assert Nats.MsgOk(st, m);
    }
  }

  // ---- The index that is built ----

  lemma SameSlot(x: Index, y: Index, h: seq<EventEnvelope>, f: Id)
    requires StandsFor(x, h) && StandsFor(y, h)
    ensures f in x.fibers <==> f in y.fibers
    ensures f in x.fibers ==> x.fibers[f] == y.fibers[f]
  {
    hide Sessions.Intact, Sessions.EventsOn, LastOfFiber, FreshEvent, Sessions.Bounded;
    assert Sessions.SlotFits(x.fibers, h, f) && Sessions.SlotFits(y.fibers, h, f);
  }

  /** A dragline has at most one index, so every way of building it gives the same. */
  lemma OneIndexPerDragline(x: Index, y: Index, h: seq<EventEnvelope>)
    requires StandsFor(x, h) && StandsFor(y, h)
    ensures x == y
  {
    hide StandsFor, FreshEvent;
    forall f: Id ensures (f in x.fibers <==> f in y.fibers) && (f in x.fibers ==> x.fibers[f] == y.fibers[f]) {
      SameSlot(x, y, h, f);
    }
    assert x.fibers == y.fibers;
    SameSeen(x, y, h);
  }

  lemma SameSeen(x: Index, y: Index, h: seq<EventEnvelope>)
    requires StandsFor(x, h) && StandsFor(y, h)
    ensures x.seen == y.seen
  {
    hide Sessions.SlotFits, FreshEvent, Sessions.Bounded;
    assert forall id: Id :: id in x.seen <==> id in y.seen;
  }

  /** What reading the stream builds from its frames: the index steps of this module speak of,
      whenever the frames are whole envelopes and keep within the bounds. */
  method BuildIndex(frames: seq<Bytes>) returns (built: Option<Index>)
    ensures built.Some? <==> Sessions.AllDecode(frames) && Sessions.Recoverable(Sessions.Events(frames))
    ensures built.Some? ==> StandsFor(built.value, Sessions.Events(frames))
  {
    hide Sessions.Represents, Sessions.Bounded, Sessions.AllDecode, Sessions.Recoverable;
    var index, r := Sessions.BuildFromFrames(frames);
    if r.Err? {
      return None;
    }
    return Some(Index(index.fibers, index.seen));
  }

  // ---- What goes well ----

  /** An event that its index admits and that a certain, idle session of the recorded epoch
      submits passes the check and is handed to the engine. */
  lemma AdmittedIsSent(y: System, s: nat, b: EventEnvelope)
    requires Inv(y) && Nats.Possible(y.net, Nats.Reread(s)) && s in y.indexes
    requires Sessions.ValidateAppend(y.indexes[s].fibers, y.indexes[s].seen, b).Ok?
    requires Nats.MayPublish(y.net.sessions[s].engine, Nats.Claimed(y.net.epoch, y.net.retired))
    ensures var check := Protocol(Nats.Check(s, b, Nats.Claimed(y.net.epoch, y.net.retired)));
            && Enabled(y, check) && s in Apply(y, check).net.sessions
            && Apply(y, check).net.sessions[s].phase == Nats.Checked(b)
            && Enabled(Apply(y, check), Protocol(Nats.Send(s)))
  {
    hide Sessions.ValidateAppend, Nats.Events, Nats.Inv;
  }
}
