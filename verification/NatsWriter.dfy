/** The JetStream writer protocol: many sessions publish to one data stream, each with the
    last sequence it knows, while acknowledgements are lost, sends fail ambiguously, messages
    arrive late and ownership changes hands between the authority check and the publish
    (crates/pardosa-nats/src/adapter.rs:2485-2872, crates/pardosa/src/store/pipeline.rs:549-757).

    The broker is assumed to keep streams append-only and to accept a message only when the
    last sequence equals the expected one it carries. Sequence `n` is `stream[n - 1]`. */
module NatsWriter {
  import opened Wire
  import opened Envelope
  import opened History

  // ---- One engine ----

  datatype Engine = Engine(carriedEpoch: nat, lastDataSeq: nat, uncertain: bool, dataEventsLanded: bool)

  /** What reading the meta stream yields. */
  datatype MetaRead = Unreadable | NoClaim(retired: bool) | Claimed(epoch: nat, retired: bool)

  datatype Failure =
    | OwnershipRecordUnreadable
    | RetiredMigrationSource
    | StaleEpoch
    | SequenceOverflow
    | ConcurrencyConflict
    | TransportUnavailable

  datatype Verdict = Landed(sequence: nat) | Undetermined(carriedEpoch: nat)

  datatype PublishOutcome =
    | SendConflict
    | SendFailed
    | Acked(sequence: nat, rightStream: bool)
    | AckConflict
    | AckFailed
    | TimedOut

  function CheckAuthority(e: Engine, m: MetaRead): Option<Failure> {
    if e.uncertain || m.Unreadable? then Some(OwnershipRecordUnreadable)
    else if m.retired then Some(RetiredMigrationSource)
    else if m.NoClaim? then Some(OwnershipRecordUnreadable)
    else if m.epoch != e.carriedEpoch then Some(StaleEpoch)
    else None
  }

  /** Losing authority makes the session uncertain for good; an unreadable record does not. */
  function AfterCheck(e: Engine, m: MetaRead): Engine {
    var f := CheckAuthority(e, m);
    if f == Some(StaleEpoch) || f == Some(RetiredMigrationSource) then e.(uncertain := true) else e
  }

  function AfterPublish(e: Engine, o: PublishOutcome): Engine {
    match o
    case SendFailed => e
    case Acked(n, true) => e.(lastDataSeq := n, dataEventsLanded := true)
    case _ => e.(uncertain := true)
  }

  function PublishResult(e: Engine, o: PublishOutcome): Result<Verdict, Failure> {
    match o
    case SendFailed => Err(TransportUnavailable)
    case SendConflict => Err(ConcurrencyConflict)
    case AckConflict => Err(ConcurrencyConflict)
    case Acked(n, true) => Ok(Landed(n))
    case _ => Ok(Undetermined(e.carriedEpoch))
  }

  predicate MayPublish(e: Engine, m: MetaRead) {
    CheckAuthority(e, m).None? && e.lastDataSeq < U64_MAX
  }

  /** A session publishes exactly when it is certain, knows a next sequence, and reads its own
      epoch on a store that is not retired. */
  lemma MayPublishIff(e: Engine, m: MetaRead)
    ensures MayPublish(e, m) <==>
              !e.uncertain && m == Claimed(e.carriedEpoch, false) && e.lastDataSeq < U64_MAX
  {
  }

  /** Why an append is refused: an uncertain session and one that cannot read a claim are told
      the same, then a retirement counts before a foreign epoch. The last two make the session
      uncertain; nothing else about a refusal changes it. */
  lemma RefusalMeans(e: Engine, m: MetaRead)
    ensures CheckAuthority(e, m) == Some(OwnershipRecordUnreadable) <==>
              e.uncertain || m.Unreadable? || (m.NoClaim? && !m.retired)
    ensures CheckAuthority(e, m) == Some(RetiredMigrationSource) <==> !e.uncertain && !m.Unreadable? && m.retired
    ensures CheckAuthority(e, m) == Some(StaleEpoch) <==>
              !e.uncertain && m.Claimed? && !m.retired && m.epoch != e.carriedEpoch
    ensures AfterCheck(e, m) == e.(uncertain := e.uncertain || (!m.Unreadable? && m.retired)
                                                || (m.Claimed? && m.epoch != e.carriedEpoch))
  {
  }

  class NatsEngine {
    const carriedEpoch: nat
    var lastDataSeq: nat
    var uncertain: bool
    var dataEventsLanded: bool

    constructor (epoch: nat, last: nat, landed: bool)
      ensures Model() == Engine(epoch, last, false, landed)
    {
      carriedEpoch, lastDataSeq, uncertain, dataEventsLanded := epoch, last, false, landed;
    }

    ghost function Model(): Engine
      reads this
    {
      Engine(carriedEpoch, lastDataSeq, uncertain, dataEventsLanded)
    }

    /** One append: check authority, publish once with the last known sequence, settle on the
        broker's answer. `published` is the expected sequence the publish carried. The outcome
        of the publish is a parameter; the method ties the engine to the steps below, where
        what follows from them is proved. */
    method AppendBlock(meta: MetaRead, outcome: PublishOutcome)
      returns (published: Option<nat>, r: Result<Verdict, Failure>)
      modifies this
      ensures !MayPublish(old(Model()), meta) ==>
                && published.None? && Model() == AfterCheck(old(Model()), meta)
                && r == Err(if CheckAuthority(old(Model()), meta).Some?
                            then CheckAuthority(old(Model()), meta).value else SequenceOverflow)
      ensures MayPublish(old(Model()), meta) ==>
                && published == Some(old(lastDataSeq))
                && Model() == AfterPublish(old(Model()), outcome)
                && r == PublishResult(old(Model()), outcome)
      ensures published.Some? <==>
                !old(uncertain) && meta == Claimed(carriedEpoch, false) && old(lastDataSeq) < U64_MAX
      ensures forall n :: r == Ok(Landed(n)) <==> published.Some? && outcome == Acked(n, true)
      ensures r.Ok? && r.value.Landed? ==> lastDataSeq == r.value.sequence && dataEventsLanded
      ensures !(r.Ok? && r.value.Landed?) ==> lastDataSeq == old(lastDataSeq) && dataEventsLanded == old(dataEventsLanded)
      ensures r == Ok(Undetermined(carriedEpoch)) <==>
                published.Some? && (outcome.AckFailed? || outcome.TimedOut? || (outcome.Acked? && !outcome.rightStream))
      ensures r == Err(ConcurrencyConflict) <==> published.Some? && (outcome.SendConflict? || outcome.AckConflict?)
      ensures old(uncertain) ==> uncertain && published.None? && r == Err(OwnershipRecordUnreadable)
      ensures uncertain <==> || old(uncertain) || (r.Ok? && r.value.Undetermined?)
                             || r in {Err(ConcurrencyConflict), Err(StaleEpoch), Err(RetiredMigrationSource)}
    {
      published := None;
      if uncertain || meta.Unreadable? {
        return published, Err(OwnershipRecordUnreadable);
      }
      if meta.retired {
        uncertain := true;
        return published, Err(RetiredMigrationSource);
      }
      if meta.NoClaim? {
        return published, Err(OwnershipRecordUnreadable);
      }
      if meta.epoch != carriedEpoch {
        uncertain := true;
        return published, Err(StaleEpoch);
      }
      if lastDataSeq >= U64_MAX {
        return published, Err(SequenceOverflow);
      }
      published := Some(lastDataSeq);
      match outcome {
        case SendFailed => return published, Err(TransportUnavailable);
        case SendConflict =>
          uncertain := true;
          return published, Err(ConcurrencyConflict);
        case AckConflict =>
          uncertain := true;
          return published, Err(ConcurrencyConflict);
        case Acked(sequence, rightStream) =>
          if !rightStream {
            uncertain := true;
            return published, Ok(Undetermined(carriedEpoch));
          }
          lastDataSeq := sequence;
          dataEventsLanded := true;
          return published, Ok(Landed(sequence));
        case AckFailed =>
          uncertain := true;
          return published, Ok(Undetermined(carriedEpoch));
        case TimedOut =>
          uncertain := true;
          return published, Ok(Undetermined(carriedEpoch));
      }
    }
  }

  // ---- The protocol ----

  /** A publish in flight: who sent it, on which attempt, on top of which sequence. */
  datatype Msg = Msg(session: nat, attempt: nat, expected: nat, block: EventEnvelope)

  datatype Slot = Header | Event(msg: Msg)

  datatype Phase = Idle | Checked(block: EventEnvelope) | Awaiting(msg: Msg)

  /** `view` is the stream as the session last read it and its own blocks acknowledged since;
      `openedAt` and `recoveredAt` are the lengths of the stream when the session opened and when it
      last recovered. The engine's last sequence falls behind the view when the session reads
      everything without recovering. */
  datatype Session =
    Session(engine: Engine, openedAt: nat, recoveredAt: nat, view: seq<Slot>, phase: Phase, attempts: nat)

  /** `net` holds every message ever handed to the network; any of them may arrive at any time. */
  datatype State = State(
    stream: seq<Slot>, net: set<Msg>, sessions: map<nat, Session>, epoch: nat, retired: bool)

  datatype Label =
    | Open(s: nat, carriedEpoch: nat)
    | Recover(s: nat)
    | Reread(s: nat)
    | Check(s: nat, block: EventEnvelope, meta: MetaRead)
    | Send(s: nat)
    | SendFails(s: nat, escaped: bool)
    | SendConflicts(s: nat)
    | Deliver(m: Msg)
    | AckArrives(s: nat)
    | AckMissing(s: nat, outcome: PublishOutcome)
    | Claim(newEpoch: nat)
    | Retire

  function Events(slots: seq<Slot>): seq<EventEnvelope> {
    if slots == [] then [] else
    var n := |slots| - 1;
    match slots[n]
    case Header => Events(slots[..n])
    case Event(m) => Events(slots[..n]) + [m.block]
  }

  function Outgoing(s: nat, x: Session): Msg
    requires x.phase.Checked?
  {
    Msg(s, x.attempts, x.engine.lastDataSeq, x.phase.block)
  }

  /** What can happen, whatever the callers submit. */
  predicate Possible(st: State, l: Label) {
    match l
    case Open(s, _) => s !in st.sessions
    case Recover(s) => s in st.sessions && st.sessions[s].phase.Idle?
    case Reread(s) => s in st.sessions && st.sessions[s].phase.Idle?
    case Check(s, _, m) =>
      && s in st.sessions && st.sessions[s].phase.Idle?
      && (m.Unreadable? || m == Claimed(st.epoch, st.retired))
    case Send(s) => s in st.sessions && st.sessions[s].phase.Checked?
    case SendFails(s, _) => s in st.sessions && st.sessions[s].phase.Checked?
    case SendConflicts(s) =>
      s in st.sessions && st.sessions[s].phase.Checked? && st.sessions[s].engine.lastDataSeq != |st.stream|
    case Deliver(m) => m in st.net && m.expected == |st.stream|
    case AckArrives(s) =>
      && s in st.sessions && st.sessions[s].phase.Awaiting?
      && st.sessions[s].phase.msg.expected < |st.stream|
      && st.stream[st.sessions[s].phase.msg.expected] == Event(st.sessions[s].phase.msg)
    case AckMissing(s, o) =>
      && s in st.sessions && st.sessions[s].phase.Awaiting?
      && (o.AckFailed? || o.TimedOut? || (o.Acked? && !o.rightStream)
          || (o.AckConflict? && st.sessions[s].phase.msg.expected != |st.stream|))
    case Claim(e) => e > st.epoch
    case Retire => true
  }

  /** What can happen when callers submit only what extends the history they know. */
  predicate Enabled(st: State, l: Label) {
    Possible(st, l) && (l.Check? ==> Extends(Events(st.sessions[l.s].view), l.block))
  }

  function Put(st: State, s: nat, x: Session): State {
    st.(sessions := st.sessions[s := x])
  }

  function Apply(st: State, l: Label): State
    requires Possible(st, l)
  {
    match l
    case Open(s, e) =>
      var n := |st.stream|;
      Put(st, s, Session(Engine(e, n, false, n > 1), n, n, st.stream, Idle, 0))
    // A fold over all envelopes recovers once more; an uncertain session stays uncertain.
    case Recover(s) =>
      var x := st.sessions[s];
      Put(st, s, x.(engine := x.engine.(lastDataSeq := |st.stream|), recoveredAt := |st.stream|, view := st.stream))
    // Reading all envelopes rebuilds what the session knows, not what its engine expects.
    case Reread(s) => Put(st, s, st.sessions[s].(view := st.stream))
    case Check(s, b, m) =>
      var x := st.sessions[s];
      Put(st, s, if MayPublish(x.engine, m) then x.(phase := Checked(b)) else x.(engine := AfterCheck(x.engine, m)))
    case Send(s) =>
      var x := st.sessions[s];
      Put(st, s, x.(phase := Awaiting(Outgoing(s, x)), attempts := x.attempts + 1))
        .(net := st.net + {Outgoing(s, x)})
    case SendFails(s, escaped) =>
      var x := st.sessions[s];
      Put(st, s, x.(engine := AfterPublish(x.engine, SendFailed), phase := Idle, attempts := x.attempts + 1))
        .(net := if escaped then st.net + {Outgoing(s, x)} else st.net)
    case SendConflicts(s) =>
      var x := st.sessions[s];
      Put(st, s, x.(engine := AfterPublish(x.engine, SendConflict), phase := Idle, attempts := x.attempts + 1))
    case Deliver(m) => st.(stream := st.stream + [Event(m)])
    case AckArrives(s) =>
      var x := st.sessions[s];
      var m := x.phase.msg;
      Put(st, s, x.(engine := AfterPublish(x.engine, Acked(m.expected + 1, true)),
                    view := x.view + [Event(m)], phase := Idle))
    case AckMissing(s, o) =>
      var x := st.sessions[s];
      Put(st, s, x.(engine := AfterPublish(x.engine, o), phase := Idle))
    case Claim(e) => st.(epoch := e)
    case Retire => st.(retired := true)
  }

  predicate Init(st: State) {
    st.stream == [Header] && st.net == {} && st.sessions == map[]
  }

  predicate CanRun(st: State, ls: seq<Label>)
    decreases |ls|
  {
    ls != [] ==> Enabled(st, ls[0]) && CanRun(Apply(st, ls[0]), ls[1..])
  }

  function Run(st: State, ls: seq<Label>): State
    requires CanRun(st, ls)
    decreases |ls|
  {
    if ls == [] then st else Run(Apply(st, ls[0]), ls[1..])
  }

  // ---- Safety ----

  predicate OwnedBy(x: Slot, s: nat) {
    x.Event? && x.msg.session == s
  }

  /** Since it last recovered, a session's landed blocks are one run of the stream that starts
      right where it recovered, and at most one of them, the last, is not yet acknowledged. */
  predicate RunSince(stream: seq<Slot>, s: nat, first: nat, last: nat) {
    && first <= last <= |stream|
    && (forall i | first <= i < last :: OwnedBy(stream[i], s))
    && (forall i | 0 <= i < |stream| && OwnedBy(stream[i], s) :: i <= last)
  }

  /** The engine expects less than the session knows. */
  predicate Behind(x: Session) {
    x.engine.lastDataSeq < |x.view|
  }

  predicate SessionOk(st: State, s: nat)
    requires s in st.sessions
  {
    var x := st.sessions[s];
    && x.openedAt <= x.recoveredAt
    && (forall i | 0 <= i < |st.stream| && OwnedBy(st.stream[i], s) :: x.openedAt <= i)
    && RunSince(st.stream, s, x.recoveredAt, x.engine.lastDataSeq)
    && x.engine.lastDataSeq <= |x.view| <= |st.stream| && x.view == st.stream[..|x.view|]
    && (x.phase.Checked? ==> Extends(Events(x.view), x.phase.block))
    && (x.phase.Awaiting? ==> AwaitsOk(st.stream, x, s))
  }

  /** A publish of a session that is behind is not the block that stands where it aims. */
  predicate AwaitsOk(stream: seq<Slot>, x: Session, s: nat)
    requires x.phase.Awaiting? && x.engine.lastDataSeq <= |x.view| <= |stream|
  {
    var m := x.phase.msg;
    && m.session == s && m.expected == x.engine.lastDataSeq
    && (Behind(x) ==> stream[m.expected] != Event(m))
  }

  /** Where a message can land, it extends the history that is there. */
  predicate AimsOk(st: State, m: Msg) {
    && m.session in st.sessions
    && st.sessions[m.session].openedAt <= m.expected
    && m.expected <= st.sessions[m.session].engine.lastDataSeq <= |st.stream|
    && (m.expected == |st.stream| ==> Extends(Events(st.stream), m.block))
  }

  predicate MsgOk(st: State, m: Msg) {
    AimsOk(st, m) && m.attempt < st.sessions[m.session].attempts
  }

  predicate SlotOk(st: State, i: nat)
    requires i < |st.stream|
  {
    st.stream[i].Event? ==> st.stream[i].msg.expected == i && st.stream[i].msg in st.net
  }

  predicate Inv(st: State) {
    && ValidHistory(Events(st.stream))
    && (forall s | s in st.sessions :: SessionOk(st, s))
    && (forall m | m in st.net :: MsgOk(st, m))
    && (forall i | 0 <= i < |st.stream| :: SlotOk(st, i))
  }

  lemma EventsSnoc(slots: seq<Slot>, m: Msg)
    ensures Events(slots + [Event(m)]) == Events(slots) + [m.block]
  {
    assert (slots + [Event(m)])[..|slots|] == slots;
  }

  lemma InitInv(st: State)
    requires Init(st)
    ensures Inv(st)
  {
    HeaderHasNoEvents();
  }

  lemma HeaderHasNoEvents()
    ensures Events([Header]) == []
  {
    assert [Header][..0] == [];
  }

  /** What a step that only replaces one session needs. */
  lemma PutKeepsInv(st: State, st': State, s: nat)
    requires Inv(st) && s in st'.sessions
    requires st'.stream == st.stream && st'.net >= st.net
    requires st'.sessions == st.sessions[s := st'.sessions[s]]
    requires SessionOk(st', s)
    requires forall m | m in st'.net && (m !in st.net || m.session == s) :: MsgOk(st', m)
    ensures Inv(st')
  {
    hide Extends, ValidHistory, Events;
    forall t | t in st'.sessions ensures SessionOk(st', t) {
      if t != s {
        assert SessionOk(st, t);
      }
    }
    forall m | m in st'.net ensures MsgOk(st', m) {
      if m in st.net && m.session != s {
        assert MsgOk(st, m);
      }
    }
    forall i | 0 <= i < |st'.stream| ensures SlotOk(st', i) {
      assert SlotOk(st, i);
    }
  }

  /** A new session owns nothing: every landed message came from a session already open. */
  lemma OpenKeepsInv(st: State, s: nat, e: nat)
    requires Inv(st) && s !in st.sessions
    ensures Inv(Apply(st, Open(s, e)))
  {
    hide Extends, ValidHistory, Events;
    var st' := Apply(st, Open(s, e));
    forall i | 0 <= i < |st.stream| ensures !OwnedBy(st.stream[i], s) {
      assert SlotOk(st, i);
      if st.stream[i].Event? {
        assert MsgOk(st, st.stream[i].msg);
      }
    }
    assert st.stream[..|st.stream|] == st.stream;
    forall m | m in st'.net ensures MsgOk(st', m) {
      assert MsgOk(st, m);
    }
    forall t | t in st'.sessions ensures SessionOk(st', t) {
      if t != s {
        assert SessionOk(st, t);
      }
    }
    forall i | 0 <= i < |st'.stream| ensures SlotOk(st', i) {
      assert SlotOk(st, i);
    }
  }

  /** The message a session is about to send lands, if it ever does, as a valid extension. */
  lemma OutgoingOk(st: State, s: nat)
    requires Inv(st) && s in st.sessions && st.sessions[s].phase.Checked?
    ensures AimsOk(st, Outgoing(s, st.sessions[s]))
  {
    hide Extends, ValidHistory, Events;
    assert SessionOk(st, s);
    assert st.stream[..|st.stream|] == st.stream;
  }

  lemma LocalKeepsInv(st: State, l: Label)
    requires Inv(st) && Enabled(st, l) && (l.Check? || l.SendConflicts? || l.AckMissing?)
    ensures Inv(Apply(st, l))
  {
    hide Extends, ValidHistory, Events, AwaitsOk, RunSince;
    var st' := Apply(st, l);
    assert SessionOk(st, l.s);
    forall m | m in st'.net && m.session == l.s ensures MsgOk(st', m) {
      assert MsgOk(st, m);
    }
    PutKeepsInv(st, st', l.s);
  }

  /** No slot holds a publish that has not been made. */
  lemma FreshPublish(st: State, s: nat, i: nat)
    requires Inv(st) && s in st.sessions && st.sessions[s].phase.Checked? && i < |st.stream|
    ensures st.stream[i] != Event(Outgoing(s, st.sessions[s]))
  {
    hide Extends, ValidHistory, Events, SessionOk;
    assert SlotOk(st, i);
    if st.stream[i].Event? {
      assert MsgOk(st, st.stream[i].msg);
    }
  }

  lemma SendKeepsInv(st: State, l: Label)
    requires Inv(st) && Enabled(st, l) && (l.Send? || l.SendFails?)
    ensures Inv(Apply(st, l))
  {
    hide Extends, ValidHistory, Events, RunSince;
    var st', x := Apply(st, l), st.sessions[l.s];
    assert SessionOk(st, l.s);
    OutgoingOk(st, l.s);
    if Behind(x) {
      FreshPublish(st, l.s, x.engine.lastDataSeq);
    }
    forall m | m in st'.net && (m !in st.net || m.session == l.s) ensures MsgOk(st', m) {
      if m in st.net {
        assert MsgOk(st, m);
      }
    }
    PutKeepsInv(st, st', l.s);
  }

  /** Reading the stream again gives up nothing: messages sent before still aim where they did. */
  lemma ReadKeepsInv(st: State, l: Label)
    requires Inv(st) && Enabled(st, l) && (l.Recover? || l.Reread?)
    ensures Inv(Apply(st, l))
  {
    hide Extends, ValidHistory, Events;
    var st' := Apply(st, l);
    assert SessionOk(st, l.s);
    assert st.stream[..|st.stream|] == st.stream;
    forall m | m in st'.net && m.session == l.s ensures MsgOk(st', m) {
      assert MsgOk(st, m);
    }
    PutKeepsInv(st, st', l.s);
  }

  lemma AckKeepsInv(st: State, s: nat)
    requires Inv(st) && Enabled(st, AckArrives(s))
    ensures Inv(Apply(st, AckArrives(s)))
  {
    hide Extends, ValidHistory, Events;
    var st' := Apply(st, AckArrives(s));
    var n := st.sessions[s].engine.lastDataSeq;
    assert SessionOk(st, s);
    assert st.stream[..n + 1] == st.stream[..n] + [st.stream[n]];
    forall m | m in st'.net && m.session == s ensures MsgOk(st', m) {
      assert MsgOk(st, m);
    }
    PutKeepsInv(st, st', s);
  }

  /** A message lands only on top of exactly the history it was checked against. */
  lemma DeliverKeepsInv(st: State, m: Msg)
    requires Inv(st) && Enabled(st, Deliver(m))
    ensures Inv(Apply(st, Deliver(m)))
  {
    hide Extends, ValidHistory, Events;
    var st' := Apply(st, Deliver(m));
    var n := |st.stream|;
    assert MsgOk(st, m);
    assert st.stream[..n] == st.stream;
    EventsSnoc(st.stream, m);
    ValidSnoc(Events(st.stream), m.block);
    forall t | t in st'.sessions ensures SessionOk(st', t) {
      assert SessionOk(st, t);
      assert st'.stream[..st.sessions[t].engine.lastDataSeq] == st.stream[..st.sessions[t].engine.lastDataSeq];
    }
    forall k | k in st'.net ensures MsgOk(st', k) {
      assert MsgOk(st, k);
      assert st'.stream[..k.expected] == st.stream[..k.expected];
    }
    forall i | 0 <= i < |st'.stream| ensures SlotOk(st', i) {
      if i < n {
        assert SlotOk(st, i);
      }
    }
  }

  lemma OwnershipKeepsInv(st: State, st': State)
    requires Inv(st) && st' == st.(epoch := st'.epoch, retired := st'.retired)
    ensures Inv(st')
  {
    hide Extends, ValidHistory, Events;
    forall s | s in st'.sessions ensures SessionOk(st', s) {
      assert SessionOk(st, s);
    }
    forall m | m in st'.net ensures MsgOk(st', m) {
      assert MsgOk(st, m);
    }
    forall i | 0 <= i < |st'.stream| ensures SlotOk(st', i) {
      assert SlotOk(st, i);
    }
  }

  lemma StepKeepsInv(st: State, l: Label)
    requires Inv(st) && Enabled(st, l)
    ensures Inv(Apply(st, l))
  {
    hide Inv;
    match l {
      case Open(s, e) => OpenKeepsInv(st, s, e);
      case Recover(_) => ReadKeepsInv(st, l);
      case Send(_) => SendKeepsInv(st, l);
      case SendFails(_, _) => SendKeepsInv(st, l);
      case Reread(_) => ReadKeepsInv(st, l);
      case AckArrives(s) => AckKeepsInv(st, s);
      case Deliver(m) => DeliverKeepsInv(st, m);
      case Claim(_) => OwnershipKeepsInv(st, Apply(st, l));
      case Retire => OwnershipKeepsInv(st, Apply(st, l));
      case _ => LocalKeepsInv(st, l);
    }
  }

  lemma {:induction false} RunKeepsInv(st: State, ls: seq<Label>)
    requires Inv(st) && CanRun(st, ls)
    ensures Inv(Run(st, ls))
    decreases |ls|
  {
    hide Inv;
    if ls != [] {
      StepKeepsInv(st, ls[0]);
      RunKeepsInv(Apply(st, ls[0]), ls[1..]);
    }
  }

  /** In every interleaving: the data stream is a valid history; what each session knows is a
      prefix of it; and since it last recovered the session's blocks lie in one run, all of them
      acknowledged except possibly the last. */
  lemma EveryRunIsSafe(st: State, ls: seq<Label>)
    requires Init(st) && CanRun(st, ls)
    ensures var end := Run(st, ls);
            && ValidHistory(Events(end.stream))
            && forall s | s in end.sessions ::
                 var x := end.sessions[s];
                 && RunSince(end.stream, s, x.recoveredAt, x.engine.lastDataSeq)
                 && x.engine.lastDataSeq <= |x.view| <= |end.stream| && x.view == end.stream[..|x.view|]
  {
    hide RunSince, ValidHistory, Events, Run, CanRun;
    InitInv(st);
    RunKeepsInv(st, ls);
    forall s | s in Run(st, ls).sessions ensures SessionOk(Run(st, ls), s) {
    }
  }

  // ---- Fencing ----

  /** The session's epoch is no longer the recorded one, or the store is retired. */
  predicate Superseded(st: State, s: nat) {
    s in st.sessions && (st.retired || st.epoch > st.sessions[s].engine.carriedEpoch)
  }

  /** The session has a publish out, or about to go out, that expects exactly the stream as it
      stands now. */
  predicate Armed(st: State, s: nat)
    requires s in st.sessions
  {
    || (st.sessions[s].phase.Checked? && st.sessions[s].engine.lastDataSeq == |st.stream|)
    || exists m :: m in st.net && m.session == s && m.expected == |st.stream|
  }

  /** One past the last block of the session in the stream; zero when there is none. */
  function OwnedEnd(stream: seq<Slot>, s: nat): (n: nat)
    ensures forall i | 0 <= i < |stream| && OwnedBy(stream[i], s) :: i < n
    ensures n > 0 ==> n <= |stream| && OwnedBy(stream[n - 1], s)
  {
    if stream == [] then 0
    else if OwnedBy(stream[|stream| - 1], s) then |stream|
    else OwnedEnd(stream[..|stream| - 1], s)
  }

  /** One past the last position the session, once superseded, can still come to own. */
  function Ceiling(st: State, s: nat): nat
    requires s in st.sessions
  {
    if Armed(st, s) then |st.stream| + 1 else OwnedEnd(st.stream, s)
  }

  /** From position `n` on, the stream holds a block of the session. */
  predicate HoldsFrom(stream: seq<Slot>, n: nat, s: nat) {
    exists i :: n <= i < |stream| && OwnedBy(stream[i], s)
  }

  /** Some continuation brings a new block of the session into the stream. */
  ghost predicate CanStillLand(st: State, s: nat) {
    exists ls :: CanRun(st, ls) && HoldsFrom(Run(st, ls).stream, |st.stream|, s)
  }

  /** A superseded session is never let through another check. */
  lemma SupersededSession(st: State, l: Label, s: nat)
    requires Inv(st) && Superseded(st, s) && Enabled(st, l)
    ensures var st', x := Apply(st, l), st.sessions[s];
            && Superseded(st', s)
            && (st'.sessions[s].phase.Checked? ==> x.phase.Checked? && st'.sessions[s].engine == x.engine)
            && (forall m | m in st'.net && m.session == s && m !in st.net ::
                  x.phase.Checked? && m.expected == x.engine.lastDataSeq)
  {
    hide Extends, ValidHistory, Events, RunSince;
    assert SessionOk(st, s);
  }

  lemma StreamGrows(st: State, l: Label)
    requires Enabled(st, l)
    ensures var st' := Apply(st, l);
            st'.stream == if l.Deliver? then st.stream + [Event(l.m)] else st.stream
    ensures l.Deliver? ==> l.m in st.net && l.m.expected == |st.stream|
  {
    hide Extends, Events;
  }

  lemma DisarmedStep(st: State, l: Label, s: nat)
    requires Inv(st) && Superseded(st, s) && Enabled(st, l) && !Armed(st, s)
    ensures var st' := Apply(st, l);
            && Superseded(st', s) && !Armed(st', s)
            && |st.stream| <= |st'.stream| && st'.stream[..|st.stream|] == st.stream
            && !HoldsFrom(st'.stream, |st.stream|, s)
  {
    hide Possible, Apply, MsgOk, Extends, Events;
    var st' := Apply(st, l);
    SupersededSession(st, l, s);
    StreamGrows(st, l);
    assert SessionOk(st, s) && st.sessions[s].engine.lastDataSeq <= |st.stream|;
    forall m | m in st'.net && m.session == s ensures m.expected < |st.stream| {
      if m in st.net {
        AimsWithin(st, m);
      }
    }
  }

  /** Its own block takes the place it aimed at, and nothing else of it can follow. */
  lemma ArmedOnce(st: State, m: Msg, s: nat)
    requires Inv(st) && Superseded(st, s) && Enabled(st, Deliver(m))
    ensures s in st.sessions && !Armed(Apply(st, Deliver(m)), s)
    ensures m.session == s ==> Armed(st, s)
  {
    hide Extends, ValidHistory, Events, RunSince;
    assert SessionOk(st, s);
    forall k | k in st.net ensures k.expected <= |st.stream| {
      AimsWithin(st, k);
    }
  }

  lemma OwnedEndSnoc(stream: seq<Slot>, x: Slot, s: nat)
    ensures OwnedEnd(stream + [x], s) == if OwnedBy(x, s) then |stream| + 1 else OwnedEnd(stream, s)
  {
    assert (stream + [x])[..|stream|] == stream;
  }

  lemma CeilingNeverRises(st: State, l: Label, s: nat)
    requires Inv(st) && Superseded(st, s) && Enabled(st, l)
    ensures Superseded(Apply(st, l), s) && Ceiling(Apply(st, l), s) <= Ceiling(st, s)
  {
    hide Possible, Apply, Extends, Events, Inv, Armed, OwnedEnd;
    var st' := Apply(st, l);
    SupersededSession(st, l, s);
    StreamGrows(st, l);
    if l.Deliver? {
      ArmedOnce(st, l.m, s);
      OwnedEndSnoc(st.stream, Event(l.m), s);
      OwnedEndWithin(st.stream, s);
    } else if !Armed(st, s) {
      DisarmedStep(st, l, s);
    } else {
      OwnedEndWithin(st.stream, s);
    }
  }

  lemma OwnedEndWithin(stream: seq<Slot>, s: nat)
    ensures OwnedEnd(stream, s) <= |stream|
  {
  }

  lemma {:induction false} CeilingHolds(st: State, ls: seq<Label>, s: nat)
    requires Inv(st) && Superseded(st, s) && CanRun(st, ls)
    ensures s in Run(st, ls).sessions && Ceiling(Run(st, ls), s) <= Ceiling(st, s)
    decreases |ls|
  {
    hide Inv, Ceiling;
    if ls != [] {
      StepKeepsInv(st, ls[0]);
      CeilingNeverRises(st, ls[0], s);
      CeilingHolds(Apply(st, ls[0]), ls[1..], s);
    }
  }

  /** A session owns nothing past the sequence its engine expects. */
  lemma CeilingIsNear(st: State, s: nat)
    requires Inv(st) && s in st.sessions
    ensures Ceiling(st, s) <= st.sessions[s].engine.lastDataSeq + 1
  {
    hide Extends, ValidHistory, Events;
    assert SessionOk(st, s);
    forall m | m in st.net && m.session == s ensures m.expected <= st.sessions[s].engine.lastDataSeq {
      assert MsgOk(st, m);
    }
  }

  /** Once a session is superseded, at most one block of its own can still enter the stream,
      however the run goes on and however often it reads the stream again: the one right after
      those it had acknowledged. */
  lemma AtMostOneBlockAfterSupersession(st: State, ls: seq<Label>, s: nat)
    requires Inv(st) && Superseded(st, s) && CanRun(st, ls)
    ensures forall i | 0 <= i < |Run(st, ls).stream| && OwnedBy(Run(st, ls).stream[i], s) ::
              i <= st.sessions[s].engine.lastDataSeq
    ensures forall i | |st.stream| <= i < |Run(st, ls).stream| && OwnedBy(Run(st, ls).stream[i], s) :: i == |st.stream|
  {
    hide Inv, Superseded, OwnedEnd, OwnedBy, Run, CanRun, Armed;
    SupersededExists(st, s);
    CeilingHolds(st, ls, s);
    CeilingIsNear(st, s);
    OwnedEndWithin(st.stream, s);
    var end := Run(st, ls);
    OwnedBelow(end, s);
  }

  lemma OwnedBelow(st: State, s: nat)
    requires s in st.sessions
    ensures forall i | 0 <= i < |st.stream| && OwnedBy(st.stream[i], s) :: i < Ceiling(st, s)
  {
    var n := OwnedEnd(st.stream, s);
  }

  lemma AimsWithin(st: State, m: Msg)
    requires Inv(st) && m in st.net
    ensures m.expected <= |st.stream|
  {
    hide Extends, ValidHistory, Events, SessionOk, SlotOk;
    assert MsgOk(st, m);
  }

  lemma StillNone(a: seq<Slot>, b: seq<Slot>, c: seq<Slot>, s: nat)
    requires |a| <= |b| <= |c| && c[..|b|] == b && !HoldsFrom(b, |a|, s) && !HoldsFrom(c, |b|, s)
    ensures !HoldsFrom(c, |a|, s)
  {
    forall i | |a| <= i < |c| ensures !OwnedBy(c[i], s) {
      if i < |b| {
        assert c[i] == b[i];
      }
    }
  }

  lemma {:induction false} DisarmedRun(st: State, ls: seq<Label>, s: nat)
    requires Inv(st) && Superseded(st, s) && CanRun(st, ls) && !Armed(st, s)
    ensures var end := Run(st, ls);
            && |st.stream| <= |end.stream| && end.stream[..|st.stream|] == st.stream
            && !HoldsFrom(end.stream, |st.stream|, s)
    decreases |ls|
  {
    hide Inv, Superseded, Possible, Apply, HoldsFrom, Armed, Extends, Events;
    if ls == [] {
      assert !HoldsFrom(st.stream, |st.stream|, s) by { NothingBeyond(st.stream, s); }
    } else {
      var next := Apply(st, ls[0]);
      SupersededExists(st, s);
      StepKeepsInv(st, ls[0]);
      DisarmedStep(st, ls[0], s);
      DisarmedRun(next, ls[1..], s);
      var end := Run(next, ls[1..]);
      StillNone(st.stream, next.stream, end.stream, s);
      assert end.stream[..|st.stream|] == end.stream[..|next.stream|][..|st.stream|];
    }
  }

  lemma NothingBeyond(stream: seq<Slot>, s: nat)
    ensures !HoldsFrom(stream, |stream|, s)
  {
  }

  lemma SupersededExists(st: State, s: nat)
    requires Superseded(st, s)
    ensures s in st.sessions
  {
  }

  lemma DeliveredLands(st: State, m: Msg)
    requires m in st.net && m.expected == |st.stream|
    ensures Enabled(st, Deliver(m)) && HoldsFrom(Apply(st, Deliver(m)).stream, |st.stream|, m.session)
  {
    var stream := Apply(st, Deliver(m)).stream;
    assert OwnedBy(stream[|st.stream|], m.session);
  }

  lemma ArmedLands(st: State, s: nat)
    requires s in st.sessions && Armed(st, s)
    ensures CanStillLand(st, s)
  {
    hide Possible, Apply, HoldsFrom;
    if st.sessions[s].phase.Checked? && st.sessions[s].engine.lastDataSeq == |st.stream| {
      SendArms(st, s);
      var m := Outgoing(s, st.sessions[s]);
      DeliveredLands(Apply(st, Send(s)), m);
      RunTwo(st, Send(s), Deliver(m));
      assert CanRun(st, [Send(s), Deliver(m)]);
    } else {
      var m :| m in st.net && m.session == s && m.expected == |st.stream|;
      DeliveredLands(st, m);
      assert [Deliver(m)][1..] == [];
      assert CanRun(Apply(st, Deliver(m)), []);
      assert CanRun(st, [Deliver(m)]) && Run(st, [Deliver(m)]) == Apply(st, Deliver(m));
    }
  }

  lemma SendArms(st: State, s: nat)
    requires s in st.sessions && st.sessions[s].phase.Checked?
    ensures Enabled(st, Send(s))
    ensures var st' := Apply(st, Send(s));
            st'.stream == st.stream && Outgoing(s, st.sessions[s]) in st'.net
  {
  }

  /** Exactly when a superseded session can still bring a block into the stream: when it has
      passed its check, or has a publish under way, with the stream standing where that
      publish expects it. Otherwise no continuation lets it. */
  lemma SupersededLandsIff(st: State, s: nat)
    requires Inv(st) && Superseded(st, s)
    ensures CanStillLand(st, s) <==> Armed(st, s)
  {
    hide Inv, Superseded, HoldsFrom, Armed, Run, CanRun;
    SupersededExists(st, s);
    if Armed(st, s) {
      ArmedLands(st, s);
    } else if CanStillLand(st, s) {
      var ls :| CanRun(st, ls) && HoldsFrom(Run(st, ls).stream, |st.stream|, s);
      DisarmedRun(st, ls, s);
      assert false;
    }
  }

  /** The bound is met: the authority check and the publish are not atomic, so a session that
      passed the check can land one block after another owner has claimed the store. */
  lemma SupersededBlockCanLand(st: State, b: EventEnvelope)
    requires Init(st) && Extends([], b)
    ensures var m := Msg(0, 0, 1, b);
            var before := [Open(0, st.epoch), Check(0, b, Claimed(st.epoch, st.retired)), Claim(st.epoch + 1)];
            var after := [Send(0), Deliver(m)];
            !st.retired ==>
              && CanRun(st, before) && Superseded(Run(st, before), 0)
              && CanRun(Run(st, before), after)
              && Run(Run(st, before), after).stream == [Header, Event(m)]
  {
    if !st.retired {
      var m := Msg(0, 0, 1, b);
      var ls := [Open(0, st.epoch), Check(0, b, Claimed(st.epoch, st.retired)), Claim(st.epoch + 1)];
      var s1 := Apply(st, ls[0]);
      HeaderHasNoEvents();
      var s2 := Apply(s1, ls[1]);
      var s3 := Apply(s2, ls[2]);
      RunThree(st, ls[0], ls[1], ls[2]);
      RunTwo(s3, Send(0), Deliver(m));
    }
  }

  lemma RunTwo(st: State, a: Label, b: Label)
    requires Enabled(st, a) && Enabled(Apply(st, a), b)
    ensures CanRun(st, [a, b]) && Run(st, [a, b]) == Apply(Apply(st, a), b)
  {
    hide Possible, Apply, Extends;
    assert [a, b][1..] == [b] && [b][1..] == [];
    assert CanRun(Apply(st, a), [b]) && Run(Apply(st, a), [b]) == Apply(Apply(st, a), b);
  }

  lemma RunThree(st: State, a: Label, b: Label, c: Label)
    requires Enabled(st, a) && Enabled(Apply(st, a), b) && Enabled(Apply(Apply(st, a), b), c)
    ensures CanRun(st, [a, b, c]) && Run(st, [a, b, c]) == Apply(Apply(Apply(st, a), b), c)
  {
    hide Possible, Apply, Extends;
    assert [a, b, c][1..] == [b, c];
    RunTwo(Apply(st, a), b, c);
  }
}
