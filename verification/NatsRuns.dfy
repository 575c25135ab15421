/** What reading the stream again in the middle of a writer session does to the blocks of that
    session: when they still form one run, and when none can land any more
    (crates/pardosa-nats/src/adapter.rs:2602-2872, crates/pardosa/src/store/pipeline.rs:549-757). */
module NatsRuns {
  import opened Wire
  import opened Envelope
  import opened History
  import opened NatsWriter

  // ---- One run per session ----

  /** From position `first` on, the session's blocks follow one another without a gap. */
  predicate OneRun(stream: seq<Slot>, s: nat, first: nat) {
    forall i, j | first <= j < i < |stream| && OwnedBy(stream[i], s) :: OwnedBy(stream[j], s)
  }

  /** Recovering now passes over a block that is not the session's. */
  predicate PassesOver(st: State, s: nat)
    requires s in st.sessions
  {
    exists j :: st.sessions[s].engine.lastDataSeq <= j < |st.stream| && !OwnedBy(st.stream[j], s)
  }

  /** Somewhere in the run the session recovers past another's block, and a block of its own
      comes after that in `stream`. */
  predicate PassesAndLands(st: State, ls: seq<Label>, s: nat, stream: seq<Slot>)
    requires CanRun(st, ls)
    decreases |ls|
  {
    && ls != []
    && ((ls[0] == Recover(s) && PassesOver(st, s) && HoldsFrom(stream, |st.stream|, s))
        || PassesAndLands(Apply(st, ls[0]), ls[1..], s, stream))
  }

  lemma StreamOnlyGrows(st: State, l: Label)
    requires Enabled(st, l)
    ensures st.stream <= Apply(st, l).stream
  {
    StreamGrows(st, l);
  }

  lemma {:induction false} RunOnlyGrows(st: State, ls: seq<Label>)
    requires CanRun(st, ls)
    ensures st.stream <= Run(st, ls).stream
    decreases |ls|
  {
    hide Apply, Possible, Extends, Events;
    if ls != [] {
      StreamOnlyGrows(st, ls[0]);
      RunOnlyGrows(Apply(st, ls[0]), ls[1..]);
    }
  }

  lemma OpenedByStep(st: State, l: Label, s: nat)
    requires Enabled(st, l) && s in st.sessions
    ensures var st' := Apply(st, l); s in st'.sessions && st'.sessions[s].openedAt == st.sessions[s].openedAt
  {
    hide Extends, Events;
  }

  lemma {:induction false} OpenedOnce(st: State, ls: seq<Label>, s: nat)
    requires CanRun(st, ls) && s in st.sessions
    ensures s in Run(st, ls).sessions && Run(st, ls).sessions[s].openedAt == st.sessions[s].openedAt
    decreases |ls|
  {
    hide Apply, Possible, Extends, Events;
    if ls != [] {
      OpenedByStep(st, ls[0], s);
      OpenedOnce(Apply(st, ls[0]), ls[1..], s);
    }
  }

  /** The engine's last sequence has not moved past position `j`. */
  predicate NotPast(st: State, s: nat, j: nat) {
    s in st.sessions ==> st.sessions[s].engine.lastDataSeq <= j
  }

  /** How the sequence an engine expects can move: by opening or recovering to the end of the
      stream, or by an acknowledgement over one block of its own. */
  lemma LastMoves(st: State, l: Label, s: nat)
    requires Enabled(st, l) && s in st.sessions
    ensures var n, st' := st.sessions[s].engine.lastDataSeq, Apply(st, l);
            && s in st'.sessions
            && (l != Recover(s) && l != AckArrives(s) ==> st'.sessions[s].engine.lastDataSeq == n)
  {
    hide Extends, Events;
  }

  lemma AckMoves(st: State, s: nat)
    requires Inv(st) && Enabled(st, AckArrives(s))
    ensures var n, st' := st.sessions[s].engine.lastDataSeq, Apply(st, AckArrives(s));
            && s in st'.sessions && st'.sessions[s].engine.lastDataSeq == n + 1
            && n < |st.stream| && OwnedBy(st.stream[n], s) && st'.stream == st.stream
  {
    hide Extends, ValidHistory, Events, RunSince;
    assert SessionOk(st, s);
  }

  lemma OpenMoves(st: State, l: Label, s: nat)
    requires Enabled(st, l) && s !in st.sessions && s in Apply(st, l).sessions
    ensures Apply(st, l).sessions[s].engine.lastDataSeq == Apply(st, l).sessions[s].openedAt
  {
    hide Extends, Events;
  }

  /** The last sequence moves past another's block, at or after the session's opening, only by
      recovering. */
  lemma OnlyRecoverPasses(st: State, l: Label, s: nat, j: nat)
    requires Inv(st) && Enabled(st, l) && NotPast(st, s, j) && !NotPast(Apply(st, l), s, j)
    requires j < |Apply(st, l).stream| ==> !OwnedBy(Apply(st, l).stream[j], s)
    requires Apply(st, l).sessions[s].openedAt <= j
    ensures l == Recover(s) && j < |st.stream|
  {
    hide Possible, Apply, Inv, Extends, Events;
    if s !in st.sessions {
      OpenMoves(st, l, s);
    } else {
      LastMoves(st, l, s);
      if l == AckArrives(s) {
        AckMoves(st, s);
      } else {
        RecoverMoves(st, s);
      }
    }
  }

  lemma RecoverMoves(st: State, s: nat)
    requires Enabled(st, Recover(s))
    ensures var st' := Apply(st, Recover(s)); s in st'.sessions && st'.sessions[s].engine.lastDataSeq == |st.stream|
  {
  }

  lemma OwnedIsNotPast(st: State, s: nat, i: nat)
    requires Inv(st) && i < |st.stream| && OwnedBy(st.stream[i], s)
    ensures s in st.sessions && i <= st.sessions[s].engine.lastDataSeq
  {
    hide Extends, ValidHistory, Events;
    assert SlotOk(st, i);
    assert MsgOk(st, st.stream[i].msg);
    assert SessionOk(st, s);
  }

  lemma {:induction false} GapMeansPassing(st: State, ls: seq<Label>, s: nat, i: nat, j: nat)
    requires Inv(st) && CanRun(st, ls) && NotPast(st, s, j)
    requires var end := Run(st, ls);
             && s in end.sessions && end.sessions[s].openedAt <= j < i < |end.stream|
             && OwnedBy(end.stream[i], s) && !OwnedBy(end.stream[j], s)
    ensures PassesAndLands(st, ls, s, Run(st, ls).stream)
    decreases |ls|
  {
    hide Inv, Apply, Possible, Extends, Events, OwnedBy, PassesOver;
    var end := Run(st, ls);
    if ls == [] {
      OwnedIsNotPast(st, s, i);
      assert false;
    } else {
      var next := Apply(st, ls[0]);
      StepKeepsInv(st, ls[0]);
      RunOnlyGrows(next, ls[1..]);
      if NotPast(next, s, j) {
        GapMeansPassing(next, ls[1..], s, i, j);
      } else {
        OpenedOnce(next, ls[1..], s);
        OnlyRecoverPasses(st, ls[0], s, j);
        RecoverIsOfSession(st, s);
        RunOnlyGrows(st, ls);
        RecoverPassesOver(st, s, j);
        if i < |st.stream| {
          OwnedIsNotPast(st, s, i);
        }
        assert HoldsFrom(end.stream, |st.stream|, s);
      }
    }
  }

  lemma RecoverPassesOver(st: State, s: nat, j: nat)
    requires s in st.sessions && NotPast(st, s, j) && j < |st.stream| && !OwnedBy(st.stream[j], s)
    ensures PassesOver(st, s)
  {
  }

  lemma {:induction false} PassingMeansGap(st: State, ls: seq<Label>, s: nat)
    requires Inv(st) && CanRun(st, ls) && PassesAndLands(st, ls, s, Run(st, ls).stream)
    ensures s in Run(st, ls).sessions
    ensures !OneRun(Run(st, ls).stream, s, Run(st, ls).sessions[s].openedAt)
    decreases |ls|
  {
    hide Inv, Apply, Possible, Extends, Events, OwnedBy;
    var end := Run(st, ls);
    if ls[0] == Recover(s) {
      RecoverIsOfSession(st, s);
    }
    if ls[0] == Recover(s) && PassesOver(st, s) && HoldsFrom(end.stream, |st.stream|, s) {
      RunOnlyGrows(st, ls);
      OpenedOnce(st, ls, s);
      OpenedBeforeLast(st, s);
      var j :| st.sessions[s].engine.lastDataSeq <= j < |st.stream| && !OwnedBy(st.stream[j], s);
      var i :| |st.stream| <= i < |end.stream| && OwnedBy(end.stream[i], s);
      assert end.stream[j] == st.stream[j];
    } else {
      StepKeepsInv(st, ls[0]);
      PassingMeansGap(Apply(st, ls[0]), ls[1..], s);
    }
  }

  lemma RecoverIsOfSession(st: State, s: nat)
    requires Enabled(st, Recover(s))
    ensures s in st.sessions
  {
  }

  lemma OpenedBeforeLast(st: State, s: nat)
    requires Inv(st) && s in st.sessions
    ensures st.sessions[s].openedAt <= st.sessions[s].engine.lastDataSeq
  {
    hide Extends, ValidHistory, Events;
    assert SessionOk(st, s);
  }

  /** Exactly when the blocks of a session form one run starting right where it opened: when no
      block of its own lands after a recovery that found another session's block past its last
      sequence. A session that recovers once, on opening, always meets this. */
  lemma OneRunIff(st: State, ls: seq<Label>, s: nat)
    requires Init(st) && CanRun(st, ls) && s in Run(st, ls).sessions
    ensures var end := Run(st, ls);
            OneRun(end.stream, s, end.sessions[s].openedAt) <==> !PassesAndLands(st, ls, s, end.stream)
  {
    hide Inv, Run, CanRun, OwnedBy, PassesAndLands;
    InitInv(st);
    var end := Run(st, ls);
    if PassesAndLands(st, ls, s, end.stream) {
      PassingMeansGap(st, ls, s);
    } else if !OneRun(end.stream, s, end.sessions[s].openedAt) {
      var i, j :| end.sessions[s].openedAt <= j < i < |end.stream|
                  && OwnedBy(end.stream[i], s) && !OwnedBy(end.stream[j], s);
      GapMeansPassing(st, ls, s, i, j);
    }
  }

  /** Every block of a session lies past the stream it opened on. */
  lemma NothingBeforeOpening(st: State, ls: seq<Label>, s: nat)
    requires Init(st) && CanRun(st, ls) && s in Run(st, ls).sessions
    ensures var end := Run(st, ls);
            forall i | 0 <= i < |end.stream| && OwnedBy(end.stream[i], s) :: end.sessions[s].openedAt <= i
  {
    hide Run, CanRun, OwnedBy, ValidHistory, Extends, Events;
    InitInv(st);
    RunKeepsInv(st, ls);
    assert SessionOk(Run(st, ls), s);
  }

  // ---- A run that splits ----

  lemma RunNone(st: State)
    ensures CanRun(st, []) && Run(st, []) == st
  {
  }

  lemma RunOne(st: State, l: Label, rest: seq<Label>)
    requires Enabled(st, l) && CanRun(Apply(st, l), rest)
    ensures CanRun(st, [l] + rest) && Run(st, [l] + rest) == Run(Apply(st, l), rest)
  {
    hide Possible, Apply, Extends, Events;
    assert ([l] + rest)[0] == l && ([l] + rest)[1..] == rest;
  }

  lemma {:induction false} RunBoth(st: State, a: seq<Label>, b: seq<Label>)
    requires CanRun(st, a) && CanRun(Run(st, a), b)
    ensures CanRun(st, a + b) && Run(st, a + b) == Run(Run(st, a), b)
    decreases |a|
  {
    hide Possible, Apply, Extends, Events;
    if a == [] {
      assert a + b == b;
    } else {
      RunBoth(Apply(st, a[0]), a[1..], b);
      assert (a + b)[0] == a[0] && (a + b)[1..] == a[1..] + b;
    }
  }

  /** An idle, certain session of the recorded epoch that is not behind. */
  predicate Ready(st: State, s: nat) {
    && s in st.sessions && st.sessions[s].phase.Idle? && !st.retired
    && st.sessions[s].view == st.stream && st.sessions[s].engine.lastDataSeq == |st.stream|
    && !st.sessions[s].engine.uncertain && st.sessions[s].engine.carriedEpoch == st.epoch
  }

  /** Nothing but one more block of `s`, of which `s` has been told. */
  predicate OneMore(st: State, end: State, s: nat, b: EventEnvelope)
    requires s in st.sessions
  {
    && end.stream == st.stream + [Event(Msg(s, st.sessions[s].attempts, |st.stream|, b))]
    && Ready(end, s) && end.sessions == st.sessions[s := end.sessions[s]]
    && end.sessions[s].openedAt == st.sessions[s].openedAt
    && end.epoch == st.epoch && end.retired == st.retired
  }

  lemma ReadyLands(st: State, s: nat, b: EventEnvelope) returns (ls: seq<Label>)
    requires Ready(st, s) && |st.stream| < U64_MAX && Extends(Events(st.stream), b)
    ensures CanRun(st, ls) && OneMore(st, Run(st, ls), s, b)
  {
    hide Extends, Events, CanRun, Run;
    var m := Msg(s, st.sessions[s].attempts, |st.stream|, b);
    var check := Check(s, b, Claimed(st.epoch, st.retired));
    var s1 := Apply(st, check);
    var s2 := Apply(s1, Send(s));
    var s3 := Apply(s2, Deliver(m));
    var s4 := Apply(s3, AckArrives(s));
    RunNone(s4);
    RunOne(s3, AckArrives(s), []);
    ls := [AckArrives(s)] + [];
    RunOne(s2, Deliver(m), ls);
    ls := [Deliver(m)] + ls;
    RunOne(s1, Send(s), ls);
    ls := [Send(s)] + ls;
    RunOne(st, check, ls);
    ls := [check] + ls;
  }

  lemma OpensReady(st: State, s: nat) returns (ls: seq<Label>)
    requires s !in st.sessions && !st.retired
    ensures CanRun(st, ls)
    ensures var end := Run(st, ls);
            && Ready(end, s) && end.stream == st.stream && end.sessions == st.sessions[s := end.sessions[s]]
            && end.sessions[s].openedAt == |st.stream| && end.epoch == st.epoch && end.retired == st.retired
  {
    hide Extends, Events, CanRun, Run;
    RunNone(Apply(st, Open(s, st.epoch)));
    RunOne(st, Open(s, st.epoch), []);
    ls := [Open(s, st.epoch)] + [];
  }

  lemma RecoversReady(st: State, s: nat) returns (ls: seq<Label>)
    requires s in st.sessions && st.sessions[s].phase.Idle? && !st.retired
    requires !st.sessions[s].engine.uncertain && st.sessions[s].engine.carriedEpoch == st.epoch
    ensures CanRun(st, ls)
    ensures var end := Run(st, ls);
            && Ready(end, s) && end.stream == st.stream && end.sessions == st.sessions[s := end.sessions[s]]
            && end.sessions[s].openedAt == st.sessions[s].openedAt && end.epoch == st.epoch
  {
    hide Extends, Events, CanRun, Run;
    RunNone(Apply(st, Recover(s)));
    RunOne(st, Recover(s), []);
    ls := [Recover(s)] + [];
  }

  lemma EventsOfMore(slots: seq<Slot>, m: Msg, h: seq<EventEnvelope>)
    requires Events(slots) == h
    ensures Events(slots + [Event(m)]) == h + [m.block]
  {
    EventsSnoc(slots, m);
  }

  /** The condition is needed: a session can open, land a block, recover after another session
      has landed one, and land again, so that its blocks do not form one run. */
  lemma SessionsCanSplit(st: State, a: EventEnvelope, b: EventEnvelope, c: EventEnvelope) returns (ls: seq<Label>)
    requires Init(st) && !st.retired && Extends([], a) && Extends([a], b) && Extends([a, b], c)
    ensures CanRun(st, ls)
    ensures var end := Run(st, ls);
            && |end.stream| == 4 && 0 in end.sessions && end.sessions[0].openedAt == 1
            && OwnedBy(end.stream[1], 0) && OwnedBy(end.stream[2], 1) && OwnedBy(end.stream[3], 0)
            && !OneRun(end.stream, 0, 1) && PassesAndLands(st, ls, 0, end.stream)
  {
    hide Extends, Events, CanRun, Run, PassesAndLands;
    HeaderHasNoEvents();
    ls := OpensReady(st, 0);
    var s1 := Run(st, ls);
    var more := ReadyLands(s1, 0, a);
    var s2 := Run(s1, more);
    RunBoth(st, ls, more);
    ls := ls + more;
    EventsOfMore(s1.stream, s2.stream[1].msg, []);
    assert [] + [a] == [a];
    more := OpensReady(s2, 1);
    var s3 := Run(s2, more);
    RunBoth(st, ls, more);
    ls := ls + more;
    more := ReadyLands(s3, 1, b);
    var s4 := Run(s3, more);
    RunBoth(st, ls, more);
    ls := ls + more;
    EventsOfMore(s3.stream, s4.stream[2].msg, [a]);
    assert [a] + [b] == [a, b];
    more := RecoversReady(s4, 0);
    var s5 := Run(s4, more);
    RunBoth(st, ls, more);
    ls := ls + more;
    more := ReadyLands(s5, 0, c);
    RunBoth(st, ls, more);
    ls := ls + more;
    var end := Run(st, ls);
    SplitIsNoRun(end.stream);
    OneRunIff(st, ls, 0);
  }

  lemma SplitIsNoRun(stream: seq<Slot>)
    requires |stream| == 4 && OwnedBy(stream[2], 1) && OwnedBy(stream[3], 0)
    ensures !OneRun(stream, 0, 1)
  {
    assert !OwnedBy(stream[2], 0);
  }

  // ---- Giving up ----

  /** The steps after which session `s` never publishes again: a conflict on sending, any answer
      but an acknowledgement, and a check that reads another epoch or a retirement. */
  predicate GivesUp(st: State, l: Label, s: nat) {
    match l
    case SendConflicts(t) => t == s
    case AckMissing(t, _) => t == s
    case Check(t, _, m) =>
      && t == s && s in st.sessions && m.Claimed?
      && (m.retired || m.epoch != st.sessions[s].engine.carriedEpoch)
    case _ => false
  }

  predicate GaveUp(st: State, s: nat) {
    s in st.sessions && st.sessions[s].phase.Idle? && st.sessions[s].engine.uncertain
  }

  predicate NothingSent(older: set<Msg>, newer: set<Msg>, s: nat) {
    forall m | m in newer && m.session == s :: m in older
  }

  lemma GivingUp(st: State, l: Label, s: nat)
    requires Enabled(st, l) && GivesUp(st, l, s)
    ensures GaveUp(Apply(st, l), s) && NothingSent(st.net, Apply(st, l).net, s)
  {
    hide Extends, Events;
  }

  lemma GaveUpStep(st: State, l: Label, s: nat)
    requires Enabled(st, l) && GaveUp(st, s)
    ensures GaveUp(Apply(st, l), s) && NothingSent(st.net, Apply(st, l).net, s)
  {
    hide Extends, Events;
  }

  /** Uncertainty is for good: once a session has given up, then in every continuation, however
      often it reads or recovers, it stays idle and no further publish of it is ever made. */
  lemma {:induction false} GaveUpForGood(st: State, ls: seq<Label>, s: nat)
    requires CanRun(st, ls) && GaveUp(st, s)
    ensures GaveUp(Run(st, ls), s) && NothingSent(st.net, Run(st, ls).net, s)
    decreases |ls|
  {
    hide Apply, Possible, GaveUp, Extends, Events;
    if ls != [] {
      GaveUpStep(st, ls[0], s);
      GaveUpForGood(Apply(st, ls[0]), ls[1..], s);
    }
  }

  lemma UncertainNeverPublishes(st: State, l: Label, more: seq<Label>, s: nat)
    requires Enabled(st, l) && GivesUp(st, l, s) && CanRun(Apply(st, l), more)
    ensures var end := Run(Apply(st, l), more);
            && s in end.sessions && end.sessions[s].phase.Idle?
            && forall m | m in end.net && m.session == s :: m in st.net
  {
    hide Apply, Possible, GivesUp, Run, CanRun, Extends, Events;
    GivingUp(st, l, s);
    GaveUpForGood(Apply(st, l), more, s);
  }

  /** A send that fails before the broker answers is no reason to give up: the engine is as it
      was, and may publish again. */
  lemma FailedSendMayRetry(st: State, s: nat, escaped: bool)
    requires Enabled(st, SendFails(s, escaped))
    ensures var st' := Apply(st, SendFails(s, escaped));
            && st'.sessions[s].phase.Idle? && st'.sessions[s].engine == st.sessions[s].engine
            && st'.sessions[s].attempts == st.sessions[s].attempts + 1
  {
    hide Extends, Events;
  }

  // ---- Reading without recovering ----

  /** Recovering brings knowledge and engine to the end of the stream; rereading brings the
      knowledge alone, so the engine falls behind exactly when the stream has grown past it. */
  lemma WhatReadingDoes(st: State, s: nat)
    requires Enabled(st, Recover(s))
    ensures var x, y, z := st.sessions[s], Apply(st, Recover(s)).sessions[s], Apply(st, Reread(s)).sessions[s];
            && y.view == st.stream && y.engine == x.engine.(lastDataSeq := |st.stream|) && !Behind(y)
            && z.view == st.stream && z.engine == x.engine && (Behind(z) <==> x.engine.lastDataSeq < |st.stream|)
  {
    hide Extends, Events;
  }

  lemma BehindStep(st: State, l: Label, s: nat)
    requires Inv(st) && s in st.sessions && Behind(st.sessions[s]) && Enabled(st, l) && l != Recover(s)
    ensures var st' := Apply(st, l);
            && s in st'.sessions && Behind(st'.sessions[s])
            && st.stream <= st'.stream && !HoldsFrom(st'.stream, |st.stream|, s)
  {
    hide Extends, ValidHistory, Events, RunSince;
    assert SessionOk(st, s);
    if l.Deliver? {
      assert MsgOk(st, l.m);
    }
  }

  /** Once a session has read more than its engine expects, nothing of it lands, neither what
      it sends nor what it has sent before, until it recovers again. */
  lemma {:induction false} BehindNeverLands(st: State, ls: seq<Label>, s: nat)
    requires Inv(st) && s in st.sessions && Behind(st.sessions[s])
    requires CanRun(st, ls) && forall l | l in ls :: l != Recover(s)
    ensures var end := Run(st, ls);
            && s in end.sessions && Behind(end.sessions[s])
            && st.stream <= end.stream && !HoldsFrom(end.stream, |st.stream|, s)
    decreases |ls|
  {
    hide Inv, Apply, Possible, Behind, Extends, Events, HoldsFrom;
    if ls == [] {
      NothingBeyond(st.stream, s);
    } else {
      var next := Apply(st, ls[0]);
      assert ls[0] in ls && forall l | l in ls[1..] :: l in ls;
      StepKeepsInv(st, ls[0]);
      BehindStep(st, ls[0], s);
      BehindNeverLands(next, ls[1..], s);
      StillNone(st.stream, next.stream, Run(next, ls[1..]).stream, s);
    }
  }
}
