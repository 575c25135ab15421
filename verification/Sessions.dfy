/** The index a writer session keeps of its store: how it is rebuilt from recovered frames,
    which appends it admits, and why what it admits extends the dragline
    (crates/pardosa/src/store/session_index.rs:242-505, store/pipeline.rs:44-70, 355-430). */
module Sessions {
  import opened Wire
  import opened Envelope
  import opened History

  const MAX_ACTIVE_FIBERS: nat := 100_000
  const MAX_EVENTS_PER_FIBER: nat := 100_000

  datatype Slot = Active(tip: EventEnvelope, count: nat) | Broken(count: nat)

  type Slots = map<Id, Slot>

  datatype Refusal =
    | Malformed
    | ZeroEventId
    | DuplicateEventId
    | SeenIdsExhausted
    | FiberIsBroken
    | DuplicateGenesis
    | WrongPrecursor
    | WrongCommitment
    | EventsExhausted
    | FibersExhausted
    | OrphanEvent

  /** The refusals that blame the event's own fiber. */
  predicate ChainBroken(r: Refusal) {
    r in {DuplicateEventId, DuplicateGenesis, WrongPrecursor, WrongCommitment, OrphanEvent}
  }

  // ---- What the index decides ----

  function ValidateAppend(fibers: Slots, seen: set<Id>, e: EventEnvelope): Result<(), Refusal> {
    var h := e.header;
    if h.eventId == ZERO_ID then Err(ZeroEventId)
    else if h.eventId in seen then Err(DuplicateEventId)
    else if |seen| >= MAX_ACTIVE_FIBERS * MAX_EVENTS_PER_FIBER then Err(SeenIdsExhausted)
    else if h.fiberId !in fibers then
      if |fibers| >= MAX_ACTIVE_FIBERS then Err(FibersExhausted)
      else if h.precursor != ZERO_ID || h.precursorHash != ZERO_DIGEST then Err(OrphanEvent)
      else Ok(())
    else match fibers[h.fiberId]
         case Broken(_) => Err(FiberIsBroken)
         case Active(tip, count) =>
           if h.precursor == ZERO_ID then Err(DuplicateGenesis)
           else if h.precursor != tip.header.eventId then Err(WrongPrecursor)
           else if h.precursorHash != Commitment(tip) then Err(WrongCommitment)
           else if count >= MAX_EVENTS_PER_FIBER then Err(EventsExhausted)
           else Ok(())
  }

  /** A frame holds one envelope and nothing else. */
  function DecodeFrame(frame: Bytes): Option<EventEnvelope> {
    match ParseEnvelope(frame)
    case Ok((e, r)) => if r == [] then Some(e) else None
    case Err(_) => None
  }

  /** Which frames are one envelope. */
  lemma DecodesIff(frame: Bytes, e: EventEnvelope)
    ensures DecodeFrame(frame) == Some(e) <==> |e.payload| <= U32_MAX && frame == WireForm(e)
  {
    hide WireForm, ParseEnvelope;
    assert WireForm(e) + [] == WireForm(e);
    EnvelopeCodecExact(frame, e, []);
  }

  // ---- What the index stands for ----

  /** Every event of fiber `f` extends what came before it on the whole dragline. */
  predicate Intact(h: seq<EventEnvelope>, f: Id) {
    forall i | 0 <= i < |h| && h[i].header.fiberId == f :: Extends(h[..i], h[i])
  }

  function EventsOn(h: seq<EventEnvelope>, f: Id): (n: nat)
  {
    |FiberChain(h, f)|
  }

  predicate SlotFits(fibers: Slots, h: seq<EventEnvelope>, f: Id) {
    if f !in fibers then LastOfFiber(h, f).None?
    else match fibers[f]
         case Active(tip, count) => Intact(h, f) && LastOfFiber(h, f) == Some(tip) && count == EventsOn(h, f)
         case Broken(count) => !Intact(h, f) && LastOfFiber(h, f).Some? && count == EventsOn(h, f)
  }

  ghost predicate Represents(fibers: Slots, seen: set<Id>, h: seq<EventEnvelope>) {
    && (forall f: Id :: SlotFits(fibers, h, f))
    && (forall id: Id :: id in seen <==> !FreshEvent(h, id))
  }

  predicate Bounded(fibers: Slots) {
    && |fibers| <= MAX_ACTIVE_FIBERS
    && forall f | f in fibers :: fibers[f].count <= MAX_EVENTS_PER_FIBER
  }

  /** Room for one more event on fiber `f`. */
  predicate Room(fibers: Slots, f: Id) {
    if f in fibers then fibers[f].count < MAX_EVENTS_PER_FIBER else |fibers| < MAX_ACTIVE_FIBERS
  }

  function CountOf(fibers: Slots, f: Id): nat {
    if f in fibers then fibers[f].count else 0
  }

  // ---- One more event ----

  lemma SnocFiber(h: seq<EventEnvelope>, e: EventEnvelope, f: Id)
    ensures LastOfFiber(h + [e], f) == if f == e.header.fiberId then Some(e) else LastOfFiber(h, f)
    ensures EventsOn(h + [e], f) == EventsOn(h, f) + if f == e.header.fiberId then 1 else 0
  {
    assert (h + [e])[..|h|] == h;
  }

  lemma SnocFresh(h: seq<EventEnvelope>, e: EventEnvelope, id: Id)
    ensures FreshEvent(h + [e], id) <==> FreshEvent(h, id) && id != e.header.eventId
  {
    var g := h + [e];
    assert g[|h|] == e;
    forall i | 0 <= i < |h| ensures g[i] == h[i] {
    }
    if FreshEvent(g, id) {
      forall i | 0 <= i < |h| ensures h[i].header.eventId != id {
        assert g[i].header.eventId != id;
      }
    }
  }

  lemma SnocIntact(h: seq<EventEnvelope>, e: EventEnvelope, f: Id)
    ensures Intact(h + [e], f) <==> Intact(h, f) && (f == e.header.fiberId ==> Extends(h, e))
  {
    hide Extends;
    var g := h + [e];
    assert g[..|h|] == h && g[|h|] == e;
    assert forall i | 0 <= i < |h| :: g[..i] == h[..i] && g[i] == h[i];
    if Intact(g, f) {
      assert forall i | 0 <= i < |h| && h[i].header.fiberId == f :: Extends(g[..i], g[i]);
      assert f == e.header.fiberId ==> Extends(g[..|h|], g[|h|]);
    }
  }

  /** A dragline is valid exactly when each of its fibers is intact. */
  lemma ValidIffAllIntact(h: seq<EventEnvelope>)
    ensures ValidHistory(h) <==> forall f: Id :: Intact(h, f)
  {
    hide Extends;
    if forall f: Id :: Intact(h, f) {
      forall i | 0 <= i < |h| ensures Extends(h[..i], h[i]) {
        assert Intact(h, h[i].header.fiberId);
      }
    }
  }

  /** The slot an event leaves behind: its fiber's new tip, or the mark of a break. */
  function After(fibers: Slots, h: seq<EventEnvelope>, e: EventEnvelope): Slots {
    var f := e.header.fiberId;
    var n := CountOf(fibers, f) + 1;
    fibers[f := if Intact(h, f) && Extends(h, e) then Active(e, n) else Broken(n)]
  }

  lemma AfterFits(fibers: Slots, seen: set<Id>, h: seq<EventEnvelope>, e: EventEnvelope, f: Id)
    requires Represents(fibers, seen, h)
    ensures SlotFits(After(fibers, h, e), h + [e], f)
  {
    hide Extends, Intact, LastOfFiber, FiberChain;
    assert SlotFits(fibers, h, f);
    SnocFiber(h, e, f);
    SnocIntact(h, e, f);
    assert LastOfFiber(h, f).None? ==> EventsOn(h, f) == 0;
  }

  lemma AfterRepresents(fibers: Slots, seen: set<Id>, h: seq<EventEnvelope>, e: EventEnvelope)
    requires Represents(fibers, seen, h)
    ensures Represents(After(fibers, h, e), seen + {e.header.eventId}, h + [e])
  {
    hide After, SlotFits, FreshEvent;
    forall f: Id ensures SlotFits(After(fibers, h, e), h + [e], f) {
      AfterFits(fibers, seen, h, e, f);
    }
    forall id: Id ensures id in seen + {e.header.eventId} <==> !FreshEvent(h + [e], id) {
      SnocFresh(h, e, id);
    }
  }

  lemma AfterBounded(fibers: Slots, h: seq<EventEnvelope>, e: EventEnvelope)
    requires Bounded(fibers) && Room(fibers, e.header.fiberId)
    ensures Bounded(After(fibers, h, e))
  {
    hide Extends, Intact;
    var f := e.header.fiberId;
    var next := After(fibers, h, e);
    assert next.Keys == fibers.Keys + {f};
    assert |next| == |next.Keys| && |fibers| == |fibers.Keys|;
  }

  // ---- The bound on seen ids never decides ----

  function Without(h: seq<EventEnvelope>, f: Id): seq<EventEnvelope> {
    if h == [] then []
    else
      var n := |h| - 1;
      if h[n].header.fiberId == f then Without(h[..n], f) else Without(h[..n], f) + [h[n]]
  }

  lemma {:induction false} WithoutSplits(h: seq<EventEnvelope>, f: Id)
    ensures |h| == EventsOn(h, f) + |Without(h, f)|
  {
    if h != [] {
      WithoutSplits(h[..|h| - 1], f);
    }
  }

  lemma {:induction false} WithoutKeeps(h: seq<EventEnvelope>, f: Id, g: Id)
    ensures EventsOn(Without(h, f), g) == if g == f then 0 else EventsOn(h, g)
  {
    if h != [] {
      var p, e := h[..|h| - 1], h[|h| - 1];
      WithoutKeeps(p, f, g);
      if e.header.fiberId != f {
        SnocFiber(Without(p, f), e, g);
      }
    }
  }

  /** At most `n` events on each of the fibers in `s`, and none elsewhere. */
  ghost predicate Spread(h: seq<EventEnvelope>, s: set<Id>, n: nat) {
    forall f: Id :: EventsOn(h, f) <= if f in s then n else 0
  }

  lemma SpreadWithout(h: seq<EventEnvelope>, s: set<Id>, n: nat, f: Id)
    requires Spread(h, s, n)
    ensures Spread(Without(h, f), s - {f}, n)
  {
    hide EventsOn;
    forall g: Id ensures EventsOn(Without(h, f), g) <= if g in s - {f} then n else 0 {
      WithoutKeeps(h, f, g);
    }
  }

  lemma {:induction false} SpreadBound(h: seq<EventEnvelope>, s: set<Id>, n: nat)
    requires Spread(h, s, n)
    ensures |h| <= |s| * n
    decreases |s|
  {
    hide EventsOn, Without;
    if s == {} {
      if h != [] {
        SomeEventCounts(h);
      }
    } else {
      var f :| f in s;
      SpreadWithout(h, s, n, f);
      SpreadBound(Without(h, f), s - {f}, n);
      WithoutSplits(h, f);
      OneLess(|s|, n);
    }
  }

  lemma SomeEventCounts(h: seq<EventEnvelope>)
    requires h != []
    ensures EventsOn(h, h[|h| - 1].header.fiberId) > 0
  {
  }

  lemma OneLess(k: nat, n: nat)
    requires k > 0
    ensures k * n == (k - 1) * n + n
  {
  }

  lemma {:induction false} SeenWithin(seen: set<Id>, h: seq<EventEnvelope>)
    requires forall id | id in seen :: !FreshEvent(h, id)
    ensures |seen| <= |h|
  {
    hide FreshEvent;
    if h == [] {
      assert FreshEvent(h, ZERO_ID) && forall id: Id :: FreshEvent([], id) by { NothingSeen(); }
      assert seen == {};
    } else {
      var p, e := h[..|h| - 1], h[|h| - 1];
      var rest := seen - {e.header.eventId};
      assert h == p + [e];
      forall id | id in rest ensures !FreshEvent(p, id) {
        SnocFresh(p, e, id);
      }
      SeenWithin(rest, p);
      assert seen <= rest + {e.header.eventId};
      Smaller(seen, rest + {e.header.eventId});
    }
  }

  lemma NothingSeen()
    ensures forall id: Id :: FreshEvent([], id)
  {
  }

  lemma {:induction false} Smaller(a: set<Id>, b: set<Id>)
    requires a <= b
    ensures |a| <= |b|
  {
    if a != {} {
      var x :| x in a;
      Smaller(a - {x}, b - {x});
    }
  }

  lemma SpreadOfIndex(fibers: Slots, seen: set<Id>, h: seq<EventEnvelope>)
    requires Represents(fibers, seen, h) && Bounded(fibers)
    ensures Spread(h, fibers.Keys, MAX_EVENTS_PER_FIBER)
  {
    hide Intact, LastOfFiber, FiberChain;
    forall f: Id ensures EventsOn(h, f) <= if f in fibers.Keys then MAX_EVENTS_PER_FIBER else 0 {
      assert SlotFits(fibers, h, f);
      assert LastOfFiber(h, f).None? ==> EventsOn(h, f) == 0;
    }
  }

  /** While the fiber and event bounds leave room, the third bound, on seen ids, is never
      reached: it refuses nothing that the other two would admit. */
  lemma SeenBoundNeverDecides(fibers: Slots, seen: set<Id>, h: seq<EventEnvelope>, f: Id)
    requires Represents(fibers, seen, h) && Bounded(fibers) && Room(fibers, f)
    ensures |seen| <= |h| < MAX_ACTIVE_FIBERS * MAX_EVENTS_PER_FIBER
  {
    hide EventsOn, Without, FreshEvent, SlotFits;
    SeenWithin(seen, h);
    SpreadOfIndex(fibers, seen, h);
    var n := MAX_EVENTS_PER_FIBER;
    assert |fibers| == |fibers.Keys|;
    if f in fibers {
      SpreadWithout(h, fibers.Keys, n, f);
      SpreadBound(Without(h, f), fibers.Keys - {f}, n);
      WithoutSplits(h, f);
      assert EventsOn(h, f) == fibers[f].count by { CountIsEvents(fibers, seen, h, f); }
    } else {
      SpreadBound(h, fibers.Keys, n);
    }
  }

  lemma CountIsEvents(fibers: Slots, seen: set<Id>, h: seq<EventEnvelope>, f: Id)
    requires Represents(fibers, seen, h)
    ensures CountOf(fibers, f) == EventsOn(h, f)
  {
    hide Intact, LastOfFiber, FiberChain;
    assert SlotFits(fibers, h, f);
    assert LastOfFiber(h, f).None? ==> EventsOn(h, f) == 0;
  }

  // ---- The index decides exactly the extensions ----

  /** Tips and seen ids suffice: an append is admitted exactly when it has a nonzero id, its
      fiber is intact, it extends the whole dragline, and there is room for it. */
  lemma AdmitsExactlyExtensions(fibers: Slots, seen: set<Id>, h: seq<EventEnvelope>, e: EventEnvelope)
    requires Represents(fibers, seen, h) && Bounded(fibers)
    ensures var f := e.header.fiberId;
            ValidateAppend(fibers, seen, e).Ok? <==>
              e.header.eventId != ZERO_ID && Intact(h, f) && Extends(h, e) && Room(fibers, f)
  {
    hide Intact, FreshEvent, LastOfFiber, FiberChain;
    var f := e.header.fiberId;
    assert SlotFits(fibers, h, f);
    assert e.header.eventId in seen <==> !FreshEvent(h, e.header.eventId);
    if Room(fibers, f) {
      SeenBoundNeverDecides(fibers, seen, h, f);
    }
    if f !in fibers {
      UnusedIsIntact(h, f);
    }
  }

  lemma UnusedIsIntact(h: seq<EventEnvelope>, f: Id)
    requires LastOfFiber(h, f).None?
    ensures Intact(h, f)
  {
  }

  /** Why an append is refused, in terms of the dragline, one reason counting before the next. */
  lemma RefusalMeans(fibers: Slots, seen: set<Id>, h: seq<EventEnvelope>, e: EventEnvelope)
    requires Represents(fibers, seen, h) && Bounded(fibers)
    ensures var v, x, last := ValidateAppend(fibers, seen, e), e.header, LastOfFiber(h, e.header.fiberId);
            if x.eventId == ZERO_ID then v == Err(ZeroEventId)
            else if !FreshEvent(h, x.eventId) then v == Err(DuplicateEventId)
            else if |seen| >= MAX_ACTIVE_FIBERS * MAX_EVENTS_PER_FIBER then v == Err(SeenIdsExhausted)
            else if last.None? then
              (if !Room(fibers, x.fiberId) then v == Err(FibersExhausted)
               else if x.precursor != ZERO_ID || x.precursorHash != ZERO_DIGEST then v == Err(OrphanEvent) else v.Ok?)
            else if !Intact(h, x.fiberId) then v == Err(FiberIsBroken)
            else if x.precursor == ZERO_ID then v == Err(DuplicateGenesis)
            else if x.precursor != last.value.header.eventId then v == Err(WrongPrecursor)
            else if x.precursorHash != Commitment(last.value) then v == Err(WrongCommitment)
            else if !Room(fibers, x.fiberId) then v == Err(EventsExhausted) else v.Ok?
  {
    hide Intact, FreshEvent, LastOfFiber, FiberChain, Commitment;
    assert SlotFits(fibers, h, e.header.fiberId);
    assert e.header.eventId in seen <==> !FreshEvent(h, e.header.eventId);
  }

  /** A refusal that blames the chain is always right: the event does not extend the dragline. */
  lemma BlameIsRight(fibers: Slots, seen: set<Id>, h: seq<EventEnvelope>, e: EventEnvelope)
    requires Represents(fibers, seen, h)
    requires ValidateAppend(fibers, seen, e).Err? && ChainBroken(ValidateAppend(fibers, seen, e).error)
    ensures !Extends(h, e)
  {
    hide Intact, FreshEvent, LastOfFiber, FiberChain;
    assert SlotFits(fibers, h, e.header.fiberId);
    assert e.header.eventId in seen <==> !FreshEvent(h, e.header.eventId);
  }

  /** Damage is contained: an admitted append changes the standing of no fiber, and on a valid
      dragline it leaves a valid dragline. */
  lemma AdmittedAppendKeepsStanding(fibers: Slots, seen: set<Id>, h: seq<EventEnvelope>, e: EventEnvelope, f: Id)
    requires Represents(fibers, seen, h) && Bounded(fibers)
    requires ValidateAppend(fibers, seen, e).Ok?
    ensures Intact(h + [e], f) <==> Intact(h, f)
    ensures ValidHistory(h) ==> ValidHistory(h + [e])
  {
    hide Intact, Extends, ValidateAppend;
    AdmitsExactlyExtensions(fibers, seen, h, e);
    SnocIntact(h, e, f);
    ValidSnoc(h, e);
  }

  /** A break is permanent: no later event mends a fiber. */
  lemma {:induction false} BreakIsPermanent(h: seq<EventEnvelope>, more: seq<EventEnvelope>, f: Id)
    requires !Intact(h, f)
    ensures !Intact(h + more, f)
    decreases |more|
  {
    hide Intact;
    if more == [] {
      assert h + more == h;
    } else {
      SnocIntact(h, more[0], f);
      BreakIsPermanent(h + [more[0]], more[1..], f);
      assert h + [more[0]] + more[1..] == h + more;
    }
  }

  /** No slot of the index is broken exactly when the dragline it stands for is valid. */
  lemma UnbrokenIffValid(fibers: Slots, seen: set<Id>, h: seq<EventEnvelope>)
    requires Represents(fibers, seen, h)
    ensures (forall f | f in fibers :: fibers[f].Active?) <==> ValidHistory(h)
  {
    hide Intact, LastOfFiber, FiberChain, ValidHistory;
    ValidIffAllIntact(h);
    assert forall f: Id :: SlotFits(fibers, h, f);
    if forall f | f in fibers :: fibers[f].Active? {
      forall f: Id ensures Intact(h, f) {
        assert SlotFits(fibers, h, f);
        if f !in fibers {
          UnusedIsIntact(h, f);
        }
      }
    } else {
      var f :| f in fibers && fibers[f].Broken?;
      assert SlotFits(fibers, h, f);
    }
  }

  // ---- The index ----

  /** Processing recovered event `e` fails only for want of room, or for a zero id on a fiber
      that is not yet broken. */
  predicate Processable(fibers: Slots, e: EventEnvelope) {
    && Room(fibers, e.header.fiberId)
    && (e.header.eventId == ZERO_ID ==> CountsAsBroken(fibers, e.header.fiberId))
  }

  predicate CountsAsBroken(fibers: Slots, f: Id) {
    f in fibers && fibers[f].Broken?
  }

  /** Whether processing goes ahead is decided by `Processable`, and a chain-breaking refusal
      is the only one that does not stop it. */
  lemma VerdictOnRecovered(fibers: Slots, seen: set<Id>, h: seq<EventEnvelope>, e: EventEnvelope)
    requires Represents(fibers, seen, h) && Bounded(fibers)
    requires !CountsAsBroken(fibers, e.header.fiberId)
    ensures var v := ValidateAppend(fibers, seen, e);
            && (v.Ok? ==> Processable(fibers, e))
            && (v.Err? && !ChainBroken(v.error) ==> !Processable(fibers, e))
  {
    hide Represents;
    AdmitsExactlyExtensions(fibers, seen, h, e);
    if Room(fibers, e.header.fiberId) {
      SeenBoundNeverDecides(fibers, seen, h, e.header.fiberId);
    }
  }

  class SessionIndex {
    var fibers: Slots
    var seen: set<Id>
    ghost var history: seq<EventEnvelope>

    ghost predicate Valid()
      reads this
    {
      Represents(fibers, seen, history) && Bounded(fibers)
    }

    constructor ()
      ensures Valid() && history == []
    {
      fibers, seen, history := map[], {}, [];
      NothingSeen();
    }

    /** Takes over an event that was validated before it was written. */
    method CommitUnchecked(e: EventEnvelope)
      requires Valid() && ValidateAppend(fibers, seen, e).Ok?
      modifies this
      ensures Valid() && history == old(history) + [e]
      ensures fibers == After(old(fibers), old(history), e) && seen == old(seen) + {e.header.eventId}
    {
      hide Represents, Bounded, Extends, Intact, ValidateAppend;
      AdmitsExactlyExtensions(fibers, seen, history, e);
      AfterRepresents(fibers, seen, history, e);
      AfterBounded(fibers, history, e);
      var f := e.header.fiberId;
      fibers := fibers[f := if f in fibers then Active(e, fibers[f].count + 1) else Active(e, 1)];
      seen := seen + {e.header.eventId};
      history := history + [e];
    }

    /** Counts an event that broke its fiber, or came after the break. */
    method RecordBroken(f: Id, id: Id, before: nat) returns (r: Result<(), Refusal>)
      requires f in fibers && fibers[f] == Broken(before)
      modifies this`fibers, this`seen
      ensures r.Ok? <==>
                && before < MAX_EVENTS_PER_FIBER
                && (id in old(seen) || |old(seen)| < MAX_ACTIVE_FIBERS * MAX_EVENTS_PER_FIBER)
      ensures r.Ok? ==> fibers == old(fibers)[f := Broken(before + 1)] && seen == old(seen) + {id}
      ensures r.Err? ==> seen == old(seen)
    {
      if before + 1 > MAX_EVENTS_PER_FIBER {
        return Err(EventsExhausted);
      }
      fibers := fibers[f := Broken(before + 1)];
      if id !in seen {
        if |seen| >= MAX_ACTIVE_FIBERS * MAX_EVENTS_PER_FIBER {
          return Err(SeenIdsExhausted);
        }
        seen := seen + {id};
      }
      return Ok(());
    }

    /** Replays one recovered event. A break of its chain does not stop recovery: the fiber is
        marked, and every later event of it is only counted. */
    method ProcessEvent(e: EventEnvelope) returns (r: Result<(), Refusal>)
      requires Valid()
      modifies this
      ensures r.Ok? <==> Processable(old(fibers), e)
      ensures r.Ok? ==> Valid() && history == old(history) + [e]
      ensures r.Ok? ==> fibers == After(old(fibers), old(history), e)
      ensures r.Err? ==> seen == old(seen) && history == old(history)
    {
      hide Represents, Bounded, Extends, Intact, ValidateAppend;
      var f := e.header.fiberId;
      ghost var before, h := fibers, history;
      if Room(fibers, f) {
        SeenBoundNeverDecides(fibers, seen, h, f);
        AfterBounded(fibers, h, e);
      }
      AfterRepresents(fibers, seen, h, e);
      if f in fibers && fibers[f].Broken? {
        BrokenStays(fibers, seen, h, e);
        r := RecordBroken(f, e.header.eventId, fibers[f].count);
      } else {
        VerdictOnRecovered(fibers, seen, h, e);
        var v := ValidateAppend(fibers, seen, e);
        if v.Ok? {
          CommitUnchecked(e);
          return Ok(());
        }
        if !ChainBroken(v.error) {
          return v;
        }
        BlameIsRight(fibers, seen, h, e);
        BlameNeedsId(fibers, seen, e);
        if f !in fibers && |fibers| >= MAX_ACTIVE_FIBERS {
          return Err(FibersExhausted);
        }
        var count := if f in fibers then fibers[f].count else 0;
        fibers := fibers[f := Broken(count)];
        r := RecordBroken(f, e.header.eventId, count);
      }
      if r.Ok? {
        history := history + [e];
        assert fibers == After(before, h, e);
      }
    }

    /** One raw frame: it must hold exactly one envelope. */
    method ProcessFrame(frame: Bytes) returns (r: Result<(), Refusal>)
      requires Valid()
      modifies this
      ensures r.Ok? <==> DecodeFrame(frame).Some? && Processable(old(fibers), DecodeFrame(frame).value)
      ensures r.Ok? ==> Valid() && history == old(history) + [DecodeFrame(frame).value]
    {
      hide Represents, Bounded;
      ShortFrame(frame);
      if |frame| < 85 {
        return Err(Malformed);
      }
      var e := DecodeFrame(frame);
      if e.None? {
        return Err(Malformed);
      }
      r := ProcessEvent(e.value);
    }
  }

  lemma ShortFrame(frame: Bytes)
    ensures DecodeFrame(frame).Some? ==> |frame| >= 85
  {
  }

  lemma BrokenStays(fibers: Slots, seen: set<Id>, h: seq<EventEnvelope>, e: EventEnvelope)
    requires Represents(fibers, seen, h) && CountsAsBroken(fibers, e.header.fiberId)
    ensures !Intact(h, e.header.fiberId)
  {
    hide Intact, LastOfFiber, FiberChain, FreshEvent;
    assert SlotFits(fibers, h, e.header.fiberId);
  }

  lemma BlameNeedsId(fibers: Slots, seen: set<Id>, e: EventEnvelope)
    requires ValidateAppend(fibers, seen, e).Err? && ChainBroken(ValidateAppend(fibers, seen, e).error)
    ensures e.header.eventId != ZERO_ID
  {
  }

  // ---- Rebuilding from recovered frames ----

  function FibersIn(h: seq<EventEnvelope>): set<Id> {
    set e | e in h :: e.header.fiberId
  }

  ghost predicate Fits(h: seq<EventEnvelope>) {
    && |FibersIn(h)| <= MAX_ACTIVE_FIBERS
    && forall f: Id :: EventsOn(h, f) <= MAX_EVENTS_PER_FIBER
  }

  /** A zero event id is overlooked only behind a break of its fiber. */
  predicate ZeroIdsHidden(h: seq<EventEnvelope>) {
    forall i | 0 <= i < |h| && h[i].header.eventId == ZERO_ID :: !Intact(h[..i], h[i].header.fiberId)
  }

  ghost predicate Recoverable(h: seq<EventEnvelope>) {
    Fits(h) && ZeroIdsHidden(h)
  }

  lemma FibersOfSnoc(h: seq<EventEnvelope>, e: EventEnvelope)
    ensures FibersIn(h + [e]) == FibersIn(h) + {e.header.fiberId}
  {
    forall f: Id ensures f in FibersIn(h + [e]) <==> f in FibersIn(h) + {e.header.fiberId} {
      if f == e.header.fiberId {
        assert e in h + [e];
      } else if f in FibersIn(h) {
        var d :| d in h && d.header.fiberId == f;
        assert d in h + [e];
      }
    }
  }

  lemma UsedFibers(fibers: Slots, seen: set<Id>, h: seq<EventEnvelope>)
    requires Represents(fibers, seen, h)
    ensures fibers.Keys == FibersIn(h)
  {
    hide Intact, FiberChain, FreshEvent;
    forall f: Id ensures f in fibers <==> f in FibersIn(h) {
      assert SlotFits(fibers, h, f);
    }
  }

  /** Fits is room for every event, one at a time. */
  lemma RoomIffFits(fibers: Slots, seen: set<Id>, h: seq<EventEnvelope>, e: EventEnvelope)
    requires Represents(fibers, seen, h) && Bounded(fibers)
    ensures Fits(h + [e]) <==> Room(fibers, e.header.fiberId)
  {
    hide EventsOn, FibersIn, Represents;
    var f := e.header.fiberId;
    FibersOfSnoc(h, e);
    UsedFibers(fibers, seen, h);
    assert |fibers| == |fibers.Keys|;
    assert FibersIn(h + [e]) == fibers.Keys + {f};
    if f in fibers {
      assert fibers.Keys + {f} == fibers.Keys;
    }
    forall g: Id ensures EventsOn(h + [e], g) == CountOf(fibers, g) + if g == f then 1 else 0 {
      SnocFiber(h, e, g);
      CountIsEvents(fibers, seen, h, g);
    }
    if Fits(h + [e]) {
      assert EventsOn(h + [e], f) <= MAX_EVENTS_PER_FIBER;
    }
  }

  lemma ZeroIdsSnoc(h: seq<EventEnvelope>, e: EventEnvelope)
    ensures ZeroIdsHidden(h + [e]) <==>
              ZeroIdsHidden(h) && (e.header.eventId == ZERO_ID ==> !Intact(h, e.header.fiberId))
  {
    hide Intact;
    var g := h + [e];
    assert g[..|h|] == h && g[|h|] == e;
    assert forall i | 0 <= i < |h| :: g[..i] == h[..i] && g[i] == h[i];
    if ZeroIdsHidden(g) {
      forall i | 0 <= i < |h| && h[i].header.eventId == ZERO_ID ensures !Intact(h[..i], h[i].header.fiberId) {
        assert g[i] == h[i];
      }
      assert g[|h|].header.eventId == ZERO_ID ==> !Intact(g[..|h|], g[|h|].header.fiberId);
    }
  }

  lemma FitsPrefix(h: seq<EventEnvelope>, e: EventEnvelope)
    requires Fits(h + [e])
    ensures Fits(h)
  {
    hide EventsOn, FibersIn;
    FibersOfSnoc(h, e);
    Smaller(FibersIn(h), FibersIn(h + [e]));
    forall f: Id ensures EventsOn(h, f) <= MAX_EVENTS_PER_FIBER {
      SnocFiber(h, e, f);
    }
  }

  lemma StandingInIndex(fibers: Slots, seen: set<Id>, h: seq<EventEnvelope>, f: Id)
    requires Represents(fibers, seen, h)
    ensures CountsAsBroken(fibers, f) <==> !Intact(h, f)
  {
    hide Intact, FiberChain, FreshEvent, LastOfFiber;
    assert SlotFits(fibers, h, f);
    if f !in fibers {
      UnusedIsIntact(h, f);
    }
  }

  lemma RecoverableSnoc(fibers: Slots, seen: set<Id>, h: seq<EventEnvelope>, e: EventEnvelope)
    requires Represents(fibers, seen, h) && Bounded(fibers)
    ensures Recoverable(h + [e]) <==> ZeroIdsHidden(h) && Processable(fibers, e)
  {
    hide Represents, Fits, ZeroIdsHidden, Intact, Room, CountsAsBroken;
    RoomIffFits(fibers, seen, h, e);
    ZeroIdsSnoc(h, e);
    StandingInIndex(fibers, seen, h, e.header.fiberId);
  }

  lemma {:induction false} RecoverablePrefix(h: seq<EventEnvelope>, n: nat)
    requires n <= |h| && Recoverable(h)
    ensures Recoverable(h[..n])
  {
    hide Fits, ZeroIdsHidden;
    if n == |h| {
      assert h[..n] == h;
    } else {
      var p, e := h[..|h| - 1], h[|h| - 1];
      assert h == p + [e] && p[..n] == h[..n];
      FitsPrefix(p, e);
      ZeroIdsSnoc(p, e);
      RecoverablePrefix(p, n);
    }
  }

  predicate AllDecode(frames: seq<Bytes>) {
    forall i | 0 <= i < |frames| :: DecodeFrame(frames[i]).Some?
  }

  function Events(frames: seq<Bytes>): (h: seq<EventEnvelope>)
    requires AllDecode(frames)
    ensures |h| == |frames|
    ensures forall i | 0 <= i < |h| :: DecodeFrame(frames[i]) == Some(h[i])
  {
    seq(|frames|, i requires 0 <= i < |frames| => DecodeFrame(frames[i]).value)
  }

  /** Recovery succeeds exactly when every frame is one envelope, no zero id shows, and the
      dragline keeps within the two bounds; the index then stands for the whole dragline. */
  method BuildFromFrames(frames: seq<Bytes>) returns (index: SessionIndex, r: Result<(), Refusal>)
    ensures r.Ok? <==> AllDecode(frames) && Recoverable(Events(frames))
    ensures r.Ok? ==> fresh(index) && index.Valid() && index.history == Events(frames)
  {
    hide Represents, Bounded, Recoverable, Processable, DecodeFrame, After;
    index := new SessionIndex();
    assert Recoverable([]) by { EmptyIsRecoverable(); }
    r := Ok(());
    var i := 0;
    while i < |frames|
      invariant 0 <= i <= |frames| && fresh(index) && index.Valid()
      invariant AllDecode(frames[..i]) && index.history == Events(frames[..i]) && Recoverable(index.history)
    {
      ghost var fibers, seen, h := index.fibers, index.seen, index.history;
      NextFrame(frames, i, fibers, seen, h);
      r := index.ProcessFrame(frames[i]);
      if r.Err? {
        return;
      }
      assert index.history == Events(frames[..i + 1]);
      i := i + 1;
    }
    assert frames[..i] == frames;
    return index, Ok(());
  }

  lemma EmptyIsRecoverable()
    ensures Recoverable([])
  {
    assert FibersIn([]) == {};
  }

  lemma NextFrame(frames: seq<Bytes>, i: nat, fibers: Slots, seen: set<Id>, h: seq<EventEnvelope>)
    requires i < |frames| && AllDecode(frames[..i]) && h == Events(frames[..i])
    requires Represents(fibers, seen, h) && Bounded(fibers) && Recoverable(h)
    ensures var d := DecodeFrame(frames[i]);
            && (AllDecode(frames[..i + 1]) <==> d.Some?)
            && (AllDecode(frames) ==> d.Some?)
            && (d.Some? ==> Events(frames[..i + 1]) == h + [d.value])
            && (d.Some? ==> (Recoverable(h + [d.value]) <==> Processable(fibers, d.value)))
            && (AllDecode(frames) && Recoverable(Events(frames)) ==> Recoverable(h + [d.value]))
  {
    hide Represents, Bounded, Fits, ZeroIdsHidden, Processable, DecodeFrame;
    var d := DecodeFrame(frames[i]);
    assert frames[..i + 1] == frames[..i] + [frames[i]];
    if d.Some? {
      var now := frames[..i + 1];
      forall k | 0 <= k < |now| ensures DecodeFrame(now[k]).Some? {
        assert k < i ==> now[k] == frames[..i][k];
      }
      assert Events(frames[..i + 1]) == h + [d.value];
      RecoverableSnoc(fibers, seen, h, d.value);
      if AllDecode(frames) && Recoverable(Events(frames)) {
        RecoverablePrefix(Events(frames), i + 1);
        assert Events(frames)[..i + 1] == h + [d.value];
      }
    } else {
      assert frames[..i + 1][i] == frames[i];
    }
  }

  // ---- The writer pipeline ----

  /** What the engine reports for a block it was handed. */
  datatype Landing = Landed | Undetermined | Failed

  datatype AppendError = FrameTooLong | NoAuthority | Rejected(refusal: Refusal) | EngineFailed

  class Store {
    const index: SessionIndex
    var uncertain: bool

    constructor (index: SessionIndex)
      ensures this.index == index && !uncertain
    {
      this.index, uncertain := index, false;
    }

    /** Only an admissible event reaches the engine, and only a landed one enters the index. A
        session whose last write is undetermined hands nothing over any more. */
    method AppendFrame(payload: Bytes, authority: bool, landing: Landing)
      returns (r: Result<Landing, AppendError>, handed: bool)
      requires index.Valid()
      modifies this`uncertain, index
      ensures index.Valid()
      ensures handed <==>
                && |payload| <= U32_MAX && !old(uncertain) && authority && DecodeFrame(payload).Some?
                && (var e := DecodeFrame(payload).value;
                    && e.header.eventId != ZERO_ID && old(Intact(index.history, e.header.fiberId))
                    && old(Extends(index.history, e)) && old(Room(index.fibers, e.header.fiberId)))
      ensures index.history
           == old(index.history) + if handed && landing.Landed? then [DecodeFrame(payload).value] else []
      ensures uncertain <==> old(uncertain) || (handed && landing.Undetermined?)
      ensures handed ==> r == if landing.Failed? then Err(EngineFailed) else Ok(landing)
      ensures !handed ==> r.Err?
      ensures |payload| > U32_MAX ==> r == Err(FrameTooLong)
      ensures |payload| <= U32_MAX && (old(uncertain) || !authority) ==> r == Err(NoAuthority)
      ensures |payload| <= U32_MAX && !old(uncertain) && authority && DecodeFrame(payload).None? ==> r == Err(Rejected(Malformed))
      ensures old(ValidHistory(index.history)) ==> ValidHistory(index.history)
      ensures handed && old(ValidHistory(index.history)) ==>
                ValidHistory(old(index.history) + [DecodeFrame(payload).value])
    {
      hide Represents, Bounded, ValidateAppend, Extends, Intact, Room, ValidHistory, After;
      handed := false;
      if |payload| > U32_MAX {
        return Err(FrameTooLong), false;
      }
      if uncertain || !authority {
        return Err(NoAuthority), false;
      }
      ShortFrame(payload);
      if |payload| < 85 {
        return Err(Rejected(Malformed)), false;
      }
      var d := DecodeFrame(payload);
      if d.None? {
        return Err(Rejected(Malformed)), false;
      }
      var e := d.value;
      AdmitsExactlyExtensions(index.fibers, index.seen, index.history, e);
      var v := ValidateAppend(index.fibers, index.seen, e);
      if v.Err? {
        return Err(Rejected(v.error)), false;
      }
      ValidSnoc(index.history, e);
      handed := true;
      match landing {
        case Failed => r := Err(EngineFailed);
        case Undetermined =>
          uncertain := true;
          r := Ok(Undetermined);
        case Landed =>
          index.CommitUnchecked(e);
          r := Ok(Landed);
      }
    }
  }
}
