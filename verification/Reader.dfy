/** The branded reader session: a bounded queue of envelopes, two maps, a position and three
    flags, against the plain list of observed events (crates/pardosa/src/store.rs:355-937). */
module Reader {
  import opened Wire
  import opened Envelope
  import opened History

  const MAX_ACTIVE_FIBERS: nat := 100_000
  const MAX_STREAM_ITEMS: nat := 65_536
  const MAX_STREAM_BYTES: nat := 64 * 1024 * 1024

  /** An envelope in the queue, with the capacity its payload buffer was allocated. */
  datatype Queued = Queued(env: EventEnvelope, capacity: nat)

  function Charge(q: seq<Queued>): nat {
    if q == [] then 0 else 85 + q[0].capacity + Charge(q[1..])
  }

  function Envelopes(q: seq<Queued>): (es: seq<EventEnvelope>)
    ensures |es| == |q|
    ensures forall i | 0 <= i < |q| :: es[i] == q[i].env
  {
    if q == [] then [] else [q[0].env] + Envelopes(q[1..])
  }

  lemma ChargeSplit(q: seq<Queued>)
    ensures q == [] ==> Charge(q) == 0
    ensures q != [] ==> Charge(q) == 85 + q[0].capacity + Charge(q[1..])
  {
  }

  lemma {:induction false} ChargeSnoc(q: seq<Queued>, x: Queued)
    ensures Charge(q + [x]) == Charge(q) + 85 + x.capacity
  {
    if q != [] {
      assert (q + [x])[0] == q[0] && (q + [x])[1..] == q[1..] + [x];
      ChargeSnoc(q[1..], x);
    }
  }

  function TotalCapacity(q: seq<Queued>): nat {
    if q == [] then 0 else TotalCapacity(q[..|q| - 1]) + q[|q| - 1].capacity
  }

  /** Each entry is charged its header and length field, 85 bytes, and its capacity. */
  lemma {:induction false} ChargeIs(q: seq<Queued>)
    ensures Charge(q) == 85 * |q| + TotalCapacity(q)
  {
    if q != [] {
      var p, x := q[..|q| - 1], q[|q| - 1];
      assert q == p + [x];
      ChargeIs(p);
      ChargeSnoc(p, x);
    }
  }

  lemma {:induction false} ChargeMonotone(q: seq<Queued>, n: nat)
    requires n <= |q|
    ensures Charge(q[..n]) <= Charge(q)
  {
    if n > 0 {
      assert q[..n][0] == q[0] && q[..n][1..] == q[1..][..n - 1];
      ChargeMonotone(q[1..], n - 1);
    }
  }

  // ---- What the two maps hold ----

  datatype FiberTracking = FiberTracking(lastEventId: Id, lastCommitment: Digest)

  function Track(e: EventEnvelope): FiberTracking {
    FiberTracking(e.header.eventId, Commitment(e))
  }

  function FibersOf(h: seq<EventEnvelope>): map<Id, FiberTracking> {
    if h == [] then map[] else
    var n := |h| - 1;
    FibersOf(h[..n])[h[n].header.fiberId := Track(h[n])]
  }

  function EventsOf(h: seq<EventEnvelope>): map<Id, Id> {
    if h == [] then map[] else
    var n := |h| - 1;
    EventsOf(h[..n])[h[n].header.eventId := h[n].header.fiberId]
  }

  lemma MapsSnoc(h: seq<EventEnvelope>, e: EventEnvelope)
    ensures FibersOf(h + [e]) == FibersOf(h)[e.header.fiberId := Track(e)]
    ensures EventsOf(h + [e]) == EventsOf(h)[e.header.eventId := e.header.fiberId]
  {
    assert (h + [e])[..|h|] == h;
  }

  lemma {:induction false} FibersOfIsLast(h: seq<EventEnvelope>, f: Id)
    ensures f in FibersOf(h) <==> LastOfFiber(h, f).Some?
    ensures f in FibersOf(h) ==> FibersOf(h)[f] == Track(LastOfFiber(h, f).value)
  {
    hide Track;
    if h != [] {
      FibersOfIsLast(h[..|h| - 1], f);
    }
  }

  lemma {:induction false} FindByIdSnoc(h: seq<EventEnvelope>, e: EventEnvelope, id: Id)
    ensures FindById(h + [e], id) == if FindById(h, id).Some? then FindById(h, id)
                                     else if e.header.eventId == id then Some(e) else None
  {
    if h != [] {
      assert (h + [e])[0] == h[0] && (h + [e])[1..] == h[1..] + [e];
      FindByIdSnoc(h[1..], e, id);
    }
  }

  lemma {:induction false} EventsOfIsFind(h: seq<EventEnvelope>, id: Id)
    requires ValidHistory(h)
    ensures id in EventsOf(h) <==> FindById(h, id).Some?
    ensures id in EventsOf(h) ==> EventsOf(h)[id] == FindById(h, id).value.header.fiberId
  {
    hide Linked;
    if h != [] {
      var g, e := h[..|h| - 1], h[|h| - 1];
      assert h == g + [e];
      ValidSnoc(g, e);
      EventsOfIsFind(g, id);
      FindByIdSnoc(g, e, id);
    }
  }

  lemma {:induction false} FiberCount(h: seq<EventEnvelope>)
    ensures |FibersOf(h)| <= |h|
  {
    if h != [] {
      var m, n := FibersOf(h[..|h| - 1]), |h| - 1;
      FiberCount(h[..n]);
      assert FibersOf(h).Keys == m.Keys + {h[n].header.fiberId};
    }
  }

  // ---- The list specification ----

  datatype Observation = Observation(position: nat, eventId: Id, fiberId: Id, isGenesis: bool)

  datatype Refusal = ItemLimit | ByteLimit

  datatype ReadError =
    | Refused(limit: Refusal)
    | DuplicateEvent
    | GenesisWithHash
    | DuplicateGenesis
    | PrecursorOutOfRange
    | PrecursorWrongFiber
    | StalePrecursor
    | CommitmentMismatch

  /** A reader session as a list of what it has observed and a list of what it has not. */
  datatype Session = Session(
    observed: seq<EventEnvelope>, pending: seq<EventEnvelope>, refusal: Option<Refusal>, failed: bool)

  function Observe(position: nat, e: EventEnvelope): Observation {
    Observation(position, e.header.eventId, e.header.fiberId, e.header.precursor == ZERO_ID)
  }

  /** Which rule an event breaks that does not extend the history. */
  function Violation(h: seq<EventEnvelope>, e: EventEnvelope): ReadError {
    if !FreshEvent(h, e.header.eventId) then DuplicateEvent
    else if e.header.precursor == ZERO_ID then
      if e.header.precursorHash != ZERO_DIGEST then GenesisWithHash else DuplicateGenesis
    else match FindById(h, e.header.precursor)
         case None => ReadError.PrecursorOutOfRange
         case Some(p) =>
           if p.header.fiberId != e.header.fiberId then ReadError.PrecursorWrongFiber
           else if LastOfFiber(h, e.header.fiberId).Some?
                   && LastOfFiber(h, e.header.fiberId).value.header.eventId != e.header.precursor then StalePrecursor
           else ReadError.CommitmentMismatch
  }

  /** Which of the reader's answers an offending event gets. */
  lemma ViolationMeans(h: seq<EventEnvelope>, e: EventEnvelope)
    requires ValidHistory(h) && !Extends(h, e)
    ensures var v, x, last := Violation(h, e), e.header, LastOfFiber(h, e.header.fiberId);
            if !FreshEvent(h, x.eventId) then v == DuplicateEvent
            else if x.precursor == ZERO_ID then
              (if x.precursorHash != ZERO_DIGEST then v == GenesisWithHash else last.Some? && v == DuplicateGenesis)
            else if forall p | p in h :: p.header.eventId != x.precursor then v == ReadError.PrecursorOutOfRange
            else if forall p | p in h && p.header.eventId == x.precursor :: p.header.fiberId != x.fiberId then
              v == ReadError.PrecursorWrongFiber
            else if last.Some? && last.value.header.eventId != x.precursor then v == StalePrecursor
            else last.Some? && Commitment(last.value) != x.precursorHash && v == ReadError.CommitmentMismatch
  {
    hide ValidHistory, LastOfFiber, FindById, FreshEvent, Commitment;
    var p := FindById(h, e.header.precursor);
    if p.None? {
      FreshMeansAbsent(h, e.header.precursor);
    } else {
      forall q | q in h && q.header.eventId == e.header.precursor ensures q == p.value {
        SameIdSameEvent(h, p.value, q);
      }
      if p.value.header.fiberId == e.header.fiberId {
        var i :| 0 <= i < |h| && h[i] == p.value;
      }
    }
  }

  type ReadResult = Option<Result<Observation, ReadError>>

  function ReadNext(s: Session): (Session, ReadResult) {
    if s.refusal.Some? then
      (Session(s.observed, [], None, true), Some(Err(Refused(s.refusal.value))))
    else if s.failed || s.pending == [] then (s, None)
    else
      var e := s.pending[0];
      if Extends(s.observed, e) then
        (s.(observed := s.observed + [e], pending := s.pending[1..]), Some(Ok(Observe(|s.observed|, e))))
      else
        (Session(s.observed, [], None, true), Some(Err(Violation(s.observed, e))))
  }

  // ---- What a whole session returns ----

  /** How many of `es` can be appended to `h`, one after another, before one breaks a rule. */
  function Accepted(h: seq<EventEnvelope>, es: seq<EventEnvelope>): (n: nat)
    ensures n <= |es|
    decreases |es|
  {
    if es == [] || !Extends(h, es[0]) then 0 else 1 + Accepted(h + [es[0]], es[1..])
  }

  lemma {:induction false} AcceptedIsLongestValidPrefix(h: seq<EventEnvelope>, es: seq<EventEnvelope>, n: nat)
    requires ValidHistory(h) && n <= |es|
    ensures ValidHistory(h + es[..n]) <==> n <= Accepted(h, es)
    decreases n
  {
    hide Extends;
    if n == 0 {
      assert h + es[..0] == h;
    } else {
      ValidSnoc(h, es[0]);
      assert h + es[..n] == h + [es[0]] + es[1..][..n - 1];
      if Extends(h, es[0]) {
        AcceptedIsLongestValidPrefix(h + [es[0]], es[1..], n - 1);
      } else if ValidHistory(h + es[..n]) {
        assert (h + es[..n])[..|h| + 1] == h + [es[0]];
        ValidPrefix(h + es[..n], |h| + 1);
      }
    }
  }

  function After(s: Session, n: nat): Session
    decreases n
  {
    if n == 0 then s else After(ReadNext(s).0, n - 1)
  }

  /** The `n`-th read of a session opened over `es` and not refused: an observation at
      position `n` for each event of the longest valid prefix, one error if anything is left,
      and nothing ever after. */
  lemma {:induction false} SessionReads(s: Session, n: nat)
    requires !s.failed && s.refusal.None?
    ensures var k := Accepted(s.observed, s.pending);
            ReadNext(After(s, n)).1 ==
              if n < k then
                var e := s.pending[n].header;
                Some(Ok(Observation(|s.observed| + n, e.eventId, e.fiberId, e.precursor == ZERO_ID)))
              else if n == k && k < |s.pending| then
                Some(Err(Violation(s.observed + s.pending[..k], s.pending[k])))
              else None
    decreases n
  {
    hide Extends, Violation;
    if s.pending == [] {
      StaysSilent(s, n);
    } else if Extends(s.observed, s.pending[0]) {
      if n > 0 {
        var t := ReadNext(s).0;
        SessionReads(t, n - 1);
        var k := Accepted(t.observed, t.pending);
        assert s.observed + s.pending[..k + 1] == t.observed + t.pending[..k];
      }
    } else {
      assert s.observed + s.pending[..0] == s.observed;
      if n > 0 {
        StaysSilent(ReadNext(s).0, n - 1);
      }
    }
  }

  lemma {:induction false} StaysSilent(s: Session, n: nat)
    requires s.refusal.None? && (s.failed || s.pending == [])
    ensures After(s, n) == s && ReadNext(s) == (s, None)
  {
    if n > 0 {
      StaysSilent(s, n - 1);
    }
  }

  /** A refused session answers once with the refusal and then falls silent. */
  lemma RefusedSessionReads(s: Session, n: nat)
    requires s.refusal.Some?
    ensures ReadNext(After(s, n)).1 == if n == 0 then Some(Err(Refused(s.refusal.value))) else None
  {
    if n > 0 {
      StaysSilent(ReadNext(s).0, n - 1);
    }
  }

  // ---- The reader as it runs ----

  /** The limit an ingested stream meets first: the bytes count as long as the items do not. */
  function LimitMet(input: seq<Queued>): Option<Refusal> {
    var n := if |input| <= MAX_STREAM_ITEMS then |input| else MAX_STREAM_ITEMS;
    if Charge(input[..n]) > MAX_STREAM_BYTES then Some(ByteLimit)
    else if |input| > MAX_STREAM_ITEMS then Some(ItemLimit) else None
  }

  lemma WithinItems(input: seq<Queued>, i: nat)
    requires i <= |input| && i <= MAX_STREAM_ITEMS && Charge(input[..i]) > MAX_STREAM_BYTES
    ensures LimitMet(input) == Some(ByteLimit)
  {
    var n := if |input| <= MAX_STREAM_ITEMS then |input| else MAX_STREAM_ITEMS;
    assert input[..n][..i] == input[..i];
    ChargeMonotone(input[..n], i);
  }

  class ArtefactReader {
    var observedPosition: nat
    var fibers: map<Id, FiberTracking>
    var observedEvents: map<Id, Id>
    var stream: seq<Queued>
    var terminallyFailed: bool
    var capacityRefused: bool
    var byteCapacityRefused: bool
    var retainedBytes: nat
    ghost var observed: seq<EventEnvelope>

    /** The maps are those of the observed list, the observed list is a valid history, and the
        byte counter is the charge of the queue and within its limit. */
    ghost predicate Valid()
      reads this
    {
      && Tracked()
      && |observed| + |stream| <= MAX_STREAM_ITEMS
      && retainedBytes == Charge(stream) <= MAX_STREAM_BYTES
      && !(capacityRefused && byteCapacityRefused)
      && (capacityRefused || byteCapacityRefused ==> terminallyFailed)
      && (terminallyFailed ==> stream == [])
    }

    ghost predicate Tracked()
      reads this
    {
      && ValidHistory(observed)
      && observedPosition == |observed|
      && fibers == FibersOf(observed) && observedEvents == EventsOf(observed)
    }

    ghost function Abstract(): Session
      reads this
    {
      Session(observed, Envelopes(stream),
              if capacityRefused then Some(ItemLimit) else if byteCapacityRefused then Some(ByteLimit) else None,
              terminallyFailed)
    }

    /** Ingestion is eager: the session holds the whole stream, or is refused and empty.
        It is refused exactly when the items or their bytes are over the limit. */
    constructor WithStream(input: seq<Queued>)
      ensures Valid()
      ensures Abstract().observed == []
      ensures var refused := |input| > MAX_STREAM_ITEMS || Charge(input) > MAX_STREAM_BYTES;
              && Abstract().refusal == LimitMet(input)
              && Abstract().refusal.Some? == Abstract().failed == refused
              && Abstract().pending == if refused then [] else Envelopes(input)
    {
      observedPosition, fibers, observedEvents := 0, map[], map[];
      observed := [];
      terminallyFailed := false;
      var items, bytes, queue, retained: nat := false, false, [], 0;
      var i := 0;
      while i < |input| && !items && !bytes
        invariant i <= |input|
        invariant !items && !bytes ==> queue == input[..i] && i <= MAX_STREAM_ITEMS
                                       && retained == Charge(input[..i]) <= MAX_STREAM_BYTES
        invariant items ==> !bytes && |input| > MAX_STREAM_ITEMS
                            && Charge(input[..MAX_STREAM_ITEMS]) <= MAX_STREAM_BYTES
        invariant bytes ==> Charge(input) > MAX_STREAM_BYTES && LimitMet(input) == Some(ByteLimit)
        decreases |input| - i
      {
        assert input[..i + 1] == input[..i] + [input[i]];
        ChargeSnoc(input[..i], input[i]);
        ChargeMonotone(input, i + 1);
        if i + 1 <= MAX_STREAM_ITEMS {
          if Charge(input[..i + 1]) > MAX_STREAM_BYTES {
            WithinItems(input, i + 1);
          }
          if retained + 85 + input[i].capacity <= MAX_STREAM_BYTES {
            retained := retained + 85 + input[i].capacity;
            queue := queue + [input[i]];
          } else {
            bytes := true;
          }
        } else {
          items := true;
        }
        i := i + 1;
      }
      assert input[..|input|] == input;
      stream, retainedBytes, capacityRefused, byteCapacityRefused := queue, retained, items, bytes;
      new;
      if capacityRefused || byteCapacityRefused {
        MarkTerminallyFailed();
      }
    }

    method MarkTerminallyFailed()
      modifies this`terminallyFailed, this`stream, this`retainedBytes
      ensures terminallyFailed && stream == [] && retainedBytes == 0
    {
      terminallyFailed, stream, retainedBytes := true, [], 0;
    }

    method Record(env: EventEnvelope) returns (r: Option<Observation>)
      requires Tracked() && Extends(observed, env)
      modifies this`observedPosition, this`fibers, this`observedEvents, this`observed
      ensures Tracked() && observed == old(observed) + [env]
      ensures r == Some(Observe(|old(observed)|, env))
    {
      hide Extends, FibersOf, EventsOf, ValidHistory, Commitment;
      var id, f := env.header.eventId, env.header.fiberId;
      MapsSnoc(observed, env);
      ValidSnoc(observed, env);
      var position := observedPosition;
      observedPosition := observedPosition + 1;
      fibers := fibers[f := FiberTracking(id, Commitment(env))];
      observedEvents := observedEvents[id := f];
      observed := observed + [env];
      return Some(Observation(position, id, f, env.header.precursor == ZERO_ID));
    }

    /** Takes a genesis into the maps, checking once more that it extends the history. */
    method ObserveGenesis(env: EventEnvelope) returns (r: Option<Observation>)
      requires Tracked() && |observed| < MAX_STREAM_ITEMS
      modifies this`observedPosition, this`fibers, this`observedEvents, this`observed
      ensures Tracked()
      ensures r == if env.header.precursor == ZERO_ID && Extends(old(observed), env)
                   then Some(Observe(|old(observed)|, env)) else None
      ensures observed == if r.Some? then old(observed) + [env] else old(observed)
    {
      hide Extends, Violation, FibersOf, EventsOf, ValidHistory, Commitment, FindById, LastOfFiber;
      var id, f := env.header.eventId, env.header.fiberId;
      Decide(observed, env, fibers, observedEvents);
      FiberCount(observed);
      if env.header.precursor != ZERO_ID || env.header.precursorHash != ZERO_DIGEST {
        return None;
      }
      if id in observedEvents || f in fibers {
        return None;
      }
      if |fibers| >= MAX_ACTIVE_FIBERS || observedPosition == U64_MAX {
        assert false;
      }
      r := Record(env);
    }

    /** Takes a later event into the maps, checking it against its fiber's entry alone. */
    method ObserveEvent(env: EventEnvelope) returns (r: Option<Observation>)
      requires Tracked() && |observed| < MAX_STREAM_ITEMS
      modifies this`observedPosition, this`fibers, this`observedEvents, this`observed
      ensures Tracked()
      ensures r == if env.header.precursor != ZERO_ID && Extends(old(observed), env)
                   then Some(Observe(|old(observed)|, env)) else None
      ensures observed == if r.Some? then old(observed) + [env] else old(observed)
    {
      hide Extends, Violation, FibersOf, EventsOf, ValidHistory, Commitment, FindById, LastOfFiber;
      var id, f, p := env.header.eventId, env.header.fiberId, env.header.precursor;
      if p == ZERO_ID {
        return None;
      }
      EntryDecides(observed, env, fibers, observedEvents);
      if id in observedEvents || f !in fibers {
        return None;
      }
      if fibers[f].lastEventId != p || fibers[f].lastCommitment != env.header.precursorHash {
        return None;
      }
      if observedPosition == U64_MAX {
        assert false;
      }
      r := Record(env);
    }

    /** Reading the next event is exactly the list specification. The branches for a full
        fiber table, a position overflow and a fiber without genesis are never taken. */
    method ReadEvent() returns (r: ReadResult)
      requires Valid()
      modifies this
      ensures Valid()
      ensures (Abstract(), r) == ReadNext(old(Abstract()))
    {
      hide Extends, Violation, ReadNext, FibersOf, EventsOf, ValidHistory, Commitment, Charge, Envelopes;
      ghost var before := Abstract();
      if capacityRefused {
        MarkTerminallyFailed();
        capacityRefused := false;
        ChargeSplit([]);
        RefusedStep(before);
        return Some(Err(Refused(ItemLimit)));
      }
      if byteCapacityRefused {
        MarkTerminallyFailed();
        byteCapacityRefused := false;
        ChargeSplit([]);
        RefusedStep(before);
        return Some(Err(Refused(ByteLimit)));
      }
      if terminallyFailed || stream == [] {
        SilentStep(before);
        return None;
      }
      var env := stream[0].env;
      ghost var h := observed;
      Decide(h, env, fibers, observedEvents);
      FiberCount(h);
      PopStep(before, stream);
      ChargeSplit(stream);
      retainedBytes := retainedBytes - (85 + stream[0].capacity);
      stream := stream[1..];
      var id, f, p := env.header.eventId, env.header.fiberId, env.header.precursor;
      var error: Option<ReadError> := None;
      if id in observedEvents {
        error := Some(DuplicateEvent);
      } else if p == ZERO_ID {
        if env.header.precursorHash != ZERO_DIGEST {
          error := Some(GenesisWithHash);
        } else if |fibers| >= MAX_ACTIVE_FIBERS {
          assert false;
        } else if f in fibers {
          error := Some(DuplicateGenesis);
        }
      } else if p !in observedEvents {
        error := Some(ReadError.PrecursorOutOfRange);
      } else if observedEvents[p] != f {
        error := Some(ReadError.PrecursorWrongFiber);
      } else if f !in fibers {
        assert false;
      } else if fibers[f].lastEventId != p {
        error := Some(StalePrecursor);
      } else if fibers[f].lastCommitment != env.header.precursorHash {
        error := Some(ReadError.CommitmentMismatch);
      }
      if error.Some? {
        MarkTerminallyFailed();
        ChargeSplit(stream);
        return Some(Err(error.value));
      }
      var seen;
      if p == ZERO_ID {
        seen := ObserveGenesis(env);
      } else {
        seen := ObserveEvent(env);
      }
      if seen.None? {
        assert false;
      }
      return Some(Ok(seen.value));
    }
  }

  lemma RefusedStep(s: Session)
    requires s.refusal.Some?
    ensures ReadNext(s) == (Session(s.observed, [], None, true), Some(Err(Refused(s.refusal.value))))
  {
  }

  lemma SilentStep(s: Session)
    requires s.refusal.None? && (s.failed || s.pending == [])
    ensures ReadNext(s) == (s, None)
  {
  }

  /** What taking the front of a live queue must lead to. */
  lemma PopStep(s: Session, q: seq<Queued>)
    requires s.refusal.None? && !s.failed && q != [] && s.pending == Envelopes(q)
    ensures var e := q[0].env;
            ReadNext(s) ==
              if Extends(s.observed, e) then
                (Session(s.observed + [e], Envelopes(q[1..]), None, false), Some(Ok(Observe(|s.observed|, e))))
              else (Session(s.observed, [], None, true), Some(Err(Violation(s.observed, e))))
  {
    assert s.pending[1..] == Envelopes(q[1..]);
  }

  /** The decision taken from the two maps. */
  function MapDecision(e: EventEnvelope, fibers: map<Id, FiberTracking>, events: map<Id, Id>): Option<ReadError> {
    var f, p := e.header.fiberId, e.header.precursor;
    if e.header.eventId in events then Some(DuplicateEvent)
    else if p == ZERO_ID then
      if e.header.precursorHash != ZERO_DIGEST then Some(GenesisWithHash)
      else if f in fibers then Some(DuplicateGenesis) else None
    else if p !in events then Some(ReadError.PrecursorOutOfRange)
    else if events[p] != f || f !in fibers then Some(ReadError.PrecursorWrongFiber)
    else if fibers[f].lastEventId != p then Some(StalePrecursor)
    else if fibers[f].lastCommitment != e.header.precursorHash then Some(ReadError.CommitmentMismatch)
    else None
  }

  /** Looking the maps up decides the declarative rule, and names the rule broken. A fiber
      some observed event belongs to always has an entry. */
  lemma Decide(h: seq<EventEnvelope>, e: EventEnvelope, fibers: map<Id, FiberTracking>, events: map<Id, Id>)
    requires ValidHistory(h) && fibers == FibersOf(h) && events == EventsOf(h)
    ensures MapDecision(e, fibers, events) == if Extends(h, e) then None else Some(Violation(h, e))
    ensures e.header.precursor in events && events[e.header.precursor] == e.header.fiberId
        ==> e.header.fiberId in fibers
  {
    hide ValidHistory, FibersOf, EventsOf;
    EventsOfIsFind(h, e.header.eventId);
    EventsOfIsFind(h, e.header.precursor);
    FibersOfIsLast(h, e.header.fiberId);
    LastIsFound(h, e.header.fiberId);
    var p := FindById(h, e.header.precursor);
    if p.Some? && p.value.header.fiberId == e.header.fiberId {
      assert p.value in h;
    }
  }

  /** The entry of its fiber decides an event that is not a genesis. */
  lemma EntryDecides(h: seq<EventEnvelope>, e: EventEnvelope, fibers: map<Id, FiberTracking>, events: map<Id, Id>)
    requires ValidHistory(h) && fibers == FibersOf(h) && events == EventsOf(h) && e.header.precursor != ZERO_ID
    ensures var f := e.header.fiberId;
            Extends(h, e) <==>
              && e.header.eventId !in events && f in fibers
              && fibers[f].lastEventId == e.header.precursor
              && fibers[f].lastCommitment == e.header.precursorHash
  {
    hide FibersOf, EventsOf, Commitment;
    EventsOfIsFind(h, e.header.eventId);
    FibersOfIsLast(h, e.header.fiberId);
  }

  /** In a valid history the latest event of a fiber is the one found under its id. */
  lemma LastIsFound(h: seq<EventEnvelope>, f: Id)
    requires ValidHistory(h)
    ensures var last := LastOfFiber(h, f);
            last.Some? ==> FindById(h, last.value.header.eventId) == last
  {
    hide Extends;
    var last := LastOfFiber(h, f);
    if last.Some? {
      var found := FindById(h, last.value.header.eventId);
      var i :| 0 <= i < |h| && h[i] == last.value;
      assert found.Some?;
      var j :| 0 <= j < |h| && h[j] == found.value;
      UniqueIds(h, i, j);
    }
  }

  // ---- Ingesting frames ----

  datatype ContainerFrame = ContainerFrame(payload: Bytes, checksum: u32)

  datatype FrameError = ItemsExceeded | BytesExceeded | EnvelopeMismatch

  /** A frame whose payload is the whole encoding of one envelope, under its checksum. */
  predicate Sound(f: ContainerFrame) {
    f.checksum == Crc32c(f.payload) && ParseEnvelope(f.payload).Ok? && ParseEnvelope(f.payload).value.1 == []
  }

  /** A frame is sound exactly when it is some envelope, whole and alone, under its checksum. */
  lemma SoundIff(f: ContainerFrame)
    ensures Sound(f) <==>
              f.checksum == Crc32c(f.payload) && exists e: EventEnvelope :: |e.payload| <= U32_MAX && f.payload == WireForm(e)
  {
    hide WireForm;
    if Sound(f) {
      EnvelopeOfParse(f.payload);
      var e := ParseEnvelope(f.payload).value.0;
      assert WireForm(e) + [] == WireForm(e);
    }
    if exists e: EventEnvelope :: |e.payload| <= U32_MAX && f.payload == WireForm(e) {
      var e: EventEnvelope :| |e.payload| <= U32_MAX && f.payload == WireForm(e);
      ParseOfEnvelope(e, []);
      assert WireForm(e) + [] == WireForm(e);
    }
  }

  /** The queue entry of a sound frame; `spare` is the extra capacity its payload was given. */
  function Entry(f: ContainerFrame, spare: nat): Queued
    requires Sound(f)
  {
    var env := ParseEnvelope(f.payload).value.0;
    Queued(env, |env.payload| + spare)
  }

  /** An entry charges at least the frame it came from, so checking the frame length first
      never refuses anything the charge would not. */
  lemma EntryCharge(f: ContainerFrame, spare: nat)
    requires Sound(f)
    ensures f.payload == WireForm(Entry(f, spare).env)
    ensures |f.payload| <= 85 + Entry(f, spare).capacity
  {
    EnvelopeOfParse(f.payload);
    assert WireForm(Entry(f, spare).env) + [] == WireForm(Entry(f, spare).env);
  }

  predicate AllSound(frames: seq<ContainerFrame>) {
    forall i | 0 <= i < |frames| :: Sound(frames[i])
  }

  function QueueOf(frames: seq<ContainerFrame>, spare: seq<nat>): (q: seq<Queued>)
    requires AllSound(frames) && |spare| == |frames|
    ensures |q| == |frames|
  {
    if frames == [] then [] else
    var n := |frames| - 1;
    QueueOf(frames[..n], spare[..n]) + [Entry(frames[n], spare[n])]
  }

  lemma {:induction false} QueueOfPrefix(frames: seq<ContainerFrame>, spare: seq<nat>, n: nat)
    requires AllSound(frames) && |spare| == |frames| && n <= |frames|
    ensures QueueOf(frames[..n], spare[..n]) == QueueOf(frames, spare)[..n]
    decreases |frames|
  {
    if n < |frames| {
      var m := |frames| - 1;
      assert frames[..m][..n] == frames[..n] && spare[..m][..n] == spare[..n];
      QueueOfPrefix(frames[..m], spare[..m], n);
    } else {
      assert frames[..n] == frames && spare[..n] == spare;
    }
  }

  /** Decodes every frame under the limits of the queue. It succeeds exactly when every frame
      is sound and the resulting queue is within the limits, and the queue it yields is
      therefore one that `WithStream` never refuses. */
  method DecodeFrames(frames: seq<ContainerFrame>, spare: seq<nat>) returns (r: Result<seq<Queued>, FrameError>)
    requires |spare| == |frames|
    ensures r.Ok? <==> && |frames| <= MAX_STREAM_ITEMS && AllSound(frames)
                       && Charge(QueueOf(frames, spare)) <= MAX_STREAM_BYTES
    ensures r.Ok? ==> r.value == QueueOf(frames, spare)
    ensures r == Err(ItemsExceeded) ==> |frames| > MAX_STREAM_ITEMS
    ensures r == Err(EnvelopeMismatch) ==> !AllSound(frames)
    ensures r == Err(BytesExceeded) && AllSound(frames) ==> Charge(QueueOf(frames, spare)) > MAX_STREAM_BYTES
  {
    hide Sound, Entry, Charge;
    var envelopes: seq<Queued>, total: nat := [], 0;
    ChargeSplit([]);
    for i := 0 to |frames|
      invariant i <= MAX_STREAM_ITEMS && AllSound(frames[..i])
      invariant envelopes == QueueOf(frames[..i], spare[..i])
      invariant total == Charge(envelopes) <= MAX_STREAM_BYTES
    {
      if i + 1 > MAX_STREAM_ITEMS {
        return Err(ItemsExceeded);
      }
      if total + |frames[i].payload| > MAX_STREAM_BYTES {
        OverflowAt(frames, spare, i);
        return Err(BytesExceeded);
      }
      var entry := DecodeEntry(frames[i], spare[i]);
      if entry.None? {
        return Err(EnvelopeMismatch);
      }
      if total + 85 + entry.value.capacity > MAX_STREAM_BYTES {
        OverflowAt(frames, spare, i);
        return Err(BytesExceeded);
      }
      assert frames[..i + 1][..i] == frames[..i] && spare[..i + 1][..i] == spare[..i];
      assert AllSound(frames[..i + 1]);
      ChargeSnoc(envelopes, entry.value);
      total := total + 85 + entry.value.capacity;
      envelopes := envelopes + [entry.value];
    }
    assert frames[..|frames|] == frames && spare[..|frames|] == spare;
    return Ok(envelopes);
  }

  /** A queue that overflows at entry `i` overflows as a whole. */
  lemma OverflowAt(frames: seq<ContainerFrame>, spare: seq<nat>, i: nat)
    requires |spare| == |frames| && i < |frames| && AllSound(frames[..i])
    requires var total := Charge(QueueOf(frames[..i], spare[..i]));
             || total + |frames[i].payload| > MAX_STREAM_BYTES
             || (Sound(frames[i]) && total + 85 + Entry(frames[i], spare[i]).capacity > MAX_STREAM_BYTES)
    ensures AllSound(frames) ==> Charge(QueueOf(frames, spare)) > MAX_STREAM_BYTES
  {
    hide Sound, Entry, Charge;
    if AllSound(frames) {
      assert frames[..i + 1][..i] == frames[..i] && spare[..i + 1][..i] == spare[..i];
      EntryCharge(frames[i], spare[i]);
      ChargeSnoc(QueueOf(frames[..i], spare[..i]), Entry(frames[i], spare[i]));
      QueueOfPrefix(frames, spare, i + 1);
      ChargeMonotone(QueueOf(frames, spare), i + 1);
    }
  }

  method DecodeEntry(f: ContainerFrame, spare: nat) returns (r: Option<Queued>)
    ensures r.Some? <==> Sound(f)
    ensures r.Some? ==> r.value == Entry(f, spare)
  {
    if f.checksum != Crc32c(f.payload) {
      return None;
    }
    var decoded := ParseEnvelope(f.payload);
    if decoded.Err? || decoded.value.1 != [] {
      return None;
    }
    return Some(Queued(decoded.value.0, |decoded.value.0.payload| + spare));
  }

  /** A session opened from frames is never refused, and holds the envelopes of all of them. */
  method WithFrames(frames: seq<ContainerFrame>, spare: seq<nat>) returns (r: Result<ArtefactReader, FrameError>)
    requires |spare| == |frames|
    ensures r.Ok? <==> && |frames| <= MAX_STREAM_ITEMS && AllSound(frames)
                       && Charge(QueueOf(frames, spare)) <= MAX_STREAM_BYTES
    ensures r.Ok? ==>
              && fresh(r.value) && r.value.Valid()
              && r.value.Abstract() == Session([], Envelopes(QueueOf(frames, spare)), None, false)
  {
    var decoded := DecodeFrames(frames, spare);
    if decoded.Err? {
      return Err(decoded.error);
    }
    var reader := new ArtefactReader.WithStream(decoded.value);
    return Ok(reader);
  }
}
