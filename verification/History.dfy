/** What a well-formed dragline is: fibers of hash-linked events, interleaved. Every other
    component is measured against `ValidHistory`. */
module History {
  import opened Wire
  import opened Envelope

  /** The latest event of fiber `f` in `h`. */
  function LastOfFiber(h: seq<EventEnvelope>, f: Id): (e: Option<EventEnvelope>)
    ensures e.Some? ==> e.value in h && e.value.header.fiberId == f
    ensures e.None? <==> forall i | 0 <= i < |h| :: h[i].header.fiberId != f
  {
    if h == [] then None
    else
      var n := |h| - 1;
      if h[n].header.fiberId == f then Some(h[n]) else LastOfFiber(h[..n], f)
  }

  predicate FreshEvent(h: seq<EventEnvelope>, id: Id) {
    forall i | 0 <= i < |h| :: h[i].header.eventId != id
  }

  /** A genesis opens a fiber nobody has used; any other event names the immediately preceding
      event of its own fiber and carries that event's commitment. */
  predicate Linked(h: seq<EventEnvelope>, e: EventEnvelope) {
    var last := LastOfFiber(h, e.header.fiberId);
    if e.header.precursor == ZERO_ID then
      e.header.precursorHash == ZERO_DIGEST && last.None?
    else
      && last.Some?
      && last.value.header.eventId == e.header.precursor
      && Commitment(last.value) == e.header.precursorHash
  }

  predicate Extends(h: seq<EventEnvelope>, e: EventEnvelope) {
    FreshEvent(h, e.header.eventId) && Linked(h, e)
  }

  predicate ValidHistory(h: seq<EventEnvelope>) {
    forall i | 0 <= i < |h| :: Extends(h[..i], h[i])
  }

  lemma ValidSnoc(h: seq<EventEnvelope>, e: EventEnvelope)
    ensures ValidHistory(h + [e]) <==> ValidHistory(h) && Extends(h, e)
  {
    var g := h + [e];
    assert g[..|h|] == h && g[|h|] == e;
    assert forall i | 0 <= i < |h| :: g[..i] == h[..i] && g[i] == h[i];
    if ValidHistory(g) {
      assert forall i | 0 <= i < |h| :: Extends(g[..i], g[i]);
      assert Extends(g[..|h|], g[|h|]);
    }
  }

  lemma ValidPrefix(h: seq<EventEnvelope>, n: nat)
    requires n <= |h| && ValidHistory(h)
    ensures ValidHistory(h[..n])
  {
    forall i | 0 <= i < n ensures Extends(h[..n][..i], h[..n][i]) {
      assert h[..n][..i] == h[..i] && h[..n][i] == h[i];
    }
  }

  lemma LaterIdDiffers(h: seq<EventEnvelope>, i: nat, j: nat)
    requires ValidHistory(h) && i < j < |h|
    ensures h[i].header.eventId != h[j].header.eventId
  {
    assert Extends(h[..j], h[j]);
    assert h[..j][i] == h[i];
  }

  lemma UniqueIds(h: seq<EventEnvelope>, i: nat, j: nat)
    requires ValidHistory(h) && i < |h| && j < |h|
    requires h[i].header.eventId == h[j].header.eventId
    ensures i == j
  {
    if i < j {
      LaterIdDiffers(h, i, j);
    } else if j < i {
      LaterIdDiffers(h, j, i);
    }
  }

  // ---- Constructed events extend any history ----

  lemma GenesisExtends(h: seq<EventEnvelope>, eventId: Id, fiberId: Id, payload: Bytes)
    requires ValidHistory(h) && Genesis(eventId, fiberId, payload).Ok?
    ensures ValidHistory(h + [Genesis(eventId, fiberId, payload).value])
        <==> FreshEvent(h, eventId) && LastOfFiber(h, fiberId).None?
  {
    ValidSnoc(h, Genesis(eventId, fiberId, payload).value);
  }

  /** Chaining to the latest event of a fiber under a fresh id always extends the history;
      chaining to any other event never does. */
  lemma ChainExtends(h: seq<EventEnvelope>, p: EventEnvelope, eventId: Id, payload: Bytes, detached: bool)
    requires ValidHistory(h) && p in h && Chain(p, eventId, payload, detached).Ok?
    ensures ValidHistory(h + [Chain(p, eventId, payload, detached).value])
        <==> FreshEvent(h, eventId) && LastOfFiber(h, p.header.fiberId) == Some(p)
  {
    var e := Chain(p, eventId, payload, detached).value;
    ValidSnoc(h, e);
    var last := LastOfFiber(h, p.header.fiberId);
    if last.Some? && last.value.header.eventId == p.header.eventId {
      SameIdSameEvent(h, p, last.value);
    }
  }

  // ---- One fiber on its own ----

  /** The events of fiber `f`, oldest first. */
  function FiberChain(h: seq<EventEnvelope>, f: Id): (c: seq<EventEnvelope>)
    ensures c == [] <==> LastOfFiber(h, f).None?
    ensures c != [] ==> LastOfFiber(h, f) == Some(c[|c| - 1])
  {
    if h == [] then []
    else
      var n := |h| - 1;
      if h[n].header.fiberId == f then FiberChain(h[..n], f) + [h[n]] else FiberChain(h[..n], f)
  }

  predicate LinkAt(c: seq<EventEnvelope>, i: nat)
    requires i < |c|
  {
    if i == 0 then c[i].header.precursor == ZERO_ID && c[i].header.precursorHash == ZERO_DIGEST
    else
      && c[i].header.precursor != ZERO_ID
      && c[i].header.precursor == c[i - 1].header.eventId
      && c[i].header.precursorHash == Commitment(c[i - 1])
      && c[i].header.fiberId == c[i - 1].header.fiberId
  }

  /** A chain linked from its genesis to its head. */
  predicate LinkedChain(c: seq<EventEnvelope>) {
    forall i | 0 <= i < |c| :: LinkAt(c, i)
  }

  lemma LinkedChainSnoc(c: seq<EventEnvelope>, e: EventEnvelope)
    ensures LinkedChain(c + [e]) <==> LinkedChain(c) && LinkAt(c + [e], |c|)
  {
    var d := c + [e];
    forall i | 0 <= i < |c| ensures LinkAt(d, i) <==> LinkAt(c, i) {
      assert d[i] == c[i];
    }
  }

  lemma {:induction false} FiberWithin(h: seq<EventEnvelope>, f: Id, e: EventEnvelope)
    requires e in FiberChain(h, f)
    ensures e in h && e.header.fiberId == f
  {
    var n := |h| - 1;
    if h[n].header.fiberId != f || e != h[n] {
      FiberWithin(h[..n], f, e);
    }
  }

  /** An event that extends the history links onto its fiber. */
  lemma ExtensionLinks(h: seq<EventEnvelope>, e: EventEnvelope)
    requires Linked(h, e)
    ensures var c := FiberChain(h, e.header.fiberId); LinkAt(c + [e], |c|)
  {
  }

  lemma {:induction false} FiberIsLinkedChain(h: seq<EventEnvelope>, f: Id)
    requires ValidHistory(h)
    ensures LinkedChain(FiberChain(h, f))
  {
    hide Linked, LinkAt, LastOfFiber;
    if h != [] {
      var g, e := h[..|h| - 1], h[|h| - 1];
      assert h == g + [e];
      ValidSnoc(g, e);
      FiberIsLinkedChain(g, f);
      if e.header.fiberId == f {
        ExtensionLinks(g, e);
        LinkedChainSnoc(FiberChain(g, f), e);
      }
    }
  }

  /** Two byte strings of one digest, both of them header and payload of an event. */
  predicate Collision(d: EventEnvelope, e: EventEnvelope) {
    Preimage(d) != Preimage(e) && Blake3(Preimage(d)) == Blake3(Preimage(e))
  }

  /** Two linked chains with the same head commitment are the same chain, event for event,
      unless their events exhibit a digest collision. */
  lemma {:induction false} HeadDeterminesChain(c: seq<EventEnvelope>, d: seq<EventEnvelope>)
    requires LinkedChain(c) && LinkedChain(d) && c != [] && d != []
    requires Commitment(c[|c| - 1]) == Commitment(d[|d| - 1])
    ensures c == d || exists i, j :: 0 <= i < |c| && 0 <= j < |d| && Collision(c[i], d[j])
    decreases |c|
  {
    hide Preimage;
    var m, n := |c| - 1, |d| - 1;
    if Preimage(c[m]) != Preimage(d[n]) {
      assert Collision(c[m], d[n]);
    } else {
      PreimageInjective(c[m], d[n]);
      assert LinkAt(c, m) && LinkAt(d, n);
      if m == 0 || n == 0 {
        assert c == [c[0]] && d == [d[0]];
      } else {
        assert c == c[..m] + [c[m]] && d == d[..n] + [d[n]];
        LinkedChainSnoc(c[..m], c[m]);
        LinkedChainSnoc(d[..n], d[n]);
        HeadDeterminesChain(c[..m], d[..n]);
        if c[..m] != d[..n] {
          var i, j :| 0 <= i < m && 0 <= j < n && Collision(c[..m][i], d[..n][j]);
          assert Collision(c[i], d[j]);
        }
      }
    }
  }

  /** The head commitment of a fiber pins down its whole past, across stores. */
  lemma HeadCommitmentPinsFiber(g: seq<EventEnvelope>, h: seq<EventEnvelope>, f: Id, f': Id)
    requires ValidHistory(g) && ValidHistory(h)
    requires LastOfFiber(g, f).Some? && LastOfFiber(h, f').Some?
    requires Commitment(LastOfFiber(g, f).value) == Commitment(LastOfFiber(h, f').value)
    ensures FiberChain(g, f) == FiberChain(h, f')
         || exists d, e :: d in g && e in h && Collision(d, e)
  {
    FiberIsLinkedChain(g, f);
    FiberIsLinkedChain(h, f');
    var c, d := FiberChain(g, f), FiberChain(h, f');
    HeadDeterminesChain(c, d);
    if c != d {
      var i, j :| 0 <= i < |c| && 0 <= j < |d| && Collision(c[i], d[j]);
      FiberWithin(g, f, c[i]);
      FiberWithin(h, f', d[j]);
    }
  }

  // ---- The pairwise admission check ----

  datatype LinkError = MalformedGenesis | PrecursorWrongFiber | PrecursorOutOfRange | CommitmentMismatch

  /** True for a genesis. */
  function Classify(e: EventEnvelope): Result<bool, LinkError> {
    if e.header.precursor != ZERO_ID then Ok(false)
    else if e.header.precursorHash == ZERO_DIGEST then Ok(true) else Err(MalformedGenesis)
  }

  function AdmitPrecursorLink(expectedFiber: Id, e: EventEnvelope, isGenesis: bool,
                              resolve: Id -> Option<EventEnvelope>): Result<(), LinkError> {
    if e.header.fiberId != expectedFiber then Err(PrecursorWrongFiber)
    else if isGenesis then Ok(())
    else match resolve(e.header.precursor)
         case None => Err(PrecursorOutOfRange)
         case Some(p) =>
           if p.header.eventId != e.header.precursor then Err(PrecursorOutOfRange)
           else if p.header.fiberId != expectedFiber then Err(PrecursorWrongFiber)
           else if e.header.precursorHash != Commitment(p) then Err(CommitmentMismatch)
           else Ok(())
  }

  function FindById(h: seq<EventEnvelope>, id: Id): (e: Option<EventEnvelope>)
    ensures e.Some? ==> e.value in h && e.value.header.eventId == id
    ensures e.None? <==> FreshEvent(h, id)
  {
    if h == [] then None
    else if h[0].header.eventId == id then Some(h[0])
    else FindById(h[1..], id)
  }

  predicate PairwiseAdmitted(h: seq<EventEnvelope>, e: EventEnvelope) {
    && Classify(e).Ok?
    && AdmitPrecursorLink(e.header.fiberId, e, Classify(e).value, (id: Id) => FindById(h, id)).Ok?
  }

  /** On a valid history the pairwise check passes for everything that extends the history,
      and passes in exactly two further ways: a repeated id or fiber is not noticed, and the
      precursor may be any earlier event of the fiber instead of the latest. */
  lemma PairwiseAdmissionExact(h: seq<EventEnvelope>, e: EventEnvelope)
    requires ValidHistory(h)
    ensures PairwiseAdmitted(h, e) <==>
              if e.header.precursor == ZERO_ID then e.header.precursorHash == ZERO_DIGEST
              else exists p :: p in h && p.header.eventId == e.header.precursor
                            && p.header.fiberId == e.header.fiberId && Commitment(p) == e.header.precursorHash
    ensures Extends(h, e) ==> PairwiseAdmitted(h, e)
  {
    hide ValidHistory, FindById, LastOfFiber, FreshEvent;
    var p := FindById(h, e.header.precursor);
    if p.Some? {
      forall q | q in h && q.header.eventId == e.header.precursor ensures q == p.value {
        SameIdSameEvent(h, p.value, q);
      }
    } else {
      assert FreshEvent(h, e.header.precursor);
      FreshMeansAbsent(h, e.header.precursor);
    }
    if Extends(h, e) && e.header.precursor != ZERO_ID {
      assert LastOfFiber(h, e.header.fiberId).value in h;
    }
  }

  lemma FreshMeansAbsent(h: seq<EventEnvelope>, id: Id)
    requires FreshEvent(h, id)
    ensures forall q | q in h :: q.header.eventId != id
  {
  }

  lemma SameIdSameEvent(h: seq<EventEnvelope>, p: EventEnvelope, q: EventEnvelope)
    requires ValidHistory(h) && p in h && q in h && p.header.eventId == q.header.eventId
    ensures p == q
  {
    hide ValidHistory;
    var i :| 0 <= i < |h| && h[i] == p;
    var j :| 0 <= j < |h| && h[j] == q;
    UniqueIds(h, i, j);
  }

  /** What the pairwise check leaves to its caller: on a valid history an event it admits
      extends the history exactly when its id is new and its fiber is unused, for a genesis, or
      has the named precursor as its latest event. */
  lemma PairwiseAgreesIff(h: seq<EventEnvelope>, e: EventEnvelope)
    requires ValidHistory(h) && PairwiseAdmitted(h, e)
    ensures Extends(h, e) <==>
              && FreshEvent(h, e.header.eventId)
              && var last := LastOfFiber(h, e.header.fiberId);
                 if e.header.precursor == ZERO_ID then last.None?
                 else last.Some? && last.value.header.eventId == e.header.precursor
  {
    hide ValidHistory, FreshEvent, LastOfFiber, PairwiseAdmitted, Commitment;
    PairwiseAdmissionExact(h, e);
    var last := LastOfFiber(h, e.header.fiberId);
    if e.header.precursor != ZERO_ID && last.Some? && last.value.header.eventId == e.header.precursor {
      var p :| p in h && p.header.eventId == e.header.precursor
               && p.header.fiberId == e.header.fiberId && Commitment(p) == e.header.precursorHash;
      SameIdSameEvent(h, p, last.value);
    }
  }

  /** What the pairwise check answers about a link it refuses, in terms of the history. */
  lemma LinkRefusal(h: seq<EventEnvelope>, e: EventEnvelope, fiber: Id)
    requires ValidHistory(h) && e.header.precursor != ZERO_ID
    ensures var r := AdmitPrecursorLink(fiber, e, false, (id: Id) => FindById(h, id));
            if e.header.fiberId != fiber then r == Err(PrecursorWrongFiber)
            else if forall p | p in h :: p.header.eventId != e.header.precursor then r == Err(PrecursorOutOfRange)
            else if forall p | p in h && p.header.eventId == e.header.precursor :: p.header.fiberId != fiber then
              r == Err(PrecursorWrongFiber)
            else if forall p | p in h && p.header.eventId == e.header.precursor :: Commitment(p) != e.header.precursorHash then
              r == Err(CommitmentMismatch)
            else r == Ok(())
    ensures Classify(e) == Ok(false)
  {
    hide ValidHistory, FindById, FreshEvent, Commitment;
    var p := FindById(h, e.header.precursor);
    if p.None? {
      FreshMeansAbsent(h, e.header.precursor);
    } else {
      forall q | q in h && q.header.eventId == e.header.precursor ensures q == p.value {
        SameIdSameEvent(h, p.value, q);
      }
    }
  }

  /** A stale precursor passes the pairwise check although the event does not extend the
      history: an event chained to a genesis that already has a successor. */
  lemma PairwiseAdmitsStalePrecursor(a: Id, b: Id, c: Id, f: Id)
    requires a != ZERO_ID && b != ZERO_ID && c != ZERO_ID && a != b && a != c && b != c
    ensures var g := Genesis(a, f, []).value;
            var s := Chain(g, b, [], false).value;
            var stale := Chain(g, c, [], false).value;
            ValidHistory([g, s]) && PairwiseAdmitted([g, s], stale) && !Extends([g, s], stale)
  {
    var g := Genesis(a, f, []).value;
    var s := Chain(g, b, [], false).value;
    var stale := Chain(g, c, [], false).value;
    ValidSnoc([], g);
    assert [] + [g] == [g] && [g][..0] == [];
    ValidSnoc([g], s);
    assert [g] + [s] == [g, s] && [g, s][..1] == [g];
    PairwiseAdmissionExact([g, s], stale);
    assert [g, s][0] == g;
  }
}
