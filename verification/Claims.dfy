/** Compare-and-set claims on an ownership record and the fence on writes, over whole runs of
    competing claimants and writers (crates/pardosa/src/store.rs:1723-1779, 2022-2060). */
module Claims {
  import opened Wire
  import opened Ownership

  datatype Recorded = Owned(claim: OwnershipClaim) | Unowned | Unreadable | Absent

  datatype Refusal = RecordUnreadable | OwnershipUnestablished | StaleEpoch | ConcurrencyConflict

  function FenceWrite(carried: nat, recorded: Recorded): Result<(), Refusal> {
    match recorded
    case Unreadable => Err(RecordUnreadable)
    case Absent => Err(OwnershipUnestablished)
    case Unowned => Err(OwnershipUnestablished)
    case Owned(claim) => if carried == claim.epoch then Ok(()) else Err(StaleEpoch)
  }

  function EvaluateClaimCas(current: Recorded, expected: Option<nat>, candidate: OwnershipClaim): Result<nat, Refusal> {
    match current
    case Unreadable => Err(RecordUnreadable)
    case Absent => Err(OwnershipUnestablished)
    case Unowned => if expected.None? then Ok(candidate.epoch) else Err(ConcurrencyConflict)
    case Owned(existing) =>
      if Some(existing.epoch as nat) == expected && candidate.epoch > existing.epoch
      then Ok(candidate.epoch) else Err(ConcurrencyConflict)
  }

  /** Why a write or a claim is refused. */
  lemma RefusalMeans(r: Recorded, carried: nat, expected: Option<nat>, candidate: OwnershipClaim)
    ensures FenceWrite(carried, r) == Err(RecordUnreadable) <==> r.Unreadable?
    ensures FenceWrite(carried, r) == Err(OwnershipUnestablished) <==> r.Absent? || r.Unowned?
    ensures FenceWrite(carried, r) == Err(StaleEpoch) <==> r.Owned? && r.claim.epoch != carried
    ensures EvaluateClaimCas(r, expected, candidate) == Err(RecordUnreadable) <==> r.Unreadable?
    ensures EvaluateClaimCas(r, expected, candidate) == Err(OwnershipUnestablished) <==> r.Absent?
    ensures EvaluateClaimCas(r, expected, candidate).Ok? ==> EvaluateClaimCas(r, expected, candidate).value == candidate.epoch
    ensures r.Unowned? || r.Owned? ==>
              EvaluateClaimCas(r, expected, candidate).Ok? || EvaluateClaimCas(r, expected, candidate) == Err(ConcurrencyConflict)
  {
  }

  // ---- Runs ----

  /** One call; when `readable` is false its read of the record fails. */
  datatype Step =
    | TryClaim(expected: Option<nat>, candidate: OwnershipClaim, readable: bool)
    | TryWrite(carried: nat, readable: bool)

  function Seen(r: Recorded, s: Step): Recorded {
    if s.readable then r else Unreadable
  }

  predicate Succeeds(r: Recorded, s: Step) {
    match s
    case TryClaim(expected, candidate, _) => EvaluateClaimCas(Seen(r, s), expected, candidate).Ok?
    case TryWrite(carried, _) => FenceWrite(carried, Seen(r, s)).Ok?
  }

  /** A claim that succeeds replaces the record; nothing else changes it. */
  function Apply(r: Recorded, s: Step): Recorded {
    if s.TryClaim? && Succeeds(r, s) then Owned(s.candidate) else r
  }

  /** The record when step `i` runs. */
  function At(r: Recorded, steps: seq<Step>, i: nat): Recorded
    requires i <= |steps|
  {
    if i == 0 then r else Apply(At(r, steps, i - 1), steps[i - 1])
  }

  predicate Wins(r: Recorded, steps: seq<Step>, i: nat)
    requires i < |steps|
  {
    steps[i].TryClaim? && Succeeds(At(r, steps, i), steps[i])
  }

  predicate Passes(r: Recorded, steps: seq<Step>, i: nat)
    requires i < |steps|
  {
    steps[i].TryWrite? && Succeeds(At(r, steps, i), steps[i])
  }

  function Epoch(r: Recorded): Option<nat> {
    if r.Owned? then Some(r.claim.epoch) else None
  }

  /** No epoch at all ranks below every epoch. */
  predicate AtMost(a: Option<nat>, b: Option<nat>) {
    a.None? || (b.Some? && a.value <= b.value)
  }

  lemma {:induction false} EpochNeverFalls(r: Recorded, steps: seq<Step>, i: nat, j: nat)
    requires i <= j <= |steps|
    ensures AtMost(Epoch(At(r, steps, i)), Epoch(At(r, steps, j)))
    decreases j
  {
    if i < j {
      EpochNeverFalls(r, steps, i, j - 1);
    }
  }

  lemma WinInstalls(r: Recorded, steps: seq<Step>, i: nat)
    requires i < |steps| && Wins(r, steps, i)
    ensures At(r, steps, i + 1) == Owned(steps[i].candidate)
    ensures Epoch(At(r, steps, i)) == steps[i].expected
    ensures steps[i].expected.Some? ==> steps[i].expected.value < steps[i].candidate.epoch
  {
  }

  /** Accepted epochs strictly increase along the run, and no two accepted claims expected the
      same thing: of all claimants holding one expectation, at most one wins. */
  lemma LaterWinIsNewer(r: Recorded, steps: seq<Step>, i: nat, j: nat)
    requires i < j < |steps| && Wins(r, steps, i) && Wins(r, steps, j)
    ensures steps[i].candidate.epoch < steps[j].candidate.epoch
    ensures steps[i].expected != steps[j].expected
  {
    WinInstalls(r, steps, i);
    WinInstalls(r, steps, j);
    EpochNeverFalls(r, steps, i + 1, j);
  }

  /** The newest claim accepted before step `i`. */
  function LastWin(r: Recorded, steps: seq<Step>, i: nat): (k: Option<nat>)
    requires i <= |steps|
    ensures k.Some? ==> k.value < i && Wins(r, steps, k.value)
    ensures forall j | 0 <= j < i && Wins(r, steps, j) :: k.Some? && j <= k.value
  {
    if i == 0 then None
    else if Wins(r, steps, i - 1) then Some(i - 1)
    else LastWin(r, steps, i - 1)
  }

  lemma {:induction false} RecordIsLastWin(r: Recorded, steps: seq<Step>, i: nat)
    requires i <= |steps|
    ensures At(r, steps, i)
         == var k := LastWin(r, steps, i); if k.None? then r else Owned(steps[k.value].candidate)
  {
    if i > 0 {
      RecordIsLastWin(r, steps, i - 1);
    }
  }

  /** In a run that starts unowned, a claim wins exactly when it reads the record, expects the
      epoch of the newest accepted claim, or none if there is none yet, and brings a larger one. */
  lemma WinsIff(steps: seq<Step>, i: nat)
    requires i < |steps| && steps[i].TryClaim?
    ensures Wins(Unowned, steps, i) <==>
              && steps[i].readable
              && match LastWin(Unowned, steps, i)
                 case None => steps[i].expected.None?
                 case Some(k) =>
                   && steps[i].expected == Some(steps[k].candidate.epoch as nat)
                   && steps[k].candidate.epoch < steps[i].candidate.epoch
  {
    RecordIsLastWin(Unowned, steps, i);
  }

  /** In a run that starts unowned, the fence passes exactly the writes that read the record
      and carry the epoch of the newest accepted claim. */
  lemma FencePassesNewestOnly(steps: seq<Step>, i: nat)
    requires i < |steps|
    ensures Passes(Unowned, steps, i) <==>
              && steps[i].TryWrite? && steps[i].readable && LastWin(Unowned, steps, i).Some?
              && steps[i].carried == steps[LastWin(Unowned, steps, i).value].candidate.epoch
  {
    RecordIsLastWin(Unowned, steps, i);
  }

  /** Once a newer claim has won, a writer with an older epoch never passes again. */
  lemma SupersededNeverPasses(r: Recorded, steps: seq<Step>, i: nat, j: nat)
    requires i < j < |steps| && Wins(r, steps, i) && steps[j].TryWrite?
    requires steps[j].carried < steps[i].candidate.epoch
    ensures !Passes(r, steps, j)
  {
    WinInstalls(r, steps, i);
    EpochNeverFalls(r, steps, i + 1, j);
  }

  /** A missing record can be neither claimed nor written under, however long one tries. */
  lemma {:induction false} AbsentStaysAbsent(steps: seq<Step>, i: nat)
    requires i < |steps|
    ensures At(Absent, steps, i) == Absent && !Wins(Absent, steps, i) && !Passes(Absent, steps, i)
  {
    if i > 0 {
      AbsentStaysAbsent(steps, i - 1);
    }
  }
}
