/**
 * Mutual exclusion between a lock check and the write it was made for.
 *
 * Checking the locks and renaming the directory are separate steps with others in between. Exclusion therefore
 * rests on what falls between the two, and this module finds out on what exactly: no step may take part of what is
 * checked, or move a checked claim onto something held, while the check waits for its write.
 */
module PublishGuards {
  import opened Basics
  import opened ProposalLocks
  import opened PublishProtocol
  import opened PublishSteps

  // ----- the check and the brute-force scan

  /** The proposals of a state as the lock index reads them from disk, in any order. */
  ghost predicate Lists(s: State, claimants: seq<Claimant>) {
    && (forall c <- claimants :: c.id in s.proposals && c == ClaimantOf(s, c.id))
    && (forall id <- s.proposals :: ClaimantOf(s, id) in claimants)
  }

  function ClaimantOf(s: State, id: string): Claimant
    requires id in s.proposals
  {
    Claimant(id, s.proposals[id].status, s.proposals[id].targets)
  }

  /** What the check scans for is what the protocol calls free. */
  lemma {:induction false} AvailableIffLocksFree(s: State, claimants: seq<Claimant>, id: string, targets: seq<Target>)
    requires Lists(s, claimants)
    ensures Available(claimants, id, targets) <==> LocksFree(s, id, targets)
  {
    if Available(claimants, id, targets) {
      forall other <- s.proposals | other != id && Blocking(s.proposals[other].status)
        ensures Disjoint(s.proposals[other].targets, targets)
      {
        var c := ClaimantOf(s, other);
        assert forall t <- targets :: !ClaimsOver(c, t);
      }
    }
    if LocksFree(s, id, targets) {
      forall c <- claimants, t <- targets | c.id != id && Blocking(c.status)
        ensures !ClaimsOver(c, t)
      {
        assert Disjoint(s.proposals[c.id].targets, targets);
      }
    }
  }

  // ----- checks belong to proposals that can still use them

  predicate ChecksInv(s: State) {
    && (s.recovering ==> s.entryChecks == map[] && s.claimChecks == map[])
    && (forall id <- s.entryChecks :: MayEnter(s, id) || MayAcquire(s, id))
    && (forall id <- s.claimChecks :: id !in s.proposals || InStatus(s, id, InProgress))
  }

  lemma {:induction false} StepKeepsChecks(s: State, e: Event)
    requires Inv(s) && ChecksInv(s) && Enabled(s, e)
    ensures ChecksInv(Next(s, e))
  {
    var n := Next(s, e);
    if !Local(e) && !e.Crash? && !e.Resume? {
      forall id <- n.entryChecks ensures MayEnter(n, id) || MayAcquire(n, id) { UncheckedMoves(s, e, id); }
      forall id <- n.claimChecks ensures id !in n.proposals || InStatus(n, id, InProgress) { UncheckedMoves(s, e, id); }
    } else if Local(e) {
      forall id <- n.entryChecks ensures MayEnter(n, id) || MayAcquire(n, id) {
        if id != e.id { LocalOthers(s, e, id); }
      }
      forall id <- n.claimChecks ensures id !in n.proposals || InStatus(n, id, InProgress) {
        if id != e.id { LocalOthers(s, e, id); }
      }
    }
  }

  /** The steps of an absorb concern committing proposals, which have no check open. */
  lemma {:induction false} UncheckedMoves(s: State, e: Event, id: string)
    requires Inv(s) && ChecksInv(s) && Enabled(s, e) && !Local(e) && !e.Crash?
    requires id in s.entryChecks || id in s.claimChecks
    ensures id in Next(s, e).proposals <==> id in s.proposals
    ensures id in s.proposals ==> Next(s, e).proposals[id] == s.proposals[id]
  {
    if e.Mark? { assert ProposalInv(s, e.id); }
  }

  // ----- who claims what after a step

  /** A proposal that blocks after a step blocked before with the same claims, or gained its claims in this step. */
  lemma {:induction false} GainedOrHeld(s: State, e: Event, id: string)
    requires Inv(s) && Enabled(s, e) && id in Next(s, e).proposals && Blocking(Next(s, e).proposals[id].status)
    ensures var targets := Next(s, e).proposals[id].targets;
      || (id in s.proposals && Blocking(s.proposals[id].status) && s.proposals[id].targets == targets)
      || (Concerns(e, id) && targets == Gains(s, e))
  {
    if Local(e) {
      if id != e.id { LocalOthers(s, e, id); }
    } else if e.Mark? {
      assert ProposalInv(s, e.id);
    }
  }

  /** What a step gains is free of others' claims: it was checked, and the check still holds. */
  lemma {:induction false} GainsAreFree(s: State, e: Event)
    requires ChecksInv(s) && Guarded(s) && Inv(s) && Enabled(s, e) && !e.Crash? && !e.Resume?
    ensures LocksFree(s, e.id, Gains(s, e))
  {
    forall other <- s.proposals | other != e.id && Blocking(s.proposals[other].status)
      ensures Disjoint(s.proposals[other].targets, Gains(s, e))
    {
      if e.Create? || e.Edit? {
        CoveredIsFree(s, e, other);
      }
    }
  }

  lemma {:induction false} CoveredIsFree(s: State, e: Event, other: string)
    requires Guarded(s) && s.history != [] && Enabled(s, e) && (e.Create? || e.Edit?)
    requires other in s.proposals && other != e.id && Blocking(s.proposals[other].status)
    ensures Disjoint(s.proposals[other].targets, Gains(s, e))
  {
    forall a <- s.proposals[other].targets, b <- Gains(s, e)
      ensures !Overlaps(a, b)
    {
      assert Covered(s, e.id, Gains(s, e));
      if e.id in s.claimChecks && b in s.claimChecks[e.id] {
        assert Disjoint(s.proposals[other].targets, s.claimChecks[e.id]);
      } else {
        assert Disjoint(s.proposals[other].targets, s.proposals[e.id].targets);
      }
    }
  }

  lemma {:induction false} DisjointSymmetric(a: seq<Target>, b: seq<Target>)
    requires Disjoint(a, b)
    ensures Disjoint(b, a)
  {
  }

  lemma {:induction false} StepKeepsExclusive(s: State, e: Event)
    requires ChecksInv(s) && Guarded(s) && Inv(s) && Enabled(s, e)
    ensures Exclusive(Next(s, e))
  {
    var n := Next(s, e);
    if !e.Crash? && !e.Resume? { GainsAreFree(s, e); }
    forall a <- n.proposals, b <- n.proposals
      | a != b && Blocking(n.proposals[a].status) && Blocking(n.proposals[b].status)
      ensures Disjoint(n.proposals[a].targets, n.proposals[b].targets)
    {
      PairApart(s, e, a, b);
    }
  }

  lemma {:induction false} PairApart(s: State, e: Event, a: string, b: string)
    requires Exclusive(s) && Inv(s) && Enabled(s, e) && a != b
    requires !e.Crash? && !e.Resume? ==> LocksFree(s, e.id, Gains(s, e))
    requires a in Next(s, e).proposals && b in Next(s, e).proposals
    requires Blocking(Next(s, e).proposals[a].status) && Blocking(Next(s, e).proposals[b].status)
    ensures Disjoint(Next(s, e).proposals[a].targets, Next(s, e).proposals[b].targets)
  {
    GainedOrHeld(s, e, a);
    GainedOrHeld(s, e, b);
    if Concerns(e, a) && Next(s, e).proposals[a].targets == Gains(s, e) {
      DisjointSymmetric(Next(s, e).proposals[b].targets, Gains(s, e));
    }
  }

  // ----- exactly which steps leave a check good

  /** After a step, claims a waiting check was made for are free exactly when they were before and the step gained none of them. */
  lemma {:induction false} StillFree(s: State, e: Event, id: string, targets: seq<Target>)
    requires Inv(s) && Enabled(s, e) && LocksFree(s, id, targets)
    requires Concerns(e, id) || Disjoint(Gains(s, e), targets)
    ensures LocksFree(Next(s, e), id, targets)
  {
    var n := Next(s, e);
    forall other <- n.proposals | other != id && Blocking(n.proposals[other].status)
      ensures Disjoint(n.proposals[other].targets, targets)
    {
      GainedOrHeld(s, e, other);
    }
  }

  /** A step that gains claims leaves its proposal blocking with them. */
  lemma {:induction false} GainersBlock(s: State, e: Event)
    requires s.history != [] && Enabled(s, e) && Gains(s, e) != []
    ensures !e.Crash? && !e.Resume? && e.id in Next(s, e).proposals
    ensures Blocking(Next(s, e).proposals[e.id].status) && Next(s, e).proposals[e.id].targets == Gains(s, e)
  {
  }

  lemma {:induction false} NoLongerFree(s: State, e: Event, id: string, targets: seq<Target>)
    requires s.history != [] && Enabled(s, e) && !Concerns(e, id) && !Disjoint(Gains(s, e), targets)
    ensures !LocksFree(Next(s, e), id, targets)
  {
    GainersBlock(s, e);
    assert !Disjoint(Next(s, e).proposals[e.id].targets, targets);
  }

  lemma {:induction false} EntryStillFree(s: State, e: Event, id: string)
    requires Inv(s) && ChecksInv(s) && Guarded(s) && Enabled(s, e) && !Interferes(s, e) && id in Next(s, e).entryChecks
    requires MayEnter(Next(s, e), id) || MayAcquire(Next(s, e), id)
    ensures LocksFree(Next(s, e), id, Entering(Next(s, e), id))
  {
    var n := Next(s, e);
    if Concerns(e, id) {
      OwnEntryStillFree(s, e, id);
    } else {
      OthersEntry(s, e, id);
      assert Disjoint(Gains(s, e), Entering(s, id));
      StillFree(s, e, id, Entering(s, id));
    }
  }

  lemma {:induction false} OthersEntry(s: State, e: Event, id: string)
    requires Inv(s) && ChecksInv(s) && Enabled(s, e) && !Concerns(e, id) && id in Next(s, e).entryChecks
    ensures id in s.entryChecks && id in Next(s, e).proposals && Next(s, e).proposals[id] == s.proposals[id]
    ensures Entering(Next(s, e), id) == Entering(s, id)
    ensures MayEnter(Next(s, e), id) == MayEnter(s, id) && MayAcquire(Next(s, e), id) == MayAcquire(s, id)
  {
    if Local(e) { LocalOthers(s, e, id); } else if !e.Crash? { UncheckedMoves(s, e, id); }
  }

  lemma {:induction false} OwnEntryStillFree(s: State, e: Event, id: string)
    requires Inv(s) && ChecksInv(s) && Guarded(s) && Enabled(s, e) && !Interferes(s, e) && id in Next(s, e).entryChecks
    requires Concerns(e, id) && (MayEnter(Next(s, e), id) || MayAcquire(Next(s, e), id))
    ensures LocksFree(Next(s, e), id, Entering(Next(s, e), id))
  {
    var n := Next(s, e);
    assert e.CheckEntry? || e.CheckClaim? || e.Edit? || !Local(e);
    if !Local(e) { UncheckedMoves(s, e, id); }
    assert LocksFree(s, id, Entering(n, id));
    StillFree(s, e, id, Entering(n, id));
  }

  lemma {:induction false} ClaimStillFree(s: State, e: Event, id: string)
    requires Inv(s) && ChecksInv(s) && Guarded(s) && Enabled(s, e) && !Interferes(s, e) && id in Next(s, e).claimChecks
    ensures LocksFree(Next(s, e), id, Next(s, e).claimChecks[id])
  {
    var n := Next(s, e);
    if !Concerns(e, id) { assert Disjoint(Gains(s, e), s.claimChecks[id]); }
    StillFree(s, e, id, n.claimChecks[id]);
  }

  /** A guarded state stays guarded through a step exactly when the step does not interfere with a waiting check. */
  lemma {:induction false} GuardedUnlessInterfered(s: State, e: Event)
    requires Inv(s) && ChecksInv(s) && Guarded(s) && Enabled(s, e)
    ensures Guarded(Next(s, e)) <==> !Interferes(s, e)
  {
    var n := Next(s, e);
    if !Interferes(s, e) {
      StepKeepsExclusive(s, e);
      forall id <- n.entryChecks | MayEnter(n, id) || MayAcquire(n, id)
        ensures LocksFree(n, id, Entering(n, id))
      {
        EntryStillFree(s, e, id);
      }
      forall id <- n.claimChecks ensures LocksFree(n, id, n.claimChecks[id]) { ClaimStillFree(s, e, id); }
    } else {
      InterferenceShows(s, e);
    }
  }

  lemma {:induction false} InterferenceShows(s: State, e: Event)
    requires Inv(s) && ChecksInv(s) && Guarded(s) && Enabled(s, e) && Interferes(s, e)
    ensures !Guarded(Next(s, e))
  {
    var n := Next(s, e);
    if id :| id in s.entryChecks && (MayEnter(s, id) || MayAcquire(s, id)) && !Concerns(e, id) && !Disjoint(Gains(s, e), Entering(s, id)) {
      NoLongerFree(s, e, id, Entering(s, id));
      KeepsEntry(s, e, id);
    } else if id :| id in s.claimChecks && !Concerns(e, id) && !Disjoint(Gains(s, e), s.claimChecks[id]) {
      NoLongerFree(s, e, id, s.claimChecks[id]);
      assert id in n.claimChecks && n.claimChecks[id] == s.claimChecks[id];
    } else {
      MovedOntoHeld(s, e);
    }
  }

  lemma {:induction false} KeepsEntry(s: State, e: Event, id: string)
    requires Inv(s) && ChecksInv(s) && Enabled(s, e) && id in s.entryChecks && !Concerns(e, id) && Gains(s, e) != []
    ensures id in Next(s, e).entryChecks
    ensures Entering(Next(s, e), id) == Entering(s, id)
    ensures MayEnter(Next(s, e), id) == MayEnter(s, id) && MayAcquire(Next(s, e), id) == MayAcquire(s, id)
  {
    OthersEntry(s, e, id);
  }

  lemma {:induction false} MovedOntoHeld(s: State, e: Event)
    requires Inv(s) && Enabled(s, e) && e.Edit? && e.id in s.entryChecks && MayEnter(s, e.id) && !LocksFree(s, e.id, e.targets)
    ensures !Guarded(Next(s, e))
  {
    var n := Next(s, e);
    var other :| other in s.proposals && other != e.id && Blocking(s.proposals[other].status)
      && !Disjoint(s.proposals[other].targets, e.targets);
    assert n.proposals[other] == s.proposals[other];
    assert MayEnter(n, e.id) && Entering(n, e.id) == e.targets;
    assert !LocksFree(n, e.id, e.targets);
  }

  // ----- guarded means that whatever is completed next keeps proposals apart

  predicate Completes(e: Event) {
    e.Enter? || e.Acquire? || e.Create? || e.Edit?
  }

  /** Exclusion holds now and after any completion of a checked entry or claim. */
  ghost predicate KeepsApart(s: State)
    requires s.history != []
  {
    Exclusive(s) && forall e | Completes(e) && Enabled(s, e) :: Exclusive(Next(s, e))
  }

  lemma {:induction false} GuardedIffKeepsApart(s: State)
    requires Inv(s) && ChecksInv(s)
    ensures Guarded(s) <==> KeepsApart(s)
  {
    if Guarded(s) {
      forall e | Completes(e) && Enabled(s, e) ensures Exclusive(Next(s, e)) { StepKeepsExclusive(s, e); }
    }
    if KeepsApart(s) {
      forall id <- s.entryChecks | MayEnter(s, id) || MayAcquire(s, id)
        ensures LocksFree(s, id, Entering(s, id))
      {
        EntryShows(s, id);
      }
      forall id <- s.claimChecks ensures LocksFree(s, id, s.claimChecks[id]) { ClaimShows(s, id); }
    }
  }

  /** Exclusion after a rename says that the locks were free at it. */
  lemma {:induction false} EntryShows(s: State, id: string)
    requires Inv(s) && ChecksInv(s) && KeepsApart(s) && id in s.entryChecks
    ensures LocksFree(s, id, Entering(s, id))
  {
    var e := if MayAcquire(s, id) then Acquire(id) else Enter(id);
    assert Enabled(s, e) && Completes(e);
    BlockingShows(s, Next(s, e), id, Entering(s, id));
  }

  lemma {:induction false} ClaimShows(s: State, id: string)
    requires Inv(s) && ChecksInv(s) && KeepsApart(s) && id in s.claimChecks
    ensures LocksFree(s, id, s.claimChecks[id])
  {
    var targets := s.claimChecks[id];
    var e := if id in s.proposals then Edit(id, targets, map[], {}, {})
             else Create(id, Proposal(InProgress, true, targets, map[], {}, {}, None, false));
    assert Covered(s, id, targets);
    assert Enabled(s, e) && Completes(e);
    BlockingShows(s, Next(s, e), id, targets);
  }

  lemma {:induction false} BlockingShows(s: State, n: State, id: string, targets: seq<Target>)
    requires Exclusive(n) && id in n.proposals && Blocking(n.proposals[id].status) && n.proposals[id].targets == targets
    requires forall other <- s.proposals | other != id :: other in n.proposals && n.proposals[other] == s.proposals[other]
    ensures LocksFree(s, id, targets)
  {
    forall other <- s.proposals | other != id && Blocking(s.proposals[other].status)
      ensures Disjoint(s.proposals[other].targets, targets)
    {
      assert Disjoint(n.proposals[other].targets, n.proposals[id].targets);
    }
  }
}
