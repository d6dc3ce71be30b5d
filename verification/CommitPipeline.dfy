/** Publishing one proposal while the server runs: backend/src/storage/commit-pipeline.ts as steps of the protocol. */
module CommitPipeline {
  import opened Basics
  import opened ProposalLocks
  import opened PublishProtocol
  import opened PublishGuards
  import opened PublishRuns

  // `afterCommit` tells a failure after the git commit, when HEAD has moved, from one before it; `restored` whether
  // the rollback of the working tree succeeded. A stuck proposal could not be taken back and is left to recovery.
  datatype Outcome =
    | Published
    | Refused
    | RolledBack(afterCommit: bool, restored: bool)
    | Stuck(afterCommit: bool, restored: bool)

  datatype Absorbed = Done | FailedBefore(restored: bool) | FailedAfter

  /** `now` differs from `was` only where the proposal has a claim. */
  ghost predicate OnlyClaimed(targets: seq<Target>, was: Content, now: Content) {
    forall section: Section | !Claims(targets, section) :: Same(was, now, section)
  }

  /** Where the proposal has no claim `now` is as one of the two trees has it. */
  ghost predicate OneOrOther(targets: seq<Target>, a: Content, b: Content, now: Content) {
    forall section: Section | !Claims(targets, section) :: Same(a, now, section) || Same(b, now, section)
  }

  predicate Idle(s: State) {
    s.lane.None? && s.receipts == map[] && !s.recovering
  }

  /** The commit holds the change and, elsewhere, the working tree it found. */
  ghost predicate LandedOver(was: State, now: State, p: Proposal)
    requires was.history != [] && now.history != []
  {
    && |now.history| == |was.history| + 1 && now.history[..|was.history|] == was.history
    && Carries(p, Head(now)) && OnlyClaimed(p.targets, was.work, Head(now))
  }

  // What publishing a proposal leaves of it and of canonical, by how it ends.
  ghost predicate Ends(was: State, now: State, id: string, agent: bool, outcome: Outcome)
    requires id in was.proposals && was.history != [] && now.history != []
  {
    var p := was.proposals[id];
    match outcome
    case Refused => now == was
    case Published =>
      && Idle(now) && now.work == Head(now) && LandedOver(was, now, p)
      && InStatus(now, id, Committed) && now.proposals[id].committedHead == Some(|was.history|)
    case RolledBack(after, restored) =>
      InStatus(now, id, if agent then Draft else InProgress) && GivenUp(was, now, id, after, restored)
    case Stuck(after, restored) => InStatus(now, id, Committing) && GivenUp(was, now, id, after, restored)
  }

  /** HEAD has moved or not, and the tree is HEAD's unless rolling it back failed; then it is torn between the two. */
  ghost predicate GivenUp(was: State, now: State, id: string, after: bool, restored: bool)
    requires id in was.proposals && was.history != [] && now.history != []
  {
    && now.lane.None? && !now.recovering
    && (restored ==> now.work == Head(now))
    && (!restored ==> !after && OneOrOther(was.proposals[id].targets, was.work, Head(was), now.work))
    && (if after then LandedOver(was, now, was.proposals[id]) else now.history == was.history)
  }

  lemma {:induction false} LandingCarries(p: Proposal, wholesale: bool, tree: Content)
    requires WellClaimed(p)
    ensures Carries(p, Landing(p, wholesale, tree)) && OnlyClaimed(p.targets, tree, Landing(p, wholesale, tree))
  {
    forall section: Section | !Claims(p.targets, section) ensures Same(tree, Landing(p, wholesale, tree), section) {
      LandingOnlyTouchesClaims(p, wholesale, tree, section);
    }
  }

  /** Where the trees and the change are the same, so is what landing means. */
  lemma {:induction false} LandedAcross(was: State, begun: State, now: State, id: string)
    requires id in was.proposals && id in begun.proposals && was.history != [] && now.history != []
    requires was.history == begun.history && was.work == begun.work
    requires var p, q := was.proposals[id], begun.proposals[id]; p.writes == q.writes && p.deletes == q.deletes && p.targets == q.targets
    requires |now.history| == |begun.history| + 1 && now.history[..|begun.history|] == begun.history
    requires Carries(begun.proposals[id], Head(now)) && OnlyClaimed(begun.proposals[id].targets, begun.work, Head(now))
    ensures LandedOver(was, now, was.proposals[id])
  {
  }

  /** Entering changes neither tree nor what the proposal changes. */
  lemma {:induction false} EndsAcross(was: State, begun: State, now: State, id: string, agent: bool, outcome: Outcome)
    requires id in was.proposals && was.history != [] && now.history != []
    requires begun == WithoutChecks(WithStatus(was, id, Committing), id)
    requires !outcome.Refused? && Ends(begun, now, id, agent, outcome)
    ensures Ends(was, now, id, agent, outcome)
  {
  }

  /** A proposal that may be entered has no commit of this attempt. */
  lemma {:induction false} NotLanded(s: State, id: string)
    requires Reachable(s) && id in s.proposals
    ensures MayEnter(s, id) ==> !s.proposals[id].landed
  {
    ReachableInv(s);
    assert ProposalInv(s, id);
  }

  lemma {:induction false} FailureGivesUp(was: State, failed: State, now: State, id: string, after: bool, restored: bool)
    requires id in was.proposals && was.history != [] && now.history != [] && failed.history == now.history
    requires failed.work == now.work && now.lane.None? && !now.recovering
    requires restored ==> failed.work == Head(failed)
    requires !restored ==> !after && OneOrOther(was.proposals[id].targets, was.work, Head(was), failed.work)
    requires if after then LandedOver(was, failed, was.proposals[id]) else failed.history == was.history
    ensures GivenUp(was, now, id, after, restored)
  {
  }

  class Publisher {
    var state: State

    constructor (s: State)
      ensures state == s
    {
      state := s;
    }

    /** The proposals as the lock index reads them. */
    method ListClaimants() returns (claimants: seq<Claimant>)
      ensures Lists(state, claimants)
    {
      claimants := [];
      var todo := state.proposals.Keys;
      while todo != {}
        invariant todo <= state.proposals.Keys
        invariant forall c <- claimants :: c.id in state.proposals && c == ClaimantOf(state, c.id)
        invariant forall id <- state.proposals.Keys - todo :: ClaimantOf(state, id) in claimants
        decreases |todo|
      {
        var id :| id in todo;
        claimants := claimants + [ClaimantOf(state, id)];
        todo := todo - {id};
      }
    }

    /** The lock check through the index is the scan of all other blocking proposals. */
    method LocksAvailable(id: string) returns (acquired: bool)
      requires id in state.proposals
      ensures acquired <==> state.proposals[id].targets != [] && LocksFree(state, id, state.proposals[id].targets)
    {
      var claimants := ListClaimants();
      var result := CheckProposalLocks(claimants, id, state.proposals[id].targets, true);
      AvailableIffLocksFree(state, claimants, id, state.proposals[id].targets);
      return result.acquired;
    }

    method RecordCheck(id: string)
      requires Reachable(state) && Enabled(state, CheckEntry(id))
      modifies this
      ensures Reachable(state) && id in state.entryChecks
      ensures state == old(state).(entryChecks := state.entryChecks) && state.entryChecks - {id} == old(state).entryChecks - {id}
    {
      ReachableStep(state, CheckEntry(id));
      state := Next(state, CheckEntry(id));
    }

    method RenameIntoCommitting(id: string)
      requires Reachable(state) && Enabled(state, Enter(id))
      modifies this
      ensures Reachable(state) && state == WithoutChecks(WithStatus(old(state), id, Committing), id)
    {
      ReachableStep(state, Enter(id));
      state := Next(state, Enter(id));
    }

    /** The guard status: the lock check, and then the rename. */
    method TransitionToCommitting(id: string) returns (entered: bool)
      requires Reachable(state) && !state.recovering && id in state.proposals
      modifies this
      ensures Reachable(state)
      ensures entered <==> MayEnter(old(state), id) && old(state).proposals[id].targets != []
                           && LocksFree(old(state), id, old(state).proposals[id].targets)
      ensures state == if entered then WithoutChecks(WithStatus(old(state), id, Committing), id) else old(state)
    {
      if !MayEnter(state, id) { return false; }
      entered := LocksAvailable(id);
      if entered {
        RecordCheck(id);
        RenameIntoCommitting(id);
      }
    }

    method BeginAbsorb(id: string, wholesale: bool)
      requires Reachable(state) && Enabled(state, Begin(id, wholesale))
      modifies this
      ensures Reachable(state) && HoldsLane(state, id) && InStatus(state, id, Committing)
      ensures state.recovering == old(state).recovering && state.receipts == old(state).receipts
      ensures state.work == old(state).work && state.history == old(state).history
      ensures var p, q := old(state).proposals[id], state.proposals[id];
        q.writes == p.writes && q.deletes == p.deletes && q.targets == p.targets && q.committedHead == p.committedHead
    {
      ReachableStep(state, Begin(id, wholesale));
      state := Next(state, Begin(id, wholesale));
    }

    /** The passes, stopped anywhere. */
    method WriteSome(id: string)
      requires Reachable(state) && HoldsLane(state, id) && InStatus(state, id, Committing) && WellClaimed(state.proposals[id])
      modifies this
      ensures Reachable(state) && state == old(state).(work := state.work)
      ensures OnlyClaimed(state.proposals[id].targets, old(state).work, state.work)
    {
      var sections: set<Section> := *;
      LandingCarries(state.proposals[id], state.lane.value.wholesale, state.work);
      ReachableStep(state, Write(id, sections));
      state := Next(state, Write(id, sections));
    }

    /** Reset, checkout and clean: the tree is HEAD's again, unless one of them fails and leaves it anywhere in between. */
    method RollBackCanonical(id: string) returns (restored: bool)
      requires Reachable(state) && HoldsLane(state, id)
      modifies this
      ensures Reachable(state) && state == old(state).(work := state.work, lane := None)
      ensures restored ==> state.work == Head(state)
      ensures forall section: Section :: Same(state.work, old(state).work, section) || Same(state.work, Head(state), section)
    {
      restored := *;
      if restored {
        ReachableStep(state, Revert(id));
        state := Next(state, Revert(id));
      } else {
        var sections: set<Section> := *;
        ReachableStep(state, RevertFails(id, sections));
        state := Next(state, RevertFails(id, sections));
      }
    }

    /** An absorb that fails before its commit. */
    method StopAbsorb(id: string) returns (restored: bool)
      requires Reachable(state) && HoldsLane(state, id) && InStatus(state, id, Committing) && WellClaimed(state.proposals[id])
      modifies this
      ensures Reachable(state) && state == old(state).(work := state.work, lane := None)
      ensures restored ==> state.work == Head(state)
      ensures OneOrOther(state.proposals[id].targets, old(state).work, Head(state), state.work)
    {
      WriteSome(id);
      ghost var half := state.work;
      restored := RollBackCanonical(id);
      forall section: Section | !Claims(state.proposals[id].targets, section)
        ensures Same(old(state).work, state.work, section) || Same(Head(state), state.work, section)
      {
        assert Same(old(state).work, half, section);
        assert Same(state.work, half, section) || Same(state.work, Head(state), section);
      }
    }

    /** The rest of the passes and the git commit. */
    method CommitAbsorb(id: string)
      requires Reachable(state) && HoldsLane(state, id) && InStatus(state, id, Committing) && WellClaimed(state.proposals[id])
      requires state.receipts == map[]
      modifies this
      ensures Reachable(state) && state.recovering == old(state).recovering && state.lane.None?
      ensures state.history == old(state).history + [Commit(id, state.work)]
      ensures state.receipts == map[id := |old(state).history|] && InStatus(state, id, Committing)
      ensures Carries(old(state).proposals[id], state.work)
      ensures OnlyClaimed(old(state).proposals[id].targets, old(state).work, state.work)
    {
      LandingCarries(state.proposals[id], state.lane.value.wholesale, state.work);
      ReachableStep(state, Land(id));
      state := Next(state, Land(id));
    }

    /** The commit written into the meta file, then the proposal's directory renamed; either may fail. */
    method TransitionToCommitted(id: string) returns (renamed: bool)
      requires Reachable(state) && !state.recovering && state.lane.None? && InStatus(state, id, Committing)
      requires state.receipts.Keys == {id}
      modifies this
      ensures Reachable(state) && !state.recovering && state.lane.None?
      ensures state.history == old(state).history && state.work == old(state).work
      ensures if renamed then InStatus(state, id, Committed) && state.receipts == map[] else InStatus(state, id, Committing)
      ensures renamed ==> state.proposals[id].committedHead == Some(old(state).receipts[id])
    {
      ReachableInv(state);
      assert ProposalInv(state, id);
      if * { return false; }
      ReachableStep(state, Mark(id));
      state := Next(state, Mark(id));
      assert state.receipts.Keys == {};
      if * { return false; }
      ReachableStep(state, Rename(id));
      state := Next(state, Rename(id));
      return true;
    }

    /** The absorb of a committing proposal. It takes no status back; its caller does. */
    method AbsorbCommittingProposalToCanonical(id: string, wholesale: bool) returns (absorbed: Absorbed)
      requires Reachable(state) && Idle(state) && InStatus(state, id, Committing) && !state.proposals[id].landed
      modifies this
      ensures Reachable(state) && !state.recovering && state.lane.None?
      ensures !absorbed.Done? ==> InStatus(state, id, Committing)
      ensures absorbed.FailedBefore? ==>
        && state.history == old(state).history
        && OneOrOther(old(state).proposals[id].targets, old(state).work, Head(old(state)), state.work)
        && (absorbed.restored ==> state.work == Head(state) || state.work == old(state).work)
      ensures !absorbed.FailedBefore? ==> state.work == Head(state) && LandedOver(old(state), state, old(state).proposals[id])
      ensures absorbed.Done? ==>
        && state.receipts == map[]
        && InStatus(state, id, Committed) && state.proposals[id].committedHead == Some(|old(state).history|)
    {
      if !WellClaimed(state.proposals[id]) { return FailedBefore(true); }
      BeginAbsorb(id, wholesale);
      if * {
        var restored := StopAbsorb(id);
        return FailedBefore(restored);
      }
      ghost var begun := state;
      CommitAbsorb(id);
      LandedAcross(old(state), begun, state, id);
      var renamed := TransitionToCommitted(id);
      return if renamed then Done else FailedAfter;
    }

    /** Takes the guard status back, which may fail as well. */
    method RollBackCommitting(id: string, agent: bool) returns (back: bool)
      requires Reachable(state) && !state.recovering && state.lane.None? && InStatus(state, id, Committing)
      modifies this
      ensures Reachable(state) && !state.recovering && state.lane.None?
      ensures state.history == old(state).history && state.work == old(state).work
      ensures InStatus(state, id, if !back then Committing else if agent then Draft else InProgress)
    {
      back := *;
      if back {
        ReachableStep(state, TakeBack(id, agent));
        state := Next(state, TakeBack(id, agent));
      }
    }

    /** The absorb of a proposal that has entered, and what its failure leaves. */
    method AbsorbOrGiveUp(id: string, wholesale: bool, agent: bool) returns (outcome: Outcome)
      requires Reachable(state) && Idle(state) && InStatus(state, id, Committing) && !state.proposals[id].landed
      requires state.work == Head(state)
      modifies this
      ensures Reachable(state) && !state.recovering && !outcome.Refused?
      ensures Ends(old(state), state, id, agent, outcome)
    {
      var absorbed := AbsorbCommittingProposalToCanonical(id, wholesale);
      if absorbed.Done? { return Published; }
      ghost var failed := state;
      var after, restored := absorbed.FailedAfter?, absorbed.FailedAfter? || absorbed.restored;
      var back := RollBackCommitting(id, agent);
      FailureGivesUp(old(state), failed, state, id, after, restored);
      return if back then RolledBack(after, restored) else Stuck(after, restored);
    }

    /**
     * Takes the guard status, absorbs, records the commit and finishes; a failure takes the guard status back. It is
     * refused exactly when the status does not allow it, nothing is claimed, or another blocking proposal overlaps.
     */
    method PublishProposalToCanonical(id: string, wholesale: bool, agent: bool) returns (outcome: Outcome)
      requires Reachable(state) && Idle(state) && id in state.proposals && state.work == Head(state)
      modifies this
      ensures Reachable(state) && !state.recovering
      ensures Ends(old(state), state, id, agent, outcome)
      ensures outcome.Refused? <==>
                !(MayEnter(old(state), id) && old(state).proposals[id].targets != []
                  && LocksFree(old(state), id, old(state).proposals[id].targets))
    {
      NotLanded(state, id);
      var entered := TransitionToCommitting(id);
      if !entered { return Refused; }
      ghost var begun := state;
      outcome := AbsorbOrGiveUp(id, wholesale, agent);
      EndsAcross(old(state), begun, state, id, agent, outcome);
    }
  }
}
