/** Start-up recovery of backend/src/storage/crash-recovery.ts, run as steps of the publish protocol. */
module CrashRecovery {
  import opened Basics
  import opened ProposalLocks
  import opened PublishProtocol
  import opened PublishSteps
  import opened PublishGuards
  import opened PublishRuns

  datatype RecoveryResult =
    | Recovered(pendingDiscarded: nat, finalized: seq<string>, rerun: seq<string>)
    | Reported(dirtyTree: bool)   // the process exits with a maintainer report, on a dirty tree or on a failed publish
    | CrashedAgain

  datatype PublishResult = Published | Failed | Interrupted

  /** A start-up between two proposals: nothing of an absorb is in flight. */
  predicate Idle(s: State) {
    s.recovering && s.lane.None? && s.receipts == map[]
  }

  /** All proposals except `id` are as they were. */
  ghost predicate OthersKept(before: State, after: State, id: string) {
    after.proposals - {id} == before.proposals - {id}
  }

  lemma OthersKeptEach(before: State, after: State, id: string)
    requires OthersKept(before, after, id) && id in before.proposals && id in after.proposals
    ensures after.proposals.Keys == before.proposals.Keys
    ensures forall other <- before.proposals | other != id :: after.proposals[other] == before.proposals[other]
  {
    forall other | other != id
      ensures other in after.proposals <==> other in before.proposals
      ensures other in before.proposals ==> after.proposals[other] == before.proposals[other]
    {
      assert other in after.proposals <==> other in after.proposals - {id};
      assert other in before.proposals <==> other in before.proposals - {id};
      if other in before.proposals { assert (after.proposals - {id})[other] == (before.proposals - {id})[other]; }
    }
  }

  ghost function InStatusSet(s: State, status: Status): set<string> {
    set id | id in s.proposals && s.proposals[id].status == status
  }

  /**
   * Everything torn belongs to a committing proposal, and a commit recorded in the meta file of one is this
   * attempt's: what nothing having spoiled the tree since it was last clean leaves at start-up.
   */
  ghost predicate Accounted(s: State)
    requires s.history != []
  {
    TreeInv(s) && forall id | InStatus(s, id, Committing) && s.proposals[id].committedHead.Some? :: s.proposals[id].landed
  }

  lemma {:induction false} RecoveryKeepsOrder(s: State, e: Event)
    requires OrderlyReachable(s) && Enabled(s, e) && s.recovering
    ensures OrderlyReachable(Next(s, e))
  {
    OrderlyReachableInv(s);
    NothingWaits(s, e);
    var start, events :| Fresh(start) && Run(start, events, s) && Orderly(start, events);
    RunExtends(start, events, s, e);
    OrderExtends(start, events, s, e);
  }

  lemma {:induction false} OrderExtends(s: State, events: seq<Event>, end: State, e: Event)
    requires s.history != [] && Run(s, events, end) && Orderly(s, events)
    requires end.history != [] && Enabled(end, e) && !Interferes(end, e)
    ensures Orderly(s, events + [e])
    decreases |events|
  {
    if events == [] {
      assert [e][1..] == [] && [] + [e] == [e];
    } else {
      assert (events + [e])[1..] == events[1..] + [e];
      OrderExtends(Next(s, events[0]), events[1..], end, e);
    }
  }

  lemma {:induction false} RecoveryKeepsAccounts(s: State, e: Event)
    requires Inv(s) && Accounted(s) && Enabled(s, e) && s.recovering
    ensures Accounted(Next(s, e))
  {
    StepKeepsTree(s, e);
    if e.Mark? { assert ProposalInv(s, e.id); }
  }

  /** Re-running the passes of a proposal that has landed writes what is already there. */
  lemma {:induction false} RewritingIsIdle(s: State, id: string, sections: set<Section>)
    requires OrderlyReachable(s) && Enabled(s, Write(id, sections)) && s.proposals[id].landed
    ensures Next(s, Write(id, sections)) == s
  {
    OrderlyReachableInv(s);
    RewriteKeepsSettled(s, id, sections);
  }

  lemma OneFewer(pending: set<string>, todo: set<string>, id: string, proposals: map<string, Proposal>)
    requires id in todo && todo <= pending
    ensures |todo - {id}| == |todo| - 1
    ensures proposals - (pending - todo) - {id} == proposals - (pending - (todo - {id}))
  {
    assert pending - (todo - {id}) == (pending - todo) + {id};
  }

  /** The proposals of done are committed and listed by what was done for them; the others are as they were. */
  ghost predicate Finished(was: State, now: State, done: set<string>, finalized: seq<string>, rerun: seq<string>) {
    && now.proposals.Keys == was.proposals.Keys
    && (forall id <- was.proposals | id !in done :: now.proposals[id] == was.proposals[id])
    && (forall id <- was.proposals | id in done :: InStatus(now, id, Committed)
          && (if was.proposals[id].committedHead.Some? then id in finalized else id in rerun))
  }

  /** Of the proposals left, one that was committing still is or is committed, and every other one is as it was. */
  ghost predicate NoneTakenBack(was: State, now: State) {
    && now.proposals.Keys <= was.proposals.Keys
    && forall id <- now.proposals ::
         if InStatus(was, id, Committing) then InStatus(now, id, Committing) || InStatus(now, id, Committed)
         else now.proposals[id] == was.proposals[id]
  }

  lemma {:induction false} OthersStay(was: State, before: State, now: State, done: set<string>, id: string,
                                      finalized: seq<string>, rerun: seq<string>)
    requires Finished(was, before, done, finalized, rerun) && done <= InStatusSet(was, Committing)
    requires InStatus(was, id, Committing) && (InStatus(now, id, Committing) || InStatus(now, id, Committed))
    requires now.proposals.Keys == before.proposals.Keys
    requires forall other <- before.proposals | other != id :: now.proposals[other] == before.proposals[other]
    ensures NoneTakenBack(was, now)
  {
  }

  lemma {:induction false} OneMoreFinished(was: State, before: State, now: State, done: set<string>, id: string,
                                           landed: bool, finalized: seq<string>, rerun: seq<string>)
    requires Finished(was, before, done, finalized, rerun) && id in was.proposals && id !in done
    requires now.proposals.Keys == before.proposals.Keys && InStatus(now, id, Committed)
    requires forall other <- before.proposals | other != id :: now.proposals[other] == before.proposals[other]
    requires landed <==> before.proposals[id].committedHead.Some?
    ensures Finished(was, now, done + {id}, if landed then finalized + [id] else finalized, if landed then rerun else rerun + [id])
  {
  }

  lemma {:induction false} LandLeavesOthers(s: State, id: string)
    requires s.history != [] && Enabled(s, Event.Land(id))
    ensures var n := Next(s, Event.Land(id));
      && OthersKept(s, n, id) && n.receipts == s.receipts[id := |s.history|] && n.lane.None?
      && id in n.proposals && n.proposals[id].status == s.proposals[id].status && n.recovering == s.recovering
  {
  }

  lemma {:induction false} BeginLeavesOthers(s: State, id: string, wholesale: bool)
    requires s.history != [] && Enabled(s, Event.Begin(id, wholesale))
    ensures var n := Next(s, Event.Begin(id, wholesale));
      && OthersKept(s, n, id) && HoldsLane(n, id) && InStatus(n, id, Committing) && n.recovering == s.recovering
      && n.proposals[id].landed == s.proposals[id].landed
      && n.receipts == s.receipts && n.work == s.work && n.history == s.history
  {
  }

  function AfterCrash(s: State): State {
    s.(lane := None, receipts := map[], entryChecks := map[], claimChecks := map[], recovering := true)
  }

  class Startup {
    var state: State
    ghost const orderly: bool     // nothing interfered with a lock check in the run before
    ghost const accounted: bool   // the crash left nothing torn that nobody sees to

    ghost predicate Reached(s: State) {
      Reachable(s) && (orderly ==> OrderlyReachable(s)) && (accounted ==> Accounted(s))
    }

    constructor (crashed: State)
      requires Reachable(crashed)
      ensures Reached(state) && state == AfterCrash(crashed)
      ensures orderly == OrderlyReachable(AfterCrash(crashed)) && accounted == Accounted(AfterCrash(crashed))
    {
      ReachableStep(crashed, Event.Crash);
      state := Next(crashed, Event.Crash);
      orderly, accounted := OrderlyReachable(AfterCrash(crashed)), Accounted(AfterCrash(crashed));
    }

    lemma {:induction false} ReachedStep(s: State, e: Event)
      requires Reached(s) && Enabled(s, e) && s.recovering
      ensures Reached(Next(s, e))
    {
      ReachableInv(s);
      ReachableStep(s, e);
      if orderly { RecoveryKeepsOrder(s, e); }
      if accounted { RecoveryKeepsAccounts(s, e); }
    }

    method Discard(id: string)
      requires Reached(state) && Idle(state) && InStatus(state, id, Pending)
      modifies this
      ensures Reached(state) && state == old(state).(proposals := old(state).proposals - {id})
    {
      ReachedStep(state, Event.Discard(id));
      state := Next(state, Event.Discard(id));
    }

    method Finalize(id: string)
      requires Reached(state) && Idle(state) && InStatus(state, id, Committing) && state.proposals[id].committedHead.Some?
      modifies this
      ensures Reached(state) && Idle(state) && OthersKept(old(state), state, id) && InStatus(state, id, Committed)
      ensures state.history == old(state).history
    {
      ReachedStep(state, Event.Finalize(id));
      state := Next(state, Event.Finalize(id));
    }

    method Begin(id: string)
      requires Reached(state) && Idle(state) && InStatus(state, id, Committing)
      requires state.proposals[id].committedHead.None? && WellClaimed(state.proposals[id])
      modifies this
      ensures Reached(state) && state.recovering && HoldsLane(state, id) && state.receipts == map[]
      ensures InStatus(state, id, Committing) && state.proposals[id].landed == old(state).proposals[id].landed
      ensures OthersKept(old(state), state, id) && state.work == old(state).work && state.history == old(state).history
    {
      var e := Event.Begin(id, HasDocumentTarget(state.proposals[id]));
      BeginLeavesOthers(state, id, HasDocumentTarget(state.proposals[id]));
      ReachedStep(state, e);
      state := Next(state, e);
    }

    /** Any number of the absorb's single-file steps, in any grouping. */
    method RunPasses(id: string)
      requires Reached(state) && state.recovering && HoldsLane(state, id) && InStatus(state, id, Committing)
      modifies this
      ensures Reached(state) && state == old(state).(work := state.work)
      ensures orderly && old(state).proposals[id].landed ==> state.work == old(state).work
    {
      var steps: nat := *;
      while steps > 0
        invariant Reached(state) && state == old(state).(work := state.work)
        invariant orderly && old(state).proposals[id].landed ==> state.work == old(state).work
      {
        var sections: set<Section> := *;
        if orderly && old(state).proposals[id].landed { RewritingIsIdle(state, id, sections); }
        ReachedStep(state, Write(id, sections));
        state := Next(state, Write(id, sections));
        steps := steps - 1;
      }
    }

    method Land(id: string)
      requires Reached(state) && state.recovering && HoldsLane(state, id) && InStatus(state, id, Committing)
      modifies this
      ensures Reached(state) && state.recovering && state.lane.None? && InStatus(state, id, Committing)
      ensures state.receipts == old(state).receipts[id := |old(state).history|]
      ensures OthersKept(old(state), state, id)
      ensures orderly && old(state).proposals[id].landed && old(state).work == Head(old(state)) ==> Head(state) == Head(old(state))
    {
      LandLeavesOthers(state, id);
      if orderly && state.proposals[id].landed { RelandingIsEmptyDelta(state, id); }
      ReachedStep(state, Event.Land(id));
      state := Next(state, Event.Land(id));
    }

    method Mark(id: string)
      requires Reached(state) && state.recovering && state.lane.None? && InStatus(state, id, Committing)
      requires state.receipts.Keys == {id}
      modifies this
      ensures Reached(state) && Idle(state) && OthersKept(old(state), state, id) && state.history == old(state).history
      ensures InStatus(state, id, Committing) && state.proposals[id].committedHead.Some?
    {
      ReachedStep(state, Event.Mark(id));
      state := Next(state, Event.Mark(id));
    }

    method Crash()
      requires Reached(state) && state.recovering
      modifies this
      ensures Reached(state) && state == AfterCrash(old(state))
    {
      ReachedStep(state, Event.Crash);
      state := Next(state, Event.Crash);
    }

    /** Rolls the tree back to HEAD; where that fails too, the proposal is still there to be run again. */
    method RollBack(id: string)
      requires Reached(state) && state.recovering && HoldsLane(state, id)
      modifies this
      ensures Reached(state) && state == old(state).(lane := None, work := state.work)
    {
      var sections: set<Section> := *;
      var fails: bool := *;
      var e := if fails then Event.RevertFails(id, sections) else Event.Revert(id);
      ReachedStep(state, e);
      state := Next(state, e);
    }

    /** After the git commit: enrich the meta file, then rename the directory. */
    method RecordLanding(id: string) returns (result: PublishResult)
      requires Reached(state) && state.recovering && state.lane.None? && InStatus(state, id, Committing)
      requires state.receipts.Keys == {id}
      modifies this
      ensures Reached(state) && Idle(state) && OthersKept(old(state), state, id) && !result.Failed?
      ensures if result.Published? then InStatus(state, id, Committed) && state.history == old(state).history
              else InStatus(state, id, Committing)
    {
      if * { Crash(); return Interrupted; }
      Mark(id);
      if * { Crash(); return Interrupted; }
      Finalize(id);
      return Published;
    }

    /**
     * Publishes an already committing proposal again.  A crash or a failure leaves it committing; a commit that
     * repeats a landed one records the tree HEAD already had.
     */
    method PublishCommittingProposal(id: string) returns (result: PublishResult)
      requires Reached(state) && Idle(state) && InStatus(state, id, Committing) && state.proposals[id].committedHead.None?
      modifies this
      ensures Reached(state) && Idle(state) && OthersKept(old(state), state, id)
      ensures if result.Published? then InStatus(state, id, Committed) else InStatus(state, id, Committing)
      ensures orderly && result.Published? && old(state).proposals[id].landed && old(state).work == Head(old(state)) ==>
                Head(state) == Head(old(state))
    {
      if !WellClaimed(state.proposals[id]) { return Failed; }
      Begin(id);
      RunPasses(id);
      if * { Crash(); return Interrupted; }
      if * { RollBack(id); return Failed; }
      Land(id);
      result := RecordLanding(id);
    }

    method DiscardPendingProposals() returns (discarded: nat)
      requires Reached(state) && Idle(state)
      modifies this
      ensures Reached(state) && state == old(state).(proposals := old(state).proposals - InStatusSet(old(state), Pending))
      ensures discarded == |InStatusSet(old(state), Pending)|
    {
      discarded := 0;
      var pending := set id | id in state.proposals && state.proposals[id].status.Pending?;
      assert pending == InStatusSet(state, Pending);
      var todo := pending;
      while todo != {}
        invariant todo <= pending
        invariant Reached(state) && state == old(state).(proposals := old(state).proposals - (pending - todo))
        invariant discarded + |todo| == |pending|
        decreases |todo|
      {
        var id :| id in todo;
        Discard(id);
        OneFewer(pending, todo, id, old(state).proposals);
        todo := todo - {id};
        discarded := discarded + 1;
      }
    }

    /** Finalizes a proposal whose commit is recorded, publishes it again otherwise. */
    method RecoverOne(id: string) returns (result: PublishResult, landed: bool)
      requires Reached(state) && Idle(state) && InStatus(state, id, Committing)
      modifies this
      ensures Reached(state) && Idle(state) && state.proposals.Keys == old(state).proposals.Keys
      ensures forall other <- old(state).proposals | other != id :: state.proposals[other] == old(state).proposals[other]
      ensures if result.Published? then InStatus(state, id, Committed) else InStatus(state, id, Committing)
      ensures landed <==> old(state).proposals[id].committedHead.Some?
    {
      landed := state.proposals[id].committedHead.Some?;
      if landed {
        Finalize(id);
        result := Published;
      } else {
        result := PublishCommittingProposal(id);
      }
      OthersKeptEach(old(state), state, id);
    }

    /** Finishes every committing proposal forward: finalize what has landed, publish the rest again. */
    method RecoverCommittingProposals() returns (last: PublishResult, finalized: seq<string>, rerun: seq<string>)
      requires Reached(state) && Idle(state)
      modifies this
      ensures Reached(state) && Idle(state) && NoneTakenBack(old(state), state)
      ensures state.proposals.Keys == old(state).proposals.Keys
      ensures last.Published? ==> Finished(old(state), state, InStatusSet(old(state), Committing), finalized, rerun)
    {
      finalized, rerun := [], [];
      var committing := set id | id in state.proposals && state.proposals[id].status.Committing?;
      assert committing == InStatusSet(state, Committing);
      var todo := committing;
      while todo != {}
        invariant todo <= committing && Reached(state) && Idle(state)
        invariant Finished(old(state), state, committing - todo, finalized, rerun)
        decreases |todo|
      {
        var id :| id in todo;
        ghost var before, done := state, committing - todo;
        var result, landed := RecoverOne(id);
        OthersStay(old(state), before, state, done, id, finalized, rerun);
        if !result.Published? { return result, finalized, rerun; }
        OneMoreFinished(old(state), before, state, done, id, landed, finalized, rerun);
        if landed { finalized := finalized + [id]; } else { rerun := rerun + [id]; }
        todo := todo - {id};
        assert committing - todo == done + {id};
      }
      assert committing - todo == committing;
      return Published, finalized, rerun;
    }

    /** The last check: a tracked file that is not as committed stops start-up. */
    method RecoverDirtyWorkingTree() returns (clean: bool)
      requires Reached(state) && Idle(state)
      requires InStatusSet(state, Committing) == {} && InStatusSet(state, Pending) == {}
      modifies this
      ensures Reached(state) && clean == TrackedClean(old(state))
      ensures state == if clean then old(state).(recovering := false) else old(state)
      ensures accounted ==> clean && state.work == Head(state)
    {
      assert forall id <- state.proposals :: id !in InStatusSet(state, Committing) && id !in InStatusSet(state, Pending);
      if accounted { NobodyTearsMeansClean(state); }
      clean := TrackedClean(state);
      if clean {
        ReachedStep(state, Event.Resume);
        state := Next(state, Event.Resume);
      }
    }

    /**
     * The whole of start-up recovery.  However it ends, nothing is rolled back: a proposal that was committing is
     * still committing or committed, and drafts, live edits and history are untouched.  When it completes, the
     * pending debris is gone, nothing is committing any more and every committed file is in place. When the crash
     * left nothing torn that nobody sees to, the dirty tree is never the reason to stop, and the tree equals HEAD.
     */
    method DetectAndRecoverCrash() returns (result: RecoveryResult)
      requires Reached(state) && Idle(state)
      modifies this
      ensures Reached(state)
      ensures state.proposals.Keys == old(state).proposals.Keys - InStatusSet(old(state), Pending)
      ensures NoneTakenBack(old(state), state)
      ensures result.Recovered? ==>
                && !state.recovering && TrackedClean(state)
                && result.pendingDiscarded == |InStatusSet(old(state), Pending)|
                && (forall id <- InStatusSet(old(state), Committing) :: InStatus(state, id, Committed)
                      && (if old(state).proposals[id].committedHead.Some? then id in result.finalized else id in result.rerun))
      ensures !result.Recovered? ==> state.recovering
      ensures accounted ==> !(result.Reported? && result.dirtyTree) && (result.Recovered? ==> state.work == Head(state))
    {
      var discarded := DiscardPendingProposals();
      ghost var cleaned := state;
      assert InStatusSet(cleaned, Committing) == InStatusSet(old(state), Committing);
      var last, finalized, rerun := RecoverCommittingProposals();
      if last.Failed? { return Reported(false); }
      if last.Interrupted? { return CrashedAgain; }
      var clean := RecoverDirtyWorkingTree();
      return if clean then Recovered(discarded, finalized, rerun) else Reported(true);
    }
  }
}
