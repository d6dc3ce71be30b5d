/** Runs of the publish protocol: what holds however they are interrupted, and what holds while the locks do their part. */
module PublishRuns {
  import opened Basics
  import opened ProposalLocks
  import opened PublishProtocol
  import opened PublishSteps
  import opened PublishGuards

  /** The states a run goes through when its events are taken in order. */
  ghost predicate Run(s: State, events: seq<Event>, end: State)
    decreases |events|
  {
    if events == [] then s == end
    else s.history != [] && Enabled(s, events[0]) && Run(Next(s, events[0]), events[1..], end)
  }

  predicate Fresh(s: State) {
    && s.proposals == map[] && s.receipts == map[] && s.entryChecks == map[] && s.claimChecks == map[]
    && s.lane.None? && !s.recovering
    && |s.history| == 1 && s.work == s.history[0].tree
  }

  lemma {:induction false} RunKeepsInv(s: State, events: seq<Event>, end: State)
    requires Inv(s) && ChecksInv(s) && Run(s, events, end)
    ensures Inv(end) && ChecksInv(end)
    decreases |events|
  {
    if events != [] {
      StepKeepsInv(s, events[0]);
      StepKeepsChecks(s, events[0]);
      RunKeepsInv(Next(s, events[0]), events[1..], end);
    }
  }

  ghost predicate Reachable(s: State) {
    s.history != [] && exists start, events :: Fresh(start) && Run(start, events, s)
  }

  lemma {:induction false} ReachableInv(s: State)
    requires Reachable(s)
    ensures Inv(s) && ChecksInv(s)
  {
    var start, events :| Fresh(start) && Run(start, events, s);
    RunKeepsInv(start, events, s);
  }

  lemma {:induction false} RunExtends(s: State, events: seq<Event>, end: State, e: Event)
    requires Run(s, events, end) && end.history != [] && Enabled(end, e)
    ensures Run(s, events + [e], Next(end, e))
    decreases |events|
  {
    if events == [] {
      assert [e][1..] == [] && [] + [e] == [e];
    } else {
      assert (events + [e])[1..] == events[1..] + [e];
      RunExtends(Next(s, events[0]), events[1..], end, e);
    }
  }

  lemma {:induction false} ReachableStep(s: State, e: Event)
    requires Reachable(s) && Enabled(s, e)
    ensures Reachable(Next(s, e))
  {
    var start, events :| Fresh(start) && Run(start, events, s);
    RunExtends(start, events, s, e);
  }

  // ----- every run

  /** In every run, whatever crashes it meets, a committed proposal names a commit of its own in HEAD's history that carries its change. */
  lemma {:induction false} CommittedMeansLanded(s: State, events: seq<Event>, end: State, id: string)
    requires Fresh(s) && Run(s, events, end) && InStatus(end, id, Committed)
    ensures var p := end.proposals[id]; p.committedHead.Some? && Landed(end, id, p, p.committedHead.value)
  {
    RunKeepsInv(s, events, end);
    assert ProposalInv(end, id);
  }

  /** The history of HEAD only grows, so a landed commit stays in it. */
  lemma {:induction false} HistoryGrows(s: State, events: seq<Event>, end: State)
    requires Run(s, events, end)
    ensures |s.history| <= |end.history| && end.history[..|s.history|] == s.history
    decreases |events|
  {
    if events != [] {
      var n := Next(s, events[0]);
      HistoryGrows(n, events[1..], end);
      assert n.history[..|s.history|] == s.history;
      assert end.history[..|s.history|] == end.history[..|n.history|][..|s.history|];
    }
  }

  /**
   * Finish forward: a proposal found in `committing` at start-up is still committing or committed after any
   * further steps, including crashes during recovery, and start-up cannot complete before it is committed.
   */
  lemma {:induction false} FinishForward(s: State, events: seq<Event>, end: State, id: string)
    requires s.history != [] && Run(s, events, end)
    requires InStatus(s, id, Committed) || (s.recovering && InStatus(s, id, Committing))
    ensures InStatus(end, id, Committed) || (end.recovering && InStatus(end, id, Committing))
    decreases |events|
  {
    if events != [] {
      var n := Next(s, events[0]);
      FinishStep(s, events[0], id);
      StillHasHistory(s, events[0]);
      FinishForward(n, events[1..], end, id);
    }
  }

  lemma {:induction false} StillHasHistory(s: State, e: Event)
    requires s.history != [] && Enabled(s, e)
    ensures Next(s, e).history != []
  {
  }

  lemma {:induction false} FinishStep(s: State, e: Event, id: string)
    requires s.history != [] && Enabled(s, e)
    requires InStatus(s, id, Committed) || (s.recovering && InStatus(s, id, Committing))
    ensures InStatus(Next(s, e), id, Committed) || (Next(s, e).recovering && InStatus(Next(s, e), id, Committing))
  {
  }

  // ----- a torn tree

  /** The run tore the tree with nobody left to see to it, and it has not been clean since; `torn` says so of what came before. */
  predicate SpoiledSinceClean(s: State, events: seq<Event>, torn: bool)
    requires s.history != []
    decreases |events|
  {
    if events == [] then torn
    else
      && Enabled(s, events[0])
      && var n := Next(s, events[0]);
         SpoiledSinceClean(n, events[1..], n.work != Head(n) && (torn || Spoils(s, events[0])))
  }

  lemma {:induction false} TornUnlessSeenTo(s: State, events: seq<Event>, end: State, torn: bool)
    requires Inv(s) && ChecksInv(s) && Run(s, events, end)
    requires if torn then s.work != Head(s) else TreeInv(s)
    ensures Inv(end)
    ensures if SpoiledSinceClean(s, events, torn) then end.work != Head(end) else TreeInv(end)
    decreases |events|
  {
    if events != [] {
      var e := events[0];
      var n := Next(s, e);
      StepKeepsInv(s, e);
      StepKeepsChecks(s, e);
      if !torn && !Spoils(s, e) { StepKeepsTree(s, e); }
      TornUnlessSeenTo(n, events[1..], end, n.work != Head(n) && (torn || Spoils(s, e)));
    }
  }

  lemma {:induction false} NobodyTearsMeansClean(s: State)
    requires s.history != [] && TreeInv(s) && forall id <- s.proposals :: !s.proposals[id].status.Committing?
    ensures s.work == Head(s)
  {
    forall section: Section
      ensures Same(s.work, Head(s), section)
    {
    }
    assert forall section <- s.work :: Same(s.work, Head(s), section);
    assert forall section <- Head(s) :: Same(s.work, Head(s), section);
  }

  /**
   * Once nothing is committing the working tree equals HEAD, and the check that ends start-up cannot fail on account
   * of a crash, exactly when nothing has spoiled the tree since it was last clean.
   */
  lemma {:induction false} NothingCommittingIsCleanIff(s: State, events: seq<Event>, end: State)
    requires Fresh(s) && Run(s, events, end) && end.history != []
    requires forall id <- end.proposals :: !end.proposals[id].status.Committing?
    ensures end.work == Head(end) <==> !SpoiledSinceClean(s, events, false)
  {
    TornUnlessSeenTo(s, events, end, false);
    if !SpoiledSinceClean(s, events, false) { NobodyTearsMeansClean(end); }
  }

  // ----- runs in which nothing comes between a lock check and what it was made for

  predicate Orderly(s: State, events: seq<Event>)
    requires s.history != []
    decreases |events|
  {
    events == [] || (Enabled(s, events[0]) && !Interferes(s, events[0]) && Orderly(Next(s, events[0]), events[1..]))
  }

  /** In every state of the run exclusion holds, and goes on to hold whichever checked entry or claim is completed next. */
  ghost predicate ApartThroughout(s: State, events: seq<Event>)
    requires s.history != []
    decreases |events|
  {
    KeepsApart(s) && (events == [] || (Enabled(s, events[0]) && ApartThroughout(Next(s, events[0]), events[1..])))
  }

  lemma {:induction false} ApartIffOrderly(s: State, events: seq<Event>, end: State)
    requires Inv(s) && ChecksInv(s) && Guarded(s) && Run(s, events, end)
    ensures ApartThroughout(s, events) <==> Orderly(s, events)
    ensures Orderly(s, events) ==> Guarded(end)
    decreases |events|
  {
    GuardedIffKeepsApart(s);
    if events != [] {
      var n := Next(s, events[0]);
      StepKeepsInv(s, events[0]);
      StepKeepsChecks(s, events[0]);
      GuardedUnlessInterfered(s, events[0]);
      GuardedIffKeepsApart(n);
      if Guarded(n) { ApartIffOrderly(n, events[1..], end); }
    }
  }

  /**
   * Mutual exclusion over whole runs: proposals stay apart, whichever pending entry or claim comes next, exactly when
   * no overlapping entry or claim change falls between a lock check and the write it was made for.
   */
  lemma {:induction false} ExclusionIffOrderly(s: State, events: seq<Event>, end: State)
    requires Fresh(s) && Run(s, events, end)
    ensures ApartThroughout(s, events) <==> Orderly(s, events)
    ensures Orderly(s, events) ==> Exclusive(end)
  {
    ApartIffOrderly(s, events, end);
  }

  /** Every check is followed at once by the write it was made for, or given up: what a mutex around the two would do. */
  predicate CheckedAtOnce(events: seq<Event>) {
    forall i | 0 <= i < |events| - 1 :: FollowsUp(events[i], events[i + 1])
  }

  predicate FollowsUp(check: Event, next: Event) {
    && (check.CheckEntry? ==> next.Crash? || ((next.Enter? || next.Acquire? || next.Abandon?) && next.id == check.id))
    && (check.CheckClaim? ==> next.Crash? || ((next.Create? || next.Edit? || next.Abandon?) && next.id == check.id))
  }

  /** With the check and its write back to back nothing can interfere. */
  lemma {:induction false} ChecksAtOnceAreOrderly(s: State, events: seq<Event>, end: State)
    requires Inv(s) && ChecksInv(s) && Run(s, events, end) && CheckedAtOnce(events)
    requires NoCheck(s) || (events != [] ==> OwnStep(s, events[0]))
    ensures Orderly(s, events)
    decreases |events|
  {
    if events != [] {
      var e := events[0];
      StepKeepsInv(s, e);
      StepKeepsChecks(s, e);
      assert forall i | 0 <= i < |events[1..]| :: events[1..][i] == events[i + 1];
      NothingWaits(s, e);
      if events[1..] != [] && !NoCheck(Next(s, e)) {
        assert FollowsUp(e, events[1]);
        OwnNext(s, e, events[1]);
      }
      ChecksAtOnceAreOrderly(Next(s, e), events[1..], end);
    }
  }

  predicate NoCheck(s: State) {
    s.entryChecks == map[] && s.claimChecks == map[]
  }

  /** The only check that waits, if any, is the one this step completes or drops. */
  predicate OwnStep(s: State, e: Event) {
    && (s.entryChecks == map[] || s.claimChecks == map[])
    && (forall id <- s.entryChecks :: FollowsUp(CheckEntry(id), e))
    && (forall id <- s.claimChecks :: FollowsUp(CheckClaim(id, []), e))
  }

  lemma {:induction false} NothingWaits(s: State, e: Event)
    requires s.history != [] && Enabled(s, e) && (NoCheck(s) || OwnStep(s, e))
    ensures !Interferes(s, e)
    ensures NoCheck(Next(s, e)) || e.CheckEntry? || e.CheckClaim?
  {
  }

  lemma {:induction false} OwnNext(s: State, e: Event, next: Event)
    requires s.history != [] && Enabled(s, e) && (NoCheck(s) || OwnStep(s, e)) && (e.CheckEntry? || e.CheckClaim?)
    requires FollowsUp(e, next)
    ensures OwnStep(Next(s, e), next)
  {
  }

  lemma {:induction false} OrderlyKeepsSettled(s: State, events: seq<Event>, end: State)
    requires Inv(s) && ChecksInv(s) && Guarded(s) && SettledInv(s) && Run(s, events, end) && Orderly(s, events)
    ensures Inv(end) && ChecksInv(end) && Guarded(end) && SettledInv(end)
    decreases |events|
  {
    if events != [] {
      StepKeepsInv(s, events[0]);
      StepKeepsChecks(s, events[0]);
      GuardedUnlessInterfered(s, events[0]);
      StepKeepsSettled(s, events[0]);
      OrderlyKeepsSettled(Next(s, events[0]), events[1..], end);
    }
  }

  /** Reached by a run in which nothing interfered with a lock check. */
  ghost predicate OrderlyReachable(s: State) {
    s.history != [] && exists start, events :: Fresh(start) && Run(start, events, s) && Orderly(start, events)
  }

  lemma {:induction false} OrderlyReachableInv(s: State)
    requires OrderlyReachable(s)
    ensures Reachable(s) && Inv(s) && ChecksInv(s) && Guarded(s) && SettledInv(s)
  {
    var start, events :| Fresh(start) && Run(start, events, s) && Orderly(start, events);
    OrderlyKeepsSettled(start, events, s);
  }

  /**
   * Recovery that publishes a proposal whose commit had already landed adds nothing to the working tree: the locks
   * kept every later commit out of the sections it claims.
   */
  lemma {:induction false} RelandingIsEmptyDelta(s: State, id: string)
    requires OrderlyReachable(s) && Enabled(s, Land(id)) && s.proposals[id].landed
    ensures Next(s, Land(id)).work == s.work
    ensures s.work == Head(s) ==> Head(Next(s, Land(id))) == Head(s)
  {
    OrderlyReachableInv(s);
    SettledLandsNothing(s, s.proposals[id], s.lane.value.wholesale);
  }

  /** A proposal that becomes committed after landing has its change in HEAD as it does. */
  lemma {:induction false} CommittedIsInHead(s: State, e: Event)
    requires OrderlyReachable(s) && Enabled(s, e) && (e.Rename? || e.Finalize?) && s.proposals[e.id].landed
    ensures InStatus(Next(s, e), e.id, Committed) && Carries(Next(s, e).proposals[e.id], Head(Next(s, e)))
  {
    OrderlyReachableInv(s);
    assert Settled(s, s.proposals[e.id]);
  }

  /**
   * Recovery does not know which mode the caller declared and takes wholesale for any proposal with a document
   * target.  For a merge this gives the declared result exactly when the staged skeletons already declare every
   * section canonical holds in those documents.
   */
  lemma {:induction false} RecoveredMergeAgrees(p: Proposal, tree: Content)
    ensures Landing(p, true, tree) == Landing(p, false, tree) <==>
              forall section <- tree | WholeDocument(p, section) && section !in p.writes && section !in p.deletes ::
                section in p.keeps
  {
    var declared, recovered := Landing(p, false, tree), Landing(p, true, tree);
    if recovered == declared {
      forall section <- tree | WholeDocument(p, section) && section !in p.writes && section !in p.deletes
        ensures section in p.keeps
      {
        assert section in declared;
        assert section in recovered;
      }
    }
  }
}
