/** Runs in which the publish protocol does not keep what its documentation says: one for each way a condition can fail. */
module PublishLimits {
  import opened Basics
  import opened ProposalLocks
  import opened PublishProtocol
  import opened PublishRuns

  function Claiming(section: Section, body: string): Proposal {
    Proposal(Draft, false, [TargetOf(section)], map[section := body], {}, {}, None, false)
  }

  function Empty(): State {
    State(map[], [Commit("", map[])], map[], None, map[], map[], map[], false)
  }

  /** A set of states that holds the empty one and, with a state, all that a step leads to. */
  ghost predicate ClosedUnderSteps(reached: State -> bool) {
    && reached(Empty())
    && (forall s | reached(s) :: s.history != [])
    && (forall s, e | reached(s) && Enabled(s, e) :: reached(Next(s, e)))
  }

  lemma {:induction false} ReachableIsClosed()
    ensures ClosedUnderSteps(s => Reachable(s))
  {
    assert Fresh(Empty()) && Run(Empty(), [], Empty());
    forall s, e | Reachable(s) && s.history != [] && Enabled(s, e)
      ensures Reachable(Next(s, e))
    {
      ReachableStep(s, e);
    }
  }

  lemma {:induction false} Step(reached: State -> bool, s: State, e: Event) returns (n: State)
    requires ClosedUnderSteps(reached) && reached(s) && Enabled(s, e)
    ensures n == Next(s, e) && reached(n)
  {
    n := Next(s, e);
  }

  predicate Fileable(p: Proposal) {
    p.status.Draft? && !p.human && p.targets != [] && p.committedHead.None? && !p.landed
  }

  lemma {:induction false} Filed(reached: State -> bool, s: State, id: string, p: Proposal) returns (n: State)
    requires ClosedUnderSteps(reached) && reached(s) && !s.recovering && id !in s.proposals && id !in s.claimChecks && Fileable(p)
    ensures reached(n) && n == WithProposal(s, id, p)
  {
    n := Step(reached, s, Create(id, p));
    assert n.claimChecks == s.claimChecks;
  }

  lemma {:induction false} Checked(reached: State -> bool, s: State, id: string) returns (n: State)
    requires ClosedUnderSteps(reached) && reached(s) && !s.recovering && InStatus(s, id, Draft) && !s.proposals[id].human
    requires s.proposals[id].targets != [] && LocksFree(s, id, s.proposals[id].targets)
    ensures reached(n)
    ensures n == s.(entryChecks := s.entryChecks[id := EntryCheck(s.proposals[id].targets, s.proposals[id].deletes)])
  {
    n := Step(reached, s, CheckEntry(id));
  }

  lemma {:induction false} EnteredOnCheck(reached: State -> bool, s: State, id: string) returns (n: State)
    requires ClosedUnderSteps(reached) && reached(s) && !s.recovering && InStatus(s, id, Draft) && !s.proposals[id].human && id in s.entryChecks
    ensures reached(n) && n == WithoutChecks(WithStatus(s, id, Committing), id)
  {
    n := Step(reached, s, Enter(id));
  }

  /** Checks and enters with nothing in between. */
  lemma {:induction false} Entered(reached: State -> bool, s: State, id: string) returns (n: State)
    requires ClosedUnderSteps(reached) && reached(s) && !s.recovering && InStatus(s, id, Draft) && !s.proposals[id].human
    requires s.proposals[id].targets != [] && LocksFree(s, id, s.proposals[id].targets)
    requires id !in s.entryChecks && id !in s.claimChecks
    ensures reached(n) && n == WithStatus(s, id, Committing)
  {
    var s1 := Checked(reached, s, id);
    n := EnteredOnCheck(reached, s1, id);
    assert n.entryChecks == s.entryChecks && n.claimChecks == s.claimChecks;
  }

  lemma {:induction false} FiledAndEntered(reached: State -> bool, s: State, id: string, p: Proposal) returns (n: State)
    requires ClosedUnderSteps(reached) && reached(s) && !s.recovering && id !in s.proposals && id !in s.entryChecks && id !in s.claimChecks
    requires Fileable(p) && LocksFree(s, id, p.targets)
    ensures reached(n) && n == WithProposal(s, id, p.(status := Committing))
  {
    var s1 := Filed(reached, s, id, p);
    n := Entered(reached, s1, id);
    assert n.proposals == s.proposals[id := p.(status := Committing)];
  }

  lemma {:induction false} Begun(reached: State -> bool, s: State, id: string) returns (n: State)
    requires ClosedUnderSteps(reached) && reached(s) && !s.recovering && InStatus(s, id, Committing) && s.lane.None? && id !in s.receipts
    requires WellClaimed(s.proposals[id]) && !s.proposals[id].landed
    ensures reached(n)
    ensures n == WithProposal(s, id, s.proposals[id].(keeps := s.proposals[id].keeps + (s.work.Keys - s.proposals[id].deletes)))
                   .(lane := Some(Lane(id, false)))
  {
    n := Step(reached, s, Begin(id, false));
  }

  lemma {:induction false} LandedNext(reached: State -> bool, s: State, id: string) returns (n: State)
    requires ClosedUnderSteps(reached) && reached(s) && s.lane == Some(Lane(id, false)) && id in s.proposals
    ensures reached(n)
    ensures var tree := Landing(s.proposals[id], false, s.work);
      n == WithProposal(s, id, s.proposals[id].(landed := true))
        .(work := tree, history := s.history + [Commit(id, tree)], lane := None, receipts := s.receipts[id := |s.history|])
  {
    n := Step(reached, s, Land(id));
  }

  /** From entry to the recorded commit, before the rename. */
  lemma {:induction false} Recorded(reached: State -> bool, s: State, id: string) returns (n: State)
    requires ClosedUnderSteps(reached) && reached(s) && !s.recovering && InStatus(s, id, Committing) && s.lane.None? && s.receipts == map[]
    requires WellClaimed(s.proposals[id]) && !s.proposals[id].landed
    ensures reached(n)
    ensures n == s.(work := n.work, history := s.history + [Commit(id, n.work)], proposals := n.proposals)
    ensures n.proposals.Keys == s.proposals.Keys && forall other <- s.proposals | other != id :: n.proposals[other] == s.proposals[other]
    ensures var p, q := s.proposals[id], n.proposals[id]; q == p.(committedHead := Some(|s.history|), landed := true, keeps := q.keeps)
    ensures forall section <- s.proposals[id].writes :: section in n.work && n.work[section] == s.proposals[id].writes[section]
  {
    var s1 := Begun(reached, s, id);
    var s2 := LandedNext(reached, s1, id);
    n := Step(reached, s2, Mark(id));
    assert n.receipts == map[];
  }

  ghost predicate TornIdle(s: State)
    requires s.history != []
  {
    s.work != Head(s) && forall id <- s.proposals :: !s.proposals[id].status.Committing?
  }

  lemma {:induction false} ClaimingIsWell(section: Section, body: string, keeps: set<Section>)
    ensures Fileable(Claiming(section, body)) && WellClaimed(Claiming(section, body).(keeps := keeps))
    ensures forall tree :: Carries(Claiming(section, body), tree) <==> section in tree && tree[section] == body
  {
    assert Overlaps(TargetOf(section), TargetOf(section));
    assert section in Claiming(section, body).writes;
  }

  lemma {:induction false} Written(reached: State -> bool, s: State, id: string, section: Section) returns (n: State)
    requires ClosedUnderSteps(reached) && reached(s) && s.lane == Some(Lane(id, false)) && id in s.proposals && section in s.proposals[id].writes
    ensures reached(n) && n == s.(work := n.work) && section in n.work && n.work[section] == s.proposals[id].writes[section]
    ensures forall other | other != section :: Same(n.work, s.work, other)
  {
    n := Step(reached, s, Write(id, {section}));
    assert section in Landing(s.proposals[id], false, s.work);
  }

  lemma {:induction false} LeftTorn(reached: State -> bool, s: State, id: string) returns (n: State)
    requires ClosedUnderSteps(reached) && reached(s) && HoldsLane(s, id)
    ensures reached(n) && n == s.(lane := None)
  {
    n := Step(reached, s, RevertFails(id, {}));
    assert n.work == s.work;
  }

  lemma {:induction false} TakenBack(reached: State -> bool, s: State, id: string) returns (n: State)
    requires ClosedUnderSteps(reached) && reached(s) && !s.recovering && InStatus(s, id, Committing) && s.lane.None? && id !in s.receipts
    ensures reached(n) && n == WithProposal(s, id, s.proposals[id].(status := Draft, landed := false))
  {
    n := Step(reached, s, TakeBack(id, true));
    assert n.receipts == s.receipts;
  }

  lemma {:induction false} Renamed(reached: State -> bool, s: State, id: string) returns (n: State)
    requires ClosedUnderSteps(reached) && reached(s) && !s.recovering && InStatus(s, id, Committing) && id !in s.receipts
    requires s.proposals[id].landed && s.proposals[id].committedHead.Some?
    ensures reached(n) && n == WithStatus(s, id, Committed)
  {
    n := Step(reached, s, Rename(id));
  }

  lemma {:induction false} FinalizedAfterCrash(reached: State -> bool, s: State, id: string) returns (n: State)
    requires ClosedUnderSteps(reached) && reached(s) && InStatus(s, id, Committing) && s.proposals[id].committedHead.Some?
    ensures reached(n)
    ensures n.work == s.work && n.history == s.history && n.proposals == s.proposals[id := s.proposals[id].(status := Committed)]
  {
    var s1 := Step(reached, s, Crash);
    n := Step(reached, s1, Finalize(id));
  }

  lemma {:induction false} Raced(reached: State -> bool, section: Section, a: string, b: string) returns (n: State)
    requires ClosedUnderSteps(reached) && a != b
    ensures reached(n) && a in n.proposals && b in n.proposals
    ensures n.proposals[a] == n.proposals[b] == Claiming(section, "").(status := Committing)
  {
    var p := Claiming(section, "");
    var s1 := Filed(reached, Empty(), a, p);
    var s2 := Filed(reached, s1, b, p);
    var s3 := Checked(reached, s2, a);
    var s4 := Checked(reached, s3, b);
    var s5 := EnteredOnCheck(reached, s4, a);
    n := EnteredOnCheck(reached, s5, b);
  }

  /** Both checks, then both renames: two proposals that claim one section are committing at once. */
  lemma {:induction false} RacingEntriesCollide(section: Section, a: string, b: string)
    requires a != b
    ensures exists s :: Reachable(s) && !Exclusive(s)
  {
    ReachableIsClosed();
    var n := Raced(s => Reachable(s), section, a, b);
    assert Overlaps(TargetOf(section), TargetOf(section));
    assert !Disjoint(n.proposals[a].targets, n.proposals[b].targets);
    assert !Exclusive(n);
  }

  predicate Quiet(s: State) {
    s.lane.None? && s.receipts == map[] && s.entryChecks == map[] && s.claimChecks == map[] && !s.recovering
  }

  predicate NobodyBlocks(s: State) {
    forall id <- s.proposals :: !Blocking(s.proposals[id].status)
  }

  /** `id` files a claim over `section` and enters. */
  lemma {:induction false} Claimed(reached: State -> bool, s: State, id: string, section: Section, body: string) returns (n: State)
    requires ClosedUnderSteps(reached) && reached(s) && Quiet(s) && NobodyBlocks(s) && id !in s.proposals
    ensures reached(n) && n == WithProposal(s, id, Claiming(section, body).(status := Committing)) && Quiet(n)
    ensures WellClaimed(n.proposals[id])
  {
    ClaimingIsWell(section, body, {});
    n := FiledAndEntered(reached, s, id, Claiming(section, body));
  }

  /** The whole absorb of a committing proposal up to its commit. */
  lemma {:induction false} AbsorbedNext(reached: State -> bool, s: State, id: string) returns (n: State)
    requires ClosedUnderSteps(reached) && reached(s) && Quiet(s) && InStatus(s, id, Committing) && WellClaimed(s.proposals[id]) && !s.proposals[id].landed
    ensures reached(n) && n.history == s.history + [Commit(id, n.work)]
    ensures n.work == Landing(s.proposals[id], false, s.work)
    ensures n.proposals.Keys == s.proposals.Keys && forall other <- s.proposals | other != id :: n.proposals[other] == s.proposals[other]
    ensures n.proposals[id].writes == s.proposals[id].writes
  {
    var s1 := Begun(reached, s, id);
    n := LandedNext(reached, s1, id);
    assert Landing(s1.proposals[id], false, s.work) == Landing(s.proposals[id], false, s.work);
  }

  /** `a` was stopped in its absorb, the rollback failed, and it went back to its owner. */
  lemma {:induction false} TornBy(reached: State -> bool, mine: Section, a: string) returns (torn: State)
    requires ClosedUnderSteps(reached)
    ensures reached(torn) && torn == Empty().(work := torn.work, proposals := torn.proposals)
    ensures mine in torn.work && torn.proposals.Keys == {a} && torn.proposals[a].status.Draft?
  {
    ClaimingIsWell(mine, "half", {});
    var a1 := FiledAndEntered(reached, Empty(), a, Claiming(mine, "half"));
    var a2 := Begun(reached, a1, a);
    var a3 := Written(reached, a2, a, mine);
    var a4 := LeftTorn(reached, a3, a);
    torn := TakenBack(reached, a4, a);
  }

  /** In `s` nothing is committing and the tree is torn; in `n` HEAD has `section`, which only a draft writes. */
  ghost predicate RemainsOf(section: Section, s: State, n: State) {
    && s.history != [] && n.history != [] && TornIdle(s)
    && |n.history| == |s.history| + 1 && section !in Head(s) && section in Head(n)
    && forall id <- n.proposals | section in n.proposals[id].writes :: n.proposals[id].status.Draft?
  }

  lemma {:induction false} SweptUp(reached: State -> bool, torn: State, mine: Section, theirs: Section, a: string, b: string) returns (n: State)
    requires ClosedUnderSteps(reached) && reached(torn) && mine != theirs && a != b
    requires torn == Empty().(work := torn.work, proposals := torn.proposals)
    requires mine in torn.work && torn.proposals.Keys == {a} && torn.proposals[a].status.Draft?
    ensures reached(n) && RemainsOf(mine, torn, n)
  {
    var s := Claimed(reached, torn, b, theirs, "done");
    n := AbsorbedNext(reached, s, b);
    assert mine in n.work;
  }

  /**
   * A rollback that fails while the server runs leaves the tree torn with nothing committing; the absorb of another
   * proposal then commits what was left, although no published proposal wrote it.
   */
  lemma {:induction false} RemainsAreCommittedByTheNextAbsorb(mine: Section, theirs: Section, a: string, b: string)
    requires mine != theirs && a != b
    ensures exists s, n :: Reachable(s) && Reachable(n) && RemainsOf(mine, s, n)
  {
    ReachableIsClosed();
    var torn := TornBy(s => Reachable(s), mine, a);
    var n := SweptUp(s => Reachable(s), torn, mine, theirs, a, b);
    assert Reachable(torn) && Reachable(n);
  }

  /** `id` publishes `body` for `section` with nobody else about. */
  lemma {:induction false} PublishedOver(reached: State -> bool, s: State, id: string, section: Section, body: string) returns (n: State)
    requires ClosedUnderSteps(reached) && reached(s) && Quiet(s) && NobodyBlocks(s) && id !in s.proposals
    ensures reached(n) && Quiet(n) && n.history == s.history + [Commit(id, n.work)]
    ensures section in n.work && n.work[section] == body
    ensures n.proposals.Keys == s.proposals.Keys + {id} && InStatus(n, id, Committed)
    ensures forall other <- s.proposals :: n.proposals[other] == s.proposals[other]
  {
    var s1 := Claimed(reached, s, id, section, body);
    var s2 := Recorded(reached, s1, id);
    assert section in s1.proposals[id].writes;
    n := Renamed(reached, s2, id);
  }

  /** `a` has gone back to its owner with a recorded commit. */
  lemma {:induction false} BackWithItsCommit(reached: State -> bool, section: Section, a: string) returns (n: State)
    requires ClosedUnderSteps(reached)
    ensures reached(n) && Quiet(n) && |n.history| == 2 && n.work == Head(n) && n.proposals.Keys == {a}
    ensures n.proposals[a] == Claiming(section, "mine").(committedHead := Some(1), keeps := n.proposals[a].keeps)
  {
    ClaimingIsWell(section, "mine", {});
    var a1 := FiledAndEntered(reached, Empty(), a, Claiming(section, "mine"));
    var a2 := Recorded(reached, a1, a);
    n := TakenBack(reached, a2, a);
  }

  /** After which `b` has put other text in its place. */
  lemma {:induction false} Overwritten(reached: State -> bool, section: Section, a: string, b: string) returns (n: State)
    requires ClosedUnderSteps(reached) && a != b
    ensures reached(n) && Quiet(n) && n.history != [] && n.work == Head(n) && section in n.work && n.work[section] == "theirs"
    ensures n.proposals.Keys == {a, b} && InStatus(n, b, Committed)
    ensures n.proposals[a] == Claiming(section, "mine").(committedHead := Some(1), keeps := n.proposals[a].keeps)
  {
    var s := BackWithItsCommit(reached, section, a);
    n := PublishedOver(reached, s, b, section, "theirs");
  }

  /** `a` enters once more and stops in the middle of its absorb. */
  lemma {:induction false} StoppedAgain(reached: State -> bool, s: State, section: Section, a: string) returns (n: State)
    requires ClosedUnderSteps(reached) && reached(s) && Quiet(s) && a in s.proposals
    requires forall id <- s.proposals | id != a :: !Blocking(s.proposals[id].status)
    requires s.proposals[a] == Claiming(section, "mine").(committedHead := Some(1), keeps := s.proposals[a].keeps)
    ensures reached(n) && n.history == s.history && section in n.work && n.work[section] == "mine"
    ensures n.proposals.Keys == s.proposals.Keys && forall id <- s.proposals | id != a :: n.proposals[id] == s.proposals[id]
    ensures InStatus(n, a, Committing) && n.proposals[a].committedHead.Some? && n.proposals[a].writes == s.proposals[a].writes
  {
    ClaimingIsWell(section, "mine", s.proposals[a].keeps);
    var s1 := Entered(reached, s, a);
    var s2 := Begun(reached, s1, a);
    n := Written(reached, s2, a, section);
  }

  /**
   * The rename after a recorded commit fails and the proposal goes back to its owner, the commit still in its meta
   * file. Somebody else then publishes over the section. When the proposal is entered again and the process stops in
   * the middle of its absorb, recovery finalizes it by the old commit: it is committed, HEAD has the other text and
   * the tree is torn with nothing committing.
   */
  lemma {:induction false} AnOldCommitFinalizesWithoutLanding(section: Section, a: string, b: string)
    requires a != b
    ensures exists s :: Reachable(s) && InStatus(s, a, Committed) && !Carries(s.proposals[a], Head(s)) && TornIdle(s)
  {
    ReachableIsClosed();
    var s := FinalizedByOldCommit(s => Reachable(s), section, a, b);
    assert Reachable(s);
  }

  lemma {:induction false} FinalizedByOldCommit(reached: State -> bool, section: Section, a: string, b: string) returns (n: State)
    requires ClosedUnderSteps(reached) && a != b
    ensures reached(n) && n.history != [] && InStatus(n, a, Committed) && !Carries(n.proposals[a], Head(n)) && TornIdle(n)
  {
    var s := Overwritten(reached, section, a, b);
    var stopped := StoppedAgain(reached, s, section, a);
    n := FinalizedAfterCrash(reached, stopped, a);
    assert section in n.proposals[a].writes && Head(n)[section] == "theirs" && n.work[section] == "mine";
  }
}
