/**
 * Every step of the publish protocol keeps its invariants.
 *
 * A step takes one proposal, or none, somewhere else and leaves the others as they were. What has to be shown is
 * that the one it moves is still in order, that the others do not notice, and that the working tree differs from
 * HEAD only where a proposal in the middle of its absorb has a claim. None of that depends on the locks; that a
 * landed change stays where it landed does.
 */
module PublishSteps {
  import opened Basics
  import opened ProposalLocks
  import opened PublishProtocol

  // ----- what holds in every run

  lemma {:induction false} ProposalUntouched(s: State, n: State, id: string)
    requires id in s.proposals && ProposalInv(s, id)
    requires n.history == s.history && n.recovering == s.recovering
    requires id in n.proposals && n.proposals[id] == s.proposals[id]
    requires id in n.receipts ==> id in s.receipts && n.receipts[id] == s.receipts[id]
    ensures ProposalInv(n, id)
  {
  }

  /** A step that moves no history and no lane, and at most the proposal it is about. */
  predicate Local(e: Event) {
    e.Create? || e.Edit? || e.CheckEntry? || e.CheckClaim? || e.Abandon? || e.Acquire? || e.Withdraw? || e.Demote?
    || e.Enter? || e.Discard?
  }

  lemma {:induction false} LocalOthers(s: State, e: Event, other: string)
    requires s.history != [] && Enabled(s, e) && Local(e) && other != e.id
    ensures other in Next(s, e).proposals <==> other in s.proposals
    ensures other in s.proposals ==> Next(s, e).proposals[other] == s.proposals[other]
  {
  }

  lemma {:induction false} LocalItself(s: State, e: Event)
    requires Inv(s) && Enabled(s, e) && Local(e)
    ensures e.id in Next(s, e).proposals ==> ProposalInv(Next(s, e), e.id)
  {
    if e.Create? || e.Edit? {
      RewrittenItself(s, e);
    } else if e.id in s.proposals {
      assert ProposalInv(s, e.id);
    }
  }

  lemma {:induction false} RewrittenItself(s: State, e: Event)
    requires Inv(s) && Enabled(s, e) && (e.Create? || e.Edit?)
    ensures ProposalInv(Next(s, e), e.id)
  {
    if e.Edit? { assert ProposalInv(s, e.id); }
  }

  /** A committing proposal is not the subject of such a step, or not changed by it. */
  lemma {:induction false} LocalSparesAbsorbs(s: State, e: Event)
    requires Inv(s) && Enabled(s, e) && Local(e) && (HoldsLane(s, e.id) || e.id in s.receipts)
    ensures Next(s, e).proposals == s.proposals
  {
    assert ProposalInv(s, e.id);
  }

  lemma {:induction false} LocalFrame(s: State, e: Event)
    requires s.history != [] && Enabled(s, e) && Local(e)
    ensures var n := Next(s, e);
      n.history == s.history && n.lane == s.lane && n.receipts == s.receipts && n.work == s.work && n.recovering == s.recovering
  {
  }

  lemma {:induction false} LocalStep(s: State, e: Event)
    requires Inv(s) && Enabled(s, e) && Local(e)
    ensures Inv(Next(s, e))
  {
    var n := Next(s, e);
    LocalFrame(s, e);
    LocalItself(s, e);
    forall other <- n.proposals | other != e.id ensures ProposalInv(n, other) {
      LocalOthers(s, e, other);
      ProposalUntouched(s, n, other);
    }
    if HoldsLane(s, e.id) || e.id in s.receipts { LocalSparesAbsorbs(s, e); }
    if s.lane.Some? && s.lane.value.id != e.id { LocalOthers(s, e, s.lane.value.id); }
    forall id <- n.receipts ensures id in n.proposals {
      if id != e.id { LocalOthers(s, e, id); }
    }
  }

  lemma {:induction false} BeginStep(s: State, id: string, wholesale: bool)
    requires Inv(s) && Enabled(s, Begin(id, wholesale))
    ensures Inv(Next(s, Begin(id, wholesale)))
  {
    forall other <- s.proposals ensures ProposalInv(Next(s, Begin(id, wholesale)), other) { assert ProposalInv(s, other); }
  }

  lemma {:induction false} WriteStep(s: State, id: string, sections: set<Section>)
    requires Inv(s) && Enabled(s, Write(id, sections))
    ensures Inv(Next(s, Write(id, sections)))
  {
    forall other <- s.proposals ensures ProposalInv(Next(s, Write(id, sections)), other) { assert ProposalInv(s, other); }
  }

  lemma {:induction false} LandStep(s: State, id: string)
    requires Inv(s) && Enabled(s, Land(id))
    ensures Inv(Next(s, Land(id)))
  {
    var n := Next(s, Land(id));
    LandedItself(s, id);
    forall other <- n.proposals | other != id ensures ProposalInv(n, other) {
      assert forall k | 0 <= k < |s.history| :: n.history[k] == s.history[k];
      assert ProposalInv(s, other);
    }
  }

  lemma {:induction false} LandedItself(s: State, id: string)
    requires Inv(s) && Enabled(s, Land(id))
    ensures ProposalInv(Next(s, Land(id)), id)
  {
    var n := Next(s, Land(id));
    assert n.history[|s.history|] == Commit(id, Landing(s.proposals[id], s.lane.value.wholesale, s.work));
    assert forall k | 0 <= k < |s.history| :: n.history[k] == s.history[k];
    assert ProposalInv(s, id);
  }

  lemma {:induction false} MarkStep(s: State, id: string)
    requires Inv(s) && Enabled(s, Mark(id))
    ensures Inv(Next(s, Mark(id)))
  {
    var n := Next(s, Mark(id));
    assert ProposalInv(s, id);
    forall other <- n.proposals | other != id ensures ProposalInv(n, other) { ProposalUntouched(s, n, other); }
  }

  /** Steps after which a proposal is no longer committing. */
  lemma {:induction false} LeaveStep(s: State, e: Event)
    requires Inv(s) && Enabled(s, e) && (e.Rename? || e.Finalize? || e.TakeBack?)
    ensures Inv(Next(s, e))
  {
    var n := Next(s, e);
    assert ProposalInv(s, e.id);
    forall other <- n.proposals | other != e.id ensures ProposalInv(n, other) { ProposalUntouched(s, n, other); }
  }

  lemma {:induction false} RestStep(s: State, e: Event)
    requires Inv(s) && Enabled(s, e) && (e.Revert? || e.RevertFails? || e.Crash? || e.Resume?)
    ensures Inv(Next(s, e))
  {
    forall other <- s.proposals ensures ProposalInv(Next(s, e), other) { assert ProposalInv(s, other); }
  }

  lemma {:induction false} StepKeepsInv(s: State, e: Event)
    requires Inv(s) && Enabled(s, e)
    ensures Inv(Next(s, e))
  {
    match e
    case Begin(id, wholesale) => BeginStep(s, id, wholesale);
    case Write(id, sections) => WriteStep(s, id, sections);
    case Land(id) => LandStep(s, id);
    case Mark(id) => MarkStep(s, id);
    case Rename(_) => LeaveStep(s, e);
    case Finalize(_) => LeaveStep(s, e);
    case TakeBack(_, _) => LeaveStep(s, e);
    case Revert(_) => RestStep(s, e);
    case RevertFails(_, _) => RestStep(s, e);
    case Crash => RestStep(s, e);
    case Resume => RestStep(s, e);
    case _ => LocalStep(s, e);
  }

  // ----- the working tree

  /** A step that leaves both trees alone and every possibly torn proposal in place keeps the trees accounted for. */
  lemma {:induction false} TreesUntouched(s: State, n: State)
    requires s.history != [] && TreeInv(s)
    requires n.work == s.work && n.history == s.history
    requires forall id | MayTear(s, id) :: MayTear(n, id) && n.proposals[id].targets == s.proposals[id].targets
    ensures TreeInv(n)
  {
    forall section: Section | !Same(n.work, Head(n), section)
      ensures exists id :: MayTear(n, id) && Claims(n.proposals[id].targets, section)
    {
      assert !Same(s.work, Head(s), section);
      var id :| MayTear(s, id) && Claims(s.proposals[id].targets, section);
      assert MayTear(n, id);
    }
  }

  lemma {:induction false} LocalKeepsTree(s: State, e: Event)
    requires Inv(s) && TreeInv(s) && Enabled(s, e) && Local(e)
    ensures TreeInv(Next(s, e))
  {
    var n := Next(s, e);
    forall id | MayTear(s, id)
      ensures MayTear(n, id) && n.proposals[id].targets == s.proposals[id].targets
    {
      if id != e.id { LocalOthers(s, e, id); }
    }
    TreesUntouched(s, n);
  }

  lemma {:induction false} WriteKeepsTree(s: State, id: string, sections: set<Section>)
    requires Inv(s) && TreeInv(s) && Enabled(s, Write(id, sections))
    ensures TreeInv(Next(s, Write(id, sections)))
  {
    var n := Next(s, Write(id, sections));
    forall section: Section | !Same(n.work, Head(n), section)
      ensures exists other :: MayTear(n, other) && Claims(n.proposals[other].targets, section)
    {
      if Claims(s.proposals[id].targets, section) {
        assert MayTear(n, id);
      } else {
        LandingOnlyTouchesClaims(s.proposals[id], s.lane.value.wholesale, s.work, section);
        assert !Same(s.work, Head(s), section);
        var other :| MayTear(s, other) && Claims(s.proposals[other].targets, section);
        assert MayTear(n, other);
      }
    }
  }

  /** A rollback that fails while recovering leaves a tree its proposal will be run on again. */
  lemma {:induction false} RevertFailsKeepsTree(s: State, id: string, restored: set<Section>)
    requires Inv(s) && TreeInv(s) && Enabled(s, RevertFails(id, restored)) && s.recovering
    ensures TreeInv(Next(s, RevertFails(id, restored)))
  {
    var n := Next(s, RevertFails(id, restored));
    forall section: Section | !Same(n.work, Head(n), section)
      ensures exists other :: MayTear(n, other) && Claims(n.proposals[other].targets, section)
    {
      assert !Same(s.work, Head(s), section);
      var other :| MayTear(s, other) && Claims(s.proposals[other].targets, section);
      assert MayTear(n, other);
    }
  }

  /** Whoever leaves `committing` has nothing torn, unless it is finalized without having landed. */
  lemma {:induction false} LeaveKeepsTree(s: State, e: Event)
    requires Inv(s) && TreeInv(s) && Enabled(s, e) && (e.Rename? || e.Finalize? || e.TakeBack?) && !Spoils(s, e)
    ensures TreeInv(Next(s, e))
  {
    LeavesNothing(s, e);
    TreesStand(s, e);
    forall id | MayTear(s, id)
      ensures MayTear(Next(s, e), id) && Next(s, e).proposals[id].targets == s.proposals[id].targets
    {
      assert id != e.id;
    }
    TreesUntouched(s, Next(s, e));
  }

  lemma {:induction false} LeavesNothing(s: State, e: Event)
    requires Inv(s) && Enabled(s, e) && (e.Rename? || e.Finalize? || e.TakeBack?) && !Spoils(s, e)
    ensures !MayTear(s, e.id)
  {
    assert ProposalInv(s, e.id);
  }

  lemma {:induction false} MarkKeepsTree(s: State, id: string)
    requires Inv(s) && TreeInv(s) && Enabled(s, Mark(id))
    ensures TreeInv(Next(s, Mark(id)))
  {
    assert ProposalInv(s, id);
    TreesUntouched(s, Next(s, Mark(id)));
  }

  lemma {:induction false} RestKeepsTree(s: State, e: Event)
    requires Inv(s) && TreeInv(s) && Enabled(s, e) && (e.Begin? || e.Crash? || e.Resume?)
    ensures TreeInv(Next(s, e))
  {
    if e.Resume? { assert forall id :: !MayTear(s, id); }
    TreesUntouched(s, Next(s, e));
  }

  lemma {:induction false} CleanKeepsTree(s: State, e: Event)
    requires Inv(s) && Enabled(s, e) && (e.Land? || e.Revert?)
    ensures TreeInv(Next(s, e))
  {
    assert Next(s, e).work == Head(Next(s, e));
  }

  lemma {:induction false} StepKeepsTree(s: State, e: Event)
    requires Inv(s) && TreeInv(s) && Enabled(s, e) && !Spoils(s, e)
    ensures TreeInv(Next(s, e))
  {
    if Local(e) {
      LocalKeepsTree(s, e);
    } else if e.Write? {
      WriteKeepsTree(s, e.id, e.sections);
    } else if e.Land? || e.Revert? {
      CleanKeepsTree(s, e);
    } else if e.Mark? {
      MarkKeepsTree(s, e.id);
    } else if e.RevertFails? {
      RevertFailsKeepsTree(s, e.id, e.restored);
    } else if e.Begin? || e.Crash? || e.Resume? {
      RestKeepsTree(s, e);
    } else {
      LeaveKeepsTree(s, e);
    }
  }

  // ----- settled proposals

  lemma {:induction false} SameCarries(p: Proposal, before: Content, after: Content)
    requires Carries(p, before)
    requires forall section <- p.writes.Keys + p.deletes :: Same(after, before, section)
    ensures Carries(p, after)
  {
    forall section <- p.writes
      ensures section in after && after[section] == p.writes[section]
    {
      assert section in p.writes.Keys + p.deletes;
      assert Same(after, before, section);
    }
    forall section <- p.deletes - p.writes.Keys
      ensures section !in after
    {
      assert section in p.writes.Keys + p.deletes;
      assert Same(after, before, section);
    }
  }

  /** Where neither tree changes inside the claims of a settled proposal, it stays settled. */
  lemma {:induction false} StaysSettled(s: State, n: State, q: Proposal)
    requires s.history != [] && n.history != [] && Settled(s, q)
    requires forall section | Claims(q.targets, section) :: Same(Head(n), Head(s), section) && Same(n.work, Head(n), section)
    ensures Settled(n, q)
  {
    forall section <- q.writes.Keys + q.deletes ensures Same(Head(n), Head(s), section) {
      assert Claims(q.targets, section);
    }
    SameCarries(q, Head(s), Head(n));
    forall section <- Head(n) | WholeDocument(q, section)
      ensures section in q.writes || section in q.keeps
    {
      assert Overlaps(DocumentTarget(section.doc), TargetOf(section));
      assert Claims(q.targets, section);
    }
  }

  /** In the claims of a settled proposal the working tree is HEAD's, sections absent from both included. */
  lemma {:induction false} SettledAgrees(s: State, q: Proposal, section: Section)
    requires s.history != [] && Settled(s, q) && Claims(q.targets, section)
    ensures Same(s.work, Head(s), section)
  {
  }

  lemma {:induction false} RewriteKeepsSettled(s: State, id: string, sections: set<Section>)
    requires Inv(s) && SettledInv(s) && Enabled(s, Write(id, sections)) && s.proposals[id].landed
    ensures Next(s, Write(id, sections)) == s
  {
    SettledLandsNothing(s, s.proposals[id], s.lane.value.wholesale);
    assert Mixture(s.work, s.work, sections) == s.work;
  }

  lemma {:induction false} WriteKeepsSettled(s: State, id: string, sections: set<Section>, other: string)
    requires Inv(s) && Exclusive(s) && Enabled(s, Write(id, sections)) && other != id
    requires InStatus(s, other, Committing) && Settled(s, s.proposals[other])
    ensures Settled(Next(s, Write(id, sections)), s.proposals[other])
  {
    var n := Next(s, Write(id, sections));
    var p, q := s.proposals[id], s.proposals[other];
    forall section | Claims(q.targets, section)
      ensures Same(n.work, Head(n), section)
    {
      SettledAgrees(s, q, section);
      DisjointClaims(p.targets, q.targets, section);
      LandingOnlyTouchesClaims(p, s.lane.value.wholesale, s.work, section);
    }
    StaysSettled(s, n, q);
  }

  /** The commit of one proposal leaves the settled sections of every other blocking proposal alone. */
  lemma {:induction false} LandKeepsSettled(s: State, id: string, other: string)
    requires Inv(s) && Exclusive(s) && Enabled(s, Land(id)) && other != id
    requires InStatus(s, other, Committing) && Settled(s, s.proposals[other])
    ensures Settled(Next(s, Land(id)), s.proposals[other])
  {
    var n := Next(s, Land(id));
    var p, q := s.proposals[id], s.proposals[other];
    assert Head(n) == n.work == Landing(p, s.lane.value.wholesale, s.work);
    forall section | Claims(q.targets, section)
      ensures Same(Head(n), Head(s), section)
    {
      DisjointClaims(p.targets, q.targets, section);
      LandingOnlyTouchesClaims(p, s.lane.value.wholesale, s.work, section);
      SettledAgrees(s, q, section);
    }
    StaysSettled(s, n, q);
  }

  lemma {:induction false} LandingSettles(s: State, id: string)
    requires Inv(s) && Enabled(s, Land(id))
    ensures Settled(Next(s, Land(id)), Next(s, Land(id)).proposals[id])
  {
    var n := Next(s, Land(id));
    assert Head(n) == n.work == Landing(s.proposals[id], s.lane.value.wholesale, s.work);
  }

  lemma {:induction false} RevertKeepsSettled(s: State, e: Event, q: Proposal)
    requires s.history != [] && Enabled(s, e) && (e.Revert? || e.RevertFails?) && Settled(s, q)
    ensures Settled(Next(s, e), q)
  {
    forall section | Claims(q.targets, section) ensures Same(Next(s, e).work, Head(s), section) {
      SettledAgrees(s, q, section);
    }
    StaysSettled(s, Next(s, e), q);
  }

  lemma {:induction false} StepKeepsSettled(s: State, e: Event)
    requires Inv(s) && Exclusive(s) && SettledInv(s) && Enabled(s, e)
    ensures SettledInv(Next(s, e))
  {
    var n := Next(s, e);
    forall id <- n.proposals | n.proposals[id].status.Committing? && n.proposals[id].landed
      ensures Settled(n, n.proposals[id])
    {
      if e.Land? && e.id == id { LandingSettles(s, id); } else { OthersStaySettled(s, e, id); }
    }
  }

  lemma {:induction false} OthersStaySettled(s: State, e: Event, id: string)
    requires Inv(s) && Exclusive(s) && SettledInv(s) && Enabled(s, e) && !(e.Land? && e.id == id)
    requires InStatus(Next(s, e), id, Committing) && Next(s, e).proposals[id].landed
    ensures Settled(Next(s, e), Next(s, e).proposals[id])
  {
    WasLanded(s, e, id);
    assert Settled(s, s.proposals[id]);
    if e.Write? || e.Land? {
      AbsorbKeepsSettled(s, e, id);
    } else if e.Revert? || e.RevertFails? {
      RevertKeepsSettled(s, e, s.proposals[id]);
    } else {
      TreesStand(s, e);
      SettledLater(s, Next(s, e), s.proposals[id], Next(s, e).proposals[id]);
    }
  }

  lemma {:induction false} AbsorbKeepsSettled(s: State, e: Event, id: string)
    requires Inv(s) && Exclusive(s) && SettledInv(s) && Enabled(s, e) && (e.Write? || (e.Land? && e.id != id))
    requires InStatus(s, id, Committing) && s.proposals[id].landed
    ensures Settled(Next(s, e), Next(s, e).proposals[id])
  {
    if e.Land? {
      LandKeepsSettled(s, e.id, id);
    } else if e.id == id {
      RewriteKeepsSettled(s, id, e.sections);
    } else {
      WriteKeepsSettled(s, e.id, e.sections, id);
    }
  }

  lemma {:induction false} TreesStand(s: State, e: Event)
    requires s.history != [] && Enabled(s, e) && !e.Write? && !e.Land? && !e.Revert? && !e.RevertFails?
    ensures Next(s, e).history == s.history && Next(s, e).work == s.work
  {
  }

  lemma {:induction false} SettledLater(s: State, n: State, p: Proposal, q: Proposal)
    requires s.history != [] && Settled(s, p) && n.history == s.history && n.work == s.work
    requires q.targets == p.targets && q.writes == p.writes && q.deletes == p.deletes
    requires forall section <- p.keeps :: section in q.keeps
    ensures Settled(n, q)
  {
  }

  /** Only the commit itself makes a proposal landed; keeping more sections or recording the commit changes nothing else. */
  lemma {:induction false} WasLanded(s: State, e: Event, id: string)
    requires Inv(s) && Enabled(s, e) && !(e.Land? && e.id == id)
    requires InStatus(Next(s, e), id, Committing) && Next(s, e).proposals[id].landed
    ensures InStatus(s, id, Committing) && s.proposals[id].landed
    ensures var p, q := s.proposals[id], Next(s, e).proposals[id];
      q.targets == p.targets && q.writes == p.writes && q.deletes == p.deletes && (e.Begin? || q.keeps == p.keeps)
      && forall section <- p.keeps :: section in q.keeps
  {
    if Local(e) && id != e.id { LocalOthers(s, e, id); }
    if id in s.proposals { assert ProposalInv(s, id); }
  }
}
