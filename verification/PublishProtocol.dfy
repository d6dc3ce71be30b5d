/** The proposal life cycle around a canonical commit, with a crash between any two steps, also while recovering. */
module PublishProtocol {
  import opened Basics
  import opened ProposalLocks

  // Canonical content is the map from section to body. How one absorb gets from one tree to the next, file by file,
  // is the subject of CanonicalAbsorb; here a working tree in the middle of an absorb holds any mixture of the
  // sections before and after it.

  datatype Section = Section(doc: string, headingPath: seq<string>)

  type Content = map<Section, string>

  /** `keeps` are the sections the staged skeletons of document-targeted documents declare. */
  datatype Proposal = Proposal(
    status: Status,
    human: bool,
    targets: seq<Target>,
    writes: Content,
    deletes: set<Section>,
    keeps: set<Section>,
    committedHead: Option<nat>,   // the enriched meta file: index of the landed commit
    landed: bool)                 // history only: a commit has landed since `committing` was entered

  datatype Commit = Commit(proposalId: string, tree: Content)

  datatype Lane = Lane(id: string, wholesale: bool)

  /** What an entry check saw of a proposal; acquiring locks writes the meta file back as it was read. */
  datatype EntryCheck = EntryCheck(targets: seq<Target>, deletes: set<Section>)

  datatype State = State(
    proposals: map<string, Proposal>,
    history: seq<Commit>,
    work: Content,
    lane: Option<Lane>,                    // the absorb holding exclusive use of the index
    receipts: map<string, nat>,            // commits whose absorb has returned but whose meta is not yet enriched
    entryChecks: map<string, EntryCheck>,  // lock checks passed, the rename still to come
    claimChecks: map<string, seq<Target>>, // lock checks passed for a live edit, its claim still to be written
    recovering: bool)

  datatype Event =
    | Create(id: string, proposal: Proposal)
    | Edit(id: string, targets: seq<Target>, writes: Content, deletes: set<Section>, keeps: set<Section>)
    | CheckEntry(id: string)
    | CheckClaim(id: string, targets: seq<Target>)
    | Abandon(id: string)
    | Acquire(id: string)
    | Withdraw(id: string)
    | Demote(id: string)
    | Enter(id: string)
    | Begin(id: string, wholesale: bool)
    | Write(id: string, sections: set<Section>)
    | Land(id: string)
    | Mark(id: string)
    | Rename(id: string)
    | Revert(id: string)
    | RevertFails(id: string, restored: set<Section>)
    | TakeBack(id: string, agent: bool)
    | Crash
    | Discard(id: string)
    | Finalize(id: string)
    | Resume

  // ----- landing a proposal

  function TargetOf(section: Section): Target {
    SectionTarget(section.doc, section.headingPath)
  }

  predicate Claims(targets: seq<Target>, section: Section) {
    exists t <- targets :: Overlaps(t, TargetOf(section))
  }

  predicate WholeDocument(p: Proposal, section: Section) {
    DocumentTarget(section.doc) in p.targets
  }

  predicate HasDocumentTarget(p: Proposal) {
    exists t <- p.targets :: t.DocumentTarget?
  }

  /** The claim check: everything the overlay changes is claimed. */
  predicate WellClaimed(p: Proposal) {
    forall section <- p.writes.Keys + p.deletes :: Claims(p.targets, section)
  }

  predicate Survives(p: Proposal, wholesale: bool, tree: Content, section: Section) {
    && section in tree
    && section !in p.deletes
    && (wholesale && WholeDocument(p, section) ==> section in p.keeps)
  }

  /**
   * Merge mode overlays the proposal on canonical; wholesale mode also drops the sections of document-targeted
   * documents that the staged skeleton does not declare.
   */
  function Landing(p: Proposal, wholesale: bool, tree: Content): Content {
    map section | section in p.writes.Keys + tree.Keys && (section in p.writes || Survives(p, wholesale, tree, section))
      :: if section in p.writes then p.writes[section] else tree[section]
  }

  predicate Carries(p: Proposal, tree: Content) {
    && (forall section <- p.writes :: section in tree && tree[section] == p.writes[section])
    && (forall section <- p.deletes - p.writes.Keys :: section !in tree)
  }

  predicate Same(a: Content, b: Content, section: Section) {
    (section in a <==> section in b) && (section in a ==> a[section] == b[section])
  }

  /** The working tree after some of an absorb's single-file steps. */
  function Mixture(before: Content, after: Content, done: set<Section>): Content {
    map section | section in before.Keys + after.Keys && (if section in done then section in after else section in before)
      :: if section in done then after[section] else before[section]
  }

  // ----- the machine

  function Head(s: State): Content
    requires s.history != []
  {
    s.history[|s.history| - 1].tree
  }

  predicate InStatus(s: State, id: string, status: Status) {
    id in s.proposals && s.proposals[id].status == status
  }

  predicate HoldsLane(s: State, id: string) {
    s.lane.Some? && s.lane.value.id == id
  }

  /** No other blocking proposal holds a claim over any of `targets`: what a lock check establishes when it is made. */
  predicate LocksFree(s: State, id: string, targets: seq<Target>) {
    forall other <- s.proposals | other != id && Blocking(s.proposals[other].status) ::
      Disjoint(s.proposals[other].targets, targets)
  }

  predicate Open(s: State, id: string) {
    InStatus(s, id, Draft) || InStatus(s, id, Pending) || InStatus(s, id, InProgress)
  }

  /** A human publishes from `inprogress`, anybody else from `draft`, and a transient proposal from `pending`. */
  predicate MayEnter(s: State, id: string) {
    InStatus(s, id, Pending) || (id in s.proposals && InStatus(s, id, if s.proposals[id].human then InProgress else Draft))
  }

  predicate MayAcquire(s: State, id: string) {
    InStatus(s, id, Draft) && s.proposals[id].human
  }

  /** An edit of a proposal that holds locks claims only what it holds or has had checked. */
  predicate Covered(s: State, id: string, targets: seq<Target>) {
    forall t <- targets ::
      (id in s.proposals && t in s.proposals[id].targets) || (id in s.claimChecks && t in s.claimChecks[id])
  }

  /** HEAD's sections are in the working tree as committed: the test that ends start-up, which skips untracked files. */
  predicate TrackedClean(s: State)
    requires s.history != []
  {
    forall section <- Head(s) :: section in s.work && s.work[section] == Head(s)[section]
  }

  predicate Enabled(s: State, e: Event)
    requires s.history != []
  {
    match e
    case Create(id, p) =>
      && !s.recovering && id !in s.proposals && (p.status.Draft? || p.status.Pending? || p.status.InProgress?)
      && p.committedHead.None? && !p.landed && (p.status.InProgress? ==> Covered(s, id, p.targets))
    case Edit(id, targets, _, _, _) =>
      !s.recovering && Open(s, id) && (InStatus(s, id, InProgress) ==> Covered(s, id, targets))
    case CheckEntry(id) =>
      && !s.recovering && (MayEnter(s, id) || MayAcquire(s, id))
      && s.proposals[id].targets != [] && LocksFree(s, id, s.proposals[id].targets)
    case CheckClaim(id, targets) =>
      !s.recovering && (id !in s.proposals || InStatus(s, id, InProgress)) && LocksFree(s, id, targets)
    case Abandon(id) => true
    case Acquire(id) => !s.recovering && id in s.entryChecks && MayAcquire(s, id)
    case Withdraw(id) => !s.recovering && Open(s, id)
    case Demote(id) => !s.recovering && InStatus(s, id, Pending)
    case Enter(id) => !s.recovering && id in s.entryChecks && MayEnter(s, id)
    case Begin(id, wholesale) =>
      && InStatus(s, id, Committing) && s.lane.None? && id !in s.receipts && WellClaimed(s.proposals[id])
      && (s.recovering ==> s.proposals[id].committedHead.None? && wholesale == HasDocumentTarget(s.proposals[id]))
      && (!s.recovering ==> !s.proposals[id].landed)
    case Write(id, _) => HoldsLane(s, id) && id in s.proposals
    case Land(id) => HoldsLane(s, id) && id in s.proposals
    case Mark(id) => id in s.receipts && id in s.proposals
    case Rename(id) =>
      && !s.recovering && InStatus(s, id, Committing) && id !in s.receipts
      && s.proposals[id].committedHead.Some? && s.proposals[id].landed
    case Revert(id) => HoldsLane(s, id)
    case RevertFails(id, _) => HoldsLane(s, id)
    case TakeBack(id, _) => !s.recovering && InStatus(s, id, Committing) && !HoldsLane(s, id)
    case Crash => true
    case Discard(id) => s.recovering && InStatus(s, id, Pending)
    case Finalize(id) => s.recovering && InStatus(s, id, Committing) && s.proposals[id].committedHead.Some?
    case Resume =>
      && s.recovering && s.lane.None? && TrackedClean(s)
      && forall id <- s.proposals :: !s.proposals[id].status.Committing? && !s.proposals[id].status.Pending?
  }

  function WithProposal(s: State, id: string, p: Proposal): State {
    s.(proposals := s.proposals[id := p])
  }

  function WithStatus(s: State, id: string, status: Status): State
    requires id in s.proposals
  {
    WithProposal(s, id, s.proposals[id].(status := status))
  }

  function WithoutChecks(s: State, id: string): State {
    s.(entryChecks := s.entryChecks - {id}, claimChecks := s.claimChecks - {id})
  }

  function Next(s: State, e: Event): State
    requires s.history != [] && Enabled(s, e)
  {
    match e
    case Create(id, p) => WithProposal(s, id, p).(claimChecks := s.claimChecks - {id})
    case Edit(id, targets, writes, deletes, keeps) =>
      // the meta file is written anew, without what an earlier publish may have recorded in it
      var p := s.proposals[id].(targets := targets, writes := writes, deletes := deletes, keeps := keeps, committedHead := None);
      WithProposal(s, id, p).(claimChecks := s.claimChecks - {id})
    case CheckEntry(id) =>
      s.(entryChecks := s.entryChecks[id := EntryCheck(s.proposals[id].targets, s.proposals[id].deletes)])
    case CheckClaim(id, targets) => s.(claimChecks := s.claimChecks[id := targets])
    case Abandon(id) => WithoutChecks(s, id)
    case Acquire(id) =>
      var p := s.proposals[id].(status := InProgress, targets := s.entryChecks[id].targets,
                                deletes := s.entryChecks[id].deletes, committedHead := None);
      WithoutChecks(WithProposal(s, id, p), id)
    case Withdraw(id) => WithoutChecks(WithProposal(s, id, s.proposals[id].(status := Withdrawn, committedHead := None)), id)
    case Demote(id) => WithoutChecks(WithStatus(s, id, Draft), id)
    case Enter(id) => WithoutChecks(WithStatus(s, id, Committing), id)
    case Begin(id, wholesale) =>
      // a merge first rewrites the staged skeletons to declare everything inherited from canonical
      var p := s.proposals[id];
      var keeps := if wholesale then p.keeps else p.keeps + (s.work.Keys - p.deletes);
      WithProposal(s, id, p.(keeps := keeps)).(lane := Some(Lane(id, wholesale)))
    case Write(id, sections) =>
      s.(work := Mixture(s.work, Landing(s.proposals[id], s.lane.value.wholesale, s.work), sections))
    case Land(id) =>
      var tree := Landing(s.proposals[id], s.lane.value.wholesale, s.work);
      WithProposal(s, id, s.proposals[id].(landed := true))
        .(work := tree, history := s.history + [Commit(id, tree)], lane := None, receipts := s.receipts[id := |s.history|])
    case Mark(id) =>
      WithProposal(s, id, s.proposals[id].(committedHead := Some(s.receipts[id]))).(receipts := s.receipts - {id})
    case Rename(id) => WithStatus(s, id, Committed)
    case Revert(id) => s.(lane := None, work := Head(s))
    case RevertFails(id, restored) => s.(lane := None, work := Mixture(s.work, Head(s), restored))
    case TakeBack(id, agent) =>
      var p := s.proposals[id].(status := if agent then Draft else InProgress, landed := false);
      WithProposal(s, id, p).(receipts := s.receipts - {id})
    case Crash => s.(lane := None, receipts := map[], entryChecks := map[], claimChecks := map[], recovering := true)
    case Discard(id) => s.(proposals := s.proposals - {id})
    case Finalize(id) => WithStatus(s, id, Committed)
    case Resume => s.(recovering := false)
  }

  // ----- what every run keeps

  /** Commit `k` of the history was made by `id` and carries the change `p`. */
  predicate Landed(s: State, id: string, p: Proposal, k: nat) {
    0 < k < |s.history| && s.history[k].proposalId == id && Carries(p, s.history[k].tree)
  }

  predicate ProposalInv(s: State, id: string)
    requires id in s.proposals
  {
    var p := s.proposals[id];
    && (p.committedHead.Some? ==> Landed(s, id, p, p.committedHead.value))
    && (p.status.Committed? ==> p.committedHead.Some?)
    && (p.landed ==> p.status.Committing? || p.status.Committed?)
    && (id in s.receipts ==> p.status.Committing? && p.landed && Landed(s, id, p, s.receipts[id])
                              && (s.recovering ==> p.committedHead.None?))
  }

  predicate LaneInv(s: State) {
    s.lane.Some? ==>
      var id := s.lane.value.id;
      && InStatus(s, id, Committing) && id !in s.receipts && WellClaimed(s.proposals[id])
      && (s.proposals[id].committedHead.Some? ==> !s.proposals[id].landed && !s.recovering)
      && (!s.lane.value.wholesale ==> forall section <- s.work ::
            section in s.proposals[id].keeps || section in s.proposals[id].writes || section in s.proposals[id].deletes)
  }

  predicate Inv(s: State) {
    && s.history != []
    && s.receipts.Keys <= s.proposals.Keys
    && (forall id <- s.proposals :: ProposalInv(s, id))
    && LaneInv(s)
  }

  // ----- what is torn

  /** `id` may have left the working tree different from HEAD in the sections it claims, and will still see to it. */
  predicate MayTear(s: State, id: string) {
    && InStatus(s, id, Committing) && id !in s.receipts && WellClaimed(s.proposals[id])
    && !(s.proposals[id].landed && s.proposals[id].committedHead.Some?)
    && (s.recovering || HoldsLane(s, id))
  }

  ghost predicate TreeInv(s: State)
    requires s.history != []
  {
    forall section: Section | !Same(s.work, Head(s), section) ::
      exists id :: MayTear(s, id) && Claims(s.proposals[id].targets, section)
  }

  /**
   * A step after which nobody sees to a torn tree: a rollback that fails while the server runs, or a proposal that
   * recovery finalizes by a commit recorded in an earlier attempt, before this attempt has landed.
   */
  predicate Spoils(s: State, e: Event) {
    match e
    case RevertFails(_, _) => !s.recovering
    case Finalize(id) => id in s.proposals && !s.proposals[id].landed
    case _ => false
  }

  // ----- what the locks protect

  predicate Disjoint(a: seq<Target>, b: seq<Target>) {
    forall s <- a, t <- b :: !Overlaps(s, t)
  }

  /** Mutual exclusion: no two blocking proposals claim overlapping targets. */
  predicate Exclusive(s: State) {
    forall a <- s.proposals, b <- s.proposals
      | a != b && Blocking(s.proposals[a].status) && Blocking(s.proposals[b].status) ::
        Disjoint(s.proposals[a].targets, s.proposals[b].targets)
  }

  /** What `id` claims when the rename after its entry check comes now: as checked for `inprogress`, as on disk otherwise. */
  function Entering(s: State, id: string): seq<Target>
    requires id in s.entryChecks && id in s.proposals
  {
    if MayAcquire(s, id) then s.entryChecks[id].targets else s.proposals[id].targets
  }

  /** Exclusion holds, and goes on to hold whichever checked entry or claim is completed next. */
  predicate Guarded(s: State) {
    && Exclusive(s)
    && (forall id <- s.entryChecks | MayEnter(s, id) || MayAcquire(s, id) :: LocksFree(s, id, Entering(s, id)))
    && (forall id <- s.claimChecks :: LocksFree(s, id, s.claimChecks[id]))
  }

  /** The claims a step puts under a lock that were not under one before. */
  function Gains(s: State, e: Event): seq<Target> {
    match e
    case Create(_, p) => if p.status.InProgress? then p.targets else []
    case Edit(id, targets, _, _, _) => if InStatus(s, id, InProgress) then targets else []
    case Acquire(id) => if id in s.entryChecks then s.entryChecks[id].targets else []
    case Enter(id) => if id in s.proposals && !Blocking(s.proposals[id].status) then s.proposals[id].targets else []
    case _ => []
  }

  /**
   * A step that falls between another proposal's lock check and the write the check was made for and claims part of
   * the same, or that moves a checked claim, before its rename, onto something held.
   */
  predicate Interferes(s: State, e: Event) {
    || (exists id <- s.entryChecks | (MayEnter(s, id) || MayAcquire(s, id)) && !Concerns(e, id) ::
          !Disjoint(Gains(s, e), Entering(s, id)))
    || (exists id <- s.claimChecks | !Concerns(e, id) :: !Disjoint(Gains(s, e), s.claimChecks[id]))
    || (e.Edit? && e.id in s.entryChecks && MayEnter(s, e.id) && !LocksFree(s, e.id, e.targets))
  }

  predicate Concerns(e: Event, id: string) {
    !e.Crash? && !e.Resume? && e.id == id
  }

  /** Canonical already holds the whole effect of `p`, and nothing more is pending for its sections. */
  predicate Settled(s: State, p: Proposal)
    requires s.history != []
  {
    && WellClaimed(p)
    && Carries(p, Head(s))
    && (forall section <- Head(s) | WholeDocument(p, section) :: section in p.writes || section in p.keeps)
    && (forall section <- s.work.Keys + Head(s).Keys | Claims(p.targets, section) :: Same(s.work, Head(s), section))
  }

  predicate SettledInv(s: State)
    requires s.history != []
  {
    forall id <- s.proposals | s.proposals[id].status.Committing? && s.proposals[id].landed :: Settled(s, s.proposals[id])
  }

  // ----- facts about landing

  lemma LandingOnlyTouchesClaims(p: Proposal, wholesale: bool, tree: Content, section: Section)
    requires WellClaimed(p) && !Claims(p.targets, section)
    ensures Same(tree, Landing(p, wholesale, tree), section)
  {
    assert WholeDocument(p, section) ==> Overlaps(DocumentTarget(section.doc), TargetOf(section));
  }

  lemma DisjointClaims(a: seq<Target>, b: seq<Target>, section: Section)
    requires Disjoint(a, b)
    ensures !(Claims(a, section) && Claims(b, section))
  {
  }

  /** Landing a settled proposal again changes nothing, in either mode. */
  lemma SettledLandsNothing(s: State, p: Proposal, wholesale: bool)
    requires s.history != [] && Settled(s, p)
    ensures Landing(p, wholesale, s.work) == s.work
  {
    forall section: Section
      ensures Same(Landing(p, wholesale, s.work), s.work, section)
    {
      if !Claims(p.targets, section) {
        LandingOnlyTouchesClaims(p, wholesale, s.work, section);
      }
    }
    var landed := Landing(p, wholesale, s.work);
    assert forall section <- landed :: Same(landed, s.work, section);
    assert forall section <- s.work :: Same(landed, s.work, section);
  }
}
