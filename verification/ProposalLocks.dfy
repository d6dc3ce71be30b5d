/** Exclusive claims: a proposal in a blocking status locks its targets against every other proposal. */
module ProposalLocks {
  import opened Basics

  datatype Status = Draft | Pending | InProgress | Committing | Committed | Withdrawn

  /** Heading paths are the trimmed segments of a section reference. */
  datatype Target = DocumentTarget(doc: string) | SectionTarget(doc: string, headingPath: seq<string>)

  datatype Claimant = Claimant(id: string, status: Status, targets: seq<Target>)

  datatype Holder = Holder(blockingId: string, blockingStatus: Status)

  datatype Conflict = Conflict(target: Target, holder: Holder)

  datatype LockResult = LockResult(acquired: bool, conflicts: seq<Conflict>)

  predicate Blocking(status: Status) {
    status.InProgress? || status.Committing?
  }

  /** Two targets cannot be held at once: the same section, or one document that covers the other target. */
  predicate Overlaps(a: Target, b: Target) {
    a.doc == b.doc && (a.DocumentTarget? || b.DocumentTarget? || a.headingPath == b.headingPath)
  }

  predicate ClaimsOver(claimant: Claimant, target: Target) {
    exists t <- claimant.targets :: Overlaps(t, target)
  }

  predicate HasTarget(claimant: Claimant, target: Target) {
    target in claimant.targets
  }

  predicate HasSectionUnder(claimant: Claimant, doc: string) {
    exists t <- claimant.targets :: t.SectionTarget? && t.doc == doc
  }

  /** The first claimant holding exactly this target. */
  function FirstWith(claimants: seq<Claimant>, target: Target): Option<Holder> {
    if claimants == [] then None
    else if HasTarget(claimants[0], target) then Some(Holder(claimants[0].id, claimants[0].status))
    else FirstWith(claimants[1..], target)
  }

  function FirstUnder(claimants: seq<Claimant>, doc: string): Option<Holder> {
    if claimants == [] then None
    else if HasSectionUnder(claimants[0], doc) then Some(Holder(claimants[0].id, claimants[0].status))
    else FirstUnder(claimants[1..], doc)
  }

  lemma {:induction false} FirstWithLast(claimants: seq<Claimant>, last: Claimant, target: Target)
    ensures FirstWith(claimants + [last], target)
         == if FirstWith(claimants, target).Some? then FirstWith(claimants, target)
            else if HasTarget(last, target) then Some(Holder(last.id, last.status)) else None
  {
    if claimants == [] {
      assert [last][1..] == [];
      assert claimants + [last] == [last];
    } else {
      assert (claimants + [last])[1..] == claimants[1..] + [last];
      FirstWithLast(claimants[1..], last, target);
    }
  }

  lemma {:induction false} FirstUnderLast(claimants: seq<Claimant>, last: Claimant, doc: string)
    ensures FirstUnder(claimants + [last], doc)
         == if FirstUnder(claimants, doc).Some? then FirstUnder(claimants, doc)
            else if HasSectionUnder(last, doc) then Some(Holder(last.id, last.status)) else None
  {
    if claimants == [] {
      assert [last][1..] == [];
      assert claimants + [last] == [last];
    } else {
      assert (claimants + [last])[1..] == claimants[1..] + [last];
      FirstUnderLast(claimants[1..], last, doc);
    }
  }

  /** What the index answers for one target. */
  function FirstHolder(claimants: seq<Claimant>, target: Target): Option<Holder> {
    match target
    case DocumentTarget(doc) =>
      var direct := FirstWith(claimants, target);
      if direct.Some? then direct else FirstUnder(claimants, doc)
    case SectionTarget(doc, _) =>
      var direct := FirstWith(claimants, target);
      if direct.Some? then direct else FirstWith(claimants, DocumentTarget(doc))
  }

  ghost predicate HeldBy(claimants: seq<Claimant>, target: Target, holder: Holder) {
    exists c <- claimants :: ClaimsOver(c, target) && holder == Holder(c.id, c.status)
  }

  lemma {:induction false} FirstWithIsScan(claimants: seq<Claimant>, target: Target)
    ensures FirstWith(claimants, target).None? <==> forall c <- claimants :: !HasTarget(c, target)
    ensures FirstWith(claimants, target).Some? ==>
              exists c <- claimants :: HasTarget(c, target) && FirstWith(claimants, target).value == Holder(c.id, c.status)
  {
    if claimants != [] {
      FirstWithIsScan(claimants[1..], target);
      assert forall c :: c in claimants <==> c == claimants[0] || c in claimants[1..];
    }
  }

  lemma {:induction false} FirstUnderIsScan(claimants: seq<Claimant>, doc: string)
    ensures FirstUnder(claimants, doc).None? <==> forall c <- claimants :: !HasSectionUnder(c, doc)
    ensures FirstUnder(claimants, doc).Some? ==>
              exists c <- claimants :: HasSectionUnder(c, doc) && FirstUnder(claimants, doc).value == Holder(c.id, c.status)
  {
    if claimants != [] {
      FirstUnderIsScan(claimants[1..], doc);
      assert forall c :: c in claimants <==> c == claimants[0] || c in claimants[1..];
    }
  }

  /** The index reports a holder exactly when a scan of all claims finds an overlap, and the holder is one of those found. */
  lemma HolderIffScanFindsOverlap(claimants: seq<Claimant>, target: Target)
    ensures FirstHolder(claimants, target).None? <==> forall c <- claimants :: !ClaimsOver(c, target)
    ensures FirstHolder(claimants, target).Some? ==> HeldBy(claimants, target, FirstHolder(claimants, target).value)
  {
    FirstWithIsScan(claimants, target);
    FirstWithIsScan(claimants, DocumentTarget(target.doc));
    FirstUnderIsScan(claimants, target.doc);
    forall c <- claimants
      ensures var covers := if target.DocumentTarget? then HasSectionUnder(c, target.doc) else HasTarget(c, DocumentTarget(target.doc));
        ClaimsOver(c, target) <==> HasTarget(c, target) || covers
    {
      OverlapKinds(c, target);
    }
  }

  /** The first claimant, of any kind, whose claims overlap the target. */
  function FirstOverlap(claimants: seq<Claimant>, target: Target): Option<Holder> {
    if claimants == [] then None
    else if ClaimsOver(claimants[0], target) then Some(Holder(claimants[0].id, claimants[0].status))
    else FirstOverlap(claimants[1..], target)
  }

  predicate DistinctIds(claimants: seq<Claimant>) {
    forall i, j | 0 <= i < j < |claimants| :: claimants[i].id != claimants[j].id
  }

  /** The first claimant that overlaps the target does so with a claim of its own kind, or nobody holds one of that kind. */
  predicate ExactFirst(claimants: seq<Claimant>, target: Target) {
    claimants == []
    || (if ClaimsOver(claimants[0], target) then
          HasTarget(claimants[0], target) || forall c <- claimants :: !HasTarget(c, target)
        else ExactFirst(claimants[1..], target))
  }

  lemma {:induction false} OverlapKinds(c: Claimant, target: Target)
    ensures target.DocumentTarget? ==> (ClaimsOver(c, target) <==> HasTarget(c, target) || HasSectionUnder(c, target.doc))
    ensures target.SectionTarget? ==> (ClaimsOver(c, target) <==> HasTarget(c, target) || HasTarget(c, DocumentTarget(target.doc)))
  {
    if t :| t in c.targets && Overlaps(t, target) {
      if target.DocumentTarget? && t.DocumentTarget? { assert t == target; }
      if target.SectionTarget? && t.SectionTarget? { assert t == target; }
    }
  }

  /**
   * The index names the first claimant in order that overlaps the target exactly when that claimant holds the very
   * target or nobody does: it looks for the target itself before it looks for claims that cover it.
   */
  lemma {:induction false} NamesTheFirstOverlapIff(claimants: seq<Claimant>, target: Target)
    requires DistinctIds(claimants)
    ensures FirstHolder(claimants, target) == FirstOverlap(claimants, target) <==> ExactFirst(claimants, target)
  {
    if claimants != [] {
      var c, rest := claimants[0], claimants[1..];
      OverlapKinds(c, target);
      assert claimants == [c] + rest;
      if ClaimsOver(c, target) {
        NobodyElse(claimants, target);
      } else {
        NamesTheFirstOverlapIff(rest, target);
      }
    }
  }

  // With the first claimant overlapping otherwise, an exact holder is another one.
  lemma {:induction false} NobodyElse(claimants: seq<Claimant>, target: Target)
    requires DistinctIds(claimants) && claimants != [] && ClaimsOver(claimants[0], target)
    ensures (FirstHolder(claimants, target) == Some(Holder(claimants[0].id, claimants[0].status)))
        <==> (HasTarget(claimants[0], target) || forall c <- claimants :: !HasTarget(c, target))
  {
    OverlapKinds(claimants[0], target);
    if !HasTarget(claimants[0], target) {
      FirstWithIsScan(claimants, target);
      if FirstWith(claimants, target).Some? {
        var c :| c in claimants && HasTarget(c, target) && FirstWith(claimants, target).value == Holder(c.id, c.status);
        var i :| 0 <= i < |claimants| && claimants[i] == c;
        assert i > 0;
      }
    }
  }

  /** Claims that exclude each other have one holder, which any order of the scan finds. */
  lemma {:induction false} ApartHasOneHolder(claimants: seq<Claimant>, target: Target)
    requires DistinctIds(claimants)
    requires forall a, b | a in claimants && b in claimants && a != b :: !(ClaimsOver(a, target) && ClaimsOver(b, target))
    ensures FirstHolder(claimants, target) == FirstOverlap(claimants, target)
  {
    NamesTheFirstOverlapIff(claimants, target);
    OneOverlapIsExactFirst(claimants, target);
  }

  lemma {:induction false} OneOverlapIsExactFirst(claimants: seq<Claimant>, target: Target)
    requires DistinctIds(claimants)
    requires forall a, b | a in claimants && b in claimants && a != b :: !(ClaimsOver(a, target) && ClaimsOver(b, target))
    ensures ExactFirst(claimants, target)
  {
    if claimants != [] {
      if ClaimsOver(claimants[0], target) {
        forall c <- claimants | c != claimants[0] ensures !HasTarget(c, target) { OverlapKinds(c, target); }
      } else {
        OneOverlapIsExactFirst(claimants[1..], target);
      }
    }
  }

  /** The three lookup tables of the index; the first claim recorded for a key wins. */
  class ProposalFsmLockIndex {
    var sectionHolders: map<Target, Holder>
    var documentHolders: map<string, Holder>
    var sectionHoldersByDoc: map<string, Holder>

    /** The tables answer exactly as a scan of `claimants` in order would. */
    ghost predicate Indexes(claimants: seq<Claimant>)
      reads this
    {
      && (forall t: Target | t.SectionTarget? :: Get(sectionHolders, t) == FirstWith(claimants, t))
      && (forall doc: string :: Get(documentHolders, doc) == FirstWith(claimants, DocumentTarget(doc)))
      && (forall doc: string :: Get(sectionHoldersByDoc, doc) == FirstUnder(claimants, doc))
    }

    constructor Build(claimants: seq<Claimant>, excludeId: string)
      ensures Indexes(Others(claimants, excludeId))
    {
      sectionHolders, documentHolders, sectionHoldersByDoc := map[], map[], map[];
      new;
      var i := 0;
      assert Others(claimants[..0], excludeId) == [];
      while i < |claimants|
        invariant 0 <= i <= |claimants|
        invariant Indexes(Others(claimants[..i], excludeId))
      {
        var claimant := claimants[i];
        assert claimants[..i + 1] == claimants[..i] + [claimant];
        OthersLast(claimants[..i], claimant, excludeId);
        if claimant.id != excludeId {
          AddClaims(claimant, Others(claimants[..i], excludeId));
        } else {
          assert Others(claimants[..i], excludeId) + [] == Others(claimants[..i], excludeId);
        }
        i := i + 1;
      }
      assert claimants[..i] == claimants;
    }

    method AddClaims(claimant: Claimant, ghost earlier: seq<Claimant>)
      requires Indexes(earlier)
      modifies this
      ensures Indexes(earlier + [claimant])
    {
      var holder := Holder(claimant.id, claimant.status);
      ghost var sections, documents, byDoc := sectionHolders, documentHolders, sectionHoldersByDoc;
      var n := |claimant.targets|;
      var i := 0;
      while i < n
        invariant 0 <= i <= n
        invariant forall t: Target | t.SectionTarget? ::
                    Get(sectionHolders, t) == OrElse(Get(sections, t), t in claimant.targets[..i], holder)
        invariant forall doc: string ::
                    Get(documentHolders, doc) == OrElse(Get(documents, doc), DocumentTarget(doc) in claimant.targets[..i], holder)
        invariant forall doc: string ::
                    Get(sectionHoldersByDoc, doc)
                    == OrElse(Get(byDoc, doc), exists t <- claimant.targets[..i] :: t.SectionTarget? && t.doc == doc, holder)
      {
        var target := claimant.targets[i];
        assert claimant.targets[..i + 1] == claimant.targets[..i] + [target];
        if target.DocumentTarget? {
          if target.doc !in documentHolders { documentHolders := documentHolders[target.doc := holder]; }
        } else {
          if target !in sectionHolders { sectionHolders := sectionHolders[target := holder]; }
          if target.doc !in sectionHoldersByDoc { sectionHoldersByDoc := sectionHoldersByDoc[target.doc := holder]; }
        }
        i := i + 1;
      }
      assert claimant.targets[..n] == claimant.targets;
      forall t: Target { FirstWithLast(earlier, claimant, t); }
      forall doc: string { FirstUnderLast(earlier, claimant, doc); }
    }

    /** The lookup answers as a scan of the indexed claims, in order, for an exact claim and then for a covering one. */
    function HolderFor(target: Target): (holder: Option<Holder>)
      reads this
      ensures forall claimants: seq<Claimant> :: Indexes(claimants) ==> holder == FirstHolder(claimants, target)
    {
      match target
      case DocumentTarget(doc) =>
        if doc in documentHolders then Some(documentHolders[doc]) else Get(sectionHoldersByDoc, doc)
      case SectionTarget(doc, _) =>
        if target in sectionHolders then Some(sectionHolders[target]) else Get(documentHolders, doc)
    }

    /** Every conflict of the batch, not only the first. */
    method ConflictsFor(targets: seq<Target>, ghost claimants: seq<Claimant>) returns (conflicts: seq<Conflict>)
      requires Indexes(claimants)
      ensures conflicts == AllConflicts(claimants, targets)
    {
      conflicts := [];
      var i := 0;
      while i < |targets|
        invariant 0 <= i <= |targets|
        invariant conflicts + AllConflicts(claimants, targets[i..]) == AllConflicts(claimants, targets)
      {
        assert targets[i..][0] == targets[i] && targets[i..][1..] == targets[i + 1..];
        assert targets[i].DocumentTarget? ==> DocumentTarget(targets[i].doc) == targets[i];
        var holder := HolderFor(targets[i]);
        if holder.Some? {
          conflicts := conflicts + [Conflict(targets[i], holder.value)];
        }
        i := i + 1;
      }
    }
  }

  function Get<K, V>(m: map<K, V>, key: K): Option<V> {
    if key in m then Some(m[key]) else None
  }

  ghost function OrElse(found: Option<Holder>, claimed: bool, holder: Holder): Option<Holder> {
    if found.Some? then found else if claimed then Some(holder) else None
  }

  function AllConflicts(claimants: seq<Claimant>, targets: seq<Target>): seq<Conflict> {
    if targets == [] then []
    else
      var holder := FirstHolder(claimants, targets[0]);
      (if holder.Some? then [Conflict(targets[0], holder.value)] else []) + AllConflicts(claimants, targets[1..])
  }

  function Others(claimants: seq<Claimant>, excludeId: string): seq<Claimant> {
    if claimants == [] then []
    else (if claimants[0].id == excludeId then [] else [claimants[0]]) + Others(claimants[1..], excludeId)
  }

  lemma {:induction false} OthersLast(claimants: seq<Claimant>, last: Claimant, excludeId: string)
    ensures Others(claimants + [last], excludeId)
         == Others(claimants, excludeId) + if last.id == excludeId then [] else [last]
  {
    if claimants == [] {
      assert claimants + [last] == [last];
    } else {
      assert (claimants + [last])[1..] == claimants[1..] + [last];
      OthersLast(claimants[1..], last, excludeId);
    }
  }

  lemma {:induction false} OthersMembers(claimants: seq<Claimant>, excludeId: string, c: Claimant)
    ensures c in Others(claimants, excludeId) <==> c in claimants && c.id != excludeId
  {
    if claimants != [] {
      OthersMembers(claimants[1..], excludeId, c);
      assert c in claimants <==> c == claimants[0] || c in claimants[1..];
    }
  }

  // ----- checkProposalLocks

  /** The claimants read for a check: in a blocking status and claiming some document of the scope. */
  function InScope(claimants: seq<Claimant>, scope: set<string>): seq<Claimant> {
    if claimants == [] then []
    else
      var c := claimants[0];
      (if Blocking(c.status) && exists t <- c.targets :: t.doc in scope then [c] else []) + InScope(claimants[1..], scope)
  }

  lemma {:induction false} InScopeMembers(claimants: seq<Claimant>, scope: set<string>, c: Claimant)
    ensures c in InScope(claimants, scope) <==> c in claimants && Blocking(c.status) && exists t <- c.targets :: t.doc in scope
  {
    if claimants != [] {
      InScopeMembers(claimants[1..], scope, c);
      assert c in claimants <==> c == claimants[0] || c in claimants[1..];
    }
  }

  /** No other proposal holds an exclusive claim over any of the targets. */
  ghost predicate Available(claimants: seq<Claimant>, selfId: string, targets: seq<Target>) {
    forall c <- claimants, t <- targets | c.id != selfId && Blocking(c.status) :: !ClaimsOver(c, t)
  }

  lemma {:induction false} NoConflictsIffAvailable(claimants: seq<Claimant>, targets: seq<Target>)
    ensures AllConflicts(claimants, targets) == [] <==> forall c <- claimants, t <- targets :: !ClaimsOver(c, t)
  {
    if targets != [] {
      NoConflictsIffAvailable(claimants, targets[1..]);
      HolderIffScanFindsOverlap(claimants, targets[0]);
      assert forall t :: t in targets <==> t == targets[0] || t in targets[1..];
    }
  }

  /** The scoped, indexed check agrees with a scan of every claim of every proposal. */
  method CheckProposalLocks(claimants: seq<Claimant>, selfId: string, targets: seq<Target>, requireNonEmpty: bool)
    returns (result: LockResult)
    ensures result.acquired <==> (requireNonEmpty ==> targets != []) && Available(claimants, selfId, targets)
    ensures result.acquired ==> result.conflicts == []
    ensures forall conflict <- result.conflicts ::
              exists c <- claimants :: c.id != selfId && Blocking(c.status) && conflict.target in targets
                && ClaimsOver(c, conflict.target) && conflict.holder == Holder(c.id, c.status)
    ensures !(requireNonEmpty && targets == []) ==>
              forall c <- claimants, t <- targets | c.id != selfId && Blocking(c.status) && ClaimsOver(c, t) ::
                exists conflict <- result.conflicts :: conflict.target == t
  {
    if requireNonEmpty && targets == [] {
      return LockResult(false, []);
    }
    var scope := set t | t in targets :: t.doc;
    var scoped := InScope(claimants, scope);
    var index := new ProposalFsmLockIndex.Build(scoped, selfId);
    ghost var blockers := Others(scoped, selfId);
    var conflicts := index.ConflictsFor(targets, blockers);
    forall c: Claimant
      ensures c in blockers <==> c in claimants && Blocking(c.status) && c.id != selfId && exists t <- c.targets :: t.doc in scope
    {
      OthersMembers(scoped, selfId, c);
      InScopeMembers(claimants, scope, c);
    }
    forall c <- claimants, t <- targets | Blocking(c.status) && c.id != selfId && ClaimsOver(c, t)
      ensures c in blockers
    {
      var own :| own in c.targets && Overlaps(own, t);
      assert own.doc in scope;
    }
    NoConflictsIffAvailable(blockers, targets);
    AllConflictsAreReal(blockers, targets);
    return LockResult(conflicts == [], conflicts);
  }

  lemma {:induction false} AllConflictsAreReal(claimants: seq<Claimant>, targets: seq<Target>)
    ensures forall conflict <- AllConflicts(claimants, targets) ::
              conflict.target in targets && HeldBy(claimants, conflict.target, conflict.holder)
    ensures forall c <- claimants, t <- targets | ClaimsOver(c, t) ::
              exists conflict <- AllConflicts(claimants, targets) :: conflict.target == t
  {
    if targets != [] {
      AllConflictsAreReal(claimants, targets[1..]);
      HolderIffScanFindsOverlap(claimants, targets[0]);
      assert forall t :: t in targets <==> t == targets[0] || t in targets[1..];
    }
  }
}
