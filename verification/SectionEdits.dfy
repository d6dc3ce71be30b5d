/** Structural edits as they run: one transaction splices sibling lists, and a failing edit changes nothing. */
module SectionEdits {
  import opened Basics
  import opened SectionForest

  datatype Edit =
    | DeleteSubtree(path: Path)
    | RetitleSection(path: Path, heading: string, level: nat)
    | MoveSubtree(path: Path, newParent: Path, level: nat, holderFile: string)
    | ReorderSibling(path: Path, target: string, before: bool)
    | InsertChild(parent: Path, index: int, heading: string, level: nat, file: string)
    | RewriteSubtree(path: Path, roots: Forest)
    | MaterializeAncestors(path: Path, minted: seq<string>)

  /** What a caller guarantees: non-empty headings, and generated ids that are new. */
  ghost predicate Legal(forest: Forest, e: Edit) {
    match e
    case DeleteSubtree(path) => path != [] ==> Leaf(path) != ""
    case RetitleSection(path, heading, _) => path != [] && Leaf(path) != "" && heading != ""
    case MoveSubtree(path, _, _, holderFile) => path != [] && Leaf(path) != "" && Uses(forest, holderFile) == 0
    case ReorderSibling(path, target, _) => path != [] && Leaf(path) != "" && target != ""
    case InsertChild(parent, _, heading, _, file) => parent != [] && heading != "" && Uses(forest, file) == 0
    case RewriteSubtree(path, roots) =>
      && Addressable(roots)
      && (path != [] ==> Leaf(path) != "" && forall root <- roots :: root.heading != "")
      && (Locate(forest, path).Some? ==>
            FreshOrReused(forest, Locate(forest, path).value.0[Locate(forest, path).value.1], roots))
    case MaterializeAncestors(path, minted) =>
      && |minted| >= 2 * |path| && minted != [] && NoEmptySegment(path)
      && forall file :: Occurs(minted, file) <= 1 && (Occurs(minted, file) == 1 ==> Uses(forest, file) == 0)
  }

  ghost function Outcome(forest: Forest, e: Edit): Result
    requires Legal(forest, e)
  {
    match e
    case DeleteSubtree(path) => Delete(forest, path)
    case RetitleSection(path, heading, level) => Retitle(forest, path, heading, level)
    case MoveSubtree(path, newParent, level, holderFile) => Move(forest, path, newParent, level, holderFile)
    case ReorderSibling(path, target, before) => Reorder(forest, path, target, before)
    case InsertChild(parent, index, heading, level, file) => Insert(forest, parent, index, Node(heading, level, file, []))
    case RewriteSubtree(path, roots) => ReplaceSubtree(forest, path, roots)
    case MaterializeAncestors(path, minted) => Ok(Materialized(forest, path, minted))
  }

  ghost function Apply(forest: Forest, e: Edit): Forest
    requires Legal(forest, e)
  {
    if Outcome(forest, e).Ok? then Outcome(forest, e).forest else forest
  }

  lemma EditKeepsLaw(forest: Forest, e: Edit)
    requires Lawful(forest) && Legal(forest, e)
    ensures Lawful(Apply(forest, e))
  {
    match e
    case DeleteSubtree(path) => DeleteKeepsLaw(forest, path);
    case RetitleSection(path, heading, level) => RetitleKeepsLaw(forest, path, heading, level);
    case MoveSubtree(path, newParent, level, holderFile) => MoveKeepsLaw(forest, path, newParent, level, holderFile);
    case ReorderSibling(path, target, before) => ReorderKeepsLaw(forest, path, target, before);
    case InsertChild(parent, index, heading, level, file) => InsertKeepsLaw(forest, parent, index, heading, level, file);
    case RewriteSubtree(path, roots) => ReplaceKeepsLaw(forest, path, roots);
    case MaterializeAncestors(path, minted) => MaterializeKeepsLaw(forest, path, minted);
  }

  ghost predicate LegalRun(forest: Forest, edits: seq<Edit>)
    decreases |edits|
  {
    edits != [] ==> Legal(forest, edits[0]) && LegalRun(Apply(forest, edits[0]), edits[1..])
  }

  ghost function AfterRun(forest: Forest, edits: seq<Edit>): Forest
    requires LegalRun(forest, edits)
    decreases |edits|
  {
    if edits == [] then forest else AfterRun(Apply(forest, edits[0]), edits[1..])
  }

  lemma {:induction false} RunKeepsLaw(forest: Forest, edits: seq<Edit>)
    requires Lawful(forest) && LegalRun(forest, edits)
    ensures Lawful(AfterRun(forest, edits))
    decreases |edits|
  {
    if edits != [] {
      EditKeepsLaw(forest, edits[0]);
      RunKeepsLaw(Apply(forest, edits[0]), edits[1..]);
    }
  }

  /** After any sequence of edits, applied or refused, every heading path leads to at most one section. */
  lemma EveryPathLeadsToOneSection(forest: Forest, edits: seq<Edit>, path: Path)
    requires Lawful(forest) && LegalRun(forest, edits) && path != []
    ensures Ways(AfterRun(forest, edits), path) == if Locate(AfterRun(forest, edits), path).Some? then 1 else 0
  {
    RunKeepsLaw(forest, edits);
    AtMostOneWay(AfterRun(forest, edits), path);
  }

  /** A headless root stands in front of the others or not at all, whatever is edited. */
  lemma {:induction false} EditKeepsFront(forest: Forest, e: Edit)
    requires Lawful(forest) && FrontOnly(forest) && Legal(forest, e) && (e.RewriteSubtree? ==> FrontOnly(e.roots))
    ensures FrontOnly(Apply(forest, e))
  {
    var result := Outcome(forest, e);
    if result.Ok? {
      match e
      case DeleteSubtree(path) =>
        var (siblings, i) := Locate(forest, path).value;
        if path != [] { BelowKeepsFront(forest, Parent(path), RemoveAt(siblings, i)); }
      case RetitleSection(path, heading, level) =>
        var (siblings, i) := Locate(forest, path).value;
        BelowKeepsFront(forest, Parent(path), Retitled(siblings, i, heading, level));
      case MoveSubtree(path, newParent, level, holderFile) => MoveKeepsFront(forest, path, newParent, level, holderFile);
      case ReorderSibling(path, target, before) =>
        var (siblings, i) := Locate(forest, path).value;
        NonEmptyMatch(siblings[i].heading, Leaf(path));
        if FindIndex(siblings, target) != i {
          if Parent(path) == [] { ReorderKeepsFront(siblings, i, target, before); }
          BelowKeepsFront(forest, Parent(path), Reordered(siblings, i, target, before));
        }
      case InsertChild(parent, index, heading, level, file) =>
      case RewriteSubtree(path, roots) => RewriteKeepsFront(forest, path, roots);
      case MaterializeAncestors(path, minted) => MaterializeKeepsFront(forest, path, minted);
    }
  }

  lemma {:induction false} MoveKeepsFront(forest: Forest, path: Path, newParent: Path, level: nat, holderFile: string)
    requires FrontOnly(forest) && path != [] && Leaf(path) != "" && Move(forest, path, newParent, level, holderFile).Ok?
    ensures FrontOnly(Move(forest, path, newParent, level, holderFile).forest)
  {
    var (siblings, i) := Locate(forest, path).value;
    NonEmptyMatch(siblings[i].heading, Leaf(path));
    var without := WithSiblings(forest, Parent(path), RemoveAt(siblings, i));
    BelowKeepsFront(forest, Parent(path), RemoveAt(siblings, i));
    var target := SiblingsAt(without, newParent).value;
    BelowKeepsFront(without, newParent, Appended(newParent, target, siblings[i].(level := level), holderFile));
  }

  lemma {:induction false} RewriteKeepsFront(forest: Forest, path: Path, roots: Forest)
    requires FrontOnly(forest) && FrontOnly(roots) && ReplaceSubtree(forest, path, roots).Ok?
    requires path != [] ==> forall root <- roots :: root.heading != ""
    ensures FrontOnly(ReplaceSubtree(forest, path, roots).forest)
  {
    var (siblings, i) := Locate(forest, path).value;
    if path == [] { assert i == 0; }
    if path != [] { BelowKeepsFront(forest, Parent(path), Spliced(siblings, i, roots)); }
  }

  class DocumentSkeleton {
    var roots: Forest

    constructor (loaded: Forest)
      ensures roots == loaded
    {
      roots := loaded;
    }

    method FindSibling(siblings: Forest, heading: string) returns (index: nat)
      ensures index == FindIndex(siblings, heading)
    {
      index := 0;
      while index < |siblings|
        invariant index <= |siblings|
        invariant FindIndex(siblings, heading) == index + FindIndex(siblings[index..], heading)
      {
        if HeadingsEqual(siblings[index].heading, heading) { return; }
        index := index + 1;
      }
    }

    /** The throw of the source's collision check is the answer `false`. */
    method NoDuplicateSibling(siblings: Forest, targetFile: string, heading: string) returns (free: bool)
      ensures free == !Collides(siblings, targetFile, heading)
    {
      for i := 0 to |siblings|
        invariant forall node <- siblings[..i] :: node.file == targetFile || !HeadingsEqual(node.heading, heading)
      {
        if siblings[i].file == targetFile { continue; }
        if HeadingsEqual(siblings[i].heading, heading) { return false; }
      }
      return true;
    }

    method DeleteSubtree(path: Path) returns (failure: Option<Failure>)
      requires Lawful(roots) && (path != [] ==> Leaf(path) != "")
      modifies this
      ensures Lawful(roots) && Settles(old(roots), Delete(old(roots), path), roots, failure)
    {
      DeleteKeepsLaw(roots, path);
      var located := Locate(roots, path);
      if located.None? { return Some(Stale); }
      var (siblings, index) := located.value;
      var edited := siblings[..index] + siblings[index + 1..];
      roots := if path == [] then edited else WithSiblings(roots, Parent(path), edited);
      return None;
    }

    method RetitleSectionInPlace(path: Path, heading: string, level: nat) returns (failure: Option<Failure>)
      requires Lawful(roots) && path != [] && Leaf(path) != "" && heading != ""
      modifies this
      ensures Lawful(roots) && Settles(old(roots), Retitle(old(roots), path, heading, level), roots, failure)
    {
      RetitleKeepsLaw(roots, path, heading, level);
      var siblings := SiblingsAt(roots, Parent(path));
      if siblings.None? { return Some(Stale); }
      var index := FindSibling(siblings.value, Leaf(path));
      if index == |siblings.value| { return Some(Stale); }
      var free := NoDuplicateSibling(siblings.value, siblings.value[index].file, heading);
      if !free { return Some(DuplicateSibling); }
      var node := siblings.value[index].(heading := heading, level := level);
      roots := WithSiblings(roots, Parent(path), siblings.value[index := node]);
      return None;
    }

    method MoveSubtree(path: Path, newParent: Path, level: nat, holderFile: string) returns (failure: Option<Failure>)
      requires Lawful(roots) && path != [] && Leaf(path) != "" && Uses(roots, holderFile) == 0
      modifies this
      ensures Lawful(roots) && Settles(old(roots), Move(old(roots), path, newParent, level, holderFile), roots, failure)
    {
      MoveKeepsLaw(roots, path, newParent, level, holderFile);
      var located := Locate(roots, path);
      if located.None? { return Some(Stale); }
      var (siblings, index) := located.value;
      var moved := siblings[index];
      var destination := SiblingsAt(roots, newParent);
      if destination.None? { return Some(Stale); }
      var free := NoDuplicateSibling(destination.value, moved.file, moved.heading);
      if !free { return Some(DuplicateSibling); }
      var without := WithSiblings(roots, Parent(path), siblings[..index] + siblings[index + 1..]);
      var target := SiblingsAt(without, newParent);
      if target.None? { return Some(Stale); }
      var pushed := target.value + [moved.(level := level)];
      if newParent != [] && !HasHolder(pushed) {
        pushed := [Node("", 0, holderFile, [])] + pushed;
        assert pushed == [Node("", 0, holderFile, [])] + target.value + [moved.(level := level)];
      }
      roots := WithSiblings(without, newParent, pushed);
      return None;
    }

    method ReorderSiblingSection(path: Path, target: string, before: bool) returns (failure: Option<Failure>)
      requires Lawful(roots) && path != [] && Leaf(path) != ""
      modifies this
      ensures Lawful(roots) && Settles(old(roots), Reorder(old(roots), path, target, before), roots, failure)
    {
      ReorderKeepsLaw(roots, path, target, before);
      var located := Locate(roots, path);
      if located.None? { return Some(Stale); }
      var (siblings, sourceIndex) := located.value;
      var targetIndex := FindSibling(siblings, target);
      if targetIndex == |siblings| { return Some(Stale); }
      if targetIndex == sourceIndex { return None; }
      var rest := siblings[..sourceIndex] + siblings[sourceIndex + 1..];
      var newTargetIndex := FindSibling(rest, target);
      assert newTargetIndex < |rest| by { StillThere(siblings, sourceIndex, target); }
      var insertAt := if before then newTargetIndex else newTargetIndex + 1;
      roots := WithSiblings(roots, Parent(path), rest[..insertAt] + [siblings[sourceIndex]] + rest[insertAt..]);
      return None;
    }

    method InsertNewChildSectionAtPosition(parent: Path, index: int, heading: string, level: nat, file: string)
      returns (failure: Option<Failure>)
      requires Lawful(roots) && parent != [] && heading != "" && Uses(roots, file) == 0
      modifies this
      ensures Lawful(roots) && Settles(old(roots), Insert(old(roots), parent, index, Node(heading, level, file, [])), roots, failure)
    {
      InsertKeepsLaw(roots, parent, index, heading, level, file);
      var children := SiblingsAt(roots, parent);
      if children.None? { return Some(Stale); }
      if Leaves(children.value) <= 1 { return Some(NotAParent); }
      var free := NoDuplicateSibling(children.value, file, heading);
      if !free { return Some(DuplicateSibling); }
      var offset := if IsBodyHolder(children.value[0]) then 1 else 0;
      if index < 0 || index > |children.value| - offset { return Some(OutOfRange); }
      var at := offset + index;
      roots := WithSiblings(roots, parent, children.value[..at] + [Node(heading, level, file, [])] + children.value[at..]);
      return None;
    }

    method ReplaceSubtreeDeletingOmittedSections(path: Path, replacement: Forest) returns (failure: Option<Failure>)
      requires Lawful(roots) && Legal(roots, RewriteSubtree(path, replacement))
      modifies this
      ensures Lawful(roots) && Settles(old(roots), ReplaceSubtree(old(roots), path, replacement), roots, failure)
    {
      ReplaceKeepsLaw(roots, path, replacement);
      var located := Locate(roots, path);
      if located.None? { return Some(Stale); }
      var (siblings, index) := located.value;
      for i := 0 to |replacement|
        invariant roots == old(roots)
        invariant forall root <- replacement[..i] | root.heading != "" :: !Collides(siblings, siblings[index].file, root.heading)
      {
        if replacement[i].heading != "" {
          var free := NoDuplicateSibling(siblings, siblings[index].file, replacement[i].heading);
          if !free {
            assert replacement[i] in replacement;
            return Some(DuplicateSibling);
          }
        }
      }
      assert replacement[..|replacement|] == replacement;
      var edited := siblings[..index] + replacement + siblings[index + 1..];
      roots := if path == [] then edited else WithSiblings(roots, Parent(path), edited);
      return None;
    }
  }

  /** An edit either takes its whole effect or reports why it did not and changes nothing. */
  ghost predicate Settles(before: Forest, result: Result, after: Forest, failure: Option<Failure>) {
    match result
    case Ok(forest) => failure.None? && after == forest
    case Err(reason) => failure == Some(reason) && after == before
  }

  lemma StillThere(siblings: Forest, i: nat, heading: string)
    requires i < |siblings| && FindIndex(siblings, heading) < |siblings| && FindIndex(siblings, heading) != i
    ensures FindIndex(RemoveAt(siblings, i), heading) < |siblings| - 1
  {
    var t := FindIndex(siblings, heading);
    assert RemoveAt(siblings, i)[if t < i then t else t - 1] == siblings[t];
  }
}
