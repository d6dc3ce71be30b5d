/** Moving sections on disk: no body is lost, and exactly when the files are those of the moved forest. */
module MovedSections {
  import opened Basics
  import opened SectionForest
  import opened SectionFiles
  import opened SectionBodies
  import opened SectionMoves

  /** Every moved section keeps its file id and its body at the same place below it, a former leaf that takes it in keeps
    * its own body in the new body holder, and every other body stays as it was. */
  ghost predicate Conserved(forest: Forest, d: Disk, p: Place, newParent: Path, level: nat, holderFile: string, d': Disk)
    requires p.index < |p.siblings|
  {
    var node := p.siblings[p.index];
    && (forall r | IsLeaf([node], r) :: p.to + r in d' && p.from + r in d && d'[p.to + r] == d[p.from + r])
    && (Minted(p, newParent, level) ==>
          p.to + [holderFile] in d' && p.to in d && d'[p.to + [holderFile]] == d[p.to])
    && (forall c | IsLeaf(forest, c) && node.file !in c && !(Minted(p, newParent, level) && c == p.to) ::
          c in d && c in d' && d'[c] == d[c])
  }

  // A former leaf that takes the section in had its body under its own file.
  lemma {:induction false} MintedTargetWasALeaf(forest: Forest, path: Path, newParent: Path, level: nat, holderFile: string, p: Place)
    requires Lawful(forest) && Moves(forest, path, newParent, level, holderFile, p) && p.index < |p.siblings|
    requires Minted(p, newParent, level)
    ensures IsLeaf(forest, p.to) && p.to != p.from && p.to != []
  {
    UsesOfMoved(forest, path, newParent, level, holderFile, p);
    MovedNotAbove(forest, path, newParent, level, holderFile, p);
    SiblingsLawful(p.without, newParent);
    HolderStays(p.target, Relabeled(p, level));
    assert p.target == [];
    WithoutLists(forest, path, newParent, level, holderFile, p, p.to);
    if p.to == p.from { OthersStay(forest, path, newParent, level, holderFile, p); }
  }

  lemma {:induction false} HolderStays(a: Forest, n: Node)
    ensures HasHolder(a) ==> HasHolder(a + [n])
  {
    forall h | h in a && IsBodyHolder(h) ensures h in a + [n] {}
  }

  // A moved body, by its place below the two parents.
  lemma {:induction false} MovedBody(forest: Forest, path: Path, newParent: Path, level: nat, holderFile: string,
                                     p: Place, d: Disk, w: Disk, d': Disk, r: Chain)
    requires Lawful(forest) && HoldersAreLeaves(forest) && Moves(forest, path, newParent, level, holderFile, p)
    requires Stored(d, forest) && p.index < |p.siblings|
    requires Steps(d, p, newParent, level, holderFile, MovedForest(p, newParent, level, holderFile), w, d')
    requires IsLeaf([p.siblings[p.index]], r)
    ensures p.to + r in d' && p.from + r in d && d'[p.to + r] == d[p.from + r]
  {
    LeafStarts(p.siblings[p.index], r);
    HeadAndTail(p.to, r);
    HeadAndTail(p.from, r);
    BodyBelow(forest, path, newParent, level, holderFile, p, d, w, d', r[1..]);
  }

  lemma {:induction false} LeafStarts(node: Node, r: Chain)
    requires IsLeaf([node], r)
    ensures r != [] && r[0] == node.file
  {
    ListsOfOne(node, r);
  }

  lemma {:induction false} HeadAndTail(at: Chain, r: Chain)
    requires r != []
    ensures at + [r[0]] + r[1..] == at + r && [r[0]] + r[1..] == r
  {
  }

  lemma {:induction false} HolderTakesTheBody(forest: Forest, path: Path, newParent: Path, level: nat, holderFile: string,
                                              p: Place, d: Disk, w: Disk, d': Disk)
    requires Lawful(forest) && HoldersAreLeaves(forest) && Moves(forest, path, newParent, level, holderFile, p)
    requires Stored(d, forest) && p.index < |p.siblings|
    requires Steps(d, p, newParent, level, holderFile, MovedForest(p, newParent, level, holderFile), w, d')
    requires Minted(p, newParent, level)
    ensures p.to + [holderFile] in d' && p.to in d && d'[p.to + [holderFile]] == d[p.to]
  {
    UsesOfMoved(forest, path, newParent, level, holderFile, p);
    MovedNotAbove(forest, path, newParent, level, holderFile, p);
    MintedTargetWasALeaf(forest, path, newParent, level, holderFile, p);
    FileElsewhere(forest, path, newParent, level, holderFile, p, d, w, d', p.to + [holderFile]);
  }

  /** A move on disk conserves every body, whichever sections move and wherever to. */
  lemma {:induction false} MoveConservesBodies(forest: Forest, path: Path, newParent: Path, level: nat, holderFile: string,
                                               p: Place, d: Disk, w: Disk, d': Disk)
    requires Lawful(forest) && HoldersAreLeaves(forest) && Moves(forest, path, newParent, level, holderFile, p)
    requires Stored(d, forest) && p.index < |p.siblings|
    requires Steps(d, p, newParent, level, holderFile, MovedForest(p, newParent, level, holderFile), w, d')
    ensures Conserved(forest, d, p, newParent, level, holderFile, d')
  {
    var node := p.siblings[p.index];
    forall r | IsLeaf([node], r) ensures p.to + r in d' && p.from + r in d && d'[p.to + r] == d[p.from + r] {
      MovedBody(forest, path, newParent, level, holderFile, p, d, w, d', r);
    }
    if Minted(p, newParent, level) {
      HolderTakesTheBody(forest, path, newParent, level, holderFile, p, d, w, d');
    }
    forall c | IsLeaf(forest, c) && node.file !in c && !(Minted(p, newParent, level) && c == p.to)
      ensures c in d && c in d' && d'[c] == d[c]
    {
      OtherBodyStays(forest, path, newParent, level, holderFile, p, d, w, d', c);
    }
  }

  lemma {:induction false} OtherBodyStays(forest: Forest, path: Path, newParent: Path, level: nat, holderFile: string,
                                          p: Place, d: Disk, w: Disk, d': Disk, c: Chain)
    requires Lawful(forest) && HoldersAreLeaves(forest) && Moves(forest, path, newParent, level, holderFile, p)
    requires Stored(d, forest) && p.index < |p.siblings|
    requires Steps(d, p, newParent, level, holderFile, MovedForest(p, newParent, level, holderFile), w, d')
    requires IsLeaf(forest, c) && p.siblings[p.index].file !in c && !(Minted(p, newParent, level) && c == p.to)
    ensures c in d && c in d' && d'[c] == d[c]
  {
    UsesOfMoved(forest, path, newParent, level, holderFile, p);
    FileElsewhere(forest, path, newParent, level, holderFile, p, d, w, d', c);
    ElsewhereIsListed(forest, path, newParent, level, holderFile, p, c);
    assert WrittenAt(d, [], MovedForest(p, newParent, level, holderFile), w, c) && c[0..] == c;
    HolderWasNotThere(forest, c, holderFile);
    assert p.to + [holderFile] <= c ==> (p.to + [holderFile])[|p.to|] == c[|p.to|];
    LeafKeepsListing(forest, path, newParent, level, holderFile, p, c);
  }

  lemma {:induction false} HolderWasNotThere(forest: Forest, c: Chain, holderFile: string)
    requires RowsAt(forest, c).Some? && Uses(forest, holderFile) == 0
    ensures holderFile !in c
  {
    if holderFile in c { ChainIsUsed(forest, c, holderFile); }
  }

  // A leaf other than the minted holder's section lists nothing after the move either.
  lemma {:induction false} LeafKeepsListing(forest: Forest, path: Path, newParent: Path, level: nat, holderFile: string,
                                            p: Place, c: Chain)
    requires Lawful(forest) && Moves(forest, path, newParent, level, holderFile, p) && p.index < |p.siblings|
    requires IsLeaf(forest, c) && p.siblings[p.index].file !in c && !(Minted(p, newParent, level) && c == p.to)
    ensures c != p.to && c != p.from
  {
    WithoutLists(forest, path, newParent, level, holderFile, p, c);
    assert |Rows(p.siblings)| > 0;
    if c == p.to { TargetOfALeaf(forest, path, newParent, level, holderFile, p); }
  }

  lemma {:induction false} TargetOfALeaf(forest: Forest, path: Path, newParent: Path, level: nat, holderFile: string, p: Place)
    requires Lawful(forest) && Moves(forest, path, newParent, level, holderFile, p) && p.index < |p.siblings|
    requires IsLeaf(forest, p.to)
    ensures Minted(p, newParent, level)
  {
    UsesOfMoved(forest, path, newParent, level, holderFile, p);
    MovedNotAbove(forest, path, newParent, level, holderFile, p);
    WithoutLists(forest, path, newParent, level, holderFile, p, p.to);
    assert |Rows(p.siblings)| > 0;
    assert RowsAt(p.without, p.to) == Some(Rows(p.target));
    assert p.target == [];
    LocatedIn(forest, path);
    NonEmptyMatch(p.siblings[p.index].heading, Leaf(path));
    assert forall x <- [Relabeled(p, level)] :: !IsBodyHolder(x);
    assert [] + [Relabeled(p, level)] == [Relabeled(p, level)];
  }

  // After a move, a file of the forest that does not go through the moved section.
  lemma {:induction false} StoredElsewhere(forest: Forest, path: Path, newParent: Path, level: nat, holderFile: string,
                                           p: Place, d: Disk, w: Disk, d': Disk, c: Chain)
    requires Lawful(forest) && HoldersAreLeaves(forest) && Moves(forest, path, newParent, level, holderFile, p)
    requires Stored(d, forest) && p.index < |p.siblings|
    requires Steps(d, p, newParent, level, holderFile, MovedForest(p, newParent, level, holderFile), w, d')
    requires p.siblings[p.index].file !in c
    ensures var moved := MovedForest(p, newParent, level, holderFile);
      && (IsListed(moved, c) ==> c in d' && d'[c] == Listing(RowsAt(moved, c).value))
      && (IsLeaf(moved, c) ==> c in d' && d'[c].Body?)
  {
    var moved := MovedForest(p, newParent, level, holderFile);
    UsesOfMoved(forest, path, newParent, level, holderFile, p);
    FileElsewhere(forest, path, newParent, level, holderFile, p, d, w, d', c);
    ElsewhereIsListed(forest, path, newParent, level, holderFile, p, c);
    assert WrittenAt(d, [], moved, w, c) && c[0..] == c;
    if IsLeaf(moved, c) && !(Minted(p, newParent, level) && p.to + [holderFile] <= c) {
      OtherBodyStays(forest, path, newParent, level, holderFile, p, d, w, d', c);
    }
  }

  // A file of the moved section, when its list changed.
  lemma {:induction false} StoredBelow(forest: Forest, path: Path, newParent: Path, level: nat, holderFile: string,
                                       p: Place, d: Disk, w: Disk, d': Disk, c: Chain)
    requires Lawful(forest) && HoldersAreLeaves(forest) && Moves(forest, path, newParent, level, holderFile, p)
    requires Stored(d, forest) && p.index < |p.siblings|
    requires Steps(d, p, newParent, level, holderFile, MovedForest(p, newParent, level, holderFile), w, d')
    requires p.siblings[p.index].file in c && RowsAt(MovedForest(p, newParent, level, holderFile), c).Some?
    requires p.from != p.to || p.siblings[p.index].children == []
    ensures var moved := MovedForest(p, newParent, level, holderFile);
      && (IsListed(moved, c) ==> c in d' && d'[c] == Listing(RowsAt(moved, c).value))
      && (IsLeaf(moved, c) ==> c in d' && d'[c].Body?)
  {
    var node := p.siblings[p.index];
    var m := node.file;
    ThroughIt(forest, path, newParent, level, holderFile, p, c);
    var r := c[|p.to| + 1..];
    assert c == p.to + [m] + r;
    BelowIsListed(forest, path, newParent, level, holderFile, p, r);
    if IsLeaf([node], [m] + r) {
      BodyBelow(forest, path, newParent, level, holderFile, p, d, w, d', r);
    } else {
      HasChildren(node, r);
      ListingBelow(forest, path, newParent, level, holderFile, p, d, w, d', r);
    }
  }

  // Only chains through its new place go through the moved section.
  lemma {:induction false} ThroughIt(forest: Forest, path: Path, newParent: Path, level: nat, holderFile: string, p: Place, c: Chain)
    requires Lawful(forest) && Moves(forest, path, newParent, level, holderFile, p) && p.index < |p.siblings|
    requires p.siblings[p.index].file in c && RowsAt(MovedForest(p, newParent, level, holderFile), c).Some?
    ensures p.to + [p.siblings[p.index].file] <= c
  {
    var m := p.siblings[p.index].file;
    UsesOfMoved(forest, path, newParent, level, holderFile, p);
    MovedNotAbove(forest, path, newParent, level, holderFile, p);
    MovedLists(forest, path, newParent, level, holderFile, p, c);
    WithoutLists(forest, path, newParent, level, holderFile, p, c);
    NothingBelowAnEmptyList(p.to, holderFile, m, c);
  }

  lemma {:induction false} NothingBelowAnEmptyList(to: Chain, holderFile: string, m: string, c: Chain)
    requires m !in to && m != holderFile && m in c
    ensures c != to
    ensures to + [holderFile] <= c ==> ListAt([], c[|to| + 1..]) == None
  {
    if to + [holderFile] <= c {
      assert c == to + [holderFile] + c[|to| + 1..];
      assert m in c[|to| + 1..];
    }
  }

  /** The files are those of the moved forest exactly when the section has no children or changes its list: moving a
    * section with children within its parent removes the listing that was just written for it. */
  lemma {:induction false} MoveIsStoredIff(forest: Forest, path: Path, newParent: Path, level: nat, holderFile: string,
                                           p: Place, d: Disk, w: Disk, d': Disk)
    requires Lawful(forest) && HoldersAreLeaves(forest) && Moves(forest, path, newParent, level, holderFile, p)
    requires Stored(d, forest) && p.index < |p.siblings|
    requires Steps(d, p, newParent, level, holderFile, MovedForest(p, newParent, level, holderFile), w, d')
    ensures Stored(d', MovedForest(p, newParent, level, holderFile))
       <==> p.siblings[p.index].children == [] || p.from != p.to
  {
    var node := p.siblings[p.index];
    var m := node.file;
    var moved := MovedForest(p, newParent, level, holderFile);
    if node.children == [] || p.from != p.to {
      forall c | RowsAt(moved, c).Some?
        ensures IsListed(moved, c) ==> c in d' && d'[c] == Listing(RowsAt(moved, c).value)
        ensures IsLeaf(moved, c) ==> c in d' && d'[c].Body?
      {
        if m in c {
          StoredBelow(forest, path, newParent, level, holderFile, p, d, w, d', c);
        } else {
          StoredElsewhere(forest, path, newParent, level, holderFile, p, d, w, d', c);
        }
      }
    } else {
      BelowIsListed(forest, path, newParent, level, holderFile, p, []);
      ListsOfOne(node, [m]);
      assert p.to + [m] + [] == p.to + [m] && [m] + [] == [m] && [m][1..] == [];
      assert |Rows(node.children)| > 0;
      ListingBelow(forest, path, newParent, level, holderFile, p, d, w, d', []);
      assert IsListed(moved, p.to + [m]) && p.to + [m] !in d';
    }
  }
}
