/** Runs of stored moves and renames: the texts of a document through all of them. */
module StoredRuns {
  import opened Basics
  import opened SectionForest
  import opened SectionFiles
  import opened SectionBodies
  import opened SectionMoves
  import opened MovedSections
  import opened SectionRenames

  // ---- holders stay without sections of their own ---------------------------------------------------------------

  lemma {:induction false} HoldersOfParts(forest: Forest, edited: Forest)
    requires HoldersAreLeaves(forest) && forall n <- edited :: n in forest || ((IsBodyHolder(n) ==> n.children == []) && HoldersAreLeaves(n.children))
    ensures HoldersAreLeaves(edited)
  {
  }

  /** Writing a list back keeps holders without children, unless it puts sections below one. */
  lemma {:induction false} HoldersWithList(forest: Forest, parent: Path, siblings: Forest)
    requires HoldersAreLeaves(forest) && HoldersAreLeaves(siblings) && SiblingsAt(forest, parent).Some?
    requires parent != [] ==> Leaf(parent) != ""
    ensures HoldersAreLeaves(WithSiblings(forest, parent, siblings))
    decreases |parent|
  {
    if parent != [] {
      var i := FindIndex(forest, parent[0]);
      assert forest[i] in forest;
      if |parent| > 1 { assert Leaf(parent[1..]) == Leaf(parent); }
      HoldersWithList(forest[i].children, parent[1..], siblings);
      if |parent| == 1 {
        NonEmptyMatch(forest[i].heading, parent[0]);
      } else {
        assert parent[1..][0] == parent[1];
        assert forest[i].children != [];
      }
      var edited := WithSiblings(forest, parent, siblings);
      forall n <- edited ensures n in forest || ((IsBodyHolder(n) ==> n.children == []) && HoldersAreLeaves(n.children)) {
        var j :| 0 <= j < |edited| && edited[j] == n;
        if j != i { assert edited[j] == forest[j]; }
      }
      HoldersOfParts(forest, edited);
    }
  }

  /** A move puts a section below a body holder exactly when it is asked to: when the new parent's path ends in one. */
  lemma {:induction false} MoveKeepsHolders(forest: Forest, path: Path, newParent: Path, level: nat, holderFile: string)
    requires Lawful(forest) && HoldersAreLeaves(forest) && path != [] && Leaf(path) != ""
    requires Move(forest, path, newParent, level, holderFile).Ok? && (newParent != [] ==> Leaf(newParent) != "")
    ensures HoldersAreLeaves(Move(forest, path, newParent, level, holderFile).forest)
  {
    var (siblings, i) := Locate(forest, path).value;
    LocatedIn(forest, path);
    HoldersBelow(forest, Parent(path));
    HoldersOfParts(siblings, RemoveAt(siblings, i));
    ParentOfASection(forest, path);
    HoldersWithList(forest, Parent(path), RemoveAt(siblings, i));
    var without := WithSiblings(forest, Parent(path), RemoveAt(siblings, i));
    var target := SiblingsAt(without, newParent).value;
    HoldersBelow(without, newParent);
    var moved := siblings[i].(level := level);
    assert siblings[i] in siblings;
    NonEmptyMatch(siblings[i].heading, Leaf(path));
    HoldersOfParts(target, Appended(newParent, target, moved, holderFile));
    HoldersWithList(without, newParent, Appended(newParent, target, moved, holderFile));
  }

  // A holder has no sections, so no section's parent path ends in one.
  lemma {:induction false} ParentOfASection(forest: Forest, path: Path)
    requires Addressable(forest) && HoldersAreLeaves(forest) && path != [] && Locate(forest, path).Some?
    ensures Parent(path) != [] ==> Leaf(Parent(path)) != ""
    decreases |path|
  {
    if |path| == 2 {
      var i := FindIndex(forest, path[0]);
      assert Parent(path) == [path[0]];
      assert forest[i] in forest;
      LocateInto(forest, path);
      EmptyTogether(forest[i].heading, path[0]);
    } else if |path| > 2 {
      var i := FindIndex(forest, path[0]);
      assert Parent(path)[0] == path[0];
      assert forest[i] in forest;
      LocateInto(forest, path);
      ParentOfASection(forest[i].children, path[1..]);
      assert Leaf(Parent(path[1..])) == Leaf(Parent(path));
    }
  }

  lemma {:induction false} EmptyTogether(heading: string, key: string)
    requires HeadingsEqual(heading, key)
    ensures heading == "" <==> key == ""
  {
    assert |Lower(heading)| == |Lower(key)|;
  }

  lemma {:induction false} RenameKeepsHolders(forest: Forest, path: Path, heading: string, level: nat)
    requires Lawful(forest) && HoldersAreLeaves(forest) && path != [] && Leaf(path) != "" && heading != ""
    requires Retitle(forest, path, heading, level).Ok?
    ensures HoldersAreLeaves(Retitle(forest, path, heading, level).forest)
  {
    var (siblings, i) := Locate(forest, path).value;
    LocatedIn(forest, path);
    HoldersBelow(forest, Parent(path));
    ParentOfASection(forest, path);
    assert siblings[i] in siblings;
    HoldersOfParts(siblings, Retitled(siblings, i, heading, level));
    HoldersWithList(forest, Parent(path), Retitled(siblings, i, heading, level));
  }

  // ---- texts ------------------------------------------------------------------------------------------------------

  ghost predicate HoldsAt(forest: Forest, d: Disk, c: Chain, file: string, text: string) {
    IsLeaf(forest, c) && c[|c| - 1] == file && c in d && d[c] == Body(text)
  }

  /** The section with this file has this text for its body. */
  ghost predicate Holds(forest: Forest, d: Disk, file: string, text: string) {
    exists c :: HoldsAt(forest, d, c, file, text)
  }

  // A section's file stands in one list only.
  lemma {:induction false} ThroughItBefore(forest: Forest, from: Chain, siblings: Forest, i: nat, c: Chain)
    requires DistinctFiles(forest) && ListAt(forest, from) == Some(siblings) && i < |siblings|
    requires ListAt(forest, c).Some? && siblings[i].file in c
    ensures from + [siblings[i].file] <= c
    decreases |from|
  {
    var m := siblings[i].file;
    var k := FindFile(forest, c[0]);
    assert c == [c[0]] + c[1..];
    if from == [] {
      if c[0] != m {
        ChainIsUsed(forest[k].children, c[1..], m);
        TwoPlaces(forest, i, k, m);
      }
    } else {
      var j := FindFile(forest, from[0]);
      ChildrenDistinct(forest, j);
      ListedIsUsed(forest[j].children, from[1..], siblings, i);
      if c[0] == m || j != k { UsesThere(forest, c, m); TwoPlaces(forest, j, k, m); }
      ThroughItBefore(forest[j].children, from[1..], siblings, i, c[1..]);
      assert from + [m] == [from[0]] + (from[1..] + [m]);
    }
  }

  lemma {:induction false} UsesThere(forest: Forest, c: Chain, m: string)
    requires ListAt(forest, c).Some? && m in c
    ensures OwnUses(forest[FindFile(forest, c[0])], m) >= 1
    ensures c[0] == m ==> forest[FindFile(forest, c[0])].file == m
  {
    if c[0] != m { ChainIsUsed(forest[FindFile(forest, c[0])].children, c[1..], m); }
  }

  /** Two roots cannot both have a file, and a root cannot have it besides a section below it. */
  lemma {:induction false} TwoPlaces(forest: Forest, j: nat, k: nat, m: string)
    requires DistinctFiles(forest) && j < |forest| && k < |forest|
    requires OwnUses(forest[j], m) >= 1 && OwnUses(forest[k], m) >= 1
    ensures j == k && OwnUses(forest[j], m) <= 1
  {
    UsesSplit(forest, j, m);
    assert Uses(forest, m) <= 1;
    if k < j {
      UsesSplit(forest[..j], k, m);
    } else if j < k {
      assert forest[j + 1..][k - j - 1] == forest[k];
      UsesSplit(forest[j + 1..], k - j - 1, m);
    }
  }

  /** A move keeps every text: with its section, or with the new body holder of the section that was moved into. */
  lemma {:induction false} MoveCarriesText(forest: Forest, d: Disk, path: Path, newParent: Path, level: nat, holderFile: string,
                                           p: Place, d': Disk, file: string, text: string)
    requires Lawful(forest) && Moves(forest, path, newParent, level, holderFile, p) && p.index < |p.siblings|
    requires Conserved(forest, d, p, newParent, level, holderFile, d') && Holds(forest, d, file, text)
    ensures var moved := MovedForest(p, newParent, level, holderFile);
      Holds(moved, d', file, text) || Holds(moved, d', holderFile, text)
  {
    var c :| HoldsAt(forest, d, c, file, text);
    var moved := MovedForest(p, newParent, level, holderFile);
    var m := p.siblings[p.index].file;
    if m in c {
      MovedTextIsThere(forest, d, path, newParent, level, holderFile, p, d', c, file, text);
    } else if Minted(p, newParent, level) && c == p.to {
      NewHolderIsLeaf(forest, path, newParent, level, holderFile, p);
      assert HoldsAt(moved, d', p.to + [holderFile], holderFile, text);
    } else {
      LeafKeepsListing(forest, path, newParent, level, holderFile, p, c);
      HolderWasNotThere(forest, c, holderFile);
      OnTheWay(p.to, holderFile, c);
      ElsewhereIsListed(forest, path, newParent, level, holderFile, p, c);
      assert HoldsAt(moved, d', c, file, text);
    }
  }

  lemma {:induction false} OnTheWay(at: Chain, file: string, c: Chain)
    ensures at + [file] <= c ==> file in c
  {
    if at + [file] <= c { assert c[|at|] == (at + [file])[|at|]; }
  }

  lemma {:induction false} NewHolderIsLeaf(forest: Forest, path: Path, newParent: Path, level: nat, holderFile: string, p: Place)
    requires Lawful(forest) && Moves(forest, path, newParent, level, holderFile, p) && p.index < |p.siblings|
    requires Minted(p, newParent, level)
    ensures IsLeaf(MovedForest(p, newParent, level, holderFile), p.to + [holderFile])
  {
    UsesOfMoved(forest, path, newParent, level, holderFile, p);
    MovedNotAbove(forest, path, newParent, level, holderFile, p);
    ElsewhereIsListed(forest, path, newParent, level, holderFile, p, p.to + [holderFile]);
  }

  lemma {:induction false} MovedTextIsThere(forest: Forest, d: Disk, path: Path, newParent: Path, level: nat, holderFile: string,
                                            p: Place, d': Disk, c: Chain, file: string, text: string)
    requires Lawful(forest) && Moves(forest, path, newParent, level, holderFile, p) && p.index < |p.siblings|
    requires Conserved(forest, d, p, newParent, level, holderFile, d') && HoldsAt(forest, d, c, file, text)
    requires p.siblings[p.index].file in c
    ensures Holds(MovedForest(p, newParent, level, holderFile), d', file, text)
  {
    var m := p.siblings[p.index].file;
    WithoutLists(forest, path, newParent, level, holderFile, p, p.from);
    ThroughItBefore(forest, p.from, p.siblings, p.index, c);
    var r := c[|p.from| + 1..];
    BelowIsListed(forest, path, newParent, level, holderFile, p, r);
    SamePlaceBelow(p.from, p.to, m, c);
    assert HoldsAt(MovedForest(p, newParent, level, holderFile), d', p.to + ([m] + r), file, text);
  }

  lemma {:induction false} SamePlaceBelow(from: Chain, to: Chain, m: string, c: Chain)
    requires from + [m] <= c
    ensures var r := c[|from| + 1..];
      && c == from + ([m] + r) == from + [m] + r && to + ([m] + r) == to + [m] + r
      && (to + ([m] + r))[|to + ([m] + r)| - 1] == c[|c| - 1]
  {
  }

  lemma {:induction false} RenameCarriesText(forest: Forest, d: Disk, path: Path, siblings: Forest, i: nat, heading: string, d': Disk,
                                             file: string, text: string)
    requires path != [] && SiblingsAt(forest, Parent(path)).Some?
    requires Lawful(forest) && Renames(forest, path, siblings, i, FilesAlong(forest, Parent(path)))
    requires i < |siblings| && (forall c | IsLeaf(forest, c) :: c in d && c in d' && d'[c] == d[c]) && Holds(forest, d, file, text)
    ensures Holds(RenamedForest(forest, path, siblings, i, heading), d', file, text)
  {
    var c :| HoldsAt(forest, d, c, file, text);
    RenamedLists(forest, path, siblings, i, FilesAlong(forest, Parent(path)), heading, c);
    assert RowsAt(forest, FilesAlong(forest, Parent(path))) == Some(Rows(siblings));
    assert |Rows(siblings)| > 0;
    assert HoldsAt(RenamedForest(forest, path, siblings, i, heading), d', c, file, text);
  }

  // ---- runs -------------------------------------------------------------------------------------------------------

  datatype FileEdit =
    | MoveFiles(path: Path, newParent: Path, level: nat, holderFile: string)
    | RenameFiles(path: Path, heading: string)

  /** A document whose files are those of its forest. */
  ghost predicate Sound(forest: Forest, d: Disk) {
    Lawful(forest) && HoldersAreLeaves(forest) && Stored(d, forest)
  }

  /** What callers say: paths of headings, and a new id for a holder. */
  predicate Proper(forest: Forest, e: FileEdit) {
    && e.path != [] && Leaf(e.path) != ""
    && match e
       case MoveFiles(_, newParent, _, holderFile) => (newParent != [] ==> Leaf(newParent) != "") && Uses(forest, holderFile) == 0
       case RenameFiles(_, heading) => heading != ""
  }

  /** Some section has this text. */
  ghost predicate Present(forest: Forest, d: Disk, text: string) {
    exists file :: Holds(forest, d, file, text)
  }
}
