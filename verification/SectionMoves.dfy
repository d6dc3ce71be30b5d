/**
 * Moving sections on disk, file by file: the steps of `moveSubtree` in backend/src/storage/content-layer.ts.
 *
 * A move reads the bodies of the subtree, edits the forest, writes the listings of the whole forest, removes the
 * files at the old place and writes the bodies back. Everything here follows one chain of files through these
 * steps: what the two forests list at it, and what the disk holds there in the end.
 */
module SectionMoves {
  import opened Basics
  import opened SectionForest
  import opened SectionFiles
  import opened SectionBodies

  // ---- which files a moved forest needs ------------------------------------------------------------------------

  // Everything a move looks up before it changes anything.
  datatype Place = Place(siblings: Forest, index: nat, from: Chain, without: Forest, target: Forest, to: Chain)

  ghost predicate Moves(forest: Forest, path: Path, newParent: Path, level: nat, holderFile: string, p: Place) {
    && path != [] && Leaf(path) != "" && Locate(forest, path) == Some((p.siblings, p.index))
    && p.from == FilesAlong(forest, Parent(path))
    && p.without == WithSiblings(forest, Parent(path), RemoveAt(p.siblings, p.index))
    && SiblingsAt(p.without, newParent) == Some(p.target)
    && p.to == FilesAlong(p.without, newParent)
    && Uses(forest, holderFile) == 0
  }

  function Relabeled(p: Place, level: nat): Node
    requires p.index < |p.siblings|
  {
    p.siblings[p.index].(level := level)
  }

  function MovedForest(p: Place, newParent: Path, level: nat, holderFile: string): Forest
    requires p.index < |p.siblings| && SiblingsAt(p.without, newParent).Some?
  {
    WithSiblings(p.without, newParent, Appended(newParent, p.target, Relabeled(p, level), holderFile))
  }

  function Minted(p: Place, newParent: Path, level: nat): bool
    requires p.index < |p.siblings|
  {
    !(newParent == [] || HasHolder(p.target + [Relabeled(p, level)]))
  }

  lemma {:induction false} LocatedIn(forest: Forest, path: Path)
    requires path != [] && Locate(forest, path).Some?
    ensures var (siblings, i) := Locate(forest, path).value;
      SiblingsAt(forest, Parent(path)) == Some(siblings) && i < |siblings|
  {
  }

  lemma {:induction false} UsesOfMoved(forest: Forest, path: Path, newParent: Path, level: nat, holderFile: string, p: Place)
    requires Lawful(forest) && Moves(forest, path, newParent, level, holderFile, p)
    ensures p.index < |p.siblings| && Lawful(p.siblings) && Lawful(p.without)
    ensures Uses(p.without, p.siblings[p.index].file) == 0 && Uses(p.without, holderFile) == 0
    ensures Uses(p.target, p.siblings[p.index].file) == 0 && Uses(p.target, holderFile) == 0
    ensures holderFile != p.siblings[p.index].file && Uses(p.siblings[p.index].children, holderFile) == 0
    ensures Uses(p.siblings[p.index].children, p.siblings[p.index].file) == 0
  {
    var siblings, i := p.siblings, p.index;
    var m := siblings[i].file;
    LocatedIn(forest, path);
    SiblingsDistinct(forest, Parent(path));
    DeleteKeepsLaw(forest, path);
    SiblingsLawful(forest, Parent(path));
    forall file
      ensures Uses(p.without, file) + OwnUses(siblings[i], file) == Uses(forest, file)
    {
      WithSiblingsUses(forest, Parent(path), RemoveAt(siblings, i), file);
      UsesSplit(siblings, i, file);
      UsesAppend(siblings[..i], siblings[i + 1..], file);
    }
    assert Uses(forest, m) <= 1 && OwnUses(siblings[i], m) >= 1;
    SiblingsLawful(p.without, newParent);
  }

  // What is listed after a push under `newParent`, below the place it happens.
  lemma {:induction false} PushedBelow(without: Forest, newParent: Path, target: Forest, node: Node, holderFile: string,
                                       to: Chain, r: Chain)
    requires DistinctFiles(without) && SiblingsAt(without, newParent) == Some(target) && to == FilesAlong(without, newParent)
    requires Uses(target, node.file) == 0 && Uses(target, holderFile) == 0 && holderFile != node.file && r != []
    ensures ListAt(without, to + r) == ListAt(target, r)
    ensures ListAt(WithSiblings(without, newParent, Appended(newParent, target, node, holderFile)), to + r)
         == if r[0] == node.file then ListAt(node.children, r[1..])
            else if !(newParent == [] || HasHolder(target + [node])) && r[0] == holderFile then ListAt([], r[1..])
            else ListAt(target, r)
  {
    var appended := Appended(newParent, target, node, holderFile);
    EditedLists(without, newParent, appended, to + r);
    assert (to + r)[|to|..] == r;
    AppendedLists(newParent, target, node, holderFile, r);
    SameListByFile(without, newParent);
    ListThrough(without, to, r);
  }

  lemma {:induction false} PrefixOfOneMore(to: Chain, x: string, c: Chain)
    requires to <= c && c != to
    ensures to + [x] <= c <==> c[|to|] == x
    ensures c == to + c[|to|..] && c[|to|..] != [] && c[|to|..][0] == c[|to|] && c[|to|..][1..] == c[|to| + 1..]
  {
  }

  /** What is listed after a move, for every chain. */
  lemma {:induction false} MovedLists(forest: Forest, path: Path, newParent: Path, level: nat, holderFile: string,
                                      p: Place, c: Chain)
    requires Lawful(forest) && Moves(forest, path, newParent, level, holderFile, p) && p.index < |p.siblings|
    ensures var m, moved := p.siblings[p.index].file, MovedForest(p, newParent, level, holderFile);
      if p.to + [m] <= c then ListAt(moved, c) == ListAt(p.siblings[p.index].children, c[|p.to| + 1..])
      else if c == p.to then RowsAt(moved, c) == Some(Rows(Appended(newParent, p.target, Relabeled(p, level), holderFile)))
      else if Minted(p, newParent, level) && p.to + [holderFile] <= c then ListAt(moved, c) == ListAt([], c[|p.to| + 1..])
      else RowsAt(moved, c) == RowsAt(p.without, c)
  {
    UsesOfMoved(forest, path, newParent, level, holderFile, p);
    if p.to <= c && c != p.to {
      PrefixOfOneMore(p.to, p.siblings[p.index].file, c);
      PrefixOfOneMore(p.to, holderFile, c);
      PushedBelow(p.without, newParent, p.target, Relabeled(p, level), holderFile, p.to, c[|p.to|..]);
    } else {
      EditedLists(p.without, newParent, Appended(newParent, p.target, Relabeled(p, level), holderFile), c);
    }
  }

  lemma {:induction false} ListThrough(forest: Forest, c: Chain, r: Chain)
    requires ListAt(forest, c).Some?
    ensures ListAt(forest, c + r) == ListAt(ListAt(forest, c).value, r)
    decreases |c|
  {
    if c == [] {
      assert c + r == r;
    } else {
      assert (c + r)[1..] == c[1..] + r;
      ListThrough(forest[FindFile(forest, c[0])].children, c[1..], r);
    }
  }

  /** What is listed once the moved section is out of its old list. */
  lemma {:induction false} WithoutLists(forest: Forest, path: Path, newParent: Path, level: nat, holderFile: string,
                                        p: Place, c: Chain)
    requires Lawful(forest) && Moves(forest, path, newParent, level, holderFile, p) && p.index < |p.siblings|
    ensures var m := p.siblings[p.index].file;
      if m in c then RowsAt(p.without, c) == None
      else if c == p.from then RowsAt(p.without, c) == Some(Rows(RemoveAt(p.siblings, p.index)))
      else RowsAt(p.without, c) == RowsAt(forest, c)
    ensures ListAt(forest, p.from) == Some(p.siblings)
  {
    UsesOfMoved(forest, path, newParent, level, holderFile, p);
    LocatedIn(forest, path);
    ListsWithoutOne(forest, Parent(path), p.siblings, p.index, c);
  }

  // One section out of one list: what every chain lists.
  lemma {:induction false} ListsWithoutOne(forest: Forest, parent: Path, siblings: Forest, i: nat, c: Chain)
    requires DistinctFiles(forest) && DistinctFiles(siblings)
    requires SiblingsAt(forest, parent) == Some(siblings) && i < |siblings|
    requires Uses(WithSiblings(forest, parent, RemoveAt(siblings, i)), siblings[i].file) == 0
    ensures var without, from := WithSiblings(forest, parent, RemoveAt(siblings, i)), FilesAlong(forest, parent);
      && ListAt(forest, from) == Some(siblings)
      && if siblings[i].file in c then RowsAt(without, c) == None
         else if c == from then RowsAt(without, c) == Some(Rows(RemoveAt(siblings, i)))
         else RowsAt(without, c) == RowsAt(forest, c)
  {
    var without, from := WithSiblings(forest, parent, RemoveAt(siblings, i)), FilesAlong(forest, parent);
    SameListByFile(forest, parent);
    EditedLists(forest, parent, RemoveAt(siblings, i), c);
    if siblings[i].file in c {
      if ListAt(without, c).Some? { ChainIsUsed(without, c, siblings[i].file); }
    } else if from <= c && c != from {
      var r := c[|from|..];
      assert c == from + r && r[0] in c;
      ListThrough(forest, from, r);
      RemovedLists(siblings, i, r);
    }
  }

  // The source of a moved file: the moved subtree keeps its place below the moved section.
  lemma {:induction false} MovedSubtreeWas(forest: Forest, path: Path, newParent: Path, level: nat, holderFile: string,
                                           p: Place, r: Chain)
    requires Lawful(forest) && Moves(forest, path, newParent, level, holderFile, p) && p.index < |p.siblings|
    ensures ListAt(forest, p.from + [p.siblings[p.index].file] + r) == ListAt(p.siblings[p.index].children, r)
    ensures ListAt(MovedForest(p, newParent, level, holderFile), p.to + [p.siblings[p.index].file] + r)
         == ListAt(p.siblings[p.index].children, r)
  {
    UsesOfMoved(forest, path, newParent, level, holderFile, p);
    WasBelow(forest, path, newParent, level, holderFile, p, r);
    var node := Relabeled(p, level);
    PushedBelow(p.without, newParent, p.target, node, holderFile, p.to, [node.file] + r);
    assert p.to + ([node.file] + r) == p.to + [node.file] + r && ([node.file] + r)[1..] == r;
  }

  lemma {:induction false} WasBelow(forest: Forest, path: Path, newParent: Path, level: nat, holderFile: string,
                                    p: Place, r: Chain)
    requires Lawful(forest) && Moves(forest, path, newParent, level, holderFile, p)
    requires p.index < |p.siblings| && DistinctFiles(p.siblings)
    ensures ListAt(forest, p.from + [p.siblings[p.index].file] + r) == ListAt(p.siblings[p.index].children, r)
  {
    var m := p.siblings[p.index].file;
    WithoutLists(forest, path, newParent, level, holderFile, p, []);
    ListThrough(forest, p.from, [m] + r);
    assert p.from + ([m] + r) == p.from + [m] + r && ([m] + r)[1..] == r;
    FileIsAt(p.siblings, p.index);
  }

  // ---- the disk ------------------------------------------------------------------------------------------------

  /** Writing the listings of `nodes` from `at` down: what one file is afterwards. A missing file may have been made,
    * empty, for a body holder. */
  ghost predicate WrittenAt(d: Disk, at: Chain, nodes: Forest, d': Disk, c: Chain) {
    if at <= c && (c == at || IsListed(nodes, c[|at|..])) then
      c in d' && d'[c] == Listing(RowsAt(nodes, c[|at|..]).GetOr([]))
    else if c in d then c in d' && d'[c] == d[c]
    else c in d' ==> d'[c] == Body("")
  }

  ghost predicate Written(d: Disk, at: Chain, nodes: Forest, d': Disk) { forall c :: WrittenAt(d, at, nodes, d', c) }

  // Removing a section's file, and everything below it when it has children.
  function Removed(d: Disk, at: Chain, whole: bool): Disk {
    map c | c in d && !(if whole then at <= c else c == at) :: d[c]
  }

  lemma {:induction false} OnePosition(a: Chain, b: Chain, m: string, r: Chain)
    requires m !in a && m !in b
    ensures a + [m] <= b + [m] + r <==> a == b
    ensures !(a + [m] <= b) && a + [m] != b
  {
    var s, t := a + [m], b + [m] + r;
    assert s[|a|] == m && t[|b|] == m;
    assert forall i :: 0 <= i < |a| ==> s[i] == a[i] && a[i] in a;
    assert forall i :: 0 <= i < |b| ==> t[i] == b[i] && b[i] in b;
    if s <= t {
      assert t[|a|] == m && forall i :: 0 <= i < |a| ==> t[i] == s[i];
      assert |a| == |b|;
      assert a == t[..|a|] && b == t[..|b|];
    }
    assert |a| < |b| ==> b[|a|] in b;
  }

  // Where the move's own section is, before and after, in chains that do not contain it.
  lemma {:induction false} MovedNotAbove(forest: Forest, path: Path, newParent: Path, level: nat, holderFile: string, p: Place)
    requires Lawful(forest) && Moves(forest, path, newParent, level, holderFile, p) && p.index < |p.siblings|
    ensures p.siblings[p.index].file !in p.from && p.siblings[p.index].file !in p.to && holderFile !in p.to
    ensures ListAt(p.without, p.to) == Some(p.target)
  {
    var m := p.siblings[p.index].file;
    UsesOfMoved(forest, path, newParent, level, holderFile, p);
    WithoutLists(forest, path, newParent, level, holderFile, p, p.from);
    SameListByFile(p.without, newParent);
    if m in p.to { ChainIsUsed(p.without, p.to, m); }
    if holderFile in p.to { ChainIsUsed(p.without, p.to, holderFile); }
    if m in p.from { NotAboveItself(forest, p.from, p.siblings, p.index); }
  }

  // A section does not stand above its own list.
  lemma {:induction false} NotAboveItself(forest: Forest, c: Chain, siblings: Forest, i: nat)
    requires DistinctFiles(forest) && ListAt(forest, c) == Some(siblings) && i < |siblings|
    ensures siblings[i].file !in c
    decreases |c|
  {
    if c != [] {
      var k := FindFile(forest, c[0]);
      ChildrenDistinct(forest, k);
      NotAboveItself(forest[k].children, c[1..], siblings, i);
      ListedIsUsed(forest[k].children, c[1..], siblings, i);
      UsesSplit(forest, k, siblings[i].file);
      assert Uses(forest, siblings[i].file) <= 1;
      assert c == [c[0]] + c[1..];
    }
  }

  lemma {:induction false} ListedIsUsed(forest: Forest, c: Chain, siblings: Forest, i: nat)
    requires ListAt(forest, c) == Some(siblings) && i < |siblings|
    ensures Uses(forest, siblings[i].file) >= 1
    decreases |c|
  {
    if c == [] {
      UsesSplit(forest, i, siblings[i].file);
    } else {
      var k := FindFile(forest, c[0]);
      ListedIsUsed(forest[k].children, c[1..], siblings, i);
      UsesSplit(forest, k, siblings[i].file);
    }
  }

  lemma {:induction false} NodeIsLawful(forest: Forest, path: Path, newParent: Path, level: nat, holderFile: string, p: Place)
    requires Lawful(forest) && HoldersAreLeaves(forest) && Moves(forest, path, newParent, level, holderFile, p)
    ensures p.index < |p.siblings|
    ensures Addressable([p.siblings[p.index]]) && HoldersAreLeaves([p.siblings[p.index]]) && DistinctFiles([p.siblings[p.index]])
  {
    UsesOfMoved(forest, path, newParent, level, holderFile, p);
    LocatedIn(forest, path);
    HoldersBelow(forest, Parent(path));
    var node := p.siblings[p.index];
    assert node in p.siblings;
    forall file ensures Uses([node], file) <= 1 {
      UsesSplit(p.siblings, p.index, file);
      assert Uses(p.siblings, file) <= 1;
      assert [node][1..] == [];
    }
  }

  lemma {:induction false} HoldersBelow(forest: Forest, path: Path)
    requires HoldersAreLeaves(forest) && SiblingsAt(forest, path).Some?
    ensures HoldersAreLeaves(SiblingsAt(forest, path).value)
    decreases |path|
  {
    if path != [] { HoldersBelow(forest[FindIndex(forest, path[0])].children, path[1..]); }
  }

  // ---- what a move does to one file ------------------------------------------------------------------------------

  // One run of the disk steps, with the listings written in between.
  ghost predicate Steps(d: Disk, p: Place, newParent: Path, level: nat, holderFile: string, forest': Forest, w: Disk, d': Disk)
    requires p.index < |p.siblings|
  {
    var node := p.siblings[p.index];
    && Written(d, [], forest', w)
    && var gone := Removed(w, p.from + [node.file], node.children != []);
       var held := if Minted(p, newParent, level) then gone[p.to + [holderFile] := Body(TextAt(d, p.to))] else gone;
       d' == WithBodies(held, p.to, LeafEntries([node], [], []), PreBodies(d, p.from, LeafEntries([node], [], [])))
  }

  // What one file is after the steps, by what it was once the listings were written.
  lemma {:induction false} FileAfter(d: Disk, p: Place, newParent: Path, level: nat, holderFile: string, forest': Forest,
                                     w: Disk, d': Disk, c: Chain)
    requires p.index < |p.siblings| && Steps(d, p, newParent, level, holderFile, forest', w, d')
    requires var node := p.siblings[p.index];
      Addressable([node]) && HoldersAreLeaves([node]) && DistinctFiles([node]) && holderFile != node.file
    ensures var node := p.siblings[p.index];
      if p.to <= c && IsLeaf([node], c[|p.to|..]) then c in d' && d'[c] == Body(TextAt(d, p.from + c[|p.to|..]))
      else if Minted(p, newParent, level) && c == p.to + [holderFile] then c in d' && d'[c] == Body(TextAt(d, p.to))
      else if (if node.children != [] then p.from + [node.file] <= c else c == p.from + [node.file]) then c !in d'
      else (c in d' <==> c in w) && (c in w ==> d'[c] == w[c])
  {
    var node := p.siblings[p.index];
    var gone := Removed(w, p.from + [node.file], node.children != []);
    var held := if Minted(p, newParent, level) then gone[p.to + [holderFile] := Body(TextAt(d, p.to))] else gone;
    BodiesTravel(d, held, p.from, p.to, node, c);
  }

  // A chain of the moved section: what the forests list there.
  lemma {:induction false} BelowIsListed(forest: Forest, path: Path, newParent: Path, level: nat, holderFile: string, p: Place,
                                         r: Chain)
    requires Lawful(forest) && Moves(forest, path, newParent, level, holderFile, p) && p.index < |p.siblings|
    ensures var node := p.siblings[p.index];
      && RowsAt(MovedForest(p, newParent, level, holderFile), p.to + [node.file] + r) == RowsAt([node], [node.file] + r)
      && RowsAt(forest, p.from + [node.file] + r) == RowsAt([node], [node.file] + r)
  {
    var node := p.siblings[p.index];
    UsesOfMoved(forest, path, newParent, level, holderFile, p);
    MovedSubtreeWas(forest, path, newParent, level, holderFile, p, r);
    ListsOfOne(node, [node.file] + r);
    assert ([node.file] + r)[1..] == r;
  }

  lemma {:induction false} ChainBelow(at: Chain, m: string, r: Chain, holderFile: string)
    requires holderFile != m
    ensures at <= at + [m] + r && (at + [m] + r)[|at|..] == [m] + r && at + ([m] + r) == at + [m] + r
    ensures at + [m] + r != at + [holderFile]
  {
    assert (at + [m] + r)[|at|] == m && (at + [holderFile])[|at|] == holderFile;
  }

  // A body of the moved section or below it.
  lemma {:induction false} BodyBelow(forest: Forest, path: Path, newParent: Path, level: nat, holderFile: string, p: Place,
                                     d: Disk, w: Disk, d': Disk, r: Chain)
    requires Lawful(forest) && HoldersAreLeaves(forest) && Moves(forest, path, newParent, level, holderFile, p)
    requires Stored(d, forest) && p.index < |p.siblings|
    requires Steps(d, p, newParent, level, holderFile, MovedForest(p, newParent, level, holderFile), w, d')
    requires IsLeaf([p.siblings[p.index]], [p.siblings[p.index].file] + r)
    ensures var m := p.siblings[p.index].file;
      var c, was := p.to + [m] + r, p.from + [m] + r;
      was in d && c in d' && d'[c] == d[was] && d'[c].Body?
  {
    var node := p.siblings[p.index];
    var m := node.file;
    var c := p.to + [m] + r;
    UsesOfMoved(forest, path, newParent, level, holderFile, p);
    NodeIsLawful(forest, path, newParent, level, holderFile, p);
    FileAfter(d, p, newParent, level, holderFile, MovedForest(p, newParent, level, holderFile), w, d', c);
    ChainBelow(p.to, m, r, holderFile);
    BelowIsListed(forest, path, newParent, level, holderFile, p, r);
    ChainBelow(p.from, m, r, holderFile);
    BodyIsStored(forest, d, p.from, [m] + r);
  }

  lemma {:induction false} BodyIsStored(forest: Forest, d: Disk, from: Chain, r: Chain)
    requires Stored(d, forest) && r != [] && RowsAt(forest, from + r) == Some([])
    ensures from + r in d && d[from + r].Body? && d[from + r] == Body(TextAt(d, from + r))
  {
    assert IsLeaf(forest, from + r);
  }

  // A listing of the moved section or below it: it is there afterwards unless the section kept its place.
  lemma {:induction false} ListingBelow(forest: Forest, path: Path, newParent: Path, level: nat, holderFile: string, p: Place,
                                        d: Disk, w: Disk, d': Disk, r: Chain)
    requires Lawful(forest) && HoldersAreLeaves(forest) && Moves(forest, path, newParent, level, holderFile, p)
    requires Stored(d, forest) && p.index < |p.siblings|
    requires Steps(d, p, newParent, level, holderFile, MovedForest(p, newParent, level, holderFile), w, d')
    requires IsListed([p.siblings[p.index]], [p.siblings[p.index].file] + r)
    ensures var node := p.siblings[p.index];
      var c := p.to + [node.file] + r;
      if p.from == p.to then c !in d' else c in d' && d'[c] == Listing(RowsAt([node], [node.file] + r).GetOr([]))
  {
    var node := p.siblings[p.index];
    var m := node.file;
    var c := p.to + [m] + r;
    UsesOfMoved(forest, path, newParent, level, holderFile, p);
    NodeIsLawful(forest, path, newParent, level, holderFile, p);
    FileAfter(d, p, newParent, level, holderFile, MovedForest(p, newParent, level, holderFile), w, d', c);
    ChainBelow(p.to, m, r, holderFile);
    BelowIsListed(forest, path, newParent, level, holderFile, p, r);
    HasChildren(node, r);
    MovedNotAbove(forest, path, newParent, level, holderFile, p);
    OnePosition(p.from, p.to, m, r);
    ListingIsWritten(d, w, MovedForest(p, newParent, level, holderFile), c);
  }

  lemma {:induction false} ListingIsWritten(d: Disk, w: Disk, nodes: Forest, c: Chain)
    requires Written(d, [], nodes, w) && IsListed(nodes, c)
    ensures c in w && w[c] == Listing(RowsAt(nodes, c).value)
  {
    assert WrittenAt(d, [], nodes, w, c) && c[0..] == c;
  }

  lemma {:induction false} HasChildren(node: Node, r: Chain)
    requires IsListed([node], [node.file] + r)
    ensures node.children != []
  {
    OnlyItself(node, r);
    ListsOfOne(node, [node.file] + r);
    assert ([node.file] + r)[1..] == r;
  }

  lemma {:induction false} OnlyItself(node: Node, r: Chain)
    ensures node.children == [] && r != [] ==> RowsAt([node], [node.file] + r) == None
  {
    ListsOfOne(node, [node.file] + r);
    assert ([node.file] + r)[1..] == r;
  }

  // A file elsewhere: the disk steps leave what the listings made of it.
  lemma {:induction false} FileElsewhere(forest: Forest, path: Path, newParent: Path, level: nat, holderFile: string, p: Place,
                                         d: Disk, w: Disk, d': Disk, c: Chain)
    requires Lawful(forest) && HoldersAreLeaves(forest) && Moves(forest, path, newParent, level, holderFile, p)
    requires Stored(d, forest) && p.index < |p.siblings|
    requires Steps(d, p, newParent, level, holderFile, MovedForest(p, newParent, level, holderFile), w, d')
    requires p.siblings[p.index].file !in c
    ensures if Minted(p, newParent, level) && c == p.to + [holderFile] then c in d' && d'[c] == Body(TextAt(d, p.to))
            else (c in d' <==> c in w) && (c in w ==> d'[c] == w[c])
  {
    var node := p.siblings[p.index];
    UsesOfMoved(forest, path, newParent, level, holderFile, p);
    NodeIsLawful(forest, path, newParent, level, holderFile, p);
    FileAfter(d, p, newParent, level, holderFile, MovedForest(p, newParent, level, holderFile), w, d', c);
    NotThrough(node, c, p.to);
    NotThrough(node, c, p.from);
  }

  lemma {:induction false} NotThrough(node: Node, c: Chain, at: Chain)
    requires node.file !in c
    ensures !(at <= c && IsLeaf([node], c[|at|..]))
    ensures !(at + [node.file] <= c)
  {
    if at <= c && |at| < |c| {
      ListsOfOne(node, c[|at|..]);
      assert c[|at|..][0] == c[|at|] && c[|at|] in c;
    }
    assert (at + [node.file])[|at|] == node.file;
  }

  // A chain that does not go through the moved section, listed after the move.
  lemma {:induction false} ElsewhereIsListed(forest: Forest, path: Path, newParent: Path, level: nat, holderFile: string, p: Place,
                                             c: Chain)
    requires Lawful(forest) && Moves(forest, path, newParent, level, holderFile, p) && p.index < |p.siblings|
    requires p.siblings[p.index].file !in c
    ensures var moved := MovedForest(p, newParent, level, holderFile);
      if c == p.to then IsListed(moved, c)
      else if Minted(p, newParent, level) && p.to + [holderFile] <= c then
        RowsAt(moved, c) == if c == p.to + [holderFile] then Some([]) else None
      else if c == p.from then IsListed(moved, c)
      else RowsAt(moved, c) == RowsAt(forest, c)
  {
    UsesOfMoved(forest, path, newParent, level, holderFile, p);
    MovedLists(forest, path, newParent, level, holderFile, p, c);
    WithoutLists(forest, path, newParent, level, holderFile, p, c);
    NotThrough(p.siblings[p.index], c, p.to);
    if c == p.from && c != [] { OthersStay(forest, path, newParent, level, holderFile, p); }
    if Minted(p, newParent, level) && p.to + [holderFile] <= c {
      assert c[|p.to| + 1..] == [] <==> c == p.to + [holderFile];
    }
  }

  // A parent still has its body holder once another of its sections is out.
  lemma {:induction false} OthersStay(forest: Forest, path: Path, newParent: Path, level: nat, holderFile: string, p: Place)
    requires Lawful(forest) && Moves(forest, path, newParent, level, holderFile, p) && p.index < |p.siblings|
    requires p.from != []
    ensures RemoveAt(p.siblings, p.index) != []
  {
    LocatedIn(forest, path);
    SiblingsLawful(forest, Parent(path));
    var node := p.siblings[p.index];
    NonEmptyMatch(node.heading, Leaf(path));
    var h :| h in p.siblings && IsBodyHolder(h);
    var j :| 0 <= j < |p.siblings| && p.siblings[j] == h;
    assert j != p.index;
    assert |p.siblings| >= 2;
  }
}
