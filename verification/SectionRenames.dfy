/** Renaming a heading on disk, and when the forest survives it. */
module SectionRenames {
  import opened Basics
  import opened SectionForest
  import opened SectionFiles
  import opened SectionBodies
  import opened SectionMoves

  // What a rename looks up: the sibling list, the section in it and the chain of its list.
  ghost predicate Renames(forest: Forest, path: Path, siblings: Forest, i: nat, from: Chain) {
    && path != [] && Leaf(path) != "" && Locate(forest, path) == Some((siblings, i))
    && from == FilesAlong(forest, Parent(path))
  }

  function RenamedForest(forest: Forest, path: Path, siblings: Forest, i: nat, heading: string): Forest
    requires path != [] && i < |siblings| && SiblingsAt(forest, Parent(path)).Some?
  {
    WithSiblings(forest, Parent(path), Retitled(siblings, i, heading, siblings[i].level))
  }

  /** After a rename every list is as it was but the one that names the section. */
  lemma {:induction false} RenamedLists(forest: Forest, path: Path, siblings: Forest, i: nat, from: Chain, heading: string, c: Chain)
    requires Lawful(forest) && Renames(forest, path, siblings, i, from)
    ensures SiblingsAt(forest, Parent(path)) == Some(siblings) && i < |siblings| && Lawful(siblings)
    ensures ListAt(forest, from) == Some(siblings)
    ensures var renamed := RenamedForest(forest, path, siblings, i, heading);
      RowsAt(renamed, c) == if c == from then Some(Rows(Retitled(siblings, i, heading, siblings[i].level))) else RowsAt(forest, c)
  {
    LocatedIn(forest, path);
    SiblingsDistinct(forest, Parent(path));
    SameListByFile(forest, Parent(path));
    var edited := Retitled(siblings, i, heading, siblings[i].level);
    EditedLists(forest, Parent(path), edited, c);
    if from <= c && c != from {
      var r := c[|from|..];
      assert c == from + r;
      ListThrough(forest, from, r);
      FindFileByFile(siblings, edited, r[0]);
    }
  }

  // The section's content is one body: its own, or that of the body holder that is its only child.
  predicate OneBody(node: Node) { Leaves([node]) <= 1 }

  function TopBody(node: Node, at: Chain): Chain {
    if node.children == [] then at else at + [node.children[0].file]
  }

  // The disk of a rename, with the listings written in between: a section with several bodies only has its listings
  // written; otherwise its files are removed afterwards and its one body is written back.
  ghost predicate RenamesOnDisk(d: Disk, node: Node, at: Chain, forest': Forest, w: Disk, d': Disk) {
    && Written(d, [], forest', w)
    && d' == if !OneBody(node) then w
             else (map c | c in w && c != at && c != TopBody(node, at) :: w[c])
                    [TopBody(node, at) := Body(TextAt(d, TopBody(node, at)))]
  }

  lemma {:induction false} AtLeastOneEach(forest: Forest)
    ensures Leaves(forest) >= |forest|
    decreases forest
  {
    if forest != [] {
      AtLeastOneEach(forest[1..]);
      if forest[0].children != [] { AtLeastOneEach(forest[0].children); }
    }
  }

  // The only child of a section with one body is a body holder without children.
  lemma {:induction false} OnlyAHolder(node: Node)
    requires OneBody(node) && node.children != [] && ChildListOk(node.children) && HoldersAreLeaves([node])
    ensures |node.children| == 1 && IsBodyHolder(node.children[0]) && node.children[0].children == []
  {
    AtLeastOneEach(node.children);
    assert [node][1..] == [];
    assert Leaves([node]) == Leaves(node.children);
    assert node in [node] && node.children[0] in node.children;
  }

  // Where the section and its only body stand among the lists.
  lemma {:induction false} SectionListed(forest: Forest, path: Path, siblings: Forest, i: nat, from: Chain)
    requires Lawful(forest) && HoldersAreLeaves(forest) && Renames(forest, path, siblings, i, from)
    ensures i < |siblings| && RowsAt(forest, from + [siblings[i].file]) == Some(Rows(siblings[i].children))
    ensures ChildListOk(siblings[i].children) && HoldersAreLeaves([siblings[i]])
    ensures OneBody(siblings[i]) ==> IsLeaf(forest, TopBody(siblings[i], from + [siblings[i].file]))
    ensures from + [siblings[i].file] != from && TopBody(siblings[i], from + [siblings[i].file]) != from
  {
    RenamedLists(forest, path, siblings, i, from, "", []);
    var node := siblings[i];
    FileIsAt(siblings, i);
    assert [node.file][1..] == [];
    ListThrough(forest, from, [node.file]);
    HoldersBelow(forest, Parent(path));
    assert node in siblings;
    if OneBody(node) && node.children != [] {
      OnlyAHolder(node);
      var h := node.children[0];
      ListThrough(forest, from + [node.file], [h.file]);
      assert node.children == [h];
      ListsOfOne(h, [h.file]);
      assert [h.file][1..] == [];
    }
  }

  /** No body is lost by a rename: each stands after it where it stood. */
  lemma {:induction false} RenameConservesBodies(forest: Forest, path: Path, siblings: Forest, i: nat, from: Chain, heading: string,
                                                 d: Disk, w: Disk, d': Disk, c: Chain)
    requires Lawful(forest) && HoldersAreLeaves(forest) && Renames(forest, path, siblings, i, from) && Stored(d, forest)
    requires i < |siblings| && SiblingsAt(forest, Parent(path)).Some?
    requires RenamesOnDisk(d, siblings[i], from + [siblings[i].file], RenamedForest(forest, path, siblings, i, heading), w, d')
    requires IsLeaf(forest, c)
    ensures c in d && c in d' && d'[c] == d[c]
  {
    var renamed := RenamedForest(forest, path, siblings, i, heading);
    var node, at := siblings[i], from + [siblings[i].file];
    SectionListed(forest, path, siblings, i, from);
    RenamedLists(forest, path, siblings, i, from, heading, c);
    assert WrittenAt(d, [], renamed, w, c) && c[0..] == c;
    assert |Rows(siblings)| > 0;
    if OneBody(node) && c == at {
      assert Rows(node.children) == [];
      assert node.children == [];
    }
  }

  /** The files are those of the renamed forest exactly when the section is not a parent whose only child is its body
    * holder: such a parent's listing is written and then removed with its old files. */
  lemma {:induction false} RenameIsStoredIff(forest: Forest, path: Path, siblings: Forest, i: nat, from: Chain, heading: string,
                                             d: Disk, w: Disk, d': Disk)
    requires Lawful(forest) && HoldersAreLeaves(forest) && Renames(forest, path, siblings, i, from) && Stored(d, forest)
    requires i < |siblings| && SiblingsAt(forest, Parent(path)).Some?
    requires RenamesOnDisk(d, siblings[i], from + [siblings[i].file], RenamedForest(forest, path, siblings, i, heading), w, d')
    ensures Stored(d', RenamedForest(forest, path, siblings, i, heading))
       <==> !(siblings[i].children != [] && OneBody(siblings[i]))
  {
    var renamed := RenamedForest(forest, path, siblings, i, heading);
    var node, at := siblings[i], from + [siblings[i].file];
    SectionListed(forest, path, siblings, i, from);
    if node.children != [] && OneBody(node) {
      RenamedLists(forest, path, siblings, i, from, heading, at);
      assert |Rows(node.children)| > 0;
      assert TopBody(node, at) != at;
      assert IsListed(renamed, at) && at !in d';
    } else {
      forall c | RowsAt(renamed, c).Some?
        ensures IsListed(renamed, c) ==> c in d' && d'[c] == Listing(RowsAt(renamed, c).value)
        ensures IsLeaf(renamed, c) ==> c in d' && d'[c].Body?
      {
        StoredAfterRename(forest, path, siblings, i, from, heading, d, w, d', c);
      }
    }
  }

  lemma {:induction false} StoredAfterRename(forest: Forest, path: Path, siblings: Forest, i: nat, from: Chain, heading: string,
                                             d: Disk, w: Disk, d': Disk, c: Chain)
    requires Lawful(forest) && HoldersAreLeaves(forest) && Renames(forest, path, siblings, i, from) && Stored(d, forest)
    requires i < |siblings| && SiblingsAt(forest, Parent(path)).Some?
    requires RenamesOnDisk(d, siblings[i], from + [siblings[i].file], RenamedForest(forest, path, siblings, i, heading), w, d')
    requires siblings[i].children == [] || !OneBody(siblings[i])
    ensures var renamed := RenamedForest(forest, path, siblings, i, heading);
      && (IsListed(renamed, c) ==> c in d' && d'[c] == Listing(RowsAt(renamed, c).value))
      && (IsLeaf(renamed, c) ==> c in d' && d'[c].Body?)
  {
    var renamed := RenamedForest(forest, path, siblings, i, heading);
    var node, at := siblings[i], from + [siblings[i].file];
    SectionListed(forest, path, siblings, i, from);
    RenamedLists(forest, path, siblings, i, from, heading, c);
    assert WrittenAt(d, [], renamed, w, c) && c[0..] == c;
    assert |Rows(Retitled(siblings, i, heading, node.level))| > 0;
    if IsLeaf(renamed, c) {
      RenameConservesBodies(forest, path, siblings, i, from, heading, d, w, d', c);
    } else if IsListed(renamed, c) && OneBody(node) {
      assert RowsAt(forest, at) == Some([]);
      assert c != at;
    }
  }
}
