/** The files of one content root: what each section's path on disk holds, and which files an edited forest needs. */
module SectionFiles {
  import opened Basics
  import opened SectionForest

  // The section files from the document's root down to one of them; the empty chain is the document's own file.
  type Chain = seq<string>

  datatype Row = Row(heading: string, level: nat, file: string)
  datatype File = Listing(rows: seq<Row>) | Body(text: string)
  type Disk = map<Chain, File>

  function Rows(siblings: Forest): (rows: seq<Row>)
    ensures |rows| == |siblings|
  {
    seq(|siblings|, i requires 0 <= i < |siblings| => Row(siblings[i].heading, siblings[i].level, siblings[i].file))
  }

  function FindFile(siblings: Forest, file: string): (i: nat)
    ensures i <= |siblings|
    ensures i < |siblings| ==> siblings[i].file == file
    ensures forall j :: 0 <= j < i ==> siblings[j].file != file
  {
    if siblings == [] || siblings[0].file == file then 0 else 1 + FindFile(siblings[1..], file)
  }

  /** The sections listed at a chain; a section without children lists none. */
  function ListAt(forest: Forest, c: Chain): Option<Forest>
    decreases |c|
  {
    if c == [] then Some(forest)
    else
      var i := FindFile(forest, c[0]);
      if i == |forest| then None else ListAt(forest[i].children, c[1..])
  }

  function RowsAt(forest: Forest, c: Chain): Option<seq<Row>> {
    match ListAt(forest, c)
    case None => None
    case Some(list) => Some(Rows(list))
  }

  predicate IsLeaf(forest: Forest, c: Chain) { c != [] && RowsAt(forest, c) == Some([]) }

  predicate IsListed(forest: Forest, c: Chain) { RowsAt(forest, c).Some? && !IsLeaf(forest, c) }

  /** The files are those of the forest: reading them back gives it, and every section without children has a body. */
  ghost predicate Stored(disk: Disk, forest: Forest) {
    && (forall c | IsListed(forest, c) :: c in disk && disk[c] == Listing(RowsAt(forest, c).value))
    && (forall c | IsLeaf(forest, c) :: c in disk && disk[c].Body?)
  }

  // ---- by heading and by file ------------------------------------------------------------------------------------

  function FilesAlong(forest: Forest, path: Path): Chain
    requires SiblingsAt(forest, path).Some?
    decreases |path|
  {
    if path == [] then []
    else
      var i := FindIndex(forest, path[0]);
      [forest[i].file] + FilesAlong(forest[i].children, path[1..])
  }

  lemma {:induction false} FileIsAt(siblings: Forest, i: nat)
    requires DistinctFiles(siblings) && i < |siblings|
    ensures FindFile(siblings, siblings[i].file) == i
  {
    var j := FindFile(siblings, siblings[i].file);
    if j < |siblings| { OneNodePerFile(siblings, j, i); }
  }

  lemma {:induction false} ChildrenDistinct(siblings: Forest, i: nat)
    requires DistinctFiles(siblings) && i < |siblings|
    ensures DistinctFiles(siblings[i].children)
  {
    forall file ensures Uses(siblings[i].children, file) <= 1 {
      UsesSplit(siblings, i, file);
      assert Uses(siblings, file) <= 1;
    }
  }

  lemma {:induction false} SameListByFile(forest: Forest, path: Path)
    requires DistinctFiles(forest) && SiblingsAt(forest, path).Some?
    ensures ListAt(forest, FilesAlong(forest, path)) == SiblingsAt(forest, path)
    decreases |path|
  {
    if path != [] {
      var i := FindIndex(forest, path[0]);
      FileIsAt(forest, i);
      ChildrenDistinct(forest, i);
      SameListByFile(forest[i].children, path[1..]);
      assert FilesAlong(forest, path)[1..] == FilesAlong(forest[i].children, path[1..]);
    }
  }

  lemma {:induction false} FindFileByFile(a: Forest, b: Forest, file: string)
    requires |a| == |b| && forall j :: 0 <= j < |a| ==> a[j].file == b[j].file
    ensures FindFile(a, file) == FindFile(b, file)
  {
    if a != [] && a[0].file != file { FindFileByFile(a[1..], b[1..], file); }
  }

  /** Editing one sibling list changes what is listed there and below and nothing anywhere else. */
  lemma {:induction false} EditedLists(forest: Forest, path: Path, siblings: Forest, c: Chain)
    requires DistinctFiles(forest) && SiblingsAt(forest, path).Some?
    ensures var edited, at := WithSiblings(forest, path, siblings), FilesAlong(forest, path);
      if at <= c then ListAt(edited, c) == ListAt(siblings, c[|at|..])
      else RowsAt(edited, c) == RowsAt(forest, c)
    decreases |path|
  {
    var edited, at := WithSiblings(forest, path, siblings), FilesAlong(forest, path);
    if path == [] {
      assert c[0..] == c;
    } else {
      var i := FindIndex(forest, path[0]);
      WithSiblingsRoots(forest, path, siblings);
      FileIsAt(forest, i);
      ChildrenDistinct(forest, i);
      if c == [] {
        assert Rows(edited) == Rows(forest);
      } else {
        FindFileByFile(forest, edited, c[0]);
        if FindFile(forest, c[0]) == i {
          EditedLists(forest[i].children, path[1..], siblings, c[1..]);
          assert at == [forest[i].file] + at[1..];
          assert at <= c <==> at[1..] <= c[1..];
          if at <= c { assert c[|at|..] == c[1..][|at| - 1..]; }
        }
      }
    }
  }

  // Every file along a chain that is listed is used in the forest.
  lemma {:induction false} ChainIsUsed(forest: Forest, c: Chain, file: string)
    requires ListAt(forest, c).Some? && file in c
    ensures Uses(forest, file) >= 1
    decreases |c|
  {
    var i := FindFile(forest, c[0]);
    UsesSplit(forest, i, file);
    if file != c[0] {
      ChainIsUsed(forest[i].children, c[1..], file);
    }
  }

  // ---- one sibling list ------------------------------------------------------------------------------------------

  lemma {:induction false} FindFileInFront(a: Forest, b: Forest, file: string)
    ensures FindFile(a + b, file) == if FindFile(a, file) < |a| then FindFile(a, file) else |a| + FindFile(b, file)
  {
    if a == [] {
      assert a + b == b;
    } else if a[0].file != file {
      assert (a + b)[1..] == a[1..] + b;
      FindFileInFront(a[1..], b, file);
    }
  }

  lemma {:induction false} ListsOfBoth(a: Forest, b: Forest, c: Chain)
    requires c != []
    ensures ListAt(a + b, c) == if FindFile(a, c[0]) < |a| then ListAt(a, c) else ListAt(b, c)
  {
    FindFileInFront(a, b, c[0]);
  }

  lemma {:induction false} ListsOfOne(n: Node, c: Chain)
    requires c != []
    ensures ListAt([n], c) == if c[0] == n.file then ListAt(n.children, c[1..]) else None
  {
  }

  lemma {:induction false} NoSuchFile(siblings: Forest, file: string)
    requires Uses(siblings, file) == 0
    ensures FindFile(siblings, file) == |siblings|
  {
    var i := FindFile(siblings, file);
    if i < |siblings| { UsesSplit(siblings, i, file); }
  }

  /** Without one of the sections, the others are listed as before and it is not. */
  lemma {:induction false} RemovedLists(siblings: Forest, i: nat, c: Chain)
    requires DistinctFiles(siblings) && i < |siblings| && c != []
    ensures ListAt(RemoveAt(siblings, i), c) == if c[0] == siblings[i].file then None else ListAt(siblings, c)
  {
    var front, n, back := siblings[..i], siblings[i], siblings[i + 1..];
    assert siblings == front + ([n] + back);
    ListsOfBoth(front, [n] + back, c);
    ListsOfBoth([n], back, c);
    ListsOfBoth(front, back, c);
    UsesSplit(siblings, i, n.file);
    assert Uses(siblings, n.file) <= 1;
    if c[0] == n.file {
      NoSuchFile(front, n.file);
      NoSuchFile(back, n.file);
    }
  }

  /** What is listed after a push, with a body holder minted for a former leaf. */
  lemma {:induction false} AppendedLists(parent: Path, siblings: Forest, node: Node, holderFile: string, c: Chain)
    requires c != [] && Uses(siblings, node.file) == 0 && Uses(siblings, holderFile) == 0 && holderFile != node.file
    ensures var minted := !(parent == [] || HasHolder(siblings + [node]));
      ListAt(Appended(parent, siblings, node, holderFile), c)
        == if c[0] == node.file then ListAt(node.children, c[1..])
           else if minted && c[0] == holderFile then ListAt([], c[1..])
           else ListAt(siblings, c)
  {
    var holder := Node("", 0, holderFile, []);
    NoSuchFile(siblings, node.file);
    NoSuchFile(siblings, holderFile);
    ListsOfBoth(siblings, [node], c);
    ListsOfOne(node, c);
    if !(parent == [] || HasHolder(siblings + [node])) {
      assert [holder] + siblings + [node] == [holder] + (siblings + [node]);
      ListsOfBoth([holder], siblings + [node], c);
      ListsOfOne(holder, c);
      if FindFile(siblings, c[0]) == |siblings| && c[0] != node.file { assert ListAt(siblings, c) == None; }
    }
  }
}
