/** The in-memory section forest of a document: lookups and structural mutations. */
module SectionForest {
  import opened Basics

  // A node with children keeps its own body in a headless body holder among them. A heading is addressed by its path
  // of headings, compared without regard to case, and lookup takes the first match.

  datatype Node = Node(heading: string, level: nat, file: string, children: Forest)

  type Forest = seq<Node>

  type Path = seq<string>

  datatype Failure = Stale | DuplicateSibling | OutOfRange | NotAParent

  datatype Result = Ok(forest: Forest) | Err(failure: Failure)

  function LowerChar(c: char): char {
    if 'A' <= c <= 'Z' then (c as int + 32) as char else c
  }

  function Lower(text: string): (lower: string)
    ensures |lower| == |text|
  {
    seq(|text|, i requires 0 <= i < |text| => LowerChar(text[i]))
  }

  predicate HeadingsEqual(a: string, b: string) {
    Lower(a) == Lower(b)
  }

  predicate IsBodyHolder(node: Node) {
    node.level == 0 && node.heading == ""
  }

  predicate HasHolder(siblings: Forest) {
    exists node <- siblings :: IsBodyHolder(node)
  }

  // ----- lookup

  function FindIndex(siblings: Forest, heading: string): (i: nat)
    ensures i <= |siblings|
    ensures i < |siblings| ==> HeadingsEqual(siblings[i].heading, heading)
    ensures forall j | 0 <= j < i :: !HeadingsEqual(siblings[j].heading, heading)
  {
    if siblings == [] then 0
    else if HeadingsEqual(siblings[0].heading, heading) then 0
    else 1 + FindIndex(siblings[1..], heading)
  }

  function FindHolder(siblings: Forest): (i: nat)
    ensures i <= |siblings|
    ensures i < |siblings| ==> IsBodyHolder(siblings[i])
    ensures forall j | 0 <= j < i :: !IsBodyHolder(siblings[j])
  {
    if siblings == [] then 0 else if IsBodyHolder(siblings[0]) then 0 else 1 + FindHolder(siblings[1..])
  }

  /** The list of sections directly under a heading path. */
  function SiblingsAt(forest: Forest, parent: Path): Option<Forest>
    decreases |parent|
  {
    if parent == [] then Some(forest)
    else
      var i := FindIndex(forest, parent[0]);
      if i == |forest| then None else SiblingsAt(forest[i].children, parent[1..])
  }

  function WithSiblings(forest: Forest, parent: Path, siblings: Forest): Forest
    requires SiblingsAt(forest, parent).Some?
    decreases |parent|
  {
    if parent == [] then siblings
    else
      var i := FindIndex(forest, parent[0]);
      forest[i := forest[i].(children := WithSiblings(forest[i].children, parent[1..], siblings))]
  }

  function Parent(path: Path): Path
    requires path != []
  {
    path[..|path| - 1]
  }

  predicate NoEmptySegment(path: Path) {
    forall i | 0 <= i < |path| :: path[i] != ""
  }

  function Leaf(path: Path): string
    requires path != []
  {
    path[|path| - 1]
  }

  /** Where a heading path leads: its sibling list and its index there; the empty path means the headless root. */
  function Locate(forest: Forest, path: Path): Option<(Forest, nat)> {
    if path == [] then
      var i := FindHolder(forest);
      if i == |forest| then None else Some((forest, i))
    else
      var siblings := SiblingsAt(forest, Parent(path));
      if siblings.None? then None
      else
        var i := FindIndex(siblings.value, Leaf(path));
        if i == |siblings.value| then None else Some((siblings.value, i))
  }

  /** The sections with a body of their own: childless nodes. */
  function Leaves(forest: Forest): nat
    decreases forest
  {
    if forest == [] then 0
    else (if forest[0].children == [] then 1 else Leaves(forest[0].children)) + Leaves(forest[1..])
  }

  // ----- the write law: sibling headings are pairwise distinct as addresses

  predicate DistinctHeadings(siblings: Forest) {
    forall i, j | 0 <= i < j < |siblings| :: !HeadingsEqual(siblings[i].heading, siblings[j].heading)
  }

  /** What may stand below a heading: nothing, or sections among which one holds the heading's own body. */
  predicate ChildListOk(children: Forest) {
    children == [] || HasHolder(children)
  }

  /**
   * Sibling headings are distinct at every depth, only a body holder has an empty heading, and every node with
   * children has a body holder.
   */
  predicate Addressable(forest: Forest)
    decreases forest
  {
    && DistinctHeadings(forest)
    && forall node <- forest ::
         (node.heading == "" ==> node.level == 0) && ChildListOk(node.children) && Addressable(node.children)
  }

  /** How many nodes have this file id. */
  function Uses(forest: Forest, file: string): nat
    decreases forest
  {
    if forest == [] then 0
    else (if forest[0].file == file then 1 else 0) + Uses(forest[0].children, file) + Uses(forest[1..], file)
  }

  /** No two nodes share a file id. */
  ghost predicate DistinctFiles(forest: Forest) {
    forall file :: Uses(forest, file) <= 1
  }

  ghost predicate Lawful(forest: Forest) {
    Addressable(forest) && DistinctFiles(forest)
  }

  // ----- each address leads to at most one section

  /** In how many ways a heading path can be followed. */
  function Ways(forest: Forest, path: Path): nat
    requires path != []
    decreases forest
  {
    if forest == [] then 0
    else
      (if !HeadingsEqual(forest[0].heading, path[0]) then 0
       else if |path| == 1 then 1 else Ways(forest[0].children, path[1..])) + Ways(forest[1..], path)
  }

  lemma {:induction false} NoWayWithoutMatch(forest: Forest, path: Path)
    requires path != [] && forall node <- forest :: !HeadingsEqual(node.heading, path[0])
    ensures Ways(forest, path) == 0
  {
    if forest != [] { NoWayWithoutMatch(forest[1..], path); }
  }

  /** In an addressable forest every heading path leads to at most one section, and lookup finds it. */
  lemma {:induction false} AtMostOneWay(forest: Forest, path: Path)
    requires Addressable(forest) && path != []
    ensures Ways(forest, path) == if Locate(forest, path).Some? then 1 else 0
    decreases |path|, |forest|
  {
    if forest == [] {
    } else if HeadingsEqual(forest[0].heading, path[0]) {
      FirstMatches(forest, path);
      if |path| > 1 {
        AtMostOneWay(forest[0].children, path[1..]);
        LocateBelow(forest, path);
      }
    } else {
      AtMostOneWay(forest[1..], path);
      LocateLater(forest, path);
    }
  }

  // The first section has the heading, so no later one does.
  lemma {:induction false} FirstMatches(forest: Forest, path: Path)
    requires Addressable(forest) && forest != [] && path != [] && HeadingsEqual(forest[0].heading, path[0])
    ensures Addressable(forest[0].children)
    ensures Ways(forest, path) == if |path| == 1 then 1 else Ways(forest[0].children, path[1..])
    ensures FindIndex(forest, path[0]) == 0
  {
    assert forest[0] in forest;
    forall node <- forest[1..] ensures !HeadingsEqual(node.heading, path[0]) {
      var j :| 0 <= j < |forest[1..]| && forest[1..][j] == node;
      assert !HeadingsEqual(forest[0].heading, forest[j + 1].heading);
    }
    NoWayWithoutMatch(forest[1..], path);
  }

  lemma {:induction false} LocateBelow(forest: Forest, path: Path)
    requires |path| > 1 && forest != [] && FindIndex(forest, path[0]) == 0
    ensures Locate(forest, path) == Locate(forest[0].children, path[1..])
  {
    assert Parent(path)[1..] == Parent(path[1..]);
    assert Parent(path)[0] == path[0];
  }

  lemma {:induction false} LocateLater(forest: Forest, path: Path)
    requires path != [] && forest != [] && !HeadingsEqual(forest[0].heading, path[0])
    ensures Locate(forest, path).Some? <==> Locate(forest[1..], path).Some?
  {
    assert FindIndex(forest, path[0]) == 1 + FindIndex(forest[1..], path[0]);
    if |path| > 1 { assert Parent(path)[0] == path[0]; }
  }

  // ----- editing one sibling list

  lemma {:induction false} SiblingsLawful(forest: Forest, parent: Path)
    requires Addressable(forest) && SiblingsAt(forest, parent).Some?
    ensures Addressable(SiblingsAt(forest, parent).value)
    ensures parent != [] ==> ChildListOk(SiblingsAt(forest, parent).value)
    ensures forall file :: Uses(SiblingsAt(forest, parent).value, file) <= Uses(forest, file)
    decreases |parent|
  {
    if parent != [] {
      var i := FindIndex(forest, parent[0]);
      SiblingsLawful(forest[i].children, parent[1..]);
      forall file { UsesSplit(forest, i, file); }
    }
  }

  lemma {:induction false} UsesAppend(a: Forest, b: Forest, file: string)
    ensures Uses(a + b, file) == Uses(a, file) + Uses(b, file)
    decreases |a|
  {
    if a == [] {
      assert a + b == b;
    } else {
      assert (a + b)[0] == a[0] && (a + b)[1..] == a[1..] + b;
      UsesAppend(a[1..], b, file);
    }
  }

  function OwnUses(node: Node, file: string): nat {
    (if node.file == file then 1 else 0) + Uses(node.children, file)
  }

  lemma {:induction false} UsesSplit(siblings: Forest, i: nat, file: string)
    requires i < |siblings|
    ensures Uses(siblings, file) == Uses(siblings[..i], file) + OwnUses(siblings[i], file) + Uses(siblings[i + 1..], file)
  {
    var tail := siblings[i..];
    assert siblings == siblings[..i] + tail;
    assert tail[0] == siblings[i] && tail[1..] == siblings[i + 1..];
    UsesAppend(siblings[..i], tail, file);
  }

  /** An edited forest has the same root headings, levels and files as before, unless its root list was replaced. */
  lemma {:induction false} WithSiblingsRoots(forest: Forest, parent: Path, siblings: Forest)
    requires SiblingsAt(forest, parent).Some? && parent != []
    ensures var edited := WithSiblings(forest, parent, siblings);
      && |edited| == |forest|
      && (forall j | 0 <= j < |forest| ::
            edited[j].heading == forest[j].heading && edited[j].level == forest[j].level && edited[j].file == forest[j].file)
      && (HasHolder(forest) ==> HasHolder(edited))
  {
    var edited := WithSiblings(forest, parent, siblings);
    if holder :| holder in forest && IsBodyHolder(holder) {
      var j :| 0 <= j < |forest| && forest[j] == holder;
      assert edited[j] in edited && IsBodyHolder(edited[j]);
    }
  }

  /** Replacing one sibling list swaps exactly that list's ids. */
  lemma {:induction false} WithSiblingsUses(forest: Forest, parent: Path, siblings: Forest, file: string)
    requires SiblingsAt(forest, parent).Some?
    ensures Uses(WithSiblings(forest, parent, siblings), file) + Uses(SiblingsAt(forest, parent).value, file)
         == Uses(forest, file) + Uses(siblings, file)
    decreases |parent|
  {
    if parent != [] {
      var i := FindIndex(forest, parent[0]);
      var edited := WithSiblings(forest, parent, siblings);
      WithSiblingsUses(forest[i].children, parent[1..], siblings, file);
      assert edited[..i] == forest[..i] && edited[i + 1..] == forest[i + 1..];
      UsesSplit(forest, i, file);
      UsesSplit(edited, i, file);
    }
  }

  lemma {:induction false} WithSiblingsRead(forest: Forest, parent: Path, siblings: Forest)
    requires SiblingsAt(forest, parent).Some?
    ensures SiblingsAt(WithSiblings(forest, parent, siblings), parent) == Some(siblings)
    decreases |parent|
  {
    if parent != [] {
      var i := FindIndex(forest, parent[0]);
      var edited := WithSiblings(forest, parent, siblings);
      WithSiblingsRead(forest[i].children, parent[1..], siblings);
      WithSiblingsRoots(forest, parent, siblings);
      FindIndexByHeading(forest, edited, parent[0]);
    }
  }

  /** Replacing one sibling list by a lawful one keeps the forest addressable. */
  lemma {:induction false} WithSiblingsAddressable(forest: Forest, parent: Path, siblings: Forest)
    requires Addressable(forest) && Addressable(siblings) && SiblingsAt(forest, parent).Some?
    requires parent != [] ==> ChildListOk(siblings)
    ensures Addressable(WithSiblings(forest, parent, siblings))
    decreases |parent|
  {
    if parent != [] {
      var i := FindIndex(forest, parent[0]);
      var edited := WithSiblings(forest, parent, siblings);
      WithSiblingsAddressable(forest[i].children, parent[1..], siblings);
      WithSiblingsRoots(forest, parent, siblings);
      if parent[1..] != [] { WithSiblingsRoots(forest[i].children, parent[1..], siblings); }
      NewChildrenAddressable(forest, i, WithSiblings(forest[i].children, parent[1..], siblings));
    }
  }

  lemma {:induction false} WithSiblingsLawful(forest: Forest, parent: Path, siblings: Forest)
    requires Addressable(forest) && Addressable(siblings) && SiblingsAt(forest, parent).Some?
    requires parent != [] ==> ChildListOk(siblings)
    ensures var edited := WithSiblings(forest, parent, siblings);
      && Addressable(edited)
      && forall file ::
           Uses(edited, file) + Uses(SiblingsAt(forest, parent).value, file) == Uses(forest, file) + Uses(siblings, file)
  {
    WithSiblingsAddressable(forest, parent, siblings);
    forall file
      ensures Uses(WithSiblings(forest, parent, siblings), file) + Uses(SiblingsAt(forest, parent).value, file)
           == Uses(forest, file) + Uses(siblings, file)
    {
      WithSiblingsUses(forest, parent, siblings, file);
    }
  }

  lemma {:induction false} FindIndexByHeading(a: Forest, b: Forest, heading: string)
    requires |a| == |b| && forall j | 0 <= j < |a| :: a[j].heading == b[j].heading
    ensures FindIndex(a, heading) == FindIndex(b, heading)
  {
    if a != [] && !HeadingsEqual(a[0].heading, heading) { FindIndexByHeading(a[1..], b[1..], heading); }
  }

  // ----- the mutations

  /** `assertNoDuplicateSiblingHeadingCollision`: some sibling other than the target's file has this address. */
  predicate Collides(siblings: Forest, targetFile: string, heading: string) {
    exists node <- siblings :: node.file != targetFile && HeadingsEqual(node.heading, heading)
  }

  function RemoveAt(siblings: Forest, i: nat): Forest
    requires i < |siblings|
  {
    siblings[..i] + siblings[i + 1..]
  }

  function Delete(forest: Forest, path: Path): Result {
    match Locate(forest, path)
    case None => Err(Stale)
    case Some((siblings, i)) =>
      var edited := RemoveAt(siblings, i);
      Ok(if path == [] then edited else WithSiblings(forest, Parent(path), edited))
  }

  /** Renaming and re-levelling in place; `renameHeading` keeps the level. */
  function Retitle(forest: Forest, path: Path, heading: string, level: nat): Result
    requires path != []
  {
    match Locate(forest, path)
    case None => Err(Stale)
    case Some((siblings, i)) =>
      if Collides(siblings, siblings[i].file, heading) then Err(DuplicateSibling)
      else Ok(WithSiblings(forest, Parent(path), Retitled(siblings, i, heading, level)))
  }

  function Reordered(siblings: Forest, i: nat, leaf: string, before: bool): Forest
    requires i < |siblings|
  {
    var rest := RemoveAt(siblings, i);
    var t := FindIndex(rest, leaf);
    var at := if before || t == |rest| then t else t + 1;
    rest[..at] + [siblings[i]] + rest[at..]
  }

  function Reorder(forest: Forest, path: Path, leaf: string, before: bool): Result
    requires path != []
  {
    match Locate(forest, path)
    case None => Err(Stale)
    case Some((siblings, i)) =>
      var t := FindIndex(siblings, leaf);
      if t == |siblings| then Err(Stale)
      else if t == i then Ok(forest)
      else Ok(WithSiblings(forest, Parent(path), Reordered(siblings, i, leaf, before)))
  }

  function Insert(forest: Forest, parent: Path, index: int, node: Node): Result
    requires parent != []
  {
    match SiblingsAt(forest, parent)
    case None => Err(Stale)
    case Some(children) =>
      if Leaves(children) <= 1 then Err(NotAParent)
      else if Collides(children, node.file, node.heading) then Err(DuplicateSibling)
      else
        var offset := if IsBodyHolder(children[0]) then 1 else 0;
        if index < 0 || index > |children| - offset then Err(OutOfRange)
        else Ok(WithSiblings(forest, parent, children[..offset + index] + [node] + children[offset + index..]))
  }

  /** Splices replacement roots over the section at `path`. */
  function ReplaceSubtree(forest: Forest, path: Path, roots: Forest): Result {
    match Locate(forest, path)
    case None => Err(Stale)
    case Some((siblings, i)) =>
      if exists root <- roots :: root.heading != "" && Collides(siblings, siblings[i].file, root.heading)
      then Err(DuplicateSibling)
      else
        var edited := Spliced(siblings, i, roots);
        Ok(if path == [] then edited else WithSiblings(forest, Parent(path), edited))
  }

  /** Removes the section and appends it, at its new level, under the new parent. */
  function Move(forest: Forest, path: Path, newParent: Path, level: nat, holderFile: string): Result
    requires path != []
  {
    match Locate(forest, path)
    case None => Err(Stale)
    case Some((siblings, i)) =>
      var moved := siblings[i];
      var destination := SiblingsAt(forest, newParent);
      if destination.None? then Err(Stale)
      else if Collides(destination.value, moved.file, moved.heading) then Err(DuplicateSibling)
      else
        var without := WithSiblings(forest, Parent(path), RemoveAt(siblings, i));
        match SiblingsAt(without, newParent)
        case None => Err(Stale)   // the destination lies inside the moved section
        case Some(target) =>
          Ok(WithSiblings(without, newParent, Appended(newParent, target, moved.(level := level), holderFile)))
  }

  /** The children of a parent after a push; a parent without body holder, that is a former leaf, gets one in front. */
  function Appended(parent: Path, siblings: Forest, node: Node, holderFile: string): Forest {
    if parent == [] || HasHolder(siblings + [node]) then siblings + [node]
    else [Node("", 0, holderFile, [])] + siblings + [node]
  }

  /** Creates every missing section along a path; `minted` supplies two new ids for each step. */
  function Materialize(forest: Forest, path: Path, level: nat, minted: seq<string>): Forest
    requires |minted| >= 2 * |path|
    decreases |path|
  {
    if path == [] then forest
    else
      var i := FindIndex(forest, path[0]);
      if i == |forest| then forest + [Chain(path, level, minted)]
      else if |path| == 1 then forest
      else
        Deepened(forest, i, Materialize(forest[i].children, path[1..], forest[i].level + 1, minted[2..]), minted[1])
  }

  /** The whole of creating ancestors; the empty path asks for the headless root, which is put in front. */
  function Materialized(forest: Forest, path: Path, minted: seq<string>): Forest
    requires |minted| >= 2 * |path| && minted != []
  {
    if path != [] then Materialize(forest, path, 1, minted)
    else if HasHolder(forest) then forest
    else [Node("", 0, minted[0], [])] + forest
  }

  /** New children for one section, with a body holder in front when they have none. */
  function Deepened(forest: Forest, i: nat, children: Forest, file: string): Forest
    requires i < |forest|
  {
    forest[i := forest[i].(children := if HasHolder(children) then children else [Node("", 0, file, [])] + children)]
  }

  /** New sections nested in one another; each but the last holds its empty body in a body holder. */
  function Chain(path: Path, level: nat, minted: seq<string>): Node
    requires path != [] && |minted| >= 2 * |path|
    decreases |path|
  {
    Node(path[0], level, minted[0],
      if |path| == 1 then [] else [Node("", 0, minted[1], []), Chain(path[1..], level + 1, minted[2..])])
  }

  // ----- every mutation keeps the law

  lemma {:induction false} SubsequenceAddressable(siblings: Forest, i: nat)
    requires Addressable(siblings) && i < |siblings|
    ensures Addressable(RemoveAt(siblings, i))
    ensures siblings[i].heading != "" && ChildListOk(siblings) ==> ChildListOk(RemoveAt(siblings, i))
    ensures forall file ::
              Uses(RemoveAt(siblings, i), file) + OwnUses(siblings[i], file) == Uses(siblings, file)
  {
    var rest := RemoveAt(siblings, i);
    forall a, b | 0 <= a < b < |rest| ensures !HeadingsEqual(rest[a].heading, rest[b].heading) {
      assert rest[a] == siblings[if a < i then a else a + 1] && rest[b] == siblings[if b < i then b else b + 1];
    }
    if holder :| holder in siblings && IsBodyHolder(holder) && holder != siblings[i] {
      assert holder in rest;
    }
    forall file
      ensures Uses(rest, file) + OwnUses(siblings[i], file) == Uses(siblings, file)
    {
      UsesAppend(siblings[..i], siblings[i + 1..], file);
      UsesSplit(siblings, i, file);
    }
  }

  lemma {:induction false} ShrinkKeepsDistinct(forest: Forest, edited: Forest)
    requires DistinctFiles(forest) && forall file :: Uses(edited, file) <= Uses(forest, file)
    ensures DistinctFiles(edited)
  {
    forall file ensures Uses(edited, file) <= 1 {
      assert Uses(forest, file) <= 1;
    }
  }

  lemma {:induction false} DeleteKeepsLaw(forest: Forest, path: Path)
    requires Lawful(forest) && (path != [] ==> Leaf(path) != "")
    ensures Delete(forest, path).Ok? ==> Lawful(Delete(forest, path).forest)
  {
    if Locate(forest, path).Some? {
      var parent := if path == [] then [] else Parent(path);
      var (siblings, i) := Locate(forest, path).value;
      SiblingsLawful(forest, parent);
      SubsequenceAddressable(siblings, i);
      var edited := RemoveAt(siblings, i);
      WithSiblingsLawful(forest, parent, edited);
      ShrinkKeepsDistinct(forest, WithSiblings(forest, parent, edited));
    }
  }

  /** Siblings with the same file as a node of the list are that node, because ids are distinct. */
  lemma {:induction false} OneNodePerFile(siblings: Forest, i: nat, j: nat)
    requires DistinctFiles(siblings) && i < |siblings| && j < |siblings| && siblings[i].file == siblings[j].file
    ensures i == j
  {
    if i < j {
      TwoNodes(siblings, i, j);
    } else if j < i {
      TwoNodes(siblings, j, i);
    }
  }

  lemma {:induction false} TwoNodes(siblings: Forest, i: nat, j: nat)
    requires i < j < |siblings| && siblings[i].file == siblings[j].file
    ensures Uses(siblings, siblings[i].file) >= 2
  {
    var file := siblings[i].file;
    UsesSplit(siblings, i, file);
    assert siblings[i + 1..][j - i - 1] == siblings[j];
    UsesSplit(siblings[i + 1..], j - i - 1, file);
  }

  lemma {:induction false} SiblingsDistinct(forest: Forest, parent: Path)
    requires Lawful(forest) && SiblingsAt(forest, parent).Some?
    ensures Lawful(SiblingsAt(forest, parent).value)
  {
    SiblingsLawful(forest, parent);
    forall file ensures Uses(SiblingsAt(forest, parent).value, file) <= 1 {
      assert Uses(forest, file) <= 1;
    }
  }

  lemma {:induction false} NonEmptyMatch(a: string, b: string)
    requires HeadingsEqual(a, b) && b != ""
    ensures a != ""
  {
    assert |Lower(a)| == |Lower(b)|;
  }

  function Retitled(siblings: Forest, i: nat, heading: string, level: nat): Forest
    requires i < |siblings|
  {
    siblings[i := siblings[i].(heading := heading, level := level)]
  }

  lemma {:induction false} RetitledAddressable(siblings: Forest, i: nat, heading: string, level: nat)
    requires Addressable(siblings) && DistinctFiles(siblings) && i < |siblings|
    requires siblings[i].heading != "" && heading != "" && !Collides(siblings, siblings[i].file, heading)
    ensures Addressable(Retitled(siblings, i, heading, level))
    ensures ChildListOk(siblings) ==> ChildListOk(Retitled(siblings, i, heading, level))
  {
    var edited := Retitled(siblings, i, heading, level);
    forall j | 0 <= j < |siblings| && j != i
      ensures !HeadingsEqual(edited[j].heading, heading)
    {
      if siblings[j].file == siblings[i].file { OneNodePerFile(siblings, i, j); }
      assert siblings[j] in siblings;
    }
    if holder :| holder in siblings && IsBodyHolder(holder) {
      var j :| 0 <= j < |siblings| && siblings[j] == holder;
      assert edited[j] == holder;
    }
  }

  lemma {:induction false} RetitledUses(siblings: Forest, i: nat, heading: string, level: nat, file: string)
    requires i < |siblings|
    ensures Uses(Retitled(siblings, i, heading, level), file) == Uses(siblings, file)
  {
    var edited := Retitled(siblings, i, heading, level);
    assert edited[..i] == siblings[..i] && edited[i + 1..] == siblings[i + 1..];
    UsesSplit(siblings, i, file);
    UsesSplit(edited, i, file);
  }

  lemma {:induction false} RetitleKeepsLaw(forest: Forest, path: Path, heading: string, level: nat)
    requires Lawful(forest) && path != [] && Leaf(path) != "" && heading != ""
    ensures Retitle(forest, path, heading, level).Ok? ==> Lawful(Retitle(forest, path, heading, level).forest)
  {
    var result := Retitle(forest, path, heading, level);
    if result.Ok? {
      var (siblings, i) := Locate(forest, path).value;
      SiblingsDistinct(forest, Parent(path));
      SiblingsLawful(forest, Parent(path));
      NonEmptyMatch(siblings[i].heading, Leaf(path));
      RetitledAddressable(siblings, i, heading, level);
      WithSiblingsAddressable(forest, Parent(path), Retitled(siblings, i, heading, level));
      forall file ensures Uses(result.forest, file) <= Uses(forest, file) {
        RetitledUses(siblings, i, heading, level, file);
        WithSiblingsUses(forest, Parent(path), Retitled(siblings, i, heading, level), file);
      }
      ShrinkKeepsDistinct(forest, result.forest);
    }
  }

  /** Putting a node into an addressable list it does not collide with. */
  lemma {:induction false} InsertAddressable(rest: Forest, at: nat, node: Node)
    requires Addressable(rest) && at <= |rest|
    requires (node.heading == "" ==> node.level == 0) && Addressable(node.children)
    requires forall other <- rest :: !HeadingsEqual(other.heading, node.heading)
    requires ChildListOk(node.children)
    ensures Addressable(rest[..at] + [node] + rest[at..])
    ensures HasHolder(rest) ==> HasHolder(rest[..at] + [node] + rest[at..])
    ensures forall file :: Uses(rest[..at] + [node] + rest[at..], file) == Uses(rest, file) + OwnUses(node, file)
  {
    InsertDistinct(rest, at, node);
    var edited := rest[..at] + [node] + rest[at..];
    forall n <- edited ensures (n.heading == "" ==> n.level == 0) && ChildListOk(n.children) && Addressable(n.children) {
      if n != node { FromTheRest(rest, at, node, n); }
    }
    HolderStaysIn(rest, at, node);
    forall file ensures Uses(edited, file) == Uses(rest, file) + OwnUses(node, file) { InsertUses(rest, at, node, file); }
  }

  lemma {:induction false} FromTheRest(rest: Forest, at: nat, node: Node, n: Node)
    requires at <= |rest| && n in rest[..at] + [node] + rest[at..] && n != node
    ensures n in rest
  {
  }

  lemma {:induction false} HolderStaysIn(rest: Forest, at: nat, node: Node)
    requires at <= |rest|
    ensures HasHolder(rest) ==> HasHolder(rest[..at] + [node] + rest[at..])
  {
    assert rest == rest[..at] + rest[at..];
    forall h <- rest | IsBodyHolder(h) ensures h in rest[..at] + [node] + rest[at..] {}
  }

  lemma {:induction false} InsertUses(rest: Forest, at: nat, node: Node, file: string)
    requires at <= |rest|
    ensures Uses(rest[..at] + [node] + rest[at..], file) == Uses(rest, file) + OwnUses(node, file)
  {
    var edited := rest[..at] + [node] + rest[at..];
    assert rest == rest[..at] + rest[at..];
    assert edited[..at] == rest[..at] && edited[at + 1..] == rest[at..];
    UsesAppend(rest[..at], rest[at..], file);
    UsesSplit(edited, at, file);
  }

  lemma {:induction false} InsertDistinct(rest: Forest, at: nat, node: Node)
    requires DistinctHeadings(rest) && at <= |rest|
    requires forall other <- rest :: !HeadingsEqual(other.heading, node.heading)
    ensures DistinctHeadings(rest[..at] + [node] + rest[at..])
  {
    var edited := rest[..at] + [node] + rest[at..];
    forall a, b | 0 <= a < b < |edited| ensures !HeadingsEqual(edited[a].heading, edited[b].heading) {
      if a != at { assert edited[a] == rest[if a < at then a else a - 1]; }
      if b != at { assert edited[b] == rest[if b < at then b else b - 1]; }
    }
  }

  lemma {:induction false} ReorderedAddressable(siblings: Forest, i: nat, leaf: string, before: bool)
    requires Addressable(siblings) && i < |siblings| && siblings[i].heading != ""
    ensures var edited := Reordered(siblings, i, leaf, before);
      && Addressable(edited) && (ChildListOk(siblings) ==> ChildListOk(edited))
      && forall file :: Uses(edited, file) == Uses(siblings, file)
  {
    SubsequenceAddressable(siblings, i);
    var rest := RemoveAt(siblings, i);
    var t := FindIndex(rest, leaf);
    var at := if before || t == |rest| then t else t + 1;
    OthersDiffer(siblings, i);
    assert siblings[i] in siblings;
    InsertAddressable(rest, at, siblings[i]);
    assert Reordered(siblings, i, leaf, before) == rest[..at] + [siblings[i]] + rest[at..];
  }

  lemma {:induction false} OthersDiffer(siblings: Forest, i: nat)
    requires DistinctHeadings(siblings) && i < |siblings|
    ensures forall other <- RemoveAt(siblings, i) :: !HeadingsEqual(other.heading, siblings[i].heading)
  {
    var rest := RemoveAt(siblings, i);
    forall other <- rest ensures !HeadingsEqual(other.heading, siblings[i].heading) {
      var j :| 0 <= j < |rest| && rest[j] == other;
      assert other == siblings[if j < i then j else j + 1];
    }
  }

  lemma {:induction false} ReorderKeepsLaw(forest: Forest, path: Path, leaf: string, before: bool)
    requires Lawful(forest) && path != [] && Leaf(path) != ""
    ensures Reorder(forest, path, leaf, before).Ok? ==>
              var edited := Reorder(forest, path, leaf, before).forest;
              Lawful(edited) && forall file :: Uses(edited, file) == Uses(forest, file)
  {
    var result := Reorder(forest, path, leaf, before);
    if result.Ok? && result.forest != forest {
      var (siblings, i) := Locate(forest, path).value;
      SiblingsLawful(forest, Parent(path));
      NonEmptyMatch(siblings[i].heading, Leaf(path));
      ReorderedAddressable(siblings, i, leaf, before);
      WithSiblingsLawful(forest, Parent(path), Reordered(siblings, i, leaf, before));
      ShrinkKeepsDistinct(forest, result.forest);
    }
  }

  lemma {:induction false} InsertKeepsLaw(forest: Forest, parent: Path, index: int, heading: string, level: nat, file: string)
    requires Lawful(forest) && parent != [] && heading != "" && Uses(forest, file) == 0
    ensures var result := Insert(forest, parent, index, Node(heading, level, file, [])); result.Ok? ==> Lawful(result.forest)
  {
    var node := Node(heading, level, file, []);
    var result := Insert(forest, parent, index, node);
    if result.Ok? {
      SiblingsLawful(forest, parent);
      var children := SiblingsAt(forest, parent).value;
      var at := (if IsBodyHolder(children[0]) then 1 else 0) + index;
      NoCollision(forest, parent, node.file, heading);
      InsertAddressable(children, at, node);
      WithSiblingsLawful(forest, parent, children[..at] + [node] + children[at..]);
    }
  }

  /** The collision check against a new id rules out every sibling of that address. */
  lemma {:induction false} NoCollision(forest: Forest, parent: Path, file: string, heading: string)
    requires Addressable(forest) && SiblingsAt(forest, parent).Some? && Uses(forest, file) == 0
    requires !Collides(SiblingsAt(forest, parent).value, file, heading)
    ensures forall other <- SiblingsAt(forest, parent).value :: !HeadingsEqual(other.heading, heading)
  {
    var children := SiblingsAt(forest, parent).value;
    SiblingsLawful(forest, parent);
    forall other <- children ensures other.file != file {
      var j :| 0 <= j < |children| && children[j] == other;
      UsesSplit(children, j, other.file);
      assert Uses(children, file) <= Uses(forest, file);
    }
  }

  // ----- moving a subtree

  /** Every root of `after` has the heading and file of a root of `before`. */
  predicate Echoes(before: Forest, after: Forest) {
    forall node <- after :: exists other <- before :: other.heading == node.heading && other.file == node.file
  }

  lemma {:induction false} EchoesByIndex(before: Forest, after: Forest, shift: nat)
    requires |after| <= |before|
    requires forall j | 0 <= j < |after| ::
               var k := if j < shift then j else j + (|before| - |after|);
               after[j].heading == before[k].heading && after[j].file == before[k].file
    requires |before| - |after| <= 1
    ensures Echoes(before, after)
  {
    forall node <- after
      ensures exists other <- before :: other.heading == node.heading && other.file == node.file
    {
      var j :| 0 <= j < |after| && after[j] == node;
      assert before[if j < shift then j else j + (|before| - |after|)] in before;
    }
  }

  /**
   * After removing one section, every sibling list echoes the list of the same path before: no heading appears
   * anywhere that was not there.
   */
  lemma {:induction false} RemovalKeepsLists(forest: Forest, source: Path, siblings: Forest, i: nat, path: Path)
    requires Addressable(forest) && SiblingsAt(forest, source) == Some(siblings) && i < |siblings|
    requires SiblingsAt(WithSiblings(forest, source, RemoveAt(siblings, i)), path).Some?
    ensures SiblingsAt(forest, path).Some?
    ensures Echoes(SiblingsAt(forest, path).value, SiblingsAt(WithSiblings(forest, source, RemoveAt(siblings, i)), path).value)
    decreases |path|
  {
    var without := WithSiblings(forest, source, RemoveAt(siblings, i));
    if source != [] { WithSiblingsRoots(forest, source, RemoveAt(siblings, i)); }
    if path == [] {
      EchoesByIndex(forest, without, i);
    } else if source == [] {
      RemovalAtRootKeepsLists(forest, i, path);
      EchoesItself(SiblingsAt(forest, path).value);
    } else {
      FindIndexByHeading(forest, without, path[0]);
      var k := FindIndex(forest, source[0]);
      if k == FindIndex(forest, path[0]) {
        RemovalKeepsLists(forest[k].children, source[1..], siblings, i, path[1..]);
      } else {
        assert SiblingsAt(forest, path) == SiblingsAt(without, path);
        EchoesItself(SiblingsAt(forest, path).value);
      }
    }
  }

  lemma {:induction false} EchoesItself(siblings: Forest)
    ensures Echoes(siblings, siblings)
  {
  }

  lemma {:induction false} RemovalAtRootKeepsLists(forest: Forest, i: nat, path: Path)
    requires DistinctHeadings(forest) && i < |forest| && path != [] && SiblingsAt(RemoveAt(forest, i), path).Some?
    ensures SiblingsAt(forest, path) == SiblingsAt(RemoveAt(forest, i), path)
  {
    var without := RemoveAt(forest, i);
    var j := FindIndex(without, path[0]);
    var k := if j < i then j else j + 1;
    assert without[j] == forest[k];
    OnlyMatch(forest, path[0], k);
  }

  lemma {:induction false} OnlyMatch(forest: Forest, heading: string, k: nat)
    requires DistinctHeadings(forest) && k < |forest| && HeadingsEqual(forest[k].heading, heading)
    ensures FindIndex(forest, heading) == k
  {
    var i := FindIndex(forest, heading);
    if i < k { assert HeadingsEqual(forest[i].heading, forest[k].heading); }
  }

  lemma {:induction false} AppendedAddressable(parent: Path, siblings: Forest, node: Node, holderFile: string)
    requires Addressable(siblings) && node.heading != "" && ChildListOk(node.children) && Addressable(node.children)
    requires forall other <- siblings :: !HeadingsEqual(other.heading, node.heading)
    ensures var edited := Appended(parent, siblings, node, holderFile);
      && Addressable(edited) && (parent != [] ==> ChildListOk(edited))
      && forall file ::
           Uses(edited, file) <= Uses(siblings, file) + OwnUses(node, file) + (if file == holderFile then 1 else 0)
  {
    InsertAddressable(siblings, |siblings|, node);
    var pushed := siblings + [node];
    assert siblings[..|siblings|] + [node] + siblings[|siblings|..] == pushed;
    if parent != [] && !HasHolder(pushed) {
      var holder := Node("", 0, holderFile, []);
      forall other <- pushed ensures !HeadingsEqual(other.heading, holder.heading) {
        if other.heading == "" { assert IsBodyHolder(other); } else { EmptyDiffers(other.heading); }
      }
      InsertAddressable(pushed, 0, holder);
      assert pushed[..0] + [holder] + pushed[0..] == [holder] + siblings + [node];
      assert IsBodyHolder(([holder] + siblings + [node])[0]);
    }
  }

  lemma {:induction false} EmptyDiffers(heading: string)
    requires heading != ""
    ensures !HeadingsEqual(heading, "") && !HeadingsEqual("", heading)
  {
    assert |Lower(heading)| != |Lower("")|;
  }

  lemma {:induction false} MoveKeepsLaw(forest: Forest, path: Path, newParent: Path, level: nat, holderFile: string)
    requires Lawful(forest) && path != [] && Leaf(path) != "" && Uses(forest, holderFile) == 0
    ensures var result := Move(forest, path, newParent, level, holderFile); result.Ok? ==> Lawful(result.forest)
  {
    var result := Move(forest, path, newParent, level, holderFile);
    if result.Ok? {
      var (siblings, i) := Locate(forest, path).value;
      var moved := siblings[i];
      var source := Parent(path);
      SiblingsLawful(forest, source);
      NonEmptyMatch(moved.heading, Leaf(path));
      SubsequenceAddressable(siblings, i);
      WithSiblingsLawful(forest, source, RemoveAt(siblings, i));
      var without := WithSiblings(forest, source, RemoveAt(siblings, i));
      var target := SiblingsAt(without, newParent).value;
      SiblingsLawful(without, newParent);
      MoveDoesNotCollide(forest, path, newParent);
      AppendedAddressable(newParent, target, moved.(level := level), holderFile);
      WithSiblingsLawful(without, newParent, Appended(newParent, target, moved.(level := level), holderFile));
      forall file ensures Uses(result.forest, file) <= 1 {
        assert Uses(forest, file) <= 1;
        assert OwnUses(moved.(level := level), file) == OwnUses(moved, file);
      }
    }
  }

  lemma {:induction false} MoveDoesNotCollide(forest: Forest, path: Path, newParent: Path)
    requires Lawful(forest) && path != [] && Leaf(path) != "" && Locate(forest, path).Some?
    requires var (siblings, i) := Locate(forest, path).value;
      && SiblingsAt(forest, newParent).Some?
      && !Collides(SiblingsAt(forest, newParent).value, siblings[i].file, siblings[i].heading)
      && SiblingsAt(WithSiblings(forest, Parent(path), RemoveAt(siblings, i)), newParent).Some?
    ensures var (siblings, i) := Locate(forest, path).value;
      forall other <- SiblingsAt(WithSiblings(forest, Parent(path), RemoveAt(siblings, i)), newParent).value ::
        !HeadingsEqual(other.heading, siblings[i].heading)
  {
    var (siblings, i) := Locate(forest, path).value;
    var moved := siblings[i];
    SiblingsLawful(forest, Parent(path));
    NonEmptyMatch(moved.heading, Leaf(path));
    SubsequenceAddressable(siblings, i);
    var without := WithSiblings(forest, Parent(path), RemoveAt(siblings, i));
    WithSiblingsLawful(forest, Parent(path), RemoveAt(siblings, i));
    RemovalKeepsLists(forest, Parent(path), siblings, i, newParent);
    SiblingsLawful(without, newParent);
    var target := SiblingsAt(without, newParent).value;
    forall other <- target
      ensures !HeadingsEqual(other.heading, moved.heading)
    {
      var j :| 0 <= j < |target| && target[j] == other;
      UsesSplit(target, j, moved.file);
      assert Uses(forest, moved.file) <= 1;
      assert other.file != moved.file;
      var before :| before in SiblingsAt(forest, newParent).value && before.heading == other.heading && before.file == other.file;
    }
  }

  // ----- replacing a subtree

  /** Replacement ids are distinct, and each is new to the forest or taken over from the replaced section. */
  ghost predicate FreshOrReused(forest: Forest, replaced: Node, roots: Forest) {
    forall file :: Uses(roots, file) <= 1 && (Uses(roots, file) == 1 && Uses(forest, file) > 0 ==> OwnUses(replaced, file) > 0)
  }

  function Spliced(siblings: Forest, i: nat, roots: Forest): Forest
    requires i < |siblings|
  {
    siblings[..i] + roots + siblings[i + 1..]
  }

  lemma {:induction false} SplicedUses(siblings: Forest, i: nat, roots: Forest, file: string)
    requires i < |siblings|
    ensures Uses(Spliced(siblings, i, roots), file) + OwnUses(siblings[i], file) == Uses(siblings, file) + Uses(roots, file)
  {
    UsesSplit(siblings, i, file);
    UsesAppend(siblings[..i], roots, file);
    UsesAppend(siblings[..i] + roots, siblings[i + 1..], file);
  }

  lemma {:induction false} SplicedAddressable(siblings: Forest, i: nat, roots: Forest)
    requires Addressable(siblings) && DistinctFiles(siblings) && Addressable(roots) && i < |siblings|
    requires forall root <- roots :: root.heading != "" ==> !Collides(siblings, siblings[i].file, root.heading)
    requires forall root <- roots | root.heading == "" :: siblings[i].heading == ""
    ensures Addressable(Spliced(siblings, i, roots))
    ensures siblings[i].heading != "" && ChildListOk(siblings) ==> ChildListOk(Spliced(siblings, i, roots))
  {
    var edited := Spliced(siblings, i, roots);
    forall j, r | 0 <= j < |siblings| && j != i && 0 <= r < |roots|
      ensures !HeadingsEqual(siblings[j].heading, roots[r].heading) && !HeadingsEqual(roots[r].heading, siblings[j].heading)
    {
      assert siblings[j] in siblings && roots[r] in roots;
      if roots[r].heading == "" {
        assert !HeadingsEqual(siblings[if j < i then j else i].heading, siblings[if j < i then i else j].heading);
      } else if siblings[j].file == siblings[i].file {
        OneNodePerFile(siblings, i, j);
      }
    }
    forall a, b | 0 <= a < b < |edited| ensures !HeadingsEqual(edited[a].heading, edited[b].heading) {
      var n := |roots|;
      assert a < i ==> edited[a] == siblings[a];
      assert i <= a < i + n ==> edited[a] == roots[a - i];
      assert i + n <= a ==> edited[a] == siblings[a - n + 1];
      assert b < i ==> edited[b] == siblings[b];
      assert i <= b < i + n ==> edited[b] == roots[b - i];
      assert i + n <= b ==> edited[b] == siblings[b - n + 1];
    }
    if holder :| holder in siblings && IsBodyHolder(holder) && holder != siblings[i] {
      assert holder in edited;
    }
  }

  /**
   * Rewriting a section keeps the law.  A headless root is only spliced over the headless section itself, which is
   * how the rewrite is called.
   */
  lemma {:induction false} ReplaceKeepsLaw(forest: Forest, path: Path, roots: Forest)
    requires Lawful(forest) && Addressable(roots) && (path != [] ==> Leaf(path) != "")
    requires path != [] ==> forall root <- roots :: root.heading != ""
    requires Locate(forest, path).Some? ==>
               var (siblings, i) := Locate(forest, path).value; FreshOrReused(forest, siblings[i], roots)
    ensures ReplaceSubtree(forest, path, roots).Ok? ==> Lawful(ReplaceSubtree(forest, path, roots).forest)
  {
    var result := ReplaceSubtree(forest, path, roots);
    if result.Ok? {
      var parent := if path == [] then [] else Parent(path);
      var (siblings, i) := Locate(forest, path).value;
      SiblingsDistinct(forest, parent);
      SiblingsLawful(forest, parent);
      if path != [] { NonEmptyMatch(siblings[i].heading, Leaf(path)); }
      SplicedAddressable(siblings, i, roots);
      WithSiblingsAddressable(forest, parent, Spliced(siblings, i, roots));
      forall file ensures Uses(result.forest, file) <= 1 {
        assert Uses(forest, file) <= 1 && Uses(roots, file) <= 1;
        SplicedUses(siblings, i, roots, file);
        WithSiblingsUses(forest, parent, Spliced(siblings, i, roots), file);
        UsesSplit(siblings, i, file);
      }
    }
  }

  // ----- creating ancestors

  function Occurs(files: seq<string>, file: string): nat {
    if files == [] then 0 else (if files[0] == file then 1 else 0) + Occurs(files[1..], file)
  }

  lemma {:induction false} OccursTwice(files: seq<string>, file: string)
    requires |files| >= 2
    ensures Occurs(files, file)
         == (if files[0] == file then 1 else 0) + (if files[1] == file then 1 else 0) + Occurs(files[2..], file)
  {
    assert files[1..][1..] == files[2..];
  }

  lemma {:induction false} ChainUses(path: Path, level: nat, minted: seq<string>, file: string)
    requires path != [] && |minted| >= 2 * |path|
    ensures OwnUses(Chain(path, level, minted), file) <= Occurs(minted, file)
    decreases |path|
  {
    OccursTwice(minted, file);
    if |path| > 1 {
      ChainUses(path[1..], level + 1, minted[2..], file);
      var holder, next := Node("", 0, minted[1], []), Chain(path[1..], level + 1, minted[2..]);
      assert [holder] + [next] == [holder, next];
      UsesAppend([holder], [next], file);
      assert [holder][1..] == [] && [next][1..] == [];
    }
  }

  lemma {:induction false} ChainAddressable(path: Path, level: nat, minted: seq<string>)
    requires path != [] && |minted| >= 2 * |path| && NoEmptySegment(path) && level > 0
    ensures var chain := Chain(path, level, minted); ChildListOk(chain.children) && Addressable(chain.children)
    decreases |path|
  {
    if |path| > 1 {
      ChainAddressable(path[1..], level + 1, minted[2..]);
      var holder, next := Node("", 0, minted[1], []), Chain(path[1..], level + 1, minted[2..]);
      EmptyDiffers(next.heading);
      InsertAddressable([holder], 1, next);
      assert [holder][..1] + [next] + [holder][1..] == [holder, next];
      assert IsBodyHolder([holder, next][0]);
    }
  }

  lemma {:induction false} NewChildrenAddressable(forest: Forest, i: nat, children: Forest)
    requires Addressable(forest) && i < |forest| && Addressable(children) && ChildListOk(children)
    ensures var edited := forest[i := forest[i].(children := children)];
      Addressable(edited) && (HasHolder(forest) ==> HasHolder(edited))
  {
    var edited := forest[i := forest[i].(children := children)];
    assert forall j | 0 <= j < |edited| :: edited[j].heading == forest[j].heading;
    forall other <- edited
      ensures (other.heading == "" ==> other.level == 0) && ChildListOk(other.children) && Addressable(other.children)
    {
      var j :| 0 <= j < |edited| && edited[j] == other;
      assert forest[j] in forest;
    }
    if holder :| holder in forest && IsBodyHolder(holder) {
      var j :| 0 <= j < |forest| && forest[j] == holder;
      assert edited[j] in edited && IsBodyHolder(edited[j]);
    }
  }

  lemma {:induction false} MaterializeAddressable(forest: Forest, path: Path, level: nat, minted: seq<string>)
    requires Addressable(forest) && |minted| >= 2 * |path| && level > 0 && NoEmptySegment(path)
    ensures Addressable(Materialize(forest, path, level, minted))
    decreases |path|
  {
    if path != [] {
      var i := FindIndex(forest, path[0]);
      if i == |forest| {
        ChainAppended(forest, path, level, minted);
        assert Materialize(forest, path, level, minted) == forest + [Chain(path, level, minted)];
      } else if |path| > 1 {
        var node, rest, ids := forest[i], path[1..], minted[2..];
        NodeIsLawful(forest, i);
        MaterializeAddressable(node.children, rest, node.level + 1, ids);
        MaterializedBelow(forest, i, Materialize(node.children, rest, node.level + 1, ids), minted[1]);
      }
    }
  }

  lemma {:induction false} NodeIsLawful(forest: Forest, i: nat)
    requires Addressable(forest) && i < |forest|
    ensures Addressable(forest[i].children) && ChildListOk(forest[i].children)
  {
    assert forest[i] in forest;
  }

  lemma {:induction false} MaterializedBelow(forest: Forest, i: nat, children: Forest, file: string)
    requires Addressable(forest) && i < |forest| && Addressable(children)
    ensures Addressable(Deepened(forest, i, children, file))
  {
    HolderInFront(children, file);
    NewChildrenAddressable(forest, i, if HasHolder(children) then children else [Node("", 0, file, [])] + children);
  }

  // New sections nested in one another, appended under a heading that was not there.
  lemma {:induction false} ChainAppended(forest: Forest, path: Path, level: nat, minted: seq<string>)
    requires Addressable(forest) && path != [] && |minted| >= 2 * |path| && level > 0 && NoEmptySegment(path)
    requires FindIndex(forest, path[0]) == |forest|
    ensures Addressable(forest + [Chain(path, level, minted)])
  {
    var chain := Chain(path, level, minted);
    ChainAddressable(path, level, minted);
    InsertAddressable(forest, |forest|, chain);
    assert forest[..|forest|] + [chain] + forest[|forest|..] == forest + [chain];
  }

  lemma {:induction false} HolderInFront(children: Forest, file: string)
    requires Addressable(children)
    ensures var held := if HasHolder(children) then children else [Node("", 0, file, [])] + children;
      && Addressable(held) && HasHolder(held)
      && forall f :: Uses(held, f) <= Uses(children, f) + if f == file then 1 else 0
  {
    if !HasHolder(children) {
      var holder := Node("", 0, file, []);
      forall other <- children ensures !HeadingsEqual(other.heading, "") {
        if other.heading == "" { assert IsBodyHolder(other); } else { EmptyDiffers(other.heading); }
      }
      InsertAddressable(children, 0, holder);
      assert children[..0] + [holder] + children[0..] == [holder] + children;
      assert IsBodyHolder(([holder] + children)[0]);
    }
  }

  lemma {:induction false} MaterializeUses(forest: Forest, path: Path, level: nat, minted: seq<string>, file: string)
    requires |minted| >= 2 * |path| && level > 0 && NoEmptySegment(path)
    ensures Uses(Materialize(forest, path, level, minted), file) <= Uses(forest, file) + Occurs(minted, file)
    decreases |path|
  {
    if path != [] {
      var i := FindIndex(forest, path[0]);
      var edited := Materialize(forest, path, level, minted);
      if i == |forest| {
        ChainUses(path, level, minted, file);
        var chain := Chain(path, level, minted);
        UsesAppend(forest, [chain], file);
        assert [chain][1..] == [];
      } else if |path| > 1 {
        var node := forest[i];
        var children := Materialize(node.children, path[1..], node.level + 1, minted[2..]);
        MaterializeUses(node.children, path[1..], node.level + 1, minted[2..], file);
        var holder := Node("", 0, minted[1], []);
        assert [holder][1..] == [];
        UsesAppend([holder], children, file);
        assert edited[i].file == node.file && edited[i].children == if HasHolder(children) then children else [holder] + children;
        OccursTwice(minted, file);
        UsesSplit(forest, i, file);
        UsesSplit(edited, i, file);
        assert edited[..i] == forest[..i] && edited[i + 1..] == forest[i + 1..];
      }
    }
  }

  lemma {:induction false} MaterializeKeepsLaw(forest: Forest, path: Path, minted: seq<string>)
    requires Lawful(forest) && |minted| >= 2 * |path| && minted != [] && NoEmptySegment(path)
    requires forall file :: Occurs(minted, file) <= 1 && (Occurs(minted, file) == 1 ==> Uses(forest, file) == 0)
    ensures Lawful(Materialized(forest, path, minted))
  {
    if path == [] {
      HolderInFront(forest, minted[0]);
    } else {
      MaterializeAddressable(forest, path, 1, minted);
    }
    forall file ensures Uses(Materialized(forest, path, minted), file) <= 1 {
      if path != [] { MaterializeUses(forest, path, 1, minted, file); }
      assert Uses(forest, file) <= 1 && Occurs(minted, file) <= 1;
    }
  }

  /** Lookup of a longer path goes on in the children of the node its first heading leads to. */
  lemma {:induction false} LocateInto(forest: Forest, path: Path)
    requires |path| > 1 && FindIndex(forest, path[0]) < |forest|
    ensures Locate(forest, path) == Locate(forest[FindIndex(forest, path[0])].children, path[1..])
  {
    assert Parent(path)[1..] == Parent(path[1..]) && Parent(path)[0] == path[0];
  }

  lemma {:induction false} FindIndexLast(forest: Forest, node: Node, heading: string)
    requires FindIndex(forest, heading) == |forest|
    ensures FindIndex(forest + [node], heading) == if HeadingsEqual(node.heading, heading) then |forest| else |forest| + 1
  {
    if forest == [] {
      assert [] + [node] == [node] && [node][1..] == [];
    } else {
      assert (forest + [node])[1..] == forest[1..] + [node] && (forest + [node])[0] == forest[0];
      FindIndexLast(forest[1..], node, heading);
    }
  }

  lemma {:induction false} ChainLocates(path: Path, level: nat, minted: seq<string>)
    requires |path| > 1 && |minted| >= 2 * |path| && NoEmptySegment(path)
    ensures Locate(Chain(path, level, minted).children, path[1..]).Some?
    decreases |path|
  {
    var holder, next := Node("", 0, minted[1], []), Chain(path[1..], level + 1, minted[2..]);
    assert Chain(path, level, minted).children == [holder, next];
    EmptyDiffers(path[1]);
    assert FindIndex([holder], path[1]) == 1;
    FindIndexLast([holder], next, path[1]);
    assert [holder] + [next] == [holder, next];
    if |path| > 2 {
      LocateInto([holder, next], path[1..]);
      ChainLocates(path[1..], level + 1, minted[2..]);
    }
  }

  /** Afterwards the whole path leads to a section. */
  lemma {:induction false} MaterializeLocates(forest: Forest, path: Path, level: nat, minted: seq<string>)
    requires path != [] && |minted| >= 2 * |path| && NoEmptySegment(path)
    ensures Locate(Materialize(forest, path, level, minted), path).Some?
    decreases |path|
  {
    var i := FindIndex(forest, path[0]);
    var edited := Materialize(forest, path, level, minted);
    if i == |forest| {
      FindIndexLast(forest, Chain(path, level, minted), path[0]);
      if |path| > 1 {
        LocateInto(edited, path);
        ChainLocates(path, level, minted);
      }
    } else if |path| > 1 {
      var children := Materialize(forest[i].children, path[1..], forest[i].level + 1, minted[2..]);
      MaterializeLocates(forest[i].children, path[1..], forest[i].level + 1, minted[2..]);
      if !HasHolder(children) { HolderKeepsLookup(children, Node("", 0, minted[1], []), path[1..]); }
      assert Locate(edited[i].children, path[1..]).Some?;
      FindIndexByHeading(forest, edited, path[0]);
      LocateInto(edited, path);
    }
  }

  lemma {:induction false} HolderKeepsLookup(children: Forest, holder: Node, path: Path)
    requires path != [] && path[0] != "" && holder.heading == ""
    requires Locate(children, path).Some?
    ensures Locate([holder] + children, path).Some?
  {
    EmptyDiffers(path[0]);
    assert ([holder] + children)[1..] == children;
    assert FindIndex([holder] + children, path[0]) == 1 + FindIndex(children, path[0]);
    if |path| > 1 {
      assert FindIndex(children, path[0]) < |children| by { assert Parent(path)[0] == path[0]; }
      LocateInto(children, path);
      LocateInto([holder] + children, path);
    }
  }

  /** After creating ancestors every path, the empty one included, leads to a section. */
  lemma {:induction false} MaterializedLocates(forest: Forest, path: Path, minted: seq<string>)
    requires |minted| >= 2 * |path| && minted != [] && NoEmptySegment(path)
    ensures Locate(Materialized(forest, path, minted), path).Some?
  {
    if path != [] {
      MaterializeLocates(forest, path, 1, minted);
    } else if holder :| holder in forest && IsBodyHolder(holder) {
      var j :| 0 <= j < |forest| && forest[j] == holder;
    }
  }

  // ----- the headless root stands in front

  /** Only the first root may be headless. */
  predicate FrontOnly(forest: Forest) {
    forall i | 0 < i < |forest| :: forest[i].heading != ""
  }

  /** Replacing a list below the roots leaves the root headings. */
  lemma {:induction false} BelowKeepsFront(forest: Forest, parent: Path, siblings: Forest)
    requires FrontOnly(forest) && SiblingsAt(forest, parent).Some? && (parent == [] ==> FrontOnly(siblings))
    ensures FrontOnly(WithSiblings(forest, parent, siblings))
  {
    if parent != [] { WithSiblingsRoots(forest, parent, siblings); }
  }

  lemma {:induction false} ReorderKeepsFront(siblings: Forest, i: nat, leaf: string, before: bool)
    requires FrontOnly(siblings) && i < |siblings| && siblings[i].heading != "" && leaf != ""
    requires FindIndex(siblings, leaf) < |siblings| && FindIndex(siblings, leaf) != i
    ensures FrontOnly(Reordered(siblings, i, leaf, before))
  {
    var rest := RemoveAt(siblings, i);
    var t := FindIndex(siblings, leaf);
    assert rest[if t < i then t else t - 1] == siblings[t];
    var at := FindIndex(rest, leaf);
    assert at < |rest|;
    NonEmptyMatch(rest[at].heading, leaf);
    forall k | 0 < k < |rest| ensures rest[k].heading != "" {
      assert rest[k] == siblings[if k < i then k else k + 1];
    }
    HeadedPutIn(rest, if before then at else at + 1, siblings[i]);
  }

  lemma {:induction false} HeadedPutIn(rest: Forest, at: nat, node: Node)
    requires FrontOnly(rest) && at <= |rest| && node.heading != ""
    requires at == 0 && rest != [] ==> rest[0].heading != ""
    ensures FrontOnly(rest[..at] + [node] + rest[at..])
  {
    var all := rest[..at] + [node] + rest[at..];
    forall k | 0 < k < |all| ensures all[k].heading != "" {
      assert all[k] == if k < at then rest[k] else if k == at then node else rest[k - 1];
    }
  }

  lemma {:induction false} MaterializeKeepsFront(forest: Forest, path: Path, minted: seq<string>)
    requires Addressable(forest) && FrontOnly(forest) && |minted| >= 2 * |path| && minted != [] && NoEmptySegment(path)
    ensures FrontOnly(Materialized(forest, path, minted))
  {
    if path == [] {
      if !HasHolder(forest) && forest != [] { assert forest[0] in forest; }
    } else if FindIndex(forest, path[0]) == |forest| {
      HeadedPutIn(forest, |forest|, Chain(path, 1, minted));
      assert forest[..|forest|] + [Chain(path, 1, minted)] + forest[|forest|..] == forest + [Chain(path, 1, minted)];
    }
  }
}
