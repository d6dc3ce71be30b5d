/** Rebuilding a forest from parsed heading paths, and the parser's heading stack that produces them. */
module ReplacementRoots {
  import opened Basics
  import opened SectionForest

  /** A parsed section; the empty path is the text before the first heading. */
  datatype Section = Section(path: Path, level: nat)

  function HeadingOf(section: Section): string {
    if section.path == [] then "" else Leaf(section.path)
  }

  // ----- placing parsed sections

  /** Keys are exact heading paths, so a parent is looked up with case. */
  function ExactIndex(siblings: Forest, heading: string): (i: nat)
    ensures i <= |siblings|
    ensures i < |siblings| ==> siblings[i].heading == heading
    ensures forall j | 0 <= j < i :: siblings[j].heading != heading
  {
    if siblings == [] then 0 else if siblings[0].heading == heading then 0 else 1 + ExactIndex(siblings[1..], heading)
  }

  function ChildrenAt(forest: Forest, path: Path): Option<Forest>
    decreases |path|
  {
    if path == [] then Some(forest)
    else
      var i := ExactIndex(forest, path[0]);
      if i == |forest| then None else ChildrenAt(forest[i].children, path[1..])
  }

  function WithChildren(forest: Forest, path: Path, children: Forest): Forest
    requires ChildrenAt(forest, path).Some?
    decreases |path|
  {
    if path == [] then children
    else
      var i := ExactIndex(forest, path[0]);
      forest[i := forest[i].(children := WithChildren(forest[i].children, path[1..], children))]
  }

  function ParentKey(section: Section): Path {
    if |section.path| <= 1 then [] else Parent(section.path)
  }

  /** Pushes a new node for the section under its parent, or fails because the parent is missing. */
  function Place(forest: Forest, section: Section, file: string): Option<Forest> {
    var siblings := ChildrenAt(forest, ParentKey(section));
    if siblings.None? then None
    else Some(WithChildren(forest, ParentKey(section), siblings.value + [Node(HeadingOf(section), section.level, file, [])]))
  }

  function PlaceAll(forest: Forest, sections: seq<Section>, files: seq<string>): Option<Forest>
    requires |files| == |sections|
    decreases |sections|
  {
    if sections == [] then Some(forest)
    else
      var placed := Place(forest, sections[0], files[0]);
      if placed.None? then None else PlaceAll(placed.value, sections[1..], files[1..])
  }

  // ----- pre-order listing, the partner of placing

  /** The sections of a heading tree in document order. */
  function Listing(forest: Forest, prefix: Path): seq<Section>
    decreases forest
  {
    if forest == [] then []
    else
      var path := prefix + [forest[0].heading];
      [Section(path, forest[0].level)] + Listing(forest[0].children, path) + Listing(forest[1..], prefix)
  }

  function FilesOf(forest: Forest): seq<string>
    decreases forest
  {
    if forest == [] then [] else [forest[0].file] + FilesOf(forest[0].children) + FilesOf(forest[1..])
  }

  lemma {:induction false} ListingLength(forest: Forest, prefix: Path)
    ensures |Listing(forest, prefix)| == |FilesOf(forest)|
    decreases forest
  {
    if forest != [] {
      ListingLength(forest[0].children, prefix + [forest[0].heading]);
      ListingLength(forest[1..], prefix);
    }
  }

  lemma {:induction false} PlaceAllAppend(forest: Forest, a: seq<Section>, b: seq<Section>, filesA: seq<string>, filesB: seq<string>)
    requires |a| == |filesA| && |b| == |filesB|
    ensures PlaceAll(forest, a + b, filesA + filesB)
         == (var first := PlaceAll(forest, a, filesA); if first.None? then None else PlaceAll(first.value, b, filesB))
    decreases |a|
  {
    if a == [] {
      assert a + b == b && filesA + filesB == filesB;
    } else {
      assert (a + b)[0] == a[0] && (a + b)[1..] == a[1..] + b;
      assert (filesA + filesB)[0] == filesA[0] && (filesA + filesB)[1..] == filesA[1..] + filesB;
      var placed := Place(forest, a[0], filesA[0]);
      if placed.Some? { PlaceAllAppend(placed.value, a[1..], b, filesA[1..], filesB); }
    }
  }

  lemma {:induction false} ExactIndexByHeading(a: Forest, b: Forest, heading: string)
    requires |a| == |b| && forall j | 0 <= j < |a| :: a[j].heading == b[j].heading
    ensures ExactIndex(a, heading) == ExactIndex(b, heading)
  {
    if a != [] && a[0].heading != heading { ExactIndexByHeading(a[1..], b[1..], heading); }
  }

  lemma {:induction false} ExactIndexLast(siblings: Forest, node: Node)
    requires forall other <- siblings :: other.heading != node.heading
    ensures ExactIndex(siblings + [node], node.heading) == |siblings|
  {
    assert (siblings + [node])[|siblings|] == node;
    assert forall j | 0 <= j < |siblings| :: (siblings + [node])[j] in siblings;
  }

  lemma {:induction false} WithChildrenRead(forest: Forest, path: Path, children: Forest)
    requires ChildrenAt(forest, path).Some?
    ensures ChildrenAt(WithChildren(forest, path, children), path) == Some(children)
    decreases |path|
  {
    if path != [] {
      var i := ExactIndex(forest, path[0]);
      WithChildrenRead(forest[i].children, path[1..], children);
      ExactIndexByHeading(forest, WithChildren(forest, path, children), path[0]);
    }
  }

  lemma {:induction false} WithChildrenTwice(forest: Forest, path: Path, first: Forest, second: Forest)
    requires ChildrenAt(forest, path).Some?
    ensures ChildrenAt(WithChildren(forest, path, first), path).Some?
    ensures WithChildren(WithChildren(forest, path, first), path, second) == WithChildren(forest, path, second)
    decreases |path|
  {
    WithChildrenRead(forest, path, first);
    if path != [] {
      var i := ExactIndex(forest, path[0]);
      WithChildrenTwice(forest[i].children, path[1..], first, second);
      ExactIndexByHeading(forest, WithChildren(forest, path, first), path[0]);
    }
  }

  lemma {:induction false} WithChildrenSame(forest: Forest, path: Path)
    requires ChildrenAt(forest, path).Some?
    ensures WithChildren(forest, path, ChildrenAt(forest, path).value) == forest
    decreases |path|
  {
    if path != [] {
      var i := ExactIndex(forest, path[0]);
      WithChildrenSame(forest[i].children, path[1..]);
      assert forest[i].(children := forest[i].children) == forest[i];
    }
  }

  /** Reading and writing one level deeper. */
  lemma {:induction false} ChildrenOfLast(forest: Forest, path: Path, heading: string, children: Forest)
    requires ChildrenAt(forest, path).Some? && ExactIndex(ChildrenAt(forest, path).value, heading) < |ChildrenAt(forest, path).value|
    ensures var siblings := ChildrenAt(forest, path).value;
      var i := ExactIndex(siblings, heading);
      && ChildrenAt(forest, path + [heading]) == Some(siblings[i].children)
      && WithChildren(forest, path + [heading], children)
         == WithChildren(forest, path, siblings[i := siblings[i].(children := children)])
    decreases |path|
  {
    var full := path + [heading];
    if path == [] {
      assert full[1..] == [];
    } else {
      assert full[0] == path[0] && full[1..] == path[1..] + [heading];
      ChildrenOfLast(forest[ExactIndex(forest, path[0])].children, path[1..], heading, children);
    }
  }

  /** Sibling headings are pairwise different strings. */
  predicate ExactlyDistinct(siblings: Forest) {
    forall i, j | 0 <= i < j < |siblings| :: siblings[i].heading != siblings[j].heading
  }

  predicate HeadingTree(forest: Forest)
    decreases forest
  {
    ExactlyDistinct(forest) && forall node <- forest :: HeadingTree(node.children)
  }

  /** Placing one new section and then its children below it appends the whole node. */
  lemma {:induction false} FillLast(forest: Forest, path: Path, node: Node)
    requires ChildrenAt(forest, path).Some?
    requires forall other <- ChildrenAt(forest, path).value :: other.heading != node.heading
    ensures var siblings := ChildrenAt(forest, path).value;
      var deeper := path + [node.heading];
      var placed := WithChildren(forest, path, siblings + [node.(children := [])]);
      && Place(forest, Section(deeper, node.level), node.file) == Some(placed)
      && ChildrenAt(placed, deeper) == Some([])
      && WithChildren(placed, deeper, node.children) == WithChildren(forest, path, siblings + [node])
  {
    var siblings := ChildrenAt(forest, path).value;
    var deeper := path + [node.heading];
    var leaf := node.(children := []);
    var placed := WithChildren(forest, path, siblings + [leaf]);
    assert Parent(deeper) == path && Leaf(deeper) == node.heading;
    WithChildrenRead(forest, path, siblings + [leaf]);
    ExactIndexLast(siblings, leaf);
    ChildrenOfLast(placed, path, node.heading, node.children);
    assert (siblings + [leaf])[|siblings| := leaf.(children := node.children)] == siblings + [node];
    WithChildrenTwice(forest, path, siblings + [leaf], siblings + [node]);
  }

  /** `end` is `forest` with `nodes` appended below `path`. */
  ghost predicate Appends(forest: Forest, path: Path, nodes: Forest, end: Forest) {
    var siblings := ChildrenAt(forest, path);
    siblings.Some? && end == WithChildren(forest, path, siblings.value + nodes)
  }

  lemma {:induction false} AppendsInTurn(forest: Forest, path: Path, nodes: Forest, filled: Forest, end: Forest)
    requires nodes != [] && Appends(forest, path, [nodes[0]], filled) && Appends(filled, path, nodes[1..], end)
    ensures Appends(forest, path, nodes, end)
  {
    var siblings := ChildrenAt(forest, path).value;
    WithChildrenRead(forest, path, siblings + [nodes[0]]);
    WithChildrenTwice(forest, path, siblings + [nodes[0]], siblings + nodes);
    assert siblings + [nodes[0]] + nodes[1..] == siblings + nodes;
  }

  /** Placing the listing of `nodes` under a path appends exactly those nodes to its children. */
  lemma {:induction false} PlacingAListing(forest: Forest, path: Path, nodes: Forest) returns (end: Forest)
    requires ChildrenAt(forest, path).Some? && HeadingTree(nodes)
    requires forall a <- ChildrenAt(forest, path).value, b <- nodes :: a.heading != b.heading
    ensures Appends(forest, path, nodes, end)
    ensures |Listing(nodes, path)| == |FilesOf(nodes)| && PlaceAll(forest, Listing(nodes, path), FilesOf(nodes)) == Some(end)
    decreases nodes
  {
    ListingLength(nodes, path);
    var siblings := ChildrenAt(forest, path).value;
    if nodes == [] {
      assert siblings + [] == siblings;
      WithChildrenSame(forest, path);
      return forest;
    }
    var node := nodes[0];
    RestIsNew(siblings, nodes);
    FillLast(forest, path, node);
    var placed := WithChildren(forest, path, siblings + [node.(children := [])]);
    var filled := PlacingAListing(placed, path + [node.heading], node.children);
    assert Appends(forest, path, [node], filled) by { assert [] + node.children == node.children; }
    WithChildrenRead(forest, path, siblings + [node]);
    end := PlacingAListing(filled, path, nodes[1..]);
    AppendsInTurn(forest, path, nodes, filled, end);
    PlaceInTurn(forest, path, nodes, placed, filled, end);
  }

  lemma {:induction false} PlaceInTurn(forest: Forest, path: Path, nodes: Forest, placed: Forest, filled: Forest, end: Forest)
    requires nodes != []
    requires var deeper := path + [nodes[0].heading];
      && Place(forest, Section(deeper, nodes[0].level), nodes[0].file) == Some(placed)
      && |Listing(nodes[0].children, deeper)| == |FilesOf(nodes[0].children)|
      && PlaceAll(placed, Listing(nodes[0].children, deeper), FilesOf(nodes[0].children)) == Some(filled)
      && |Listing(nodes[1..], path)| == |FilesOf(nodes[1..])|
      && PlaceAll(filled, Listing(nodes[1..], path), FilesOf(nodes[1..])) == Some(end)
    requires |Listing(nodes, path)| == |FilesOf(nodes)|
    ensures PlaceAll(forest, Listing(nodes, path), FilesOf(nodes)) == Some(end)
  {
    var deeper := path + [nodes[0].heading];
    PlaceInThree(forest, Section(deeper, nodes[0].level), nodes[0].file, Listing(nodes[0].children, deeper),
                 FilesOf(nodes[0].children), Listing(nodes[1..], path), FilesOf(nodes[1..]));
  }

  lemma {:induction false} RestIsNew(siblings: Forest, nodes: Forest)
    requires nodes != [] && HeadingTree(nodes) && forall a <- siblings, b <- nodes :: a.heading != b.heading
    ensures HeadingTree(nodes[0].children) && HeadingTree(nodes[1..])
    ensures forall a <- siblings + [nodes[0]], b <- nodes[1..] :: a.heading != b.heading
  {
    assert nodes[0] in nodes;
    forall b <- nodes[1..] ensures nodes[0].heading != b.heading && b in nodes {
      var j :| 0 <= j < |nodes[1..]| && nodes[1..][j] == b;
      assert nodes[j + 1] == b;
    }
  }

  lemma {:induction false} PlaceInThree(forest: Forest, first: Section, file: string, a: seq<Section>, filesA: seq<string>, b: seq<Section>, filesB: seq<string>)
    requires |a| == |filesA| && |b| == |filesB|
    requires Place(forest, first, file).Some?
    requires PlaceAll(Place(forest, first, file).value, a, filesA).Some?
    ensures PlaceAll(forest, [first] + a + b, [file] + filesA + filesB)
         == PlaceAll(PlaceAll(Place(forest, first, file).value, a, filesA).value, b, filesB)
  {
    assert [first] + a + b == [first] + (a + b) && [file] + filesA + filesB == [file] + (filesA + filesB);
    assert ([first] + (a + b))[1..] == a + b && ([file] + (filesA + filesB))[1..] == filesA + filesB;
    PlaceAllAppend(Place(forest, first, file).value, a, b, filesA, filesB);
  }

  /**
   * Round trip: the pre-order list of the heading paths of a forest with distinct sibling headings builds that
   * forest again, and the missing-parent error never fires.
   */
  lemma {:induction false} RebuildGivesForestBack(forest: Forest)
    requires HeadingTree(forest)
    ensures |Listing(forest, [])| == |FilesOf(forest)|
    ensures PlaceAll([], Listing(forest, []), FilesOf(forest)) == Some(forest)
  {
    var end := PlacingAListing([], [], forest);
    assert [] + forest == forest;
  }

  /** The same with text before the first heading, which becomes a headless root in front. */
  lemma {:induction false} RebuildWithPreamble(forest: Forest, file: string)
    requires HeadingTree(forest) && forall node <- forest :: node.heading != ""
    ensures |Listing(forest, [])| == |FilesOf(forest)|
    ensures PlaceAll([], [Section([], 0)] + Listing(forest, []), [file] + FilesOf(forest))
         == Some([Node("", 0, file, [])] + forest)
  {
    var preamble := Node("", 0, file, []);
    var first := Section([], 0);
    assert [] + [preamble] == [preamble];
    assert Place([], first, file) == Some([preamble]);
    var end := PlacingAListing([preamble], [], forest);
    PlaceInThree([], first, file, [], [], Listing(forest, []), FilesOf(forest));
    assert [first] + [] + Listing(forest, []) == [first] + Listing(forest, []);
    assert [file] + [] + FilesOf(forest) == [file] + FilesOf(forest);
  }

  // ----- when a parent is missing

  /** Placing a section makes exactly its own path resolvable. */
  lemma {:induction false} AppendAddsOnePath(forest: Forest, path: Path, node: Node, other: Path)
    requires ChildrenAt(forest, path).Some? && node.children == []
    ensures ChildrenAt(WithChildren(forest, path, ChildrenAt(forest, path).value + [node]), other).Some? <==>
              ChildrenAt(forest, other).Some? || other == path + [node.heading]
    decreases |path|
  {
    var edited := WithChildren(forest, path, ChildrenAt(forest, path).value + [node]);
    if other == [] {
    } else if path == [] {
      var i := ExactIndex(edited, other[0]);
      assert forall j | 0 <= j < |forest| :: edited[j] == forest[j];
      ExactIndexPrefix(forest, node, other[0]);
      if i == |forest| && ExactIndex(forest, other[0]) == |forest| && other[0] == node.heading {
        assert edited[i] == node;
        if |other| == 1 {
          assert other == [node.heading] && other[1..] == [];
        } else {
          assert ChildrenAt([], other[1..]).None?;
        }
      }
      assert [] + [node.heading] == [node.heading];
    } else {
      assert forall j | 0 <= j < |forest| :: edited[j].heading == forest[j].heading;
      ExactIndexByHeading(forest, edited, other[0]);
      var k := ExactIndex(forest, path[0]);
      assert (path + [node.heading])[0] == path[0] && (path + [node.heading])[1..] == path[1..] + [node.heading];
      if k == ExactIndex(forest, other[0]) {
        AppendAddsOnePath(forest[k].children, path[1..], node, other[1..]);
        assert other[0] == path[0];
        assert other == [other[0]] + other[1..] && path + [node.heading] == [path[0]] + (path[1..] + [node.heading]);
      }
    }
  }

  lemma {:induction false} ExactIndexPrefix(forest: Forest, node: Node, heading: string)
    ensures ExactIndex(forest + [node], heading)
         == if ExactIndex(forest, heading) < |forest| then ExactIndex(forest, heading)
            else if node.heading == heading then |forest| else |forest| + 1
  {
    if forest == [] {
      assert [] + [node] == [node] && [node][1..] == [];
    } else {
      assert (forest + [node])[1..] == forest[1..] + [node];
      ExactIndexPrefix(forest[1..], node, heading);
    }
  }

  /** The heading paths a forest resolves are exactly the ones placed so far. */
  ghost predicate Resolves(forest: Forest, placed: seq<Section>) {
    forall path: Path | path != [] && NoEmptySegment(path) ::
      ChildrenAt(forest, path).Some? <==> exists section <- placed :: section.path == path
  }

  predicate ProperPaths(sections: seq<Section>) {
    forall i | 0 <= i < |sections| :: NoEmptySegment(sections[i].path)
  }

  /** Every section deeper than the first level comes after a section at its parent's path. */
  predicate ParentsFirst(placed: seq<Section>, sections: seq<Section>)
    decreases |sections|
  {
    sections != [] ==>
      && (|sections[0].path| > 1 ==> exists parent <- placed :: parent.path == Parent(sections[0].path))
      && ParentsFirst(placed + [sections[0]], sections[1..])
  }

  lemma {:induction false} PlacesIffParentsFirst(forest: Forest, placed: seq<Section>, sections: seq<Section>, files: seq<string>)
    requires |files| == |sections| && ProperPaths(sections) && Resolves(forest, placed)
    ensures PlaceAll(forest, sections, files).Some? <==> ParentsFirst(placed, sections)
    decreases |sections|
  {
    if sections != [] {
      var section := sections[0];
      assert NoEmptySegment(section.path);
      var key := ParentKey(section);
      if |section.path| > 1 { assert key != [] && NoEmptySegment(key); }
      var next := Place(forest, section, files[0]);
      if next.Some? {
        var node := Node(HeadingOf(section), section.level, files[0], []);
        forall path: Path | path != [] && NoEmptySegment(path)
          ensures ChildrenAt(next.value, path).Some? <==> exists s <- placed + [section] :: s.path == path
        {
          AppendAddsOnePath(forest, key, node, path);
          if section.path == [] {
            assert path != key + [""] by { assert (key + [""])[|key|] == ""; }
          } else {
            assert key + [node.heading] == section.path;
          }
          assert section in placed + [section];
          assert forall s :: s in placed + [section] <==> s in placed || s == section;
        }
        PlacesIffParentsFirst(next.value, placed + [section], sections[1..], files[1..]);
      }
    }
  }

  /** Building replacement roots fails on a missing parent exactly when some section precedes its parent. */
  lemma {:induction false} MissingParentExactly(sections: seq<Section>, files: seq<string>)
    requires |files| == |sections| && ProperPaths(sections)
    ensures PlaceAll([], sections, files).None? <==> !ParentsFirst([], sections)
  {
    PlacesIffParentsFirst([], [], sections, files);
  }

  // ----- the heading stack of the parser

  function Popped(stack: seq<Section>, level: nat): seq<Section> {
    if stack == [] || stack[|stack| - 1].level < level then stack else Popped(stack[..|stack| - 1], level)
  }

  /** The paths the parser emits for headings met in order; `stack` holds the open headings, outermost first. */
  function Emitted(stack: seq<Section>, headings: seq<(string, nat)>): seq<Section>
    decreases |headings|
  {
    if headings == [] then []
    else
      var open := Popped(stack, headings[0].1);
      var path := (if open == [] then [] else open[|open| - 1].path) + [headings[0].0];
      var section := Section(path, headings[0].1);
      [section] + Emitted(open + [section], headings[1..])
  }

  predicate OpenStack(stack: seq<Section>, placed: seq<Section>) {
    forall i | 0 <= i < |stack| :: stack[i] in placed && |stack[i].path| == i + 1 && NoEmptySegment(stack[i].path)
  }

  lemma {:induction false} PoppedIsPrefix(stack: seq<Section>, level: nat)
    ensures |Popped(stack, level)| <= |stack| && Popped(stack, level) == stack[..|Popped(stack, level)|]
  {
    if stack != [] && stack[|stack| - 1].level >= level { PoppedIsPrefix(stack[..|stack| - 1], level); }
  }

  /** Parser output always names parents first, so a parsed document never runs into the missing-parent error. */
  lemma {:induction false} ParserNamesParentsFirst(stack: seq<Section>, headings: seq<(string, nat)>, placed: seq<Section>)
    requires OpenStack(stack, placed) && forall i | 0 <= i < |headings| :: headings[i].0 != ""
    ensures ParentsFirst(placed, Emitted(stack, headings)) && ProperPaths(Emitted(stack, headings))
    decreases |headings|
  {
    if headings != [] {
      var open := Popped(stack, headings[0].1);
      var section := Section((if open == [] then [] else open[|open| - 1].path) + [headings[0].0], headings[0].1);
      OpenedUnderItsParent(stack, headings[0], placed);
      ParserNamesParentsFirst(open + [section], headings[1..], placed + [section]);
      var emitted := Emitted(stack, headings);
      assert emitted[0] == section && emitted[1..] == Emitted(open + [section], headings[1..]);
      ProperInFront(section, emitted[1..]);
      assert emitted == [section] + emitted[1..];
    }
  }

  lemma {:induction false} ProperInFront(section: Section, rest: seq<Section>)
    requires NoEmptySegment(section.path) && ProperPaths(rest)
    ensures ProperPaths([section] + rest)
  {
    forall i | 0 <= i < |[section] + rest| ensures NoEmptySegment(([section] + rest)[i].path) {
      if i > 0 { assert ([section] + rest)[i] == rest[i - 1]; }
    }
  }

  // The next heading's parent is the innermost heading left open, which has been placed.
  lemma {:induction false} OpenedUnderItsParent(stack: seq<Section>, heading: (string, nat), placed: seq<Section>)
    requires OpenStack(stack, placed) && heading.0 != ""
    ensures var open := Popped(stack, heading.1);
      var section := Section((if open == [] then [] else open[|open| - 1].path) + [heading.0], heading.1);
      && NoEmptySegment(section.path)
      && (|section.path| > 1 ==> exists parent <- placed :: parent.path == Parent(section.path))
      && OpenStack(open + [section], placed + [section])
  {
    var open := Popped(stack, heading.1);
    PoppedIsPrefix(stack, heading.1);
    var parentPath := if open == [] then [] else open[|open| - 1].path;
    var section := Section(parentPath + [heading.0], heading.1);
    assert Parent(section.path) == parentPath;
    if open != [] {
      assert open[|open| - 1] == stack[|open| - 1];
      assert stack[|open| - 1] in placed;
    }
    var next := open + [section];
    forall i | 0 <= i < |next| ensures next[i] in placed + [section] && |next[i].path| == i + 1 && NoEmptySegment(next[i].path) {
      if i < |open| { assert next[i] == stack[i]; }
    }
  }

  lemma {:induction false} ParsedDocumentAlwaysBuilds(headings: seq<(string, nat)>, files: seq<string>)
    requires forall i | 0 <= i < |headings| :: headings[i].0 != ""
    requires |files| == |Emitted([], headings)|
    ensures PlaceAll([], Emitted([], headings), files).Some?
  {
    ParserNamesParentsFirst([], headings, []);
    MissingParentExactly(Emitted([], headings), files);
  }
}
