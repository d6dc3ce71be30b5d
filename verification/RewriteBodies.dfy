/** File ids and bodies of a rewritten subtree: ids reused, body holders added, every body paired with its file. */
module RewriteBodies {
  import opened Basics
  import opened SectionForest
  import opened ReplacementRoots

  /** A section with a body of its own: a childless node, addressed by the path of the heading it belongs to. */
  datatype Entry = Entry(path: Path, file: string)

  function PathOf(prefix: Path, node: Node): Path {
    if IsBodyHolder(node) then prefix else prefix + [node.heading]
  }

  function Holder(file: string): Node {
    Node("", 0, file, [])
  }

  /** The content entries of a forest in document order. */
  function Contents(forest: Forest, prefix: Path): seq<Entry>
    decreases forest
  {
    if forest == [] then []
    else
      var path := PathOf(prefix, forest[0]);
      (if forest[0].children == [] then [Entry(path, forest[0].file)] else Contents(forest[0].children, path))
      + Contents(forest[1..], prefix)
  }

  /** A section whose path held content before keeps that content's file: directly, or in a new body holder. */
  function Reuse(forest: Forest, prefix: Path, existing: map<Path, string>): Forest
    decreases forest
  {
    if forest == [] then []
    else
      var node := forest[0];
      var path := PathOf(prefix, node);
      var children := Reuse(node.children, path, existing);
      var kept :=
        if path !in existing then node.(children := children)
        else if node.children == [] then node.(file := existing[path])
        else if HasHolder(node.children) then node.(children := children)
        else node.(children := [Holder(existing[path])] + children);
      [kept] + Reuse(forest[1..], prefix, existing)
  }

  /** Every parent without a body holder gets one; `mint` names the file made for the parent at a path. */
  function AddHolders(forest: Forest, prefix: Path, mint: Path -> string): Forest
    decreases forest
  {
    if forest == [] then []
    else
      var node := forest[0];
      var path := PathOf(prefix, node);
      var children := AddHolders(node.children, path, mint);
      var held :=
        if node.children == [] || HasHolder(node.children) then children else [Holder(mint(path))] + children;
      [node.(children := held)] + AddHolders(forest[1..], prefix, mint)
  }

  function Finished(forest: Forest, prefix: Path, existing: map<Path, string>, mint: Path -> string): Forest {
    AddHolders(Reuse(forest, prefix, existing), prefix, mint)
  }

  /** The file that holds the body of a parsed section. */
  function FileFor(node: Node, path: Path, existing: map<Path, string>, mint: Path -> string): string {
    if path in existing then existing[path] else if node.children == [] then node.file else mint(path)
  }

  /** One entry for each parsed section, in order. */
  function Expected(forest: Forest, prefix: Path, existing: map<Path, string>, mint: Path -> string): seq<Entry>
    decreases forest
  {
    if forest == [] then []
    else
      var path := PathOf(prefix, forest[0]);
      [Entry(path, FileFor(forest[0], path, existing, mint))]
      + Expected(forest[0].children, path, existing, mint)
      + Expected(forest[1..], prefix, existing, mint)
  }

  /** A heading tree as placing builds it: below the roots every node has a heading. */
  predicate Plain(forest: Forest)
    decreases forest
  {
    forall node <- forest :: node.heading != "" && Plain(node.children)
  }

  /** A plain tree, possibly with a headless root in front. */
  predicate PlainDocument(forest: Forest) {
    Plain(forest) || (forest != [] && IsBodyHolder(forest[0]) && forest[0].children == [] && Plain(forest[1..]))
  }

  lemma {:induction false} PlainHasNoHolder(forest: Forest)
    requires Plain(forest)
    ensures !HasHolder(forest)
  {
    forall node <- forest ensures !IsBodyHolder(node) { assert node.heading != ""; }
  }

  lemma {:induction false} PlainParts(forest: Forest)
    requires PlainDocument(forest) && forest != []
    ensures Plain(forest[0].children) && !HasHolder(forest[0].children)
    ensures Plain(forest[1..]) && PlainDocument(forest[1..]) && !HasHolder(forest[1..])
    ensures IsBodyHolder(forest[0]) ==> forest[0].children == []
  {
    assert forest[0] in forest;
    if Plain(forest) {
      assert forest[0].heading != "";
      assert Plain(forest[1..]);
    }
    PlainHasNoHolder(forest[0].children);
    PlainHasNoHolder(forest[1..]);
  }

  lemma {:induction false} PlainReuse(forest: Forest, prefix: Path, existing: map<Path, string>)
    requires Plain(forest)
    ensures var reused := Reuse(forest, prefix, existing);
      |reused| == |forest| && !HasHolder(reused) && forall i | 0 <= i < |forest| :: reused[i].heading == forest[i].heading
  {
    if forest != [] {
      assert Plain(forest[1..]);
      PlainReuse(forest[1..], prefix, existing);
    }
  }

  lemma {:induction false} ContentsAppend(a: Forest, b: Forest, prefix: Path)
    ensures Contents(a + b, prefix) == Contents(a, prefix) + Contents(b, prefix)
    decreases |a|
  {
    if a == [] {
      assert a + b == b;
    } else {
      assert (a + b)[0] == a[0] && (a + b)[1..] == a[1..] + b;
      ContentsAppend(a[1..], b, prefix);
    }
  }

  lemma {:induction false} AddHoldersBehindHolder(file: string, rest: Forest, prefix: Path, mint: Path -> string)
    ensures AddHolders([Holder(file)] + rest, prefix, mint) == [Holder(file)] + AddHolders(rest, prefix, mint)
  {
    assert ([Holder(file)] + rest)[1..] == rest;
    assert Holder(file).(children := []) == Holder(file);
  }

  /** The finished form of one plain node with children: its body holder, then the finished children. */
  lemma {:induction false} FinishedParent(node: Node, path: Path, existing: map<Path, string>, mint: Path -> string)
    requires node.children != [] && Plain(node.children)
    ensures var reused := Reuse(node.children, path, existing);
      var kept := if path in existing then [Holder(existing[path])] + reused else reused;
      var held := if HasHolder(kept) then AddHolders(kept, path, mint) else [Holder(mint(path))] + AddHolders(kept, path, mint);
      held == [Holder(FileFor(node, path, existing, mint))] + AddHolders(reused, path, mint)
  {
    PlainReuse(node.children, path, existing);
    var reused := Reuse(node.children, path, existing);
    if path in existing {
      AddHoldersBehindHolder(existing[path], reused, path, mint);
      assert IsBodyHolder(([Holder(existing[path])] + reused)[0]);
    }
  }

  /** The finished form of a forest, node by node. */
  lemma {:induction false} FinishedFirst(forest: Forest, prefix: Path, existing: map<Path, string>, mint: Path -> string)
    requires PlainDocument(forest) && forest != []
    ensures var node := forest[0];
      var path := PathOf(prefix, node);
      var file := FileFor(node, path, existing, mint);
      var first :=
        if node.children == [] then node.(file := file)
        else node.(children := [Holder(file)] + Finished(node.children, path, existing, mint));
      Finished(forest, prefix, existing, mint) == [first] + Finished(forest[1..], prefix, existing, mint)
    ensures PlainDocument(forest[1..]) && Plain(forest[0].children)
  {
    var node := forest[0];
    var path := PathOf(prefix, node);
    PlainParts(forest);
    var reused := Reuse(forest, prefix, existing);
    assert reused[1..] == Reuse(forest[1..], prefix, existing);
    assert PathOf(prefix, reused[0]) == path;
    if node.children != [] {
      PlainReuse(node.children, path, existing);
      FinishedParent(node, path, existing, mint);
      var kept := if path in existing then [Holder(existing[path])] + Reuse(node.children, path, existing)
                  else Reuse(node.children, path, existing);
      assert reused[0] == node.(children := kept) && kept != [];
    } else {
      assert Reuse([], path, existing) == [] && AddHolders([], path, mint) == [];
      assert reused[0] == node.(file := FileFor(node, path, existing, mint));
    }
  }

  /** The finished form said directly: a childless section with its file, a parent with its body holder in front. */
  function FinishedForm(forest: Forest, prefix: Path, existing: map<Path, string>, mint: Path -> string): Forest
    decreases forest
  {
    if forest == [] then []
    else
      var path := PathOf(prefix, forest[0]);
      var file := FileFor(forest[0], path, existing, mint);
      [if forest[0].children == [] then forest[0].(file := file)
       else forest[0].(children := [Holder(file)] + FinishedForm(forest[0].children, path, existing, mint))]
      + FinishedForm(forest[1..], prefix, existing, mint)
  }

  lemma {:induction false} FinishedHasTheForm(forest: Forest, prefix: Path, existing: map<Path, string>, mint: Path -> string)
    requires PlainDocument(forest)
    ensures Finished(forest, prefix, existing, mint) == FinishedForm(forest, prefix, existing, mint)
    decreases forest
  {
    if forest != [] {
      FinishedFirst(forest, prefix, existing, mint);
      FinishedHasTheForm(forest[1..], prefix, existing, mint);
      FinishedHasTheForm(forest[0].children, PathOf(prefix, forest[0]), existing, mint);
    }
  }

  lemma {:induction false} FormMatchesSections(forest: Forest, prefix: Path, existing: map<Path, string>, mint: Path -> string)
    requires PlainDocument(forest)
    ensures Contents(FinishedForm(forest, prefix, existing, mint), prefix) == Expected(forest, prefix, existing, mint)
    decreases forest
  {
    if forest != [] {
      var node := forest[0];
      var path := PathOf(prefix, node);
      var file := FileFor(node, path, existing, mint);
      PlainParts(forest);
      FormMatchesSections(forest[1..], prefix, existing, mint);
      if node.children == [] {
        ContentsInFront(node.(file := file), FinishedForm(forest[1..], prefix, existing, mint), prefix);
        assert Expected(node.children, path, existing, mint) == [];
      } else {
        FormMatchesSections(node.children, path, existing, mint);
        ContentsOfParent(node, path, FinishedForm(node.children, path, existing, mint), file,
                         FinishedForm(forest[1..], prefix, existing, mint), prefix);
      }
    }
  }

  /**
   * After body holders are added, the content entries match the parsed sections one to one and in order, and a
   * section whose resulting path already held content keeps that content's file.
   */
  lemma {:induction false} ContentsMatchSections(forest: Forest, prefix: Path, existing: map<Path, string>, mint: Path -> string)
    requires PlainDocument(forest)
    ensures Contents(Finished(forest, prefix, existing, mint), prefix) == Expected(forest, prefix, existing, mint)
  {
    FinishedHasTheForm(forest, prefix, existing, mint);
    FormMatchesSections(forest, prefix, existing, mint);
  }

  // A parent's contents: its holder's entry, those of its children, then those that follow it.
  lemma {:induction false} ContentsOfParent(node: Node, path: Path, children: Forest, file: string, rest: Forest, prefix: Path)
    requires path == PathOf(prefix, node)
    ensures Contents([node.(children := [Holder(file)] + children)] + rest, prefix)
         == [Entry(path, file)] + Contents(children, path) + Contents(rest, prefix)
  {
    ContentsInFront(Holder(file), children, path);
    ContentsInFront(node.(children := [Holder(file)] + children), rest, prefix);
  }

  lemma {:induction false} ContentsInFront(node: Node, rest: Forest, prefix: Path)
    ensures Contents([node] + rest, prefix)
         == (if node.children == [] then [Entry(PathOf(prefix, node), node.file)] else Contents(node.children, PathOf(prefix, node)))
          + Contents(rest, prefix)
  {
    assert ([node] + rest)[1..] == rest;
  }

  // ----- distinct paths

  /** The path leads to one of these roots or below it. */
  predicate LeadsInto(forest: Forest, prefix: Path, path: Path) {
    && |prefix| <= |path| && path[..|prefix|] == prefix
    && (|path| == |prefix| ==> HasHolder(forest))
    && (|path| > |prefix| ==> exists node <- forest :: !IsBodyHolder(node) && node.heading == path[|prefix|])
  }

  /** Entry `i` of a listing: the first root's own, one below it, or one of the later roots. */
  lemma {:induction false} ExpectedAt(forest: Forest, prefix: Path, existing: map<Path, string>, mint: Path -> string, i: nat)
    requires i < |Expected(forest, prefix, existing, mint)|
    ensures forest != []
    ensures var path := PathOf(prefix, forest[0]);
      var below := Expected(forest[0].children, path, existing, mint);
      var later := Expected(forest[1..], prefix, existing, mint);
      Expected(forest, prefix, existing, mint)[i] ==
        if i == 0 then Entry(path, FileFor(forest[0], path, existing, mint))
        else if i <= |below| then below[i - 1]
        else later[i - 1 - |below|]
    ensures var path := PathOf(prefix, forest[0]);
      i <= |Expected(forest[0].children, path, existing, mint)| + |Expected(forest[1..], prefix, existing, mint)|
  {
  }

  lemma {:induction false} ExpectedLeadsInto(forest: Forest, prefix: Path, existing: map<Path, string>, mint: Path -> string, i: nat)
    requires PlainDocument(forest) && i < |Expected(forest, prefix, existing, mint)|
    ensures LeadsInto(forest, prefix, Expected(forest, prefix, existing, mint)[i].path)
    decreases forest
  {
    ExpectedAt(forest, prefix, existing, mint, i);
    PlainParts(forest);
    var node, rest := forest[0], forest[1..];
    var path := PathOf(prefix, node);
    var below := Expected(node.children, path, existing, mint);
    if i == 0 {
      LeadsToFirst(forest, prefix);
    } else if i <= |below| {
      ExpectedLeadsInto(node.children, path, existing, mint, i - 1);
      HeadedWithChildren(node, path, existing, mint);
      LeadsThrough(forest, node, prefix, below[i - 1].path);
    } else {
      var later := Expected(rest, prefix, existing, mint)[i - 1 - |below|];
      ExpectedLeadsInto(rest, prefix, existing, mint, i - 1 - |below|);
      LeadsLater(forest, prefix, later.path);
    }
  }

  lemma {:induction false} LeadsToFirst(forest: Forest, prefix: Path)
    requires forest != []
    ensures LeadsInto(forest, prefix, PathOf(prefix, forest[0]))
  {
    assert forest[0] in forest;
  }

  lemma {:induction false} LeadsLater(forest: Forest, prefix: Path, target: Path)
    requires forest != [] && LeadsInto(forest[1..], prefix, target)
    ensures LeadsInto(forest, prefix, target)
  {
    assert forall n <- forest[1..] :: n in forest;
  }

  lemma {:induction false} HeadedWithChildren(node: Node, path: Path, existing: map<Path, string>, mint: Path -> string)
    requires IsBodyHolder(node) ==> node.children == []
    ensures Expected(node.children, path, existing, mint) != [] ==> !IsBodyHolder(node)
  {
  }

  // What leads into the children of a headed root leads through the root.
  lemma {:induction false} LeadsThrough(forest: Forest, node: Node, prefix: Path, target: Path)
    requires node in forest && !IsBodyHolder(node) && LeadsInto(node.children, PathOf(prefix, node), target)
    ensures LeadsInto(forest, prefix, target)
  {
    var path := prefix + [node.heading];
    assert target[..|prefix|] == target[..|path|][..|prefix|];
    assert target[|prefix|] == target[..|path|][|prefix|];
  }

  /** A path below the first root, or its own, starts with the root's path. */
  lemma {:induction false} ExpectedUnderFirst(forest: Forest, prefix: Path, existing: map<Path, string>, mint: Path -> string, i: nat)
    requires PlainDocument(forest) && forest != []
    requires var path := PathOf(prefix, forest[0]); i <= |Expected(forest[0].children, path, existing, mint)|
    ensures i < |Expected(forest, prefix, existing, mint)|
    ensures var path := PathOf(prefix, forest[0]);
      var found := Expected(forest, prefix, existing, mint)[i].path;
      && |path| <= |found| && found[..|path|] == path
      && (i == 0 ==> found == path) && (i > 0 ==> found != path) && (IsBodyHolder(forest[0]) ==> found == prefix)
  {
    ExpectedAt(forest, prefix, existing, mint, i);
    PlainParts(forest);
    if i > 0 { ExpectedLeadsInto(forest[0].children, PathOf(prefix, forest[0]), existing, mint, i - 1); }
  }

  /** A path into the first root and a path into a later one differ. */
  lemma {:induction false} FirstIsDistinct(forest: Forest, prefix: Path, first: Path, later: Path)
    requires forest != [] && PlainDocument(forest) && ExactlyDistinct(forest)
    requires LeadsInto(forest[1..], prefix, later)
    requires var path := PathOf(prefix, forest[0]); |path| <= |first| && first[..|path|] == path
    requires IsBodyHolder(forest[0]) ==> first == prefix
    ensures first != later
  {
    PlainParts(forest);
    var node := forest[0];
    if !IsBodyHolder(node) {
      var other :| other in forest[1..] && !IsBodyHolder(other) && other.heading == later[|prefix|];
      var k :| 0 <= k < |forest[1..]| && forest[1..][k] == other;
      assert forest[k + 1] == other;
      assert first[|prefix|] == first[..|prefix| + 1][|prefix|] == node.heading;
    }
  }

  lemma {:induction false} FirstAndLaterDiffer(forest: Forest, prefix: Path, existing: map<Path, string>, mint: Path -> string,
                                               i: nat, j: nat)
    requires PlainDocument(forest) && forest != [] && ExactlyDistinct(forest)
    requires var below := Expected(forest[0].children, PathOf(prefix, forest[0]), existing, mint);
      i <= |below| < j < |Expected(forest, prefix, existing, mint)|
    ensures Expected(forest, prefix, existing, mint)[i].path != Expected(forest, prefix, existing, mint)[j].path
  {
    var below := Expected(forest[0].children, PathOf(prefix, forest[0]), existing, mint);
    ExpectedAt(forest, prefix, existing, mint, j);
    PlainParts(forest);
    ExpectedUnderFirst(forest, prefix, existing, mint, i);
    ExpectedLeadsInto(forest[1..], prefix, existing, mint, j - 1 - |below|);
    FirstIsDistinct(forest, prefix, Expected(forest, prefix, existing, mint)[i].path,
                    Expected(forest, prefix, existing, mint)[j].path);
  }

  lemma {:induction false} HeadingTreeParts(forest: Forest)
    requires HeadingTree(forest) && forest != []
    ensures HeadingTree(forest[1..]) && HeadingTree(forest[0].children) && ExactlyDistinct(forest)
  {
    assert forest[0] in forest;
  }

  lemma {:induction false} DistinctEntries(forest: Forest, prefix: Path, existing: map<Path, string>, mint: Path -> string, i: nat, j: nat)
    requires PlainDocument(forest) && HeadingTree(forest)
    requires i < j < |Expected(forest, prefix, existing, mint)|
    ensures Expected(forest, prefix, existing, mint)[i].path != Expected(forest, prefix, existing, mint)[j].path
    decreases forest
  {
    ExpectedAt(forest, prefix, existing, mint, i);
    ExpectedAt(forest, prefix, existing, mint, j);
    PlainParts(forest);
    assert forest[0] in forest;
    var path := PathOf(prefix, forest[0]);
    var below := Expected(forest[0].children, path, existing, mint);
    HeadingTreeParts(forest);
    if i > |below| {
      DistinctEntries(forest[1..], prefix, existing, mint, i - 1 - |below|, j - 1 - |below|);
    } else if j > |below| {
      FirstAndLaterDiffer(forest, prefix, existing, mint, i, j);
    } else if i == 0 {
      ExpectedUnderFirst(forest, prefix, existing, mint, j);
    } else {
      DistinctEntries(forest[0].children, path, existing, mint, i - 1, j - 1);
    }
  }

  // ----- body writes

  predicate PathsDistinct(entries: seq<Entry>) {
    forall i, j | 0 <= i < j < |entries| :: entries[i].path != entries[j].path
  }

  function PathsOf(entries: seq<Entry>): set<Path> {
    set entry | entry in entries :: entry.path
  }

  method IndexByPath(entries: seq<Entry>) returns (byPath: Option<map<Path, string>>)
    ensures byPath.Some? <==> PathsDistinct(entries)
    ensures byPath.Some? ==> byPath.value.Keys == PathsOf(entries) && forall entry <- entries :: byPath.value[entry.path] == entry.file
  {
    var found: map<Path, string> := map[];
    var i := 0;
    while i < |entries|
      invariant 0 <= i <= |entries| && PathsDistinct(entries[..i])
      invariant found.Keys == PathsOf(entries[..i])
      invariant forall j | 0 <= j < i :: entries[j].path in found && found[entries[j].path] == entries[j].file
    {
      var entry := entries[i];
      if entry.path in found {
        assert exists earlier <- entries[..i] :: earlier.path == entry.path;
        return None;
      }
      found := found[entry.path := entry.file];
      assert entries[..i + 1] == entries[..i] + [entry];
      i := i + 1;
    }
    assert entries[..i] == entries;
    return Some(found);
  }

  /**
   * Pairs every parsed body with the content entry of its path, or fails: on two entries at one path, on a
   * different number of entries and bodies, and on a body without entry.
   */
  method BuildBodyWrites(entries: seq<Entry>, bodies: map<Path, string>) returns (writes: Option<map<Path, (string, string)>>)
    ensures writes.Some? <==> PathsDistinct(entries) && bodies.Keys == PathsOf(entries)
    ensures writes.Some? ==>
              && writes.value.Keys == bodies.Keys
              && forall entry <- entries :: entry.path in bodies && writes.value[entry.path] == (entry.file, bodies[entry.path])
  {
    var indexed := IndexByPath(entries);
    if indexed.None? { return None; }
    if |indexed.value.Keys| != |bodies.Keys| { return None; }
    writes := PairBodies(indexed.value, bodies);
    if writes.Some? { SameSizeSubset(bodies.Keys, indexed.value.Keys); }
  }

  method PairBodies(byPath: map<Path, string>, bodies: map<Path, string>) returns (writes: Option<map<Path, (string, string)>>)
    ensures writes.Some? <==> bodies.Keys <= byPath.Keys
    ensures writes.Some? ==>
              writes.value.Keys == bodies.Keys && forall path <- bodies :: writes.value[path] == (byPath[path], bodies[path])
  {
    var result: map<Path, (string, string)> := map[];
    var todo := bodies.Keys;
    while todo != {}
      invariant todo <= bodies.Keys && result.Keys == bodies.Keys - todo && result.Keys <= byPath.Keys
      invariant forall path <- result :: result[path] == (byPath[path], bodies[path])
      decreases |todo|
    {
      var path :| path in todo;
      if path !in byPath { return None; }
      result := result[path := (byPath[path], bodies[path])];
      todo := todo - {path};
    }
    return Some(result);
  }

  lemma {:induction false} SameSizeSubset(a: set<Path>, b: set<Path>)
    requires a <= b && |a| == |b|
    ensures a == b
  {
    assert b == a + (b - a);
    assert |b| == |a| + |b - a|;
  }

  /**
   * Rewriting a subtree never fails to pair bodies with files: for the finished form of a tree with distinct
   * headings, the entries are at pairwise distinct paths, exactly those of the parsed sections.
   */
  lemma {:induction false} EveryBodyHasItsEntry(forest: Forest, prefix: Path, existing: map<Path, string>, mint: Path -> string)
    requires PlainDocument(forest) && HeadingTree(forest)
    ensures var entries := Contents(Finished(forest, prefix, existing, mint), prefix);
      && entries == Expected(forest, prefix, existing, mint)
      && PathsDistinct(entries)
      && forall entry <- entries :: entry.path in existing ==> entry.file == existing[entry.path]
  {
    ContentsMatchSections(forest, prefix, existing, mint);
    var entries := Expected(forest, prefix, existing, mint);
    forall i, j | 0 <= i < j < |entries| ensures entries[i].path != entries[j].path {
      DistinctEntries(forest, prefix, existing, mint, i, j);
    }
    forall i | 0 <= i < |entries| && entries[i].path in existing
      ensures entries[i].file == existing[entries[i].path]
    {
      ExpectedFile(forest, prefix, existing, mint, i);
    }
  }

  lemma {:induction false} ExpectedFile(forest: Forest, prefix: Path, existing: map<Path, string>, mint: Path -> string, i: nat)
    requires i < |Expected(forest, prefix, existing, mint)|
    ensures var entry := Expected(forest, prefix, existing, mint)[i];
      entry.path in existing ==> entry.file == existing[entry.path]
    decreases forest
  {
    var path := PathOf(prefix, forest[0]);
    var below := Expected(forest[0].children, path, existing, mint);
    if 0 < i <= |below| {
      ExpectedFile(forest[0].children, path, existing, mint, i - 1);
    } else if i > |below| {
      ExpectedFile(forest[1..], prefix, existing, mint, i - 1 - |below|);
    }
  }
}
