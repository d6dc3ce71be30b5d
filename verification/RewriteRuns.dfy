/** Subtree rewrites as they run, leading text included, and runs of edits in which they are mixed with all others. */
module RewriteRuns {
  import opened Basics
  import opened SectionForest
  import opened SectionEdits
  import opened HeadingAddresses
  import opened ReplacementRoots
  import opened RewriteBodies
  import opened RewriteLaw
  import opened SubtreeRewrite

  /** What a rewrite is asked to do: the parsed text with its bodies, the text above its first heading, and new ids. */
  datatype Request = Request(path: Path, preamble: bool, headings: seq<(string, nat)>, bodies: seq<string>, orphan: string, ids: Ids)

  datatype Refusal = StaleTarget | DuplicateAddress | Unwalked | Collision

  /** Where each body goes, and the file that takes the leading text. */
  datatype Outcome = Refused(why: Refusal) | Rewritten(writes: map<Path, (string, string)>, orphanTo: Option<string>)

  function SectionsOf(r: Request): seq<Section> { Parsed(r.preamble, r.headings) }

  function PrefixOf(r: Request): Path { if r.path == [] then [] else Parent(r.path) }

  /** A request the program makes of a document: only the headless root takes a preamble, only a headed one has text above. */
  ghost predicate Asked(forest: Forest, r: Request) {
    && Named(r.headings) && NoEmptySegment(r.path) && New(forest, r.ids)
    && |r.ids.files| == |SectionsOf(r)| == |r.bodies|
    && (r.path == [] ==> r.orphan == "") && (r.path != [] ==> !r.preamble)
  }

  /** The headings as they are written along a path of headings. */
  function Spelled(forest: Forest, path: Path): Path
    requires SiblingsAt(forest, path).Some?
    decreases |path|
  {
    if path == [] then []
    else
      var i := FindIndex(forest, path[0]);
      [forest[i].heading] + Spelled(forest[i].children, path[1..])
  }

  function Target(forest: Forest, path: Path): Node
    requires Locate(forest, path).Some?
  {
    var (siblings, i) := Locate(forest, path).value;
    siblings[i]
  }

  function Existing(forest: Forest, r: Request): map<Path, string>
    requires Locate(forest, r.path).Some?
  {
    ByPath(Contents([Target(forest, r.path)], if r.path == [] then [] else Spelled(forest, Parent(r.path))))
  }

  /** The roots that take the place of the section. */
  function Replacement(forest: Forest, r: Request): Forest
    requires Locate(forest, r.path).Some? && |r.ids.files| == |SectionsOf(r)|
  {
    var placed := PlaceAll([], SectionsOf(r), r.ids.files);
    if placed.None? then [] else Finished(placed.value, PrefixOf(r), Existing(forest, r), r.ids.mint)
  }

  lemma {:induction false} TargetUses(forest: Forest, path: Path)
    requires Locate(forest, path).Some?
    ensures forall file :: OwnUses(Target(forest, path), file) <= Uses(forest, file)
  {
    var (siblings, i) := Locate(forest, path).value;
    forall file ensures OwnUses(siblings[i], file) <= Uses(forest, file) {
      UsesSplit(siblings, i, file);
      if path != [] { ListUses(forest, Parent(path), file); }
    }
  }

  lemma {:induction false} ListUses(forest: Forest, parent: Path, file: string)
    requires SiblingsAt(forest, parent).Some?
    ensures Uses(SiblingsAt(forest, parent).value, file) <= Uses(forest, file)
    decreases |parent|
  {
    if parent != [] {
      var i := FindIndex(forest, parent[0]);
      ListUses(forest[i].children, parent[1..], file);
      UsesSplit(forest, i, file);
    }
  }

  /**
   * From what the parser emits to roots that may be spliced in: they are addressable, their ids are new or the
   * replaced section's own, and their content entries are at the resulting paths, each once.
   */
  lemma {:induction false} ReplacementIsLegal(forest: Forest, r: Request)
    requires Lawful(forest) && Locate(forest, r.path).Some? && Asked(forest, r) && NoDuplicateAddress(SectionsOf(r))
    ensures PlaceAll([], SectionsOf(r), r.ids.files).Some?
    ensures Legal(forest, RewriteSubtree(r.path, Replacement(forest, r))) && FrontOnly(Replacement(forest, r))
    ensures var entries := Contents(Replacement(forest, r), PrefixOf(r));
      && PathsDistinct(entries) && PathsOf(entries) == ResultingPaths(SectionsOf(r), PrefixOf(r))
      && forall entry <- entries :: entry.path in Existing(forest, r) ==> entry.file == Existing(forest, r)[entry.path]
  {
    var target := Target(forest, r.path);
    var existing := Existing(forest, r);
    ParsedIsPlaced(r.preamble, r.headings, r.ids.files);
    var placed := PlaceAll([], SectionsOf(r), r.ids.files).value;
    FinishedIsAddressable(placed, PrefixOf(r), existing, r.ids.mint);
    FinishedHeadings(placed, PrefixOf(r), existing, r.ids.mint);
    EntriesAreThePaths(placed, r.preamble, r.headings, PrefixOf(r), existing, r.ids);
    if r.path != [] { RootsAreHeaded(placed, Replacement(forest, r)); }
    AddressTreeIsHeadingTree(placed);
    TargetUses(forest, r.path);
    forall file ensures OwnUses(target, file) <= 1 { assert Uses(forest, file) <= 1; }
    KeptFiles(target, if r.path == [] then [] else Spelled(forest, Parent(r.path)));
    FinishedIsFresh(forest, target, placed, PrefixOf(r), existing, r.ids);
  }

  lemma {:induction false} RootsAreHeaded(placed: Forest, finished: Forest)
    requires Plain(placed) && |finished| == |placed| && forall i | 0 <= i < |placed| :: finished[i].heading == placed[i].heading
    ensures forall root <- finished :: root.heading != ""
  {
    forall root <- finished ensures root.heading != "" {
      var i :| 0 <= i < |finished| && finished[i] == root;
      assert placed[i] in placed;
    }
  }

  // ----- the section before

  function FindFile(entries: seq<Entry>, file: string): (i: nat)
    ensures i <= |entries|
    ensures i < |entries| ==> entries[i].file == file
    ensures forall j | 0 <= j < i :: entries[j].file != file
  {
    if entries == [] || entries[0].file == file then 0 else 1 + FindFile(entries[1..], file)
  }

  lemma {:induction false} ContentsAt(forest: Forest, i: nat, prefix: Path)
    requires i < |forest|
    ensures Contents(forest, prefix) == Contents(forest[..i], prefix) + Contents([forest[i]], prefix) + Contents(forest[i + 1..], prefix)
    ensures Contents([forest[i]], prefix)
         == if forest[i].children == [] then [Entry(PathOf(prefix, forest[i]), forest[i].file)]
            else Contents(forest[i].children, PathOf(prefix, forest[i]))
  {
    assert forest == forest[..i] + ([forest[i]] + forest[i + 1..]);
    ContentsAppend(forest[..i], [forest[i]] + forest[i + 1..], prefix);
    ContentsAppend([forest[i]], forest[i + 1..], prefix);
    assert [forest[i]][1..] == [];
  }

  /** A childless section is among the content entries. */
  lemma {:induction false} LeafIsWalked(forest: Forest, path: Path, prefix: Path)
    requires Locate(forest, path).Some? && Target(forest, path).children == [] && NoEmptySegment(path) && path != []
    ensures exists e <- Contents(forest, prefix) :: e.file == Target(forest, path).file
    decreases |path|
  {
    var i := FindIndex(forest, path[0]);
    if |path| == 1 {
      assert Parent(path) == [];
      ContentsAt(forest, i, prefix);
    } else {
      assert Parent(path)[0] == path[0];
      LocateInto(forest, path);
      var deeper := PathOf(prefix, forest[i]);
      LeafIsWalked(forest[i].children, path[1..], deeper);
      ContentsAt(forest, i, prefix);
      assert forest[i].children != [];
    }
  }

  /** A section with children is not: its file is a listing, and no other section has it. */
  lemma {:induction false} ParentIsNotWalked(forest: Forest, path: Path, prefix: Path)
    requires DistinctFiles(forest) && Locate(forest, path).Some? && Target(forest, path).children != [] && path != []
    ensures forall e <- Contents(forest, prefix) :: e.file != Target(forest, path).file
  {
    var file := Target(forest, path).file;
    ParentCounted(forest, path, file);
    ContentsAndParents(forest, prefix, file);
    assert Uses(forest, file) <= 1;
    forall e <- Contents(forest, prefix) ensures e.file != file {
      var i :| 0 <= i < |Contents(forest, prefix)| && Contents(forest, prefix)[i] == e;
      CountOne(Contents(forest, prefix), i);
    }
  }

  lemma {:induction false} ParentAppend(a: Forest, b: Forest, file: string)
    ensures ParentUses(a + b, file) == ParentUses(a, file) + ParentUses(b, file)
    decreases |a|
  {
    if a == [] {
      assert a + b == b;
    } else {
      assert (a + b)[0] == a[0] && (a + b)[1..] == a[1..] + b;
      ParentAppend(a[1..], b, file);
    }
  }

  lemma {:induction false} ParentCounted(forest: Forest, path: Path, file: string)
    requires Locate(forest, path).Some? && path != []
    requires Target(forest, path).children != [] && Target(forest, path).file == file
    ensures ParentUses(forest, file) >= 1
    decreases |path|
  {
    var i := FindIndex(forest, path[0]);
    if |path| == 1 {
      assert Parent(path) == [];
    } else {
      assert Parent(path)[0] == path[0];
      LocateInto(forest, path);
      ParentCounted(forest[i].children, path[1..], file);
    }
    assert forest == forest[..i] + forest[i..];
    ParentAppend(forest[..i], forest[i..], file);
  }

  lemma {:induction false} ContentsAndParents(forest: Forest, prefix: Path, file: string)
    ensures ParentUses(forest, file) + CountFile(Contents(forest, prefix), file) <= Uses(forest, file)
    decreases forest
  {
    if forest != [] {
      var path := PathOf(prefix, forest[0]);
      ContentsAndParents(forest[0].children, path, file);
      ContentsAndParents(forest[1..], prefix, file);
      var own := if forest[0].children == [] then [Entry(path, forest[0].file)] else Contents(forest[0].children, path);
      CountFileAppend(own, Contents(forest[1..], prefix), file);
      assert [Entry(path, forest[0].file)][1..] == [];
    }
  }

  /** With no section before it a headed section stands below the first root, and there is no headless root. */
  lemma {:induction false} NothingBeforeMeansFirst(forest: Forest, path: Path)
    requires DistinctFiles(forest) && FrontOnly(forest) && path != [] && NoEmptySegment(path) && Locate(forest, path).Some?
    requires Contents(forest, []) != [] && Contents(forest, [])[0].file == Target(forest, path).file
    ensures !HasHolder(forest)
  {
    var file := Target(forest, path).file;
    var i := FindIndex(forest, path[0]);
    BelowRoot(forest, path);
    FirstEntry(forest, []);
    if i > 0 {
      UsesSplit(forest, 0, file);
      assert forest[1..][i - 1] == forest[i];
      UsesSplit(forest[1..], i - 1, file);
      assert Uses(forest, file) <= 1;
    }
    NonEmptyMatch(forest[0].heading, path[0]);
    forall node <- forest ensures !IsBodyHolder(node) {
      var j :| 0 <= j < |forest| && forest[j] == node;
    }
  }

  lemma {:induction false} BelowRoot(forest: Forest, path: Path)
    requires path != [] && Locate(forest, path).Some?
    ensures var i := FindIndex(forest, path[0]); i < |forest| && OwnUses(forest[i], Target(forest, path).file) >= 1
    decreases |path|
  {
    if |path| == 1 {
      assert Parent(path) == [];
    } else {
      assert Parent(path)[0] == path[0];
      LocateInto(forest, path);
      TargetUses(forest[FindIndex(forest, path[0])].children, path[1..]);
    }
  }

  lemma {:induction false} FirstEntry(forest: Forest, prefix: Path)
    requires forest != [] && Contents(forest, prefix) != []
    ensures OwnUses(forest[0], Contents(forest, prefix)[0].file) >= 1
    decreases forest
  {
    if forest[0].children != [] {
      var path := PathOf(prefix, forest[0]);
      SomeContents(forest[0].children, path);
      FirstEntry(forest[0].children, path);
      UsesSplit(forest[0].children, 0, Contents(forest[0].children, path)[0].file);
    }
  }

  lemma {:induction false} SomeContents(forest: Forest, prefix: Path)
    requires forest != []
    ensures Contents(forest, prefix) != []
    decreases forest
  {
    if forest[0].children != [] { SomeContents(forest[0].children, PathOf(prefix, forest[0])); }
  }

  /** Headed roots spliced over a headed section bring no headless root. */
  lemma {:induction false} StillNoHolder(forest: Forest, path: Path, roots: Forest)
    requires path != [] && !HasHolder(forest) && ReplaceSubtree(forest, path, roots).Ok? && Addressable(forest)
    requires forall root <- roots :: root.heading != ""
    ensures !HasHolder(ReplaceSubtree(forest, path, roots).forest)
  {
    var (siblings, i) := Locate(forest, path).value;
    var edited := ReplaceSubtree(forest, path, roots).forest;
    forall node <- edited ensures !IsBodyHolder(node) {
      if Parent(path) == [] {
        assert node in siblings || node in roots;
      } else {
        WithSiblingsRoots(forest, Parent(path), Spliced(siblings, i, roots));
        var j :| 0 <= j < |edited| && edited[j] == node;
        assert !IsBodyHolder(forest[j]);
      }
    }
  }

  // ----- the rewrite

  predicate NewFront(forest: Forest, r: Request)
    requires Locate(forest, r.path).Some?
  {
    r.orphan != "" && FindFile(Contents(forest, []), Target(forest, r.path).file) == 0
  }

  /** The document after the rewrite, told apart by what can stand in its way; `None` leaves it as it was. */
  ghost function After(forest: Forest, r: Request): (Forest, Option<Refusal>)
    requires |r.ids.files| == |SectionsOf(r)|
  {
    if Locate(forest, r.path).None? then (forest, Some(StaleTarget))
    else if !NoDuplicateAddress(SectionsOf(r)) then (forest, Some(DuplicateAddress))
    else if r.orphan != "" && Target(forest, r.path).children != [] then (forest, Some(Unwalked))
    else
      var result := ReplaceSubtree(forest, r.path, Replacement(forest, r));
      if result.Err? then (forest, Some(Collision))
      else (if NewFront(forest, r) then [Holder(r.ids.front)] + result.forest else result.forest, None)
  }

  /** What a new headless root in front needs: nothing headless behind it. */
  lemma {:induction false} FrontKeepsLaw(forest: Forest, front: string)
    requires Lawful(forest) && Uses(forest, front) == 0 && !HasHolder(forest)
    ensures Lawful([Holder(front)] + forest) && FrontOnly([Holder(front)] + forest)
  {
    HolderInFront(forest, front);
    var edited := [Holder(front)] + forest;
    forall file ensures Uses(edited, file) <= 1 {
      assert Uses(forest, file) <= 1 && Uses(edited, file) <= Uses(forest, file) + if file == front then 1 else 0;
    }
    forall i | 0 < i < |edited| ensures edited[i].heading != "" {
      assert forest[i - 1] in forest && edited[i] == forest[i - 1];
    }
  }

  lemma {:induction false} FrontIsNew(forest: Forest, r: Request)
    requires Lawful(forest) && Asked(forest, r) && Locate(forest, r.path).Some? && NoDuplicateAddress(SectionsOf(r))
    requires ReplaceSubtree(forest, r.path, Replacement(forest, r)).Ok?
    ensures Uses(ReplaceSubtree(forest, r.path, Replacement(forest, r)).forest, r.ids.front) == 0
  {
    var (siblings, i) := Locate(forest, r.path).value;
    var roots := Replacement(forest, r);
    var front := r.ids.front;
    SplicedUses(siblings, i, roots, front);
    if r.path != [] { WithSiblingsUses(forest, Parent(r.path), Spliced(siblings, i, roots), front); }
    ParsedIsPlaced(r.preamble, r.headings, r.ids.files);
    var placed := PlaceAll([], SectionsOf(r), r.ids.files).value;
    var existing := Existing(forest, r);
    TargetUses(forest, r.path);
    forall file ensures OwnUses(siblings[i], file) <= 1 { assert Uses(forest, file) <= 1; }
    KeptFiles(siblings[i], if r.path == [] then [] else Spelled(forest, Parent(r.path)));
    forall p <- existing ensures existing[p] != front { assert OwnUses(siblings[i], existing[p]) > 0; }
    FinishedUses(placed, PrefixOf(r), existing, r.ids.mint, front);
    PlacedFileStays(placed, PrefixOf(r), existing, r.ids.mint, front);
    OccursIn(r.ids.files, front);
    assert Uses(placed, front) == Occurs(r.ids.files, front);
  }

  lemma {:induction false} OccursIn(files: seq<string>, file: string)
    ensures Occurs(files, file) > 0 ==> file in files
  {
    if files != [] && files[0] != file { OccursIn(files[1..], file); }
  }

  /**
   * The whole rewrite keeps the law, whatever the parser emits: refused it changes nothing, carried out it leaves
   * sibling addresses distinct, holders in place, ids unique and at most one headless root, in front.
   */
  lemma {:induction false} RewriteKeepsLaw(forest: Forest, r: Request)
    requires Lawful(forest) && FrontOnly(forest) && Asked(forest, r)
    ensures Lawful(After(forest, r).0) && FrontOnly(After(forest, r).0)
  {
    if After(forest, r).1.None? {
      ReplacementIsLegal(forest, r);
      var roots := Replacement(forest, r);
      EditKeepsLaw(forest, RewriteSubtree(r.path, roots));
      RewriteKeepsFront(forest, r.path, roots);
      if NewFront(forest, r) {
        LeafIsWalked(forest, r.path, []);
        NothingBeforeMeansFirst(forest, r.path);
        StillNoHolder(forest, r.path, roots);
        FrontIsNew(forest, r);
        FrontKeepsLaw(ReplaceSubtree(forest, r.path, roots).forest, r.ids.front);
      }
    }
  }

  /** The duplicate check in front of a rewrite. */
  method HasDuplicateAddress(sections: seq<Section>) returns (duplicate: bool)
    ensures duplicate <==> !NoDuplicateAddress(sections)
  {
    var paths := PathsOfSections(sections);
    var counts, order := HeadingAddressCounts(paths);
    for i := 0 to |order|
      invariant forall j | 0 <= j < i :: CountAddress(paths, order[j]) <= 1
    {
      assert order[i] in order;
      if counts[order[i]].count >= 2 { return true; }
    }
    forall key ensures CountAddress(paths, key) <= 1 {
      if CountAddress(paths, key) > 0 { assert key in order; }
    }
    return false;
  }

  /** Pushes a node for each parsed section under its parent. */
  method BuildReplacementRoots(sections: seq<Section>, files: seq<string>) returns (roots: Option<Forest>)
    requires |files| == |sections|
    ensures roots == PlaceAll([], sections, files)
  {
    var forest: Forest := [];
    assert sections[0..] == sections && files[0..] == files;
    for i := 0 to |sections|
      invariant PlaceAll([], sections, files) == PlaceAll(forest, sections[i..], files[i..])
    {
      assert sections[i..][1..] == sections[i + 1..] && files[i..][1..] == files[i + 1..];
      var placed := Place(forest, sections[i], files[i]);
      if placed.None? { return None; }
      forest := placed.value;
    }
    return Some(forest);
  }

  method FindPreviousBodyHolder(entries: seq<Entry>, file: string) returns (walked: bool, previous: Option<string>)
    ensures walked <==> FindFile(entries, file) < |entries|
    ensures walked ==> previous == if FindFile(entries, file) == 0 then None else Some(entries[FindFile(entries, file) - 1].file)
  {
    previous := None;
    assert entries[0..] == entries;
    for i := 0 to |entries|
      invariant FindFile(entries, file) == i + FindFile(entries[i..], file)
      invariant previous == if i == 0 then None else Some(entries[i - 1].file)
    {
      if entries[i].file == file { return true, previous; }
      previous := Some(entries[i].file);
    }
    return false, None;
  }

  method BodiesByPath(sections: seq<Section>, bodies: seq<string>, prefix: Path) returns (byPath: map<Path, string>)
    requires |bodies| == |sections|
    ensures byPath.Keys == ResultingPaths(sections, prefix)
    ensures (forall i, j | 0 <= i < j < |sections| :: prefix + sections[i].path != prefix + sections[j].path) ==>
              forall i | 0 <= i < |sections| :: byPath[prefix + sections[i].path] == bodies[i]
  {
    byPath := map[];
    for i := 0 to |sections|
      invariant byPath.Keys == ResultingPaths(sections[..i], prefix)
      invariant (forall a, b | 0 <= a < b < |sections| :: prefix + sections[a].path != prefix + sections[b].path) ==>
                  forall k | 0 <= k < i :: prefix + sections[k].path in byPath && byPath[prefix + sections[k].path] == bodies[k]
    {
      assert sections[..i + 1] == sections[..i] + [sections[i]];
      OnePathMore(sections[..i], sections[i], prefix);
      byPath := byPath[prefix + sections[i].path := bodies[i]];
    }
    assert sections[..|sections|] == sections;
  }

  lemma {:induction false} OnePathMore(sections: seq<Section>, last: Section, prefix: Path)
    ensures ResultingPaths(sections + [last], prefix) == ResultingPaths(sections, prefix) + {prefix + last.path}
  {
    var all := sections + [last];
    assert all[|sections|] == last;
    forall i | 0 <= i < |sections| ensures prefix + sections[i].path in ResultingPaths(all, prefix) {
      assert all[i] == sections[i];
    }
  }

  lemma {:induction false} PathsOfADistinctList(sections: seq<Section>, prefix: Path)
    requires NoDuplicateAddress(sections)
    ensures forall i, j | 0 <= i < j < |sections| :: prefix + sections[i].path != prefix + sections[j].path
  {
    forall i, j | 0 <= i < j < |sections| ensures prefix + sections[i].path != prefix + sections[j].path {
      assert CountAddress(PathsOfSections(sections), HeadingAddressKey(sections[i].path)) <= 1;
      if sections[i].path == sections[j].path { TwiceCounted(sections, i, j); }
      assert (prefix + sections[i].path)[|prefix|..] == sections[i].path;
      assert (prefix + sections[j].path)[|prefix|..] == sections[j].path;
    }
  }

  lemma {:induction false} TwiceCounted(sections: seq<Section>, i: nat, j: nat)
    requires i < j < |sections| && sections[i].path == sections[j].path
    ensures CountAddress(PathsOfSections(sections), HeadingAddressKey(sections[i].path)) >= 2
  {
    var key := HeadingAddressKey(sections[i].path);
    assert sections == sections[..i] + sections[i..] && sections[i..] == [sections[i]] + sections[i + 1..];
    assert sections[i + 1..] == sections[i + 1..j] + sections[j..] && sections[j..] == [sections[j]] + sections[j + 1..];
    SectionsOfBoth(sections[..i], sections[i..], key);
    SectionsOfBoth([sections[i]], sections[i + 1..], key);
    SectionsOfBoth(sections[i + 1..j], sections[j..], key);
    SectionsOfBoth([sections[j]], sections[j + 1..], key);
    assert PathsOfSections([sections[i]]) == [sections[i].path] && PathsOfSections([sections[j]]) == [sections[j].path];
    assert [sections[i].path][1..] == [] && [sections[j].path][1..] == [];
  }

  /** What a rewrite that was carried out has written. */
  ghost predicate Wrote(forest: Forest, r: Request, outcome: Outcome)
    requires Locate(forest, r.path).Some? && |r.ids.files| == |SectionsOf(r)| == |r.bodies|
  {
    var entries := Contents(Replacement(forest, r), PrefixOf(r));
    var walked := Contents(forest, []);
    var at := FindFile(walked, Target(forest, r.path).file);
    && outcome.Rewritten?
    && outcome.writes.Keys == ResultingPaths(SectionsOf(r), PrefixOf(r))
    && (forall i | 0 <= i < |r.bodies| ::
          var path := PrefixOf(r) + SectionsOf(r)[i].path; path in outcome.writes && outcome.writes[path].1 == r.bodies[i])
    && (forall e <- entries :: e.path in outcome.writes && outcome.writes[e.path].0 == e.file)
    && (forall e <- entries :: e.path in Existing(forest, r) ==> e.file == Existing(forest, r)[e.path])
    && outcome.orphanTo == (if r.orphan == "" then None
                            else if at == 0 then Some(r.ids.front)
                            else if at <= |walked| then Some(walked[at - 1].file) else None)
  }

  lemma {:induction false} WalkedIffLeaf(forest: Forest, r: Request)
    requires Lawful(forest) && Asked(forest, r) && Locate(forest, r.path).Some? && r.orphan != ""
    ensures (FindFile(Contents(forest, []), Target(forest, r.path).file) < |Contents(forest, [])|)
        <==> (Target(forest, r.path).children == [])
  {
    if Target(forest, r.path).children == [] {
      LeafIsWalked(forest, r.path, []);
      var entries, file := Contents(forest, []), Target(forest, r.path).file;
      var e :| e in entries && e.file == file;
      var i :| 0 <= i < |entries| && entries[i] == e;
    } else {
      ParentIsNotWalked(forest, r.path, []);
    }
  }

  /** The target is there, the paths are distinct and leading text has a place to be looked for. */
  ghost predicate Ready(forest: Forest, r: Request) {
    && Locate(forest, r.path).Some? && |r.ids.files| == |SectionsOf(r)| && NoDuplicateAddress(SectionsOf(r))
    && (r.orphan != "" ==> Target(forest, r.path).children == [])
  }

  lemma {:induction false} AfterReady(forest: Forest, r: Request)
    requires Lawful(forest) && Asked(forest, r) && Ready(forest, r)
    ensures var result := ReplaceSubtree(forest, r.path, Replacement(forest, r));
      After(forest, r) == if result.Err? then (forest, Some(Collision))
                          else (if NewFront(forest, r) then [Holder(r.ids.front)] + result.forest else result.forest, None)
    ensures var result := ReplaceSubtree(forest, r.path, Replacement(forest, r)); result.Err? ==> result.failure == DuplicateSibling
  {
  }

  /** The rewrite as it runs, once the target and the parsed text have been looked at. */
  method SpliceIn(doc: DocumentSkeleton, r: Request, roots: Forest, previous: Option<string>) returns (outcome: Outcome)
    requires Lawful(doc.roots) && FrontOnly(doc.roots) && Asked(doc.roots, r) && Ready(doc.roots, r)
    requires roots == Replacement(doc.roots, r)
    requires r.orphan != "" ==>
      var walked := Contents(doc.roots, []);
      var at := FindFile(walked, Target(doc.roots, r.path).file);
      at < |walked| && previous == if at == 0 then None else Some(walked[at - 1].file)
    modifies doc
    ensures doc.roots == After(old(doc.roots), r).0
    ensures match After(old(doc.roots), r).1
      case Some(why) => outcome == Refused(why)
      case None => Wrote(old(doc.roots), r, outcome)
  {
    ReplacementIsLegal(doc.roots, r);
    AfterReady(doc.roots, r);
    ghost var was := doc.roots;
    var failure := doc.ReplaceSubtreeDeletingOmittedSections(r.path, roots);
    if failure.Some? { return Refused(Collision); }
    var writes := WriteBodies(was, r, roots);
    if r.orphan == "" { return Rewritten(writes, None); }
    if previous.Some? { return Rewritten(writes, previous); }
    doc.roots := [Holder(r.ids.front)] + doc.roots;
    return Rewritten(writes, Some(r.ids.front));
  }

  /**
   * The rewrite as it runs. It is refused, with nothing changed, exactly when the target is not there, the parsed text
   * repeats an address, leading text meets a target with sections of its own, or a root collides with a sibling; no
   * parsed text is refused for a missing parent or a body without a file.
   */
  method ReplaceSubtreeDeletingOmittedSections(doc: DocumentSkeleton, r: Request) returns (outcome: Outcome)
    requires Lawful(doc.roots) && FrontOnly(doc.roots) && Asked(doc.roots, r)
    modifies doc
    ensures Lawful(doc.roots) && FrontOnly(doc.roots)
    ensures doc.roots == After(old(doc.roots), r).0
    ensures match After(old(doc.roots), r).1
      case Some(why) => outcome == Refused(why)
      case None => Wrote(old(doc.roots), r, outcome)
  {
    RewriteKeepsLaw(doc.roots, r);
    var located := Locate(doc.roots, r.path);
    if located.None? { return Refused(StaleTarget); }
    var duplicate := HasDuplicateAddress(SectionsOf(r));
    if duplicate { return Refused(DuplicateAddress); }
    var placed := BuildReplacementRoots(SectionsOf(r), r.ids.files);
    ParsedIsPlaced(r.preamble, r.headings, r.ids.files);
    var roots := Finished(placed.value, PrefixOf(r), Existing(doc.roots, r), r.ids.mint);
    var previous := None;
    if r.orphan != "" {
      WalkedIffLeaf(doc.roots, r);
      var walked;
      walked, previous := FindPreviousBodyHolder(Contents(doc.roots, []), Target(doc.roots, r.path).file);
      if !walked { return Refused(Unwalked); }
    }
    outcome := SpliceIn(doc, r, roots, previous);
  }

  /** Pairs the parsed bodies with the entries of the replacement; there is one for each. */
  method WriteBodies(ghost forest: Forest, r: Request, roots: Forest) returns (writes: map<Path, (string, string)>)
    requires Lawful(forest) && Locate(forest, r.path).Some? && Asked(forest, r) && NoDuplicateAddress(SectionsOf(r))
    requires roots == Replacement(forest, r)
    ensures writes.Keys == ResultingPaths(SectionsOf(r), PrefixOf(r))
    ensures forall i | 0 <= i < |r.bodies| ::
              var path := PrefixOf(r) + SectionsOf(r)[i].path; path in writes && writes[path].1 == r.bodies[i]
    ensures forall e <- Contents(roots, PrefixOf(r)) :: e.path in writes && writes[e.path].0 == e.file
  {
    ReplacementIsLegal(forest, r);
    var entries := Contents(roots, PrefixOf(r));
    var bodies := BodiesByPath(SectionsOf(r), r.bodies, PrefixOf(r));
    PathsOfADistinctList(SectionsOf(r), PrefixOf(r));
    var paired := BuildBodyWrites(entries, bodies);
    writes := paired.value;
    forall i | 0 <= i < |r.bodies|
      ensures var path := PrefixOf(r) + SectionsOf(r)[i].path; path in writes && writes[path].1 == r.bodies[i]
    {
      var path := PrefixOf(r) + SectionsOf(r)[i].path;
      assert path in ResultingPaths(SectionsOf(r), PrefixOf(r)) && path in PathsOf(entries);
      var e :| e in entries && e.path == path;
    }
  }

  // ----- runs

  datatype DocumentEdit = Structural(edit: Edit) | Rewrite(request: Request)

  /** The premises of a run: what callers say and that ids are new; nothing about a rewrite's result. */
  ghost predicate MayEdit(forest: Forest, e: DocumentEdit) {
    match e
    case Structural(edit) => !edit.RewriteSubtree? && Legal(forest, edit)
    case Rewrite(r) => Asked(forest, r)
  }

  ghost function Edited(forest: Forest, e: DocumentEdit): Forest
    requires MayEdit(forest, e)
  {
    match e
    case Structural(edit) => Apply(forest, edit)
    case Rewrite(r) => After(forest, r).0
  }

  ghost predicate MayRun(forest: Forest, edits: seq<DocumentEdit>)
    decreases |edits|
  {
    edits != [] ==> MayEdit(forest, edits[0]) && MayRun(Edited(forest, edits[0]), edits[1..])
  }

  ghost function EditedBy(forest: Forest, edits: seq<DocumentEdit>): Forest
    requires MayRun(forest, edits)
    decreases |edits|
  {
    if edits == [] then forest else EditedBy(Edited(forest, edits[0]), edits[1..])
  }

  /**
   * Any run of deletions, renames, moves, reorderings, insertions, created ancestors and rewrites of parsed text,
   * applied or refused, keeps the law, and a headless root stays in front.
   */
  lemma {:induction false} DocumentStaysLawful(forest: Forest, edits: seq<DocumentEdit>)
    requires Lawful(forest) && FrontOnly(forest) && MayRun(forest, edits)
    ensures Lawful(EditedBy(forest, edits)) && FrontOnly(EditedBy(forest, edits))
    decreases |edits|
  {
    if edits != [] {
      match edits[0] {
        case Structural(edit) =>
          EditKeepsLaw(forest, edit);
          EditKeepsFront(forest, edit);
        case Rewrite(r) => RewriteKeepsLaw(forest, r);
      }
      DocumentStaysLawful(Edited(forest, edits[0]), edits[1..]);
    }
  }

  /** So every heading path goes on to lead to at most one section. */
  lemma {:induction false} EveryPathStaysUnique(forest: Forest, edits: seq<DocumentEdit>, path: Path)
    requires Lawful(forest) && FrontOnly(forest) && MayRun(forest, edits) && path != []
    ensures Ways(EditedBy(forest, edits), path) == if Locate(EditedBy(forest, edits), path).Some? then 1 else 0
  {
    DocumentStaysLawful(forest, edits);
    AtMostOneWay(EditedBy(forest, edits), path);
  }
}
