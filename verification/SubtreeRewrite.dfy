/**
 * A whole subtree rewrite: parsed headings placed, checked, given their files and bodies and spliced in.
 *
 * What the parts promise is put together here, from what the parser emits to the forest that is stored: nothing about
 * the replacement is taken for granted except that generated file ids are new.
 */
module SubtreeRewrite {
  import opened Basics
  import opened SectionForest
  import opened SectionEdits
  import opened HeadingAddresses
  import opened ReplacementRoots
  import opened RewriteBodies
  import opened RewriteLaw

  // ----- counting sections by path and file

  type Which = (Path, string) -> bool

  function AtPath(path: Path): Which { (p, file) => p == path }

  function WithKey(key: string): Which { (p, file) => HeadingAddressKey(p) == key }

  function WithFile(name: string): Which { (p, file) => file == name }

  function One(which: Which, path: Path, file: string): nat { if which(path, file) then 1 else 0 }

  /** How many nodes, each with its path and file, are of a kind. */
  function Count(forest: Forest, prefix: Path, which: Which): nat
    decreases forest
  {
    if forest == [] then 0
    else
      One(which, PathOf(prefix, forest[0]), forest[0].file)
      + Count(forest[0].children, PathOf(prefix, forest[0]), which) + Count(forest[1..], prefix, which)
  }

  function CountPlaced(sections: seq<Section>, files: seq<string>, prefix: Path, which: Which): nat
    requires |sections| == |files|
  {
    if sections == [] then 0
    else One(which, prefix + sections[0].path, files[0]) + CountPlaced(sections[1..], files[1..], prefix, which)
  }

  lemma {:induction false} CountAppend(a: Forest, b: Forest, prefix: Path, which: Which)
    ensures Count(a + b, prefix, which) == Count(a, prefix, which) + Count(b, prefix, which)
    decreases |a|
  {
    if a == [] {
      assert a + b == b;
    } else {
      assert (a + b)[0] == a[0] && (a + b)[1..] == a[1..] + b;
      CountAppend(a[1..], b, prefix, which);
    }
  }

  function OwnCount(node: Node, prefix: Path, which: Which): nat {
    One(which, PathOf(prefix, node), node.file) + Count(node.children, PathOf(prefix, node), which)
  }

  lemma {:induction false} CountSplit(forest: Forest, i: nat, prefix: Path, which: Which)
    requires i < |forest|
    ensures Count(forest, prefix, which)
         == Count(forest[..i], prefix, which) + OwnCount(forest[i], prefix, which) + Count(forest[i + 1..], prefix, which)
  {
    var tail := forest[i..];
    assert forest == forest[..i] + tail && tail[0] == forest[i] && tail[1..] == forest[i + 1..];
    CountAppend(forest[..i], tail, prefix, which);
  }

  lemma {:induction false} UsesIsCount(forest: Forest, prefix: Path, file: string)
    ensures Uses(forest, file) == Count(forest, prefix, WithFile(file))
    decreases forest
  {
    if forest != [] {
      UsesIsCount(forest[0].children, PathOf(prefix, forest[0]), file);
      UsesIsCount(forest[1..], prefix, file);
    }
  }

  /** Appending one node below a path of headings adds one section, at that path. */
  lemma {:induction false} PlacedCount(forest: Forest, path: Path, node: Node, prefix: Path, which: Which)
    requires ChildrenAt(forest, path).Some? && NoEmptySegment(path) && node.children == []
    ensures Count(WithChildren(forest, path, ChildrenAt(forest, path).value + [node]), prefix, which)
         == Count(forest, prefix, which) + One(which, PathOf(prefix + path, node), node.file)
    decreases |path|
  {
    if path == [] {
      assert prefix + [] == prefix && [node][1..] == [];
      CountAppend(forest, [node], prefix, which);
    } else {
      var i := ExactIndex(forest, path[0]);
      var deeper := prefix + [path[0]];
      assert PathOf(prefix, forest[i]) == deeper && deeper + path[1..] == prefix + path;
      PlacedCount(forest[i].children, path[1..], node, deeper, which);
      var edited := WithChildren(forest, path, ChildrenAt(forest, path).value + [node]);
      assert edited[..i] == forest[..i] && edited[i + 1..] == forest[i + 1..];
      CountSplit(forest, i, prefix, which);
      CountSplit(edited, i, prefix, which);
    }
  }

  // ----- what the parser hands over

  /** Sections with headings, none of them empty. */
  predicate Headed(sections: seq<Section>) {
    forall i | 0 <= i < |sections| :: sections[i].path != [] && NoEmptySegment(sections[i].path)
  }

  lemma {:induction false} PlaceCounts(forest: Forest, section: Section, file: string, prefix: Path, which: Which)
    requires section.path == [] || NoEmptySegment(section.path)
    requires section.path == [] ==> section.level == 0
    requires Place(forest, section, file).Some?
    ensures Count(Place(forest, section, file).value, prefix, which)
         == Count(forest, prefix, which) + One(which, prefix + section.path, file)
  {
    var key := ParentKey(section);
    var node := Node(HeadingOf(section), section.level, file, []);
    PlacedCount(forest, key, node, prefix, which);
    if section.path == [] {
      assert prefix + [] == prefix;
    } else {
      assert section.path == key + [node.heading];
      assert node.heading != "";
      assert PathOf(prefix + key, node) == prefix + key + [node.heading] == prefix + section.path;
    }
  }

  /** Placing adds each section once, at its path and with its file. */
  lemma {:induction false} PlaceAllCounts(forest: Forest, sections: seq<Section>, files: seq<string>, prefix: Path, which: Which)
    requires |files| == |sections| && Headed(sections) && PlaceAll(forest, sections, files).Some?
    ensures Count(PlaceAll(forest, sections, files).value, prefix, which)
         == Count(forest, prefix, which) + CountPlaced(sections, files, prefix, which)
    decreases |sections|
  {
    if sections != [] {
      var placed := Place(forest, sections[0], files[0]).value;
      PlaceCounts(forest, sections[0], files[0], prefix, which);
      assert Headed(sections[1..]);
      PlaceAllCounts(placed, sections[1..], files[1..], prefix, which);
    }
  }

  /** A plain tree stays plain as headed sections are placed, whatever headless root stands in front of it. */
  lemma {:induction false} PlainAppended(forest: Forest, path: Path, node: Node)
    requires Plain(forest) && ChildrenAt(forest, path).Some? && node.heading != "" && node.children == []
    ensures Plain(WithChildren(forest, path, ChildrenAt(forest, path).value + [node]))
    decreases |path|
  {
    if path != [] {
      var i := ExactIndex(forest, path[0]);
      assert forest[i] in forest;
      PlainAppended(forest[i].children, path[1..], node);
    }
  }

  lemma {:induction false} BehindHolder(holder: Node, rest: Forest, path: Path, node: Node)
    requires IsBodyHolder(holder) && holder.children == [] && NoEmptySegment(path)
    ensures ChildrenAt([holder] + rest, path).Some? <==> ChildrenAt(rest, path).Some?
    ensures ChildrenAt(rest, path).Some? ==>
              WithChildren([holder] + rest, path, ChildrenAt([holder] + rest, path).value + [node])
                == [holder] + WithChildren(rest, path, ChildrenAt(rest, path).value + [node])
  {
    assert ([holder] + rest)[1..] == rest;
    if path != [] {
      assert ExactIndex([holder] + rest, path[0]) == 1 + ExactIndex(rest, path[0]);
    } else {
      assert [holder] + rest + [node] == [holder] + (rest + [node]);
    }
  }

  /** Placing headed sections behind a headless root is placing them, and then the root in front. */
  lemma {:induction false} PlacedBehindHolder(holder: Node, rest: Forest, sections: seq<Section>, files: seq<string>)
    requires IsBodyHolder(holder) && holder.children == [] && |files| == |sections| && Headed(sections)
    ensures PlaceAll([holder] + rest, sections, files)
         == (var placed := PlaceAll(rest, sections, files); if placed.None? then None else Some([holder] + placed.value))
    decreases |sections|
  {
    if sections != [] {
      var node := Node(HeadingOf(sections[0]), sections[0].level, files[0], []);
      BehindHolder(holder, rest, ParentKey(sections[0]), node);
      assert Headed(sections[1..]);
      var placed := Place(rest, sections[0], files[0]);
      if placed.Some? { PlacedBehindHolder(holder, placed.value, sections[1..], files[1..]); }
    }
  }

  lemma {:induction false} PlaceAllPlain(forest: Forest, sections: seq<Section>, files: seq<string>)
    requires Plain(forest) && |files| == |sections| && Headed(sections) && PlaceAll(forest, sections, files).Some?
    ensures Plain(PlaceAll(forest, sections, files).value)
    decreases |sections|
  {
    if sections != [] {
      var key := ParentKey(sections[0]);
      PlainAppended(forest, key, Node(HeadingOf(sections[0]), sections[0].level, files[0], []));
      assert Headed(sections[1..]);
      PlaceAllPlain(Place(forest, sections[0], files[0]).value, sections[1..], files[1..]);
    }
  }

  // ----- the duplicate check is about the placed forest

  lemma {:induction false} ListingKeys(forest: Forest, prefix: Path, key: string)
    requires Plain(forest)
    ensures CountAddress(PathsOfSections(Listing(forest, prefix)), key) == Count(forest, prefix, WithKey(key))
    decreases forest
  {
    if forest != [] {
      var node := forest[0];
      var path := prefix + [node.heading];
      assert node in forest && PathOf(prefix, node) == path;
      assert Plain(forest[1..]);
      ListingKeys(node.children, path, key);
      ListingKeys(forest[1..], prefix, key);
      var own, below, later := [Section(path, node.level)], Listing(node.children, path), Listing(forest[1..], prefix);
      SectionsOfBoth(own + below, later, key);
      SectionsOfBoth(own, below, key);
      assert PathsOfSections(own) == [path] && [path][1..] == [];
    }
  }

  lemma {:induction false} PlacedKeys(sections: seq<Section>, files: seq<string>, key: string)
    requires |files| == |sections|
    ensures CountPlaced(sections, files, [], WithKey(key)) == CountAddress(PathsOfSections(sections), key)
  {
    if sections != [] {
      PlacedKeys(sections[1..], files[1..], key);
      assert [] + sections[0].path == sections[0].path;
      assert PathsOfSections(sections)[1..] == PathsOfSections(sections[1..]);
    }
  }

  /** Parsed paths that pass the duplicate check place into a plain tree whose siblings differ as addresses. */
  lemma {:induction false} PlacedIsDistinct(sections: seq<Section>, files: seq<string>)
    requires |files| == |sections| && Headed(sections) && NoDuplicateAddress(sections)
    requires PlaceAll([], sections, files).Some?
    ensures var placed := PlaceAll([], sections, files).value; Plain(placed) && AddressTree(placed)
  {
    var placed := PlaceAll([], sections, files).value;
    PlaceAllPlain([], sections, files);
    forall key ensures CountAddress(PathsOfSections(Listing(placed, [])), key) <= 1 {
      assert CountAddress(PathsOfSections(sections), key) <= 1;
      ListingKeys(placed, [], key);
      PlacedKeys(sections, files, key);
      PlaceAllCounts([], sections, files, [], WithKey(key));
    }
    NoDuplicateMeansDistinct(placed, []);
  }

  // ----- files of the finished form

  /** Ids made for a rewrite: one for each section, one for each body holder and one for a new front root. */
  datatype Ids = Ids(files: seq<string>, mint: Path -> string, front: string)

  /** Generated ids are new to the document and different from each other. */
  ghost predicate New(forest: Forest, ids: Ids) {
    && (forall i, j | 0 <= i < j < |ids.files| :: ids.files[i] != ids.files[j])
    && (forall file <- ids.files :: Uses(forest, file) == 0)
    && (forall p, q | ids.mint(p) == ids.mint(q) :: p == q)
    && (forall p :: Uses(forest, ids.mint(p)) == 0 && ids.mint(p) !in ids.files && ids.mint(p) != ids.front)
    && Uses(forest, ids.front) == 0 && ids.front !in ids.files
  }

  function ParentUses(forest: Forest, file: string): nat
    decreases forest
  {
    if forest == [] then 0
    else (if forest[0].children != [] && forest[0].file == file then 1 else 0)
         + ParentUses(forest[0].children, file) + ParentUses(forest[1..], file)
  }

  function CountFile(entries: seq<Entry>, file: string): nat {
    if entries == [] then 0 else (if entries[0].file == file then 1 else 0) + CountFile(entries[1..], file)
  }

  lemma {:induction false} CountFileAppend(a: seq<Entry>, b: seq<Entry>, file: string)
    ensures CountFile(a + b, file) == CountFile(a, file) + CountFile(b, file)
  {
    if a == [] {
      assert a + b == b;
    } else {
      assert (a + b)[1..] == a[1..] + b;
      CountFileAppend(a[1..], b, file);
    }
  }

  lemma {:induction false} ExpectedFiles(forest: Forest, prefix: Path, existing: map<Path, string>, mint: Path -> string, file: string)
    requires forest != []
    ensures var node := forest[0];
      var path := PathOf(prefix, node);
      CountFile(Expected(forest, prefix, existing, mint), file)
        == (if FileFor(node, path, existing, mint) == file then 1 else 0)
         + CountFile(Expected(node.children, path, existing, mint), file)
         + CountFile(Expected(forest[1..], prefix, existing, mint), file)
  {
    var path := PathOf(prefix, forest[0]);
    var own := [Entry(path, FileFor(forest[0], path, existing, mint))];
    var below := Expected(forest[0].children, path, existing, mint);
    CountFileAppend(own + below, Expected(forest[1..], prefix, existing, mint), file);
    CountFileAppend(own, below, file);
    assert own[1..] == [];
  }

  /** In the finished form every section's entry has its file once, and a parent its own. */
  lemma {:induction false} FinishedUses(forest: Forest, prefix: Path, existing: map<Path, string>, mint: Path -> string, file: string)
    requires PlainDocument(forest)
    ensures Uses(Finished(forest, prefix, existing, mint), file)
         == ParentUses(forest, file) + CountFile(Expected(forest, prefix, existing, mint), file)
    decreases forest
  {
    if forest != [] {
      var node := forest[0];
      var path := PathOf(prefix, node);
      FinishedFirst(forest, prefix, existing, mint);
      FinishedUses(forest[1..], prefix, existing, mint, file);
      FinishedUses(node.children, path, existing, mint, file);
      ExpectedFiles(forest, prefix, existing, mint, file);
      var finished := Finished(forest, prefix, existing, mint);
      assert finished[1..] == Finished(forest[1..], prefix, existing, mint);
      if node.children != [] {
        var holder := Holder(FileFor(node, path, existing, mint));
        var rest := Finished(node.children, path, existing, mint);
        assert finished[0].children == [holder] + rest && [holder][1..] == [];
        UsesAppend([holder], rest, file);
      }
    }
  }

  lemma {:induction false} TwoEntries(entries: seq<Entry>, file: string) returns (i: nat, j: nat)
    requires CountFile(entries, file) >= 2
    ensures i < j < |entries| && entries[i].file == file && entries[j].file == file
  {
    if entries[0].file == file {
      i, j := 0, 1 + OneEntry(entries[1..], file);
    } else {
      var a, b := TwoEntries(entries[1..], file);
      i, j := a + 1, b + 1;
    }
  }

  function OneEntry(entries: seq<Entry>, file: string): (i: nat)
    requires CountFile(entries, file) >= 1
    ensures i < |entries| && entries[i].file == file
  {
    if entries[0].file == file then 0 else 1 + OneEntry(entries[1..], file)
  }

  /** Where the file of an entry comes from. */
  lemma {:induction false} EntrySource(forest: Forest, prefix: Path, existing: map<Path, string>, mint: Path -> string, i: nat)
    requires i < |Expected(forest, prefix, existing, mint)|
    ensures var e := Expected(forest, prefix, existing, mint)[i];
      if e.path in existing then e.file == existing[e.path] else e.file == mint(e.path) || Uses(forest, e.file) > 0
    decreases forest
  {
    var path := PathOf(prefix, forest[0]);
    var below := Expected(forest[0].children, path, existing, mint);
    if 0 < i <= |below| {
      EntrySource(forest[0].children, path, existing, mint, i - 1);
    } else if i > |below| {
      EntrySource(forest[1..], prefix, existing, mint, i - 1 - |below|);
    }
  }

  /** A file that is neither kept nor minted is where placing put it. */
  lemma {:induction false} PlacedFileStays(forest: Forest, prefix: Path, existing: map<Path, string>, mint: Path -> string, file: string)
    requires (forall p :: mint(p) != file) && (forall p <- existing :: existing[p] != file)
    ensures ParentUses(forest, file) + CountFile(Expected(forest, prefix, existing, mint), file) <= Uses(forest, file)
    decreases forest
  {
    if forest != [] {
      ExpectedFiles(forest, prefix, existing, mint, file);
      PlacedFileStays(forest[0].children, PathOf(prefix, forest[0]), existing, mint, file);
      PlacedFileStays(forest[1..], prefix, existing, mint, file);
    }
  }

  lemma {:induction false} ParentsAreUses(forest: Forest, file: string)
    ensures ParentUses(forest, file) <= Uses(forest, file)
    decreases forest
  {
    if forest != [] {
      ParentsAreUses(forest[0].children, file);
      ParentsAreUses(forest[1..], file);
    }
  }

  // ----- files kept from the replaced section

  /** The files by path of a listing of entries; a later entry at one path wins. */
  function ByPath(entries: seq<Entry>): map<Path, string> {
    if entries == [] then map[] else ByPath(entries[..|entries| - 1])[entries[|entries| - 1].path := entries[|entries| - 1].file]
  }

  lemma {:induction false} ByPathIsAnEntry(entries: seq<Entry>, path: Path) returns (i: nat)
    requires path in ByPath(entries)
    ensures i < |entries| && entries[i] == Entry(path, ByPath(entries)[path])
  {
    var last := |entries| - 1;
    if entries[last].path == path { return last; }
    i := ByPathIsAnEntry(entries[..last], path);
  }

  lemma {:induction false} CountTwo(entries: seq<Entry>, i: nat, j: nat)
    requires i < j < |entries| && entries[i].file == entries[j].file
    ensures CountFile(entries, entries[i].file) >= 2
  {
    var file := entries[i].file;
    assert entries == entries[..i] + entries[i..] && entries[i..] == [entries[i]] + entries[i + 1..];
    assert entries[i + 1..] == entries[i + 1..j] + entries[j..] && entries[j..] == [entries[j]] + entries[j + 1..];
    CountFileAppend(entries[..i], entries[i..], file);
    CountFileAppend([entries[i]], entries[i + 1..], file);
    CountFileAppend(entries[i + 1..j], entries[j..], file);
    CountFileAppend([entries[j]], entries[j + 1..], file);
    assert [entries[i]][1..] == [] && [entries[j]][1..] == [];
  }

  lemma {:induction false} CountOne(entries: seq<Entry>, i: nat)
    requires i < |entries|
    ensures CountFile(entries, entries[i].file) >= 1
  {
    if i > 0 { CountOne(entries[1..], i - 1); }
  }

  lemma {:induction false} ContentsFiles(forest: Forest, prefix: Path, file: string)
    ensures CountFile(Contents(forest, prefix), file) <= Uses(forest, file)
    decreases forest
  {
    if forest != [] {
      var path := PathOf(prefix, forest[0]);
      var own := if forest[0].children == [] then [Entry(path, forest[0].file)] else Contents(forest[0].children, path);
      ContentsFiles(forest[0].children, path, file);
      ContentsFiles(forest[1..], prefix, file);
      CountFileAppend(own, Contents(forest[1..], prefix), file);
      assert [Entry(path, forest[0].file)][1..] == [];
    }
  }

  /** The files kept by path are files of the replaced section, each for one path. */
  ghost predicate KeptFrom(existing: map<Path, string>, replaced: Node) {
    && (forall p <- existing :: OwnUses(replaced, existing[p]) > 0)
    && (forall p <- existing, q <- existing | existing[p] == existing[q] :: p == q)
  }

  lemma {:induction false} KeptFiles(replaced: Node, prefix: Path)
    requires forall file :: OwnUses(replaced, file) <= 1
    ensures KeptFrom(ByPath(Contents([replaced], prefix)), replaced)
  {
    var entries := Contents([replaced], prefix);
    var existing := ByPath(entries);
    assert [replaced][1..] == [];
    forall p <- existing ensures OwnUses(replaced, existing[p]) > 0 {
      var i := ByPathIsAnEntry(entries, p);
      CountOne(entries, i);
      ContentsFiles([replaced], prefix, existing[p]);
    }
    forall p <- existing, q <- existing | existing[p] == existing[q]
      ensures p == q
    {
      var i := ByPathIsAnEntry(entries, p);
      var j := ByPathIsAnEntry(entries, q);
      assert OwnUses(replaced, existing[p]) <= 1;
      ContentsFiles([replaced], prefix, existing[p]);
      if i != j { CountTwo(entries, if i < j then i else j, if i < j then j else i); }
    }
  }

  // ----- the replacement as a whole

  /** What the parser hands over: text before the first heading, where there is some, and the headings. */
  function Parsed(preamble: bool, headings: seq<(string, nat)>): seq<Section> {
    (if preamble then [Section([], 0)] else []) + Emitted([], headings)
  }

  predicate Named(headings: seq<(string, nat)>) {
    forall i | 0 <= i < |headings| :: headings[i].0 != ""
  }

  lemma {:induction false} EmittedIsHeaded(stack: seq<Section>, headings: seq<(string, nat)>)
    requires Named(headings) && ProperPaths(stack)
    ensures Headed(Emitted(stack, headings))
    decreases |headings|
  {
    if headings != [] {
      PoppedIsPrefix(stack, headings[0].1);
      var open := Popped(stack, headings[0].1);
      var section := Section((if open == [] then [] else open[|open| - 1].path) + [headings[0].0], headings[0].1);
      assert NoEmptySegment(section.path);
      EmittedIsHeaded(open + [section], headings[1..]);
    }
  }

  lemma {:induction false} FilesPlaced(sections: seq<Section>, files: seq<string>, prefix: Path, file: string)
    requires |files| == |sections|
    ensures CountPlaced(sections, files, prefix, WithFile(file)) == Occurs(files, file)
  {
    if sections != [] { FilesPlaced(sections[1..], files[1..], prefix, file); }
  }

  /** Everything a forest of placed sections is known to be. */
  ghost predicate IsPlaced(placed: Forest, preamble: bool, headings: seq<(string, nat)>, files: seq<string>)
    requires |files| == |Parsed(preamble, headings)|
  {
    && PlainDocument(placed) && AddressTree(placed) && FrontOnly(placed)
    && (!preamble ==> Plain(placed))
    && (forall file :: Uses(placed, file) == Occurs(files, file))
    && (forall prefix, path ::
          Count(placed, prefix, AtPath(path)) == CountPlaced(Parsed(preamble, headings), files, prefix, AtPath(path)))
  }

  lemma {:induction false} PlacedPlain(headings: seq<(string, nat)>, files: seq<string>)
    requires Named(headings) && |files| == |Emitted([], headings)| && NoDuplicateAddress(Emitted([], headings))
    ensures PlaceAll([], Emitted([], headings), files).Some?
    ensures IsPlaced(PlaceAll([], Emitted([], headings), files).value, false, headings, files)
  {
    var sections := Emitted([], headings);
    EmittedIsHeaded([], headings);
    ParsedDocumentAlwaysBuilds(headings, files);
    var placed := PlaceAll([], sections, files).value;
    PlacedIsDistinct(sections, files);
    assert Parsed(false, headings) == sections;
    forall i | 0 < i < |placed| ensures placed[i].heading != "" { assert placed[i] in placed; }
    forall file ensures Uses(placed, file) == Occurs(files, file) {
      UsesIsCount(placed, [], file);
      PlaceAllCounts([], sections, files, [], WithFile(file));
      FilesPlaced(sections, files, [], file);
    }
    forall prefix, path ensures Count(placed, prefix, AtPath(path)) == CountPlaced(sections, files, prefix, AtPath(path)) {
      PlaceAllCounts([], sections, files, prefix, AtPath(path));
    }
  }

  lemma {:induction false} FewerAddresses(first: Section, rest: seq<Section>)
    requires NoDuplicateAddress([first] + rest)
    ensures NoDuplicateAddress(rest)
  {
    forall key ensures CountAddress(PathsOfSections(rest), key) <= 1 {
      assert CountAddress(PathsOfSections([first] + rest), key) <= 1;
      SectionsOfBoth([first], rest, key);
    }
  }

  /** Headings the parser emits always place, and a duplicate-free list of them places into a tree with distinct siblings. */
  lemma {:induction false} ParsedIsPlaced(preamble: bool, headings: seq<(string, nat)>, files: seq<string>)
    requires Named(headings) && |files| == |Parsed(preamble, headings)| && NoDuplicateAddress(Parsed(preamble, headings))
    ensures PlaceAll([], Parsed(preamble, headings), files).Some?
    ensures IsPlaced(PlaceAll([], Parsed(preamble, headings), files).value, preamble, headings, files)
  {
    var sections := Parsed(preamble, headings);
    if preamble {
      var rest := Emitted([], headings);
      assert sections[1..] == rest && sections[0] == Section([], 0);
      FewerAddresses(Section([], 0), rest);
      PlacedPlain(headings, files[1..]);
      EmittedIsHeaded([], headings);
      var holder := Node("", 0, files[0], []);
      var behind := PlaceAll([], rest, files[1..]).value;
      assert [] + [holder] == [holder];
      PlacedBehindHolder(holder, [], rest, files[1..]);
      assert [holder] + [] == [holder];
      HolderBeforePlain(holder, behind, headings, files);
    } else {
      assert sections == Emitted([], headings);
      PlacedPlain(headings, files);
    }
  }

  lemma {:induction false} HolderBeforePlain(holder: Node, behind: Forest, headings: seq<(string, nat)>, files: seq<string>)
    requires |files| == |Parsed(true, headings)| && holder == Node("", 0, files[0], [])
    requires IsPlaced(behind, false, headings, files[1..])
    ensures IsPlaced([holder] + behind, true, headings, files)
  {
    var placed := [holder] + behind;
    var sections := Parsed(true, headings);
    assert sections[1..] == Parsed(false, headings) && placed[1..] == behind;
    forall j | 0 < j < |placed| ensures placed[j].heading != "" && !HeadingsEqual("", placed[j].heading) {
      assert placed[j] == behind[j - 1] && behind[j - 1] in behind;
      EmptyDiffers(placed[j].heading);
    }
    DistinctInFront(placed);
    forall file ensures Uses(placed, file) == Occurs(files, file) {
      assert Uses(behind, file) == Occurs(files[1..], file);
    }
    forall prefix: Path, path: Path
      ensures Count(placed, prefix, AtPath(path)) == CountPlaced(sections, files, prefix, AtPath(path))
    {
      assert prefix + [] == prefix;
      assert Count(behind, prefix, AtPath(path)) == CountPlaced(sections[1..], files[1..], prefix, AtPath(path));
    }
  }

  lemma {:induction false} OccursOnce(files: seq<string>, file: string)
    requires forall i, j | 0 <= i < j < |files| :: files[i] != files[j]
    ensures Occurs(files, file) == if file in files then 1 else 0
  {
    if files != [] {
      OccursOnce(files[1..], file);
      assert files == [files[0]] + files[1..];
    }
  }

  /** What the finished form of a placed forest is built from. */
  ghost predicate Prepared(forest: Forest, replaced: Node, placed: Forest, existing: map<Path, string>, ids: Ids) {
    && PlainDocument(placed) && HeadingTree(placed) && KeptFrom(existing, replaced) && New(forest, ids)
    && (forall file :: Uses(placed, file) == Occurs(ids.files, file))
    && (forall file :: OwnUses(replaced, file) <= Uses(forest, file))
  }

  /** A file of the document that comes up again was kept for one path, and comes up once. */
  lemma {:induction false} OldFileOnce(forest: Forest, replaced: Node, placed: Forest, prefix: Path, existing: map<Path, string>,
                                       ids: Ids, file: string)
    requires Prepared(forest, replaced, placed, existing, ids) && Uses(forest, file) > 0
    ensures var uses := Uses(Finished(placed, prefix, existing, ids.mint), file);
      uses <= 1 && (uses == 1 ==> OwnUses(replaced, file) > 0)
  {
    var entries := Expected(placed, prefix, existing, ids.mint);
    FinishedUses(placed, prefix, existing, ids.mint, file);
    ParentsAreUses(placed, file);
    OccursOnce(ids.files, file);
    forall i | 0 <= i < |entries| && entries[i].file == file
      ensures entries[i].path in existing && existing[entries[i].path] == file
    {
      EntrySource(placed, prefix, existing, ids.mint, i);
    }
    if CountFile(entries, file) >= 2 {
      var i, j := TwoEntries(entries, file);
      DistinctEntries(placed, prefix, existing, ids.mint, i, j);
    }
    if CountFile(entries, file) == 1 {
      var i := OneEntry(entries, file);
      assert entries[i].path in existing;
    }
  }

  /** A new file comes up once: where placing put it, or for the one path it was minted for. */
  lemma {:induction false} NewFileOnce(forest: Forest, replaced: Node, placed: Forest, prefix: Path, existing: map<Path, string>,
                                       ids: Ids, file: string)
    requires Prepared(forest, replaced, placed, existing, ids) && Uses(forest, file) == 0
    ensures Uses(Finished(placed, prefix, existing, ids.mint), file) <= 1
  {
    var entries := Expected(placed, prefix, existing, ids.mint);
    FinishedUses(placed, prefix, existing, ids.mint, file);
    OccursOnce(ids.files, file);
    forall p <- existing ensures existing[p] != file { assert OwnUses(replaced, existing[p]) <= Uses(forest, existing[p]); }
    if p :| ids.mint(p) == file {
      ParentsAreUses(placed, file);
      forall i | 0 <= i < |entries| && entries[i].file == file ensures ids.mint(entries[i].path) == file {
        EntrySource(placed, prefix, existing, ids.mint, i);
      }
      if CountFile(entries, file) >= 2 {
        var i, j := TwoEntries(entries, file);
        DistinctEntries(placed, prefix, existing, ids.mint, i, j);
      }
    } else {
      PlacedFileStays(placed, prefix, existing, ids.mint, file);
    }
  }

  lemma {:induction false} FinishedIsFresh(forest: Forest, replaced: Node, placed: Forest, prefix: Path, existing: map<Path, string>,
                                           ids: Ids)
    requires Prepared(forest, replaced, placed, existing, ids)
    ensures FreshOrReused(forest, replaced, Finished(placed, prefix, existing, ids.mint))
  {
    forall file
      ensures var uses := Uses(Finished(placed, prefix, existing, ids.mint), file);
        uses <= 1 && (uses == 1 && Uses(forest, file) > 0 ==> OwnUses(replaced, file) > 0)
    {
      if Uses(forest, file) > 0 {
        OldFileOnce(forest, replaced, placed, prefix, existing, ids, file);
      } else {
        NewFileOnce(forest, replaced, placed, prefix, existing, ids, file);
      }
    }
  }

  // ----- bodies

  function ResultingPaths(sections: seq<Section>, prefix: Path): set<Path> {
    set i | 0 <= i < |sections| :: prefix + sections[i].path
  }

  lemma {:induction false} CountsAPath(forest: Forest, prefix: Path, existing: map<Path, string>, mint: Path -> string, path: Path)
    ensures Count(forest, prefix, AtPath(path)) > 0 <==> path in PathsOf(Expected(forest, prefix, existing, mint))
    decreases forest
  {
    if forest != [] {
      var own := PathOf(prefix, forest[0]);
      var first := Entry(own, FileFor(forest[0], own, existing, mint));
      var below, later := Expected(forest[0].children, own, existing, mint), Expected(forest[1..], prefix, existing, mint);
      CountsAPath(forest[0].children, own, existing, mint, path);
      CountsAPath(forest[1..], prefix, existing, mint, path);
      assert forall e :: e in [first] + below + later <==> e == first || e in below || e in later;
      assert first in [first] + below + later;
    }
  }

  lemma {:induction false} CountsAPlacedPath(sections: seq<Section>, files: seq<string>, prefix: Path, path: Path)
    requires |files| == |sections|
    ensures CountPlaced(sections, files, prefix, AtPath(path)) > 0 <==> path in ResultingPaths(sections, prefix)
  {
    if sections != [] {
      CountsAPlacedPath(sections[1..], files[1..], prefix, path);
      if path in ResultingPaths(sections[1..], prefix) {
        var i :| 0 <= i < |sections[1..]| && prefix + sections[1..][i].path == path;
        assert sections[i + 1].path == sections[1..][i].path;
      }
      if path in ResultingPaths(sections, prefix) {
        var i :| 0 <= i < |sections| && prefix + sections[i].path == path;
        if i > 0 { assert sections[1..][i - 1].path == sections[i].path; }
      }
    }
  }

  /** The content entries of the replacement are at the resulting paths of the parsed sections, each once. */
  lemma {:induction false} EntriesAreThePaths(placed: Forest, preamble: bool, headings: seq<(string, nat)>, prefix: Path,
                                              existing: map<Path, string>, ids: Ids)
    requires |ids.files| == |Parsed(preamble, headings)| && IsPlaced(placed, preamble, headings, ids.files)
    ensures var entries := Contents(Finished(placed, prefix, existing, ids.mint), prefix);
      && PathsDistinct(entries)
      && PathsOf(entries) == ResultingPaths(Parsed(preamble, headings), prefix)
      && forall entry <- entries :: entry.path in existing ==> entry.file == existing[entry.path]
  {
    var sections := Parsed(preamble, headings);
    AddressTreeIsHeadingTree(placed);
    EveryBodyHasItsEntry(placed, prefix, existing, ids.mint);
    var entries := Expected(placed, prefix, existing, ids.mint);
    forall path ensures path in PathsOf(entries) <==> path in ResultingPaths(sections, prefix) {
      CountsAPath(placed, prefix, existing, ids.mint, path);
      CountsAPlacedPath(sections, ids.files, prefix, path);
      assert Count(placed, prefix, AtPath(path)) == CountPlaced(sections, ids.files, prefix, AtPath(path));
    }
  }
}
