/** The duplicate check in front of a subtree rewrite, and why a forest that passes it is addressable once finished. */
module RewriteLaw {
  import opened Basics
  import opened SectionForest
  import opened HeadingAddresses
  import opened ReplacementRoots
  import opened RewriteBodies

  function PathsOfSections(sections: seq<Section>): seq<Path> {
    seq(|sections|, i requires 0 <= i < |sections| => sections[i].path)
  }

  /** No address is taken twice: what the check in front of a rewrite demands of the parsed paths. */
  ghost predicate NoDuplicateAddress(sections: seq<Section>) {
    forall key :: CountAddress(PathsOfSections(sections), key) <= 1
  }

  /** Sibling headings differ as addresses at every depth. */
  predicate AddressTree(forest: Forest)
    decreases forest
  {
    DistinctHeadings(forest) && forall node <- forest :: AddressTree(node.children)
  }

  lemma {:induction false} SectionsOfBoth(a: seq<Section>, b: seq<Section>, key: string)
    ensures CountAddress(PathsOfSections(a + b), key)
         == CountAddress(PathsOfSections(a), key) + CountAddress(PathsOfSections(b), key)
  {
    assert PathsOfSections(a + b) == PathsOfSections(a) + PathsOfSections(b);
    CountOfBoth(PathsOfSections(a), PathsOfSections(b), key);
  }

  // A root's own section is one of the listing.
  lemma {:induction false} RootIsCounted(forest: Forest, prefix: Path, i: nat)
    requires i < |forest|
    ensures CountAddress(PathsOfSections(Listing(forest, prefix)), HeadingAddressKey(prefix + [forest[i].heading])) >= 1
    decreases forest
  {
    var path := prefix + [forest[0].heading];
    var own, below, later := [Section(path, forest[0].level)], Listing(forest[0].children, path), Listing(forest[1..], prefix);
    var key := HeadingAddressKey(prefix + [forest[i].heading]);
    SectionsOfBoth(own + below, later, key);
    SectionsOfBoth(own, below, key);
    assert PathsOfSections(own) == [path] && [path][1..] == [];
    if i > 0 { RootIsCounted(forest[1..], prefix, i - 1); }
  }

  lemma {:induction false} SameAddressLonger(prefix: Path, a: string, b: string)
    requires HeadingsEqual(a, b)
    ensures HeadingAddressKey(prefix + [a]) == HeadingAddressKey(prefix + [b])
  {
    KeyIsTheAddress(prefix + [a], prefix + [b]);
  }

  /** Parsed paths without a duplicate address build a forest whose siblings differ as addresses. */
  lemma {:induction false} NoDuplicateMeansDistinct(forest: Forest, prefix: Path)
    requires NoDuplicateAddress(Listing(forest, prefix))
    ensures AddressTree(forest)
    decreases forest
  {
    if forest != [] {
      var path := prefix + [forest[0].heading];
      var own, below, later := [Section(path, forest[0].level)], Listing(forest[0].children, path), Listing(forest[1..], prefix);
      forall key
        ensures CountAddress(PathsOfSections(below), key) <= 1 && CountAddress(PathsOfSections(later), key) <= 1
      {
        assert CountAddress(PathsOfSections(Listing(forest, prefix)), key) <= 1;
        SectionsOfBoth(own + below, later, key);
        SectionsOfBoth(own, below, key);
      }
      NoDuplicateMeansDistinct(forest[0].children, path);
      NoDuplicateMeansDistinct(forest[1..], prefix);
      forall j | 0 < j < |forest| ensures !HeadingsEqual(forest[0].heading, forest[j].heading) {
        if HeadingsEqual(forest[0].heading, forest[j].heading) { FirstAgain(forest, prefix, j); }
      }
      DistinctInFront(forest);
    }
  }

  // Two siblings at one address would be counted twice.
  lemma {:induction false} FirstAgain(forest: Forest, prefix: Path, j: nat)
    requires 0 < j < |forest| && HeadingsEqual(forest[0].heading, forest[j].heading)
    ensures !NoDuplicateAddress(Listing(forest, prefix))
  {
    var path := prefix + [forest[0].heading];
    var own, below, later := [Section(path, forest[0].level)], Listing(forest[0].children, path), Listing(forest[1..], prefix);
    var key := HeadingAddressKey(path);
    SectionsOfBoth(own + below, later, key);
    SectionsOfBoth(own, below, key);
    assert PathsOfSections(own) == [path] && [path][1..] == [];
    SameAddressLonger(prefix, forest[0].heading, forest[j].heading);
    RootIsCounted(forest[1..], prefix, j - 1);
    assert CountAddress(PathsOfSections(Listing(forest, prefix)), key) >= 2;
  }

  lemma {:induction false} DistinctInFront(forest: Forest)
    requires forest != [] && AddressTree(forest[0].children) && AddressTree(forest[1..])
    requires forall j :: 0 < j < |forest| ==> !HeadingsEqual(forest[0].heading, forest[j].heading)
    ensures AddressTree(forest)
  {
    forall i, j | 0 <= i < j < |forest| ensures !HeadingsEqual(forest[i].heading, forest[j].heading) {
      if i > 0 { assert forest[1..][i - 1] == forest[i] && forest[1..][j - 1] == forest[j]; }
    }
    forall node | node in forest ensures AddressTree(node.children) {
      if node != forest[0] { assert node in forest[1..]; }
    }
  }

  // Only the headings of the roots matter for their own list.
  lemma {:induction false} FinishedHeadings(forest: Forest, prefix: Path, existing: map<Path, string>, mint: Path -> string)
    requires PlainDocument(forest)
    ensures var finished := Finished(forest, prefix, existing, mint);
      |finished| == |forest|
      && forall i :: 0 <= i < |forest| ==> finished[i].heading == forest[i].heading && finished[i].level == forest[i].level
    decreases forest
  {
    if forest != [] {
      FinishedFirst(forest, prefix, existing, mint);
      FinishedHeadings(forest[1..], prefix, existing, mint);
    }
  }

  /** A parsed forest that passes the duplicate check is addressable once ids are reused and body holders added: every
    * parent has one body holder, only holders are headless and siblings are distinct. */
  lemma {:induction false} FinishedIsAddressable(forest: Forest, prefix: Path, existing: map<Path, string>, mint: Path -> string)
    requires PlainDocument(forest) && AddressTree(forest)
    ensures Addressable(Finished(forest, prefix, existing, mint))
    decreases forest
  {
    if forest != [] {
      var node := forest[0];
      var path := PathOf(prefix, node);
      var finished := Finished(forest, prefix, existing, mint);
      FinishedFirst(forest, prefix, existing, mint);
      FinishedHeadings(forest, prefix, existing, mint);
      assert finished[1..] == Finished(forest[1..], prefix, existing, mint);
      TailIsTree(forest);
      FinishedIsAddressable(forest[1..], prefix, existing, mint);
      if node.children != [] {
        PlainParts(forest);
        FinishedIsAddressable(node.children, path, existing, mint);
        HolderInFrontOfPlain(node.children, path, existing, mint, FileFor(node, path, existing, mint));
      }
      forall n | n in finished
        ensures (n.heading == "" ==> n.level == 0) && ChildListOk(n.children) && Addressable(n.children)
      {
        if n == finished[0] { FirstRootOk(forest, prefix, existing, mint); } else { assert n in finished[1..]; }
      }
    }
  }

  lemma {:induction false} TailIsTree(forest: Forest)
    requires forest != [] && AddressTree(forest)
    ensures AddressTree(forest[1..]) && AddressTree(forest[0].children)
  {
    assert forest[0] in forest;
  }

  lemma {:induction false} FirstRootOk(forest: Forest, prefix: Path, existing: map<Path, string>, mint: Path -> string)
    requires PlainDocument(forest) && forest != []
    requires var node := forest[0];
      var path := PathOf(prefix, node);
      node.children == [] || Addressable([Holder(FileFor(node, path, existing, mint))] + Finished(node.children, path, existing, mint))
    ensures var first := Finished(forest, prefix, existing, mint);
      first != [] && (first[0].heading == "" ==> first[0].level == 0) && ChildListOk(first[0].children) && Addressable(first[0].children)
  {
    var node := forest[0];
    var path := PathOf(prefix, node);
    FinishedFirst(forest, prefix, existing, mint);
    assert node in forest;
    if node.children != [] {
      var held := [Holder(FileFor(node, path, existing, mint))] + Finished(node.children, path, existing, mint);
      assert IsBodyHolder(held[0]) && held[0] in held;
    }
  }

  lemma {:induction false} HolderInFrontOfPlain(children: Forest, path: Path, existing: map<Path, string>, mint: Path -> string,
                                                file: string)
    requires Plain(children) && Addressable(Finished(children, path, existing, mint))
    ensures Addressable([Holder(file)] + Finished(children, path, existing, mint))
  {
    var finished := Finished(children, path, existing, mint);
    FinishedHeadings(children, path, existing, mint);
    var held := [Holder(file)] + finished;
    forall j | 0 < j < |held| ensures !HeadingsEqual("", held[j].heading) {
      assert held[j] == finished[j - 1] && children[j - 1] in children;
      EmptyDiffers(held[j].heading);
    }
    forall n | n in held ensures (n.heading == "" ==> n.level == 0) && ChildListOk(n.children) && Addressable(n.children) {
      if n != held[0] { assert n in finished; }
    }
  }

  /** Headings that differ as addresses differ as strings, so what is proved of heading trees holds. */
  lemma {:induction false} AddressTreeIsHeadingTree(forest: Forest)
    requires AddressTree(forest)
    ensures HeadingTree(forest)
    decreases forest
  {
    forall i, j | 0 <= i < j < |forest| ensures forest[i].heading != forest[j].heading {
      assert !HeadingsEqual(forest[i].heading, forest[j].heading);
    }
    forall node | node in forest ensures HeadingTree(node.children) { AddressTreeIsHeadingTree(node.children); }
  }
}
