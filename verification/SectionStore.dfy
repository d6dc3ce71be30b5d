/** One content root as it runs: a loaded forest, its files, and the operations that change both step by step. */
module SectionStore {
  import opened Basics
  import opened SectionForest
  import opened SectionFiles
  import opened SectionBodies
  import opened SectionMoves
  import opened MovedSections
  import opened SectionRenames
  import opened StoredRuns

  // Listings written for the children of the first `k` nodes; the rest still as it was.
  ghost predicate WrittenSoFar(d: Disk, at: Chain, nodes: Forest, k: nat, d': Disk) {
    forall c :: SoFarAt(d, at, nodes, k, d', c)
  }

  ghost predicate SoFarAt(d: Disk, at: Chain, nodes: Forest, k: nat, d': Disk, c: Chain) {
    if c == at then c in d' && d'[c] == Listing(Rows(nodes))
    else if at <= c && FindFile(nodes, c[|at|]) < k && IsListed(nodes, c[|at|..]) then
      c in d' && d'[c] == Listing(RowsAt(nodes, c[|at|..]).GetOr([]))
    else if c in d then c in d' && d'[c] == d[c]
    else c in d' ==> d'[c] == Body("")
  }

  lemma {:induction false} OneMoreChild(d: Disk, at: Chain, nodes: Forest, k: nat, d1: Disk, d2: Disk)
    requires DistinctFiles(nodes) && k < |nodes| && WrittenSoFar(d, at, nodes, k, d1)
    requires if nodes[k].children != [] then Written(d1, at + [nodes[k].file], nodes[k].children, d2) else d2 == d1
    ensures WrittenSoFar(d, at, nodes, k + 1, d2)
  {
    FileIsAt(nodes, k);
    var below := at + [nodes[k].file];
    var next := k + 1;
    forall c ensures SoFarAt(d, at, nodes, next, d2, c) {
      assert SoFarAt(d, at, nodes, k, d1, c);
      if nodes[k].children != [] { assert WrittenAt(d1, below, nodes[k].children, d2, c); }
      if at <= c && c != at && FindFile(nodes, c[|at|]) == k {
        BelowChild(at, nodes, k, c);
      } else {
        assert below[|at|] == nodes[k].file;
        assert !(below <= c);
      }
    }
  }

  // A chain through the k-th node, read from the node's own list.
  lemma {:induction false} BelowChild(at: Chain, nodes: Forest, k: nat, c: Chain)
    requires at <= c && c != at && k < |nodes| && FindFile(nodes, c[|at|]) == k
    ensures var below := at + [nodes[k].file];
      && below <= c && RowsAt(nodes, c[|at|..]) == RowsAt(nodes[k].children, c[|below|..])
      && (IsListed(nodes, c[|at|..]) <==>
            nodes[k].children != [] && (c == below || IsListed(nodes[k].children, c[|below|..])))
  {
    var below := at + [nodes[k].file];
    assert c[|at|..][0] == nodes[k].file && c[|at|..][1..] == c[|below|..];
    assert nodes[k].children != [] ==> |Rows(nodes[k].children)| > 0;
    if nodes[k].children == [] && c != below {
      assert ListAt([], c[|below|..]) == None;
    }
  }

  /** A body holder among the sections below `at`, by the files that lead to it; `sub` says whether `nodes` hang below a heading. */
  predicate HolderBelow(nodes: Forest, r: Chain, sub: bool)
    decreases |r|
  {
    r != [] &&
    var i := FindFile(nodes, r[0]);
    i < |nodes| && if |r| == 1 then sub && IsBodyHolder(nodes[i]) else HolderBelow(nodes[i].children, r[1..], true)
  }

  /** Of the files that were not there exactly the holders' have been made, for the lists below the first `k` nodes. */
  ghost predicate HoldersMade(d: Disk, at: Chain, nodes: Forest, sub: bool, k: nat, d': Disk) {
    forall c | c !in d && !(at <= c && (c == at || IsListed(nodes, c[|at|..]))) ::
      c in d' <==> at <= c && HolderBelow(nodes, c[|at|..], sub) && (|c| == |at| + 1 || FindFile(nodes, c[|at|]) < k)
  }

  lemma {:induction false} OneMoreMade(d: Disk, at: Chain, nodes: Forest, sub: bool, k: nat, d1: Disk, d2: Disk)
    requires DistinctFiles(nodes) && k < |nodes| && HoldersMade(d, at, nodes, sub, k, d1) && WrittenSoFar(d, at, nodes, k, d1)
    requires if nodes[k].children != [] then
               var below := at + [nodes[k].file];
               Written(d1, below, nodes[k].children, d2) && HoldersMade(d1, below, nodes[k].children, true, |nodes[k].children|, d2)
             else d2 == d1
    ensures HoldersMade(d, at, nodes, sub, k + 1, d2)
  {
    FileIsAt(nodes, k);
    var below := at + [nodes[k].file];
    forall c | c !in d && !(at <= c && (c == at || IsListed(nodes, c[|at|..])))
      ensures c in d2 <==> at <= c && HolderBelow(nodes, c[|at|..], sub) && (|c| == |at| + 1 || FindFile(nodes, c[|at|]) < k + 1)
    {
      if at <= c && FindFile(nodes, c[|at|]) == k {
        BelowChild(at, nodes, k, c);
        assert c[|at|..][0] == c[|at|] && c[|at|..][1..] == c[|below|..];
        if nodes[k].children == [] { assert !HolderBelow([], c[|below|..], true); } else { MadeBelow(d, at, nodes, sub, k, d1, d2, c); }
      } else {
        assert !(below <= c) by { assert below[|at|] == nodes[k].file; }
        if nodes[k].children != [] { assert WrittenAt(d1, below, nodes[k].children, d2, c); }
      }
    }
  }

  predicate HolderAmong(nodes: Forest, at: Chain, c: Chain) {
    exists n <- nodes :: IsBodyHolder(n) && c == at + [n.file]
  }

  lemma {:induction false} HolderAmongMore(nodes: Forest, at: Chain, i: nat, c: Chain)
    requires i < |nodes|
    ensures HolderAmong(nodes[..i + 1], at, c) <==> HolderAmong(nodes[..i], at, c) || (IsBodyHolder(nodes[i]) && c == at + [nodes[i].file])
  {
    assert nodes[..i + 1] == nodes[..i] + [nodes[i]];
    assert forall n :: n in nodes[..i + 1] <==> n in nodes[..i] || n == nodes[i];
  }

  /** Of the files of one list only those of its holders are new. */
  ghost predicate HoldersOnly(d: Disk, at: Chain, nodes: Forest, d': Disk) {
    forall c | c !in d :: c in d' <==> HolderAmong(nodes, at, c)
  }

  lemma {:induction false} TopHoldersMade(d: Disk, listed: Disk, at: Chain, nodes: Forest, sub: bool, d': Disk)
    requires DistinctFiles(nodes) && listed == d[at := Listing(Rows(nodes))]
    requires if sub then HoldersOnly(listed, at, nodes, d') else d' == listed
    ensures HoldersMade(d, at, nodes, sub, 0, d')
  {
    forall c | c !in d && !(at <= c && (c == at || IsListed(nodes, c[|at|..])))
      ensures c in d' <==> at <= c && HolderBelow(nodes, c[|at|..], sub) && |c| == |at| + 1
    {
      assert at <= at;
      assert c !in listed;
      if sub && HolderAmong(nodes, at, c) {
        var n :| n in nodes && IsBodyHolder(n) && c == at + [n.file];
        var j :| 0 <= j < |nodes| && nodes[j] == n;
        FileIsAt(nodes, j);
        assert c[|at|..] == [n.file];
      }
      if at <= c && HolderBelow(nodes, c[|at|..], sub) && |c| == |at| + 1 {
        var j := FindFile(nodes, c[|at|..][0]);
        assert nodes[j] in nodes && c == at + [nodes[j].file];
      }
    }
  }

  lemma {:induction false} StartOfTree(d: Disk, listed: Disk, at: Chain, nodes: Forest, d': Disk)
    requires listed == d[at := Listing(Rows(nodes))]
    requires forall c :: if c in listed then c in d' && d'[c] == listed[c] else c in d' ==> d'[c] == Body("") && c != at
    ensures WrittenSoFar(d, at, nodes, 0, d')
  {
  }

  // A file below the k-th node's list.
  lemma {:induction false} MadeBelow(d: Disk, at: Chain, nodes: Forest, sub: bool, k: nat, d1: Disk, d2: Disk, c: Chain)
    requires DistinctFiles(nodes) && k < |nodes| && nodes[k].children != [] && HoldersMade(d, at, nodes, sub, k, d1)
    requires HoldersMade(d1, at + [nodes[k].file], nodes[k].children, true, |nodes[k].children|, d2)
    requires at <= c && c != at && FindFile(nodes, c[|at|]) == k && c !in d && !IsListed(nodes, c[|at|..])
    ensures c in d2 <==> HolderBelow(nodes, c[|at|..], sub)
  {
    var below := at + [nodes[k].file];
    BelowChild(at, nodes, k, c);
    assert c[|at|..][0] == c[|at|] && c[|at|..][1..] == c[|below|..];
    assert c != below && |c| > |at| + 1;
    assert c !in d1;
    if HolderBelow(nodes[k].children, c[|below|..], true) { assert c[|below|..][0] == c[|below|]; }
  }

  class ContentRoot {
    var forest: Forest
    var disk: Disk

    /** Empty files for the holders of one list that have none. */
    method WriteHolders(nodes: Forest, at: Chain)
      modifies this`disk
      ensures HoldersOnly(old(disk), at, nodes, disk)
      ensures forall c :: if c in old(disk) then c in disk && disk[c] == old(disk)[c] else c in disk ==> disk[c] == Body("") && c != at
    {
      for i := 0 to |nodes|
        invariant HoldersOnly(old(disk), at, nodes[..i], disk)
        invariant forall c :: if c in old(disk) then c in disk && disk[c] == old(disk)[c] else c in disk ==> disk[c] == Body("") && c != at
      {
        forall c { HolderAmongMore(nodes, at, i, c); }
        var body := at + [nodes[i].file];
        assert |body| > |at|;
        if IsBodyHolder(nodes[i]) && body !in disk { disk := disk[body := Body("")]; }
      }
      assert nodes[..|nodes|] == nodes;
    }

    /** Writes the listing of `nodes` and of everything below; a body holder below a heading gets an empty file when it
      * has none, and no other file is made. */
    method WriteTree(nodes: Forest, at: Chain, isSubSkeleton: bool)
      requires DistinctFiles(nodes)
      modifies this`disk
      ensures Written(old(disk), at, nodes, disk)
      ensures HoldersMade(old(disk), at, nodes, isSubSkeleton, |nodes|, disk)
      decreases nodes
    {
      ghost var was := disk;
      disk := disk[at := Listing(Rows(nodes))];
      ghost var listed := disk;
      if isSubSkeleton { WriteHolders(nodes, at); }
      TopHoldersMade(was, listed, at, nodes, isSubSkeleton, disk);
      StartOfTree(was, listed, at, nodes, disk);
      for i := 0 to |nodes|
        invariant WrittenSoFar(was, at, nodes, i, disk)
        invariant HoldersMade(was, at, nodes, isSubSkeleton, i, disk)
      {
        ghost var before := disk;
        if nodes[i].children != [] {
          ChildrenDistinct(nodes, i);
          WriteTree(nodes[i].children, at + [nodes[i].file], true);
        }
        OneMoreChild(was, at, nodes, i, before, disk);
        OneMoreMade(was, at, nodes, isSubSkeleton, i, before, disk);
      }
      forall c ensures WrittenAt(was, at, nodes, disk, c) { WholeTree(was, at, nodes, disk, c); }
    }

    /** The listings of the whole forest. */
    method PersistSkeletonTree()
      requires DistinctFiles(forest)
      modifies this`disk
      ensures Written(old(disk), [], forest, disk)
    {
      WriteTree(forest, [], false);
    }

    method CollectBodies(base: Chain, es: seq<Entry>) returns (bodies: map<Path, string>)
      ensures bodies == PreBodies(disk, base, es)
    {
      bodies := map[];
      for i := 0 to |es|
        invariant bodies == PreBodies(disk, base, es[..i])
      {
        assert es[..i + 1][..i] == es[..i];
        bodies := bodies[es[i].path := TextAt(disk, base + es[i].chain)];
      }
      assert es[..|es|] == es;
    }

    method WriteBodies(base: Chain, es: seq<Entry>, bodies: map<Path, string>)
      modifies this`disk
      ensures disk == WithBodies(old(disk), base, es, bodies)
    {
      for i := 0 to |es|
        invariant disk == WithBodies(old(disk), base, es[..i], bodies)
      {
        assert es[..i + 1][..i] == es[..i];
        if es[i].path in bodies { disk := disk[base + es[i].chain := Body(bodies[es[i].path])]; }
      }
      assert es[..|es|] == es;
    }

    /** `rm` of a section's file, and of its directory when it has children. */
    method RemoveEntry(at: Chain, isSubSkeleton: bool)
      modifies this`disk
      ensures disk == Removed(old(disk), at, isSubSkeleton)
    {
      disk := Removed(disk, at, isSubSkeleton);
    }

    /** What a move looks up before it changes anything. */
    method LookUpMove(path: Path, newParent: Path, level: nat, holderFile: string) returns (found: Option<Place>, failure: Failure)
      requires Lawful(forest) && path != [] && Leaf(path) != "" && Uses(forest, holderFile) == 0
      ensures found.None? ==> Move(forest, path, newParent, level, holderFile) == Err(failure)
      ensures found.Some? ==>
        && Moves(forest, path, newParent, level, holderFile, found.value) && found.value.index < |found.value.siblings|
        && Move(forest, path, newParent, level, holderFile) == Ok(MovedForest(found.value, newParent, level, holderFile))
    {
      var located := Locate(forest, path);
      if located.None? { return None, Stale; }
      var (siblings, index) := located.value;
      var node := siblings[index];
      var destination := SiblingsAt(forest, newParent);
      if destination.None? { return None, Stale; }
      if Collides(destination.value, node.file, node.heading) { return None, DuplicateSibling; }
      LocatedIn(forest, path);
      var without := WithSiblings(forest, Parent(path), RemoveAt(siblings, index));
      var target := SiblingsAt(without, newParent);
      if target.None? { return None, Stale; }
      return Some(Place(siblings, index, FilesAlong(forest, Parent(path)), without, target.value, FilesAlong(without, newParent))), Stale;
    }

    /** Collect, persist, remove, write back. */
    method CarryOutMove(path: Path, newParent: Path, level: nat, holderFile: string, p: Place)
      requires Lawful(forest) && HoldersAreLeaves(forest) && Stored(disk, forest)
      requires Moves(forest, path, newParent, level, holderFile, p) && p.index < |p.siblings|
      requires Move(forest, path, newParent, level, holderFile) == Ok(MovedForest(p, newParent, level, holderFile))
      modifies this
      ensures Lawful(forest) && forest == MovedForest(p, newParent, level, holderFile)
      ensures Conserved(old(forest), old(disk), p, newParent, level, holderFile, disk)
      ensures Stored(disk, forest) <==> p.siblings[p.index].children == [] || p.from != p.to
    {
      MoveKeepsLaw(forest, path, newParent, level, holderFile);
      var node := p.siblings[p.index];
      var es := LeafEntries([node], [], []);
      var bodies := CollectBodies(p.from, es);
      var minted := Minted(p, newParent, level);
      var destinationBody := TextAt(disk, p.to);
      ghost var before, files := forest, disk;
      forest := MovedForest(p, newParent, level, holderFile);
      PersistSkeletonTree();
      ghost var w := disk;
      RemoveEntry(p.from + [node.file], node.children != []);
      if minted { disk := disk[p.to + [holderFile] := Body(destinationBody)]; }
      WriteBodies(p.to, es, bodies);

      assert Steps(files, p, newParent, level, holderFile, forest, w, disk);
      MoveConservesBodies(before, path, newParent, level, holderFile, p, files, w, disk);
      MoveIsStoredIff(before, path, newParent, level, holderFile, p, files, w, disk);
    }

    /** Conserves every body; leaves the files those of the moved forest exactly when the section has no children or
      * changes its list, and holders without sections unless asked to put one below them. A refused move changes
      * nothing. */
    method MoveSubtree(path: Path, newParent: Path, level: nat, holderFile: string)
      returns (failure: Option<Failure>, ghost p: Place)
      requires Lawful(forest) && HoldersAreLeaves(forest) && Stored(disk, forest)
      requires path != [] && Leaf(path) != "" && Uses(forest, holderFile) == 0
      modifies this
      ensures Lawful(forest)
      ensures match Move(old(forest), path, newParent, level, holderFile)
        case Err(why) => failure == Some(why) && forest == old(forest) && disk == old(disk)
        case Ok(moved) =>
          && failure.None? && forest == moved
          && Moves(old(forest), path, newParent, level, holderFile, p) && p.index < |p.siblings|
          && forest == MovedForest(p, newParent, level, holderFile)
          && Conserved(old(forest), old(disk), p, newParent, level, holderFile, disk)
          && (Stored(disk, forest) <==> p.siblings[p.index].children == [] || p.from != p.to)
      ensures newParent == [] || Leaf(newParent) != "" ==> HoldersAreLeaves(forest)
    {
      var found, why := LookUpMove(path, newParent, level, holderFile);
      if found.None? { return Some(why), Place([], 0, [], [], [], []); }
      ghost var before := forest;
      CarryOutMove(path, newParent, level, holderFile, found.value);
      if newParent == [] || Leaf(newParent) != "" { MoveKeepsHolders(before, path, newParent, level, holderFile); }
      return None, found.value;
    }

    /** Removes a section's two files and writes its one body again. */
    method WriteAnew(at: Chain, top: Chain, text: string)
      modifies this`disk
      ensures disk == (map c | c in old(disk) && c != at && c != top :: old(disk)[c])[top := Body(text)]
    {
      ghost var w := disk;
      RemoveEntry(at, false);
      RemoveEntry(top, false);
      disk := disk[top := Body(text)];
      assert disk == (map c | c in w && c != at && c != top :: w[c])[top := Body(text)];
    }

    /** The disk steps of a rename. */
    method CarryOutRename(path: Path, heading: string, siblings: Forest, index: nat)
      requires Lawful(forest) && HoldersAreLeaves(forest) && Stored(disk, forest)
      requires path != [] && Leaf(path) != "" && heading != "" && Locate(forest, path) == Some((siblings, index)) && index < |siblings|
      requires Retitle(forest, path, heading, siblings[index].level).Ok?
      modifies this
      ensures Lawful(forest) && Retitle(old(forest), path, heading, siblings[index].level) == Ok(forest)
      ensures forall c | IsLeaf(old(forest), c) :: c in disk && c in old(disk) && disk[c] == old(disk)[c]
      ensures Stored(disk, forest) <==> !(siblings[index].children != [] && OneBody(siblings[index]))
    {
      var node := siblings[index];
      RetitleKeepsLaw(forest, path, heading, node.level);
      LocatedIn(forest, path);
      var from := FilesAlong(forest, Parent(path));
      var at := from + [node.file];
      var top := TopBody(node, at);
      var oldBody := TextAt(disk, top);
      ghost var before, files := forest, disk;
      forest := RenamedForest(forest, path, siblings, index, heading);
      PersistSkeletonTree();
      ghost var w := disk;
      if OneBody(node) { WriteAnew(at, top, oldBody); }
      assert RenamesOnDisk(files, node, at, forest, w, disk);
      forall c | IsLeaf(before, c) ensures c in disk && c in files && disk[c] == files[c] {
        RenameConservesBodies(before, path, siblings, index, from, heading, files, w, disk, c);
      }
      RenameIsStoredIff(before, path, siblings, index, from, heading, files, w, disk);
    }

    /** Conserves every body; leaves the files those of the renamed forest except for a parent whose only child is its
      * body holder, and holders without sections. A refused rename changes nothing. */
    method RenameHeading(path: Path, heading: string) returns (failure: Option<Failure>)
      requires Lawful(forest) && HoldersAreLeaves(forest) && Stored(disk, forest)
      requires path != [] && Leaf(path) != "" && heading != ""
      modifies this
      ensures Lawful(forest) && HoldersAreLeaves(forest)
      ensures failure.Some? ==> forest == old(forest) && disk == old(disk)
      ensures failure == Some(Stale) <==> Locate(old(forest), path).None?
      ensures Locate(old(forest), path).Some? ==>
        var (siblings, i) := Locate(old(forest), path).value;
        match Retitle(old(forest), path, heading, siblings[i].level)
        case Err(why) => failure == Some(why)
        case Ok(renamed) =>
          && failure.None? && forest == renamed
          && (forall c | IsLeaf(old(forest), c) :: c in disk && c in old(disk) && disk[c] == old(disk)[c])
          && (Stored(disk, forest) <==> !(siblings[i].children != [] && OneBody(siblings[i])))
    {
      var located := Locate(forest, path);
      if located.None? { return Some(Stale); }
      var (siblings, index) := located.value;
      if Collides(siblings, siblings[index].file, heading) { return Some(DuplicateSibling); }
      ghost var before := forest;
      CarryOutRename(path, heading, siblings, index);
      RenameKeepsHolders(before, path, heading, siblings[index].level);
      return None;
    }

    /** One edit, and whether the files are those of the forest afterwards. */
    method Make(e: FileEdit) returns (stored: bool)
      requires Sound(forest, disk) && Proper(forest, e)
      modifies this
      ensures Lawful(forest) && HoldersAreLeaves(forest) && (stored <==> Stored(disk, forest))
      ensures forall text | Present(old(forest), old(disk), text) :: Present(forest, disk, text)
    {
      ghost var before, files := forest, disk;
      match e {
        case MoveFiles(path, newParent, level, holderFile) =>
          var found, why := LookUpMove(path, newParent, level, holderFile);
          if found.None? { return true; }
          var p := found.value;
          CarryOutMove(path, newParent, level, holderFile, p);
          MoveKeepsHolders(before, path, newParent, level, holderFile);
          forall text | Present(before, files, text) ensures Present(forest, disk, text) {
            var file :| Holds(before, files, file, text);
            MoveCarriesText(before, files, path, newParent, level, holderFile, p, disk, file, text);
          }
          return p.siblings[p.index].children == [] || p.from != p.to;
        case RenameFiles(path, heading) =>
          var located := Locate(forest, path);
          if located.None? { return true; }
          var (siblings, index) := located.value;
          var failure := RenameHeading(path, heading);
          if failure.Some? { return true; }
          LocatedIn(before, path);
          forall text | Present(before, files, text) ensures Present(forest, disk, text) {
            var file :| Holds(before, files, file, text);
            RenameCarriesText(before, files, path, siblings, index, heading, disk, file, text);
          }
          return !(siblings[index].children != [] && OneBody(siblings[index]));
      }
    }

    /**
     * Any run of moves and renames, up to the first that is not proper or loses a listing. No text is lost on the way,
     * that last edit included, and while none loses a listing the files stay those of the forest.
     */
    method MakeAll(edits: seq<FileEdit>) returns (done: nat, stored: bool)
      requires Sound(forest, disk)
      modifies this
      ensures done <= |edits| && Lawful(forest) && HoldersAreLeaves(forest) && (stored <==> Stored(disk, forest))
      ensures done < |edits| && stored ==> !Proper(forest, edits[done])
      ensures forall text | Present(old(forest), old(disk), text) :: Present(forest, disk, text)
    {
      done, stored := 0, true;
      while done < |edits| && stored && Proper(forest, edits[done])
        invariant done <= |edits| && Lawful(forest) && HoldersAreLeaves(forest) && (stored <==> Stored(disk, forest))
        invariant forall text | Present(old(forest), old(disk), text) :: Present(forest, disk, text)
        decreases |edits| - done
      {
        ghost var before, files := forest, disk;
        stored := Make(edits[done]);
        done := done + 1;
        forall text | Present(old(forest), old(disk), text) ensures Present(forest, disk, text) {
          assert Present(before, files, text);
        }
      }
    }
  }

  lemma {:induction false} WholeTree(d: Disk, at: Chain, nodes: Forest, d': Disk, c: Chain)
    requires SoFarAt(d, at, nodes, |nodes|, d', c)
    ensures WrittenAt(d, at, nodes, d', c)
  {
    if c == at {
      assert c[|at|..] == [];
    } else if at <= c && IsListed(nodes, c[|at|..]) {
      assert c[|at|..][0] == c[|at|];
    }
  }
}
