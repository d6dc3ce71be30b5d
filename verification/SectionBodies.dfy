/** The bodies of a subtree, collected by heading path and written back by heading path.
  *
  * The program keeps the bodies of a subtree in a map from relative heading path to text while it moves the subtree.
  * That loses none only because no two of its sections have the same path, which is what an addressable forest
  * promises; the files below a section are named by chains, and the two ways of naming a section must agree.
  */
module SectionBodies {
  import opened Basics
  import opened SectionForest
  import opened SectionFiles

  // A section with a body of its own: its heading path and its files, both from the subtree's top.
  datatype Entry = Entry(path: Path, chain: Chain)

  function LeafEntries(forest: Forest, path: Path, chain: Chain): seq<Entry>
    decreases forest
  {
    if forest == [] then []
    else
      var n := forest[0];
      var path' := if IsBodyHolder(n) then path else path + [n.heading];
      var chain' := chain + [n.file];
      (if n.children == [] then [Entry(path', chain')] else LeafEntries(n.children, path', chain'))
      + LeafEntries(forest[1..], path, chain)
  }

  /** A body holder holds a body and nothing else. */
  predicate HoldersAreLeaves(forest: Forest)
    decreases forest
  {
    forall n <- forest :: (IsBodyHolder(n) ==> n.children == []) && HoldersAreLeaves(n.children)
  }

  lemma {:induction false} DistinctTail(forest: Forest)
    requires forest != [] && DistinctFiles(forest)
    ensures DistinctFiles(forest[1..]) && DistinctFiles(forest[0].children)
    ensures Uses(forest[1..], forest[0].file) == 0
  {
    ChildrenDistinct(forest, 0);
    forall file ensures Uses(forest[1..], file) <= 1 { assert Uses(forest, file) <= 1; }
    assert Uses(forest, forest[0].file) <= 1;
  }

  /** The entries are exactly the sections without children. */
  lemma {:induction false} EntriesAreLeaves(forest: Forest, path: Path, chain: Chain, e: Entry)
    requires DistinctFiles(forest) && e in LeafEntries(forest, path, chain)
    ensures chain <= e.chain && IsLeaf(forest, e.chain[|chain|..])
    decreases forest
  {
    var n := forest[0];
    var path' := if IsBodyHolder(n) then path else path + [n.heading];
    var chain' := chain + [n.file];
    DistinctTail(forest);
    if e in LeafEntries(forest[1..], path, chain) {
      EntriesAreLeaves(forest[1..], path, chain, e);
      var r := e.chain[|chain|..];
      NoSuchFile(forest[1..], n.file);
      assert FindFile(forest[1..], r[0]) < |forest[1..]|;
      assert r[0] != n.file;
    } else if n.children == [] {
      assert e.chain[|chain|..] == [n.file];
    } else {
      EntriesAreLeaves(n.children, path', chain', e);
      assert e.chain[|chain|..][1..] == e.chain[|chain'|..] && e.chain[|chain|] == n.file;
    }
  }

  lemma {:induction false} LeavesAreEntries(forest: Forest, path: Path, chain: Chain, r: Chain)
    requires IsLeaf(forest, r)
    ensures exists e :: e in LeafEntries(forest, path, chain) && e.chain == chain + r
    decreases forest
  {
    if forest != [] {
      var n := forest[0];
      var path' := if IsBodyHolder(n) then path else path + [n.heading];
      var chain' := chain + [n.file];
      if r[0] != n.file {
        assert RowsAt(forest, r) == RowsAt(forest[1..], r);
        LeavesAreEntries(forest[1..], path, chain, r);
      } else if n.children == [] {
        assert FindFile(forest, r[0]) == 0 && ListAt([], r[1..]).Some?;
        assert chain + r == chain';
        assert Entry(path', chain') in LeafEntries(forest, path, chain);
      } else {
        assert FindFile(forest, r[0]) == 0 && RowsAt(n.children, r[1..]) == Some([]);
        assert |Rows(n.children)| > 0;
        LeavesAreEntries(n.children, path', chain', r[1..]);
        assert chain + r == chain' + r[1..];
      }
    }
  }

  // Where an entry's heading path starts.
  lemma {:induction false} EntryPath(forest: Forest, path: Path, chain: Chain, e: Entry)
    requires Addressable(forest) && HoldersAreLeaves(forest) && e in LeafEntries(forest, path, chain)
    ensures path <= e.path
    ensures |e.path| == |path| ==> HasHolder(forest)
    ensures |e.path| > |path| ==> e.path[|path|] != "" && exists n <- forest :: n.heading == e.path[|path|]
    decreases forest
  {
    var n := forest[0];
    assert n in forest;
    if e in LeafEntries(forest[1..], path, chain) {
      EntryPath(forest[1..], path, chain, e);
      assert forall x <- forest[1..] :: x in forest;
    } else if n.children != [] {
      EntryPath(n.children, path + [n.heading], chain + [n.file], e);
      assert e.path[|path|] == n.heading;
    }
  }

  predicate DistinctPaths(es: seq<Entry>) { forall i, j :: 0 <= i < j < |es| ==> es[i].path != es[j].path }

  /** In an addressable forest no two bodies have the same heading path. */
  lemma {:induction false} EveryBodyHasItsPath(forest: Forest, path: Path, chain: Chain)
    requires Addressable(forest) && HoldersAreLeaves(forest)
    ensures DistinctPaths(LeafEntries(forest, path, chain))
    decreases forest
  {
    if forest != [] {
      var n := forest[0];
      assert n in forest;
      var path' := if IsBodyHolder(n) then path else path + [n.heading];
      var first := if n.children == [] then [Entry(path', chain + [n.file])] else LeafEntries(n.children, path', chain + [n.file]);
      var rest := LeafEntries(forest[1..], path, chain);
      assert forall x <- forest[1..] :: x in forest;
      EveryBodyHasItsPath(forest[1..], path, chain);
      if n.children != [] { EveryBodyHasItsPath(n.children, path', chain + [n.file]); }
      forall i, j | 0 <= i < |first| && 0 <= j < |rest| ensures first[i].path != rest[j].path {
        EntryPath(forest[1..], path, chain, rest[j]);
        if n.children != [] { EntryPath(n.children, path', chain + [n.file], first[i]); }
        HeadingTaken(forest);
      }
    }
  }

  // The first section's heading is not the heading of another, nor is there a second holder.
  lemma {:induction false} HeadingTaken(forest: Forest)
    requires forest != [] && DistinctHeadings(forest)
    ensures forall n <- forest[1..] :: n.heading != forest[0].heading
    ensures IsBodyHolder(forest[0]) ==> !HasHolder(forest[1..])
  {
    forall n | n in forest[1..] ensures n.heading != forest[0].heading {
      var j :| 0 <= j < |forest[1..]| && forest[1..][j] == n;
      assert !HeadingsEqual(forest[0].heading, forest[j + 1].heading);
    }
  }

  // ---- reading and writing --------------------------------------------------------------------------------------

  function TextAt(d: Disk, c: Chain): string { if c in d && d[c].Body? then d[c].text else "" }

  // The bodies by heading path; a path met again would overwrite the first.
  function PreBodies(d: Disk, base: Chain, es: seq<Entry>): map<Path, string> {
    if es == [] then map[]
    else
      var last := es[|es| - 1];
      PreBodies(d, base, es[..|es| - 1])[last.path := TextAt(d, base + last.chain)]
  }

  function WithBodies(d: Disk, base: Chain, es: seq<Entry>, bodies: map<Path, string>): Disk {
    if es == [] then d
    else
      var last := es[|es| - 1];
      var d' := WithBodies(d, base, es[..|es| - 1], bodies);
      if last.path in bodies then d'[base + last.chain := Body(bodies[last.path])] else d'
  }

  lemma {:induction false} EachBodyIsRead(d: Disk, base: Chain, es: seq<Entry>, i: nat)
    requires i < |es| && DistinctPaths(es)
    ensures es[i].path in PreBodies(d, base, es)
    ensures PreBodies(d, base, es)[es[i].path] == TextAt(d, base + es[i].chain)
    decreases |es|
  {
    if i < |es| - 1 { EachBodyIsRead(d, base, es[..|es| - 1], i); }
  }

  // Bodies written by heading path land where `text` says, chain by chain, and nowhere else.
  lemma {:induction false} EachBodyIsWritten(d: Disk, base: Chain, es: seq<Entry>, bodies: map<Path, string>,
                                             text: Chain -> string, c: Chain)
    requires Finds(es, bodies, text)
    ensures var d' := WithBodies(d, base, es, bodies);
      && ((exists i :: 0 <= i < |es| && c == base + es[i].chain) ==> c in d' && d'[c] == Body(text(c[|base|..])))
      && ((forall i :: 0 <= i < |es| ==> c != base + es[i].chain) ==> (c in d' <==> c in d) && (c in d ==> d'[c] == d[c]))
    decreases |es|
  {
    if es != [] {
      var front := es[..|es| - 1];
      var last := es[|es| - 1];
      EachBodyIsWritten(d, base, front, bodies, text, c);
      if c == base + last.chain {
        assert c[|base|..] == last.chain;
      } else if exists i :: 0 <= i < |es| && c == base + es[i].chain {
        var i :| 0 <= i < |es| && c == base + es[i].chain;
        assert front[i] == es[i];
      } else {
        assert forall i :: 0 <= i < |front| ==> c != base + front[i].chain;
      }
    }
  }

  // Every collected body is found under its path again.
  predicate Finds(es: seq<Entry>, bodies: map<Path, string>, text: Chain -> string) {
    forall i :: 0 <= i < |es| ==> es[i].path in bodies && bodies[es[i].path] == text(es[i].chain)
  }

  lemma {:induction false} EveryBodyIsCollected(d: Disk, base: Chain, es: seq<Entry>, text: Chain -> string)
    requires DistinctPaths(es) && forall x :: text(x) == TextAt(d, base + x)
    ensures Finds(es, PreBodies(d, base, es), text)
  {
    var bodies := PreBodies(d, base, es);
    forall i | 0 <= i < |es| ensures es[i].path in bodies && bodies[es[i].path] == text(es[i].chain) {
      EachBodyIsRead(d, base, es, i);
      assert text(es[i].chain) == TextAt(d, base + es[i].chain);
    }
  }

  // The chains written to are those of the leaves.
  lemma {:induction false} WrittenChains(node: Node, to: Chain, c: Chain)
    requires DistinctFiles([node])
    ensures (exists i :: 0 <= i < |LeafEntries([node], [], [])| && c == to + LeafEntries([node], [], [])[i].chain)
       <==> to <= c && IsLeaf([node], c[|to|..])
  {
    var es := LeafEntries([node], [], []);
    if to <= c && IsLeaf([node], c[|to|..]) {
      LeavesAreEntries([node], [], [], c[|to|..]);
      var x :| x in es && x.chain == [] + c[|to|..];
      var i :| 0 <= i < |es| && es[i] == x;
      assert c == to + es[i].chain;
    }
    forall i | 0 <= i < |es| && c == to + es[i].chain ensures to <= c && IsLeaf([node], c[|to|..]) {
      EntriesAreLeaves([node], [], [], es[i]);
      assert es[i].chain[0..] == es[i].chain && c[|to|..] == es[i].chain;
    }
  }

  /** Collecting a subtree's bodies by heading path and writing them by heading path elsewhere puts each where the same
    * section now stands, and touches nothing else. */
  lemma {:induction false} BodiesTravel(d: Disk, e: Disk, base: Chain, to: Chain, node: Node, c: Chain)
    requires Addressable([node]) && HoldersAreLeaves([node]) && DistinctFiles([node])
    ensures var es := LeafEntries([node], [], []);
      var d' := WithBodies(e, to, es, PreBodies(d, base, es));
      if to <= c && IsLeaf([node], c[|to|..]) then c in d' && d'[c] == Body(TextAt(d, base + c[|to|..]))
      else (c in d' <==> c in e) && (c in e ==> d'[c] == e[c])
  {
    var es := LeafEntries([node], [], []);
    var text: Chain -> string := x => TextAt(d, base + x);
    EveryBodyHasItsPath([node], [], []);
    EveryBodyIsCollected(d, base, es, text);
    EachBodyIsWritten(e, to, es, PreBodies(d, base, es), text, c);
    WrittenChains(node, to, c);
  }
}
