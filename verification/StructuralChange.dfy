/** What an author's edit did to the structure of one live fragment, and cutting the fragment up accordingly. */
module StructuralChange {
  import opened Basics
  import opened SectionForest
  import RR = ReplacementRoots

  // A fragment is its top-level nodes, each with its own id. A heading node whose text is blank is written as bare
  // number signs, which the parser reads as a line of body.

  datatype Block = Heading(id: nat, level: nat, text: string) | Body(id: nat, text: string)

  predicate IsSpace(c: char) { c in " \t\n\r\U{000B}\U{000C}\U{00A0}\U{FEFF}" }

  predicate IsBlank(s: string) { forall i :: 0 <= i < |s| ==> IsSpace(s[i]) }

  predicate HeadingTextIsEmpty(s: string) {
    forall i :: 0 <= i < |s| ==> IsSpace(s[i]) || s[i] in "\U{200B}\U{200C}\U{200D}"
  }

  // A heading the parser sees.
  predicate IsReal(b: Block) { b.Heading? && !IsBlank(b.text) }

  predicate IsEmptyHeading(b: Block) { b.Heading? && IsBlank(b.text) }

  // ---- parsing: grouping by heading ------------------------------------------------------------------------------

  datatype Part = Part(heading: string, level: nat, nodes: seq<Block>)

  function FirstReal(bs: seq<Block>): (i: nat)
    ensures i <= |bs| && (i < |bs| ==> IsReal(bs[i]))
    ensures forall j :: 0 <= j < i ==> !IsReal(bs[j])
  {
    if bs == [] || IsReal(bs[0]) then 0 else 1 + FirstReal(bs[1..])
  }

  function Leading(bs: seq<Block>): seq<Block> { bs[..FirstReal(bs)] }

  function PartsFrom(bs: seq<Block>): seq<Part>
    requires bs == [] || IsReal(bs[0])
    decreases |bs|
  {
    if bs == [] then []
    else
      var end := 1 + FirstReal(bs[1..]);
      [Part(bs[0].text, bs[0].level, bs[..end])] + PartsFrom(bs[end..])
  }

  // The headed sections, in order.
  function Parts(bs: seq<Block>): seq<Part> { PartsFrom(bs[FirstReal(bs)..]) }

  function Nodes(parts: seq<Part>): seq<Block> {
    if parts == [] then [] else parts[0].nodes + Nodes(parts[1..])
  }

  // One heading, which is seen, and then only nodes that are not.
  predicate IsPart(p: Part) {
    && p.nodes != [] && IsReal(p.nodes[0])
    && p.heading == p.nodes[0].text && p.level == p.nodes[0].level
    && forall j :: 1 <= j < |p.nodes| ==> !IsReal(p.nodes[j])
  }

  lemma {:induction false} FirstIsPart(bs: seq<Block>)
    requires bs != [] && IsReal(bs[0])
    ensures IsPart(PartsFrom(bs)[0])
  {
    var end := 1 + FirstReal(bs[1..]);
    assert forall j :: 1 <= j < end ==> bs[..end][j] == bs[1..][j - 1];
  }

  lemma {:induction false} NodesOfFirst(first: Part, rest: seq<Part>, bs: seq<Block>, end: nat)
    requires end <= |bs| && first.nodes == bs[..end] && Nodes(rest) == bs[end..]
    ensures Nodes([first] + rest) == bs
  {
    assert ([first] + rest)[1..] == rest;
    CutInTwo(bs, end);
  }

  lemma {:induction false} PartsFromKeepsNodes(bs: seq<Block>)
    requires bs == [] || IsReal(bs[0])
    ensures Nodes(PartsFrom(bs)) == bs
    decreases |bs|
  {
    if bs != [] {
      var end := 1 + FirstReal(bs[1..]);
      PartsFromKeepsNodes(bs[end..]);
      NodesOfFirst(Part(bs[0].text, bs[0].level, bs[..end]), PartsFrom(bs[end..]), bs, end);
    }
  }

  lemma {:induction false} PartsFromGroups(bs: seq<Block>)
    requires bs == [] || IsReal(bs[0])
    ensures Nodes(PartsFrom(bs)) == bs
    ensures forall i :: 0 <= i < |PartsFrom(bs)| ==> IsPart(PartsFrom(bs)[i])
    decreases |bs|
  {
    PartsFromKeepsNodes(bs);
    if bs != [] {
      var rest := PartsFrom(bs[1 + FirstReal(bs[1..])..]);
      FirstIsPart(bs);
      PartsFromGroups(bs[1 + FirstReal(bs[1..])..]);
      assert forall i :: 1 <= i < |PartsFrom(bs)| ==> PartsFrom(bs)[i] == rest[i - 1];
    }
  }

  /** Grouping loses nothing and each group has exactly one heading the parser sees, its first node. */
  lemma {:induction false} PartsGroup(bs: seq<Block>)
    ensures Leading(bs) + Nodes(Parts(bs)) == bs
    ensures forall i :: 0 <= i < |Parts(bs)| ==> IsPart(Parts(bs)[i])
  {
    PartsFromGroups(bs[FirstReal(bs)..]);
    CutInTwo(bs, FirstReal(bs));
  }

  lemma {:induction false} CutInTwo(bs: seq<Block>, at: nat)
    requires at <= |bs|
    ensures bs[..at] + bs[at..] == bs
  {
  }

  lemma {:induction false} NodesOfBoth(a: seq<Part>, b: seq<Part>)
    ensures Nodes(a + b) == Nodes(a) + Nodes(b)
  {
    if a == [] {
      assert a + b == b;
    } else {
      assert (a + b)[1..] == a[1..] + b;
      NodesOfBoth(a[1..], b);
    }
  }

  // ---- classifying -----------------------------------------------------------------------------------------------

  datatype Identity = Identity(headingPath: Path, heading: string, level: nat)

  datatype Descriptor = Descriptor(headingPath: Path, heading: string, level: nat, body: seq<Block>)
  datatype Survivor = Survivor(heading: string, level: nat, body: seq<Block>, renamedFromIdentity: bool)

  datatype Change =
    | Clean
    | RootSplit(rootBody: seq<Block>, sections: seq<Descriptor>)
    | SectionSplit(before: seq<Descriptor>, survivor: Survivor, after: seq<Descriptor>)
    | HeadingRename(newHeading: string, level: nat)
    | HeadingLevelChange(newHeading: string, newLevel: nat)
    | HeadingDeletion(orphaned: seq<Block>)

  // The parser's heading paths inside the fragment.
  function RelativePaths(parts: seq<Part>): seq<RR.Section> {
    RR.Emitted([], seq(|parts|, i requires 0 <= i < |parts| => (parts[i].heading, parts[i].level)))
  }

  lemma {:induction false} OnePathEach(stack: seq<RR.Section>, headings: seq<(string, nat)>)
    ensures |RR.Emitted(stack, headings)| == |headings|
    decreases |headings|
  {
    if headings != [] {
      var open := RR.Popped(stack, headings[0].1);
      var path := (if open == [] then [] else open[|open| - 1].path) + [headings[0].0];
      OnePathEach(open + [RR.Section(path, headings[0].1)], headings[1..]);
    }
  }

  lemma {:induction false} PathEndsInHeading(stack: seq<RR.Section>, headings: seq<(string, nat)>, i: nat)
    requires i < |headings|
    ensures |RR.Emitted(stack, headings)| == |headings|
    ensures var s := RR.Emitted(stack, headings)[i];
      s.path != [] && s.path[|s.path| - 1] == headings[i].0 && s.level == headings[i].1
    decreases |headings|
  {
    OnePathEach(stack, headings);
    var open := RR.Popped(stack, headings[0].1);
    var path := (if open == [] then [] else open[|open| - 1].path) + [headings[0].0];
    var next := open + [RR.Section(path, headings[0].1)];
    if i > 0 {
      PathEndsInHeading(next, headings[1..], i - 1);
      assert RR.Emitted(stack, headings)[i] == RR.Emitted(next, headings[1..])[i - 1];
    }
  }

  function Described(parts: seq<Part>): (ds: seq<Descriptor>)
    ensures |ds| == |parts|
  {
    OnePathEach([], seq(|parts|, i requires 0 <= i < |parts| => (parts[i].heading, parts[i].level)));
    var paths := RelativePaths(parts);
    seq(|parts|, i requires 0 <= i < |parts| =>
      Descriptor(paths[i].path, parts[i].heading, parts[i].level, BodyOf(parts[i])))
  }

  function BodyOf(p: Part): seq<Block> { if p.nodes == [] then [] else p.nodes[1..] }

  // Anything but white space in front of the first heading the parser sees.
  predicate HasLeadingText(bs: seq<Block>) {
    exists i :: 0 <= i < FirstReal(bs) && (bs[i].Heading? || !IsBlank(bs[i].text))
  }

  predicate Matches(p: Part, identity: Identity) {
    HeadingsEqual(p.heading, identity.heading) && p.level == identity.level
  }

  predicate IsStructurallyClean(bs: seq<Block>, identity: Identity) {
    var parts := Parts(bs);
    if identity.headingPath == [] then parts == []
    else |parts| == 1 && !HasLeadingText(bs) && Matches(parts[0], identity)
  }

  function FirstMatch(parts: seq<Part>, identity: Identity): (i: nat)
    ensures i <= |parts| && (i < |parts| ==> Matches(parts[i], identity))
    ensures forall j :: 0 <= j < i ==> !Matches(parts[j], identity)
  {
    if parts == [] || Matches(parts[0], identity) then 0 else 1 + FirstMatch(parts[1..], identity)
  }

  function SurvivorIndex(parts: seq<Part>, identity: Identity): nat {
    if FirstMatch(parts, identity) < |parts| then FirstMatch(parts, identity) else 0
  }

  function ParseSectionSplit(parts: seq<Part>, identity: Identity): Change
    requires parts != []
  {
    var i := SurvivorIndex(parts, identity);
    var all := Described(parts);
    SectionSplit(all[..i],
                 Survivor(parts[i].heading, parts[i].level, BodyOf(parts[i]), FirstMatch(parts, identity) == |parts|),
                 all[i + 1..])
  }

  // Number signs of an empty heading at the start of an orphaned body are dropped with it.
  function WithoutEmptyHeading(bs: seq<Block>): seq<Block> {
    if bs != [] && bs[0].Heading? then bs[1..] else bs
  }

  // `None` is the error of a headed fragment with text in front of its first heading.
  function ClassifyStructuralChange(bs: seq<Block>, identity: Identity): Option<Change> {
    var parts := Parts(bs);
    var isRoot := identity.headingPath == [];
    if IsStructurallyClean(bs, identity) then Some(Clean)
    else if !isRoot && |parts| > 0 && HasLeadingText(bs) then None
    else if isRoot && |parts| > 0 then Some(RootSplit(Leading(bs), Described(parts)))
    else if !isRoot && |parts| == 1 && HeadingTextIsEmpty(parts[0].heading) then Some(HeadingDeletion(BodyOf(parts[0])))
    else if !isRoot && |parts| == 1 && !HeadingsEqual(parts[0].heading, identity.heading) && parts[0].level == identity.level then
      Some(HeadingRename(parts[0].heading, parts[0].level))
    else if !isRoot && |parts| == 1 && parts[0].level != identity.level then
      Some(HeadingLevelChange(parts[0].heading, parts[0].level))
    else if !isRoot && |parts| >= 2 then Some(ParseSectionSplit(parts, identity))
    else if !isRoot && |parts| == 0 then Some(HeadingDeletion(WithoutEmptyHeading(Leading(bs))))
    else Some(Clean)
  }

  datatype LeadingChunkCut = LeadingChunkCut(chunk: seq<Block>, remainder: seq<Block>)

  function CutLeadingChunk(bs: seq<Block>, identity: Identity): Option<LeadingChunkCut> {
    if identity.headingPath == [] || Parts(bs) == [] || !HasLeadingText(bs) then None
    else Some(LeadingChunkCut(Leading(bs), Nodes(Parts(bs))))
  }

  // What is classified: the remainder when a chunk was cut, the fragment otherwise.
  function Remainder(bs: seq<Block>, identity: Identity): seq<Block> {
    match CutLeadingChunk(bs, identity)
    case Some(cut) => cut.remainder
    case None => bs
  }

  lemma {:induction false} RemainderHasTheSameParts(bs: seq<Block>)
    requires Parts(bs) != []
    ensures Nodes(Parts(bs)) == bs[FirstReal(bs)..]
    ensures FirstReal(Nodes(Parts(bs))) == 0 && Parts(Nodes(Parts(bs))) == Parts(bs)
  {
    var rest := bs[FirstReal(bs)..];
    PartsFromGroups(rest);
    assert rest[0..] == rest;
  }

  /** The cut is where the first heading the parser sees stands, nothing is lost by it, and after it the classifier
    * always has an answer. Without the cut it has none exactly for a headed fragment with leading text. */
  lemma {:induction false} CuttingMakesClassifyingTotal(bs: seq<Block>, identity: Identity)
    ensures ClassifyStructuralChange(bs, identity).None? <==> CutLeadingChunk(bs, identity).Some?
    ensures ClassifyStructuralChange(Remainder(bs, identity), identity).Some?
    ensures CutLeadingChunk(bs, identity).Some? ==>
      CutLeadingChunk(bs, identity).value.chunk + Remainder(bs, identity) == bs
    ensures Parts(Remainder(bs, identity)) == Parts(bs)
  {
    PartsGroup(bs);
    if Parts(bs) != [] { RemainderHasTheSameParts(bs); }
  }

  /** `Clean` is answered exactly for structurally clean fragments: the last fallback is never reached. */
  lemma {:induction false} CleanIffStructurallyClean(bs: seq<Block>, identity: Identity)
    ensures ClassifyStructuralChange(bs, identity) == Some(Clean) <==> IsStructurallyClean(bs, identity)
  {
  }

  /** What a descriptor says, put back together, is the headed section itself. */
  predicate Describes(d: Descriptor, p: Part) {
    && d.heading == p.heading && d.level == p.level
    && p.nodes != [] && p.nodes == [p.nodes[0]] + d.body
    && d.headingPath != [] && d.headingPath[|d.headingPath| - 1] == p.heading
  }

  lemma {:induction false} EachIsDescribed(parts: seq<Part>)
    requires forall i :: 0 <= i < |parts| ==> IsPart(parts[i])
    ensures forall i :: 0 <= i < |parts| ==> Describes(Described(parts)[i], parts[i])
  {
    forall i | 0 <= i < |parts| ensures Describes(Described(parts)[i], parts[i]) {
      OneIsDescribed(parts, i);
    }
  }

  lemma {:induction false} OneIsDescribed(parts: seq<Part>, i: nat)
    requires i < |parts| && IsPart(parts[i])
    ensures Describes(Described(parts)[i], parts[i])
  {
    PathEndsInHeading([], seq(|parts|, j requires 0 <= j < |parts| => (parts[j].heading, parts[j].level)), i);
  }

  // What a section split says of the parts.
  ghost predicate SplitsInto(parts: seq<Part>, identity: Identity, before: seq<Descriptor>, survivor: Survivor, after: seq<Descriptor>) {
    && |before| + 1 + |after| == |parts|
    && (forall i :: 0 <= i < |before| ==> Describes(before[i], parts[i]) && !Matches(parts[i], identity))
    && (forall i :: 0 <= i < |after| ==> Describes(after[i], parts[|before| + 1 + i]))
    && survivor.heading == parts[|before|].heading && survivor.level == parts[|before|].level
    && parts[|before|].nodes != [] && parts[|before|].nodes == [parts[|before|].nodes[0]] + survivor.body
    && (survivor.renamedFromIdentity <==> forall i :: 0 <= i < |parts| ==> !Matches(parts[i], identity))
    && (if survivor.renamedFromIdentity then before == [] else Matches(parts[|before|], identity))
  }

  lemma {:induction false} SectionSplitLists(parts: seq<Part>, identity: Identity)
    requires parts != [] && forall i :: 0 <= i < |parts| ==> IsPart(parts[i])
    ensures var c := ParseSectionSplit(parts, identity);
      c.SectionSplit? && SplitsInto(parts, identity, c.before, c.survivor, c.after)
  {
    EachIsDescribed(parts);
    var k := SurvivorIndex(parts, identity);
    assert IsPart(parts[k]);
    var c := ParseSectionSplit(parts, identity);
    assert |c.before| == k && |c.after| == |parts| - k - 1;
    forall i | 0 <= i < |c.after| ensures Describes(c.after[i], parts[k + 1 + i]) {
      assert c.after[i] == Described(parts)[k + 1 + i];
    }
  }

  /** A split names every headed section once and in order. The survivor of a section split is the first section that
    * carries the identity, or the first of all, marked as renamed, when none does. */
  lemma {:induction false} SplitListsEverySection(bs: seq<Block>, identity: Identity)
    ensures var parts := Parts(bs);
      match ClassifyStructuralChange(bs, identity)
      case Some(RootSplit(rootBody, sections)) =>
        && identity.headingPath == [] && parts != [] && rootBody + Nodes(parts) == bs
        && |sections| == |parts| && forall i :: 0 <= i < |parts| ==> Describes(sections[i], parts[i])
      case Some(SectionSplit(before, survivor, after)) =>
        identity.headingPath != [] && |parts| >= 2 && SplitsInto(parts, identity, before, survivor, after)
      case _ => true
  {
    PartsGroup(bs);
    if identity.headingPath == [] {
      EachIsDescribed(Parts(bs));
    } else if |Parts(bs)| >= 2 {
      SectionSplitLists(Parts(bs), identity);
    }
  }

  // ---- cutting the live fragment ---------------------------------------------------------------------------------

  // The index of the n-th heading node, counted from one, or the length when there are fewer.
  function IndexOfNthHeading(bs: seq<Block>, n: nat): (i: nat)
    ensures i <= |bs|
  {
    if bs == [] || n == 0 then |bs|
    else if !bs[0].Heading? then 1 + IndexOfNthHeading(bs[1..], n)
    else if n == 1 then 0
    else 1 + IndexOfNthHeading(bs[1..], n - 1)
  }

  // The same for headings the parser sees.
  function IndexOfNthReal(bs: seq<Block>, n: nat): (i: nat)
    ensures i <= |bs|
  {
    if bs == [] || n == 0 then |bs|
    else if !IsReal(bs[0]) then 1 + IndexOfNthReal(bs[1..], n)
    else if n == 1 then 0
    else 1 + IndexOfNthReal(bs[1..], n - 1)
  }

  function CountReal(bs: seq<Block>): nat {
    if bs == [] then 0 else (if IsReal(bs[0]) then 1 else 0) + CountReal(bs[1..])
  }

  predicate NoEmptyHeading(bs: seq<Block>) { forall i :: 0 <= i < |bs| ==> !IsEmptyHeading(bs[i]) }

  lemma {:induction false} RealsAscend(bs: seq<Block>, n: nat)
    requires 1 <= n <= CountReal(bs)
    ensures IndexOfNthReal(bs, n) < IndexOfNthReal(bs, n + 1)
  {
    if !IsReal(bs[0]) { RealsAscend(bs[1..], n); } else if n > 1 { RealsAscend(bs[1..], n - 1); }
  }

  // Empty headings take numbers, so counting nodes never arrives late.
  lemma {:induction false} NodesComeFirst(bs: seq<Block>, n: nat)
    requires n >= 1 && CountReal(bs) >= n - 1
    ensures IndexOfNthHeading(bs, n) <= IndexOfNthReal(bs, n)
    ensures bs != [] && IsEmptyHeading(bs[0]) ==> IndexOfNthHeading(bs, n) < IndexOfNthReal(bs, n)
  {
    if bs != [] {
      if !bs[0].Heading? {
        NodesComeFirst(bs[1..], n);
      } else if n > 1 {
        NodesComeFirst(bs[1..], n - 1);
        if !IsReal(bs[0]) { RealsAscend(bs[1..], n - 1); }
      }
    }
  }

  /** Counting heading nodes finds the n-th heading the parser sees exactly when no empty heading stands before it. */
  lemma {:induction false} CountingNodesFindsIt(bs: seq<Block>, n: nat)
    requires n >= 1 && CountReal(bs) >= n - 1
    ensures IndexOfNthHeading(bs, n) == IndexOfNthReal(bs, n) <==> NoEmptyHeading(bs[..IndexOfNthReal(bs, n)])
  {
    if bs != [] {
      var rest, k := bs[1..], IndexOfNthReal(bs, n);
      if IsEmptyHeading(bs[0]) {
        NodesComeFirst(bs, n);
        assert IsEmptyHeading(bs[..k][0]);
      } else if IsReal(bs[0]) && n == 1 {
        assert bs[..k] == [];
      } else {
        CountingNodesFindsIt(rest, if IsReal(bs[0]) then n - 1 else n);
        NoEmptyHeadingInFront(bs, k);
      }
    }
  }

  lemma {:induction false} NoEmptyHeadingInFront(bs: seq<Block>, k: nat)
    requires 1 <= k <= |bs| && !IsEmptyHeading(bs[0])
    ensures NoEmptyHeading(bs[..k]) <==> NoEmptyHeading(bs[1..][..k - 1])
  {
    assert bs[..k] == [bs[0]] + bs[1..][..k - 1];
    if NoEmptyHeading(bs[..k]) {
      var tail := bs[1..][..k - 1];
      forall j | 0 <= j < k - 1 ensures !IsEmptyHeading(tail[j]) {
        assert !IsEmptyHeading(bs[..k][j + 1]);
      }
    }
  }

  // ---- the plan and the survivor ---------------------------------------------------------------------------------

  datatype SplitPlan = SplitPlan(deleteLeadingUntil: nat, deleteFrom: nat)

  function ComputeSplitPlan(live: seq<Block>, change: Change): SplitPlan
    requires change.RootSplit? || change.SectionSplit?
  {
    var ordinal := if change.RootSplit? then 0 else |change.before| + 1;
    SplitPlan(if change.RootSplit? then 0 else IndexOfNthHeading(live, ordinal), IndexOfNthHeading(live, ordinal + 1))
  }

  // The index loop of the program.
  method FindNthHeading(bs: seq<Block>, n: nat) returns (index: nat)
    ensures index == IndexOfNthHeading(bs, n)
  {
    var seen := 0;
    for i := 0 to |bs|
      invariant n > 0 ==> seen < n && IndexOfNthHeading(bs, n) == i + IndexOfNthHeading(bs[i..], n - seen)
    {
      assert n > 0 ==> bs[i..][0] == bs[i] && bs[i..][1..] == bs[i + 1..];
      if bs[i].Heading? {
        seen := seen + 1;
        if seen == n { return i; }
      }
    }
    return |bs|;
  }

  class LiveFragment {
    var children: seq<Block>

    method Delete(index: nat, length: nat)
      requires index + length <= |children|
      modifies this
      ensures children == old(children)[..index] + old(children)[index + length..]
    {
      children := children[..index] + children[index + length..];
    }

    /** Only nodes outside the planned stretch go; those inside keep their ids and order. */
    method ApplyStructuralSplitPlan(plan: SplitPlan)
      requires plan.deleteFrom <= |children|
      modifies this
      ensures children == if plan.deleteLeadingUntil <= plan.deleteFrom
                          then old(children)[plan.deleteLeadingUntil..plan.deleteFrom] else []
    {
      if plan.deleteFrom < |children| {
        Delete(plan.deleteFrom, |children| - plan.deleteFrom);
      }
      assert children == old(children)[..plan.deleteFrom];
      if plan.deleteLeadingUntil > 0 {
        Delete(0, if plan.deleteLeadingUntil < |children| then plan.deleteLeadingUntil else |children|);
      }
    }
  }

  function Kept(live: seq<Block>, plan: SplitPlan): seq<Block>
    requires plan.deleteFrom <= |live|
  {
    if plan.deleteLeadingUntil <= plan.deleteFrom then live[plan.deleteLeadingUntil..plan.deleteFrom] else []
  }

  predicate DistinctIds(bs: seq<Block>) { forall i, j :: 0 <= i < j < |bs| ==> bs[i].id != bs[j].id }

  // ---- where the parts stand -------------------------------------------------------------------------------------

  lemma {:induction false} RealsOfPart(nodes: seq<Block>, rest: seq<Block>, n: nat)
    requires forall j :: 0 <= j < |nodes| ==> !IsReal(nodes[j])
    requires n >= 1
    ensures IndexOfNthReal(nodes + rest, n) == |nodes| + IndexOfNthReal(rest, n)
    ensures CountReal(nodes + rest) == CountReal(rest)
  {
    if nodes == [] {
      assert nodes + rest == rest;
    } else {
      assert (nodes + rest)[1..] == nodes[1..] + rest;
      RealsOfPart(nodes[1..], rest, n);
    }
  }

  // In grouped nodes the n-th real heading opens the n-th part.
  lemma {:induction false} NthPartOpens(parts: seq<Part>, n: nat)
    requires forall i :: 0 <= i < |parts| ==> IsPart(parts[i])
    requires 1 <= n <= |parts| + 1
    ensures IndexOfNthReal(Nodes(parts), n) == |Nodes(parts[..n - 1])|
    decreases |parts|
  {
    if parts != [] {
      FirstPartOpens(parts, n);
      if n > 1 {
        NthPartOpens(parts[1..], n - 1);
        assert parts[..n - 1][0] == parts[0] && parts[..n - 1][1..] == parts[1..][..n - 2];
      }
    }
  }

  // Past the first part the counting starts again with one heading less to find.
  lemma {:induction false} FirstPartOpens(parts: seq<Part>, n: nat)
    requires parts != [] && IsPart(parts[0]) && n >= 1
    ensures IndexOfNthReal(Nodes(parts), n) ==
      if n == 1 then 0 else |parts[0].nodes| + IndexOfNthReal(Nodes(parts[1..]), n - 1)
    ensures CountReal(Nodes(parts)) == 1 + CountReal(Nodes(parts[1..]))
  {
    var p, rest := parts[0], Nodes(parts[1..]);
    assert Nodes(parts)[0] == p.nodes[0] && Nodes(parts)[1..] == p.nodes[1..] + rest;
    RealsOfPart(p.nodes[1..], rest, if n > 1 then n - 1 else 1);
  }

  lemma {:induction false} OneRealEach(parts: seq<Part>)
    requires forall i :: 0 <= i < |parts| ==> IsPart(parts[i])
    ensures CountReal(Nodes(parts)) == |parts|
  {
    if parts != [] {
      FirstPartOpens(parts, 1);
      OneRealEach(parts[1..]);
    }
  }

  lemma {:induction false} NthPartOpensInFragment(bs: seq<Block>, n: nat)
    requires 1 <= n <= |Parts(bs)| + 1
    ensures IndexOfNthReal(bs, n) == |Leading(bs)| + |Nodes(Parts(bs)[..n - 1])|
    ensures CountReal(bs) == |Parts(bs)|
  {
    PartsGroup(bs);
    NthPartOpens(Parts(bs), n);
    OneRealEach(Parts(bs));
    RealsOfPart(Leading(bs), Nodes(Parts(bs)), n);
  }

  lemma {:induction false} NodesAround(parts: seq<Part>, k: nat)
    requires k < |parts|
    ensures Nodes(parts) == Nodes(parts[..k]) + parts[k].nodes + Nodes(parts[k + 1..])
    ensures Nodes(parts[..k + 1]) == Nodes(parts[..k]) + parts[k].nodes
  {
    assert [parts[k]][1..] == [];
    assert Nodes([parts[k]]) == parts[k].nodes + Nodes([]);
    assert parts[..k + 1] == parts[..k] + [parts[k]];
    NodesOfBoth(parts[..k], [parts[k]]);
    assert parts == parts[..k + 1] + parts[k + 1..];
    NodesOfBoth(parts[..k + 1], parts[k + 1..]);
  }

  lemma {:induction false} PartIsSlice(bs: seq<Block>, k: nat)
    requires k < |Parts(bs)|
    ensures IndexOfNthReal(bs, k + 1) < IndexOfNthReal(bs, k + 2)
    ensures bs[IndexOfNthReal(bs, k + 1)..IndexOfNthReal(bs, k + 2)] == Parts(bs)[k].nodes
  {
    var parts := Parts(bs);
    BoundsOfPart(bs, k);
    BlocksAround(bs, k);
    Stretch(bs, Leading(bs), Nodes(parts[..k]), parts[k].nodes, Nodes(parts[k + 1..]));
  }

  lemma {:induction false} BoundsOfPart(bs: seq<Block>, k: nat)
    requires k < |Parts(bs)|
    ensures var front := Nodes(Parts(bs)[..k]);
      && IndexOfNthReal(bs, k + 1) == |Leading(bs)| + |front|
      && IndexOfNthReal(bs, k + 2) == |Leading(bs)| + |front + Parts(bs)[k].nodes|
  {
    NthPartOpensInFragment(bs, k + 1);
    NthPartOpensInFragment(bs, k + 2);
    NodesAround(Parts(bs), k);
  }

  lemma {:induction false} BlocksAround(bs: seq<Block>, k: nat)
    requires k < |Parts(bs)|
    ensures var parts := Parts(bs);
      parts[k].nodes != [] && bs == Leading(bs) + (Nodes(parts[..k]) + parts[k].nodes + Nodes(parts[k + 1..]))
  {
    NodesAround(Parts(bs), k);
    PartsGroup(bs);
    assert IsPart(Parts(bs)[k]);
  }

  lemma {:induction false} Stretch<T>(s: seq<T>, a: seq<T>, b: seq<T>, c: seq<T>, d: seq<T>)
    requires s == a + (b + c + d) && c != []
    ensures |a| + |b| < |a| + |b + c| <= |s| && s[|a| + |b|..|a| + |b + c|] == c
  {
  }

  // Cutting by counted heading nodes leaves exactly the k-th headed section.
  lemma {:induction false} CutLeavesThePart(live: seq<Block>, k: nat)
    requires DistinctIds(live) && k < |Parts(live)|
    ensures Kept(live, SplitPlan(IndexOfNthHeading(live, k + 1), IndexOfNthHeading(live, k + 2))) == Parts(live)[k].nodes
       <==> NoEmptyHeading(live[..IndexOfNthReal(live, k + 2)])
  {
    var plan := SplitPlan(IndexOfNthHeading(live, k + 1), IndexOfNthHeading(live, k + 2));
    var start, end := IndexOfNthReal(live, k + 1), IndexOfNthReal(live, k + 2);
    PartIsSlice(live, k);
    NthPartOpensInFragment(live, k + 1);
    CountingNodesFindsIt(live, k + 1);
    CountingNodesFindsIt(live, k + 2);
    if NoEmptyHeading(live[..end]) {
      NoneInFront(live, start, end);
    } else if Kept(live, plan) == live[start..end] {
      SameStretch(live, plan.deleteLeadingUntil, plan.deleteFrom, start, end);
    }
  }

  lemma {:induction false} NoneInFront(bs: seq<Block>, a: nat, b: nat)
    requires a <= b <= |bs| && NoEmptyHeading(bs[..b])
    ensures NoEmptyHeading(bs[..a])
  {
    forall i | 0 <= i < a ensures !IsEmptyHeading(bs[..a][i]) { assert !IsEmptyHeading(bs[..b][i]); }
  }

  lemma {:induction false} CutLeavesTheLeadingPart(live: seq<Block>)
    requires Parts(live) != []
    ensures Kept(live, SplitPlan(0, IndexOfNthHeading(live, 1))) == Leading(live)
       <==> NoEmptyHeading(live[..IndexOfNthReal(live, 1)])
  {
    NthPartOpensInFragment(live, 1);
    CountingNodesFindsIt(live, 1);
    assert Nodes(Parts(live)[..0]) == [];
  }

  // The nodes the fragment is meant to keep, and where they end.
  function SurvivorNodes(live: seq<Block>, change: Change): seq<Block> {
    match change
    case SectionSplit(before, _, _) => if |before| < |Parts(live)| then Parts(live)[|before|].nodes else []
    case _ => Leading(live)
  }

  function SurvivorEnd(live: seq<Block>, change: Change): (end: nat)
    ensures end <= |live|
  {
    match change
    case SectionSplit(before, _, _) => IndexOfNthReal(live, |before| + 2)
    case _ => IndexOfNthReal(live, 1)
  }

  /** After the two deletions the fragment is exactly the survivor's nodes, ids and all, if and only if no empty heading
    * stands before the end of the survivor. The plan is made on the whole live fragment, the change on what was left of
    * it after the leading cut. */
  lemma {:induction false} SplitKeepsExactlyTheSurvivor(live: seq<Block>, identity: Identity, change: Change)
    requires DistinctIds(live) && (change.RootSplit? || change.SectionSplit?)
    requires ClassifyStructuralChange(Remainder(live, identity), identity) == Some(change)
    ensures Kept(live, ComputeSplitPlan(live, change)) == SurvivorNodes(live, change)
       <==> NoEmptyHeading(live[..SurvivorEnd(live, change)])
  {
    SurvivorIsListed(live, identity, change);
    CutLeavesTheSurvivor(live, change);
  }

  lemma {:induction false} SurvivorIsListed(live: seq<Block>, identity: Identity, change: Change)
    requires ClassifyStructuralChange(Remainder(live, identity), identity) == Some(change)
    ensures change.RootSplit? ==> Parts(live) != []
    ensures change.SectionSplit? ==> |change.before| < |Parts(live)|
  {
    CuttingMakesClassifyingTotal(live, identity);
    SplitListsEverySection(Remainder(live, identity), identity);
  }

  lemma {:induction false} CutLeavesTheSurvivor(live: seq<Block>, change: Change)
    requires DistinctIds(live) && (change.RootSplit? || change.SectionSplit?)
    requires change.RootSplit? ==> Parts(live) != []
    requires change.SectionSplit? ==> |change.before| < |Parts(live)|
    ensures Kept(live, ComputeSplitPlan(live, change)) == SurvivorNodes(live, change)
       <==> NoEmptyHeading(live[..SurvivorEnd(live, change)])
  {
    if change.RootSplit? {
      CutLeavesTheLeadingPart(live);
    } else {
      CutLeavesThePart(live, |change.before|);
    }
  }

  // With distinct ids a stretch of nodes stands in one place only.
  lemma {:induction false} SameStretch(bs: seq<Block>, a: nat, b: nat, c: nat, d: nat)
    requires DistinctIds(bs) && a <= b <= |bs| && c < d <= |bs| && bs[a..b] == bs[c..d]
    ensures a == c && b == d
  {
    assert bs[a..b][0] == bs[c..d][0];
    assert bs[a].id == bs[c].id;
  }
}
