/** Moving one block of a fragment next to another, by splicing the arrays of a two-level document. */
module BodyMove {
  import opened Basics

  // What the program tells apart of a node's type. An `Other` root takes no part in addressing.
  datatype Kind = Owner | BulletList | OrderedList | Item | Other

  datatype Node = Node(id: nat, kind: Kind, content: seq<Node>)

  type Doc = seq<Node>

  datatype Edge = BeforeTarget | AfterTarget
  datatype Slot = RootSlot | ItemSlot

  // How the incoming block fits a slot: the nodes to put there, or not at all.
  type Fit = Slot -> Option<seq<Node>>

  datatype Address = RootAddress(n: nat) | ItemAddress(n: nat, k: nat)

  // A place found by an address. The program holds the parent array itself; here its list is named by its place.
  datatype Loc = AtRoot(i: nat) | InList(r: nat, i: nat)

  predicate IsList(n: Node) { n.kind.BulletList? || n.kind.OrderedList? }

  predicate IsRootOwner(n: Node) { n.kind.Owner? || IsList(n) }

  predicate ValidLoc(d: Doc, l: Loc) {
    match l
    case AtRoot(i) => i < |d|
    case InList(r, i) => r < |d| && IsList(d[r]) && i < |d[r].content|
  }

  // ---- locating ------------------------------------------------------------------------------------------------

  // The index of the n-th root owner, counted from nought.
  function NthOwner(d: Doc, n: nat): (i: Option<nat>)
    ensures i.Some? ==> i.value < |d| && IsRootOwner(d[i.value])
  {
    if d == [] then None
    else if IsRootOwner(d[0]) && n == 0 then Some(0)
    else match NthOwner(d[1..], if IsRootOwner(d[0]) then n - 1 else n)
      case None => None
      case Some(i) => Some(i + 1)
  }

  function NthItem(items: seq<Node>, n: nat): (i: Option<nat>)
    ensures i.Some? ==> i.value < |items| && items[i.value].kind.Item?
  {
    if items == [] then None
    else if items[0].kind.Item? && n == 0 then Some(0)
    else match NthItem(items[1..], if items[0].kind.Item? then n - 1 else n)
      case None => None
      case Some(i) => Some(i + 1)
  }

  function Located(d: Doc, a: Address): (l: Option<Loc>)
    ensures l.Some? ==> ValidLoc(d, l.value)
  {
    match NthOwner(d, a.n)
    case None => None
    case Some(r) =>
      if a.RootAddress? then Some(AtRoot(r))
      else if !IsList(d[r]) then None
      else match NthItem(d[r].content, a.k)
        case None => None
        case Some(i) => Some(InList(r, i))
  }

  method LocatePmOwner(d: Doc, a: Address) returns (l: Option<Loc>)
    ensures l == Located(d, a)
  {
    var root := LocateRootOwner(d, a.n);
    if root.None? { return None; }
    if a.RootAddress? { return Some(AtRoot(root.value)); }
    if !IsList(d[root.value]) { return None; }
    var item := LocateItem(d[root.value].content, a.k);
    return if item.None? then None else Some(InList(root.value, item.value));
  }

  method LocateRootOwner(d: Doc, n: nat) returns (found: Option<nat>)
    ensures found == NthOwner(d, n)
  {
    var rootIndex := 0;
    assert d[0..] == d;
    for i := 0 to |d|
      invariant rootIndex <= n
      invariant NthOwner(d, n) == Shifted(NthOwner(d[i..], n - rootIndex), i)
    {
      NextOwner(d, i, n - rootIndex);
      ShiftedTwice(NthOwner(d[i + 1..], if IsRootOwner(d[i]) && rootIndex < n then n - rootIndex - 1 else n - rootIndex), i);
      if !IsRootOwner(d[i]) { continue; }
      if rootIndex == n { return Some(i); }
      rootIndex := rootIndex + 1;
    }
    assert d[|d|..] == [];
    return None;
  }

  lemma {:induction false} ShiftedTwice(o: Option<nat>, i: nat)
    ensures Shifted(Shifted(o, 1), i) == Shifted(o, i + 1)
  {
  }

  method LocateItem(items: seq<Node>, n: nat) returns (found: Option<nat>)
    ensures found == NthItem(items, n)
  {
    var itemIndex := 0;
    assert items[0..] == items;
    for i := 0 to |items|
      invariant itemIndex <= n
      invariant NthItem(items, n) == Shifted(NthItem(items[i..], n - itemIndex), i)
    {
      NextItem(items, i, n - itemIndex);
      ShiftedTwice(NthItem(items[i + 1..], if items[i].kind.Item? && itemIndex < n then n - itemIndex - 1 else n - itemIndex), i);
      if !items[i].kind.Item? { continue; }
      if itemIndex == n { return Some(i); }
      itemIndex := itemIndex + 1;
    }
    return None;
  }

  lemma {:induction false} NextOwner(d: Doc, i: nat, n: nat)
    requires i < |d|
    ensures NthOwner(d[i..], n) == if IsRootOwner(d[i]) && n == 0 then Some(0)
                                   else Shifted(NthOwner(d[i + 1..], if IsRootOwner(d[i]) then n - 1 else n), 1)
  {
    assert d[i..][0] == d[i] && d[i..][1..] == d[i + 1..];
  }

  lemma {:induction false} NextItem(items: seq<Node>, i: nat, n: nat)
    requires i < |items|
    ensures NthItem(items[i..], n) == if items[i].kind.Item? && n == 0 then Some(0)
                                      else Shifted(NthItem(items[i + 1..], if items[i].kind.Item? then n - 1 else n), 1)
  {
    assert items[i..][0] == items[i] && items[i..][1..] == items[i + 1..];
  }

  function Shifted(o: Option<nat>, n: nat): Option<nat> {
    match o
    case None => None
    case Some(i) => Some(i + n)
  }

  // ---- splicing ------------------------------------------------------------------------------------------------

  function Without(s: seq<Node>, i: nat): seq<Node>
    requires i < |s|
  {
    s[..i] + s[i + 1..]
  }

  // An insertion index past the end is taken as the end.
  function Spliced(s: seq<Node>, i: nat, nodes: seq<Node>): seq<Node> {
    if i <= |s| then s[..i] + nodes + s[i..] else s + nodes
  }

  function WithItems(d: Doc, r: nat, items: seq<Node>): Doc
    requires r < |d|
  {
    d[r := d[r].(content := items)]
  }

  function TakenOut(d: Doc, src: Loc): Doc
    requires ValidLoc(d, src)
  {
    match src
    case AtRoot(i) => Without(d, i)
    case InList(r, i) => WithItems(d, r, Without(d[r].content, i))
  }

  predicate Emptied(d: Doc, src: Loc)
    requires ValidLoc(d, src)
  {
    src.InList? && |d[src.r].content| == 1
  }

  // The list of a target, by reference, after the root at `gone` has gone.
  function After(gone: nat, r: nat): nat { if gone < r then r - 1 else r }

  // Where the program looks for the target once the source is out: a root index is put right for a source that was a
  // root itself, but not for a source list that was emptied and removed.
  function TargetAfter(d: Doc, src: Loc, tgt: Loc): Loc
    requires ValidLoc(d, src)
  {
    match (src, tgt)
    case (AtRoot(s), AtRoot(t)) => AtRoot(if s < t then t - 1 else t)
    case (AtRoot(s), InList(r, j)) => InList(After(s, r), j)
    case (InList(r, i), AtRoot(t)) => tgt
    case (InList(r, i), InList(r', j)) =>
      if r == r' then InList(r, if i < j then j - 1 else j)
      else if Emptied(d, src) then InList(After(r, r'), j)
      else tgt
  }

  function InsertIndex(i: nat, edge: Edge): nat { if edge.BeforeTarget? then i else i + 1 }

  function Inserted(d: Doc, at: Loc, edge: Edge, fit: Fit): Option<Doc> {
    match at
    case AtRoot(i) =>
      (match fit(RootSlot) case None => None case Some(nodes) => Some(Spliced(d, InsertIndex(i, edge), nodes)))
    case InList(r, i) =>
      if r >= |d| then None
      else
        match fit(ItemSlot)
        case Some(items) => Some(WithItems(d, r, Spliced(d[r].content, InsertIndex(i, edge), items)))
        case None =>
          match fit(RootSlot)
          case None => None
          case Some(nodes) => Some(d[..r] + SplitList(d[r], InsertIndex(i, edge), nodes) + d[r + 1..])
  }

  // A list cut in two around nodes that cannot be items; a part without items is left out.
  function SplitList(list: Node, at: nat, nodes: seq<Node>): seq<Node> {
    var cut := if at <= |list.content| then at else |list.content|;
    (if cut > 0 then [list.(content := list.content[..cut])] else [])
    + nodes
    + (if cut < |list.content| then [list.(content := list.content[cut..])] else [])
  }

  function Moved(d: Doc, src: Loc, tgt: Loc, edge: Edge, fit: Fit): Option<Doc>
    requires ValidLoc(d, src) && ValidLoc(d, tgt)
  {
    if Emptied(d, src) then
      var rest := Without(TakenOut(d, src), src.r);
      if tgt == AtRoot(src.r) || (tgt.InList? && tgt.r == src.r) then
        (match fit(RootSlot) case None => None case Some(nodes) => Some(Spliced(rest, src.r, nodes)))
      else Inserted(rest, TargetAfter(d, src, tgt), edge, fit)
    else Inserted(TakenOut(d, src), TargetAfter(d, src, tgt), edge, fit)
  }

  // What the source fragment is left with when the target is in another fragment.
  function LeftBehind(d: Doc, src: Loc): Doc
    requires ValidLoc(d, src)
  {
    if Emptied(d, src) then Without(TakenOut(d, src), src.r) else TakenOut(d, src)
  }

  // The move between two fragments. Two fragments that read the same are taken for one.
  function AppliedBodyMove(source: Doc, target: Doc, src: Loc, tgt: Loc, edge: Edge, fit: Fit): Option<(Doc, Doc)>
    requires ValidLoc(source, src) && ValidLoc(target, tgt)
  {
    if source == target then
      (match Moved(source, src, tgt, edge, fit) case None => None case Some(d) => Some((d, d)))
    else
      (match Inserted(target, tgt, edge, fit) case None => None case Some(d) => Some((LeftBehind(source, src), d)))
  }

  // The target is not the source and not inside it.
  predicate Apart(src: Loc, tgt: Loc) {
    src != tgt && !(src.AtRoot? && tgt.InList? && tgt.r == src.i)
  }

  class PmDoc {
    var content: Doc

    constructor (d: Doc)
      ensures content == d
    {
      content := d;
    }

    /** One array operation of the program: `length` nodes at `index` of the root array give way to `nodes`. */
    method SpliceRoots(index: nat, length: nat, nodes: seq<Node>)
      requires length == 0 || index + length <= |content|
      modifies this
      ensures content == if length == 0 then Spliced(old(content), index, nodes)
                         else old(content)[..index] + nodes + old(content)[index + length..]
    {
      if index <= |content| {
        content := content[..index] + nodes + content[index + length..];
      } else {
        content := content + nodes;
      }
    }

    method SetItems(r: nat, items: seq<Node>)
      requires r < |content|
      modifies this
      ensures content == WithItems(old(content), r, items)
    {
      content := content[r := content[r].(content := items)];
    }

    method InsertIncomingAtLocation(at: Loc, edge: Edge, fit: Fit) returns (ok: bool)
      modifies this
      ensures ok <==> Inserted(old(content), at, edge, fit).Some?
      ensures content == Inserted(old(content), at, edge, fit).GetOr(old(content))
    {
      var index := InsertIndex(at.i, edge);
      if at.InList? {
        if at.r >= |content| { return false; }
        var list := content[at.r];
        var asItems := fit(ItemSlot);
        if asItems.Some? {
          SetItems(at.r, Spliced(list.content, index, asItems.value));
          return true;
        }
        var asRoot := fit(RootSlot);
        if asRoot.None? { return false; }
        var cut := if index <= |list.content| then index else |list.content|;
        var before, after := list.content[..cut], list.content[cut..];
        var replacement: seq<Node> := [];
        if |before| > 0 { replacement := replacement + [list.(content := before)]; }
        replacement := replacement + asRoot.value;
        if |after| > 0 { replacement := replacement + [list.(content := after)]; }
        assert replacement == SplitList(list, index, asRoot.value);
        SpliceRoots(at.r, 1, replacement);
        return true;
      }
      var nodes := fit(RootSlot);
      if nodes.None? { return false; }
      SpliceRoots(index, 0, nodes.value);
      return true;
    }

    /** The whole move inside one fragment; when it is refused the fragment is not written back. */
    method ApplySameFragmentMove(source: Address, target: Address, edge: Edge, fit: Fit) returns (ok: bool)
      modifies this
      ensures ok <==>
        && Located(old(content), source).Some? && Located(old(content), target).Some?
        && Moved(old(content), Located(old(content), source).value, Located(old(content), target).value, edge, fit).Some?
      ensures ok ==>
        content == Moved(old(content), Located(old(content), source).value, Located(old(content), target).value, edge, fit).value
    {
      var s := LocatePmOwner(content, source);
      var t := LocatePmOwner(content, target);
      if s.None? || t.None? { return false; }
      var src, tgt := s.value, t.value;
      ghost var was := content;
      var emptied := false;
      match src {
        case AtRoot(i) =>
          SpliceRoots(i, 1, []);
          assert content == Without(was, i);
        case InList(r, i) =>
          emptied := |content[r].content| == 1;
          SetItems(r, Without(content[r].content, i));
      }
      assert content == TakenOut(was, src);
      var at := tgt;
      var sameSiblings := if src.AtRoot? then tgt.AtRoot? else tgt.InList? && tgt.r == src.r;
      if sameSiblings && src.i < at.i { at := at.(i := at.i - 1); }
      if emptied {
        SpliceRoots(src.r, 1, []);
        assert content == Without(TakenOut(was, src), src.r);
        if tgt == AtRoot(src.r) || (tgt.InList? && tgt.r == src.r) {
          var nodes := fit(RootSlot);
          if nodes.None? { return false; }
          SpliceRoots(src.r, 0, nodes.value);
          return true;
        }
      }
      // The target's list is the same object wherever it stands now.
      if at.InList? && src.AtRoot? { at := at.(r := After(src.i, at.r)); }
      if at.InList? && emptied { at := at.(r := After(src.r, at.r)); }
      assert at == TargetAfter(was, src, tgt);
      ok := InsertIncomingAtLocation(at, edge, fit);
    }
  }
}
