/**
 * The blocks of a fragment as a reader sees them, and what the array operations of
 * backend/src/crdt/body-move-markdown.ts do to them.
 *
 * A list is not a block of its own here: its entries are, each with the kind of list it stands in. Splitting a list
 * in two, or removing one that has no entries left, therefore changes no block, and taking out and putting in are
 * statements about one sequence.
 */
module BodyAtoms {
  import opened Basics
  import opened BodyMove

  // A block as a reader sees it: a root that is no list, or one entry of a list, which kind of list and which one.
  datatype Atom = Plain(node: Node) | Entry(listId: nat, listKind: Kind, node: Node)

  function Entries(list: Node, items: seq<Node>): seq<Atom> {
    seq(|items|, i requires 0 <= i < |items| => Entry(list.id, list.kind, items[i]))
  }

  function AtomsOf(n: Node): seq<Atom> {
    if IsList(n) then Entries(n, n.content) else [Plain(n)]
  }

  function Atoms(d: Doc): seq<Atom> {
    if d == [] then [] else AtomsOf(d[0]) + Atoms(d[1..])
  }

  lemma {:induction false} AtomsOfBoth(a: Doc, b: Doc)
    ensures Atoms(a + b) == Atoms(a) + Atoms(b)
  {
    if a == [] {
      assert a + b == b;
    } else {
      assert (a + b)[1..] == a[1..] + b;
      AtomsOfBoth(a[1..], b);
    }
  }

  lemma {:induction false} AtomsOfOne(n: Node)
    ensures Atoms([n]) == AtomsOf(n)
  {
    assert [n][1..] == [];
  }

  lemma {:induction false} AtomsAround(d: Doc, r: nat)
    requires r < |d|
    ensures Atoms(d) == Atoms(d[..r]) + AtomsOf(d[r]) + Atoms(d[r + 1..])
    ensures Atoms(d[..r + 1]) == Atoms(d[..r]) + AtomsOf(d[r])
  {
    assert d[..r + 1] == d[..r] + [d[r]] && d == d[..r + 1] + d[r + 1..];
    AtomsOfBoth(d[..r], [d[r]]);
    AtomsOfBoth(d[..r + 1], d[r + 1..]);
    AtomsOfOne(d[r]);
  }

  // How many blocks stand before a place, and how many it holds.
  function Before(d: Doc, l: Loc): nat
    requires ValidLoc(d, l)
  {
    match l
    case AtRoot(i) => |Atoms(d[..i])|
    case InList(r, i) => |Atoms(d[..r])| + i
  }

  function Width(d: Doc, l: Loc): nat
    requires ValidLoc(d, l)
  {
    match l
    case AtRoot(i) => |AtomsOf(d[i])|
    case InList(_, _) => 1
  }

  lemma {:induction false} InBounds(d: Doc, l: Loc)
    requires ValidLoc(d, l)
    ensures Before(d, l) + Width(d, l) <= |Atoms(d)|
  {
    AtomsAround(d, if l.AtRoot? then l.i else l.r);
  }

  // ---- taking out ----------------------------------------------------------------------------------------------

  lemma {:induction false} OtherItems(d: Doc, r: nat, items: seq<Node>)
    requires r < |d| && IsList(d[r])
    ensures Atoms(WithItems(d, r, items)) == Atoms(d[..r]) + Entries(d[r], items) + Atoms(d[r + 1..])
    ensures WithItems(d, r, items)[..r] == d[..r]
  {
    var e := WithItems(d, r, items);
    AtomsAround(e, r);
    assert e[..r] == d[..r] && e[r + 1..] == d[r + 1..];
    assert AtomsOf(e[r]) == Entries(d[r], items);
  }

  lemma {:induction false} TakingOutRoot(d: Doc, i: nat)
    requires i < |d|
    ensures |Atoms(d[..i])| + |AtomsOf(d[i])| <= |Atoms(d)|
    ensures Atoms(Without(d, i)) == Atoms(d)[..|Atoms(d[..i])|] + Atoms(d)[|Atoms(d[..i])| + |AtomsOf(d[i])|..]
  {
    AtomsAround(d, i);
    AtomsOfBoth(d[..i], d[i + 1..]);
    CutMiddle(Atoms(d), Atoms(d[..i]), AtomsOf(d[i]), Atoms(d[i + 1..]));
  }

  lemma {:induction false} CutMiddle(all: seq<Atom>, a: seq<Atom>, b: seq<Atom>, c: seq<Atom>)
    requires all == a + b + c
    ensures |a| + |b| <= |all| && all[..|a|] + all[|a| + |b|..] == a + c
  {
  }

  lemma {:induction false} TakingOutItem(d: Doc, r: nat, i: nat)
    requires r < |d| && IsList(d[r]) && i < |d[r].content|
    ensures |Atoms(d[..r])| + i + 1 <= |Atoms(d)|
    ensures Atoms(WithItems(d, r, Without(d[r].content, i)))
         == Atoms(d)[..|Atoms(d[..r])| + i] + Atoms(d)[|Atoms(d[..r])| + i + 1..]
  {
    var list := d[r];
    AtomsAround(d, r);
    OtherItems(d, r, Without(list.content, i));
    assert Entries(list, Without(list.content, i)) == Entries(list, list.content)[..i] + Entries(list, list.content)[i + 1..];
    CutInside(Atoms(d[..r]), Entries(list, list.content), Atoms(d[r + 1..]), i);
  }

  /** Taking a block out takes its atoms out and nothing else. */
  lemma {:induction false} TakingOut(d: Doc, src: Loc)
    requires ValidLoc(d, src)
    ensures Before(d, src) + Width(d, src) <= |Atoms(d)|
    ensures Atoms(TakenOut(d, src)) == Atoms(d)[..Before(d, src)] + Atoms(d)[Before(d, src) + Width(d, src)..]
  {
    match src
    case AtRoot(i) => TakingOutRoot(d, i);
    case InList(r, i) => TakingOutItem(d, r, i);
  }

  lemma {:induction false} CutInside(a: seq<Atom>, b: seq<Atom>, c: seq<Atom>, i: nat)
    requires i < |b|
    ensures (a + b + c)[..|a| + i] + (a + b + c)[|a| + i + 1..] == a + (b[..i] + b[i + 1..]) + c
  {
  }

  // A list without items holds no block, so removing it changes no atom.
  lemma {:induction false} RemovingAnEmptyList(d: Doc, r: nat)
    requires r < |d| && IsList(d[r]) && d[r].content == []
    ensures Atoms(Without(d, r)) == Atoms(d)
  {
    AtomsAround(d, r);
    AtomsOfBoth(d[..r], d[r + 1..]);
    assert AtomsOf(d[r]) == [];
    assert Atoms(d[..r]) + [] == Atoms(d[..r]);
  }

  // ---- putting in ----------------------------------------------------------------------------------------------

  function PutIn(all: seq<Atom>, at: nat, new_: seq<Atom>): seq<Atom>
    requires at <= |all|
  {
    all[..at] + new_ + all[at..]
  }

  // What the incoming nodes are as atoms at this place.
  function Incoming(d: Doc, at: Loc, fit: Fit): seq<Atom> {
    match at
    case InList(r, i) =>
      if r < |d| && fit(ItemSlot).Some? then Entries(d[r], fit(ItemSlot).value)
      else (match fit(RootSlot) case Some(nodes) => Atoms(nodes) case None => [])
    case AtRoot(i) => (match fit(RootSlot) case Some(nodes) => Atoms(nodes) case None => [])
  }

  // The number of atoms in front of where an insertion at this place puts the incoming ones.
  function InsertPoint(d: Doc, at: Loc, edge: Edge): nat {
    match at
    case AtRoot(i) => |Atoms(d[..if InsertIndex(i, edge) <= |d| then InsertIndex(i, edge) else |d|])|
    case InList(r, i) =>
      if r < |d| then
        |Atoms(d[..r])| + if InsertIndex(i, edge) <= |d[r].content| then InsertIndex(i, edge) else |d[r].content|
      else 0
  }

  lemma {:induction false} SplicingRoots(d: Doc, i: nat, nodes: seq<Node>)
    requires i <= |d|
    ensures |Atoms(d[..i])| <= |Atoms(d)|
    ensures Atoms(d[..i] + nodes + d[i..]) == PutIn(Atoms(d), |Atoms(d[..i])|, Atoms(nodes))
  {
    AtomsOfBoth(d[..i], d[i..]);
    assert d == d[..i] + d[i..];
    AtomsOfBoth(d[..i] + nodes, d[i..]);
    AtomsOfBoth(d[..i], nodes);
  }

  lemma {:induction false} SplicingItems(d: Doc, r: nat, i: nat, items: seq<Node>)
    requires r < |d| && IsList(d[r]) && i <= |d[r].content|
    ensures |Atoms(d[..r])| + i <= |Atoms(d)|
    ensures Atoms(WithItems(d, r, d[r].content[..i] + items + d[r].content[i..]))
         == PutIn(Atoms(d), |Atoms(d[..r])| + i, Entries(d[r], items))
  {
    var list := d[r];
    var all := Entries(list, list.content);
    AtomsAround(d, r);
    OtherItems(d, r, list.content[..i] + items + list.content[i..]);
    assert Entries(list, list.content[..i] + items + list.content[i..]) == all[..i] + Entries(list, items) + all[i..];
    PutInside(Atoms(d[..r]), all, Atoms(d[r + 1..]), i, Entries(list, items));
  }

  lemma {:induction false} PutInside(a: seq<Atom>, b: seq<Atom>, c: seq<Atom>, i: nat, new_: seq<Atom>)
    requires i <= |b|
    ensures PutIn(a + b + c, |a| + i, new_) == a + (b[..i] + new_ + b[i..]) + c
  {
    var all := a + b + c;
    assert all[..|a| + i] == a + b[..i] && all[|a| + i..] == b[i..] + c;
  }

  lemma {:induction false} SplittingAList(list: Node, at: nat, nodes: seq<Node>)
    requires IsList(list)
    ensures var i := if at <= |list.content| then at else |list.content|;
      Atoms(SplitList(list, at, nodes)) == Entries(list, list.content)[..i] + Atoms(nodes) + Entries(list, list.content)[i..]
  {
    var i := if at <= |list.content| then at else |list.content|;
    var front: Doc := if i > 0 then [list.(content := list.content[..i])] else [];
    var back: Doc := if i < |list.content| then [list.(content := list.content[i..])] else [];
    AtomsOfBoth(front + nodes, back);
    AtomsOfBoth(front, nodes);
    if i > 0 { AtomsOfOne(front[0]); }
    if i < |list.content| { AtomsOfOne(back[0]); }
    assert Atoms(front) == Entries(list, list.content)[..i];
    assert Atoms(back) == Entries(list, list.content)[i..];
  }

  /** An insertion puts the incoming atoms at one point and keeps all others in order. */
  lemma {:induction false} Inserting(d: Doc, at: Loc, edge: Edge, fit: Fit)
    requires at.InList? ==> at.r < |d| && IsList(d[at.r])
    requires Inserted(d, at, edge, fit).Some?
    ensures InsertPoint(d, at, edge) <= |Atoms(d)|
    ensures Atoms(Inserted(d, at, edge, fit).value) == PutIn(Atoms(d), InsertPoint(d, at, edge), Incoming(d, at, fit))
  {
    match at
    case AtRoot(i) => InsertingAtRoot(d, InsertIndex(i, edge), fit(RootSlot).value);
    case InList(r, i) => InsertingIntoList(d, r, i, edge, fit);
  }

  lemma {:induction false} InsertingIntoList(d: Doc, r: nat, i: nat, edge: Edge, fit: Fit)
    requires r < |d| && IsList(d[r]) && Inserted(d, InList(r, i), edge, fit).Some?
    ensures InsertPoint(d, InList(r, i), edge) <= |Atoms(d)|
    ensures Atoms(Inserted(d, InList(r, i), edge, fit).value)
         == PutIn(Atoms(d), InsertPoint(d, InList(r, i), edge), Incoming(d, InList(r, i), fit))
  {
    if fit(ItemSlot).Some? {
      InsertingAsItems(d, r, i, edge, fit);
    } else {
      InsertingAsRoots(d, r, i, edge, fit);
    }
  }

  lemma {:induction false} InsertingAsItems(d: Doc, r: nat, i: nat, edge: Edge, fit: Fit)
    requires r < |d| && IsList(d[r]) && fit(ItemSlot).Some?
    ensures InsertPoint(d, InList(r, i), edge) <= |Atoms(d)|
    ensures Inserted(d, InList(r, i), edge, fit).Some?
    ensures Atoms(Inserted(d, InList(r, i), edge, fit).value)
         == PutIn(Atoms(d), InsertPoint(d, InList(r, i), edge), Incoming(d, InList(r, i), fit))
  {
    InsertingItems(d, r, InsertIndex(i, edge), fit(ItemSlot).value);
  }

  lemma {:induction false} InsertingAsRoots(d: Doc, r: nat, i: nat, edge: Edge, fit: Fit)
    requires r < |d| && IsList(d[r]) && fit(ItemSlot).None? && fit(RootSlot).Some?
    ensures InsertPoint(d, InList(r, i), edge) <= |Atoms(d)|
    ensures Inserted(d, InList(r, i), edge, fit).Some?
    ensures Atoms(Inserted(d, InList(r, i), edge, fit).value)
         == PutIn(Atoms(d), InsertPoint(d, InList(r, i), edge), Incoming(d, InList(r, i), fit))
  {
    InsertingByCutting(d, r, InsertIndex(i, edge), fit(RootSlot).value);
  }

  lemma {:induction false} InsertingAtRoot(d: Doc, index: nat, nodes: seq<Node>)
    ensures var i := if index <= |d| then index else |d|;
      && |Atoms(d[..i])| <= |Atoms(d)|
      && Atoms(Spliced(d, index, nodes)) == PutIn(Atoms(d), |Atoms(d[..i])|, Atoms(nodes))
  {
    var i := if index <= |d| then index else |d|;
    SplicingRoots(d, i, nodes);
    assert Spliced(d, index, nodes) == d[..i] + nodes + d[i..];
  }

  lemma {:induction false} InsertingItems(d: Doc, r: nat, index: nat, items: seq<Node>)
    requires r < |d| && IsList(d[r])
    ensures var i := if index <= |d[r].content| then index else |d[r].content|;
      && |Atoms(d[..r])| + i <= |Atoms(d)|
      && Atoms(WithItems(d, r, Spliced(d[r].content, index, items))) == PutIn(Atoms(d), |Atoms(d[..r])| + i, Entries(d[r], items))
  {
    var old_ := d[r].content;
    var i := if index <= |old_| then index else |old_|;
    SplicingItems(d, r, i, items);
    assert Spliced(old_, index, items) == old_[..i] + items + old_[i..];
  }

  lemma {:induction false} InsertingByCutting(d: Doc, r: nat, index: nat, nodes: seq<Node>)
    requires r < |d| && IsList(d[r])
    ensures var i := if index <= |d[r].content| then index else |d[r].content|;
      && |Atoms(d[..r])| + i <= |Atoms(d)|
      && Atoms(d[..r] + SplitList(d[r], index, nodes) + d[r + 1..]) == PutIn(Atoms(d), |Atoms(d[..r])| + i, Atoms(nodes))
  {
    var i := if index <= |d[r].content| then index else |d[r].content|;
    AtomsAround(d, r);
    SplittingAList(d[r], index, nodes);
    AtomsOfThree(d[..r], SplitList(d[r], index, nodes), d[r + 1..]);
    CutInFront(Atoms(d[..r]), Entries(d[r], d[r].content), Atoms(d[r + 1..]), i, Atoms(nodes), Atoms(d));
  }

  lemma {:induction false} AtomsOfThree(a: Doc, b: Doc, c: Doc)
    ensures Atoms(a + b + c) == Atoms(a) + Atoms(b) + Atoms(c)
  {
    AtomsOfBoth(a + b, c);
    AtomsOfBoth(a, b);
  }

  lemma {:induction false} CutInFront(a: seq<Atom>, b: seq<Atom>, c: seq<Atom>, i: nat, new_: seq<Atom>, all: seq<Atom>)
    requires i <= |b| && all == a + b + c
    ensures |a| + i <= |all| && PutIn(all, |a| + i, new_) == a + (b[..i] + new_ + b[i..]) + c
  {
    PutInside(a, b, c, i, new_);
  }
}
