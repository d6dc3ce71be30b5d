/** What a body move keeps: every other block, in its order, and where the moved block lands. */
module BodyMoveKeepsBlocks {
  import opened Basics
  import opened BodyMove
  import opened BodyAtoms

  // ---- where the incoming block belongs ------------------------------------------------------------------------

  predicate NoEmptyLists(d: Doc) { forall i :: 0 <= i < |d| && IsList(d[i]) ==> d[i].content != [] }

  // The atoms of the document without those of the source.
  function Rest(d: Doc, src: Loc): seq<Atom>
    requires ValidLoc(d, src)
  {
    InBounds(d, src);
    Atoms(d)[..Before(d, src)] + Atoms(d)[Before(d, src) + Width(d, src)..]
  }

  // The point of `Rest` that a point of the whole document becomes; points inside the source become its place.
  function Point(d: Doc, src: Loc, p: nat): nat
    requires ValidLoc(d, src)
  {
    if p <= Before(d, src) then p
    else if p >= Before(d, src) + Width(d, src) then p - Width(d, src)
    else Before(d, src)
  }

  // Directly before or directly after the target.
  function RightPoint(d: Doc, src: Loc, tgt: Loc, edge: Edge): nat
    requires ValidLoc(d, src) && ValidLoc(d, tgt)
  {
    Point(d, src, Before(d, tgt) + if edge.BeforeTarget? then 0 else Width(d, tgt))
  }

  /** An emptied source list stood before a root target, and the slot one further on is another one. */
  predicate Slips(d: Doc, src: Loc, tgt: Loc, edge: Edge)
    requires ValidLoc(d, src) && ValidLoc(d, tgt)
  {
    Emptied(d, src) && tgt.AtRoot? && src.r < tgt.i && (edge.BeforeTarget? || tgt.i + 1 < |d|)
  }

  // Where the move does put it.
  function LandingPoint(d: Doc, src: Loc, tgt: Loc, edge: Edge): nat
    requires ValidLoc(d, src) && ValidLoc(d, tgt)
  {
    RightPoint(d, src, tgt, edge)
    + if !Slips(d, src, tgt, edge) then 0
      else if edge.BeforeTarget? then Width(d, tgt)
      else Width(d, AtRoot(tgt.i + 1))
  }

  lemma {:induction false} RemovedBefore(d: Doc, i: nat, k: nat)
    requires i < |d| && i < k <= |d|
    ensures |Atoms(Without(d, i)[..k - 1])| + |AtomsOf(d[i])| == |Atoms(d[..k])|
  {
    assert Without(d, i)[..k - 1] == d[..k][..i] + d[..k][i + 1..];
    AtomsAround(d[..k], i);
    AtomsOfBoth(d[..k][..i], d[..k][i + 1..]);
  }

  lemma {:induction false} RemovedAfter(d: Doc, i: nat, k: nat)
    requires i < |d| && k <= i
    ensures Without(d, i)[..k] == d[..k]
  {
  }

  lemma {:induction false} PrefixGrows(d: Doc, a: nat, b: nat)
    requires a <= b <= |d|
    ensures |Atoms(d[..a])| <= |Atoms(d[..b])|
    ensures a < b ==> |Atoms(d[..a])| + |AtomsOf(d[a])| <= |Atoms(d[..b])|
  {
    assert d[..b] == d[..a] + d[a..b];
    AtomsOfBoth(d[..a], d[a..b]);
    if a < b {
      assert d[a..b] == [d[a]] + d[a + 1..b];
      AtomsOfBoth([d[a]], d[a + 1..b]);
      AtomsOfOne(d[a]);
    }
  }

  // A source that is a root itself.
  lemma {:induction false} PointAfterRootTaken(d: Doc, s: nat, t: nat, edge: Edge)
    requires s < |d| && t < |d| && s != t
    ensures var at, e := TargetAfter(d, AtRoot(s), AtRoot(t)), Without(d, s);
      InsertPoint(e, at, edge) == RightPoint(d, AtRoot(s), AtRoot(t), edge)
  {
    var k := if edge.BeforeTarget? then t else t + 1;
    AtomsAround(d, t);
    PrefixAfterRootTaken(d, s, k);
    assert Before(d, AtRoot(s)) == |Atoms(d[..s])| && Width(d, AtRoot(s)) == |AtomsOf(d[s])|;
    assert Before(d, AtRoot(t)) == |Atoms(d[..t])| && Width(d, AtRoot(t)) == |AtomsOf(d[t])|;
  }

  // How many atoms the first k roots, fewer by the one taken out, still have.
  lemma {:induction false} PrefixAfterRootTaken(d: Doc, s: nat, k: nat)
    requires s < |d| && k <= |d|
    ensures s < k ==> |Atoms(Without(d, s)[..k - 1])| + |AtomsOf(d[s])| == |Atoms(d[..k])|
    ensures s < k ==> |Atoms(d[..s])| + |AtomsOf(d[s])| <= |Atoms(d[..k])|
    ensures k <= s ==> Without(d, s)[..k] == d[..k] && |Atoms(d[..k])| <= |Atoms(d[..s])|
  {
    if s < k {
      RemovedBefore(d, s, k);
      PrefixGrows(d, s, k);
    } else {
      RemovedAfter(d, s, k);
      PrefixGrows(d, k, s);
    }
  }

  // Removing a root, and how many atoms stand before another one.
  lemma {:induction false} RootGone(d: Doc, s: nat, r: nat)
    requires s < |d| && r < |d| && s != r
    ensures After(s, r) < |Without(d, s)| && Without(d, s)[After(s, r)] == d[r]
    ensures s < r ==> |Atoms(Without(d, s)[..r - 1])| + |AtomsOf(d[s])| == |Atoms(d[..r])|
    ensures s < r ==> |Atoms(d[..s])| + |AtomsOf(d[s])| <= |Atoms(d[..r])|
    ensures r < s ==> Without(d, s)[..r] == d[..r] && |Atoms(d[..r])| + |AtomsOf(d[r])| <= |Atoms(d[..s])|
  {
    if s < r {
      RemovedBefore(d, s, r);
      PrefixGrows(d, s, r);
    } else {
      RemovedAfter(d, s, r);
      PrefixGrows(d, r, s);
    }
  }

  lemma {:induction false} ItemPointAfterRootTaken(d: Doc, s: nat, r: nat, j: nat, edge: Edge)
    requires s < |d| && ValidLoc(d, InList(r, j)) && s != r
    ensures var at, e := TargetAfter(d, AtRoot(s), InList(r, j)), Without(d, s);
      && at.r < |e| && e[at.r] == d[r]
      && InsertPoint(e, at, edge) == RightPoint(d, AtRoot(s), InList(r, j), edge)
  {
    RootGone(d, s, r);
  }

  // A source that is one of several items of its list.
  lemma {:induction false} PointAfterItemTaken(d: Doc, src: Loc, tgt: Loc, edge: Edge)
    requires ValidLoc(d, src) && src.InList? && !Emptied(d, src) && ValidLoc(d, tgt) && src != tgt
    ensures var at, e := TargetAfter(d, src, tgt), TakenOut(d, src);
      && ValidLoc(e, at)
      && InsertPoint(e, at, edge) == RightPoint(d, src, tgt, edge)
      && (tgt.InList? ==> e[at.r].id == d[tgt.r].id && e[at.r].kind == d[tgt.r].kind)
  {
    match tgt
    case AtRoot(t) => RootPointAfterItemTaken(d, src, t, edge);
    case InList(r, j) => if r == src.r { SameListPoint(d, src, j, edge); } else { OtherListPoint(d, src, r, j, edge); }
  }

  lemma {:induction false} RootPointAfterItemTaken(d: Doc, src: Loc, t: nat, edge: Edge)
    requires ValidLoc(d, src) && src.InList? && !Emptied(d, src) && t < |d|
    ensures InsertPoint(TakenOut(d, src), AtRoot(t), edge) == RightPoint(d, src, AtRoot(t), edge)
  {
    var k := if edge.BeforeTarget? then t else t + 1;
    AtomsAround(d, t);
    ItemTakenPrefix(d, src, k);
  }

  lemma {:induction false} SameListPoint(d: Doc, src: Loc, j: nat, edge: Edge)
    requires ValidLoc(d, src) && src.InList? && !Emptied(d, src) && ValidLoc(d, InList(src.r, j)) && j != src.i
    ensures InsertPoint(TakenOut(d, src), InList(src.r, if src.i < j then j - 1 else j), edge)
         == RightPoint(d, src, InList(src.r, j), edge)
  {
    assert TakenOut(d, src)[..src.r] == d[..src.r];
  }

  lemma {:induction false} OtherListPoint(d: Doc, src: Loc, r: nat, j: nat, edge: Edge)
    requires ValidLoc(d, src) && src.InList? && ValidLoc(d, InList(r, j)) && r != src.r
    ensures InsertPoint(TakenOut(d, src), InList(r, j), edge) == RightPoint(d, src, InList(r, j), edge)
  {
    ItemTakenPrefix(d, src, r);
    if src.r < r {
      PrefixGrows(d, src.r, r);
    } else {
      PrefixGrows(d, r, src.r);
    }
  }

  // How many atoms the first k roots have once an item is out.
  lemma {:induction false} ItemTakenPrefix(d: Doc, src: Loc, k: nat)
    requires ValidLoc(d, src) && src.InList? && k <= |d|
    ensures |Atoms(TakenOut(d, src)[..k])| == Point(d, src, |Atoms(d[..k])|)
  {
    var e, r := TakenOut(d, src), src.r;
    AtomsAround(d, r);
    if k <= r {
      assert e[..k] == d[..k];
      PrefixGrows(d, k, r);
    } else {
      assert e[..k] == WithItems(d[..k], r, Without(d[r].content, src.i));
      OtherItems(d[..k], r, Without(d[r].content, src.i));
      AtomsAround(d[..k], r);
      assert d[..k][..r] == d[..r];
      PrefixGrows(d, r, k);
    }
  }

  // A source that is the only item of its list, which goes with it.
  lemma {:induction false} PointAfterListGone(d: Doc, src: Loc, tgt: Loc, edge: Edge)
    requires ValidLoc(d, src) && Emptied(d, src) && ValidLoc(d, tgt) && src != tgt && tgt != AtRoot(src.r)
    ensures var at, e := TargetAfter(d, src, tgt), Without(TakenOut(d, src), src.r);
      && (at.InList? ==> ValidLoc(e, at) && e[at.r] == d[tgt.r])
      && InsertPoint(e, at, edge) == LandingPoint(d, src, tgt, edge)
  {
    assert Without(TakenOut(d, src), src.r) == Without(d, src.r);
    match tgt
    case AtRoot(t) => RootPointAfterListGone(d, src, t, edge);
    case InList(r, j) => RootGone(d, src.r, r);
  }

  lemma {:induction false} RootPointAfterListGone(d: Doc, src: Loc, t: nat, edge: Edge)
    requires ValidLoc(d, src) && Emptied(d, src) && t < |d| && t != src.r
    ensures InsertPoint(Without(d, src.r), AtRoot(t), edge) == LandingPoint(d, src, AtRoot(t), edge)
  {
    var k := if edge.BeforeTarget? then t else t + 1;
    AtomsAround(d, t);
    if src.r < t {
      SlippedPoint(d, src.r, t, k);
    } else {
      RemovedAfter(d, src.r, k);
      PrefixGrows(d, k, src.r);
    }
  }

  // The slot one too far, taken as the end when there is no such slot.
  lemma {:induction false} SlippedPoint(d: Doc, r: nat, t: nat, k: nat)
    requires r < t < |d| && (k == t || k == t + 1)
    ensures var e := Without(d, r);
      |Atoms(e[..if k <= |e| then k else |e|])|
        == |Atoms(d[..k])| - |AtomsOf(d[r])| + if k < |d| then |AtomsOf(d[k])| else 0
    ensures |Atoms(d[..r])| + |AtomsOf(d[r])| <= |Atoms(d[..k])|
  {
    PrefixGrows(d, r, k);
    if k < |d| {
      RemovedBefore(d, r, k + 1);
      AtomsAround(d, k);
    } else {
      RemovedBefore(d, r, k);
    }
  }

  /** A move whose target is neither the source nor inside it keeps every other block, in order and in its list, and
    * adds the incoming block once, at the landing point. */
  lemma {:induction false} MoveKeepsEveryOtherBlock(d: Doc, src: Loc, tgt: Loc, edge: Edge, fit: Fit)
    requires ValidLoc(d, src) && ValidLoc(d, tgt) && Apart(src, tgt)
    requires Moved(d, src, tgt, edge, fit).Some?
    ensures LandingPoint(d, src, tgt, edge) <= |Rest(d, src)|
    ensures Atoms(Moved(d, src, tgt, edge, fit).value)
         == PutIn(Rest(d, src), LandingPoint(d, src, tgt, edge), Incoming(d, tgt, fit))
  {
    LeavingKeepsTheRest(d, src);
    if Emptied(d, src) && tgt == AtRoot(src.r) {
      ListGivesWay(d, src, edge, fit);
    } else if Emptied(d, src) {
      MoveOfAnOnlyItem(d, src, tgt, edge, fit);
    } else if src.AtRoot? {
      MoveOfARoot(d, src.i, tgt, edge, fit);
    } else {
      MoveOfAnItem(d, src, tgt, edge, fit);
    }
  }

  /** The incoming blocks, at least one, are none of those that stay. */
  predicate IsNews(d: Doc, src: Loc, incoming: seq<Atom>)
    requires ValidLoc(d, src)
  {
    incoming != [] && forall x <- incoming :: x !in Rest(d, src)
  }

  /**
   * The moved document is the rest with the incoming blocks directly beside the target, on the side asked for,
   * exactly when the move does not slip: no emptied list stood in front of a root target, or the slot one further on
   * is the end of the document.
   */
  lemma {:induction false} LandsRightIffItDoesNotSlip(d: Doc, src: Loc, tgt: Loc, edge: Edge, fit: Fit)
    requires ValidLoc(d, src) && ValidLoc(d, tgt) && Apart(src, tgt) && NoEmptyLists(d)
    requires Moved(d, src, tgt, edge, fit).Some? && IsNews(d, src, Incoming(d, tgt, fit))
    ensures RightPoint(d, src, tgt, edge) <= |Rest(d, src)|
    ensures Atoms(Moved(d, src, tgt, edge, fit).value)
              == PutIn(Rest(d, src), RightPoint(d, src, tgt, edge), Incoming(d, tgt, fit))
            <==> !Slips(d, src, tgt, edge)
  {
    MoveKeepsEveryOtherBlock(d, src, tgt, edge, fit);
    if Slips(d, src, tgt, edge) {
      assert LandingPoint(d, src, tgt, edge) > RightPoint(d, src, tgt, edge);
      PuttingInElsewhere(Rest(d, src), RightPoint(d, src, tgt, edge), LandingPoint(d, src, tgt, edge), Incoming(d, tgt, fit));
    }
  }

  // New blocks put in at two places give two documents.
  lemma {:induction false} PuttingInElsewhere(rest: seq<Atom>, p: nat, q: nat, new_: seq<Atom>)
    requires p < q <= |rest| && new_ != [] && forall x <- new_ :: x !in rest
    ensures PutIn(rest, p, new_) != PutIn(rest, q, new_)
  {
    assert PutIn(rest, p, new_)[p] == new_[0] && PutIn(rest, q, new_)[p] == rest[p];
    assert rest[p] in rest && new_[0] in new_;
  }

  /** A list of one item, a paragraph and another: the item moved in front of the first paragraph lands behind it. */
  lemma {:induction false} AMoveThatSlips(list: nat, item: Node, first: Node, second: Node, incoming: Node)
    requires first.kind.Owner? && second.kind.Owner?
    ensures var d := [Node(list, BulletList, [item]), first, second];
      Moved(d, InList(0, 0), AtRoot(1), BeforeTarget, _ => Some([incoming])) == Some([first, incoming, second])
  {
    var d := [Node(list, BulletList, [item]), first, second];
    assert Without(TakenOut(d, InList(0, 0)), 0) == [first, second];
    assert Spliced([first, second], 1, [incoming]) == [first, incoming, second];
  }

  // The move, told from what the source leaves behind.
  ghost predicate LandsIn(d: Doc, src: Loc, tgt: Loc, edge: Edge, fit: Fit)
    requires ValidLoc(d, src) && ValidLoc(d, tgt)
  {
    var left := Atoms(LeftBehind(d, src));
    var at := LandingPoint(d, src, tgt, edge);
    && Moved(d, src, tgt, edge, fit).Some? && at <= |left|
    && Atoms(Moved(d, src, tgt, edge, fit).value) == PutIn(left, at, Incoming(d, tgt, fit))
  }

  // The incoming nodes are the same atoms wherever the target's list stands now.
  lemma {:induction false} SameIncoming(d: Doc, tgt: Loc, e: Doc, at: Loc, fit: Fit)
    requires ValidLoc(d, tgt) && tgt.InList? == at.InList?
    requires at.InList? ==> at.r < |e| && e[at.r].id == d[tgt.r].id && e[at.r].kind == d[tgt.r].kind
    ensures Incoming(e, at, fit) == Incoming(d, tgt, fit)
  {
  }

  // Everything a move does once the source is out: one insertion, at the landing point.
  lemma {:induction false} LandsByInserting(d: Doc, src: Loc, tgt: Loc, at: Loc, e: Doc, edge: Edge, fit: Fit)
    requires ValidLoc(d, src) && ValidLoc(d, tgt) && tgt.InList? == at.InList? && e == LeftBehind(d, src)
    requires at.InList? ==> at.r < |e| && IsList(e[at.r]) && e[at.r].id == d[tgt.r].id && e[at.r].kind == d[tgt.r].kind
    requires Moved(d, src, tgt, edge, fit) == Inserted(e, at, edge, fit) && Inserted(e, at, edge, fit).Some?
    requires InsertPoint(e, at, edge) == LandingPoint(d, src, tgt, edge)
    ensures LandsIn(d, src, tgt, edge, fit)
  {
    Inserting(e, at, edge, fit);
    SameIncoming(d, tgt, e, at, fit);
  }

  lemma {:induction false} MoveOfAnItem(d: Doc, src: Loc, tgt: Loc, edge: Edge, fit: Fit)
    requires ValidLoc(d, src) && ValidLoc(d, tgt) && src != tgt && src.InList? && !Emptied(d, src)
    requires Moved(d, src, tgt, edge, fit).Some?
    ensures LandsIn(d, src, tgt, edge, fit)
  {
    PointAfterItemTaken(d, src, tgt, edge);
    LandsByInserting(d, src, tgt, TargetAfter(d, src, tgt), TakenOut(d, src), edge, fit);
  }

  lemma {:induction false} MoveOfAnOnlyItem(d: Doc, src: Loc, tgt: Loc, edge: Edge, fit: Fit)
    requires ValidLoc(d, src) && ValidLoc(d, tgt) && src != tgt && Emptied(d, src) && tgt != AtRoot(src.r)
    requires Moved(d, src, tgt, edge, fit).Some?
    ensures LandsIn(d, src, tgt, edge, fit)
  {
    PointAfterListGone(d, src, tgt, edge);
    LandsByInserting(d, src, tgt, TargetAfter(d, src, tgt), LeftBehind(d, src), edge, fit);
  }

  lemma {:induction false} MoveOfARoot(d: Doc, s: nat, tgt: Loc, edge: Edge, fit: Fit)
    requires s < |d| && ValidLoc(d, tgt) && Apart(AtRoot(s), tgt)
    requires Moved(d, AtRoot(s), tgt, edge, fit).Some?
    ensures LandsIn(d, AtRoot(s), tgt, edge, fit)
  {
    if tgt.AtRoot? {
      PointAfterRootTaken(d, s, tgt.i, edge);
    } else {
      ItemPointAfterRootTaken(d, s, tgt.r, tgt.i, edge);
    }
    LandsByInserting(d, AtRoot(s), tgt, TargetAfter(d, AtRoot(s), tgt), Without(d, s), edge, fit);
  }

  // Moving the only item next to its own list puts it where the list was.
  lemma {:induction false} ListGivesWay(d: Doc, src: Loc, edge: Edge, fit: Fit)
    requires ValidLoc(d, src) && Emptied(d, src) && Moved(d, src, AtRoot(src.r), edge, fit).Some?
    ensures LandsIn(d, src, AtRoot(src.r), edge, fit)
  {
    var rest := LeftBehind(d, src);
    assert rest == Without(d, src.r) && rest[..src.r] == d[..src.r];
    SplicingRoots(rest, src.r, fit(RootSlot).value);
  }

  // ---- between two fragments -----------------------------------------------------------------------------------

  /** Between fragments that read differently, the source loses exactly its block and the target gains the incoming one
    * directly next to the target block; there is no slip. */
  lemma {:induction false} AcrossKeepsEveryOtherBlock(source: Doc, target: Doc, src: Loc, tgt: Loc, edge: Edge, fit: Fit)
    requires ValidLoc(source, src) && ValidLoc(target, tgt) && source != target
    requires AppliedBodyMove(source, target, src, tgt, edge, fit).Some?
    ensures var (s, t) := AppliedBodyMove(source, target, src, tgt, edge, fit).value;
      var at := Before(target, tgt) + if edge.BeforeTarget? then 0 else Width(target, tgt);
      && Atoms(s) == Rest(source, src)
      && at <= |Atoms(target)| && Atoms(t) == PutIn(Atoms(target), at, Incoming(target, tgt, fit))
  {
    assert AppliedBodyMove(source, target, src, tgt, edge, fit).value
        == (LeftBehind(source, src), Inserted(target, tgt, edge, fit).value);
    LeavingKeepsTheRest(source, src);
    TargetGains(target, tgt, edge, fit);
  }

  lemma {:induction false} TargetGains(d: Doc, tgt: Loc, edge: Edge, fit: Fit)
    requires ValidLoc(d, tgt) && Inserted(d, tgt, edge, fit).Some?
    ensures var at := Before(d, tgt) + if edge.BeforeTarget? then 0 else Width(d, tgt);
      at <= |Atoms(d)| && Atoms(Inserted(d, tgt, edge, fit).value) == PutIn(Atoms(d), at, Incoming(d, tgt, fit))
  {
    Inserting(d, tgt, edge, fit);
    PointOfATarget(d, tgt, edge);
  }

  lemma {:induction false} LeavingKeepsTheRest(d: Doc, src: Loc)
    requires ValidLoc(d, src)
    ensures Atoms(LeftBehind(d, src)) == Rest(d, src)
  {
    TakingOut(d, src);
    if Emptied(d, src) {
      EmptiedList(d, src);
      RemovingAnEmptyList(TakenOut(d, src), src.r);
    }
  }

  lemma {:induction false} EmptiedList(d: Doc, src: Loc)
    requires ValidLoc(d, src) && Emptied(d, src)
    ensures var e := TakenOut(d, src); src.r < |e| && IsList(e[src.r]) && e[src.r].content == []
  {
  }

  lemma {:induction false} PointOfATarget(d: Doc, tgt: Loc, edge: Edge)
    requires ValidLoc(d, tgt)
    ensures InsertPoint(d, tgt, edge) == Before(d, tgt) + if edge.BeforeTarget? then 0 else Width(d, tgt)
  {
    AtomsAround(d, if tgt.AtRoot? then tgt.i else tgt.r);
  }

  /** A move between two fragments takes the block out of its source exactly when the two do not read the same; two
    * fragments that do are each rearranged within themselves and both still hold the block. */
  lemma {:induction false} CrossesIffTheTextsDiffer(source: Doc, target: Doc, src: Loc, tgt: Loc, edge: Edge, fit: Fit)
    requires ValidLoc(source, src) && ValidLoc(target, tgt) && Apart(src, tgt)
    requires AppliedBodyMove(source, target, src, tgt, edge, fit).Some? && Incoming(target, tgt, fit) != []
    ensures Atoms(AppliedBodyMove(source, target, src, tgt, edge, fit).value.0) == Rest(source, src) <==> source != target
  {
    if source != target {
      AcrossKeepsEveryOtherBlock(source, target, src, tgt, edge, fit);
    } else {
      MoveKeepsEveryOtherBlock(source, src, tgt, edge, fit);
      var at := LandingPoint(source, src, tgt, edge);
      assert |PutIn(Rest(source, src), at, Incoming(source, tgt, fit))| > |Rest(source, src)|;
    }
  }
}
