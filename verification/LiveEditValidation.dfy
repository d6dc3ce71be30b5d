/** What a live edit is refused for: making two sections share one heading path, or more of them than before. */
module LiveEditValidation {
  import opened Basics
  import opened SectionForest
  import opened HeadingAddresses

  datatype Entry = Entry(fragmentKey: string, headingPath: Path)

  // A fragment's text, parsed: the path of each of its sections inside the fragment, [] for a preamble.
  type Parsed = string -> seq<Path>

  datatype Group = Group(fragmentKeys: seq<string>, path: Path)

  function ParentOf(p: Path): Path { if p == [] then [] else p[..|p| - 1] }

  function FragmentHeadingAddresses(parsed: seq<Path>, e: Entry): seq<Path> {
    CollectParsedHeadingAddresses(ParentOf(e.headingPath), parsed)
  }

  // The last entry of the layout with this key.
  function LayoutEntry(layout: seq<Entry>, key: string): Option<Entry> {
    if layout == [] then None
    else if layout[|layout| - 1].fragmentKey == key then Some(layout[|layout| - 1])
    else LayoutEntry(layout[..|layout| - 1], key)
  }

  function TouchedEntries(layout: seq<Entry>, touched: seq<string>): seq<Entry> {
    if touched == [] then []
    else (match LayoutEntry(layout, touched[0]) case Some(e) => [e] case None => []) + TouchedEntries(layout, touched[1..])
  }

  function KeysOf(entries: seq<Entry>): set<string> { set i | 0 <= i < |entries| :: entries[i].fragmentKey }

  function BasePath(e: Entry, touchedKeys: set<string>): seq<Path> {
    if e.fragmentKey in touchedKeys || e.headingPath == [] then [] else [e.headingPath]
  }

  // The heading paths of the layout entries that are not touched.
  function BasePaths(layout: seq<Entry>, touchedKeys: set<string>): seq<Path> {
    if layout == [] then []
    else BasePath(layout[0], touchedKeys) + BasePaths(layout[1..], touchedKeys)
  }

  // The addresses the fragments of `entries` take when they read as `text`.
  function Taken(entries: seq<Entry>, text: Parsed): seq<Path> {
    if entries == [] then []
    else FragmentHeadingAddresses(text(entries[0].fragmentKey), entries[0]) + Taken(entries[1..], text)
  }

  function Occupancy(layout: seq<Entry>, touched: seq<Entry>, text: Parsed): seq<Path> {
    BasePaths(layout, KeysOf(touched)) + Taken(touched, text)
  }

  function Share(e: Entry, text: Parsed, key: string): nat {
    CountAddress(FragmentHeadingAddresses(text(e.fragmentKey), e), key)
  }

  function Participant(e: Entry, pre: Parsed, post: Parsed, key: string): seq<string> {
    if Share(e, post, key) > Share(e, pre, key) then [e.fragmentKey] else []
  }

  // The entries that take an address more often than before.
  function Participants(entries: seq<Entry>, pre: Parsed, post: Parsed, key: string): seq<string> {
    if entries == [] then []
    else Participant(entries[0], pre, post, key) + Participants(entries[1..], pre, post, key)
  }

  /** The groups of one validation: one for each address the edit makes worse, with everyone who took it more often. */
  ghost predicate Judged(layout: seq<Entry>, touched: seq<string>, pre: Parsed, post: Parsed, groups: seq<Group>) {
    var entries := TouchedEntries(layout, touched);
    var before, after := Occupancy(layout, entries, pre), Occupancy(layout, entries, post);
    && (forall key :: IsWorse(before, after, key) ==> exists i :: 0 <= i < |groups| && HeadingAddressKey(groups[i].path) == key)
    && (forall i :: 0 <= i < |groups| ==>
          && IsWorse(before, after, HeadingAddressKey(groups[i].path))
          && groups[i].fragmentKeys == Participants(entries, pre, post, HeadingAddressKey(groups[i].path))
          && groups[i].fragmentKeys != [])
    && (forall i, j :: 0 <= i < j < |groups| ==> HeadingAddressKey(groups[i].path) != HeadingAddressKey(groups[j].path))
  }

  lemma {:induction false} EntriesOneMore(layout: seq<Entry>, touched: seq<string>, i: nat)
    requires i < |touched|
    ensures TouchedEntries(layout, touched[..i + 1])
         == TouchedEntries(layout, touched[..i])
          + match LayoutEntry(layout, touched[i]) case Some(e) => [e] case None => []
  {
    if i == 0 {
      assert touched[..1] == [touched[0]] && touched[..1][1..] == [];
    } else {
      assert touched[..i + 1][1..] == touched[1..][..i] && touched[..i][1..] == touched[1..][..i - 1];
      EntriesOneMore(layout, touched[1..], i - 1);
    }
  }

  lemma {:induction false} ParticipantsOneMore(entries: seq<Entry>, i: nat, pre: Parsed, post: Parsed, key: string)
    requires i < |entries|
    ensures Participants(entries[..i + 1], pre, post, key)
         == Participants(entries[..i], pre, post, key)
          + if Share(entries[i], post, key) > Share(entries[i], pre, key) then [entries[i].fragmentKey] else []
  {
    if i == 0 {
      assert entries[..1] == [entries[0]] && entries[..1][1..] == [];
    } else {
      assert entries[..i + 1][1..] == entries[1..][..i] && entries[..i][1..] == entries[1..][..i - 1];
      ParticipantsOneMore(entries[1..], i - 1, pre, post, key);
    }
  }

  // The shares of all entries.
  function TotalShare(entries: seq<Entry>, text: Parsed, key: string): nat {
    if entries == [] then 0 else Share(entries[0], text, key) + TotalShare(entries[1..], text, key)
  }

  lemma {:induction false} TakenIsTotalShare(entries: seq<Entry>, text: Parsed, key: string)
    ensures CountAddress(Taken(entries, text), key) == TotalShare(entries, text, key)
  {
    if entries != [] {
      TakenIsTotalShare(entries[1..], text, key);
      CountOfBoth(FragmentHeadingAddresses(text(entries[0].fragmentKey), entries[0]), Taken(entries[1..], text), key);
    }
  }

  lemma {:induction false} OccupancyCount(layout: seq<Entry>, touched: seq<Entry>, text: Parsed, key: string)
    ensures CountAddress(Occupancy(layout, touched, text), key)
         == CountAddress(BasePaths(layout, KeysOf(touched)), key) + TotalShare(touched, text, key)
  {
    CountOfBoth(BasePaths(layout, KeysOf(touched)), Taken(touched, text), key);
    TakenIsTotalShare(touched, text, key);
  }

  // A total that grew has a share that grew.
  lemma {:induction false} SomeoneTookMore(entries: seq<Entry>, pre: Parsed, post: Parsed, key: string)
    requires TotalShare(entries, post, key) > TotalShare(entries, pre, key)
    ensures Participants(entries, pre, post, key) != []
  {
    if Share(entries[0], post, key) <= Share(entries[0], pre, key) {
      SomeoneTookMore(entries[1..], pre, post, key);
    }
  }

  /** The validator: no group is ever dropped for having nobody to blame. */
  method ValidateLiveEdit(touched: seq<string>, layout: seq<Entry>, pre: Parsed, post: Parsed) returns (groups: seq<Group>)
    ensures Judged(layout, touched, pre, post, groups)
  {
    var entries := CollectTouchedEntries(layout, touched);
    var base := BasePaths(layout, KeysOf(entries));
    var before, after := base + Taken(entries, pre), base + Taken(entries, post);
    assert before == Occupancy(layout, entries, pre) && after == Occupancy(layout, entries, post);
    var worsened := WorsenedDuplicateHeadingAddresses(before, after);
    groups := [];
    for i := 0 to |worsened|
      invariant |groups| == i
      invariant forall j :: 0 <= j < i ==> groups[j] == Group(Participants(entries, pre, post, worsened[j].key), worsened[j].path)
    {
      var participants := CollectParticipants(entries, pre, post, worsened[i].key);
      groups := groups + [Group(participants, worsened[i].path)];
    }
    GroupsAreJudged(layout, touched, pre, post, worsened, groups);
  }

  // One group per worsened address is what the gate promises; nobody's participants are empty.
  lemma {:induction false} GroupsAreJudged(layout: seq<Entry>, touched: seq<string>, pre: Parsed, post: Parsed,
                                           worsened: seq<Worsened>, groups: seq<Group>)
    requires var entries := TouchedEntries(layout, touched);
      && AreWorse(Occupancy(layout, entries, pre), Occupancy(layout, entries, post), worsened)
      && |groups| == |worsened|
      && forall j :: 0 <= j < |groups| ==> groups[j] == Group(Participants(entries, pre, post, worsened[j].key), worsened[j].path)
    ensures Judged(layout, touched, pre, post, groups)
  {
    var entries := TouchedEntries(layout, touched);
    var before, after := Occupancy(layout, entries, pre), Occupancy(layout, entries, post);
    forall j | 0 <= j < |groups|
      ensures HeadingAddressKey(groups[j].path) == worsened[j].key && IsWorse(before, after, worsened[j].key)
      ensures groups[j].fragmentKeys != []
    {
      assert IsWorse(before, after, worsened[j].key);
      OccupancyCount(layout, entries, pre, worsened[j].key);
      OccupancyCount(layout, entries, post, worsened[j].key);
      SomeoneTookMore(entries, pre, post, worsened[j].key);
    }
    forall key | IsWorse(before, after, key)
      ensures exists i :: 0 <= i < |groups| && HeadingAddressKey(groups[i].path) == key
    {
      var i :| 0 <= i < |worsened| && worsened[i].key == key;
      assert HeadingAddressKey(groups[i].path) == key;
    }
  }

  method CollectTouchedEntries(layout: seq<Entry>, touched: seq<string>) returns (entries: seq<Entry>)
    ensures entries == TouchedEntries(layout, touched)
  {
    entries := [];
    for i := 0 to |touched|
      invariant entries == TouchedEntries(layout, touched[..i])
    {
      EntriesOneMore(layout, touched, i);
      var e := LayoutEntry(layout, touched[i]);
      if e.Some? { entries := entries + [e.value]; }
    }
    assert touched[..|touched|] == touched;
  }

  method CollectParticipants(entries: seq<Entry>, pre: Parsed, post: Parsed, key: string) returns (keys: seq<string>)
    ensures keys == Participants(entries, pre, post, key)
  {
    keys := [];
    for i := 0 to |entries|
      invariant keys == Participants(entries[..i], pre, post, key)
    {
      ParticipantsOneMore(entries, i, pre, post, key);
      var e := entries[i];
      var preCount := CountAddressByLoop(FragmentHeadingAddresses(pre(e.fragmentKey), e), key);
      var postCount := CountAddressByLoop(FragmentHeadingAddresses(post(e.fragmentKey), e), key);
      if postCount > preCount { keys := keys + [e.fragmentKey]; }
    }
    assert entries[..|entries|] == entries;
  }

  // ---- what reverting the blamed fragments does -----------------------------------------------------------------

  function Blamed(groups: seq<Group>): set<string> {
    set i, j | 0 <= i < |groups| && 0 <= j < |groups[i].fragmentKeys| :: groups[i].fragmentKeys[j]
  }

  function Reverted(pre: Parsed, post: Parsed, blamed: set<string>): Parsed {
    k => if k in blamed then pre(k) else post(k)
  }

  lemma {:induction false} BlamedOf(groups: seq<Group>, i: nat, k: string)
    requires i < |groups| && k in groups[i].fragmentKeys
    ensures k in Blamed(groups)
  {
    var j :| 0 <= j < |groups[i].fragmentKeys| && groups[i].fragmentKeys[j] == k;
  }

  // Once everyone who took an address more often is reverted, it is taken no more often than before.
  lemma {:induction false} RevertingCures(entries: seq<Entry>, pre: Parsed, post: Parsed, blamed: set<string>, key: string)
    requires forall k :: k in Participants(entries, pre, post, key) ==> k in blamed
    ensures TotalShare(entries, Reverted(pre, post, blamed), key) <= TotalShare(entries, pre, key)
  {
    if entries != [] {
      var e := entries[0];
      assert Share(e, post, key) > Share(e, pre, key) ==> Participants(entries, pre, post, key)[0] == e.fragmentKey;
      forall k | k in Participants(entries[1..], pre, post, key) ensures k in blamed {
        assert k in Participants(entries, pre, post, key);
      }
      RevertingCures(entries[1..], pre, post, blamed, key);
    }
  }

  /** Reverting the blamed fragments brings every reported address back to at most the count it had before. */
  lemma {:induction false} ReportedAddressesAreCured(layout: seq<Entry>, touched: seq<string>, pre: Parsed, post: Parsed,
                                                     groups: seq<Group>)
    requires Judged(layout, touched, pre, post, groups)
    ensures var entries := TouchedEntries(layout, touched);
      forall i :: 0 <= i < |groups| ==>
        CountAddress(Occupancy(layout, entries, Reverted(pre, post, Blamed(groups))), HeadingAddressKey(groups[i].path))
          <= CountAddress(Occupancy(layout, entries, pre), HeadingAddressKey(groups[i].path))
  {
    var entries := TouchedEntries(layout, touched);
    forall i | 0 <= i < |groups|
      ensures var key := HeadingAddressKey(groups[i].path);
        CountAddress(Occupancy(layout, entries, Reverted(pre, post, Blamed(groups))), key)
          <= CountAddress(Occupancy(layout, entries, pre), key)
    {
      var key := HeadingAddressKey(groups[i].path);
      OccupancyCount(layout, entries, pre, key);
      OccupancyCount(layout, entries, Reverted(pre, post, Blamed(groups)), key);
      forall k | k in Participants(entries, pre, post, key) ensures k in Blamed(groups) { BlamedOf(groups, i, k); }
      RevertingCures(entries, pre, post, Blamed(groups), key);
    }
  }

  /** An edit is let through untouched exactly when it makes no address worse. */
  lemma {:induction false} PassesIffNothingWorse(layout: seq<Entry>, touched: seq<string>, pre: Parsed, post: Parsed,
                                                 groups: seq<Group>)
    requires Judged(layout, touched, pre, post, groups)
    ensures var entries := TouchedEntries(layout, touched);
      groups == [] <==>
        forall key :: CountAddress(Occupancy(layout, entries, post), key) <= 1
                   || CountAddress(Occupancy(layout, entries, post), key)
                        <= CountAddress(Occupancy(layout, entries, pre), key)
  {
    var entries := TouchedEntries(layout, touched);
    var before, after := Occupancy(layout, entries, pre), Occupancy(layout, entries, post);
    if groups != [] {
      var worse := HeadingAddressKey(groups[0].path);
      assert IsWorse(before, after, worse);
      assert !(CountAddress(after, worse) <= 1 || CountAddress(after, worse) <= CountAddress(before, worse));
    } else {
      forall key ensures CountAddress(after, key) <= 1 || CountAddress(after, key) <= CountAddress(before, key) {
        assert !IsWorse(before, after, key);
      }
    }
  }

  // Takes an address more often in an edit that makes this address worse: whom the gate is to blame.
  ghost predicate Guilty(layout: seq<Entry>, entries: seq<Entry>, pre: Parsed, post: Parsed, k: string) {
    exists key :: IsWorse(Occupancy(layout, entries, pre), Occupancy(layout, entries, post), key)
               && k in Participants(entries, pre, post, key)
  }

  ghost function GuiltyOf(layout: seq<Entry>, entries: seq<Entry>, pre: Parsed, post: Parsed): set<string> {
    set k | k in KeysOf(entries) && Guilty(layout, entries, pre, post, k)
  }

  lemma {:induction false} ParticipantsAreEntries(entries: seq<Entry>, pre: Parsed, post: Parsed, key: string, k: string)
    requires k in Participants(entries, pre, post, key)
    ensures k in KeysOf(entries)
  {
    if k !in Participant(entries[0], pre, post, key) {
      ParticipantsAreEntries(entries[1..], pre, post, key, k);
      var i :| 0 <= i < |entries[1..]| && entries[1..][i].fragmentKey == k;
      assert entries[i + 1].fragmentKey == k;
    } else {
      assert entries[0].fragmentKey == k;
    }
  }

  /** The groups blame exactly those who took a worsened address more often, whatever their order and number. */
  lemma {:induction false} BlamedAreTheGuilty(layout: seq<Entry>, touched: seq<string>, pre: Parsed, post: Parsed, groups: seq<Group>)
    requires Judged(layout, touched, pre, post, groups)
    ensures Blamed(groups) == GuiltyOf(layout, TouchedEntries(layout, touched), pre, post)
  {
    var entries := TouchedEntries(layout, touched);
    forall k | k in Blamed(groups) ensures k in GuiltyOf(layout, entries, pre, post) {
      var i, j :| 0 <= i < |groups| && 0 <= j < |groups[i].fragmentKeys| && groups[i].fragmentKeys[j] == k;
      assert k in Participants(entries, pre, post, HeadingAddressKey(groups[i].path));
      ParticipantsAreEntries(entries, pre, post, HeadingAddressKey(groups[i].path), k);
    }
    forall k | k in GuiltyOf(layout, entries, pre, post) ensures k in Blamed(groups) {
      var key :| IsWorse(Occupancy(layout, entries, pre), Occupancy(layout, entries, post), key)
              && k in Participants(entries, pre, post, key);
      var i :| 0 <= i < |groups| && HeadingAddressKey(groups[i].path) == key;
      BlamedOf(groups, i, k);
    }
  }

  // How much more often the touched fragments outside `blamed` take an address than before.
  function SparedGain(entries: seq<Entry>, pre: Parsed, post: Parsed, blamed: set<string>, key: string): int {
    if entries == [] then 0
    else
      (if entries[0].fragmentKey in blamed then 0 else Share(entries[0], post, key) - Share(entries[0], pre, key))
      + SparedGain(entries[1..], pre, post, blamed, key)
  }

  lemma {:induction false} RevertedShare(entries: seq<Entry>, pre: Parsed, post: Parsed, blamed: set<string>, key: string)
    ensures TotalShare(entries, Reverted(pre, post, blamed), key)
         == TotalShare(entries, pre, key) + SparedGain(entries, pre, post, blamed, key)
  {
    if entries != [] { RevertedShare(entries[1..], pre, post, blamed, key); }
  }

  /**
   * Exactly when the gate's own revert leaves an address worse than before the edit: the touched fragments that take
   * no worsened address more often have gained it, and it is then taken twice or more.
   */
  lemma {:induction false} RevertingMakesWorseIff(layout: seq<Entry>, touched: seq<string>, pre: Parsed, post: Parsed,
                                                  groups: seq<Group>, key: string)
    requires Judged(layout, touched, pre, post, groups)
    ensures var entries := TouchedEntries(layout, touched);
      var before := Occupancy(layout, entries, pre);
      var gain := SparedGain(entries, pre, post, GuiltyOf(layout, entries, pre, post), key);
      && (IsWorse(before, Occupancy(layout, entries, Reverted(pre, post, Blamed(groups))), key)
          <==> gain > 0 && CountAddress(before, key) + gain >= 2)
  {
    var entries := TouchedEntries(layout, touched);
    BlamedAreTheGuilty(layout, touched, pre, post, groups);
    OccupancyCount(layout, entries, pre, key);
    OccupancyCount(layout, entries, Reverted(pre, post, Blamed(groups)), key);
    RevertedShare(entries, pre, post, Blamed(groups), key);
  }

  predicate OnlyAdds(entries: seq<Entry>, pre: Parsed, post: Parsed, blamed: set<string>, key: string) {
    forall i :: 0 <= i < |entries| && entries[i].fragmentKey in blamed ==>
      Share(entries[i], pre, key) <= Share(entries[i], post, key)
  }

  lemma {:induction false} RevertingNeverAdds(entries: seq<Entry>, pre: Parsed, post: Parsed, blamed: set<string>, key: string)
    requires OnlyAdds(entries, pre, post, blamed, key)
    ensures TotalShare(entries, Reverted(pre, post, blamed), key) <= TotalShare(entries, post, key)
  {
    if entries != [] {
      assert OnlyAdds(entries[1..], pre, post, blamed, key) by {
        forall i | 0 <= i < |entries[1..]| && entries[1..][i].fragmentKey in blamed
          ensures Share(entries[1..][i], pre, key) <= Share(entries[1..][i], post, key)
        {
          assert entries[1..][i] == entries[i + 1];
        }
      }
      RevertingNeverAdds(entries[1..], pre, post, blamed, key);
    }
  }

  /** When no blamed fragment gave an address up, what is left after reverting them makes no address worse at all. */
  lemma {:induction false} CureIsCompleteWhenNothingWasGivenUp(layout: seq<Entry>, touched: seq<string>, pre: Parsed,
                                                               post: Parsed, groups: seq<Group>, key: string)
    requires Judged(layout, touched, pre, post, groups)
    requires OnlyAdds(TouchedEntries(layout, touched), pre, post, Blamed(groups), key)
    ensures var entries := TouchedEntries(layout, touched);
      !IsWorse(Occupancy(layout, entries, pre), Occupancy(layout, entries, Reverted(pre, post, Blamed(groups))), key)
  {
    var entries := TouchedEntries(layout, touched);
    var text := Reverted(pre, post, Blamed(groups));
    OccupancyCount(layout, entries, pre, key);
    OccupancyCount(layout, entries, post, key);
    OccupancyCount(layout, entries, text, key);
    if IsWorse(Occupancy(layout, entries, pre), Occupancy(layout, entries, post), key) {
      var i :| 0 <= i < |groups| && HeadingAddressKey(groups[i].path) == key;
      ReportedAddressesAreCured(layout, touched, pre, post, groups);
    } else {
      RevertingNeverAdds(entries, pre, post, Blamed(groups), key);
    }
  }

  // Reverting what the groups blame leaves this address worse than before the edit.
  ghost predicate Collides(layout: seq<Entry>, touched: seq<string>, pre: Parsed, post: Parsed, groups: seq<Group>,
                           key: string)
  {
    var entries := TouchedEntries(layout, touched);
    && Judged(layout, touched, pre, post, groups)
    && IsWorse(Occupancy(layout, entries, pre), Occupancy(layout, entries, Reverted(pre, post, Blamed(groups))), key)
  }

  /** Without that, reverting can itself make an address worse: fragment A gives up X and takes Y, which is taken,
    * while B takes X. Only Y is reported and only A is reverted, and then A and B both have X. */
  lemma {:induction false} RevertingCanCollide()
    ensures exists layout, touched, pre, post, groups, key :: Collides(layout, touched, pre, post, groups, key)
  {
    var a, b := Entry("A", ["x"]), Entry("B", ["b"]);
    var layout := [a, b, Entry("C", ["y"])];
    var touched := ["A", "B"];
    var groups := [Group(["A"], ["y"])];
    ExampleEntries(layout, touched, a, b);
    ExampleTexts();
    ExampleCounts(layout, a, b, ExampleBefore, ExampleAfter, Reverted(ExampleBefore, ExampleAfter, {"A"}));
    ExampleParticipants(a, b, ExampleBefore, ExampleAfter);
    ExampleCollides(layout, touched, a, b, ExampleBefore, ExampleAfter, groups);
    assert Collides(layout, touched, ExampleBefore, ExampleAfter, groups, "x");
  }

  function ExampleBefore(k: string): seq<Path> { if k == "A" then [["x"]] else [["b"]] }

  function ExampleAfter(k: string): seq<Path> { if k == "A" then [["y"]] else [["x"]] }

  lemma {:induction false} ExampleTexts()
    ensures ExampleBefore("A") == [["x"]] && ExampleBefore("B") == [["b"]]
    ensures ExampleAfter("A") == [["y"]] && ExampleAfter("B") == [["x"]]
    ensures Reverted(ExampleBefore, ExampleAfter, {"A"})("A") == [["x"]]
    ensures Reverted(ExampleBefore, ExampleAfter, {"A"})("B") == [["x"]]
  {
  }

  lemma {:induction false} ExampleCollides(layout: seq<Entry>, touched: seq<string>, a: Entry, b: Entry,
                                           pre: Parsed, post: Parsed, groups: seq<Group>)
    requires TouchedEntries(layout, touched) == [a, b] && groups == [Group(["A"], ["y"])]
    requires forall key :: IsWorse(Occupancy(layout, [a, b], pre), Occupancy(layout, [a, b], post), key) <==> key == "y"
    requires Participants([a, b], pre, post, "y") == ["A"]
    requires IsWorse(Occupancy(layout, [a, b], pre), Occupancy(layout, [a, b], Reverted(pre, post, {"A"})), "x")
    ensures Collides(layout, touched, pre, post, groups, "x")
  {
    LowerOfLetters();
    assert HeadingAddressKey(groups[0].path) == "y";
    BlamedOf(groups, 0, "A");
    assert Blamed(groups) == {"A"};
  }

  lemma {:induction false} LowerOfLetters()
    ensures Lower("x") == "x" && Lower("y") == "y" && Lower("b") == "b"
  {
  }

  lemma {:induction false} ExampleEntries(layout: seq<Entry>, touched: seq<string>, a: Entry, b: Entry)
    requires a == Entry("A", ["x"]) && b == Entry("B", ["b"]) && layout == [a, b, Entry("C", ["y"])]
    requires touched == ["A", "B"]
    ensures TouchedEntries(layout, touched) == [a, b]
  {
    assert layout[..2] == [a, b] && [a, b][..1] == [a];
    assert LayoutEntry([a], "A") == Some(a);
    assert LayoutEntry([a, b], "A") == Some(a) && LayoutEntry([a, b], "B") == Some(b);
    assert LayoutEntry(layout, "A") == Some(a) && LayoutEntry(layout, "B") == Some(b);
    assert touched[1..] == ["B"] && ["B"][1..] == [];
    assert TouchedEntries(layout, ["B"]) == [b] + TouchedEntries(layout, []);
    assert TouchedEntries(layout, touched) == [a] + TouchedEntries(layout, ["B"]);
  }

  lemma {:induction false} ExampleParticipants(a: Entry, b: Entry, pre: Parsed, post: Parsed)
    requires a == Entry("A", ["x"]) && b == Entry("B", ["b"])
    requires pre("A") == [["x"]] && pre("B") == [["b"]] && post("A") == [["y"]] && post("B") == [["x"]]
    ensures Participants([a, b], pre, post, "y") == ["A"]
  {
    LowerOfLetters();
    One(pre, a, "x", "y");
    One(post, a, "y", "y");
    One(pre, b, "b", "y");
    One(post, b, "x", "y");
    assert [a, b][1..] == [b] && [b][1..] == [];
    assert Participants([b], pre, post, "y") == [] + Participants([], pre, post, "y");
    assert Participants([a, b], pre, post, "y") == ["A"] + Participants([b], pre, post, "y");
  }

  lemma {:induction false} One(text: Parsed, e: Entry, leaf: string, key: string)
    requires |e.headingPath| == 1 && text(e.fragmentKey) == [[leaf]]
    ensures Share(e, text, key) == if Lower(leaf) == key then 1 else 0
  {
    var parsed: seq<Path> := [[leaf]];
    assert ParentOf(e.headingPath) == [];
    assert parsed[1..] == [] && parsed[0] == [leaf] && [leaf] != [] && [] + [leaf] == [leaf];
    assert CollectParsedHeadingAddresses([], parsed) == [[leaf]] + CollectParsedHeadingAddresses([], []);
    assert FragmentHeadingAddresses(text(e.fragmentKey), e) == parsed;
    assert CountAddress(parsed, key) == (if HeadingAddressKey([leaf]) == key then 1 else 0) + CountAddress([], key);
  }

  lemma {:induction false} TwoShares(a: Entry, b: Entry, text: Parsed, key: string)
    ensures TotalShare([a, b], text, key) == Share(a, text, key) + Share(b, text, key)
  {
    assert [a, b][1..] == [b] && [b][1..] == [];
    assert TotalShare([b], text, key) == Share(b, text, key) + TotalShare([], text, key);
  }

  // The counts of every address before, after, and with A reverted.
  lemma {:induction false} ExampleCounts(layout: seq<Entry>, a: Entry, b: Entry, pre: Parsed, post: Parsed, text: Parsed)
    requires a == Entry("A", ["x"]) && b == Entry("B", ["b"]) && layout == [a, b, Entry("C", ["y"])]
    requires pre("A") == [["x"]] && pre("B") == [["b"]] && post("A") == [["y"]] && post("B") == [["x"]]
    requires text("A") == [["x"]] && text("B") == [["x"]]
    ensures forall key :: CountAddress(Occupancy(layout, [a, b], pre), key) == if key == "y" || key == "x" || key == "b" then 1 else 0
    ensures forall key :: CountAddress(Occupancy(layout, [a, b], post), key) == if key == "y" then 2 else if key == "x" then 1 else 0
    ensures CountAddress(Occupancy(layout, [a, b], text), "x") == 2
  {
    LowerOfLetters();
    forall key
      ensures CountAddress(Occupancy(layout, [a, b], pre), key) == if key == "y" || key == "x" || key == "b" then 1 else 0
      ensures CountAddress(Occupancy(layout, [a, b], post), key) == if key == "y" then 2 else if key == "x" then 1 else 0
      ensures CountAddress(Occupancy(layout, [a, b], text), key) == (if key == "y" then 1 else 0) + if key == "x" then 2 else 0
    {
      ExampleBase(layout, a, b, key);
      TwoShares(a, b, pre, key);
      TwoShares(a, b, post, key);
      TwoShares(a, b, text, key);
      OccupancyCount(layout, [a, b], pre, key);
      OccupancyCount(layout, [a, b], post, key);
      OccupancyCount(layout, [a, b], text, key);
      One(pre, a, "x", key);
      One(pre, b, "b", key);
      One(post, a, "y", key);
      One(post, b, "x", key);
      One(text, a, "x", key);
      One(text, b, "x", key);
    }
  }

  lemma {:induction false} ExampleBase(layout: seq<Entry>, a: Entry, b: Entry, key: string)
    requires a == Entry("A", ["x"]) && b == Entry("B", ["b"]) && layout == [a, b, Entry("C", ["y"])]
    ensures CountAddress(BasePaths(layout, KeysOf([a, b])), key) == if key == "y" then 1 else 0
  {
    var keys := KeysOf([a, b]);
    assert keys == {"A", "B"} by { assert [a, b][0] == a && [a, b][1] == b; }
    var c := Entry("C", ["y"]);
    assert layout[1..] == [b, c] && [b, c][1..] == [c] && [c][1..] == [];
    assert BasePaths([c], keys) == [["y"]] + BasePaths([], keys);
    assert BasePaths([b, c], keys) == [] + BasePaths([c], keys);
    assert BasePaths(layout, keys) == [] + BasePaths([b, c], keys);
    assert BasePaths(layout, keys) == [["y"]];
    assert [["y"]][1..] == [];
    LowerOfLetters();
  }

  // ---- over runs -------------------------------------------------------------------------------------------------

  predicate DistinctKeys(layout: seq<Entry>) {
    forall i, j :: 0 <= i < j < |layout| ==> layout[i].fragmentKey != layout[j].fragmentKey
  }

  predicate Distinct(keys: seq<string>) { forall i, j :: 0 <= i < j < |keys| ==> keys[i] != keys[j] }

  /** Every entry not touched reads as its own heading alone, or as no heading when it is the preamble. */
  predicate UntouchedAreClean(layout: seq<Entry>, touched: seq<string>, text: Parsed) {
    forall i :: 0 <= i < |layout| && layout[i].fragmentKey !in touched ==>
      FragmentHeadingAddresses(text(layout[i].fragmentKey), layout[i])
        == if layout[i].headingPath == [] then [] else [layout[i].headingPath]
  }

  // The shares of the entries whose keys are in `keys`.
  function ShareWithin(layout: seq<Entry>, keys: set<string>, text: Parsed, key: string): nat {
    if layout == [] then 0
    else (if layout[0].fragmentKey in keys then Share(layout[0], text, key) else 0) + ShareWithin(layout[1..], keys, text, key)
  }

  lemma {:induction false} FindsTheEntry(layout: seq<Entry>, k: string)
    ensures LayoutEntry(layout, k) == None <==> forall i :: 0 <= i < |layout| ==> layout[i].fragmentKey != k
    ensures LayoutEntry(layout, k).Some? ==> LayoutEntry(layout, k).value in layout && LayoutEntry(layout, k).value.fragmentKey == k
  {
    if layout != [] { FindsTheEntry(layout[..|layout| - 1], k); }
  }

  lemma {:induction false} OneMoreKey(layout: seq<Entry>, keys: set<string>, k: string, text: Parsed, key: string)
    requires DistinctKeys(layout) && k !in keys
    ensures ShareWithin(layout, keys + {k}, text, key) == ShareWithin(layout, keys, text, key)
          + match LayoutEntry(layout, k) case Some(e) => Share(e, text, key) case None => 0
  {
    FindsTheEntry(layout, k);
    if LayoutEntry(layout, k).Some? {
      var e := LayoutEntry(layout, k).value;
      var i :| 0 <= i < |layout| && layout[i] == e;
      OneMoreEntry(layout, keys, i, text, key);
    } else {
      SameWithin(layout, keys + {k}, keys, text, key);
    }
  }

  lemma {:induction false} SameWithin(layout: seq<Entry>, a: set<string>, b: set<string>, text: Parsed, key: string)
    requires forall i :: 0 <= i < |layout| ==> (layout[i].fragmentKey in a <==> layout[i].fragmentKey in b)
    ensures ShareWithin(layout, a, text, key) == ShareWithin(layout, b, text, key)
  {
    if layout != [] { SameWithin(layout[1..], a, b, text, key); }
  }

  lemma {:induction false} OneMoreEntry(layout: seq<Entry>, keys: set<string>, i: nat, text: Parsed, key: string)
    requires DistinctKeys(layout) && i < |layout| && layout[i].fragmentKey !in keys
    ensures ShareWithin(layout, keys + {layout[i].fragmentKey}, text, key)
         == ShareWithin(layout, keys, text, key) + Share(layout[i], text, key)
  {
    if i == 0 {
      SameWithin(layout[1..], keys + {layout[0].fragmentKey}, keys, text, key);
    } else {
      OneMoreEntry(layout[1..], keys, i - 1, text, key);
    }
  }

  lemma {:induction false} TouchedShare(layout: seq<Entry>, touched: seq<string>, text: Parsed, key: string)
    requires DistinctKeys(layout) && Distinct(touched)
    ensures TotalShare(TouchedEntries(layout, touched), text, key)
         == ShareWithin(layout, set i | 0 <= i < |touched| :: touched[i], text, key)
  {
    var keys := set i | 0 <= i < |touched| :: touched[i];
    if touched == [] {
      assert keys == {};
      NothingWithin(layout, text, key);
    } else {
      var rest := set i | 0 <= i < |touched[1..]| :: touched[1..][i];
      assert keys == rest + {touched[0]} by {
        assert forall i :: 0 <= i < |touched[1..]| ==> touched[1..][i] == touched[i + 1];
        forall k | k in keys ensures k in rest + {touched[0]} {
          var i :| 0 <= i < |touched| && touched[i] == k;
          if i > 0 { assert touched[1..][i - 1] == k; }
        }
      }
      assert touched[0] !in rest;
      TouchedShare(layout, touched[1..], text, key);
      OneMoreKey(layout, rest, touched[0], text, key);
      var more := TouchedEntries(layout, touched[1..]);
      match LayoutEntry(layout, touched[0])
      case None => assert TouchedEntries(layout, touched) == more;
      case Some(e) =>
        assert TouchedEntries(layout, touched) == [e] + more && ([e] + more)[1..] == more;
    }
  }

  lemma {:induction false} NothingWithin(layout: seq<Entry>, text: Parsed, key: string)
    ensures ShareWithin(layout, {}, text, key) == 0
  {
    if layout != [] { NothingWithin(layout[1..], text, key); }
  }

  lemma {:induction false} WholeIsBasePlusTouched(layout: seq<Entry>, keys: set<string>, text: Parsed, key: string)
    requires forall i :: 0 <= i < |layout| && layout[i].fragmentKey !in keys ==>
      FragmentHeadingAddresses(text(layout[i].fragmentKey), layout[i])
        == if layout[i].headingPath == [] then [] else [layout[i].headingPath]
    ensures TotalShare(layout, text, key) == CountAddress(BasePaths(layout, keys), key) + ShareWithin(layout, keys, text, key)
  {
    if layout != [] {
      WholeIsBasePlusTouched(layout[1..], keys, text, key);
      CountOfBoth(BasePath(layout[0], keys), BasePaths(layout[1..], keys), key);
    }
  }

  /** With the untouched fragments clean, the occupancy the validator works with is that of the whole document. */
  lemma {:induction false} OccupancyIsTheDocuments(layout: seq<Entry>, touched: seq<string>, text: Parsed, key: string)
    requires DistinctKeys(layout) && Distinct(touched) && UntouchedAreClean(layout, touched, text)
    ensures CountAddress(Occupancy(layout, TouchedEntries(layout, touched), text), key)
         == CountAddress(Taken(layout, text), key)
  {
    var entries := TouchedEntries(layout, touched);
    var keys := set i | 0 <= i < |touched| :: touched[i];
    OccupancyCount(layout, entries, text, key);
    TouchedShare(layout, touched, text, key);
    TakenIsTotalShare(layout, text, key);
    WholeIsBasePlusTouched(layout, keys, text, key);
    TouchedKeys(layout, touched);
    BaseOnlyNeedsLayoutKeys(layout, KeysOf(entries), keys);
  }

  lemma {:induction false} TouchedKeys(layout: seq<Entry>, touched: seq<string>)
    ensures forall i :: 0 <= i < |layout| ==>
      (layout[i].fragmentKey in KeysOf(TouchedEntries(layout, touched)) <==> layout[i].fragmentKey in touched)
  {
    forall i | 0 <= i < |layout|
      ensures layout[i].fragmentKey in KeysOf(TouchedEntries(layout, touched)) <==> layout[i].fragmentKey in touched
    {
      KeyIsTouched(layout, touched, i);
    }
  }

  lemma {:induction false} KeyIsTouched(layout: seq<Entry>, touched: seq<string>, i: nat)
    requires i < |layout|
    ensures layout[i].fragmentKey in KeysOf(TouchedEntries(layout, touched)) <==> layout[i].fragmentKey in touched
  {
    if touched != [] {
      KeyIsTouched(layout, touched[1..], i);
      FindsTheEntry(layout, touched[0]);
      var first: seq<Entry> := match LayoutEntry(layout, touched[0]) case Some(e) => [e] case None => [];
      var rest := TouchedEntries(layout, touched[1..]);
      assert KeysOf(first + rest) == KeysOf(first) + KeysOf(rest) by {
        forall k | k in KeysOf(rest) ensures k in KeysOf(first + rest) {
          var j :| 0 <= j < |rest| && rest[j].fragmentKey == k;
          assert (first + rest)[|first| + j] == rest[j];
        }
        forall k | k in KeysOf(first) ensures k in KeysOf(first + rest) {
          var j :| 0 <= j < |first| && first[j].fragmentKey == k;
          assert (first + rest)[j] == first[j];
        }
      }
      assert touched == [touched[0]] + touched[1..];
      assert layout[i].fragmentKey in touched <==> layout[i].fragmentKey == touched[0] || layout[i].fragmentKey in touched[1..];
      assert LayoutEntry(layout, touched[0]).Some? ==> first[0].fragmentKey == touched[0] && KeysOf(first) == {touched[0]};
      assert LayoutEntry(layout, touched[0]).None? ==> KeysOf(first) == {} && layout[i].fragmentKey != touched[0];
    }
  }

  lemma {:induction false} BaseOnlyNeedsLayoutKeys(layout: seq<Entry>, a: set<string>, b: set<string>)
    requires forall i :: 0 <= i < |layout| ==> (layout[i].fragmentKey in a <==> layout[i].fragmentKey in b)
    ensures BasePaths(layout, a) == BasePaths(layout, b)
  {
    if layout != [] { BaseOnlyNeedsLayoutKeys(layout[1..], a, b); }
  }

  // One edit: which fragments it touches and how the whole document reads afterwards.
  datatype Edit = Edit(touched: seq<string>, after: Parsed)

  /** Each edit was let through with nothing to reject, changed only what it touched, and found the rest clean. */
  ghost predicate Accepted(layout: seq<Entry>, text: Parsed, edits: seq<Edit>)
    decreases |edits|
  {
    edits != [] ==>
      var e := edits[0];
      && Distinct(e.touched)
      && UntouchedAreClean(layout, e.touched, text) && UntouchedAreClean(layout, e.touched, e.after)
      && Judged(layout, e.touched, text, e.after, [])
      && Accepted(layout, e.after, edits[1..])
  }

  function Finally(text: Parsed, edits: seq<Edit>): Parsed {
    if edits == [] then text else edits[|edits| - 1].after
  }

  /** Over any run of accepted edits no address is ever taken twice that was not already, or more often than at first:
    * a document whose sections all have their own address keeps it so. */
  lemma {:induction false} AcceptedRunsNeverWorsen(layout: seq<Entry>, text: Parsed, edits: seq<Edit>, key: string)
    requires DistinctKeys(layout) && Accepted(layout, text, edits)
    ensures CountAddress(Taken(layout, Finally(text, edits)), key) <= 1
         || CountAddress(Taken(layout, Finally(text, edits)), key) <= CountAddress(Taken(layout, text), key)
    decreases |edits|
  {
    if edits != [] {
      var e := edits[0];
      OccupancyIsTheDocuments(layout, e.touched, text, key);
      OccupancyIsTheDocuments(layout, e.touched, e.after, key);
      PassesIffNothingWorse(layout, e.touched, text, e.after, []);
      AcceptedRunsNeverWorsen(layout, e.after, edits[1..], key);
      assert Finally(text, edits) == Finally(e.after, edits[1..]);
    }
  }
}
