/** The one way the live document is changed by the server: compute outside, check and apply inside, retry once. */
module OptimisticTransaction {
  import opened Basics

  type Key = string

  // The live document: each fragment's text; a key that was never made is absent.
  type Fragments = map<Key, string>

  // ---- the fingerprint -----------------------------------------------------------------------------------------

  const Nul: char := '\U{0000}'
  const Soh: char := '\U{0001}'
  const AbsentMark: string := [Nul] + "absent"

  function Shown(d: Fragments, k: Key): string { if k in d then d[k] else AbsentMark }

  function Entry(d: Fragments, k: Key): string { k + [Nul] + Shown(d, k) }

  function FragmentClock(d: Fragments, keys: seq<Key>): string {
    if keys == [] then ""
    else if |keys| == 1 then Entry(d, keys[0])
    else Entry(d, keys[0]) + [Soh] + FragmentClock(d, keys[1..])
  }

  predicate SameOn(a: Fragments, b: Fragments, keys: seq<Key>) {
    forall i :: 0 <= i < |keys| ==> ((keys[i] in a) == (keys[i] in b)) && (keys[i] in a && keys[i] in b ==> a[keys[i]] == b[keys[i]])
  }

  /** No watched fragment holds the separator of the fingerprint or its mark for an absent fragment. */
  predicate Plain(d: Fragments, keys: seq<Key>) {
    forall i :: 0 <= i < |keys| ==>
      Soh !in keys[i] && (keys[i] in d ==> Soh !in d[keys[i]] && d[keys[i]] != AbsentMark)
  }

  // Two texts cut at the first separator are the same only when both parts are.
  lemma {:induction false} CutAtSeparator(a: string, b: string, x: string, y: string)
    requires Soh !in a && Soh !in b && a + [Soh] + x == b + [Soh] + y
    ensures a == b && x == y
  {
    var s, t := a + [Soh] + x, b + [Soh] + y;
    assert s[|a|] == Soh && t[|b|] == Soh;
    assert forall i :: 0 <= i < |a| ==> s[i] == a[i] && a[i] in a;
    assert forall i :: 0 <= i < |b| ==> t[i] == b[i] && b[i] in b;
    assert |a| == |b|;
    assert s[..|a|] == a && t[..|b|] == b;
    assert s[|a| + 1..] == x && t[|b| + 1..] == y;
  }

  lemma {:induction false} EntrySeesItsFragment(a: Fragments, b: Fragments, k: Key)
    requires Entry(a, k) == Entry(b, k) && Plain(a, [k]) && Plain(b, [k])
    ensures SameOn(a, b, [k])
  {
    assert Entry(a, k)[|k| + 1..] == Shown(a, k);
    assert Entry(b, k)[|k| + 1..] == Shown(b, k);
    assert [k][0] == k;
  }

  /** On plain fragments the fingerprint changes exactly when a watched fragment does. */
  lemma {:induction false} ClockSeesExactlyTheWatched(a: Fragments, b: Fragments, keys: seq<Key>)
    requires Plain(a, keys) && Plain(b, keys)
    ensures FragmentClock(a, keys) == FragmentClock(b, keys) <==> SameOn(a, b, keys)
    decreases |keys|
  {
    if keys != [] {
      var k := keys[0];
      assert Plain(a, [k]) && Plain(b, [k]);
      assert SameOn(a, b, keys) <==> SameOn(a, b, [k]) && SameOn(a, b, keys[1..]) by {
        assert keys == [k] + keys[1..];
        assert [k][0] == k;
        if SameOn(a, b, [k]) && SameOn(a, b, keys[1..]) {
          forall i | 0 <= i < |keys|
            ensures ((keys[i] in a) == (keys[i] in b)) && (keys[i] in a && keys[i] in b ==> a[keys[i]] == b[keys[i]])
          {
            if i > 0 { assert keys[i] == keys[1..][i - 1]; }
          }
        }
      }
      if SameOn(a, b, [k]) { assert [k][0] == k; }
      if Entry(a, k) == Entry(b, k) { EntrySeesItsFragment(a, b, k); }
      if |keys| > 1 {
        ClockSeesExactlyTheWatched(a, b, keys[1..]);
        EntryHasNoSeparator(a, k);
        EntryHasNoSeparator(b, k);
        if FragmentClock(a, keys) == FragmentClock(b, keys) {
          CutAtSeparator(Entry(a, k), Entry(b, k), FragmentClock(a, keys[1..]), FragmentClock(b, keys[1..]));
        }
      }
    }
  }

  lemma {:induction false} EntryHasNoSeparator(d: Fragments, k: Key)
    requires Plain(d, [k])
    ensures Soh !in Entry(d, k)
  {
    assert [k][0] == k;
  }

  /** Unwatched fragments never move the fingerprint, plain or not. */
  lemma {:induction false} ClockIgnoresTheRest(a: Fragments, b: Fragments, keys: seq<Key>)
    requires SameOn(a, b, keys)
    ensures FragmentClock(a, keys) == FragmentClock(b, keys)
    decreases |keys|
  {
    if keys != [] {
      assert Entry(a, keys[0]) == Entry(b, keys[0]);
      ClockIgnoresTheRest(a, b, keys[1..]);
    }
  }

  /** Why plainness is needed: a separator inside one fragment hides a change of two. */
  lemma {:induction false} ASeparatorInsideHidesAChange()
    ensures exists a: Fragments, b: Fragments, keys ::
      !SameOn(a, b, keys) && FragmentClock(a, keys) == FragmentClock(b, keys)
  {
    var keys := ["a", "b"];
    var a: Fragments := map["a" := "x" + [Soh, 'b', Nul] + "y", "b" := "z"];
    var b: Fragments := map["a" := "x", "b" := "y" + [Soh, 'b', Nul] + "z"];
    assert keys[1..] == ["b"];
    assert FragmentClock(a, ["b"]) == "b" + [Nul] + "z";
    assert FragmentClock(b, ["b"]) == "b" + [Nul] + ("y" + [Soh, 'b', Nul] + "z");
    assert FragmentClock(a, keys) == "a" + [Nul] + "x" + [Soh, 'b', Nul] + "y" + [Soh] + ("b" + [Nul] + "z");
    assert FragmentClock(b, keys) == "a" + [Nul] + "x" + [Soh] + ("b" + [Nul] + ("y" + [Soh, 'b', Nul] + "z"));
    assert a[keys[0]] != b[keys[0]] by { assert |a["a"]| == 5 && |b["a"]| == 1; }
  }

  // ---- exactly which documents let a change pass unseen -----------------------------------------------------------

  // What the fingerprint puts between the fragment before `k` and the one at `k`.
  function Marker(k: Key): string { [Soh] + k + [Nul] }

  function Texts(d: Fragments, keys: seq<Key>): seq<string> {
    seq(|keys|, i requires 0 <= i < |keys| => Shown(d, keys[i]))
  }

  // The fingerprint behind its first key.
  function Body(keys: seq<Key>, texts: seq<string>): string
    requires |keys| == |texts| > 0
    decreases |keys|
  {
    if |keys| == 1 then texts[0] else texts[0] + Marker(keys[1]) + Body(keys[1..], texts[1..])
  }

  predicate OccursAt(part: string, text: string, i: nat) {
    i + |part| <= |text| && text[i..i + |part|] == part
  }

  predicate Occurs(part: string, text: string) {
    exists i | 0 <= i <= |text| :: OccursAt(part, text, i)
  }

  // Where a marker stands there is no separator behind its first character.
  lemma {:induction false} MarkerAt(k: Key, s: string, i: nat)
    requires Soh !in k && OccursAt(Marker(k), s, i)
    ensures s[i] == Soh
    ensures forall j | i < j < i + |Marker(k)| :: s[j] != Soh
  {
    var m := Marker(k);
    assert m[0] == Soh && s[i] == s[i..i + |m|][0];
    forall j | i < j < i + |m| ensures s[j] != Soh {
      assert s[j] == s[i..i + |m|][j - i] == m[j - i];
      assert j - i <= |k| ==> m[j - i] == k[j - i - 1];
    }
  }

  lemma {:induction false} OccursBetween(a: string, m: string, x: string)
    ensures OccursAt(m, a + m + x, |a|) && Occurs(m, a + m + x)
  {
    var s := a + m + x;
    assert s[|a|..|a| + |m|] == m;
    assert OccursAt(m, s, |a|) && |a| <= |s|;
  }

  // No text holds the marker in front of it or the marker behind it.
  predicate Sealed(keys: seq<Key>, texts: seq<string>)
    requires |keys| == |texts|
  {
    && (forall i :: 0 < i < |keys| ==> !Occurs(Marker(keys[i]), texts[i]))
    && (forall i :: 0 < i < |keys| ==> !Occurs(Marker(keys[i]), texts[i - 1]))
  }

  predicate PlainKeys(keys: seq<Key>) {
    && (forall i :: 0 <= i < |keys| ==> Soh !in keys[i])
    && (forall i, j :: 0 <= i < j < |keys| ==> keys[i] != keys[j])
  }

  lemma {:induction false} ClockIsBody(d: Fragments, keys: seq<Key>)
    requires keys != []
    ensures FragmentClock(d, keys) == keys[0] + [Nul] + Body(keys, Texts(d, keys))
    decreases |keys|
  {
    if |keys| > 1 {
      ClockIsBody(d, keys[1..]);
      assert Texts(d, keys)[1..] == Texts(d, keys[1..]);
      Regroup(keys[0], Texts(d, keys)[0], keys[1], Body(keys[1..], Texts(d, keys[1..])));
    }
  }

  lemma {:induction false} Regroup(k: string, text: string, next: string, rest: string)
    ensures (k + [Nul] + text) + [Soh] + (next + [Nul] + rest) == k + [Nul] + (text + Marker(next) + rest)
  {
  }

  /** A marker starts with the separator and has no other, so two of its occurrences never overlap. */
  lemma {:induction false} MarkersDoNotOverlap(k: Key, a: string, x: string, b: string, y: string)
    requires Soh !in k && |a| < |b| && a + Marker(k) + x == b + Marker(k) + y
    ensures |a| + |Marker(k)| <= |b|
    ensures Occurs(Marker(k), b)
    ensures b == a + Marker(k) + b[|a| + |Marker(k)|..]
    ensures x == b[|a| + |Marker(k)|..] + Marker(k) + y
  {
    var s, m := a + Marker(k) + x, Marker(k);
    OccursBetween(a, m, x);
    OccursBetween(b, m, y);
    MarkerAt(k, s, |a|);
    MarkerAt(k, s, |b|);
    assert s[..|b|] == b && s[|a|..|a| + |m|] == m;
    assert OccursAt(m, b, |a|);
    assert s[|a| + |m|..] == x;
    assert (b + m + y)[|a| + |m|..] == b[|a| + |m|..] + m + y;
  }

  /** With every text sealed, no marker of the other reading can stand later than in this one. */
  lemma {:induction false} NoLaterMarker(keys: seq<Key>, texts: seq<string>, w: string, others: seq<string>)
    requires |keys| == |texts| == |others| > 0 && PlainKeys(keys) && Sealed(keys, texts)
    requires !Occurs(Marker(keys[0]), texts[0])
    requires Body(keys, texts) == w + Marker(keys[0]) + Body(keys, others)
    ensures false
    decreases |keys|
  {
    var m := Marker(keys[0]);
    if |keys| == 1 {
      OccursBetween(w, m, others[0]);
    } else {
      var next := Marker(keys[1]);
      if |w| < |texts[0]| {
        MarkerInside(keys[0], keys[1], w, Body(keys, others), texts[0], Body(keys[1..], texts[1..]));
      } else {
        assert w + m + (others[0] + next + Body(keys[1..], others[1..])) == (w + m + others[0]) + next + Body(keys[1..], others[1..]);
        MarkersDoNotOverlap(keys[1], texts[0], Body(keys[1..], texts[1..]), w + m + others[0], Body(keys[1..], others[1..]));
        NoLaterMarker(keys[1..], texts[1..], (w + m + others[0])[|texts[0]| + |next|..], others[1..]);
      }
    }
  }

  // A marker that starts inside a text ends there: the separator behind the text is not in it.
  lemma {:induction false} MarkerInside(k: Key, next: Key, w: string, x: string, text: string, y: string)
    requires Soh !in k && |w| < |text| && w + Marker(k) + x == text + Marker(next) + y
    ensures Occurs(Marker(k), text)
  {
    var s, m := w + Marker(k) + x, Marker(k);
    OccursBetween(w, m, x);
    MarkerAt(k, s, |w|);
    assert s[|text|] == Soh;
    assert s[..|text|] == text && s[|w|..|w| + |m|] == m;
    assert OccursAt(m, text, |w|);
  }

  /** Sealed texts are read back from the fingerprint in one way only. */
  lemma {:induction false} SealedReadsOneWay(keys: seq<Key>, texts: seq<string>, others: seq<string>)
    requires |keys| == |texts| == |others| > 0 && PlainKeys(keys) && Sealed(keys, texts)
    requires Body(keys, texts) == Body(keys, others)
    ensures texts == others
    decreases |keys|
  {
    if |keys| > 1 {
      var x, y := Body(keys[1..], texts[1..]), Body(keys[1..], others[1..]);
      if |others[0]| < |texts[0]| {
        MarkersDoNotOverlap(keys[1], others[0], y, texts[0], x);
      } else if |texts[0]| < |others[0]| {
        MarkersDoNotOverlap(keys[1], texts[0], x, others[0], y);
        NoLaterMarker(keys[1..], texts[1..], others[0][|texts[0]| + |Marker(keys[1])|..], others[1..]);
      } else {
        SameLengthCut(texts[0], Marker(keys[1]), x, others[0], y);
        SealedReadsOneWay(keys[1..], texts[1..], others[1..]);
        assert texts == [texts[0]] + texts[1..] && others == [others[0]] + others[1..];
      }
    }
  }

  lemma {:induction false} SameLengthCut(a: string, m: string, x: string, b: string, y: string)
    requires |a| == |b| && a + m + x == b + m + y
    ensures a == b && x == y
  {
    assert (a + m + x)[..|a|] == a && (b + m + y)[..|b|] == b;
    assert (a + m + x)[|a| + |m|..] == x && (b + m + y)[|b| + |m|..] == y;
  }

  /** Where a text holds the marker in front of it or behind it, the fingerprint can be read another way. */
  lemma {:induction false} UnsealedReadsTwoWays(keys: seq<Key>, texts: seq<string>) returns (others: seq<string>)
    requires |keys| == |texts| > 0 && !Sealed(keys, texts)
    ensures |others| == |texts| && others != texts && Body(keys, texts) == Body(keys, others)
    decreases |keys|
  {
    var i :| 0 < i < |keys| && (Occurs(Marker(keys[i]), texts[i]) || Occurs(Marker(keys[i]), texts[i - 1]));
    if i > 1 {
      assert keys[1..][i - 1] == keys[i] && texts[1..][i - 1] == texts[i] && texts[1..][i - 2] == texts[i - 1];
      var rest := UnsealedReadsTwoWays(keys[1..], texts[1..]);
      others := [texts[0]] + rest;
      assert others[1..] == rest;
    } else {
      others := Recut(keys, texts);
    }
  }

  // The first two texts divided anew at another occurrence of the marker between them.
  lemma {:induction false} Recut(keys: seq<Key>, texts: seq<string>) returns (others: seq<string>)
    requires |keys| == |texts| > 1
    requires Occurs(Marker(keys[1]), texts[1]) || Occurs(Marker(keys[1]), texts[0])
    ensures |others| == |texts| && others != texts && Body(keys, texts) == Body(keys, others)
  {
    var first, second := Redivided(keys[1], texts[0], texts[1]);
    others := [first, second] + texts[2..];
    RecutBody(keys, texts, others, first, second);
  }

  lemma {:induction false} Redivided(k: Key, x: string, y: string) returns (first: string, second: string)
    requires Occurs(Marker(k), x) || Occurs(Marker(k), y)
    ensures x + Marker(k) + y == first + Marker(k) + second && first != x
  {
    var m := Marker(k);
    if at :| 0 <= at <= |x| && OccursAt(m, x, at) {
      first, second := x[..at], x[at + |m|..] + m + y;
      assert x == first + m + x[at + |m|..];
    } else {
      var at :| 0 <= at <= |y| && OccursAt(m, y, at);
      first, second := x + m + y[..at], y[at + |m|..];
      assert y == y[..at] + m + second;
      assert |first| > |x|;
    }
  }

  // What follows the second text.
  function Tail(keys: seq<Key>, texts: seq<string>): string
    requires |keys| == |texts| > 1
  {
    if |keys| == 2 then "" else Marker(keys[2]) + Body(keys[2..], texts[2..])
  }

  lemma {:induction false} BodyFromTwo(keys: seq<Key>, texts: seq<string>)
    requires |keys| == |texts| > 1
    ensures Body(keys, texts) == texts[0] + Marker(keys[1]) + (texts[1] + Tail(keys, texts))
  {
    if |keys| > 2 {
      assert keys[1..][1..] == keys[2..] && texts[1..][1..] == texts[2..];
      assert texts[1] + Marker(keys[2]) + Body(keys[2..], texts[2..]) == texts[1] + (Marker(keys[2]) + Body(keys[2..], texts[2..]));
    } else {
      assert texts[1] + "" == texts[1];
    }
  }

  lemma {:induction false} Reassociate(a: string, m: string, b: string, tail: string)
    ensures a + m + (b + tail) == (a + m + b) + tail
  {
  }

  lemma {:induction false} RecutBody(keys: seq<Key>, texts: seq<string>, others: seq<string>, first: string, second: string)
    requires |keys| == |texts| > 1 && others == [first, second] + texts[2..]
    requires texts[0] + Marker(keys[1]) + texts[1] == first + Marker(keys[1]) + second
    ensures Body(keys, texts) == Body(keys, others)
  {
    assert others[2..] == texts[2..];
    BodyFromTwo(keys, texts);
    BodyFromTwo(keys, others);
    Reassociate(texts[0], Marker(keys[1]), texts[1], Tail(keys, texts));
    Reassociate(first, Marker(keys[1]), second, Tail(keys, texts));
  }

  // Every watched fragment is there, reads as something else than the mark of an absent one, and is sealed.
  predicate SeenWhole(d: Fragments, keys: seq<Key>) {
    (forall i :: 0 <= i < |keys| ==> keys[i] in d && d[keys[i]] != AbsentMark) && Sealed(keys, Texts(d, keys))
  }

  lemma {:induction false} SameTexts(a: Fragments, b: Fragments, keys: seq<Key>)
    requires Texts(a, keys) == Texts(b, keys)
    requires forall i :: 0 <= i < |keys| ==> keys[i] in a && a[keys[i]] != AbsentMark
    ensures SameOn(a, b, keys)
  {
    forall i | 0 <= i < |keys| ensures keys[i] in b && a[keys[i]] == b[keys[i]] {
      assert Texts(a, keys)[i] == Texts(b, keys)[i];
    }
  }

  lemma {:induction false} HiddenAbsence(d: Fragments, keys: seq<Key>, i: nat) returns (other: Fragments)
    requires i < |keys| && (keys[i] !in d || d[keys[i]] == AbsentMark)
    ensures !SameOn(d, other, keys) && FragmentClock(d, keys) == FragmentClock(other, keys)
  {
    other := if keys[i] in d then d - {keys[i]} else d[keys[i] := AbsentMark];
    assert (keys[i] in d) != (keys[i] in other);
    assert Texts(d, keys) == Texts(other, keys);
    ClockIsBody(d, keys);
    ClockIsBody(other, keys);
  }

  lemma {:induction false} HiddenRecut(d: Fragments, keys: seq<Key>) returns (other: Fragments)
    requires PlainKeys(keys) && keys != [] && !Sealed(keys, Texts(d, keys))
    ensures !SameOn(d, other, keys) && FragmentClock(d, keys) == FragmentClock(other, keys)
  {
    var texts := UnsealedReadsTwoWays(keys, Texts(d, keys));
    other := WithTexts(keys, texts);
    assert Texts(other, keys) == texts;
    ClockIsBody(d, keys);
    ClockIsBody(other, keys);
    var i :| 0 <= i < |keys| && texts[i] != Texts(d, keys)[i];
    assert Shown(d, keys[i]) != Shown(other, keys[i]);
  }

  function WithTexts(keys: seq<Key>, texts: seq<string>): (d: Fragments)
    requires |keys| == |texts| && PlainKeys(keys)
    ensures forall i :: 0 <= i < |keys| ==> keys[i] in d && d[keys[i]] == texts[i]
  {
    if keys == [] then map[]
    else WithTexts(keys[1..], texts[1..])[keys[0] := texts[0]]
  }

  /**
   * Exactly when some change of the watched fragments leaves the fingerprint as it was: one of them is absent or
   * reads like an absent one, or holds the marker of its own key or of the next.
   */
  lemma {:induction false} AChangeIsHiddenIff(d: Fragments, keys: seq<Key>)
    requires PlainKeys(keys)
    ensures (exists other :: !SameOn(d, other, keys) && FragmentClock(d, keys) == FragmentClock(other, keys)) <==> !SeenWhole(d, keys)
  {
    if !SeenWhole(d, keys) {
      if i :| 0 <= i < |keys| && (keys[i] !in d || d[keys[i]] == AbsentMark) {
        var other := HiddenAbsence(d, keys, i);
      } else {
        var other := HiddenRecut(d, keys);
      }
    } else if keys != [] {
      forall other | FragmentClock(d, keys) == FragmentClock(other, keys) ensures SameOn(d, other, keys) {
        WholeIsTold(d, other, keys);
      }
    }
  }

  lemma {:induction false} WholeIsTold(d: Fragments, other: Fragments, keys: seq<Key>)
    requires PlainKeys(keys) && SeenWhole(d, keys) && keys != [] && FragmentClock(d, keys) == FragmentClock(other, keys)
    ensures SameOn(d, other, keys)
  {
    ClockIsBody(d, keys);
    ClockIsBody(other, keys);
    var x, y := Body(keys, Texts(d, keys)), Body(keys, Texts(other, keys));
    assert (keys[0] + [Nul] + x)[|keys[0]| + 1..] == x && (keys[0] + [Nul] + y)[|keys[0]| + 1..] == y;
    SealedReadsOneWay(keys, Texts(d, keys), Texts(other, keys));
    SameTexts(d, other, keys);
  }

  // ---- the transaction -----------------------------------------------------------------------------------------

  datatype Attempt = Applied | NoOp | Moved
  datatype Outcome = Done(applied: bool) | KeptMoving

  // One attempt, seen from outside: the document when it began and when the transaction opened.
  function Attempted<D>(begun: Fragments, opened_: Fragments, keys: seq<Key>, compute: Fragments -> Option<D>): Attempt {
    if compute(begun).None? then NoOp
    else if FragmentClock(opened_, keys) != FragmentClock(begun, keys) then Moved
    else Applied
  }

  class LiveDocument<D(==)> {
    var fragments: Fragments
    var appliedDeltas: seq<D>   // every delta applied through the transaction, in order

    /** One attempt. `meanwhile` is the document the editors have made of it while the delta was computed. */
    method AttemptOnce(keys: seq<Key>, compute: Fragments -> Option<D>, apply: (D, Fragments) -> Fragments,
                       meanwhile: Fragments) returns (a: Attempt)
      modifies this
      ensures a == Attempted(old(fragments), meanwhile, keys, compute)
      ensures a.Applied? ==>
        && fragments == apply(compute(old(fragments)).value, meanwhile)
        && appliedDeltas == old(appliedDeltas) + [compute(old(fragments)).value]
      ensures !a.Applied? ==> fragments == meanwhile && appliedDeltas == old(appliedDeltas)
    {
      var before := FragmentClock(fragments, keys);
      var delta := compute(fragments);
      fragments := meanwhile;
      if delta.None? { return NoOp; }
      var moved := false;
      var now := FragmentClock(fragments, keys);
      if now != before {
        moved := true;
      } else {
        fragments := apply(delta.value, fragments);
        appliedDeltas := appliedDeltas + [delta.value];
      }
      return if moved then Moved else Applied;
    }

    /** At most one delta is applied, it was computed on a snapshot whose fingerprint still holds, and `KeptMoving`
      * is the error after the one retry. `meanwhile1` and `meanwhile2` are what the editors do during each attempt. */
    method RunIdentityPreservingTransaction(keys: seq<Key>, compute: Fragments -> Option<D>,
                                            apply: (D, Fragments) -> Fragments,
                                            meanwhile1: Fragments, meanwhile2: Fragments) returns (r: Outcome)
      modifies this
      ensures var first := Attempted(old(fragments), meanwhile1, keys, compute);
        var second := Attempted(meanwhile1, meanwhile2, keys, compute);
        && r == Result(first, second)
        && appliedDeltas == old(appliedDeltas)
             + (if first.Applied? then [compute(old(fragments)).value]
                else if first.Moved? && second.Applied? then [compute(meanwhile1).value] else [])
        && fragments == (if first.Applied? then apply(compute(old(fragments)).value, meanwhile1)
                         else if first.NoOp? then meanwhile1
                         else if second.Applied? then apply(compute(meanwhile1).value, meanwhile2)
                         else meanwhile2)
    {
      var first := AttemptOnce(keys, compute, apply, meanwhile1);
      if !first.Moved? { return Done(first.Applied?); }
      var second := AttemptOnce(keys, compute, apply, meanwhile2);
      if !second.Moved? { return Done(second.Applied?); }
      return KeptMoving;
    }
  }

  function Result(first: Attempt, second: Attempt): Outcome {
    if !first.Moved? then Done(first.Applied?) else if !second.Moved? then Done(second.Applied?) else KeptMoving
  }

  /** What the outcome tells the caller, on plain fragments: the delta went in exactly when the watched fragments were
    * as they were when it was computed, nothing-to-do is exactly a computation that returned nothing, and edits of
    * other fragments never make it fail. */
  lemma {:induction false} WhatTheOutcomeMeans<D>(begun: Fragments, m1: Fragments, m2: Fragments, keys: seq<Key>,
                                                 compute: Fragments -> Option<D>)
    requires Plain(begun, keys) && Plain(m1, keys) && Plain(m2, keys)
    ensures var r := Result(Attempted(begun, m1, keys, compute), Attempted(m1, m2, keys, compute));
      var calm1, calm2 := SameOn(begun, m1, keys), SameOn(m1, m2, keys);
      && (r == Done(true) <==> compute(begun).Some? && (calm1 || (compute(m1).Some? && calm2)))
      && (r == Done(false) <==> compute(begun).None? || (!calm1 && compute(m1).None?))
      && (r == KeptMoving <==> compute(begun).Some? && compute(m1).Some? && !calm1 && !calm2)
  {
    ClockSeesExactlyTheWatched(begun, m1, keys);
    ClockSeesExactlyTheWatched(m1, m2, keys);
  }

  /** A delta computed from the watched fragments alone finds, when it is applied, the fragments it was computed from. */
  lemma {:induction false} AppliedToWhatItWasComputedFrom<D>(begun: Fragments, m1: Fragments, keys: seq<Key>,
                                                            compute: Fragments -> Option<D>)
    requires Plain(begun, keys) && Plain(m1, keys)
    requires forall a, b :: SameOn(a, b, keys) ==> compute(a) == compute(b)
    requires Attempted(begun, m1, keys, compute).Applied?
    ensures compute(m1) == compute(begun) && SameOn(begun, m1, keys)
  {
    ClockSeesExactlyTheWatched(begun, m1, keys);
  }

  /** Exactly when some edit made meanwhile is missed, and the delta meets other fragments than it was computed from. */
  lemma {:induction false} MayMeetAChangedDocumentIff<D>(begun: Fragments, keys: seq<Key>, compute: Fragments -> Option<D>)
    requires PlainKeys(keys) && compute(begun).Some?
    ensures (exists m :: !SameOn(begun, m, keys) && Attempted(begun, m, keys, compute).Applied?) <==> !SeenWhole(begun, keys)
  {
    AChangeIsHiddenIff(begun, keys);
    if !SeenWhole(begun, keys) {
      var m :| !SameOn(begun, m, keys) && FragmentClock(begun, keys) == FragmentClock(m, keys);
      assert Attempted(begun, m, keys, compute).Applied?;
    }
  }
}
