/** The address of a section among the headings of a document, and how often each address is taken. */
module HeadingAddresses {
  import opened Basics
  import opened SectionForest

  // ---- the key of an address -----------------------------------------------------------------------------------

  // Segments in lower case, joined by ">>".
  function HeadingAddressKey(path: Path): string {
    if path == [] then ""
    else if |path| == 1 then Lower(path[0])
    else Lower(path[0]) + ">>" + HeadingAddressKey(path[1..])
  }

  predicate HeadingPathsAddressEqual(a: Path, b: Path) {
    |a| == |b| && forall i :: 0 <= i < |a| ==> HeadingsEqual(a[i], b[i])
  }

  predicate PlainSegment(s: string) { s != "" && '>' !in s }

  predicate PlainPath(p: Path) { forall i :: 0 <= i < |p| ==> PlainSegment(p[i]) }

  lemma {:induction false} LowerKeepsPlain(s: string)
    requires PlainSegment(s)
    ensures PlainSegment(Lower(s))
  {
    forall i | 0 <= i < |s| ensures Lower(s)[i] != '>' { assert s[i] in s; }
  }

  lemma {:induction false} KeyOfFirst(p: Path)
    requires p != [] && PlainPath(p)
    ensures HeadingAddressKey(p) != ""
    ensures PlainSegment(Lower(p[0]))
  {
    LowerKeepsPlain(p[0]);
  }

  // Where the first segment ends in a key.
  lemma {:induction false} CutAtArrow(a: string, b: string, x: string, y: string)
    requires '>' !in a && '>' !in b && a + ">>" + x == b + ">>" + y
    ensures a == b && x == y
  {
    var s, t := a + ">>" + x, b + ">>" + y;
    assert s[|a|] == '>' && t[|b|] == '>';
    assert forall i :: 0 <= i < |a| ==> s[i] == a[i] && a[i] in a;
    assert forall i :: 0 <= i < |b| ==> t[i] == b[i] && b[i] in b;
    assert |a| == |b|;
    assert s[..|a|] == a && t[..|b|] == b;
    assert s[|a| + 2..] == x && t[|b| + 2..] == y;
  }

  lemma {:induction false} NoArrowInside(a: string, b: string, y: string)
    requires '>' !in a
    ensures a != b + ">>" + y
  {
    var t := b + ">>" + y;
    assert t[|b|] == '>';
    assert |b| < |a| ==> a[|b|] in a;
  }

  /** Paths that are equal address for address have one key; with plain segments the key tells them apart exactly. */
  lemma {:induction false} KeyIsTheAddress(a: Path, b: Path)
    ensures HeadingPathsAddressEqual(a, b) ==> HeadingAddressKey(a) == HeadingAddressKey(b)
    ensures PlainPath(a) && PlainPath(b) ==>
      (HeadingAddressKey(a) == HeadingAddressKey(b) <==> HeadingPathsAddressEqual(a, b))
    decreases |a|
  {
    if HeadingPathsAddressEqual(a, b) {
      if a != [] {
        forall i | 0 <= i < |a| - 1 ensures HeadingsEqual(a[1..][i], b[1..][i]) { assert HeadingsEqual(a[i + 1], b[i + 1]); }
        KeyIsTheAddress(a[1..], b[1..]);
      }
    } else if PlainPath(a) && PlainPath(b) && HeadingAddressKey(a) == HeadingAddressKey(b) {
      KeysDiffer(a, b);
    }
  }

  lemma {:induction false} KeysDiffer(a: Path, b: Path)
    requires PlainPath(a) && PlainPath(b) && HeadingAddressKey(a) == HeadingAddressKey(b)
    ensures HeadingPathsAddressEqual(a, b)
    decreases |a|
  {
    if a != [] { KeyOfFirst(a); }
    if b != [] { KeyOfFirst(b); }
    if |a| == 1 && |b| > 1 {
      NoArrowInside(Lower(a[0]), Lower(b[0]), HeadingAddressKey(b[1..]));
    } else if |b| == 1 && |a| > 1 {
      NoArrowInside(Lower(b[0]), Lower(a[0]), HeadingAddressKey(a[1..]));
    } else if |a| > 1 && |b| > 1 {
      CutAtArrow(Lower(a[0]), Lower(b[0]), HeadingAddressKey(a[1..]), HeadingAddressKey(b[1..]));
      KeysDiffer(a[1..], b[1..]);
      forall i | 0 <= i < |a| ensures HeadingsEqual(a[i], b[i]) {
        if i > 0 { assert HeadingsEqual(a[1..][i - 1], b[1..][i - 1]); }
      }
    }
  }

  /** A heading that itself contains the separator takes the key of another section's address. */
  lemma {:induction false} AnArrowInAHeadingCollides()
    ensures HeadingAddressKey(["a>>b"]) == HeadingAddressKey(["a", "b"])
    ensures !HeadingPathsAddressEqual(["a>>b"], ["a", "b"])
  {
    assert Lower("a>>b") == "a>>b" && Lower("a") == "a" && Lower("b") == "b";
    assert ["a", "b"][1..] == ["b"];
  }

  // ---- exactly which paths share a key ---------------------------------------------------------------------------

  const Arrow: string := ">>"

  function LowerPath(p: Path): seq<string> {
    seq(|p|, i requires 0 <= i < |p| => Lower(p[i]))
  }

  function Joined(segments: seq<string>): string {
    if segments == [] then ""
    else if |segments| == 1 then segments[0]
    else segments[0] + Arrow + Joined(segments[1..])
  }

  lemma {:induction false} KeyIsJoined(p: Path)
    ensures HeadingAddressKey(p) == Joined(LowerPath(p))
  {
    if |p| > 1 {
      KeyIsJoined(p[1..]);
      assert LowerPath(p)[1..] == LowerPath(p[1..]);
    }
  }

  lemma {:induction false} EqualAddresses(a: Path, b: Path)
    ensures HeadingPathsAddressEqual(a, b) <==> LowerPath(a) == LowerPath(b)
  {
    if LowerPath(a) == LowerPath(b) {
      forall i | 0 <= i < |a| ensures HeadingsEqual(a[i], b[i]) {
        assert LowerPath(a)[i] == LowerPath(b)[i];
      }
    }
  }

  lemma {:induction false} LowerTwice(s: string)
    ensures Lower(Lower(s)) == Lower(s)
  {
  }

  lemma {:induction false} LowerPathTwice(segments: seq<string>)
    requires forall i :: 0 <= i < |segments| ==> Lower(segments[i]) == segments[i]
    ensures LowerPath(segments) == segments
  {
  }

  // Somewhere in the text there are two arrow heads in a row.
  predicate HasArrow(s: string) {
    exists i :: 0 <= i < |s| - 1 && s[i] == '>' && s[i + 1] == '>'
  }

  /** Not empty and without the separator: what a heading is expected to be. */
  predicate CleanSegment(s: string) { s != "" && !HasArrow(s) }

  predicate Clean(segments: seq<string>) { forall i :: 0 <= i < |segments| ==> CleanSegment(segments[i]) }

  predicate StartsWithHead(s: string) { s != "" && s[0] == '>' }

  predicate EndsWithHead(s: string) { s != "" && s[|s| - 1] == '>' }

  /**
   * An arrow head beside a run of separators can move to its other side: it ends a segment, or starts one, of two
   * characters or more, there are only lone arrow heads between the separators of the run, and there is none at the
   * other end.
   */
  predicate Shiftable(segments: seq<string>, i: nat, j: nat)
    requires i < j < |segments|
  {
    && (forall k :: i < k < j ==> segments[k] == ">")
    && ((EndsWithHead(segments[i]) && |segments[i]| > 1 && !StartsWithHead(segments[j]))
      || (StartsWithHead(segments[j]) && |segments[j]| > 1 && !EndsWithHead(segments[i])))
  }

  predicate SomeShift(segments: seq<string>) {
    exists i, j :: 0 <= i < j < |segments| && Shiftable(segments, i, j)
  }

  // `b` has one arrow head more in front of it, and the same characters otherwise.
  lemma {:induction false} HeadInFront(a: seq<string>, b: seq<string>) returns (j: nat)
    requires Clean(a) && Clean(b) && a != [] && b != [] && Joined(b) == ">" + Joined(a)
    ensures j < |a| && j < |b|
    ensures forall k :: 0 <= k < j ==> a[k] == ">" && b[k] == ">"
    ensures !StartsWithHead(a[j]) && StartsWithHead(b[j]) && |b[j]| > 1
    decreases |a|
  {
    assert b[0][0] == '>' by { JoinedStarts(b); assert Joined(b)[0] == '>'; }
    if |b[0]| > 1 {
      j := 0;
      JoinedStarts(a);
      JoinedStarts(b);
      assert Joined(a)[0] == Joined(b)[1] == b[0][1];
      assert b[0][1] != '>';
    } else {
      assert b[0] == ">";
      LoneHeadInFront(a, b);
      j := HeadInFront(a[1..], b[1..]);
      assert forall k :: 0 < k <= j ==> a[k] == a[1..][k - 1] && b[k] == b[1..][k - 1];
      j := j + 1;
    }
  }

  lemma {:induction false} JoinedStarts(a: seq<string>)
    requires a != [] && a[0] != ""
    ensures |Joined(a)| >= |a[0]| && Joined(a)[..|a[0]|] == a[0]
    ensures |a| > 1 ==> Joined(a) == a[0] + Arrow + Joined(a[1..])
  {
  }

  // A segment without the separator ends where the text behind its start has one.
  lemma {:induction false} EndsAtDouble(segment: string, text: string, n: nat)
    requires CleanSegment(segment) && |segment| <= |text| && text[..|segment|] == segment
    requires n < |segment| && n + 1 < |text| && text[n] == '>' && text[n + 1] == '>'
    ensures |segment| == n + 1
  {
    assert forall i :: 0 <= i < |segment| ==> segment[i] == text[i];
    assert segment[n] == '>';
  }

  lemma {:induction false} LoneHeadInFront(a: seq<string>, b: seq<string>)
    requires Clean(a) && Clean(b) && a != [] && b != [] && Joined(b) == ">" + Joined(a) && b[0] == ">"
    ensures |a| > 1 && |b| > 1 && a[0] == ">" && Joined(b[1..]) == ">" + Joined(a[1..])
  {
    JoinedStarts(a);
    var s := Joined(a);
    assert |b| > 1;
    var y := Joined(b[1..]);
    assert ">" + s == ">" + Arrow + y;
    BehindFirst(s, y);
    EndsAtDouble(a[0], s, 0);
    assert a[0] == ">";
    assert |a| > 1;
    var x := Joined(a[1..]);
    BehindDouble(s, x, y);
  }

  lemma {:induction false} BehindFirst(s: string, y: string)
    requires ">" + s == ">" + Arrow + y
    ensures s == Arrow + y && |s| > 1 && s[0] == '>' && s[1] == '>'
  {
    assert (">" + s)[1..] == s && (">" + Arrow + y)[1..] == Arrow + y;
  }

  lemma {:induction false} BehindDouble(s: string, x: string, y: string)
    requires s == Arrow + y && s == ">" + Arrow + x
    ensures y == ">" + x
  {
    assert s[2..] == y && (">" + Arrow + x)[2..] == ">" + x;
  }

  /** Two clean readings of one text, the first segment longer in `a`. */
  lemma {:induction false} LongerFirst(a: seq<string>, b: seq<string>)
    requires Clean(a) && Clean(b) && a != [] && b != [] && Joined(a) == Joined(b) && |a[0]| > |b[0]|
    ensures SomeShift(a) && SomeShift(b)
  {
    JoinedStarts(a);
    JoinedStarts(b);
    var s, n := Joined(a), |b[0]|;
    assert |b| > 1;
    assert s[n] == '>' && s[n + 1] == '>';
    assert a[0][n] == '>';
    EndsAtDouble(a[0], s, n);
    assert a[0] == b[0] + ">";
    assert |a| > 1;
    var x, y := Joined(a[1..]), Joined(b[1..]);
    assert (b[0] + ">" + Arrow + x)[n + 2..] == ">" + x;
    assert (b[0] + Arrow + y)[n + 2..] == y;
    var j := HeadInFront(a[1..], b[1..]);
    assert forall k :: 0 < k <= j + 1 ==> a[k] == a[1..][k - 1] && b[k] == b[1..][k - 1];
    assert n > 0 && a[0][n - 1] == b[0][n - 1];
    assert Shiftable(a, 0, j + 1);
    assert Shiftable(b, 0, j + 1);
  }

  lemma {:induction false} TwoReadingsShift(a: seq<string>, b: seq<string>)
    requires Clean(a) && Clean(b) && Joined(a) == Joined(b) && a != b
    ensures SomeShift(a)
    decreases |a|
  {
    if a != [] { JoinedStarts(a); }
    if b != [] { JoinedStarts(b); }
    assert a != [] && b != [];
    if |a[0]| > |b[0]| {
      LongerFirst(a, b);
    } else if |a[0]| < |b[0]| {
      LongerFirst(b, a);
    } else {
      assert a[0] == b[0];
      assert |a| > 1 && |b| > 1 by {
        assert |a| == 1 ==> Joined(a) == a[0];
        assert |b| == 1 ==> Joined(b) == b[0];
        assert a == [a[0]] + a[1..] && b == [b[0]] + b[1..];
      }
      assert Joined(a[1..]) == Joined(a)[|a[0]| + 2..] == Joined(b)[|b[0]| + 2..] == Joined(b[1..]);
      assert a == [a[0]] + a[1..] && b == [b[0]] + b[1..];
      TwoReadingsShift(a[1..], b[1..]);
      var i, j :| 0 <= i < j < |a[1..]| && Shiftable(a[1..], i, j);
      assert Shiftable(a, i + 1, j + 1) by {
        forall k | i + 1 < k < j + 1 ensures a[k] == ">" { assert a[1..][k - 1] == ">"; }
      }
    }
  }

  // The arrow head at one end of a run put to its other end.
  function Shifted(segments: seq<string>, i: nat, j: nat): seq<string>
    requires i < j < |segments| && Shiftable(segments, i, j)
  {
    var a, b := segments[i], segments[j];
    if EndsWithHead(a) && |a| > 1 && !StartsWithHead(b) then segments[i := a[..|a| - 1]][j := ">" + b]
    else segments[i := a + ">"][j := b[1..]]
  }

  lemma {:induction false} JoinedTail(a: seq<string>, b: seq<string>)
    requires a != [] && |a| == |b| && a[1..] == b[1..]
    ensures Joined([">" + a[0]] + a[1..]) == ">" + Joined(a)
    ensures a[0] == b[0] ==> Joined(a) == Joined(b)
  {
    var c := [">" + a[0]] + a[1..];
    assert c[1..] == a[1..];
    if |a| > 1 {
      assert ">" + a[0] + Arrow + Joined(a[1..]) == ">" + (a[0] + Arrow + Joined(a[1..]));
    }
  }

  // A head in front of lone heads up to `j` stands in front of the segment at `j`.
  lemma {:induction false} HeadThroughRun(segments: seq<string>, j: nat)
    requires j < |segments| && forall k :: 0 <= k < j ==> segments[k] == ">"
    ensures Joined(segments[j := ">" + segments[j]]) == ">" + Joined(segments)
  {
    var moved := segments[j := ">" + segments[j]];
    if j == 0 {
      assert moved == [">" + segments[0]] + segments[1..];
      JoinedTail(segments, segments);
    } else {
      HeadThroughRun(segments[1..], j - 1);
      assert moved[1..] == segments[1..][j - 1 := ">" + segments[1..][j - 1]];
      var x := Joined(segments[1..]);
      assert Joined(moved) == ">" + Arrow + (">" + x);
      assert Joined(segments) == ">" + Arrow + x;
      assert ">" + Arrow + (">" + x) == ">" + (">" + Arrow + x);
    }
  }

  // Giving the first segment a head or the one behind the run: the same text.
  lemma {:induction false} EitherSide(segments: seq<string>, j: nat)
    requires 0 < j < |segments| && forall k :: 0 < k < j ==> segments[k] == ">"
    ensures Joined(segments[0 := segments[0] + ">"]) == Joined(segments[j := ">" + segments[j]])
  {
    var left, right := segments[0 := segments[0] + ">"], segments[j := ">" + segments[j]];
    HeadThroughRun(segments[1..], j - 1);
    assert right[1..] == segments[1..][j - 1 := ">" + segments[1..][j - 1]];
    assert left[1..] == segments[1..];
    var x := Joined(segments[1..]);
    assert segments[0] + ">" + Arrow + x == segments[0] + Arrow + (">" + x);
  }

  lemma {:induction false} EitherSideFrom(segments: seq<string>, i: nat, j: nat)
    requires i < j < |segments| && forall k :: i < k < j ==> segments[k] == ">"
    ensures Joined(segments[i := segments[i] + ">"]) == Joined(segments[j := ">" + segments[j]])
  {
    if i == 0 {
      EitherSide(segments, j);
    } else {
      var rest := segments[1..];
      assert forall k :: i - 1 < k < j - 1 ==> rest[k] == segments[k + 1];
      EitherSideFrom(rest, i - 1, j - 1);
      assert segments[i := segments[i] + ">"][1..] == rest[i - 1 := rest[i - 1] + ">"];
      assert segments[j := ">" + segments[j]][1..] == rest[j - 1 := ">" + rest[j - 1]];
    }
  }

  lemma {:induction false} ShiftedReadsTheSame(segments: seq<string>, i: nat, j: nat)
    requires i < j < |segments| && Clean(segments) && Shiftable(segments, i, j)
    ensures Joined(Shifted(segments, i, j)) == Joined(segments)
    ensures Clean(Shifted(segments, i, j)) && Shifted(segments, i, j) != segments
  {
    var a, b := segments[i], segments[j];
    if EndsWithHead(a) && |a| > 1 && !StartsWithHead(b) {
      var base := segments[i := a[..|a| - 1]];
      assert a == a[..|a| - 1] + ">";
      assert base[i := base[i] + ">"] == segments;
      EitherSideFrom(base, i, j);
      TrimmedIsClean(a, b);
      assert base[j := ">" + b] == Shifted(segments, i, j);
      assert Shifted(segments, i, j)[j] != segments[j];
    } else {
      var base := segments[j := b[1..]];
      assert b == ">" + b[1..];
      assert base[j := ">" + base[j]] == segments;
      EitherSideFrom(base, i, j);
      HeadedIsClean(a, b);
      assert base[i := a + ">"] == Shifted(segments, i, j);
      assert Shifted(segments, i, j)[i] != segments[i];
    }
  }

  lemma {:induction false} TrimmedIsClean(a: string, b: string)
    requires CleanSegment(a) && CleanSegment(b) && |a| > 1 && !StartsWithHead(b)
    ensures CleanSegment(a[..|a| - 1]) && CleanSegment(">" + b)
  {
    assert forall i :: 0 < i < |b| ==> (">" + b)[i] == b[i - 1] && (">" + b)[i + 1] == b[i];
  }

  lemma {:induction false} HeadedIsClean(a: string, b: string)
    requires CleanSegment(a) && CleanSegment(b) && |b| > 1 && !EndsWithHead(a)
    ensures CleanSegment(a + ">") && CleanSegment(b[1..])
  {
    assert forall i :: 0 <= i < |b| - 1 ==> b[1..][i] == b[i + 1];
  }

  lemma {:induction false} LowerKeepsHeads(s: string)
    requires Lower(s) == s
    ensures Lower(s + ">") == s + ">" && Lower(">" + s) == ">" + s
    ensures forall i, j | 0 <= i <= j <= |s| :: Lower(s[i..j]) == s[i..j]
  {
    assert forall i | 0 <= i < |s| :: LowerChar(s[i]) == Lower(s)[i] == s[i];
  }

  lemma {:induction false} ShiftedIsLower(segments: seq<string>, i: nat, j: nat)
    requires i < j < |segments| && Shiftable(segments, i, j)
    requires forall k :: 0 <= k < |segments| ==> Lower(segments[k]) == segments[k]
    ensures LowerPath(Shifted(segments, i, j)) == Shifted(segments, i, j)
  {
    LowerKeepsHeads(segments[i]);
    LowerKeepsHeads(segments[j]);
    LowerPathTwice(Shifted(segments, i, j));
  }

  predicate CleanPath(p: Path) { Clean(LowerPath(p)) }

  /** Another path, of headings without the separator, has this one's key without being its address. */
  ghost predicate SharesItsKey(p: Path) {
    exists q: Path :: CleanPath(q) && HeadingAddressKey(q) == HeadingAddressKey(p) && !HeadingPathsAddressEqual(p, q)
  }

  /**
   * Exactly which paths of headings without the separator share their key with another: those with an arrow head
   * beside a separator, or a run of separators and lone arrow heads, and none at its other end.
   */
  lemma {:induction false} KeyIsSharedIff(p: Path)
    requires CleanPath(p)
    ensures SharesItsKey(p) <==> SomeShift(LowerPath(p))
  {
    var segments := LowerPath(p);
    KeyIsJoined(p);
    if SharesItsKey(p) {
      var q: Path :| CleanPath(q) && HeadingAddressKey(q) == HeadingAddressKey(p) && !HeadingPathsAddressEqual(p, q);
      KeyIsJoined(q);
      EqualAddresses(p, q);
      TwoReadingsShift(segments, LowerPath(q));
    }
    if SomeShift(segments) {
      var i, j :| 0 <= i < j < |segments| && Shiftable(segments, i, j);
      var q: Path := Shifted(segments, i, j);
      ShiftedReadsTheSame(segments, i, j);
      forall k | 0 <= k < |segments| ensures Lower(segments[k]) == segments[k] { LowerTwice(p[k]); }
      ShiftedIsLower(segments, i, j);
      KeyIsJoined(q);
      EqualAddresses(p, q);
      assert LowerPath(q) == q;
    }
  }

  /**
   * With headings that may hold the separator only a lone heading without it keeps its key to itself: any longer path
   * shares its key with the one heading that reads like it.
   */
  lemma {:induction false} OnlyALoneHeadingOwnsItsKey(p: Path)
    ensures (exists q: Path :: HeadingAddressKey(q) == HeadingAddressKey(p) && !HeadingPathsAddressEqual(p, q))
              <==> !(|p| == 1 && CleanSegment(Lower(p[0])))
  {
    KeyIsJoined(p);
    if |p| == 1 && CleanSegment(Lower(p[0])) {
      forall q: Path | HeadingAddressKey(q) == HeadingAddressKey(p) ensures HeadingPathsAddressEqual(p, q) {
        KeyIsJoined(q);
        if |q| > 1 { ArrowShows(LowerPath(q)); }
        EqualAddresses(p, q);
        assert LowerPath(q) == LowerPath(p);
      }
    } else {
      var q := AnotherWithTheKey(p);
    }
  }

  lemma {:induction false} ArrowShows(segments: seq<string>)
    requires |segments| > 1
    ensures HasArrow(Joined(segments))
  {
    var s, n := Joined(segments), |segments[0]|;
    assert s[n] == '>' && s[n + 1] == '>';
  }

  lemma {:induction false} AnotherWithTheKey(p: Path) returns (q: Path)
    requires !(|p| == 1 && CleanSegment(Lower(p[0])))
    ensures HeadingAddressKey(q) == HeadingAddressKey(p) && !HeadingPathsAddressEqual(p, q)
  {
    if p == [] {
      q := [""];
      assert Lower("") == "";
    } else if |p| > 1 {
      q := [HeadingAddressKey(p)];
      KeyIsLower(p);
    } else if p[0] == "" {
      q := [];
      assert Lower("") == "";
    } else {
      var s := Lower(p[0]);
      var i :| 0 <= i < |s| - 1 && s[i] == '>' && s[i + 1] == '>';
      q := [s[..i], s[i + 2..]];
      LowerTwice(p[0]);
      LowerKeepsHeads(s);
      assert q[1..] == [s[i + 2..]];
      assert s == s[..i] + Arrow + s[i + 2..];
    }
  }

  lemma {:induction false} KeyIsLower(p: Path)
    ensures Lower(HeadingAddressKey(p)) == HeadingAddressKey(p)
  {
    if |p| == 1 {
      LowerTwice(p[0]);
    } else if |p| > 1 {
      KeyIsLower(p[1..]);
      LowerTwice(p[0]);
      LowerOfThree(Lower(p[0]), HeadingAddressKey(p[1..]));
    }
  }

  lemma {:induction false} LowerOfThree(a: string, b: string)
    requires Lower(a) == a && Lower(b) == b
    ensures Lower(a + ">>" + b) == a + ">>" + b
  {
    var s := a + ">>" + b;
    forall i | 0 <= i < |s| ensures Lower(s)[i] == s[i] {
      assert i < |a| ==> Lower(a)[i] == a[i];
      assert i >= |a| + 2 ==> Lower(b)[i - |a| - 2] == b[i - |a| - 2];
    }
  }

  // ---- how often an address is taken ---------------------------------------------------------------------------

  function CountAddress(paths: seq<Path>, key: string): nat {
    if paths == [] then 0
    else (if HeadingAddressKey(paths[0]) == key then 1 else 0) + CountAddress(paths[1..], key)
  }

  lemma {:induction false} CountOfBoth(a: seq<Path>, b: seq<Path>, key: string)
    ensures CountAddress(a + b, key) == CountAddress(a, key) + CountAddress(b, key)
  {
    if a == [] {
      assert a + b == b;
    } else {
      assert (a + b)[1..] == a[1..] + b;
      CountOfBoth(a[1..], b, key);
    }
  }

  lemma {:induction false} CountOneMore(paths: seq<Path>, i: nat, key: string)
    requires i < |paths|
    ensures CountAddress(paths[..i + 1], key)
         == CountAddress(paths[..i], key) + if HeadingAddressKey(paths[i]) == key then 1 else 0
  {
    assert paths[..i + 1] == paths[..i] + [paths[i]];
    CountOfBoth(paths[..i], [paths[i]], key);
    assert [paths[i]][1..] == [];
  }

  method CountAddressByLoop(paths: seq<Path>, key: string) returns (count: nat)
    ensures count == CountAddress(paths, key)
  {
    count := 0;
    for i := 0 to |paths|
      invariant count == CountAddress(paths[..i], key)
    {
      CountOneMore(paths, i, key);
      if HeadingAddressKey(paths[i]) == key { count := count + 1; }
    }
    assert paths[..|paths|] == paths;
  }

  datatype Tally = Tally(count: nat, path: Path)

  // What a table of counts says about the paths put into it.
  ghost predicate Tallies(counts: map<string, Tally>, order: seq<string>, paths: seq<Path>) {
    && (forall key :: key in counts <==> CountAddress(paths, key) > 0)
    && (forall key | key in counts :: counts[key].count == CountAddress(paths, key))
    && (forall key | key in counts :: counts[key].path in paths && HeadingAddressKey(counts[key].path) == key)
    && (forall key :: key in order <==> key in counts)
    && (forall i, j :: 0 <= i < j < |order| ==> order[i] != order[j])
  }

  /** How often each address occurs, and the keys in the order they first occur. */
  method HeadingAddressCounts(paths: seq<Path>) returns (counts: map<string, Tally>, order: seq<string>)
    ensures Tallies(counts, order, paths)
  {
    counts, order := map[], [];
    for i := 0 to |paths|
      invariant Tallies(counts, order, paths[..i])
    {
      var key := HeadingAddressKey(paths[i]);
      forall k ensures CountAddress(paths[..i + 1], k) == CountAddress(paths[..i], k) + if key == k then 1 else 0 {
        CountOneMore(paths, i, k);
      }
      assert paths[..i + 1] == paths[..i] + [paths[i]];
      if key in counts {
        counts := counts[key := Tally(counts[key].count + 1, counts[key].path)];
      } else {
        counts := counts[key := Tally(1, paths[i])];
        order := order + [key];
      }
    }
    assert paths[..|paths|] == paths;
  }

  datatype Worsened = Worsened(key: string, path: Path)

  /** The address is taken twice or more, and more often than before. */
  predicate IsWorse(pre: seq<Path>, post: seq<Path>, key: string) {
    CountAddress(post, key) >= 2 && CountAddress(post, key) > CountAddress(pre, key)
  }

  /** What is reported: every worsened address, once, with a path that has it. */
  ghost predicate AreWorse(pre: seq<Path>, post: seq<Path>, worsened: seq<Worsened>) {
    && (forall key :: IsWorse(pre, post, key) ==> exists i :: 0 <= i < |worsened| && worsened[i].key == key)
    && (forall i :: 0 <= i < |worsened| ==> Reported(pre, post, worsened[i]))
    && (forall i, j :: 0 <= i < j < |worsened| ==> worsened[i].key != worsened[j].key)
  }

  ghost predicate Reported(pre: seq<Path>, post: seq<Path>, w: Worsened) {
    IsWorse(pre, post, w.key) && w.path in post && HeadingAddressKey(w.path) == w.key
  }

  // The worsened ones among the first `n` keys have been reported.
  ghost predicate ReportedUpTo(pre: seq<Path>, post: seq<Path>, order: seq<string>, n: nat, worsened: seq<Worsened>)
    requires n <= |order|
  {
    forall k :: 0 <= k < n && IsWorse(pre, post, order[k]) ==> exists j :: 0 <= j < |worsened| && worsened[j].key == order[k]
  }

  lemma {:induction false} OneMoreReported(pre: seq<Path>, post: seq<Path>, order: seq<string>, n: nat,
                                           worsened: seq<Worsened>, w: Worsened)
    requires n < |order| && ReportedUpTo(pre, post, order, n, worsened) && w.key == order[n]
    ensures ReportedUpTo(pre, post, order, n + 1, worsened + [w])
    ensures !IsWorse(pre, post, w.key) ==> ReportedUpTo(pre, post, order, n + 1, worsened)
  {
    var more := worsened + [w];
    forall k | 0 <= k < n + 1 && IsWorse(pre, post, order[k]) ensures exists j :: 0 <= j < |more| && more[j].key == order[k] {
      if k == n {
        assert more[|worsened|].key == order[k];
      } else {
        var j :| 0 <= j < |worsened| && worsened[j].key == order[k];
        assert more[j] == worsened[j];
      }
    }
  }

  // What the tables say of one key of the second.
  ghost predicate TalliedBoth(pre: map<string, Tally>, prePaths: seq<Path>, post: map<string, Tally>, postPaths: seq<Path>, key: string) {
    && key in post && post[key].count == CountAddress(postPaths, key)
    && post[key].path in postPaths && HeadingAddressKey(post[key].path) == key
    && CountAddress(prePaths, key) == if key in pre then pre[key].count else 0
  }

  method WorsenedDuplicateHeadingAddresses(prePaths: seq<Path>, postPaths: seq<Path>) returns (worsened: seq<Worsened>)
    ensures AreWorse(prePaths, postPaths, worsened)
  {
    var pre, preOrder := HeadingAddressCounts(prePaths);
    var post, order := HeadingAddressCounts(postPaths);
    forall i | 0 <= i < |order| ensures TalliedBoth(pre, prePaths, post, postPaths, order[i]) {
      assert order[i] in order;
    }
    forall key | IsWorse(prePaths, postPaths, key) ensures key in order {
      assert key in post;
    }
    worsened := SelectWorsened(pre, post, order, prePaths, postPaths);
  }

  method SelectWorsened(pre: map<string, Tally>, post: map<string, Tally>, order: seq<string>,
                        ghost prePaths: seq<Path>, ghost postPaths: seq<Path>) returns (worsened: seq<Worsened>)
    requires forall i :: 0 <= i < |order| ==> TalliedBoth(pre, prePaths, post, postPaths, order[i])
    requires forall i, j :: 0 <= i < j < |order| ==> order[i] != order[j]
    requires forall key :: IsWorse(prePaths, postPaths, key) ==> key in order
    ensures AreWorse(prePaths, postPaths, worsened)
  {
    worsened := [];
    for i := 0 to |order|
      invariant ReportedUpTo(prePaths, postPaths, order, i, worsened)
      invariant ChosenFrom(prePaths, postPaths, order, i, worsened)
    {
      var key := order[i];
      assert TalliedBoth(pre, prePaths, post, postPaths, key);
      var before := if key in pre then pre[key].count else 0;
      var w := Worsened(key, post[key].path);
      OneMoreReported(prePaths, postPaths, order, i, worsened, w);
      OneMoreChosen(prePaths, postPaths, order, i, worsened, w);
      if post[key].count >= 2 && post[key].count > before {
        worsened := worsened + [w];
      }
    }
    EveryWorseIsReported(prePaths, postPaths, order, worsened);
  }

  // What has been chosen is worse, comes from the first `n` keys and is chosen once.
  ghost predicate ChosenFrom(pre: seq<Path>, post: seq<Path>, order: seq<string>, n: nat, worsened: seq<Worsened>)
    requires n <= |order|
  {
    && (forall j :: 0 <= j < |worsened| ==> Reported(pre, post, worsened[j]) && worsened[j].key in order[..n])
    && (forall j, k :: 0 <= j < k < |worsened| ==> worsened[j].key != worsened[k].key)
  }

  lemma {:induction false} OneMoreChosen(pre: seq<Path>, post: seq<Path>, order: seq<string>, n: nat,
                                         worsened: seq<Worsened>, w: Worsened)
    requires n < |order| && ChosenFrom(pre, post, order, n, worsened) && w.key == order[n]
    requires forall a, b :: 0 <= a < b < |order| ==> order[a] != order[b]
    ensures ChosenFrom(pre, post, order, n + 1, worsened)
    ensures Reported(pre, post, w) ==> ChosenFrom(pre, post, order, n + 1, worsened + [w])
  {
    NotAmongEarlier(order, n);
  }

  lemma {:induction false} EveryWorseIsReported(pre: seq<Path>, post: seq<Path>, order: seq<string>, worsened: seq<Worsened>)
    requires ReportedUpTo(pre, post, order, |order|, worsened)
    requires forall key :: IsWorse(pre, post, key) ==> key in order
    ensures forall key :: IsWorse(pre, post, key) ==> exists i :: 0 <= i < |worsened| && worsened[i].key == key
  {
    forall key | IsWorse(pre, post, key) ensures exists i :: 0 <= i < |worsened| && worsened[i].key == key {
      var k :| 0 <= k < |order| && order[k] == key;
    }
  }

  lemma {:induction false} NotAmongEarlier(order: seq<string>, i: nat)
    requires i < |order| && forall a, b :: 0 <= a < b < |order| ==> order[a] != order[b]
    ensures order[i] !in order[..i]
    ensures forall key :: key in order[..i] ==> key in order[..i + 1]
    ensures order[i] in order[..i + 1]
  {
    assert order[..i + 1] == order[..i] + [order[i]];
  }

  /** Addresses a rewritten fragment's headed sections take: its parent's path and the path inside the fragment. */
  function CollectParsedHeadingAddresses(parent: Path, parsed: seq<Path>): seq<Path> {
    if parsed == [] then []
    else (if parsed[0] == [] then [] else [parent + parsed[0]]) + CollectParsedHeadingAddresses(parent, parsed[1..])
  }
}
