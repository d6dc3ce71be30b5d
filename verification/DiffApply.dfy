/** Applying the hunks of a unified diff, what the result is, and undoing it. */
module DiffApply {
  import opened Basics
  import opened DiffText

  datatype Mismatch = Mismatch(line: nat, kind: Kind, expected: string, found: string)

  // Past the end the program copies `undefined`, which joins as the empty string.
  function LineAt(orig: seq<string>, i: nat): string { if i < |orig| then orig[i] else "" }

  function Copied(orig: seq<string>, from: nat, to: int): seq<string>
    decreases to - from
  {
    if from >= to then [] else [LineAt(orig, from)] + Copied(orig, from + 1, to)
  }

  datatype Edited = Edited(out: seq<string>, at: nat)

  // Context and removed lines are compared with the text only where the text has a line.
  predicate Clashes(orig: seq<string>, at: nat, l: DiffLine) {
    !l.kind.Add? && at < |orig| && orig[at] != l.content
  }

  function EditLines(orig: seq<string>, at: nat, lines: seq<DiffLine>): Result<Edited, Mismatch>
    decreases |lines|
  {
    if lines == [] then Ok(Edited([], at))
    else if Clashes(orig, at, lines[0]) then Err(Mismatch(at + 1, lines[0].kind, lines[0].content, orig[at]))
    else match EditLines(orig, if lines[0].kind.Add? then at else at + 1, lines[1..])
      case Err(e) => Err(e)
      case Ok(rest) => Ok(rest.(out := (if lines[0].kind.Remove? then [] else [lines[0].content]) + rest.out))
  }

  function Start(h: Hunk, at: nat): nat { if at < h.oldStart - 1 then h.oldStart - 1 else at }

  function EditHunks(orig: seq<string>, at: nat, hunks: seq<Hunk>): Result<seq<string>, Mismatch>
    decreases |hunks|
  {
    if hunks == [] then Ok(Copied(orig, at, |orig|))
    else match EditLines(orig, Start(hunks[0], at), hunks[0].lines)
      case Err(e) => Err(e)
      case Ok(done) =>
        match EditHunks(orig, done.at, hunks[1..])
        case Err(e) => Err(e)
        case Ok(rest) => Ok(Copied(orig, at, hunks[0].oldStart - 1) + done.out + rest)
  }

  function Applied(text: string, hunks: seq<Hunk>): Result<string, Mismatch> {
    match EditHunks(Split(text), 0, hunks)
    case Err(e) => Err(e)
    case Ok(lines) => Ok(Join(lines))
  }

  // What a loop has put out so far, in front of what is still to come.
  function Before(out: seq<string>, r: Result<seq<string>, Mismatch>): Result<seq<string>, Mismatch> {
    match r
    case Err(e) => Err(e)
    case Ok(rest) => Ok(out + rest)
  }

  function BeforeLines(out: seq<string>, r: Result<Edited, Mismatch>): Result<Edited, Mismatch> {
    match r
    case Err(e) => Err(e)
    case Ok(rest) => Ok(rest.(out := out + rest.out))
  }

  lemma {:induction false} CopyOneMore(orig: seq<string>, from: nat, n: nat)
    ensures Copied(orig, from, from + n + 1) == Copied(orig, from, from + n) + [LineAt(orig, from + n)]
    decreases n
  {
    if n > 0 {
      CopyOneMore(orig, from + 1, n - 1);
    } else {
      assert Copied(orig, from + 1, from + 1) == [];
    }
  }

  method ApplyHunks(original: string, hunks: seq<Hunk>) returns (r: Result<string, Mismatch>)
    ensures r == Applied(original, hunks)
  {
    var lines := Split(original);
    var result: seq<string> := [];
    var at: nat := 0;
    var k := 0;
    ghost var whole := EditHunks(lines, 0, hunks);
    assert hunks[0..] == hunks;
    BeforeNothing(whole);
    while k < |hunks|
      invariant 0 <= k <= |hunks| && whole == Before(result, EditHunks(lines, at, hunks[k..]))
    {
      var h := hunks[k];
      assert hunks[k..][0] == h && hunks[k..][1..] == hunks[k + 1..];
      var copied, start := CopyLines(lines, at, h.oldStart - 1);
      assert start == Start(h, at);
      var edited := ApplyLines(lines, start, h.lines);
      if edited.Err? { return Err(edited.error); }
      BeforeTwice(result, copied + edited.value.out, EditHunks(lines, edited.value.at, hunks[k + 1..]));
      result := result + (copied + edited.value.out);
      at := edited.value.at;
      k := k + 1;
    }
    var copied, _ := CopyLines(lines, at, |lines|);
    return Ok(Join(result + copied));
  }

  method CopyLines(lines: seq<string>, from: nat, to: int) returns (copied: seq<string>, at: nat)
    ensures copied == Copied(lines, from, to)
    ensures at == if from < to then to else from
  {
    copied, at := [], from;
    while at < to
      invariant from <= at && (at == from || at <= to) && copied == Copied(lines, from, at)
    {
      CopyOneMore(lines, from, at - from);
      copied := copied + [LineAt(lines, at)];
      at := at + 1;
    }
  }

  method ApplyLines(orig: seq<string>, start: nat, lines: seq<DiffLine>) returns (r: Result<Edited, Mismatch>)
    ensures r == EditLines(orig, start, lines)
  {
    var out: seq<string> := [];
    var at: nat := start;
    var j := 0;
    assert lines[0..] == lines;
    BeforeNoLines(EditLines(orig, start, lines));
    while j < |lines|
      invariant 0 <= j <= |lines| && EditLines(orig, start, lines) == BeforeLines(out, EditLines(orig, at, lines[j..]))
    {
      var line := lines[j];
      assert lines[j..][0] == line && lines[j..][1..] == lines[j + 1..];
      ghost var was: nat, wasOut := at, out;
      match line.kind {
        case Context =>
          if at < |orig| && orig[at] != line.content { return Err(Mismatch(at + 1, Context, line.content, orig[at])); }
          out := out + [line.content];
          at := at + 1;
        case Remove =>
          if at < |orig| && orig[at] != line.content { return Err(Mismatch(at + 1, Remove, line.content, orig[at])); }
          at := at + 1;
        case Add =>
          out := out + [line.content];
      }
      OneLineOn(orig, was, lines[j..], wasOut);
      j := j + 1;
    }
    assert lines[j..] == [] && out + [] == out;
    return Ok(Edited(out, at));
  }

  lemma {:induction false} OneLineOn(orig: seq<string>, at: nat, lines: seq<DiffLine>, out: seq<string>)
    requires lines != [] && !Clashes(orig, at, lines[0])
    ensures BeforeLines(out, EditLines(orig, at, lines))
         == BeforeLines(if lines[0].kind.Remove? then out else out + [lines[0].content],
                        EditLines(orig, if lines[0].kind.Add? then at else at + 1, lines[1..]))
  {
    var rest := EditLines(orig, if lines[0].kind.Add? then at else at + 1, lines[1..]);
    if rest.Ok? {
      var add: seq<string> := if lines[0].kind.Remove? then [] else [lines[0].content];
      assert out + (add + rest.value.out) == out + add + rest.value.out;
      assert out + [] == out;
    }
  }

  lemma {:induction false} BeforeNothing(r: Result<seq<string>, Mismatch>)
    ensures Before([], r) == r
  {
    if r.Ok? { assert [] + r.value == r.value; }
  }

  lemma {:induction false} BeforeNoLines(r: Result<Edited, Mismatch>)
    ensures BeforeLines([], r) == r
  {
    if r.Ok? { assert [] + r.value.out == r.value.out; }
  }

  lemma {:induction false} BeforeTwice(a: seq<string>, b: seq<string>, r: Result<seq<string>, Mismatch>)
    ensures Before(a, Before(b, r)) == Before(a + b, r)
  {
    if r.Ok? { assert a + (b + r.value) == a + b + r.value; }
  }

  // ---- what the result is --------------------------------------------------------------------------------------

  /** The two sides of a hunk. */
  function Old(lines: seq<DiffLine>): seq<string> {
    if lines == [] then [] else (if lines[0].kind.Add? then [] else [lines[0].content]) + Old(lines[1..])
  }

  function New(lines: seq<DiffLine>): seq<string> {
    if lines == [] then [] else (if lines[0].kind.Remove? then [] else [lines[0].content]) + New(lines[1..])
  }

  /** The old side agrees with the text wherever both have a line. */
  predicate Agrees(orig: seq<string>, at: nat, side: seq<string>) {
    forall i :: 0 <= i < |side| && at + i < |orig| ==> orig[at + i] == side[i]
  }

  predicate AllAgree(orig: seq<string>, at: nat, hunks: seq<Hunk>)
    decreases |hunks|
  {
    hunks == [] ||
    (var old_ := Old(hunks[0].lines);
     Agrees(orig, Start(hunks[0], at), old_) && AllAgree(orig, Start(hunks[0], at) + |old_|, hunks[1..]))
  }

  lemma {:induction false} EditedLines(orig: seq<string>, at: nat, lines: seq<DiffLine>)
    ensures EditLines(orig, at, lines).Ok? <==> Agrees(orig, at, Old(lines))
    ensures EditLines(orig, at, lines).Ok? ==> EditLines(orig, at, lines).value == Edited(New(lines), at + |Old(lines)|)
    decreases |lines|
  {
    if lines != [] {
      if lines[0].kind.Add? {
        EditedLines(orig, at, lines[1..]);
        assert Old(lines) == Old(lines[1..]);
      } else {
        EditedLines(orig, at + 1, lines[1..]);
        AgreesLineByLine(orig, at, lines[0].content, Old(lines[1..]));
        assert Clashes(orig, at, lines[0]) <==> at < |orig| && orig[at] != lines[0].content;
      }
    }
  }

  lemma {:induction false} AgreesLineByLine(orig: seq<string>, at: nat, first: string, rest: seq<string>)
    ensures Agrees(orig, at, [first] + rest) <==> !(at < |orig| && orig[at] != first) && Agrees(orig, at + 1, rest)
  {
    var side := [first] + rest;
    if Agrees(orig, at, side) {
      assert at + 0 < |orig| ==> orig[at + 0] == side[0];
      forall i | 0 <= i < |rest| && at + 1 + i < |orig| ensures orig[at + 1 + i] == rest[i] {
        assert orig[at + (i + 1)] == side[i + 1];
      }
    } else {
      var i :| 0 <= i < |side| && at + i < |orig| && orig[at + i] != side[i];
      assert i > 0 ==> orig[at + 1 + (i - 1)] != rest[i - 1];
    }
  }

  /** Applying succeeds exactly when every old side agrees with the text it meets. Nothing past the end is checked. */
  lemma {:induction false} AppliesIffAgrees(orig: seq<string>, at: nat, hunks: seq<Hunk>)
    ensures EditHunks(orig, at, hunks).Ok? <==> AllAgree(orig, at, hunks)
    decreases |hunks|
  {
    if hunks != [] {
      var h := hunks[0];
      EditedLines(orig, Start(h, at), h.lines);
      AppliesIffAgrees(orig, Start(h, at) + |Old(h.lines)|, hunks[1..]);
    }
  }

  // Where a hunk begins, counted from nought; a start of nought, as for text put into an empty file, is the first line.
  function Slot(start: nat): nat { if start == 0 then 0 else start - 1 }

  /** The hunks come in order and lie inside the text. */
  predicate Placed(orig: seq<string>, at: nat, hunks: seq<Hunk>)
    decreases |hunks|
  {
    if hunks == [] then at <= |orig|
    else
      && at <= Slot(hunks[0].oldStart)
      && Slot(hunks[0].oldStart) + |Old(hunks[0].lines)| <= |orig|
      && Placed(orig, Slot(hunks[0].oldStart) + |Old(hunks[0].lines)|, hunks[1..])
  }

  /** Placed, and every old side is the stretch of text at its place. */
  predicate Fits(orig: seq<string>, at: nat, hunks: seq<Hunk>) {
    Placed(orig, at, hunks) && AllAgree(orig, at, hunks)
  }

  /** The text with each old side replaced by its new side. */
  function Replaced(orig: seq<string>, at: nat, hunks: seq<Hunk>): seq<string>
    requires Placed(orig, at, hunks)
    decreases |hunks|
  {
    if hunks == [] then orig[at..]
    else
      var start := Slot(hunks[0].oldStart);
      orig[at..start] + New(hunks[0].lines) + Replaced(orig, start + |Old(hunks[0].lines)|, hunks[1..])
  }

  lemma {:induction false} CopiedIsSlice(orig: seq<string>, from: nat, to: nat)
    requires from <= to <= |orig|
    ensures Copied(orig, from, to) == orig[from..to]
    decreases if from <= to then to - from else 0
  {
    if from < to { CopiedIsSlice(orig, from + 1, to); }
  }

  /** Hunks that fit give the text with every old side replaced. */
  lemma {:induction false} FittingHunksReplace(orig: seq<string>, at: nat, hunks: seq<Hunk>)
    requires Fits(orig, at, hunks)
    ensures EditHunks(orig, at, hunks) == Ok(Replaced(orig, at, hunks))
    decreases |hunks|
  {
    if hunks == [] {
      CopiedIsSlice(orig, at, |orig|);
      assert orig[at..|orig|] == orig[at..];
    } else {
      var h := hunks[0];
      CopiedIsSlice(orig, at, Slot(h.oldStart));
      assert Start(h, at) == Slot(h.oldStart);
      assert Copied(orig, at, h.oldStart - 1) == Copied(orig, at, Slot(h.oldStart));
      EditedLines(orig, Start(h, at), h.lines);
      FittingHunksReplace(orig, Slot(h.oldStart) + |Old(h.lines)|, hunks[1..]);
    }
  }

  // ---- undoing -------------------------------------------------------------------------------------------------

  function Opposite(k: Kind): Kind {
    match k
    case Add => Remove
    case Remove => Add
    case Context => Context
  }

  function SwappedLines(lines: seq<DiffLine>): seq<DiffLine> {
    if lines == [] then []
    else [DiffLine(Opposite(lines[0].kind), lines[0].content)] + SwappedLines(lines[1..])
  }

  function SwappedHunk(h: Hunk): Hunk {
    Hunk(h.newStart, h.newCount, h.oldStart, h.oldCount, SwappedLines(h.lines))
  }

  function Swapped(hunks: seq<Hunk>): seq<Hunk> {
    if hunks == [] then [] else [SwappedHunk(hunks[0])] + Swapped(hunks[1..])
  }

  /** The new starts are where the new sides land in the new text. */
  predicate NewStartsRight(at: nat, newAt: nat, hunks: seq<Hunk>)
    decreases |hunks|
  {
    hunks == [] ||
    (&& Slot(hunks[0].newStart) - newAt == Slot(hunks[0].oldStart) - at
     && at <= Slot(hunks[0].oldStart)
     && NewStartsRight(Slot(hunks[0].oldStart) + |Old(hunks[0].lines)|, Slot(hunks[0].newStart) + |New(hunks[0].lines)|, hunks[1..]))
  }

  lemma {:induction false} SwappedSides(lines: seq<DiffLine>)
    ensures Old(SwappedLines(lines)) == New(lines) && New(SwappedLines(lines)) == Old(lines)
  {
    if lines != [] {
      SwappedSides(lines[1..]);
      assert SwappedLines(lines)[1..] == SwappedLines(lines[1..]);
    }
  }

  // `done` is the new text of what comes before `at`.
  lemma {:induction false} UndoFrom(orig: seq<string>, at: nat, done: seq<string>, hunks: seq<Hunk>)
    requires Fits(orig, at, hunks) && NewStartsRight(at, |done|, hunks)
    ensures var t := done + Replaced(orig, at, hunks);
      Fits(t, |done|, Swapped(hunks)) && Replaced(t, |done|, Swapped(hunks)) == orig[at..]
    decreases |hunks|
  {
    if hunks == [] {
      assert (done + Replaced(orig, at, hunks))[|done|..] == orig[at..];
    } else {
      var h := hunks[0];
      var start, end := Slot(h.oldStart), Slot(h.oldStart) + |Old(h.lines)|;
      var gap, tail := orig[at..start], Replaced(orig, end, hunks[1..]);
      UndoFrom(orig, end, done + gap + New(h.lines), hunks[1..]);
      FirstReplaced(orig, at, hunks);
      InFront(done, gap, New(h.lines), tail);
      UndoFirst(orig, at, done, h, tail, Swapped(hunks[1..]));
    }
  }

  // The first hunk undone, given the rest.
  lemma {:induction false} UndoFirst(orig: seq<string>, at: nat, done: seq<string>, h: Hunk, tail: seq<string>, rest: seq<Hunk>)
    requires at <= Slot(h.oldStart) && Slot(h.oldStart) + |Old(h.lines)| <= |orig|
    requires Agrees(orig, Slot(h.oldStart), Old(h.lines))
    requires Slot(h.newStart) == |done| + (Slot(h.oldStart) - at)
    requires var done' := done + orig[at..Slot(h.oldStart)] + New(h.lines);
      && Fits(done' + tail, |done'|, rest)
      && Replaced(done' + tail, |done'|, rest) == orig[Slot(h.oldStart) + |Old(h.lines)|..]
    ensures var t := done + orig[at..Slot(h.oldStart)] + New(h.lines) + tail;
      Fits(t, |done|, [SwappedHunk(h)] + rest) && Replaced(t, |done|, [SwappedHunk(h)] + rest) == orig[at..]
  {
    UndoHunk(done, orig[at..Slot(h.oldStart)], h, tail, rest);
    WholeAgain(orig, at, Slot(h.oldStart), Old(h.lines));
  }

  lemma {:induction false} InFront<T>(a: seq<T>, b: seq<T>, c: seq<T>, d: seq<T>)
    ensures a + (b + c + d) == a + b + c + d
  {
  }

  // Undoing the first hunk, when the rest is undone from where its new side ends.
  lemma {:induction false} UndoHunk(done: seq<string>, gap: seq<string>, h: Hunk, tail: seq<string>, rest: seq<Hunk>)
    requires Slot(h.newStart) == |done| + |gap|
    requires Fits(done + gap + New(h.lines) + tail, |done + gap + New(h.lines)|, rest)
    ensures var t := done + gap + New(h.lines) + tail;
      && Fits(t, |done|, [SwappedHunk(h)] + rest)
      && Replaced(t, |done|, [SwappedHunk(h)] + rest)
         == gap + Old(h.lines) + Replaced(t, |done + gap + New(h.lines)|, rest)
  {
    var t := done + gap + New(h.lines) + tail;
    SwappedSides(h.lines);
    assert ([SwappedHunk(h)] + rest)[1..] == rest;
    StandsBetween(done, gap, New(h.lines), tail);
  }

  lemma {:induction false} StandsBetween(done: seq<string>, gap: seq<string>, side: seq<string>, tail: seq<string>)
    ensures (done + gap + side + tail)[|done|..|done| + |gap|] == gap
    ensures Agrees(done + gap + side + tail, |done| + |gap|, side)
  {
  }

  lemma {:induction false} WholeAgain(orig: seq<string>, at: nat, start: nat, side: seq<string>)
    requires at <= start && start + |side| <= |orig| && Agrees(orig, start, side)
    ensures orig[at..] == orig[at..start] + side + orig[start + |side|..]
  {
    SideIsSlice(orig, start, side);
    assert orig[at..] == orig[at..start] + orig[start..start + |side|] + orig[start + |side|..];
  }

  lemma {:induction false} SideIsSlice(orig: seq<string>, at: nat, side: seq<string>)
    requires at + |side| <= |orig| && Agrees(orig, at, side)
    ensures orig[at..at + |side|] == side
  {
  }

  // More text behind the last hunk changes nothing before it.
  lemma {:induction false} MoreTextFits(orig: seq<string>, more: seq<string>, at: nat, hunks: seq<Hunk>)
    requires Fits(orig, at, hunks)
    ensures Fits(orig + more, at, hunks)
    decreases |hunks|
  {
    if hunks != [] {
      var h := hunks[0];
      MoreTextFits(orig, more, Slot(h.oldStart) + |Old(h.lines)|, hunks[1..]);
      MoreTextAround(orig, more, at, Slot(h.oldStart), Old(h.lines));
    }
  }

  lemma {:induction false} MoreTextBehind(orig: seq<string>, more: seq<string>, at: nat, hunks: seq<Hunk>)
    requires Placed(orig, at, hunks) && Placed(orig + more, at, hunks)
    ensures Replaced(orig + more, at, hunks) == Replaced(orig, at, hunks) + more
    decreases |hunks|
  {
    if hunks == [] {
      assert (orig + more)[at..] == orig[at..] + more;
    } else {
      var start, end := Slot(hunks[0].oldStart), Slot(hunks[0].oldStart) + |Old(hunks[0].lines)|;
      FirstReplaced(orig, at, hunks);
      FirstReplaced(orig + more, at, hunks);
      MoreTextBehind(orig, more, end, hunks[1..]);
      MoreBehind(orig, more, at, start, New(hunks[0].lines), Replaced(orig, end, hunks[1..]),
                 Replaced(orig, at, hunks), Replaced(orig + more, at, hunks), Replaced(orig + more, end, hunks[1..]));
    }
  }

  lemma {:induction false} MoreBehind<T>(orig: seq<T>, more: seq<T>, at: nat, start: nat, side: seq<T>, rest: seq<T>,
                                         all: seq<T>, allMore: seq<T>, restMore: seq<T>)
    requires at <= start <= |orig| && restMore == rest + more
    requires all == orig[at..start] + side + rest && allMore == (orig + more)[at..start] + side + restMore
    ensures allMore == all + more
  {
    assert (orig + more)[at..start] == orig[at..start];
  }

  lemma {:induction false} FirstReplaced(orig: seq<string>, at: nat, hunks: seq<Hunk>)
    requires Placed(orig, at, hunks) && hunks != []
    ensures Placed(orig, Slot(hunks[0].oldStart) + |Old(hunks[0].lines)|, hunks[1..])
    ensures Replaced(orig, at, hunks)
         == orig[at..Slot(hunks[0].oldStart)] + New(hunks[0].lines)
          + Replaced(orig, Slot(hunks[0].oldStart) + |Old(hunks[0].lines)|, hunks[1..])
  {
  }

  lemma {:induction false} MoreTextAround(orig: seq<string>, more: seq<string>, at: nat, start: nat, side: seq<string>)
    requires at <= start && start + |side| <= |orig|
    ensures Agrees(orig + more, start, side) <==> Agrees(orig, start, side)
    ensures (orig + more)[at..start] == orig[at..start]
  {
    assert forall k :: start <= k < start + |side| ==> (orig + more)[k] == orig[k];
  }

  predicate NewSidesAreLines(hunks: seq<Hunk>) { forall i :: 0 <= i < |hunks| ==> EachOneLine(New(hunks[i].lines)) }

  lemma {:induction false} ReplacedIsLines(orig: seq<string>, at: nat, hunks: seq<Hunk>)
    requires Placed(orig, at, hunks) && EachOneLine(orig) && NewSidesAreLines(hunks)
    ensures EachOneLine(Replaced(orig, at, hunks))
    decreases |hunks|
  {
    if hunks != [] {
      ReplacedIsLines(orig, Slot(hunks[0].oldStart) + |Old(hunks[0].lines)|, hunks[1..]);
      assert EachOneLine(New(hunks[0].lines));
    }
  }

  lemma {:induction false} LongerByABreak(text: string)
    ensures Join(Split(text) + [""]) == text + "\n" && text + "\n" != text
  {
    JoinSplit(text);
    JoinWithLastBreak(Split(text));
    assert |text + "\n"| == |text| + 1;
  }

  /** Applying hunks that fit and then the same hunks the other way round gives the text back exactly when some line
    * was left or added; a text emptied of all its lines comes back with a line break too many. */
  lemma {:induction false} UndoGivesTextBack(text: string, hunks: seq<Hunk>)
    requires Fits(Split(text), 0, hunks) && NewStartsRight(0, 0, hunks) && NewSidesAreLines(hunks)
    ensures Applied(text, hunks) == Ok(Join(Replaced(Split(text), 0, hunks)))
    ensures Replaced(Split(text), 0, hunks) != [] ==> Split(Applied(text, hunks).value) == Replaced(Split(text), 0, hunks)
    ensures Applied(Applied(text, hunks).value, Swapped(hunks))
         == Ok(if Replaced(Split(text), 0, hunks) != [] then text else text + "\n")
    ensures Applied(Applied(text, hunks).value, Swapped(hunks)) == Ok(text) <==> Replaced(Split(text), 0, hunks) != []
  {
    var orig := Split(text);
    var lines := Replaced(orig, 0, hunks);
    FittingHunksReplace(orig, 0, hunks);
    UndoFrom(orig, 0, [], hunks);
    assert [] + lines == lines && orig[0..] == orig;
    JoinSplit(text);
    LongerByABreak(text);
    ReplacedIsLines(orig, 0, hunks);
    if lines != [] {
      SplitJoin(lines);
      FittingHunksReplace(lines, 0, Swapped(hunks));
    } else {
      MoreTextFits(lines, [""], 0, Swapped(hunks));
      MoreTextBehind(lines, [""], 0, Swapped(hunks));
      assert lines + [""] == Split("");
      FittingHunksReplace([""], 0, Swapped(hunks));
    }
  }

  /** A patch sent as text does what its hunks do. */
  lemma {:induction false} PatchTextDoesWhatItsHunksDo(text: string, hunks: seq<Hunk>)
    requires Printable(hunks) && hunks != [] && Fits(Split(text), 0, hunks)
    requires hunks[|hunks| - 1].oldCount == OldLength(hunks[|hunks| - 1].lines)
    ensures Parsed(Printed(hunks) + "\n").Ok?
    ensures Applied(text, Parsed(Printed(hunks) + "\n").value) == Ok(Join(Replaced(Split(text), 0, hunks)))
  {
    PrintThenParse(hunks);
    FittingHunksReplace(Split(text), 0, hunks);
  }
}
