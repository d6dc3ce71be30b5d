/** Lines, decimal numbers and the unified diff format: printing hunks and reading them back. */
module DiffText {
  import opened Basics

  datatype Kind = Context | Add | Remove
  datatype DiffLine = DiffLine(kind: Kind, content: string)
  datatype Hunk = Hunk(oldStart: nat, oldCount: nat, newStart: nat, newCount: nat, lines: seq<DiffLine>)

  datatype Result<T, E> = Ok(value: T) | Err(error: E)
  datatype ParseError = NoHunks | InvalidHeader(line: string)

  // ---- lines -------------------------------------------------------------------------------------------------

  function Split(t: string): (lines: seq<string>)
    ensures |lines| > 0
  {
    if t == "" then [""]
    else if t[0] == '\n' then [""] + Split(t[1..])
    else [[t[0]] + Split(t[1..])[0]] + Split(t[1..])[1..]
  }

  function Join(lines: seq<string>): string {
    if lines == [] then "" else if |lines| == 1 then lines[0] else lines[0] + "\n" + Join(lines[1..])
  }

  predicate OneLine(s: string) { '\n' !in s }

  predicate EachOneLine(lines: seq<string>) { forall i :: 0 <= i < |lines| ==> OneLine(lines[i]) }

  lemma {:induction false} JoinSplit(t: string)
    ensures Join(Split(t)) == t && EachOneLine(Split(t))
  {
    if t != "" {
      JoinSplit(t[1..]);
      var rest := Split(t[1..]);
      if t[0] == '\n' {
        assert Split(t)[1..] == rest;
        assert t == "\n" + t[1..];
      } else {
        assert Split(t)[1..] == rest[1..];
        assert t == [t[0]] + t[1..];
        assert EachOneLine(rest[1..]) && OneLine([t[0]] + rest[0]);
      }
    }
  }

  lemma {:induction false} SplitOneLine(s: string)
    requires OneLine(s)
    ensures Split(s) == [s]
  {
    if s != "" {
      assert s[0] in s;
      SplitOneLine(s[1..]);
      assert [s[0]] + s[1..] == s;
    }
  }

  lemma {:induction false} SplitAtBreak(s: string, t: string)
    requires OneLine(s)
    ensures Split(s + "\n" + t) == [s] + Split(t)
  {
    var all := s + "\n" + t;
    if s == "" {
      assert all[1..] == t;
    } else {
      assert s[0] in s;
      SplitAtBreak(s[1..], t);
      assert all[1..] == s[1..] + "\n" + t;
      assert [s[0]] + s[1..] == s;
    }
  }

  lemma {:induction false} SplitJoin(lines: seq<string>)
    requires EachOneLine(lines) && lines != []
    ensures Split(Join(lines)) == lines
  {
    if |lines| == 1 {
      SplitOneLine(lines[0]);
    } else {
      SplitJoin(lines[1..]);
      SplitAtBreak(lines[0], Join(lines[1..]));
    }
  }

  lemma {:induction false} JoinWithLastBreak(lines: seq<string>)
    requires lines != []
    ensures Join(lines + [""]) == Join(lines) + "\n"
  {
    if |lines| == 1 {
      assert (lines + [""])[1..] == [""];
    } else {
      JoinWithLastBreak(lines[1..]);
      assert (lines + [""])[1..] == lines[1..] + [""];
    }
  }

  predicate Opens(s: string, c: char) { s != "" && s[0] == c }

  predicate OpensHunk(s: string) { |s| >= 2 && s[0] == '@' && s[1] == '@' }

  // ---- numbers -----------------------------------------------------------------------------------------------

  predicate IsDigit(c: char) { '0' <= c <= '9' }

  // The characters a regular expression's \s stands for.
  predicate IsSpace(c: char) {
    || c in " \t\n\r\U{000B}\U{000C}\U{00A0}\U{1680}\U{2028}\U{2029}\U{202F}\U{205F}\U{3000}\U{FEFF}"
    || '\U{2000}' <= c <= '\U{200A}'
  }

  function Decimal(n: nat): (s: string)
    ensures s != ""
  {
    var last := [('0' as int + n % 10) as char];
    if n < 10 then last else Decimal(n / 10) + last
  }

  function Value(digits: string): nat
    requires forall i :: 0 <= i < |digits| ==> IsDigit(digits[i])
  {
    if digits == "" then 0
    else
      assert IsDigit(digits[|digits| - 1]);
      10 * Value(digits[..|digits| - 1]) + (digits[|digits| - 1] as int - '0' as int)
  }

  lemma {:induction false} DecimalReadsBack(n: nat)
    ensures forall i :: 0 <= i < |Decimal(n)| ==> IsDigit(Decimal(n)[i])
    ensures Value(Decimal(n)) == n
  {
    var s := Decimal(n);
    if n >= 10 {
      DecimalReadsBack(n / 10);
      assert s[..|s| - 1] == Decimal(n / 10);
    } else {
      assert s[..|s| - 1] == "";
    }
  }

  // How many leading characters are digits.
  function DigitRun(s: string): (k: nat)
    ensures k <= |s| && forall i :: 0 <= i < k ==> IsDigit(s[i])
  {
    if s != "" && IsDigit(s[0]) then 1 + DigitRun(s[1..]) else 0
  }

  function SpaceRun(s: string): (k: nat)
    ensures k <= |s|
  {
    if s != "" && IsSpace(s[0]) then 1 + SpaceRun(s[1..]) else 0
  }

  lemma {:induction false} DigitRunOf(digits: string, rest: string)
    requires forall i :: 0 <= i < |digits| ==> IsDigit(digits[i])
    requires rest == "" || !IsDigit(rest[0])
    ensures DigitRun(digits + rest) == |digits|
  {
    if digits == "" {
      assert digits + rest == rest;
    } else {
      assert (digits + rest)[1..] == digits[1..] + rest;
      DigitRunOf(digits[1..], rest);
    }
  }

  // ---- hunk headers ------------------------------------------------------------------------------------------

  datatype Scan<T> = Scan(value: T, rest: string)

  function ScanSpaces(s: string): Option<string> {
    if SpaceRun(s) == 0 then None else Some(s[SpaceRun(s)..])
  }

  function ScanNumber(s: string): Option<Scan<nat>> {
    var k := DigitRun(s);
    if k == 0 then None else Some(Scan(Value(s[..k]), s[k..]))
  }

  // A start, and a count that is 1 when it is not written. A comma that no number follows is not a count.
  function ScanRange(s: string): Option<Scan<(nat, nat)>> {
    match ScanNumber(s)
    case None => None
    case Some(start) =>
      if !Opens(start.rest, ',') then Some(Scan((start.value, 1), start.rest))
      else match ScanNumber(start.rest[1..])
        case None => Some(Scan((start.value, 1), start.rest))
        case Some(count) => Some(Scan((start.value, count.value), count.rest))
  }

  function ScanMarked(s: string, mark: char): Option<Scan<(nat, nat)>> {
    match ScanSpaces(s)
    case None => None
    case Some(t) => if Opens(t, mark) then ScanRange(t[1..]) else None
  }

  function ParseHunkHeader(line: string): Option<Hunk> {
    if !OpensHunk(line) then None
    else match ScanMarked(line[2..], '-')
      case None => None
      case Some(old_) =>
        match ScanMarked(old_.rest, '+')
        case None => None
        case Some(new_) =>
          match ScanSpaces(new_.rest)
          case None => None
          case Some(t) =>
            if !OpensHunk(t) then None
            else Some(Hunk(old_.value.0, old_.value.1, new_.value.0, new_.value.1, []))
  }

  function RangeText(start: nat, count: nat): string {
    if count == 1 then Decimal(start) else Decimal(start) + "," + Decimal(count)
  }

  function MarkedText(mark: char, start: nat, count: nat): string {
    " " + [mark] + RangeText(start, count)
  }

  function HeaderText(h: Hunk): string {
    "@@" + (MarkedText('-', h.oldStart, h.oldCount) + (MarkedText('+', h.newStart, h.newCount) + " @@"))
  }

  lemma {:induction false} NumberReadsBack(n: nat, rest: string)
    requires rest == "" || !IsDigit(rest[0])
    ensures ScanNumber(Decimal(n) + rest) == Some(Scan(n, rest))
  {
    DecimalReadsBack(n);
    DigitRunOf(Decimal(n), rest);
    var s := Decimal(n) + rest;
    assert s[..|Decimal(n)|] == Decimal(n) && s[|Decimal(n)|..] == rest;
  }

  lemma {:induction false} RangeReadsBack(start: nat, count: nat, rest: string)
    requires Opens(rest, ' ')
    ensures ScanRange(RangeText(start, count) + rest) == Some(Scan((start, count), rest))
  {
    if count == 1 {
      NumberReadsBack(start, rest);
    } else {
      CountedRangeReadsBack(Decimal(start), Decimal(count), start, count, rest);
    }
  }

  lemma {:induction false} CountedRangeReadsBack(first: string, second: string, start: nat, count: nat, rest: string)
    requires first == Decimal(start) && second == Decimal(count) && Opens(rest, ' ')
    ensures ScanRange(first + "," + second + rest) == Some(Scan((start, count), rest))
  {
    var number := second + rest;
    var tail := "," + number;
    NumberReadsBack(start, tail);
    NumberReadsBack(count, rest);
    Regroup(first, ",", second, rest);
    RangeWithCount(first + tail, start, count, tail, rest);
  }

  lemma {:induction false} Regroup<T>(a: seq<T>, b: seq<T>, c: seq<T>, d: seq<T>)
    ensures a + b + c + d == a + (b + (c + d))
    ensures |b| == 1 ==> (b + (c + d))[1..] == c + d && (b + (c + d))[0] == b[0]
  {
  }

  lemma {:induction false} RangeWithCount(s: string, start: nat, count: nat, tail: string, rest: string)
    requires ScanNumber(s) == Some(Scan(start, tail))
    requires Opens(tail, ',') && ScanNumber(tail[1..]) == Some(Scan(count, rest))
    ensures ScanRange(s) == Some(Scan((start, count), rest))
  {
  }

  lemma {:induction false} MarkedReadsBack(mark: char, start: nat, count: nat, rest: string)
    requires Opens(rest, ' ') && mark in "-+"
    ensures ScanMarked(MarkedText(mark, start, count) + rest, mark) == Some(Scan((start, count), rest))
  {
    var s := MarkedText(mark, start, count) + rest;
    var range := RangeText(start, count) + rest;
    assert s[1..] == [mark] + range;
    assert s[1..][1..] == range;
    assert SpaceRun(s[1..]) == 0;
    assert SpaceRun(s) == 1;
    RangeReadsBack(start, count, rest);
  }

  lemma {:induction false} HeaderReadsBack(h: Hunk)
    ensures ParseHunkHeader(HeaderText(h)) == Some(h.(lines := []))
  {
    var mid := MarkedText('+', h.newStart, h.newCount) + " @@";
    var all := MarkedText('-', h.oldStart, h.oldCount) + mid;
    MarkedReadsBack('-', h.oldStart, h.oldCount, mid);
    MarkedReadsBack('+', h.newStart, h.newCount, " @@");
    assert HeaderText(h)[2..] == all;
    ClosesHeader();
    HeaderOfParts(HeaderText(h), mid, h);
  }

  lemma {:induction false} ClosesHeader()
    ensures ScanSpaces(" @@") == Some("@@")
  {
    var end := " @@";
    assert end[1..] == "@@" && SpaceRun("@@") == 0;
  }

  lemma {:induction false} HeaderOfParts(line: string, mid: string, h: Hunk)
    requires OpensHunk(line) && ScanMarked(line[2..], '-') == Some(Scan((h.oldStart, h.oldCount), mid))
    requires ScanMarked(mid, '+') == Some(Scan((h.newStart, h.newCount), " @@"))
    requires ScanSpaces(" @@") == Some("@@")
    ensures ParseHunkHeader(line) == Some(h.(lines := []))
  {
  }

  lemma {:induction false} RangeIsOneLine(start: nat, count: nat)
    ensures OneLine(RangeText(start, count))
  {
    DecimalReadsBack(start);
    DecimalReadsBack(count);
  }

  lemma {:induction false} HeaderIsOneLine(h: Hunk)
    ensures OneLine(HeaderText(h)) && OpensHunk(HeaderText(h))
  {
    RangeIsOneLine(h.oldStart, h.oldCount);
    RangeIsOneLine(h.newStart, h.newCount);
  }

  // ---- hunks -------------------------------------------------------------------------------------------------

  const NoNewlineMarker := "\\ No newline at end of file"

  function OldLength(lines: seq<DiffLine>): (n: nat)
    ensures n <= |lines|
  {
    if lines == [] then 0 else OldLength(lines[..|lines| - 1]) + if lines[|lines| - 1].kind.Add? then 0 else 1
  }

  datatype Body = Body(hunk: Hunk, rest: seq<string>)

  // The hunk line a text line stands for; a line with no mark of its own is context.
  function LineOf(s: string): DiffLine {
    if Opens(s, '+') then DiffLine(Add, s[1..])
    else if Opens(s, '-') then DiffLine(Remove, s[1..])
    else if Opens(s, ' ') then DiffLine(Context, s[1..])
    else DiffLine(Context, s)
  }

  // An empty line is an empty context line while the header's old count is not reached; then it ends the hunk.
  predicate EndsBody(h: Hunk, rest: seq<string>) {
    || rest == []
    || OpensHunk(rest[0])
    || (rest[0] == "" && h.oldCount <= OldLength(h.lines))
  }

  function Taking(h: Hunk, s: string): Hunk {
    if s == NoNewlineMarker then h else h.(lines := h.lines + [LineOf(s)])
  }

  function BodyOf(h: Hunk, rest: seq<string>): (b: Body)
    ensures |b.rest| <= |rest|
    decreases |rest|
  {
    if EndsBody(h, rest) then Body(h, rest) else BodyOf(Taking(h, rest[0]), rest[1..])
  }

  // `read` is how a header line is read.
  function HunksOf(rest: seq<string>, read: string -> Option<Hunk>): Result<seq<Hunk>, ParseError>
    decreases |rest|
  {
    if rest == [] then Ok([])
    else if !OpensHunk(rest[0]) then HunksOf(rest[1..], read)
    else match read(rest[0])
      case None => Err(InvalidHeader(rest[0]))
      case Some(h) =>
        var b := BodyOf(h, rest[1..]);
        match HunksOf(b.rest, read)
        case Err(e) => Err(e)
        case Ok(hs) => Ok([b.hunk] + hs)
  }

  function Parsed(text: string): Result<seq<Hunk>, ParseError> {
    var r := HunksOf(Split(text), ParseHunkHeader);
    if r == Ok([]) then Err(NoHunks) else r
  }

  // What the loops have collected so far, put in front of what the rest of the text gives.
  function Prepend(hunks: seq<Hunk>, r: Result<seq<Hunk>, ParseError>): Result<seq<Hunk>, ParseError> {
    match r
    case Ok(hs) => Ok(hunks + hs)
    case Err(e) => Err(e)
  }

  method ParseUnifiedDiff(text: string) returns (r: Result<seq<Hunk>, ParseError>)
    ensures r == Parsed(text)
  {
    r := ParseLines(Split(text), ParseHunkHeader);
    if r == Ok([]) { r := Err(NoHunks); }
  }

  method ParseLines(lines: seq<string>, read: string -> Option<Hunk>) returns (r: Result<seq<Hunk>, ParseError>)
    ensures r == HunksOf(lines, read)
  {
    var hunks: seq<Hunk> := [];
    var i := 0;
    assert lines[0..] == lines;
    PrependNothing(HunksOf(lines, read));
    while i < |lines| && !OpensHunk(lines[i])
      invariant 0 <= i <= |lines| && HunksOf(lines, read) == Prepend([], HunksOf(lines[i..], read))
    {
      assert lines[i..][1..] == lines[i + 1..];
      i := i + 1;
    }
    while i < |lines|
      invariant 0 <= i <= |lines| && HunksOf(lines, read) == Prepend(hunks, HunksOf(lines[i..], read))
    {
      assert lines[i..][1..] == lines[i + 1..];
      if OpensHunk(lines[i]) {
        var header := read(lines[i]);
        if header.None? { return Err(InvalidHeader(lines[i])); }
        ghost var b := BodyOf(header.value, lines[i + 1..]);
        HunkThenRest(lines[i..], read, hunks);
        var hunk;
        hunk, i := ReadHunkLines(lines, i + 1, header.value);
        hunks := hunks + [hunk];
      } else {
        i := i + 1;
      }
    }
    assert lines[i..] == [] && hunks + [] == hunks;
    return Ok(hunks);
  }

  lemma {:induction false} PrependNothing(r: Result<seq<Hunk>, ParseError>)
    ensures Prepend([], r) == r
  {
    match r
    case Err(_) =>
    case Ok(hs) => assert [] + hs == hs;
  }

  lemma {:induction false} HunkThenRest(rest: seq<string>, read: string -> Option<Hunk>, hunks: seq<Hunk>)
    requires rest != [] && OpensHunk(rest[0]) && read(rest[0]).Some?
    ensures var b := BodyOf(read(rest[0]).value, rest[1..]);
      Prepend(hunks, HunksOf(rest, read)) == Prepend(hunks + [b.hunk], HunksOf(b.rest, read))
  {
    var b := BodyOf(read(rest[0]).value, rest[1..]);
    match HunksOf(b.rest, read)
    case Err(_) =>
    case Ok(hs) => assert hunks + ([b.hunk] + hs) == hunks + [b.hunk] + hs;
  }

  // The inner loop: from just after a header to the line that ends the hunk.
  method ReadHunkLines(lines: seq<string>, from: nat, header: Hunk) returns (hunk: Hunk, i: nat)
    requires from <= |lines|
    ensures from <= i <= |lines| && BodyOf(header, lines[from..]) == Body(hunk, lines[i..])
  {
    hunk, i := header, from;
    while i < |lines| && !OpensHunk(lines[i])
      invariant from <= i <= |lines| && BodyOf(header, lines[from..]) == BodyOf(hunk, lines[i..])
    {
      var line := lines[i];
      assert lines[i..][0] == line && lines[i..][1..] == lines[i + 1..];
      if Opens(line, '+') {
        hunk := hunk.(lines := hunk.lines + [DiffLine(Add, line[1..])]);
      } else if Opens(line, '-') {
        hunk := hunk.(lines := hunk.lines + [DiffLine(Remove, line[1..])]);
      } else if Opens(line, ' ') {
        hunk := hunk.(lines := hunk.lines + [DiffLine(Context, line[1..])]);
      } else if line == NoNewlineMarker {
      } else if line == "" {
        var left := hunk.oldCount - OldLength(hunk.lines);
        if left <= 0 { break; }
        hunk := hunk.(lines := hunk.lines + [DiffLine(Context, "")]);
      } else {
        hunk := hunk.(lines := hunk.lines + [DiffLine(Context, line)]);
      }
      i := i + 1;
    }
  }

  function LineText(l: DiffLine): string {
    match l.kind
    case Add => "+" + l.content
    case Remove => "-" + l.content
    case Context => " " + l.content
  }

  function BodyText(lines: seq<DiffLine>): seq<string> {
    if lines == [] then [] else [LineText(lines[0])] + BodyText(lines[1..])
  }

  function HunkLines(hunks: seq<Hunk>): seq<string> {
    if hunks == [] then [] else [HeaderText(hunks[0])] + BodyText(hunks[0].lines) + HunkLines(hunks[1..])
  }

  function Printed(hunks: seq<Hunk>): string { Join(HunkLines(hunks)) }

  predicate Printable(hunks: seq<Hunk>) {
    forall i, j :: 0 <= i < |hunks| && 0 <= j < |hunks[i].lines| ==> OneLine(hunks[i].lines[j].content)
  }

  lemma {:induction false} LineReadsBack(l: DiffLine)
    ensures LineOf(LineText(l)) == l && !OpensHunk(LineText(l))
    ensures LineText(l) != "" && LineText(l) != NoNewlineMarker
  {
  }

  // A printed body is read as itself as long as what follows it ends it there.
  lemma {:induction false} BodyReadsBack(h: Hunk, lines: seq<DiffLine>, rest: seq<string>)
    ensures BodyOf(h, BodyText(lines) + rest) == BodyOf(h.(lines := h.lines + lines), rest)
    decreases |lines|
  {
    var all := BodyText(lines) + rest;
    if lines == [] {
      assert all == rest && h.lines + lines == h.lines;
    } else {
      LineReadsBack(lines[0]);
      assert all[0] == LineText(lines[0]) && all[1..] == BodyText(lines[1..]) + rest;
      BodyReadsBack(Taking(h, all[0]), lines[1..], rest);
      assert h.lines + [lines[0]] + lines[1..] == h.lines + lines;
    }
  }

  // An empty last line is taken into the last hunk when that hunk's header announces more old lines than it has.
  function WithLastBreak(hunks: seq<Hunk>): seq<Hunk>
    requires hunks != []
  {
    var last := hunks[|hunks| - 1];
    if last.oldCount <= OldLength(last.lines) then hunks
    else hunks[..|hunks| - 1] + [last.(lines := last.lines + [DiffLine(Context, "")])]
  }

  lemma {:induction false} HunksReadBack(hunks: seq<Hunk>, read: string -> Option<Hunk>, broken: bool)
    requires hunks != []
    requires forall h :: read(HeaderText(h)) == Some(h.(lines := []))
    ensures HunksOf(HunkLines(hunks) + if broken then [""] else [], read)
         == Ok(if broken then WithLastBreak(hunks) else hunks)
    decreases |hunks|
  {
    var h := hunks[0];
    var tail: seq<string> := if broken then [""] else [];
    var rest := HunkLines(hunks[1..]) + tail;
    FirstHunkReadsBack(hunks, read, tail);
    if |hunks| > 1 {
      NextHeaderEndsBody(h, hunks[1..], tail);
      HunksReadBack(hunks[1..], read, broken);
      LastBreakIsLast(hunks);
      assert hunks == [h] + hunks[1..];
    } else {
      assert hunks == [h] && rest == tail;
      LastHunk(h, rest, read, broken);
      assert [BodyOf(h, rest).hunk] + [] == [BodyOf(h, rest).hunk];
    }
  }

  lemma {:induction false} NextHeaderEndsBody(h: Hunk, hunks: seq<Hunk>, tail: seq<string>)
    requires hunks != []
    ensures BodyOf(h, HunkLines(hunks) + tail) == Body(h, HunkLines(hunks) + tail)
  {
    HeaderIsOneLine(hunks[0]);
    assert (HunkLines(hunks) + tail)[0] == HeaderText(hunks[0]);
  }

  lemma {:induction false} FirstHunkReadsBack(hunks: seq<Hunk>, read: string -> Option<Hunk>, tail: seq<string>)
    requires hunks != []
    requires read(HeaderText(hunks[0])) == Some(hunks[0].(lines := []))
    ensures var b := BodyOf(hunks[0], HunkLines(hunks[1..]) + tail);
      HunksOf(b.rest, read).Ok? ==>
        HunksOf(HunkLines(hunks) + tail, read) == Ok([b.hunk] + HunksOf(b.rest, read).value)
  {
    var h := hunks[0];
    var rest := HunkLines(hunks[1..]) + tail;
    var all := HunkLines(hunks) + tail;
    Regroup([HeaderText(h)], BodyText(h.lines), HunkLines(hunks[1..]), tail);
    assert all == [HeaderText(h)] + (BodyText(h.lines) + rest);
    assert all[1..] == BodyText(h.lines) + rest;
    HeaderIsOneLine(h);
    BodyReadsBack(h.(lines := []), h.lines, rest);
    assert [] + h.lines == h.lines;
    assert BodyOf(read(all[0]).value, all[1..]) == BodyOf(h, rest);
  }

  lemma {:induction false} LastBreakIsLast(hunks: seq<Hunk>)
    requires |hunks| > 1
    ensures WithLastBreak(hunks) == [hunks[0]] + WithLastBreak(hunks[1..])
  {
    assert hunks == [hunks[0]] + hunks[1..];
    assert hunks[..|hunks| - 1] == [hunks[0]] + hunks[1..][..|hunks| - 2];
  }

  // What ends the text after the last hunk.
  lemma {:induction false} LastHunk(h: Hunk, rest: seq<string>, read: string -> Option<Hunk>, broken: bool)
    requires rest == if broken then [""] else []
    ensures (if broken then WithLastBreak([h]) else [h]) == [BodyOf(h, rest).hunk]
    ensures HunksOf(BodyOf(h, rest).rest, read) == Ok([])
  {
    if broken {
      assert rest[1..] == [];
    }
  }

  lemma {:induction false} PrintedIsLines(hunks: seq<Hunk>)
    requires Printable(hunks)
    ensures EachOneLine(HunkLines(hunks))
    decreases |hunks|
  {
    if hunks != [] {
      HeaderIsOneLine(hunks[0]);
      assert forall j :: 0 <= j < |hunks[0].lines| ==> OneLine(hunks[0].lines[j].content);
      BodyIsLines(hunks[0].lines);
      PrintedIsLines(hunks[1..]);
    }
  }

  lemma {:induction false} BodyIsLines(lines: seq<DiffLine>)
    requires forall j :: 0 <= j < |lines| ==> OneLine(lines[j].content)
    ensures EachOneLine(BodyText(lines))
  {
    if lines != [] {
      BodyIsLines(lines[1..]);
    }
  }

  /** Printed hunks read back as themselves. With a line break at the end they do exactly when the last hunk's
    * header announces no more old lines than the hunk holds; otherwise the last hunk gains an empty context line. */
  lemma {:induction false} PrintThenParse(hunks: seq<Hunk>)
    requires Printable(hunks) && hunks != []
    ensures Parsed(Printed(hunks)) == Ok(hunks)
    ensures Parsed(Printed(hunks) + "\n") == Ok(WithLastBreak(hunks))
    ensures Parsed(Printed(hunks) + "\n") == Ok(hunks)
       <==> hunks[|hunks| - 1].oldCount <= OldLength(hunks[|hunks| - 1].lines)
  {
    var lines := HunkLines(hunks);
    PrintedIsLines(hunks);
    SplitJoin(lines);
    forall h ensures ParseHunkHeader(HeaderText(h)) == Some(h.(lines := [])) { HeaderReadsBack(h); }
    HunksReadBack(hunks, ParseHunkHeader, false);
    assert lines + [] == lines;
    JoinWithLastBreak(lines);
    SplitJoin(lines + [""]);
    HunksReadBack(hunks, ParseHunkHeader, true);
  }
}
