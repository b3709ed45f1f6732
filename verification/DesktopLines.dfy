/**
 * The line tokenizer of desktop entry files. One loop finds where a line starts, where it ends and its first '=',
 * looking at each byte once; the three definitions it refines look for them one after another.
 * Bytes are written as characters.
 */
module DesktopLines {

  predicate IsSpace(c: char) {
    c == '\t' || c == '\n' || c == '\r' || c == ' '
  }

  predicate IsBreak(c: char) {
    c == '\n' || c == '\r'
  }

  predicate IsSpecial(c: char) {
    IsBreak(c) || c == ';' || c == '=' || c == '\\' || c == '#'
  }

  // ---- Where a line starts ----

  function SkipSpaces(data: string, i: nat): (r: nat)
    requires i <= |data|
    ensures i <= r <= |data|
    decreases |data| - i
  {
    if i < |data| && IsSpace(data[i]) then SkipSpaces(data, i + 1) else i
  }

  /** The end of a comment: the line break stays. */
  function CommentEnd(data: string, i: nat): (r: nat)
    requires i <= |data|
    ensures i <= r <= |data|
    decreases |data| - i
  {
    if i < |data| && !IsBreak(data[i]) then CommentEnd(data, i + 1) else i
  }

  /** Over empty lines and comments; spaces before either are part of a line. */
  function SkipLines(data: string, i: nat): (r: nat)
    requires i <= |data|
    ensures i <= r <= |data|
    ensures r < |data| ==> !IsBreak(data[r]) && data[r] != '#'
    decreases |data| - i
  {
    if i == |data| then i
    else if IsBreak(data[i]) then SkipLines(data, i + 1)
    else if data[i] == '#' then SkipLines(data, CommentEnd(data, i + 1))
    else i
  }

  function Begin(data: string, i: nat): (r: nat)
    requires i <= |data|
    ensures i <= r <= |data|
    ensures r < |data| ==> !IsBreak(data[r]) && data[r] != '#'
  {
    SkipLines(data, SkipSpaces(data, i))
  }

  // ---- Where it ends ----

  /** The next position to look at: an escaped character is passed over, and so is an escaped pair of breaks. */
  function Past(data: string, i: nat): (r: nat)
    requires i < |data|
    ensures i < r <= |data|
  {
    if data[i] != '\\' || i + 1 == |data| then i + 1
    else if i + 2 < |data| && IsBreak(data[i + 1]) && IsBreak(data[i + 2]) && data[i + 1] != data[i + 2] then i + 3
    else i + 2
  }

  /** The first break that is not escaped, or the first '=' if that is to stop us too. */
  function Stop(data: string, i: nat, atEquals: bool): (r: nat)
    requires i <= |data|
    ensures i <= r <= |data|
    ensures r < |data| ==> IsBreak(data[r]) || (atEquals && data[r] == '=')
    decreases |data| - i
  {
    if i == |data| || IsBreak(data[i]) || (atEquals && data[i] == '=') then i
    else Stop(data, Past(data, i), atEquals)
  }

  /** The first '=' of the line from `i` that is not escaped. */
  function Equals(data: string, i: nat): (r: int)
    requires i <= |data|
  {
    var k := Stop(data, i, true);
    if k < |data| && data[k] == '=' then k else -1
  }

  datatype Line = Line(start: nat, end: nat, equals: int)

  function LineFrom(data: string, pos: nat): (line: Line)
    requires pos <= |data|
    ensures pos <= line.start <= line.end <= |data|
  {
    var start := Begin(data, pos);
    Line(start, Stop(data, start, false), Equals(data, start))
  }

  // ---- The loop ----

  /** What the loop knows at `i`: nothing yet of a line if `i` is its start, otherwise all of it up to `i`. */
  ghost predicate Scanning(data: string, pos: nat, start: nat, i: nat, equals: int) {
    && pos <= |data| && start <= i <= |data|
    && Begin(data, pos) == SkipLines(data, start)
    && (i == start ==> equals == -1)
    && (i > start ==>
          && SkipLines(data, start) == start
          && Stop(data, start, false) == Stop(data, i, false)
          && Equals(data, start) == if equals != -1 then equals else Equals(data, i))
  }

  lemma ScansOn(data: string, pos: nat, start: nat, i: nat, equals: int)
    requires Scanning(data, pos, start, i, equals)
    requires i < |data| && !IsBreak(data[i]) && data[i] != '=' && (data[i] == '#' ==> i > start)
    ensures Scanning(data, pos, start, Past(data, i), equals)
  {
  }

  lemma ScansEquals(data: string, pos: nat, start: nat, i: nat, equals: int)
    requires Scanning(data, pos, start, i, equals)
    requires i < |data| && data[i] == '='
    ensures Scanning(data, pos, start, i + 1, if equals == -1 then i else equals)
  {
  }

  lemma SkipsBreak(data: string, pos: nat, i: nat, equals: int)
    requires Scanning(data, pos, i, i, equals) && i < |data| && IsBreak(data[i])
    ensures Scanning(data, pos, i + 1, i + 1, equals)
  {
  }

  lemma SkipsComment(data: string, pos: nat, i: nat, equals: int)
    requires Scanning(data, pos, i, i, equals) && i < |data| && data[i] == '#'
    ensures var end := CommentEnd(data, i + 1); Scanning(data, pos, end, end, equals)
  {
  }

  lemma ScansLine(data: string, pos: nat, start: nat, i: nat, equals: int)
    requires Scanning(data, pos, start, i, equals)
    requires i == |data| || (IsBreak(data[i]) && i > start)
    ensures LineFrom(data, pos) == Line(start, i, equals)
  {
  }

  lemma SkipsSpace(data: string, i: nat)
    requires i < |data| && IsSpace(data[i])
    ensures SkipSpaces(data, i) == SkipSpaces(data, i + 1)
  {
  }

  lemma StartsScanning(data: string, pos: nat, i: nat)
    requires pos <= |data| && i <= |data| && SkipSpaces(data, pos) == SkipSpaces(data, i)
    requires i < |data| ==> !IsSpace(data[i])
    ensures Scanning(data, pos, i, i, -1)
  {
  }

  lemma GoesOnInComment(data: string, i: nat)
    requires i <= |data|
    ensures CommentEnd(data, i) == if i < |data| && !IsBreak(data[i]) then CommentEnd(data, i + 1) else i
  {
  }

  /** `readLineFromData`: one pass over the bytes. The new position is the end of the line. */
  method ReadLine(data: string, dataPos: nat) returns (ok: bool, line: Line)
    requires dataPos <= |data|
    ensures line == LineFrom(data, dataPos)
    ensures ok <==> line.start < line.end
    ensures !ok ==> line.start == |data|
  {
    hide Scanning, SkipLines, SkipSpaces, CommentEnd, Stop, Equals, Begin, LineFrom;
    var equalsPos := -1;
    var lineStart: nat := dataPos;
    while lineStart < |data| && IsSpace(data[lineStart])
      invariant lineStart <= |data|
      invariant SkipSpaces(data, dataPos) == SkipSpaces(data, lineStart)
    {
      SkipsSpace(data, lineStart);
      lineStart := lineStart + 1;
    }
    StartsScanning(data, dataPos, lineStart);
    var i: nat := lineStart;
    while i < |data|
      invariant lineStart <= i <= |data|
      invariant Scanning(data, dataPos, lineStart, i, equalsPos)
      decreases |data| - i
    {
      while i < |data| && !IsSpecial(data[i])
        invariant lineStart <= i <= |data|
        invariant Scanning(data, dataPos, lineStart, i, equalsPos)
      {
        ScansOn(data, dataPos, lineStart, i, equalsPos);
        i := i + 1;
      }
      if i == |data| {
        break;
      }
      ghost var at := i;
      var ch := data[i];
      i := i + 1;
      if ch == '=' {
        ScansEquals(data, dataPos, lineStart, at, equalsPos);
        if equalsPos == -1 {
          equalsPos := i - 1;
        }
      } else if IsBreak(ch) {
        if i == lineStart + 1 {
          SkipsBreak(data, dataPos, at, equalsPos);
          lineStart := lineStart + 1;
        } else {
          i := i - 1;
          break;
        }
      } else if ch == '\\' {
        ScansOn(data, dataPos, lineStart, at, equalsPos);
        if i < |data| {
          var ch1 := data[i];
          i := i + 1;
          if i < |data| {
            var ch2 := data[i];
            if (ch1 == '\n' && ch2 == '\r') || (ch1 == '\r' && ch2 == '\n') {
              i := i + 1;
            }
          }
        }
      } else if ch == ';' {
        ScansOn(data, dataPos, lineStart, at, equalsPos);
      } else {
        assert ch == '#';
        if i == lineStart + 1 {
          SkipsComment(data, dataPos, at, equalsPos);
          while i < |data| && !IsBreak(data[i])
            invariant at < i <= |data|
            invariant CommentEnd(data, at + 1) == CommentEnd(data, i)
          {
            GoesOnInComment(data, i);
            i := i + 1;
          }
          GoesOnInComment(data, i);
          lineStart := i;
        } else {
          ScansOn(data, dataPos, lineStart, at, equalsPos);
        }
      }
    }
    ScansLine(data, dataPos, lineStart, i, equalsPos);
    EmptyAtEnd(data, dataPos);
    ok, line := i - lineStart > 0, Line(lineStart, i, equalsPos);
  }

  /** Only the end of the data gives no line. */
  lemma EmptyAtEnd(data: string, pos: nat)
    requires pos <= |data|
    ensures var line := LineFrom(data, pos); line.start == line.end <==> line.start == |data|
  {
  }

  // ---- What lines are like ----

  /** Looking for a break goes at least as far as looking for a break or an '='. */
  lemma {:induction false} EqualsComesFirst(data: string, i: nat)
    requires i <= |data|
    ensures Stop(data, i, true) <= Stop(data, i, false)
    ensures Equals(data, i) != -1 ==> i <= Equals(data, i) < Stop(data, i, false)
    decreases |data| - i
  {
    if i < |data| && !IsBreak(data[i]) && data[i] != '=' {
      EqualsComesFirst(data, Past(data, i));
    }
  }

  /** All lines from a position on. */
  function Lines(data: string, pos: nat): (lines: seq<Line>)
    requires pos <= |data|
    decreases |data| - pos
  {
    var line := LineFrom(data, pos);
    if line.start == line.end then [] else [line] + Lines(data, line.end)
  }

  /** Every line is within the data, has its '=' inside, and ends at a break or with the data. */
  lemma {:induction false} LineIsInside(data: string, pos: nat, k: nat)
    requires pos <= |data| && k < |Lines(data, pos)|
    ensures var line := Lines(data, pos)[k];
      && pos <= line.start < line.end <= |data|
      && (line.end < |data| ==> IsBreak(data[line.end]))
      && (line.equals != -1 ==> line.start <= line.equals < line.end && data[line.equals] == '=')
    decreases k
  {
    var line := LineFrom(data, pos);
    if k == 0 {
      EqualsComesFirst(data, line.start);
    } else {
      LineIsInside(data, line.end, k - 1);
    }
  }

  /** Lines do not overlap and come in order: a break is between any two. */
  lemma {:induction false} LinesAreInOrder(data: string, pos: nat, j: nat, k: nat)
    requires pos <= |data| && j < k < |Lines(data, pos)|
    ensures Lines(data, pos)[j].end < Lines(data, pos)[k].start
    decreases j
  {
    var line := LineFrom(data, pos);
    if j == 0 {
      var next := Lines(data, line.end)[k - 1];
      LineIsInside(data, line.end, k - 1);
      assert LineFrom(data, line.end).start > line.end;
      if k > 1 {
        LineIsInside(data, LineFrom(data, line.end).end, k - 2);
      }
    } else {
      LinesAreInOrder(data, line.end, j - 1, k - 1);
    }
  }

  // ---- Lines are local: a slice cut where a line starts has the same lines ----

  lemma {:induction false} StopInSlice(data: string, a: nat, c: nat, i: nat, atEquals: bool)
    requires a <= i <= c <= |data|
    requires Stop(data, i, atEquals) < c || c == |data|
    ensures Stop(data[a..c], i - a, atEquals) == Stop(data, i, atEquals) - a
    decreases |data| - i
  {
    if !(i == |data| || IsBreak(data[i]) || (atEquals && data[i] == '=')) {
      StopInSlice(data, a, c, Past(data, i), atEquals);
      if i < c {
        assert data[a..c][i - a] == data[i];
      }
    }
  }

  lemma {:induction false} SpacesInSlice(data: string, a: nat, c: nat, i: nat)
    requires a <= i <= c <= |data| && SkipSpaces(data, i) <= c
    ensures SkipSpaces(data[a..c], i - a) == SkipSpaces(data, i) - a
    decreases |data| - i
  {
    if i < c && IsSpace(data[i]) {
      SpacesInSlice(data, a, c, i + 1);
    }
  }

  lemma {:induction false} CommentInSlice(data: string, a: nat, c: nat, i: nat)
    requires a <= i <= c <= |data| && CommentEnd(data, i) <= c
    ensures CommentEnd(data[a..c], i - a) == CommentEnd(data, i) - a
    decreases |data| - i
  {
    if i < c && !IsBreak(data[i]) {
      CommentInSlice(data, a, c, i + 1);
    }
  }

  lemma {:induction false} SkipInSlice(data: string, a: nat, c: nat, i: nat)
    requires a <= i <= c <= |data| && SkipLines(data, i) <= c
    ensures SkipLines(data[a..c], i - a) == SkipLines(data, i) - a
    decreases |data| - i
  {
    hide CommentEnd;
    if i < c {
      if IsBreak(data[i]) {
        SkipInSlice(data, a, c, i + 1);
      } else if data[i] == '#' {
        CommentInSlice(data, a, c, i + 1);
        SkipInSlice(data, a, c, CommentEnd(data, i + 1));
      }
    }
  }

  lemma BeginInSlice(data: string, a: nat, c: nat, i: nat)
    requires a <= i <= c <= |data| && Begin(data, i) <= c
    ensures Begin(data[a..c], i - a) == Begin(data, i) - a
  {
    SpacesInSlice(data, a, c, i);
    SkipInSlice(data, a, c, SkipSpaces(data, i));
  }

  /** A line that ends before the cut is the same line in the slice. */
  lemma LineInSlice(data: string, a: nat, c: nat, i: nat)
    requires a <= i <= c <= |data|
    requires LineFrom(data, i).end < c || c == |data|
    ensures var line := LineFrom(data, i);
      LineFrom(data[a..c], i - a)
        == Line(line.start - a, line.end - a, if line.equals == -1 then -1 else line.equals - a)
  {
    hide Begin, Stop, SkipLines, SkipSpaces, Past;
    var start := Begin(data, i);
    BeginInSlice(data, a, c, i);
    StopInSlice(data, a, c, start, false);
    EqualsComesFirst(data, start);
    StopInSlice(data, a, c, start, true);
  }

  /** And where the next line starts at the cut, the slice has no line left. */
  lemma NoLineInSlice(data: string, a: nat, c: nat, i: nat)
    requires a <= i <= c <= |data| && LineFrom(data, i).start == c
    ensures var line := LineFrom(data[a..c], i - a); line.start == line.end == c - a
  {
    BeginInSlice(data, a, c, i);
  }
}
