/**
 * The sections of a desktop entry: the file is cut at its section names, each section keeps its raw slice, and a slice
 * is parsed only when a key in it is asked for. One eager pass over the whole file would give the same keys and values.
 */
module DesktopSections {
  import opened Basics
  import opened DesktopLines

  type Keys = map<string, string>

  datatype Section = Section(name: string, values: Keys, unparsed: string, position: int)

  // ---- Names, keys and values ----

  predicate IsBlank(c: char) {
    IsSpace(c) || c as int == 11 || c as int == 12
  }

  predicate IsTrimmed(s: string) {
    s == [] || (!IsBlank(s[0]) && !IsBlank(s[|s| - 1]))
  }

  function TrimmedLeft(s: string): (r: string)
    ensures r == [] || !IsBlank(r[0])
    ensures |r| <= |s|
  {
    if s != [] && IsBlank(s[0]) then TrimmedLeft(s[1..]) else s
  }

  function TrimmedRight(s: string): (r: string)
    ensures r == [] || !IsBlank(r[|r| - 1])
    ensures r <= s
  {
    if s != [] && IsBlank(s[|s| - 1]) then TrimmedRight(s[..|s| - 1]) else s
  }

  function Trimmed(s: string): (r: string)
    ensures IsTrimmed(r)
    ensures IsTrimmed(s) ==> r == s
  {
    TrimmedRight(TrimmedLeft(s))
  }

  /** Spaces, tabs, line breaks, vertical tabs and form feeds. */
  predicate AreBlanks(s: string) {
    forall c :: c in s ==> c in {' ', '\t', '\n', '\r', '\U{0B}', '\U{0C}'}
  }

  lemma {:induction false} TrimmedLeftIs(before: string, s: string)
    requires AreBlanks(before) && (s != [] ==> !AreBlanks(s[..1]))
    ensures TrimmedLeft(before + s) == s
  {
    if before == [] {
      assert before + s == s;
      if s != [] {
        assert s[0] in s[..1];
      }
    } else {
      assert before[0] in before && (before + s)[0] == before[0] && (before + s)[1..] == before[1..] + s;
      assert forall c :: c in before[1..] ==> c in before;
      TrimmedLeftIs(before[1..], s);
    }
  }

  lemma {:induction false} TrimmedRightIs(s: string, behind: string)
    requires AreBlanks(behind) && (s != [] ==> !AreBlanks(s[|s| - 1..]))
    ensures TrimmedRight(s + behind) == s
  {
    if behind == [] {
      assert s + behind == s;
      if s != [] {
        assert s[|s| - 1] in s[|s| - 1..];
      }
    } else {
      var n := |behind| - 1;
      assert behind[n] in behind && (s + behind)[|s| + n] == behind[n] && (s + behind)[..|s| + n] == s + behind[..n];
      assert forall c :: c in behind[..n] ==> c in behind;
      TrimmedRightIs(s, behind[..n]);
    }
  }

  /** Trimming takes the blanks before and behind a text away, and nothing else. */
  lemma TrimmedIs(before: string, s: string, behind: string)
    requires AreBlanks(before) && AreBlanks(behind)
    requires s != [] ==> !AreBlanks(s[..1]) && !AreBlanks(s[|s| - 1..])
    ensures Trimmed(before + s + behind) == s
  {
    if s == [] {
      assert before + s + behind == (before + behind) + s;
      TrimmedLeftIs(before + behind, s);
    } else {
      assert before + s + behind == before + (s + behind) && (s + behind)[..1] == s[..1];
      TrimmedLeftIs(before, s + behind);
      TrimmedRightIs(s, behind);
    }
  }

  /** The first ']' at or after `i`. */
  function Bracket(data: string, i: nat): (r: nat)
    requires i <= |data|
    ensures i <= r <= |data|
    decreases |data| - i
  {
    if i < |data| && data[i] != ']' then Bracket(data, i + 1) else i
  }

  predicate IsHeader(data: string, line: Line) {
    line.start < |data| && data[line.start] == '['
  }

  /** A name without its ']' takes the rest of the line. */
  predicate NameIsClosed(data: string, line: Line)
    requires line.start < line.end <= |data|
  {
    Bracket(data, line.start) < line.end
  }

  function HeaderName(data: string, line: Line): string
    requires line.start < line.end <= |data| && IsHeader(data, line)
  {
    var end := if NameIsClosed(data, line) then Bracket(data, line.start) else line.end;
    Trimmed(data[line.start + 1..end])
  }

  /** The key map with the line's key, if it has one. */
  function WithLine(data: string, line: Line, values: Keys): Keys
    requires line.start < line.end <= |data|
    requires line.equals != -1 ==> line.start <= line.equals < line.end
  {
    if line.equals == -1 then values
    else
      var key := Trimmed(data[line.start..line.equals]);
      var value := Trimmed(data[line.equals + 1..line.end]);
      values[key := value]
  }

  // ---- Parsing one slice ----

  /** The keys of all lines from a position on; section names are passed over. */
  function KeysFrom(data: string, pos: nat, values: Keys): Keys
    requires pos <= |data|
    decreases |data| - pos
  {
    var line := LineFrom(data, pos);
    EqualsComesFirst(data, line.start);
    if line.start == line.end then values
    else if IsHeader(data, line) then KeysFrom(data, line.end, values)
    else KeysFrom(data, line.end, WithLine(data, line, values))
  }

  /** A section's keys, parsed already or not. */
  function Parsed(section: Section): Keys {
    if section.unparsed == [] then section.values else KeysFrom(section.unparsed, 0, map[])
  }

  lemma LineHasItsEquals(data: string, pos: nat)
    requires pos <= |data|
    ensures var line := LineFrom(data, pos); line.equals != -1 ==> line.start <= line.equals < line.end
  {
    EqualsComesFirst(data, LineFrom(data, pos).start);
  }

  /** What one line does to the keys. */
  lemma OneKey(data: string, pos: nat, values: Keys)
    requires pos <= |data|
    ensures var line := LineFrom(data, pos);
      && (line.equals != -1 ==> line.start <= line.equals < line.end)
      && KeysFrom(data, pos, values)
         == (if line.start == line.end then values
             else KeysFrom(data, line.end, if IsHeader(data, line) then values else WithLine(data, line, values)))
  {
    LineHasItsEquals(data, pos);
  }

  lemma KeylessLine(data: string, pos: nat, values: Keys)
    requires pos <= |data|
    requires var line := LineFrom(data, pos); line.start < line.end && (data[line.start] == '[' || line.equals == -1)
    ensures KeysFrom(data, pos, values) == KeysFrom(data, LineFrom(data, pos).end, values)
  {
  }

  lemma LineWithKey(data: string, pos: nat, values: Keys)
    requires pos <= |data|
    requires var line := LineFrom(data, pos);
      line.start < line.end && data[line.start] != '[' && line.start <= line.equals < line.end
    ensures var line := LineFrom(data, pos);
      KeysFrom(data, pos, values)
      == KeysFrom(data, line.end, values[Trimmed(data[line.start..line.equals])
                                         := Trimmed(data[line.equals + 1..line.end])])
  {
  }

  /** `ensureSectionDataParsed`. */
  method EnsureParsed(section: Section) returns (parsed: Section)
    ensures parsed == section.(values := Parsed(section), unparsed := [])
  {
    if section.unparsed == [] {
      return section;
    }
    hide KeysFrom, LineFrom, Trimmed, IsTrimmed;
    var data := section.unparsed;
    ghost var wanted := KeysFrom(data, 0, map[]);
    var values: Keys := map[];
    var dataPos: nat := 0;
    var more, line := ReadLine(data, dataPos);
    while more
      invariant dataPos <= |data|
      invariant line == LineFrom(data, dataPos)
      invariant more <==> line.start < line.end
      invariant KeysFrom(data, dataPos, values) == wanted
      decreases |data| - dataPos
    {
      LineHasItsEquals(data, dataPos);
      if data[line.start] == '[' {
        KeylessLine(data, dataPos, values);
      } else if line.equals != -1 {
        LineWithKey(data, dataPos, values);
        var key := Trimmed(data[line.start..line.equals]);
        var rawValue := Trimmed(data[line.equals + 1..line.end]);
        values := values[key := rawValue];
        assert KeysFrom(data, line.end, values) == wanted;
      } else {
        KeylessLine(data, dataPos, values);
      }
      dataPos := line.end;
      more, line := ReadLine(data, dataPos);
    }
    OneKey(data, dataPos, values);
    parsed := section.(values := values, unparsed := []);
  }

  // ---- Cutting the file ----

  /** The cuts still to be made from `pos` on, while section `name` has been open since `start`. */
  function Cut(data: string, pos: nat, name: string, start: nat, all: map<string, Section>, index: nat)
    : map<string, Section>
    requires start <= pos <= |data|
    decreases |data| - pos
  {
    var line := LineFrom(data, pos);
    if line.start == line.end then Committed(all, name, data[start..], index)
    else if IsHeader(data, line) then
      Cut(data, line.end, HeaderName(data, line), line.start,
          Committed(all, name, data[start..line.start], index), if name == [] then index else index + 1)
    else Cut(data, line.end, name, start, all, index)
  }

  /** Nothing is kept of a section without a name. */
  function Committed(all: map<string, Section>, name: string, raw: string, index: nat): map<string, Section> {
    if name == [] then all else all[name := Section(name, map[], raw, index)]
  }

  predicate WellFormedFrom(data: string, pos: nat)
    requires pos <= |data|
    decreases |data| - pos
  {
    var line := LineFrom(data, pos);
    line.start == line.end
    || ((IsHeader(data, line) ==> NameIsClosed(data, line)) && WellFormedFrom(data, line.end))
  }

  /** A bracket is found where the first one is. */
  lemma {:induction false} BracketIs(data: string, i: nat, k: nat)
    requires i <= k <= |data| && (forall j :: i <= j < k ==> data[j] != ']') && (k < |data| ==> data[k] == ']')
    ensures Bracket(data, i) == k
    decreases k - i
  {
    if i < k {
      BracketIs(data, i + 1, k);
    }
  }

  lemma {:induction false} NoBracketBefore(data: string, i: nat)
    requires i <= |data|
    ensures forall j :: i <= j < Bracket(data, i) ==> data[j] != ']'
    ensures Bracket(data, i) < |data| ==> data[Bracket(data, i)] == ']'
    decreases |data| - i
  {
    if i < |data| && data[i] != ']' {
      NoBracketBefore(data, i + 1);
    }
  }

  /** A section's name is what stands between the brackets of its line, or behind the first if there is no other. */
  lemma NameIs(data: string, line: Line, inner: string, tail: string)
    requires line.start < line.end <= |data| && data[line.start..line.end] == "[" + inner + tail
    requires ']' !in inner && (tail == [] || tail[0] == ']')
    ensures IsHeader(data, line) && HeaderName(data, line) == Trimmed(inner)
    ensures NameIsClosed(data, line) <==> tail != []
  {
    hide Trimmed;
    var text, start := data[line.start..line.end], line.start;
    assert forall j :: 0 <= j < |text| ==> data[start + j] == text[j];
    assert text[0] == '[' && forall j :: 1 <= j <= |inner| ==> text[j] == inner[j - 1];
    NoBracketBefore(data, start);
    if tail != [] {
      assert text[|inner| + 1] == ']';
      BracketIs(data, start, start + |inner| + 1);
    } else {
      ClosedIff(data, line);
      assert ']' !in text by {
        assert text == ['['] + inner;
      }
    }
    assert data[start + 1..start + |inner| + 1] == text[1..|inner| + 1] == inner;
  }

  /** The format is said to be right exactly if every line that begins with a bracket has the other one too. */
  lemma {:induction false} WellFormedIff(data: string, pos: nat)
    requires pos <= |data|
    ensures WellFormedFrom(data, pos)
            <==> forall line <- Lines(data, pos) :: line.start < line.end <= |data|
                   && (data[line.start] == '[' ==> ']' in data[line.start..line.end])
    decreases |data| - pos
  {
    hide LineFrom;
    var line := LineFrom(data, pos);
    if line.start != line.end {
      WellFormedIff(data, line.end);
      ClosedIff(data, line);
    }
  }

  lemma ClosedIff(data: string, line: Line)
    requires line.start < line.end <= |data|
    ensures NameIsClosed(data, line) <==> ']' in data[line.start..line.end]
  {
    NoBracketBefore(data, line.start);
    var k, text := Bracket(data, line.start), data[line.start..line.end];
    if k < line.end {
      assert text[k - line.start] == ']';
    }
    forall c | c in text ensures c == ']' ==> k < line.end {
      var j :| 0 <= j < |text| && text[j] == c;
      assert data[line.start + j] == c;
    }
  }

  /** `initSectionsFromData`. */
  method InitSections(data: string) returns (formatOk: bool, sections: map<string, Section>)
    ensures sections == Cut(data, 0, [], 0, map[], 0)
    ensures formatOk == WellFormedFrom(data, 0)
  {
    hide Cut, WellFormedFrom, LineFrom, Trimmed, TrimmedLeft, TrimmedRight;
    sections := map[];
    var lastName: string := [];
    var lastStart: nat, index: nat, dataPos: nat := 0, 0, 0;
    formatOk := true;
    var more, line := ReadLine(data, dataPos);
    while more
      invariant lastStart <= dataPos <= |data|
      invariant line == LineFrom(data, dataPos)
      invariant (more <==> line.start < line.end) && (!more ==> line.start == |data|)
      invariant Cut(data, 0, [], 0, map[], 0) == Cut(data, dataPos, lastName, lastStart, sections, index)
      invariant WellFormedFrom(data, 0) == (formatOk && WellFormedFrom(data, dataPos))
      decreases |data| - dataPos
    {
      OneCut(data, dataPos, lastName, lastStart, sections, index);
      dataPos := line.end;
      if data[line.start] == '[' {
        if lastName != [] {
          sections := sections[lastName := Section(lastName, map[], data[lastStart..line.start], index)];
          index := index + 1;
        }
        var bracket := FindBracket(data, line.start);
        var name;
        if bracket == -1 || bracket >= line.end {
          formatOk := false;
          name := Trimmed(data[line.start + 1..line.end]);
        } else {
          name := Trimmed(data[line.start + 1..bracket]);
        }
        lastName := name;
        lastStart := line.start;
      }
      more, line := ReadLine(data, dataPos);
    }
    OneCut(data, dataPos, lastName, lastStart, sections, index);
    assert line.start == |data| && data[lastStart..line.start] == data[lastStart..];
    if lastName != [] {
      sections := sections[lastName := Section(lastName, map[], data[lastStart..line.start], index)];
    }
  }

  /** What one line does to the cutting. */
  lemma OneCut(data: string, pos: nat, name: string, start: nat, all: map<string, Section>, index: nat)
    requires start <= pos <= |data|
    ensures var line := LineFrom(data, pos);
      && Cut(data, pos, name, start, all, index)
         == (if line.start == line.end then Committed(all, name, data[start..], index)
             else if IsHeader(data, line) then
               Cut(data, line.end, HeaderName(data, line), line.start,
                   Committed(all, name, data[start..line.start], index), if name == [] then index else index + 1)
             else Cut(data, line.end, name, start, all, index))
      && WellFormedFrom(data, pos)
         == (line.start == line.end
             || ((IsHeader(data, line) ==> NameIsClosed(data, line)) && WellFormedFrom(data, line.end)))
  {
  }

  /** `indexOf(']', from)`. */
  method FindBracket(data: string, from: nat) returns (index: int)
    requires from <= |data|
    ensures index == if Bracket(data, from) == |data| then -1 else Bracket(data, from)
  {
    index := from;
    while index < |data| && data[index] != ']'
      invariant from <= index <= |data|
      invariant Bracket(data, from) == Bracket(data, index)
    {
      index := index + 1;
    }
    if index == |data| {
      index := -1;
    }
  }

  // ---- Parsing it all at once ----

  /** The keys of all sections, in one pass over the file. A later section of the same name starts afresh. */
  function Eager(data: string, pos: nat, name: string, all: map<string, Keys>): map<string, Keys>
    requires pos <= |data| && (name == [] || name in all)
    decreases |data| - pos
  {
    var line := LineFrom(data, pos);
    EqualsComesFirst(data, line.start);
    if line.start == line.end then all
    else if IsHeader(data, line) then
      var next := HeaderName(data, line);
      Eager(data, line.end, next, if next == [] then all else all[next := map[]])
    else
      Eager(data, line.end, name, if name == [] then all else all[name := WithLine(data, line, all[name])])
  }

  /** The keys up to the next section name. */
  function KeysTo(data: string, pos: nat, values: Keys): Keys
    requires pos <= |data|
    decreases |data| - pos
  {
    var line := LineFrom(data, pos);
    EqualsComesFirst(data, line.start);
    if line.start == line.end || IsHeader(data, line) then values
    else KeysTo(data, line.end, WithLine(data, line, values))
  }

  /** Where the next section name starts. */
  function NextHeader(data: string, pos: nat): (r: nat)
    requires pos <= |data|
    ensures pos <= r <= |data|
    ensures LineFrom(data, pos).start <= r
    decreases |data| - pos
  {
    var line := LineFrom(data, pos);
    if line.start == line.end || IsHeader(data, line) then line.start
    else NextHeader(data, line.end)
  }

  lemma SameLineSameKey(data: string, a: nat, c: nat, line: Line, values: Keys)
    requires a <= line.start < line.end <= c <= |data|
    requires line.equals != -1 ==> line.start <= line.equals < line.end
    ensures var moved := Line(line.start - a, line.end - a, if line.equals == -1 then -1 else line.equals - a);
            WithLine(data[a..c], moved, values) == WithLine(data, line, values)
  {
    hide Trimmed;
    if line.equals != -1 {
      SliceOfSlice(data, a, c, line.start, line.equals);
      SliceOfSlice(data, a, c, line.equals + 1, line.end);
    }
  }

  /** The next section name is past the end of a line that is none. */
  lemma HeaderIsPast(data: string, pos: nat)
    requires pos <= |data|
    requires var line := LineFrom(data, pos); line.start != line.end && !IsHeader(data, line)
    ensures var line := LineFrom(data, pos); line.end < NextHeader(data, pos) || NextHeader(data, pos) == |data|
  {
  }

  /** Parsing a slice that ends where a section starts is parsing up to there. */
  lemma {:induction false} SliceKeys(data: string, a: nat, pos: nat, values: Keys)
    requires a <= pos <= |data|
    ensures KeysFrom(data[a..NextHeader(data, pos)], pos - a, values) == KeysTo(data, pos, values)
    decreases |data| - pos
  {
    hide SkipLines, SkipSpaces, Stop, Equals, Begin, LineFrom, WithLine;
    var c, line := NextHeader(data, pos), LineFrom(data, pos);
    LineHasItsEquals(data, pos);
    if line.start == line.end || IsHeader(data, line) {
      NoLineInSlice(data, a, c, pos);
    } else {
      HeaderIsPast(data, pos);
      LineInSlice(data, a, c, pos);
      SameLineSameKey(data, a, c, line, values);
      SliceKeys(data, a, line.end, WithLine(data, line, values));
    }
  }

  // ---- Lazy parsing gives what eager parsing gives ----

  /** A header line opens its own slice. */
  lemma SliceOfHeader(data: string, pos: nat)
    requires pos <= |data|
    requires var line := LineFrom(data, pos); line.start < line.end && IsHeader(data, line)
    ensures var line := LineFrom(data, pos);
      KeysFrom(data[line.start..NextHeader(data, line.end)], 0, map[]) == KeysTo(data, line.end, map[])
  {
    hide SkipLines, SkipSpaces, Stop, Equals, Begin, LineFrom, WithLine, KeysFrom, KeysTo, NextHeader;
    var line := LineFrom(data, pos);
    var c := NextHeader(data, line.end);
    LineEndsAtBreak(data, pos);
    HeaderStartsItself(data, pos);
    HeaderEndsBefore(data, line.end);
    LineInSlice(data, line.start, c, line.start);
    SliceKeys(data, line.start, line.end, map[]);
    OneKey(data[line.start..c], 0, map[]);
  }

  /** Read again from its own start, a header line is the same. */
  lemma HeaderStartsItself(data: string, pos: nat)
    requires pos <= |data|
    requires var line := LineFrom(data, pos); line.start < line.end && IsHeader(data, line)
    ensures LineFrom(data, LineFrom(data, pos).start) == LineFrom(data, pos)
  {
  }

  lemma LineEndsAtBreak(data: string, pos: nat)
    requires pos <= |data|
    ensures var end := LineFrom(data, pos).end; end < |data| ==> IsBreak(data[end])
  {
  }

  lemma HeaderEndsBefore(data: string, end: nat)
    requires end <= |data| && (end < |data| ==> IsBreak(data[end]))
    ensures end < NextHeader(data, end) || NextHeader(data, end) == |data|
  {
  }

  /** The closed sections agree; the one open has its keys so far on the eager side only. */
  ghost predicate InAgreement(sections: map<string, Section>, eager: map<string, Keys>, name: string) {
    && eager.Keys == sections.Keys + (if name == [] then {} else {name})
    && [] !in sections
    && (forall n :: n in sections && n != name ==> Parsed(sections[n]) == eager[n])
  }

  lemma {:induction false} CutAgrees(data: string, pos: nat, name: string, start: nat, all: map<string, Section>,
                                     index: nat, eager: map<string, Keys>)
    requires start <= pos <= |data|
    requires InAgreement(all, eager, name)
    requires name != [] ==>
      start < pos && KeysFrom(data[start..NextHeader(data, pos)], 0, map[]) == KeysTo(data, pos, eager[name])
    ensures InAgreement(Cut(data, pos, name, start, all, index), Eager(data, pos, name, eager), [])
    decreases |data| - pos
  {
    hide SkipLines, SkipSpaces, Stop, Equals, Begin, LineFrom, WithLine, KeysFrom, Trimmed, TrimmedLeft, TrimmedRight;
    var line := LineFrom(data, pos);
    LineHasItsEquals(data, pos);
    OneCut(data, pos, name, start, all, index);
    if line.start == line.end {
      EmptyAtEnd(data, pos);
      assert data[start..line.start] == data[start..];
      CommitAgrees(data, pos, name, start, all, index, eager);
    } else if IsHeader(data, line) {
      CommitAgrees(data, pos, name, start, all, index, eager);
      SliceOfHeader(data, pos);
      var next := HeaderName(data, line);
      CutAgrees(data, line.end, next, line.start, Committed(all, name, data[start..line.start], index),
                if name == [] then index else index + 1, if next == [] then eager else eager[next := map[]]);
    } else {
      CutAgrees(data, line.end, name, start, all, index,
                if name == [] then eager else eager[name := WithLine(data, line, eager[name])]);
    }
  }

  /** Closing the open section. */
  lemma CommitAgrees(data: string, pos: nat, name: string, start: nat, all: map<string, Section>, index: nat,
                     eager: map<string, Keys>)
    requires start <= pos <= |data|
    requires InAgreement(all, eager, name)
    requires name != [] ==>
      start < pos && KeysFrom(data[start..NextHeader(data, pos)], 0, map[]) == KeysTo(data, pos, eager[name])
    requires var line := LineFrom(data, pos); line.start == line.end || IsHeader(data, line)
    ensures InAgreement(Committed(all, name, data[start..LineFrom(data, pos).start], index), eager, [])
  {
    hide LineFrom, KeysFrom;
    LineHasItsEquals(data, pos);
  }

  /** The sections, each parsed lazily from its own slice, hold what one eager pass over the file finds. */
  lemma LazyIsEager(data: string)
    ensures var sections, eager := Cut(data, 0, [], 0, map[], 0), Eager(data, 0, [], map[]);
      && sections.Keys == eager.Keys
      && forall name :: name in sections ==> Parsed(sections[name]) == eager[name]
  {
    CutAgrees(data, 0, [], 0, map[], 0, map[]);
  }
}
