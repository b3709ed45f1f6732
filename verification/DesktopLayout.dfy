/**
 * Lines of desktop entry files as they are laid out: blanks, empty lines and comments, then the line as a row of
 * characters, some of them escaped, up to a line break or the end. However a line is laid out, the tokenizer finds it.
 */
module DesktopLayout {
  import opened DesktopLines

  /** A character for itself, one behind a backslash, and a break of two characters behind a backslash. */
  datatype Unit = Plain(c: char) | Escaped(c: char) | Continued(c: char, d: char)

  /** What may stand in front of a line: an empty line, or a comment with the break behind it. */
  datatype Skip = Empty(c: char) | Comment(text: string, c: char)

  predicate IsEnd(c: char) {
    c in {'\n', '\r'}
  }

  predicate IsUnit(u: Unit) {
    match u
    case Plain(c) => c !in {'\n', '\r', '\\'}
    case Escaped(_) => true
    case Continued(c, d) => (c == '\n' && d == '\r') || (c == '\r' && d == '\n')
  }

  predicate IsSkip(s: Skip) {
    IsEnd(s.c) && (s.Comment? ==> forall c <- s.text :: !IsEnd(c))
  }

  function UnitText(u: Unit): (t: string)
    ensures t != []
  {
    match u
    case Plain(c) => [c]
    case Escaped(c) => ['\\', c]
    case Continued(c, d) => ['\\', c, d]
  }

  function UnitsText(units: seq<Unit>): string {
    if units == [] then [] else UnitText(units[0]) + UnitsText(units[1..])
  }

  function SkipText(s: Skip): string {
    match s
    case Empty(c) => [c]
    case Comment(text, c) => "#" + text + [c]
  }

  function SkipsText(skips: seq<Skip>): string {
    if skips == [] then [] else SkipText(skips[0]) + SkipsText(skips[1..])
  }

  ghost predicate AreUnits(units: seq<Unit>) {
    forall u <- units :: IsUnit(u)
  }

  predicate AreSpaces(s: string) {
    forall c <- s :: c in {' ', '\t', '\n', '\r'}
  }

  ghost predicate AreSkips(skips: seq<Skip>) {
    forall s <- skips :: IsSkip(s)
  }

  /** The line goes on to here: a break ends it, unless it is the other half of one that was escaped. */
  predicate EndsLine(units: seq<Unit>, rest: string) {
    rest == []
    || (IsEnd(rest[0])
        && (units != [] && units[|units| - 1].Escaped? ==>
              !IsUnit(Continued(units[|units| - 1].c, rest[0]))))
  }

  /** It begins here, behind comments and empty lines: not with what would have been passed over. */
  predicate BeginsLine(units: seq<Unit>, skips: seq<Skip>) {
    && units != [] && (skips != [] ==> skips[0].Comment?)
    && (units[0].Plain? ==> units[0].c != '#' && (skips == [] ==> units[0].c != ' ' && units[0].c != '\t'))
  }

  /** Where the first '=' that is not escaped stands. */
  function FirstEquals(units: seq<Unit>): int {
    if units == [] then -1
    else if units[0] == Plain('=') then 0
    else
      var k := FirstEquals(units[1..]);
      if k == -1 then -1 else |UnitText(units[0])| + k
  }

  ghost predicate Stands(data: string, i: nat, text: string) {
    i + |text| <= |data| && data[i..i + |text|] == text
  }

  /** From `i` on, the text is these two, one behind the other, and that is the end. */
  ghost predicate Remains(data: string, i: nat, before: string, line: string) {
    Stands(data, i, before) && Stands(data, i + |before|, line) && i + |before| + |line| == |data|
  }

  lemma StandsParts(data: string, i: nat, a: string, b: string)
    requires Stands(data, i, a + b)
    ensures Stands(data, i, a) && Stands(data, i + |a|, b)
  {
    var s := data[i..i + |a + b|];
    assert data[i..i + |a|] == s[..|a|] == a;
    assert data[i + |a|..i + |a| + |b|] == s[|a|..] == b;
  }

  lemma StandsAt(data: string, i: nat, text: string, k: nat)
    requires Stands(data, i, text) && k < |text|
    ensures i + k < |data| && data[i + k] == text[k]
  {
    assert data[i..i + |text|][k] == data[i + k];
  }

  /** What comes behind some units, as far as the first of it matters. */
  predicate NoOtherHalf(u: Unit, data: string, i: nat) {
    u.Escaped? && i < |data| ==> !IsUnit(Continued(u.c, data[i]))
  }

  lemma UnitIsPassed(data: string, i: nat, u: Unit)
    requires IsUnit(u) && Stands(data, i, UnitText(u)) && NoOtherHalf(u, data, i + |UnitText(u)|)
    ensures i < |data| && Past(data, i) == i + |UnitText(u)| && !IsBreak(data[i])
    ensures data[i] == '=' <==> u == Plain('=')
  {
    StandsAt(data, i, UnitText(u), 0);
    if !u.Plain? {
      StandsAt(data, i, UnitText(u), 1);
    }
    if u.Continued? {
      StandsAt(data, i, UnitText(u), 2);
    }
  }

  lemma FirstUnit(units: seq<Unit>, rest: string)
    requires units != []
    ensures UnitsText(units) + rest == UnitText(units[0]) + (UnitsText(units[1..]) + rest)
  {
  }

  lemma RestOfUnits(units: seq<Unit>, rest: string)
    requires units != [] && AreUnits(units) && EndsLine(units, rest)
    ensures IsUnit(units[0]) && AreUnits(units[1..]) && EndsLine(units[1..], rest)
  {
    if |units| > 1 {
      assert units[1..][|units| - 2] == units[|units| - 1];
    }
  }

  /** A unit begins with no break, so it is no other half. */
  lemma NextIsNoHalf(units: seq<Unit>, rest: string)
    requires units != [] && AreUnits(units) && EndsLine(units, rest)
    ensures var tail := UnitsText(units[1..]) + rest;
            units[0].Escaped? && tail != [] ==> !IsUnit(Continued(units[0].c, tail[0]))
  {
    if |units| > 1 {
      assert units[1] in units;
      assert UnitsText(units[1..])[0] == UnitText(units[1])[0];
    }
  }

  lemma {:induction false} StopsBehind(data: string, i: nat, units: seq<Unit>, rest: string)
    requires AreUnits(units) && EndsLine(units, rest)
    requires Stands(data, i, UnitsText(units) + rest) && i + |UnitsText(units) + rest| == |data|
    ensures Stop(data, i, false) == i + |UnitsText(units)|
    ensures Equals(data, i) == if FirstEquals(units) == -1 then -1 else i + FirstEquals(units)
    ensures FirstEquals(units) >= -1
    decreases |units|
  {
    hide Stands, AreUnits, EndsLine, IsUnit, UnitText, UnitsText, Past, Stop, Equals;
    if units == [] {
      StopsAtEnd(data, i, rest);
    } else {
      FirstUnit(units, rest);
      RestOfUnits(units, rest);
      NextIsNoHalf(units, rest);
      var u, tail := units[0], UnitsText(units[1..]) + rest;
      StandsParts(data, i, UnitText(u), tail);
      var next := i + |UnitText(u)|;
      if next < |data| {
        StandsAt(data, next, tail, 0);
      }
      UnitIsPassed(data, i, u);
      StopsBehind(data, next, units[1..], rest);
      StopsPast(data, i);
    }
  }

  lemma StopsAtEnd(data: string, i: nat, rest: string)
    requires EndsLine([], rest) && Stands(data, i, UnitsText([]) + rest) && i + |UnitsText([]) + rest| == |data|
    ensures Stop(data, i, false) == i + |UnitsText([])| && Equals(data, i) == -1
  {
    assert UnitsText([]) + rest == rest;
    if rest != [] {
      StandsAt(data, i, rest, 0);
    }
  }

  lemma StopsPast(data: string, i: nat)
    requires i < |data| && !IsBreak(data[i])
    ensures Stop(data, i, false) == Stop(data, Past(data, i), false)
    ensures Equals(data, i) == if data[i] == '=' then i else Equals(data, Past(data, i))
  {
  }

  lemma {:induction false} SpacesUpTo(data: string, i: nat, k: nat)
    requires i <= k <= |data| && (forall j :: i <= j < k ==> data[j] in {' ', '\t', '\n', '\r'})
    requires k < |data| ==> data[k] !in {' ', '\t', '\n', '\r'}
    ensures SkipSpaces(data, i) == k
    decreases k - i
  {
    if i < k {
      SpacesUpTo(data, i + 1, k);
    }
  }

  lemma SpacesAreSkipped(data: string, i: nat, spaces: string)
    requires Stands(data, i, spaces) && AreSpaces(spaces)
    requires i + |spaces| < |data| ==> data[i + |spaces|] !in {' ', '\t', '\n', '\r'}
    ensures SkipSpaces(data, i) == i + |spaces|
  {
    forall j | i <= j < i + |spaces| ensures data[j] in {' ', '\t', '\n', '\r'} {
      StandsAt(data, i, spaces, j - i);
      assert spaces[j - i] in spaces;
    }
    SpacesUpTo(data, i, i + |spaces|);
  }

  lemma {:induction false} CommentUpTo(data: string, i: nat, k: nat)
    requires i <= k <= |data| && (forall j :: i <= j < k ==> !IsEnd(data[j])) && (k < |data| ==> IsEnd(data[k]))
    ensures CommentEnd(data, i) == k
    decreases k - i
  {
    if i < k {
      CommentUpTo(data, i + 1, k);
    }
  }

  lemma CommentIsPassed(data: string, i: nat, text: string)
    requires Stands(data, i, text) && (forall c <- text :: !IsEnd(c))
    requires i + |text| < |data| ==> IsEnd(data[i + |text|])
    ensures CommentEnd(data, i) == i + |text|
  {
    forall j | i <= j < i + |text| ensures !IsEnd(data[j]) {
      StandsAt(data, i, text, j - i);
      assert text[j - i] in text;
    }
    CommentUpTo(data, i, i + |text|);
  }

  lemma SkipIsSkipped(data: string, i: nat, s: Skip)
    requires IsSkip(s) && Stands(data, i, SkipText(s))
    ensures SkipLines(data, i) == SkipLines(data, i + |SkipText(s)|)
  {
    StandsAt(data, i, SkipText(s), 0);
    if s.Comment? {
      assert SkipText(s) == "#" + (s.text + [s.c]);
      StandsParts(data, i, "#", s.text + [s.c]);
      StandsParts(data, i + 1, s.text, [s.c]);
      StandsAt(data, i + 1 + |s.text|, [s.c], 0);
      CommentIsPassed(data, i + 1, s.text);
    }
  }

  lemma {:induction false} SkipsAreSkipped(data: string, i: nat, skips: seq<Skip>)
    requires AreSkips(skips) && Stands(data, i, SkipsText(skips))
    ensures SkipLines(data, i) == SkipLines(data, i + |SkipsText(skips)|)
    decreases |skips|
  {
    hide AreSkips, IsSkip, SkipText, SkipsText, Stands, SkipLines;
    if skips == [] {
      NoSkips();
    } else {
      var s, rest := skips[0], SkipsText(skips[1..]);
      FirstSkip(skips);
      StandsParts(data, i, SkipText(s), rest);
      SkipIsSkipped(data, i, s);
      SkipsAreSkipped(data, i + |SkipText(s)|, skips[1..]);
    }
  }

  lemma NoSkips()
    ensures SkipsText([]) == []
  {
  }

  lemma FirstSkip(skips: seq<Skip>)
    requires skips != [] && AreSkips(skips)
    ensures IsSkip(skips[0]) && AreSkips(skips[1..]) && SkipsText(skips) == SkipText(skips[0]) + SkipsText(skips[1..])
  {
    assert skips[0] in skips && forall t <- skips[1..] :: t in skips;
  }

  /**
   * Behind blanks, empty lines and comments a line is found from its first character to the break that ends it, and
   * its '=' is the first that is not escaped.
   */
  lemma LineIsFound(data: string, pos: nat, spaces: string, skips: seq<Skip>, units: seq<Unit>, rest: string)
    requires Remains(data, pos, spaces + SkipsText(skips), UnitsText(units) + rest)
    requires AreSpaces(spaces) && AreSkips(skips) && AreUnits(units)
    requires BeginsLine(units, skips) && EndsLine(units, rest)
    ensures var start := pos + |spaces| + |SkipsText(skips)|;
            LineFrom(data, pos) == Line(start, start + |UnitsText(units)|,
                                        if FirstEquals(units) == -1 then -1 else start + FirstEquals(units))
  {
    hide AreSpaces, AreSkips, AreUnits, BeginsLine, EndsLine, Stands, SkipsText, UnitsText, FirstEquals,
         SkipSpaces, SkipLines, Stop, Equals;
    var start := pos + |spaces + SkipsText(skips)|;
    StandsParts(data, pos, spaces, SkipsText(skips));
    FirstOfLine(data, start, units, rest, skips);
    NothingToSkip(data, start);
    FirstBehindSpaces(data, pos + |spaces|, skips, units);
    SpacesAreSkipped(data, pos, spaces);
    SkipsAreSkipped(data, pos + |spaces|, skips);
    StopsBehind(data, start, units, rest);
  }

  lemma NothingToSkip(data: string, i: nat)
    requires i < |data| && !IsEnd(data[i]) && data[i] != '#'
    ensures SkipLines(data, i) == i
  {
  }

  lemma FirstBehindSpaces(data: string, i: nat, skips: seq<Skip>, units: seq<Unit>)
    requires Stands(data, i, SkipsText(skips))
    requires BeginsLine(units, skips) && i + |SkipsText(skips)| < |data|
    requires var c := data[i + |SkipsText(skips)|]; !IsEnd(c) && c == if units[0].Plain? then units[0].c else '\\'
    ensures data[i] !in {' ', '\t', '\n', '\r'}
  {
    if skips != [] {
      StandsAt(data, i, SkipsText(skips), 0);
    }
  }

  lemma FirstOfLine(data: string, i: nat, units: seq<Unit>, rest: string, skips: seq<Skip>)
    requires BeginsLine(units, skips) && AreUnits(units) && Stands(data, i, UnitsText(units) + rest)
    ensures units != []
    ensures i < |data| && !IsEnd(data[i]) && data[i] != '#'
    ensures data[i] == if units[0].Plain? then units[0].c else '\\'
  {
    assert units[0] in units;
    StandsAt(data, i, UnitsText(units) + rest, 0);
  }
}
