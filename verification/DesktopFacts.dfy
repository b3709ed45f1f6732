/**
 * What a text says line by line, and what a printed text says: no more than it was printed for, and as much of it only
 * if every line is clean.
 */
module DesktopFacts {
  import opened Basics
  import opened DesktopLines
  import opened DesktopSections

  // ---- What a text says, line by line ----

  datatype Fact = Opens(name: string) | Has(key: string, value: string)

  function FactsOf(data: string, line: Line): seq<Fact>
    requires line.start < line.end <= |data| && (line.equals != -1 ==> line.start <= line.equals < line.end)
  {
    if IsHeader(data, line) then [Opens(HeaderName(data, line))]
    else if line.equals == -1 then []
    else [Has(Trimmed(data[line.start..line.equals]), Trimmed(data[line.equals + 1..line.end]))]
  }

  function Trace(data: string, pos: nat): seq<Fact>
    requires pos <= |data|
    decreases |data| - pos
  {
    var line := LineFrom(data, pos);
    EqualsComesFirst(data, line.start);
    if line.start == line.end then [] else FactsOf(data, line) + Trace(data, line.end)
  }

  /** The sections that such facts make, with `name` open. */
  function Into(name: string, all: map<string, Keys>, facts: seq<Fact>): map<string, Keys>
    requires name == [] || name in all
    decreases |facts|
  {
    if facts == [] then all
    else match facts[0]
      case Opens(next) => Into(next, if next == [] then all else all[next := map[]], facts[1..])
      case Has(k, v) => Into(name, if name == [] then all else all[name := all[name][k := v]], facts[1..])
  }

  /** The keys that they make if section names are passed over. */
  function KeysInto(all: Keys, facts: seq<Fact>): Keys
    decreases |facts|
  {
    if facts == [] then all
    else KeysInto(if facts[0].Has? then all[facts[0].key := facts[0].value] else all, facts[1..])
  }

  lemma OneMoreFact(f: Fact, rest: seq<Fact>)
    ensures ([f] + rest)[0] == f && ([f] + rest)[1..] == rest
  {
  }

  lemma {:induction false} EagerIsInto(data: string, pos: nat, name: string, all: map<string, Keys>)
    requires pos <= |data| && (name == [] || name in all)
    ensures Eager(data, pos, name, all) == Into(name, all, Trace(data, pos))
    decreases |data| - pos
  {
    hide LineFrom, HeaderName, Trimmed;
    var line := LineFrom(data, pos);
    LineHasItsEquals(data, pos);
    if line.start != line.end {
      var facts, rest := FactsOf(data, line), Trace(data, line.end);
      if IsHeader(data, line) {
        var next := HeaderName(data, line);
        OneMoreFact(facts[0], rest);
        EagerIsInto(data, line.end, next, if next == [] then all else all[next := map[]]);
      } else {
        if line.equals == -1 {
          assert facts + rest == rest;
          assert name != [] ==> all[name := all[name]] == all;
        } else {
          OneMoreFact(facts[0], rest);
        }
        EagerIsInto(data, line.end, name, if name == [] then all else all[name := WithLine(data, line, all[name])]);
      }
    }
  }

  lemma {:induction false} KeysAreInto(data: string, pos: nat, all: Keys)
    requires pos <= |data|
    ensures KeysFrom(data, pos, all) == KeysInto(all, Trace(data, pos))
    decreases |data| - pos
  {
    hide LineFrom, HeaderName, Trimmed;
    var line := LineFrom(data, pos);
    LineHasItsEquals(data, pos);
    OneKey(data, pos, all);
    if line.start != line.end {
      var facts, rest := FactsOf(data, line), Trace(data, line.end);
      if facts == [] {
        assert facts + rest == rest;
      } else {
        OneMoreFact(facts[0], rest);
      }
      KeysAreInto(data, line.end, if IsHeader(data, line) then all else WithLine(data, line, all));
    }
  }

  // ---- What can be read ----

  /** The last character is a backslash that escapes nothing. */
  predicate Dangles(s: string, i: nat)
    requires i <= |s|
    decreases |s| - i
  {
    i < |s| && ((s[i] == '\\' && i + 1 == |s|) || Dangles(s, Past(s, i)))
  }

  /** What may be found in a file: trimmed, and nothing in it would have stopped the tokenizer. */
  predicate Readable(f: Fact) {
    match f
    case Opens(n) => n != [] && IsTrimmed(n) && Stop(n, 0, false) == |n| && ']' !in n
    case Has(k, v) => IsTrimmed(k) && Stop(k, 0, true) == |k| && IsTrimmed(v) && Stop(v, 0, false) == |v|
  }

  /** What is found again where it is printed; only on the last line of all a value may end in a dangling backslash. */
  predicate Clean(f: Fact, last: bool) {
    && Readable(f)
    && (f.Has? ==>
          && !Dangles(f.key, 0) && (f.key != [] ==> f.key[0] != '[' && f.key[0] != '#')
          && (last || !Dangles(f.value, 0)))
  }

  predicate AllClean(facts: seq<Fact>)
    decreases |facts|
  {
    facts == [] || (Clean(facts[0], |facts| == 1) && AllClean(facts[1..]))
  }

  lemma {:induction false} ScansUpTo(data: string, a: nat, c: nat, i: nat, atEquals: bool)
    requires a <= i <= c <= |data| && c <= Stop(data, i, atEquals)
    ensures Stop(data[a..c], i - a, atEquals) == c - a
    decreases c - i
  {
    if i < c {
      assert data[a..c][i - a] == data[i];
      var s := data[a..c];
      assert i + 1 < c ==> s[i + 1 - a] == data[i + 1];
      assert i + 2 < c ==> s[i + 2 - a] == data[i + 2];
      if Past(data, i) <= c {
        ScansUpTo(data, a, c, Past(data, i), atEquals);
      }
    }
  }

  lemma {:induction false} TrimmedLeftScans(s: string, atEquals: bool)
    requires Stop(s, 0, atEquals) == |s|
    ensures Stop(TrimmedLeft(s), 0, atEquals) == |TrimmedLeft(s)|
  {
    if s != [] && IsBlank(s[0]) {
      ScansUpTo(s, 1, |s|, 1, atEquals);
      assert s[1..|s|] == s[1..];
      TrimmedLeftScans(s[1..], atEquals);
    }
  }

  lemma TrimmedScans(s: string, atEquals: bool)
    requires Stop(s, 0, atEquals) == |s|
    ensures Stop(Trimmed(s), 0, atEquals) == |Trimmed(s)|
  {
    TrimmedLeftScans(s, atEquals);
    var left := TrimmedLeft(s);
    ScansUpTo(left, 0, |TrimmedRight(left)|, 0, atEquals);
    assert left[0..|TrimmedRight(left)|] == TrimmedRight(left);
  }

  lemma TrimmedIsInside(s: string, c: char)
    requires c !in s
    ensures c !in Trimmed(s)
  {
    TrimmedLeftIsInside(s, c);
  }

  lemma {:induction false} TrimmedLeftIsInside(s: string, c: char)
    requires c !in s
    ensures c !in TrimmedLeft(s)
  {
    if s != [] && IsBlank(s[0]) {
      TrimmedLeftIsInside(s[1..], c);
    }
  }

  lemma {:induction false} BeforeBracket(data: string, i: nat, k: nat)
    requires i <= |data| && i <= k < Bracket(data, i)
    ensures data[k] != ']'
    decreases k - i
  {
    if i < k {
      BeforeBracket(data, i + 1, k);
    }
  }

  /** The facts of a line are readable, but for an empty name. */
  lemma LineIsReadable(data: string, pos: nat)
    requires pos <= |data| && LineFrom(data, pos).start < LineFrom(data, pos).end
    ensures var line := LineFrom(data, pos);
      && (line.equals != -1 ==> line.start <= line.equals < line.end)
      && forall f :: f in FactsOf(data, line) ==> f == Opens([]) || Readable(f)
  {
    hide Trimmed, Begin, Past, Stop, Bracket, Readable, IsTrimmed;
    var line := LineFrom(data, pos);
    LineHasItsEquals(data, pos);
    if IsHeader(data, line) {
      BracketIsAhead(data, line.start);
      NameIsRead(data, line.start, line.end, if NameIsClosed(data, line) then Bracket(data, line.start) else line.end);
    } else if line.equals != -1 {
      KeyIsRead(data, line.start, line.equals, line.end);
    }
  }

  lemma BracketIsAhead(data: string, i: nat)
    requires i < |data| && data[i] != ']'
    ensures i < Bracket(data, i)
  {
  }

  lemma NameIsRead(data: string, start: nat, end: nat, bracket: nat)
    requires start < |data| && data[start] == '[' && end == Stop(data, start, false)
    requires start < bracket <= Bracket(data, start) && bracket <= end
    ensures var f := Opens(Trimmed(data[start + 1..bracket])); f == Opens([]) || Readable(f)
  {
    hide Trimmed, Bracket;
    NameScans(data, start, bracket);
    TrimmedScans(data[start + 1..bracket], false);
    forall k | start <= k < bracket ensures data[k] != ']' {
      BeforeBracket(data, start, k);
    }
    TrimmedIsInside(data[start + 1..bracket], ']');
  }

  lemma KeyIsRead(data: string, start: nat, equals: nat, end: nat)
    requires start <= |data| && equals == Stop(data, start, true) < end == Stop(data, start, false)
    requires data[equals] == '='
    ensures Readable(Has(Trimmed(data[start..equals]), Trimmed(data[equals + 1..end])))
  {
    hide Trimmed;
    ScansUpTo(data, start, equals, start, true);
    TrimmedScans(data[start..equals], true);
    ValueScans(data, start, equals, end);
    TrimmedScans(data[equals + 1..end], false);
  }

  lemma NameScans(data: string, start: nat, end: nat)
    requires start < |data| && start < end <= Stop(data, start, false) && data[start] == '['
    ensures Stop(data[start + 1..end], 0, false) == end - start - 1
  {
    ScansUpTo(data, start + 1, end, start + 1, false);
  }

  lemma ValueScans(data: string, start: nat, equals: nat, end: nat)
    requires start <= |data| && equals == Stop(data, start, true) < end == Stop(data, start, false)
    requires data[equals] == '='
    ensures Stop(data[equals + 1..end], 0, false) == end - equals - 1
  {
    StopsOn(data, start);
    ScansUpTo(data, equals + 1, end, equals + 1, false);
  }

  lemma {:induction false} StopsOn(data: string, i: nat)
    requires i <= |data|
    ensures Stop(data, i, false) == Stop(data, Stop(data, i, true), false)
    decreases |data| - i
  {
    if i < |data| && !IsBreak(data[i]) && data[i] != '=' {
      StopsOn(data, Past(data, i));
    }
  }

  lemma {:induction false} TraceIsReadable(data: string, pos: nat)
    requires pos <= |data|
    ensures forall f :: f in Trace(data, pos) ==> f == Opens([]) || Readable(f)
    decreases |data| - pos
  {
    hide FactsOf, Readable, LineFrom;
    var line := LineFrom(data, pos);
    LineHasItsEquals(data, pos);
    if line.start != line.end {
      LineIsReadable(data, pos);
      TraceIsReadable(data, line.end);
    }
  }

  // ---- Printed lines ----

  function LineOf(f: Fact): string {
    match f
    case Opens(n) => "[" + n + "]"
    case Has(k, v) => k + "=" + v
  }

  function Text(facts: seq<Fact>): string
    decreases |facts|
  {
    if facts == [] then [] else LineOf(facts[0]) + "\n" + Text(facts[1..])
  }

  /** From `i` on the data is that text. */
  predicate Rest(data: string, i: nat, facts: seq<Fact>) {
    i <= |data| && data[i..] == Text(facts)
  }

  predicate AllReadable(facts: seq<Fact>)
    decreases |facts|
  {
    facts == [] || (Readable(facts[0]) && AllReadable(facts[1..]))
  }

  /** The position before a line: its start, or the break that ends the line before. */
  predicate AtLine(data: string, pos: nat, i: nat) {
    i <= |data| && (pos == i || (pos + 1 == i && data[pos] == '\n'))
  }

  /** `text` stands at `i`. */
  predicate Stands(data: string, i: nat, text: string) {
    i + |text| <= |data| && data[i..i + |text|] == text
  }

  /** The parts of the next line, and what follows. */
  lemma NextHas(data: string, i: nat, facts: seq<Fact>)
    requires Rest(data, i, facts) && facts != [] && facts[0].Has?
    ensures var Has(k, v) := facts[0];
      var a := i + |k| + 1;
      && Stands(data, i, k) && Stands(data, a, v) && a + |v| < |data|
      && data[a - 1] == '=' && data[a + |v|] == '\n' && Rest(data, a + |v| + 1, facts[1..])
  {
    var Has(k, v) := facts[0];
    var rest := Text(facts[1..]);
    assert Text(facts) == k + "=" + v + "\n" + rest;
    hide Text;
    HasInText(data, i, k, v, rest);
  }

  lemma HasInText(data: string, i: nat, k: string, v: string, rest: string)
    requires i <= |data| && data[i..] == k + "=" + v + "\n" + rest
    ensures var a := i + |k| + 1;
      && Stands(data, i, k) && Stands(data, a, v) && a + |v| < |data|
      && data[a - 1] == '=' && data[a + |v|] == '\n' && data[a + |v| + 1..] == rest
  {
    var text := data[i..];
    assert forall j :: 0 <= j < |text| ==> data[i + j] == text[j];
    assert data[i..i + |k|] == text[..|k|];
    assert data[i + |k| + 1..i + |k| + 1 + |v|] == text[|k| + 1..|k| + 1 + |v|] == v;
    assert data[i + |k| + |v| + 2..] == text[|k| + |v| + 2..] == rest;
  }

  lemma NextOpens(data: string, i: nat, facts: seq<Fact>)
    requires Rest(data, i, facts) && facts != [] && facts[0].Opens?
    ensures var Opens(n) := facts[0];
      var a := i + 1;
      && Stands(data, a, n) && a + |n| + 1 < |data|
      && data[i] == '[' && data[a + |n|] == ']' && data[a + |n| + 1] == '\n' && Rest(data, a + |n| + 2, facts[1..])
  {
    var Opens(n) := facts[0];
    var text := Text(facts);
    assert text == "[" + n + "]" + "\n" + Text(facts[1..]);
    assert forall j :: 0 <= j < |text| ==> data[i + j] == text[j];
    assert data[i + 1..i + 1 + |n|] == text[1..1 + |n|] == n;
    assert data[i + |n| + 3..] == text[|n| + 3..] == Text(facts[1..]);
  }

  /** A line does not start with a blank. */
  lemma LineStarts(data: string, i: nat, facts: seq<Fact>)
    requires Rest(data, i, facts) && AllReadable(facts)
    ensures facts != [] <==> i < |data|
    ensures i < |data| ==> !IsBlank(data[i])
  {
    if facts != [] {
      if facts[0].Has? {
        NextHas(data, i, facts);
        var k := facts[0].key;
        assert k != [] ==> data[i] == data[i..i + |k|][0] == k[0];
      } else {
        NextOpens(data, i, facts);
      }
    }
  }

  lemma FirstIsReadable(facts: seq<Fact>)
    requires AllReadable(facts) && facts != []
    ensures Readable(facts[0]) && AllReadable(facts[1..])
  {
  }

  lemma EndOfTrimmed(s: string)
    requires IsTrimmed(s)
    ensures s != [] ==> !IsBreak(s[|s| - 1])
  {
  }

  /** What is readable can be scanned to its end, which is no break. */
  lemma HasScans(f: Fact)
    requires f.Has? && Readable(f)
    ensures Stop(f.key, 0, true) == Stop(f.key, 0, false) == |f.key| && Stop(f.value, 0, false) == |f.value|
    ensures f.key != [] ==> !IsBreak(f.key[|f.key| - 1])
    ensures f.value != [] ==> !IsBreak(f.value[|f.value| - 1])
  {
    hide Stop;
    ReadAnyway(f.key, 0);
    EndOfTrimmed(f.key);
    EndOfTrimmed(f.value);
  }

  lemma OpensScans(f: Fact)
    requires f.Opens? && Readable(f)
    ensures Stop(f.name, 0, false) == |f.name| && (f.name != [] ==> !IsBreak(f.name[|f.name| - 1]))
  {
    EndOfTrimmed(f.name);
  }

  // ---- Scanning printed lines ----

  lemma Plainly(data: string, i: nat, atEquals: bool)
    requires i < |data| && !IsBreak(data[i]) && data[i] != '\\' && (atEquals ==> data[i] != '=')
    ensures Stop(data, i, atEquals) == Stop(data, i + 1, atEquals)
  {
  }

  lemma Escaping(data: string, i: nat, atEquals: bool)
    requires i + 1 < |data| && data[i] == '\\'
    requires i + 2 < |data| && IsBreak(data[i + 1]) ==> !IsBreak(data[i + 2])
    ensures Stop(data, i, atEquals) == Stop(data, i + 2, atEquals)
  {
  }

  lemma Stopping(data: string, i: nat, atEquals: bool)
    requires i <= |data| && (i == |data| || IsBreak(data[i]) || (atEquals && data[i] == '='))
    ensures Stop(data, i, atEquals) == i
  {
  }

  /** Over a text in the middle of a line: to its end, or to the dangling backslash there. */
  lemma {:induction false} Passed(data: string, a: nat, s: string, x: nat, atEquals: bool)
    requires x <= |s| && Stop(s, x, atEquals) == |s| && (s != [] ==> !IsBreak(s[|s| - 1]))
    requires a + |s| < |data| && Stands(data, a, s)
    ensures Dangles(s, x) ==>
      a + |s| > 0 && data[a + |s| - 1] == '\\' && Stop(data, a + x, atEquals) == Stop(data, a + |s| - 1, atEquals)
    ensures !Dangles(s, x) ==> Stop(data, a + x, atEquals) == Stop(data, a + |s|, atEquals)
    decreases |s| - x
  {
    if x < |s| {
      var t := data[a..a + |s|];
      assert data[a + x] == t[x] == s[x];
      assert x + 1 < |s| ==> data[a + x + 1] == t[x + 1] == s[x + 1];
      assert x + 2 < |s| ==> data[a + x + 2] == t[x + 2] == s[x + 2];
      if !(s[x] == '\\' && x + 1 == |s|) {
        assert Past(data, a + x) == a + Past(s, x);
        hide Past;
        Passed(data, a, s, Past(s, x), atEquals);
      }
    }
  }

  /** Over the key and its '=', which a dangling backslash hides. */
  lemma KeyPassed(data: string, i: nat, facts: seq<Fact>)
    requires Rest(data, i, facts) && facts != [] && facts[0].Has? && Readable(facts[0])
    ensures var k := facts[0].key;
      var a := i + |k| + 1;
      && a <= |data| && Stop(data, i, false) == Stop(data, a, false)
      && Stop(data, i, true) == if Dangles(k, 0) then Stop(data, a, true) else i + |k|
  {
    hide *;
    var k := facts[0].key;
    NextHas(data, i, facts);
    HasScans(facts[0]);
    BlankOrNot(data, i);
    Passed(data, i, k, 0, true);
    Passed(data, i, k, 0, false);
    if Dangles(k, 0) {
      Escaping(data, i + |k| - 1, false);
      Escaping(data, i + |k| - 1, true);
    } else {
      Stopping(data, i + |k|, true);
      Plainly(data, i + |k|, false);
    }
  }


  lemma {:induction false} ReadAnyway(s: string, i: nat)
    requires i <= |s| && Stop(s, i, true) == |s|
    ensures Stop(s, i, false) == |s|
    decreases |s| - i
  {
    if i < |s| {
      ReadAnyway(s, Past(s, i));
    }
  }

  /** Over a value to the break behind it, or, past that, into the next line. */
  lemma ValuePassed(data: string, i: nat, facts: seq<Fact>)
    requires Rest(data, i, facts) && facts != [] && facts[0].Has? && AllReadable(facts)
    ensures var Has(k, v) := facts[0];
      var end := i + |k| + 1 + |v|;
      && end < |data|
      && Stop(data, i, false) == if Dangles(v, 0) then Stop(data, end + 1, false) else end
  {
    hide *;
    var Has(k, v) := facts[0];
    var a := i + |k| + 1;
    FirstIsReadable(facts);
    HasScans(facts[0]);
    NextHas(data, i, facts);
    KeyPassed(data, i, facts);
    LineStarts(data, a + |v| + 1, facts[1..]);
    BlankOrNot(data, a + |v| + 1);
    Passed(data, a, v, 0, false);
    if Dangles(v, 0) {
      Escaping(data, a + |v| - 1, false);
    } else {
      Stopping(data, a + |v|, false);
    }
  }

  lemma BlankOrNot(data: string, i: nat)
    ensures i < |data| && !IsBlank(data[i]) ==> !IsBreak(data[i])
    ensures IsBreak('\n') && !IsBreak('=') && !IsBreak('[') && !IsBreak(']') && !IsBreak('\\')
  {
  }

  lemma NamePassed(data: string, i: nat, facts: seq<Fact>)
    requires Rest(data, i, facts) && facts != [] && facts[0].Opens? && Readable(facts[0])
    ensures var end := i + |facts[0].name| + 2; end < |data| && Stop(data, i, false) == end
  {
    hide *;
    var n := facts[0].name;
    NextOpens(data, i, facts);
    OpensScans(facts[0]);
    BlankOrNot(data, i);
    Plainly(data, i, false);
    Passed(data, i + 1, n, 0, false);
    if Dangles(n, 0) {
      Escaping(data, i + |n|, false);
    } else {
      Plainly(data, i + |n| + 1, false);
    }
    Stopping(data, i + |n| + 2, false);
  }

  /** Whether a line takes the next one with it. */
  predicate Swallows(f: Fact) {
    f.Has? && Dangles(f.value, 0)
  }

  /** The next line, with the break behind it. */
  lemma FirstLine(data: string, i: nat, facts: seq<Fact>)
    requires Rest(data, i, facts) && facts != [] && AllReadable(facts)
    ensures var end := i + |LineOf(facts[0])|;
      && end < |data| && data[end] == '\n' && Rest(data, end + 1, facts[1..])
      && Stop(data, i, false) == if Swallows(facts[0]) then Stop(data, end + 1, false) else end
  {
    hide *;
    FirstIsReadable(facts);
    LineLength(facts[0]);
    if facts[0].Opens? {
      NextOpens(data, i, facts);
      NamePassed(data, i, facts);
    } else {
      NextHas(data, i, facts);
      ValuePassed(data, i, facts);
    }
  }

  lemma LineLength(f: Fact)
    ensures |LineOf(f)| == if f.Opens? then |f.name| + 2 else |f.key| + 1 + |f.value|
    ensures Swallows(f) <==> f.Has? && Dangles(f.value, 0)
  {
  }

  lemma AtTheEnd(data: string, i: nat)
    requires Rest(data, i, [])
    ensures i == |data| && Stop(data, i, false) == i
  {
  }

  lemma AfterBreak(data: string, end: nat)
    requires end < |data| && data[end] == '\n'
    ensures AtLine(data, end, end + 1) && AtLine(data, |data|, |data|)
  {
  }

  /** Where the tokenizer stops: at the end of a printed line. */
  lemma {:induction false} EndsAtLine(data: string, i: nat, facts: seq<Fact>) returns (n: nat, j: nat)
    requires Rest(data, i, facts) && facts != [] && AllReadable(facts)
    ensures i < |data| && 1 <= n <= |facts| && Rest(data, j, facts[n..]) && AllReadable(facts[n..])
    ensures AtLine(data, Stop(data, i, false), j) && (Stop(data, i, false) == j ==> j == |data|)
    ensures n == 1 <==> !Swallows(facts[0]) || |facts| == 1
    ensures n == 1 ==> j == i + |LineOf(facts[0])| + 1
    ensures !Swallows(facts[0]) ==> Stop(data, i, false) == i + |LineOf(facts[0])|
    ensures Swallows(facts[0]) && |facts| == 1 ==> Stop(data, i, false) == j == |data|
    decreases |facts|
  {
    hide *;
    FirstIsReadable(facts);
    FirstLine(data, i, facts);
    n, j := 1, i + |LineOf(facts[0])| + 1;
    AfterBreak(data, j - 1);
    if |facts| == 1 {
      assert facts[1..] == [];
      AtTheEnd(data, j);
    } else if Swallows(facts[0]) {
      var m;
      m, j := EndsAtLine(data, j, facts[1..]);
      n := m + 1;
      assert facts[1..][m..] == facts[n..];
    }
  }

  // ---- Lines that start like a comment ----

  /** Scanning from `x` comes to `p`. */
  predicate Visits(data: string, x: nat, p: nat)
    requires x <= |data|
    decreases |data| - x
  {
    x == p || (x < p && x < |data| && Visits(data, Past(data, x), p))
  }

  lemma {:induction false} VisitsStop(data: string, x: nat, p: nat, atEquals: bool)
    requires x <= |data| && Visits(data, x, p) && p <= Stop(data, x, atEquals)
    ensures Stop(data, p, atEquals) == Stop(data, x, atEquals)
    decreases |data| - x
  {
    if x != p {
      VisitsStop(data, Past(data, x), p, atEquals);
    }
  }

  lemma {:induction false} VisitsFurther(data: string, x: nat, p: nat, q: nat)
    requires x <= |data| && p <= |data| && Visits(data, x, p) && Visits(data, p, q)
    ensures Visits(data, x, q)
    decreases |data| - x
  {
    if x != p && p != q {
      VisitsIsAhead(data, p, q);
      VisitsIsAhead(data, Past(data, x), p);
      VisitsFurther(data, Past(data, x), p, q);
    }
  }

  lemma {:induction false} VisitsIsAhead(data: string, x: nat, p: nat)
    requires x <= |data| && Visits(data, x, p)
    ensures x <= p
  {
  }

  /** A comment ends at an escaped break, behind which scanning would go on, or where scanning stops. */
  lemma {:induction false} CommentIsInside(data: string, y: nat) returns (z: nat)
    requires y <= |data|
    ensures y <= z <= Stop(data, y, false) && Visits(data, y, z)
    ensures SkipLines(data, CommentEnd(data, y)) == SkipLines(data, z)
    decreases |data| - y
  {
    z := y;
    if y < |data| && !IsBreak(data[y]) {
      if data[y] == '\\' && y + 1 < |data| && IsBreak(data[y + 1]) {
        z := Past(data, y);
        assert CommentEnd(data, y) == y + 1;
        assert SkipLines(data, y + 1) == SkipLines(data, y + 2);
      } else {
        z := CommentIsInside(data, Past(data, y));
        assert Past(data, y) == y + 2 ==> CommentEnd(data, y + 1) == CommentEnd(data, y + 2);
      }
    }
  }

  /** Behind a comment the line goes on where scanning would come to, or it is all used up. */
  lemma {:induction false} LineInComment(data: string, x: nat)
    requires x < |data| && data[x] == '#'
    ensures var p, end := SkipLines(data, x), Stop(data, x, false);
      p == SkipLines(data, end) || (x < p < end && Visits(data, x, p) && Stop(data, p, false) == end)
    decreases |data| - x
  {
    var z := CommentIsInside(data, x + 1);
    VisitsStop(data, x + 1, z, false);
    if z < Stop(data, x, false) {
      if data[z] == '#' {
        LineInComment(data, z);
        if Visits(data, z, SkipLines(data, z)) {
          VisitsFurther(data, x, z, SkipLines(data, z));
        }
      }
    }
  }

  // ---- What one printed line says ----

  function Weight(f: Fact): nat {
    match f
    case Opens(_) => 0
    case Has(k, v) => |k| + 2 * |v|
  }

  lemma LineThere(data: string, pos: nat, i: nat)
    requires AtLine(data, pos, i) && i < |data| && !IsBlank(data[i])
    ensures var p := SkipLines(data, i);
      LineFrom(data, pos) == Line(p, Stop(data, p, false), Equals(data, p)) && (data[i] != '#' ==> p == i)
  {
    assert SkipSpaces(data, i) == i;
  }

  lemma SameLines(data: string, pos: nat, i: nat, end: nat, j: nat)
    requires AtLine(data, pos, i) && i < |data| && !IsBlank(data[i])
    requires end <= |data| && SkipLines(data, i) == SkipLines(data, end)
    requires AtLine(data, end, j) && (end == j ==> j == |data|) && (j < |data| ==> !IsBlank(data[j]))
    ensures Trace(data, pos) == Trace(data, end)
  {
    hide Stop;
    LineThere(data, pos, i);
    if j < |data| {
      LineThere(data, end, j);
      assert SkipLines(data, end) == SkipLines(data, j);
    } else {
      assert SkipSpaces(data, j) == j && Begin(data, end) == j;
    }
    assert LineFrom(data, pos) == LineFrom(data, end);
    hide LineFrom;
  }

  lemma LineSays(data: string, pos: nat, line: Line)
    requires pos <= |data| && LineFrom(data, pos) == line && line.start < line.end
    ensures line.end <= |data| && (line.equals != -1 ==> line.start <= line.equals < line.end)
    ensures Trace(data, pos) == FactsOf(data, line) + Trace(data, line.end) && |FactsOf(data, line)| <= 1
  {
    LineHasItsEquals(data, pos);
  }

  lemma {:induction false} TrimmedLeftEnds(s: string)
    ensures TrimmedLeft(s) != [] ==> s != [] && TrimmedLeft(s)[|TrimmedLeft(s)| - 1] == s[|s| - 1]
  {
    if s != [] && IsBlank(s[0]) {
      TrimmedLeftEnds(s[1..]);
    }
  }

  lemma TrimmedIsShorter(s: string)
    ensures |Trimmed(s)| <= |s|
    ensures s != [] && IsBlank(s[|s| - 1]) ==> |Trimmed(s)| < |s|
  {
    TrimmedLeftEnds(s);
  }

  /** A value with a break behind it. */
  lemma TrimmedBreak(v: string)
    requires IsTrimmed(v) && v != []
    ensures Trimmed(v + "\n") == v
  {
    var s := v + "\n";
    assert s[0] == v[0] && TrimmedLeft(s) == s;
    assert s[|s| - 1] == '\n' && s[..|s| - 1] == v;
    assert TrimmedRight(s) == TrimmedRight(v);
  }

  /** What is read from `p` on with its '=' at `eq`, where `f` stands at `i`, weighs less the further on it starts. */
  lemma ReadWeighs(data: string, i: nat, facts: seq<Fact>, p: nat, eq: nat, end: nat)
    requires Rest(data, i, facts) && facts != [] && facts[0].Has?
    requires i <= p <= eq < end <= |data| && data[eq] == '=' && i + |facts[0].key| <= eq
    requires var last := i + |LineOf(facts[0])|; end == last || end == last + 1
    ensures var f := facts[0];
      Weight(Has(Trimmed(data[p..eq]), Trimmed(data[eq + 1..end])))
        <= Weight(f) - (p - i) - (eq - i - |f.key|)
  {
    NextHas(data, i, facts);
    hide Rest, Trimmed;
    var last := i + |LineOf(facts[0])|;
    var key, value := data[p..eq], data[eq + 1..end];
    assert data[last] == '\n' && eq < last;
    TrimmedIsShorter(key);
    TrimmedIsShorter(value);
    if end == last + 1 {
      assert value[|value| - 1] == data[last];
    }
  }

  lemma {:induction false} BracketIsThere(data: string, i: nat, end: nat)
    requires i <= end < |data| && data[end] == ']' && forall k :: i <= k < end ==> data[k] != ']'
    ensures Bracket(data, i) == end
    decreases end - i
  {
    if i < end {
      BracketIsThere(data, i + 1, end);
    }
  }

  /** A printed section name is read as that name. */
  lemma HeaderIsRead(data: string, pos: nat, i: nat, facts: seq<Fact>)
    requires AtLine(data, pos, i) && Rest(data, i, facts) && facts != [] && facts[0].Opens? && Readable(facts[0])
    ensures var line := LineFrom(data, pos);
      && line.start == i && line.end == i + |LineOf(facts[0])|
      && IsHeader(data, line) && NameIsClosed(data, line) && HeaderName(data, line) == facts[0].name
  {
    hide Stop, Rest, LineFrom, SkipLines, Bracket, Stands, Trimmed, Equals, AtLine, Readable, IsBlank, IsTrimmed;
    NameIsReadable(facts[0]);
    NextOpens(data, i, facts);
    NamePassed(data, i, facts);
    LineThere(data, pos, i);
    BracketAfter(data, i, facts[0].name);
  }

  lemma NameIsReadable(f: Fact)
    requires f.Opens? && Readable(f)
    ensures ']' !in f.name && Trimmed(f.name) == f.name && !IsBlank('[')
  {
  }

  lemma BracketAfter(data: string, i: nat, name: string)
    requires i < |data| && data[i] == '[' && Stands(data, i + 1, name) && ']' !in name
    requires i + 1 + |name| < |data| && data[i + 1 + |name|] == ']'
    ensures Bracket(data, i) == i + 1 + |name| && data[i + 1..i + 1 + |name|] == name
  {
    hide Bracket;
    forall k | i <= k < i + 1 + |name| ensures data[k] != ']' {
      assert k > i ==> data[k] == data[i + 1..i + 1 + |name|][k - i - 1] == name[k - i - 1];
    }
    BracketIsThere(data, i, i + 1 + |name|);
  }

  lemma KeyStarts(data: string, i: nat, facts: seq<Fact>)
    requires Rest(data, i, facts) && facts != [] && facts[0].Has?
    ensures i < |data| && data[i] == if facts[0].key == [] then '=' else facts[0].key[0]
  {
    NextHas(data, i, facts);
    var k := facts[0].key;
    assert k != [] ==> data[i..i + |k|][0] == k[0];
  }

  /** What the line of `f` says, if it says anything, weighs no more than `f`, and less unless it is `f`. */
  ghost predicate Says(said: seq<Fact>, f: Fact, last: bool) {
    && |said| <= 1
    && (said != [] ==> Weight(said[0]) <= Weight(f) && (Weight(said[0]) == Weight(f) ==> Clean(f, last)))
    && (Clean(f, last) ==> said == [f])
  }

  /** A key that starts like a section name opens a section, or another with that line's name. */
  lemma BracketKeySays(data: string, pos: nat, i: nat, facts: seq<Fact>)
    requires AtLine(data, pos, i) && Rest(data, i, facts) && facts != [] && facts[0].Has? && AllReadable(facts)
    requires i < Stop(data, i, false) && i < |data| && data[i] == '['
    ensures var line := LineFrom(data, pos);
      && line.start == i < line.end == Stop(data, i, false) <= |data|
      && (line.equals != -1 ==> line.start <= line.equals < line.end)
      && Says(FactsOf(data, line), facts[0], |facts| == 1)
  {
    KeyStarts(data, i, facts);
    LineThere(data, pos, i);
    LineHasItsEquals(data, pos);
    hide LineFrom, HeaderName, Rest, Stop;
  }

  /** Where the next line ends: with its own break, or, being the last, behind a break that it hides. */
  predicate EndsThere(data: string, i: nat, facts: seq<Fact>)
    requires i <= |data| && facts != []
  {
    var last := i + |LineOf(facts[0])|;
    Stop(data, i, false) == if Swallows(facts[0]) then last + 1 else last
  }

  /** Any other key is read as it is, or, if it dangles, as part of a longer one. */
  lemma OtherKeySays(data: string, pos: nat, i: nat, facts: seq<Fact>)
    requires AtLine(data, pos, i) && Rest(data, i, facts) && facts != [] && facts[0].Has? && AllReadable(facts)
    requires i < Stop(data, i, false) && i < |data| && data[i] != '[' && data[i] != '#'
    requires EndsThere(data, i, facts) && (Swallows(facts[0]) ==> |facts| == 1)
    ensures var line := LineFrom(data, pos);
      && line.start == i < line.end == Stop(data, i, false) <= |data|
      && (line.equals != -1 ==> line.start <= line.equals < line.end)
      && Says(FactsOf(data, line), facts[0], |facts| == 1)
  {
    hide Rest, AllReadable, LineFrom, SkipLines, Dangles, Trimmed, Stop, Equals, Readable, HeaderName, AtLine, IsBlank;
    FirstIsReadable(facts);
    KeyStarts(data, i, facts);
    LineStarts(data, i, facts);
    LineThere(data, pos, i);
    LineHasItsEquals(data, pos);
    if Dangles(facts[0].key, 0) {
      DanglingKeySays(data, i, facts);
    } else {
      PlainKeySays(data, i, facts);
    }
  }

  lemma DanglingKeySays(data: string, i: nat, facts: seq<Fact>)
    requires Rest(data, i, facts) && facts != [] && facts[0].Has? && AllReadable(facts) && Dangles(facts[0].key, 0)
    requires EndsThere(data, i, facts) && Stop(data, i, false) <= |data|
    ensures var eq := Equals(data, i);
      eq == -1 || (i <= eq < Stop(data, i, false)
                   && Weight(Has(Trimmed(data[i..eq]), Trimmed(data[eq + 1..Stop(data, i, false)]))) < Weight(facts[0]))
  {
    FirstIsReadable(facts);
    KeyPassed(data, i, facts);
    EqualsComesFirst(data, i);
    EqualsComesFirst(data, i + |facts[0].key| + 1);
    hide Rest, Readable, AllReadable, Dangles, Trimmed;
    var eq := Equals(data, i);
    if eq != -1 {
      ReadWeighs(data, i, facts, i, eq, Stop(data, i, false));
    }
  }

  lemma PlainKeySays(data: string, i: nat, facts: seq<Fact>)
    requires Rest(data, i, facts) && facts != [] && facts[0].Has? && AllReadable(facts) && !Dangles(facts[0].key, 0)
    requires EndsThere(data, i, facts) && Stop(data, i, false) <= |data|
    ensures var eq, f := Equals(data, i), facts[0];
      && eq == i + |f.key| < Stop(data, i, false)
      && Trimmed(data[i..eq]) == f.key && Trimmed(data[eq + 1..Stop(data, i, false)]) == f.value
  {
    hide Rest, AllReadable, Stop, Readable, Dangles, Trimmed, Text, IsTrimmed, IsBlank;
    FirstIsReadable(facts);
    KeyPassed(data, i, facts);
    NextHas(data, i, facts);
    HasIsTrimmed(facts[0]);
    var f, eq := facts[0], i + |facts[0].key|;
    if Swallows(f) {
      assert data[eq + 1..eq + 1 + |f.value| + 1] == f.value + "\n";
      TrimmedBreak(f.value);
    }
  }

  lemma HasIsTrimmed(f: Fact)
    requires f.Has? && Readable(f)
    ensures Trimmed(f.key) == f.key && Trimmed(f.value) == f.value && IsTrimmed(f.value)
    ensures Dangles(f.value, 0) ==> f.value != []
  {
  }

  /** Of a line that starts like a comment only what follows an escaped break can be read. */
  lemma HashKeySays(data: string, pos: nat, i: nat, facts: seq<Fact>, j: nat) returns (said: seq<Fact>)
    requires AtLine(data, pos, i) && Rest(data, i, facts) && facts != [] && facts[0].Has? && AllReadable(facts)
    requires i < |data| && data[i] == '#' && AtLine(data, Stop(data, i, false), j)
    requires (Stop(data, i, false) == j ==> j == |data|) && (j < |data| ==> !IsBlank(data[j]))
    ensures Trace(data, pos) == said + Trace(data, Stop(data, i, false)) && |said| <= 1
    ensures EndsThere(data, i, facts) && said != [] ==> Weight(said[0]) < Weight(facts[0])
  {
    hide Rest, AllReadable, LineFrom, SkipLines, Dangles, Trimmed, Stop, Readable, HeaderName, IsBlank, Trace;
    var end := Stop(data, i, false);
    FirstIsReadable(facts);
    KeyStarts(data, i, facts);
    LineStarts(data, i, facts);
    LineInComment(data, i);
    var p := SkipLines(data, i);
    if p == SkipLines(data, end) {
      SameLines(data, pos, i, end, j);
      said := [];
    } else {
      LineThere(data, pos, i);
      var line := LineFrom(data, pos);
      LineSays(data, pos, line);
      said := FactsOf(data, line);
      if EndsThere(data, i, facts) && line.equals != -1 {
        KeyComesFirst(data, i, facts, p);
        ReadWeighs(data, i, facts, p, line.equals, end);
      }
    }
  }

  /** No '=' is found in front of the one behind the key. */
  lemma KeyComesFirst(data: string, i: nat, facts: seq<Fact>, p: nat)
    requires Rest(data, i, facts) && facts != [] && facts[0].Has? && AllReadable(facts)
    requires i <= p <= |data| && Visits(data, i, p)
    ensures Equals(data, p) == -1 || i + |facts[0].key| <= Equals(data, p)
  {
    FirstIsReadable(facts);
    KeyPassed(data, i, facts);
    hide Rest, AllReadable, Readable, Dangles, Visits;
    if p <= Stop(data, i, true) {
      VisitsStop(data, i, p, true);
    }
  }

  lemma NotClean(f: Fact, last: bool)
    requires f.Has? && ((f.key != [] && (f.key[0] == '[' || f.key[0] == '#')) || (Swallows(f) && !last))
    ensures !Clean(f, last)
  {
  }

  /** One printed line, together with those that it swallows. */
  lemma OneLine(data: string, pos: nat, i: nat, facts: seq<Fact>) returns (n: nat, j: nat, said: seq<Fact>)
    requires AtLine(data, pos, i) && Rest(data, i, facts) && facts != [] && AllReadable(facts)
    ensures i < |data| && 1 <= n <= |facts| && Rest(data, j, facts[n..]) && AllReadable(facts[n..])
    ensures AtLine(data, Stop(data, i, false), j)
    ensures Trace(data, pos) == said + Trace(data, Stop(data, i, false)) && |said| <= 1
    ensures if n == 1 then Says(said, facts[0], |facts| == 1) else !Clean(facts[0], |facts| == 1)
  {
    hide Rest, AllReadable, LineFrom, Dangles, Stop, Readable, IsBlank, Trace, FactsOf, AtLine, HeaderName;
    n, j := EndsAtLine(data, i, facts);
    LineStarts(data, i, facts);
    LineStarts(data, j, facts[n..]);
    FirstIsReadable(facts);
    var f, end := facts[0], Stop(data, i, false);
    if f.Opens? {
      HeaderIsRead(data, pos, i, facts);
      LineSays(data, pos, LineFrom(data, pos));
      said := [f];
      HeaderSays(data, LineFrom(data, pos));
    } else {
      KeyStarts(data, i, facts);
      if data[i] == '#' {
        NotClean(f, |facts| == 1);
        said := HashKeySays(data, pos, i, facts, j);
      } else if data[i] == '[' {
        NotClean(f, |facts| == 1);
        BracketKeySays(data, pos, i, facts);
        LineSays(data, pos, LineFrom(data, pos));
        said := FactsOf(data, LineFrom(data, pos));
      } else if n == 1 {
        OtherKeySays(data, pos, i, facts);
        LineSays(data, pos, LineFrom(data, pos));
        said := FactsOf(data, LineFrom(data, pos));
      } else {
        NotClean(f, |facts| == 1);
        LineThere(data, pos, i);
        LineSays(data, pos, LineFrom(data, pos));
        said := FactsOf(data, LineFrom(data, pos));
      }
    }
  }

  lemma HeaderSays(data: string, line: Line)
    requires line.start < line.end <= |data| && (line.equals != -1 ==> line.start <= line.equals < line.end)
    requires IsHeader(data, line)
    ensures FactsOf(data, line) == [Opens(HeaderName(data, line))]
  {
  }

  // ---- What a printed text says ----

  function Total(facts: seq<Fact>): nat {
    Sum(facts, Weight)
  }

  lemma TotalOfOne(said: seq<Fact>, rest: seq<Fact>)
    requires |said| <= 1
    ensures Total(said + rest) == Total(rest) + if said == [] then 0 else Weight(said[0])
  {
    if said == [] {
      assert said + rest == rest;
    } else {
      assert (said + rest)[1..] == rest;
    }
  }

  lemma NothingIsSaid(data: string, pos: nat, i: nat)
    requires AtLine(data, pos, i) && Rest(data, i, [])
    ensures Trace(data, pos) == []
  {
    assert SkipSpaces(data, |data|) == |data|;
  }

  /**
   * A printed text has no more to say than was printed. If it says as many things it says no longer ones, and if they
   * are as long they are what was printed.
   */
  lemma {:induction false} TraceWeighs(data: string, pos: nat, i: nat, facts: seq<Fact>)
    requires AtLine(data, pos, i) && Rest(data, i, facts) && AllReadable(facts)
    ensures |Trace(data, pos)| <= |facts|
    ensures |Trace(data, pos)| == |facts| ==>
      Total(Trace(data, pos)) <= Total(facts) && (Total(Trace(data, pos)) == Total(facts) ==> AllClean(facts))
    ensures AllClean(facts) ==> Trace(data, pos) == facts
    decreases |facts|
  {
    hide Rest, AllReadable, Stop, Readable, Trace, AtLine, Clean, Total;
    if facts == [] {
      NothingIsSaid(data, pos, i);
    } else {
      var n, j, said := OneLine(data, pos, i, facts);
      var next := Stop(data, i, false);
      TraceWeighs(data, next, j, facts[n..]);
      TotalOfOne(said, Trace(data, next));
      assert facts == [facts[0]] + facts[1..];
      TotalOfOne([facts[0]], facts[1..]);
    }
  }
}
