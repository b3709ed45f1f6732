/**
 * Escaping of desktop entry values: replacing character after character in whatever order a hash lists them, undoing
 * it in place, and values that are lists.
 */
module DesktopEscape {
  import opened Basics

  type Table = map<char, char>

  // ---- Escaping ----

  function Replaced(s: string, c: char, text: string): string {
    if s == [] then [] else (if s[0] == c then text else [s[0]]) + Replaced(s[1..], c, text)
  }

  /** What becomes of one character, once the characters in `done` are replaced. */
  function EscapedChar(c: char, done: set<char>, table: Table): string
    requires done <= table.Keys
  {
    if c == '\\' then "\\\\" else if c in done then "\\\\" + [table[c]] else [c]
  }

  function EscapedBy(s: string, done: set<char>, table: Table): string
    requires done <= table.Keys
  {
    if s == [] then [] else EscapedChar(s[0], done, table) + EscapedBy(s[1..], done, table)
  }

  function Escaped(s: string, table: Table): string {
    EscapedBy(s, table.Keys, table)
  }

  /** No character is replaced by one that is to be replaced itself, unless by itself. */
  predicate IsSettled(table: Table) {
    forall j, k :: j in table && k in table && j != '\\' && k != '\\' && table[j] == k ==> j == k
  }

  lemma {:induction false} ReplacedJoins(s: string, t: string, c: char, text: string)
    ensures Replaced(s + t, c, text) == Replaced(s, c, text) + Replaced(t, c, text)
  {
    if s == [] {
      assert s + t == t;
    } else {
      assert (s + t)[0] == s[0] && (s + t)[1..] == s[1..] + t;
      ReplacedJoins(s[1..], t, c, text);
    }
  }

  lemma {:induction false} OneMoreReplaced(s: string, done: set<char>, table: Table, c: char)
    requires done <= table.Keys && c in table && c !in done && c != '\\' && IsSettled(table)
    ensures Replaced(EscapedBy(s, done, table), c, "\\\\" + [table[c]]) == EscapedBy(s, done + {c}, table)
  {
    if s != [] {
      var first, text := EscapedChar(s[0], done, table), "\\\\" + [table[c]];
      OneMoreReplaced(s[1..], done, table, c);
      ReplacedJoins(first, EscapedBy(s[1..], done, table), c, text);
      OneCharReplaced(s[0], done, table, c);
    }
  }

  lemma OneCharReplaced(d: char, done: set<char>, table: Table, c: char)
    requires done <= table.Keys && c in table && c !in done && c != '\\' && IsSettled(table)
    ensures Replaced(EscapedChar(d, done, table), c, "\\\\" + [table[c]]) == EscapedChar(d, done + {c}, table)
  {
    var first, text := EscapedChar(d, done, table), "\\\\" + [table[c]];
    if d == '\\' {
      ReplacedJoins("\\", "\\", c, text);
      assert "\\" + "\\" == first;
    } else if d in done {
      var rest := [table[d]];
      assert first == ("\\" + "\\") + rest;
      ReplacedJoins("\\" + "\\", rest, c, text);
      ReplacedJoins("\\", "\\", c, text);
    }
  }

  lemma {:induction false} SlashesFirst(s: string, table: Table)
    ensures Replaced(s, '\\', "\\\\") == EscapedBy(s, {}, table)
  {
    if s != [] {
      SlashesFirst(s[1..], table);
    }
  }

  /** `doEscape`: one replacement after another, in the order in which the hash lists its keys. */
  method DoEscape(str: string, table: Table, order: seq<char>) returns (r: string)
    requires forall c :: c in order <==> c in table
    requires forall i, j :: 0 <= i < j < |order| ==> order[i] != order[j]
    ensures IsSettled(table) ==> r == Escaped(str, table)
  {
    r := Replaced(str, '\\', "\\\\");
    SlashesFirst(str, table);
    ghost var done: set<char> := {};
    for i := 0 to |order|
      invariant forall c :: c in done <==> c in order[..i] && c != '\\'
      invariant IsSettled(table) ==> r == EscapedBy(str, done, table)
    {
      var c := order[i];
      assert c in table;
      if c != '\\' {
        if IsSettled(table) {
          OneMoreReplaced(str, done, table, c);
        }
        r := Replaced(r, c, "\\\\" + [table[c]]);
        done := done + {c};
      }
    }
    assert order[..|order|] == order;
    SlashIsNotInTable(str, done, table);
  }

  lemma {:induction false} SlashIsNotInTable(s: string, done: set<char>, table: Table)
    requires done <= table.Keys && forall c :: c in table && c != '\\' ==> c in done
    ensures EscapedBy(s, done, table) == Escaped(s, table)
  {
    if s != [] {
      SlashIsNotInTable(s[1..], done, table);
    }
  }

  const ESCAPES: Table := map['\n' := 'n', '\t' := 't', '\r' := 'r']
  const EXEC_ESCAPES: Table := map['"' := '"', '\'' := '\'', '\\' := '\\', '$' := '$']

  lemma BothTablesAreSettled()
    ensures IsSettled(ESCAPES) && IsSettled(EXEC_ESCAPES)
  {
  }

  // ---- Undoing it ----

  function Unescapes(semicolons: bool): Table {
    var table := map['\\' := '\\', 's' := ' ', 'n' := '\n', 't' := '\t', 'r' := '\r'];
    if semicolons then table[';' := ';'] else table
  }

  /** From left to right: what follows a backslash counts once, and a backslash before anything else stays. */
  function Unescaped(s: string, table: Table): string {
    if |s| < 2 then s
    else if s[0] == '\\' && s[1] in table then [table[s[1]]] + Unescaped(s[2..], table)
    else [s[0]] + Unescaped(s[1..], table)
  }

  lemma {:induction false} UnescapedOverPlain(s: string, n: nat, table: Table)
    requires n <= |s| && forall k :: 0 <= k < n ==> s[k] != '\\'
    ensures Unescaped(s, table) == s[..n] + Unescaped(s[n..], table)
  {
    hide Unescaped;
    if n == 0 {
      assert s[..0] + Unescaped(s[0..], table) == Unescaped(s, table) by {
        assert s[0..] == s;
      }
    } else {
      assert s == [s[0]] + s[1..];
      PlainStays(s[0], s[1..], table);
      UnescapedOverPlain(s[1..], n - 1, table);
      assert s[1..][n - 1..] == s[n..];
      assert s[..n] == [s[0]] + s[1..][..n - 1];
      Regrouped([s[0]], s[1..][..n - 1], Unescaped(s[n..], table));
    }
  }

  /** `indexOf` of a backslash, or the length if there is none. */
  method FindSlash(s: string, from: nat) returns (n: nat)
    requires from <= |s|
    ensures from <= n <= |s| && (n < |s| ==> s[n] == '\\')
    ensures forall k :: from <= k < n ==> s[k] != '\\'
  {
    n := from;
    while n < |s| && s[n] != '\\'
      invariant from <= n <= |s|
      invariant forall k :: from <= k < n ==> s[k] != '\\'
    {
      n := n + 1;
    }
  }

  /** Unescaping `s` has come as far as `n`; the rest of `str` is as it was. */
  ghost predicate UpTo(s: string, str: string, n: nat, table: Table) {
    n <= |str| && Unescaped(s, table) == str[..n] + Unescaped(str[n..], table)
  }

  lemma UpToNextSlash(s: string, str: string, n: nat, at: nat, table: Table)
    requires UpTo(s, str, n, table) && n <= at <= |str| && forall k :: n <= k < at ==> str[k] != '\\'
    ensures UpTo(s, str, at, table)
  {
    hide Unescaped;
    UnescapedOverPlain(str[n..], at - n, table);
    assert str[n..][at - n..] == str[at..];
    assert str[..n] + str[n..][..at - n] == str[..at];
    Regrouped(str[..n], str[n..][..at - n], Unescaped(str[at..], table));
  }

  lemma UpToPair(s: string, str: string, at: nat, table: Table)
    requires UpTo(s, str, at, table) && at + 1 < |str| && str[at] == '\\' && str[at + 1] in table
    ensures UpTo(s, str[..at] + [table[str[at + 1]]] + str[at + 2..], at + 1, table)
  {
    var c, rest := table[str[at + 1]], str[at + 2..];
    var next := str[..at] + [c] + rest;
    assert str[at..][2..] == rest;
    assert Unescaped(str[at..], table) == [c] + Unescaped(rest, table);
    hide Unescaped;
    assert next[..at + 1] == str[..at] + [c] && next[at + 1..] == rest;
    Regrouped(str[..at], [c], Unescaped(rest, table));
  }

  lemma UpToSlash(s: string, str: string, at: nat, table: Table)
    requires UpTo(s, str, at, table) && at + 1 < |str| && str[at + 1] !in table
    ensures UpTo(s, str, at + 1, table)
  {
    assert str[at..][1..] == str[at + 1..];
    assert Unescaped(str[at..], table) == [str[at]] + Unescaped(str[at + 1..], table);
    hide Unescaped;
    assert str[..at + 1] == str[..at] + [str[at]];
    Regrouped(str[..at], [str[at]], Unescaped(str[at + 1..], table));
  }

  /** `doUnescape`: in place, each time from the next backslash on. */
  method DoUnescape(s: string, table: Table) returns (str: string)
    ensures str == Unescaped(s, table)
  {
    hide UpTo;
    str := s;
    var n: nat := 0;
    assert UpTo(s, str, 0, table) by {
      StartsAtZero(s, table);
    }
    while true
      invariant n <= |str| && UpTo(s, str, n, table)
      decreases |str| - n
    {
      var at := FindSlash(str, n);
      UpToNextSlash(s, str, n, at, table);
      n := at;
      if n + 2 > |str| {
        UpToEnd(s, str, n, table);
        break;
      }
      if str[n + 1] in table {
        UpToPair(s, str, n, table);
        str := str[..n] + [table[str[n + 1]]] + str[n + 2..];
      } else {
        UpToSlash(s, str, n, table);
      }
      n := n + 1;
    }
  }

  lemma StartsAtZero(s: string, table: Table)
    ensures UpTo(s, s, 0, table)
  {
  }

  lemma UpToEnd(s: string, str: string, n: nat, table: Table)
    requires UpTo(s, str, n, table) && |str| < n + 2
    ensures str == Unescaped(s, table)
  {
    assert str == str[..n] + str[n..];
  }

  /** What escaping and unescaping leaves: what was replaced comes back as a backslash and its replacement. */
  function ThereAndBack(s: string, table: Table): string {
    if s == [] then []
    else (if s[0] in table && s[0] != '\\' then "\\" + [table[s[0]]] else [s[0]]) + ThereAndBack(s[1..], table)
  }

  lemma {:induction false} UnescapeAfterEscape(s: string, table: Table, semicolons: bool)
    requires forall c :: c in table && c != '\\' ==> table[c] != '\\'
    ensures Unescaped(Escaped(s, table), Unescapes(semicolons)) == ThereAndBack(s, table)
  {
    if s != [] {
      UnescapeAfterEscape(s[1..], table, semicolons);
      CharThereAndBack(s[0], Escaped(s[1..], table), table, semicolons);
    }
  }

  lemma CharThereAndBack(c: char, rest: string, table: Table, semicolons: bool)
    requires c in table && c != '\\' ==> table[c] != '\\'
    ensures Unescaped(EscapedChar(c, table.Keys, table) + rest, Unescapes(semicolons))
         == (if c in table && c != '\\' then "\\" + [table[c]] else [c]) + Unescaped(rest, Unescapes(semicolons))
  {
    var first, back := EscapedChar(c, table.Keys, table), Unescapes(semicolons);
    if c == '\\' {
      assert (first + rest)[2..] == rest;
    } else if c in table {
      var letter := [table[c]];
      assert first + rest == "\\\\" + (letter + rest);
      assert (first + rest)[2..] == letter + rest;
      PlainStays(table[c], rest, back);
      hide Unescaped;
      Regrouped("\\", letter, Unescaped(rest, back));
    } else {
      PlainStays(c, rest, back);
    }
  }

  lemma PlainStays(c: char, rest: string, table: Table)
    requires c != '\\'
    ensures Unescaped([c] + rest, table) == [c] + Unescaped(rest, table)
  {
    assert ([c] + rest)[1..] == rest;
    if rest == [] {
      assert [c] + rest == [c];
    }
  }

  lemma {:induction false} BackOnlyWithoutBreaks(s: string)
    ensures |s| <= |ThereAndBack(s, ESCAPES)|
    ensures ThereAndBack(s, ESCAPES) == s <==> forall c :: c in s ==> c !in ESCAPES
    ensures (exists c :: c in s && c in ESCAPES) ==> |s| < |ThereAndBack(s, ESCAPES)|
  {
    if s != [] {
      BackOnlyWithoutBreaks(s[1..]);
      assert s == [s[0]] + s[1..];
      assert s[0] in s;
    }
  }

  /** `unescape` undoes `escape` exactly on strings without line feeds, tabs and carriage returns. */
  lemma EscapeRoundTripIff(s: string, semicolons: bool)
    ensures Unescaped(Escaped(s, ESCAPES), Unescapes(semicolons)) == s
       <==> forall c :: c in s ==> c != '\n' && c != '\t' && c != '\r'
  {
    UnescapeAfterEscape(s, ESCAPES, semicolons);
    BackOnlyWithoutBreaks(s);
  }

  /** A line feed comes back as a backslash and an `n`. */
  lemma LineFeedIsLost(semicolons: bool)
    ensures Unescaped(Escaped("\n", ESCAPES), Unescapes(semicolons)) != "\n"
  {
    EscapeRoundTripIff("\n", semicolons);
    assert "\n"[0] in "\n";
  }

  // ---- Arguments of a command line ----

  /** What may not stand for itself in an argument, and what it is turned into: spaces, tabs and breaks are marked. */
  function Reserved(): Table {
    map[' ' := '\U{01}', '\t' := '\U{02}', '\n' := '\U{03}',
        '"' := '"', '\'' := '\'', '\\' := '\\', '>' := '>', '<' := '<', '~' := '~', '|' := '|', '&' := '&',
        ';' := ';', '$' := '$', '*' := '*', '?' := '?', '#' := '#', '(' := '(', ')' := ')', '`' := '`']
  }

  /** `unescapeExec`. */
  function UnescapedExec(s: string): string {
    Unescaped(Unescaped(s, Unescapes(false)), Reserved())
  }

  /** The characters that the standard calls reserved. */
  predicate IsReserved(c: char) {
    c in " \t\n\"'\\><~|&;$*?#()`"
  }

  predicate IsQuote(c: char) {
    c in {'"', '\'', '$'}
  }

  /** No backslash stands before a reserved character, unless that is one which `escapeExec` escapes by itself. */
  predicate IsExecSafe(s: string) {
    forall i :: 0 <= i < |s| - 1 && s[i] == '\\' ==> !IsReserved(s[i + 1]) || IsQuote(s[i + 1])
  }

  lemma QuotesAreReserved(c: char)
    requires IsQuote(c) || c == '\\'
    ensures c in Reserved() && Reserved()[c] == c
  {
  }

  lemma ReservedIsThat(c: char)
    ensures c in Reserved() <==> IsReserved(c)
  {
    assert " \t\n\"'\\><~|&;$*?#()`"
        == [' ', '\t', '\n', '"', '\'', '\\', '>', '<', '~', '|', '&', ';', '$', '*', '?', '#', '(', ')', '`'];
  }

  /** An argument with a backslash before each reserved character. */
  function Guarded(s: string): string {
    if s == [] then [] else (if IsReserved(s[0]) then "\\" + [s[0]] else [s[0]]) + Guarded(s[1..])
  }

  function Mark(c: char): char {
    if c == ' ' then '\U{01}' else if c == '\t' then '\U{02}' else if c == '\n' then '\U{03}' else c
  }

  function Marked(s: string): string {
    if s == [] then [] else [Mark(s[0])] + Marked(s[1..])
  }

  /** It is read without them, and with its blanks marked, so that splitting at blanks keeps it in one piece. */
  lemma {:induction false} GuardedIsRead(s: string)
    ensures Unescaped(Guarded(s), Reserved()) == Marked(s)
  {
    if s != [] {
      var c, rest := s[0], Guarded(s[1..]);
      GuardedIsRead(s[1..]);
      ReservedIsThat(c);
      ReservedIsMarked(c);
      hide Unescaped, Reserved, IsReserved, Mark;
      if IsReserved(c) {
        assert Guarded(s) == "\\" + ([c] + rest);
        PairIsRead(c, rest, Reserved());
      } else {
        PlainStays(c, rest, Reserved());
      }
    }
  }

  lemma ReservedIsMarked(c: char)
    ensures if c in Reserved() then Mark(c) == Reserved()[c] else Mark(c) == c && c != '\\'
  {
  }

  lemma PairIsRead(c: char, rest: string, table: Table)
    requires c in table
    ensures Unescaped("\\" + ([c] + rest), table) == [table[c]] + Unescaped(rest, table)
  {
    assert ("\\" + ([c] + rest))[2..] == rest;
  }

  lemma SlashStays(c: char, rest: string, table: Table)
    requires c !in table
    ensures Unescaped("\\" + ([c] + rest), table) == "\\" + Unescaped([c] + rest, table)
  {
    assert ("\\" + ([c] + rest))[1..] == [c] + rest;
  }

  lemma BackBegins(s: string)
    requires s != []
    ensures ThereAndBack(s, EXEC_ESCAPES)
         == if IsQuote(s[0]) then "\\" + ([s[0]] + ThereAndBack(s[1..], EXEC_ESCAPES))
            else [s[0]] + ThereAndBack(s[1..], EXEC_ESCAPES)
  {
  }

  lemma {:induction false} QuotesComeBack(s: string)
    ensures ComesBack(s)
    decreases |s|, 1
  {
    if s != [] {
      QuotesComeBack(s[1..]);
      if s[0] != '\\' {
        OtherComesBack(s);
      } else if |s| > 1 {
        SlashComesBack(s);
      } else {
        LoneSlash();
      }
    }
  }

  predicate ComesBack(s: string) {
    var back := Unescaped(ThereAndBack(s, EXEC_ESCAPES), Reserved());
    |back| <= |s| && if IsExecSafe(s) then back == s else |back| < |s|
  }

  lemma OtherComesBack(s: string)
    requires s != [] && s[0] != '\\' && ComesBack(s[1..])
    ensures ComesBack(s)
  {
    SafeAfter(s);
    BackBegins(s);
    var c, kept := s[0], ThereAndBack(s[1..], EXEC_ESCAPES);
    hide Unescaped, ThereAndBack, IsExecSafe, Reserved, IsReserved;
    assert s == [c] + s[1..];
    if IsQuote(c) {
      QuotesAreReserved(c);
      PairIsRead(c, kept, Reserved());
    } else {
      PlainStays(c, kept, Reserved());
    }
  }

  lemma LoneSlash()
    ensures Unescaped(ThereAndBack("\\", EXEC_ESCAPES), Reserved()) == "\\" && IsExecSafe("\\")
  {
    assert ThereAndBack("\\", EXEC_ESCAPES) == "\\" + ThereAndBack([], EXEC_ESCAPES);
  }

  lemma SafeAfter(s: string)
    requires s != []
    ensures IsExecSafe(s)
            <==> IsExecSafe(s[1..]) && (|s| > 1 && s[0] == '\\' ==> !IsReserved(s[1]) || IsQuote(s[1]))
  {
    assert forall i :: 0 <= i < |s| - 1 ==> s[1..][i] == s[i + 1];
    if IsExecSafe(s[1..]) {
      assert forall i :: 1 <= i < |s| - 1 && s[i] == '\\' ==> s[1..][i - 1] == '\\';
    }
  }

  lemma SlashComesBack(s: string)
    requires |s| > 1 && s[0] == '\\'
    ensures ComesBack(s)
    decreases |s|, 0
  {
    QuotesComeBack(s[1..]);
    QuotesComeBack(s[2..]);
    assert s[1..][1..] == s[2..];
    if IsQuote(s[1]) {
      QuoteAfterSlash(s);
    } else {
      OtherAfterSlash(s);
    }
  }

  lemma QuoteAfterSlash(s: string)
    requires |s| > 1 && s[0] == '\\' && IsQuote(s[1]) && ComesBack(s[1..]) && ComesBack(s[1..][1..])
    ensures ComesBack(s)
  {
    SafeAfter(s);
    BackBegins(s);
    BackBegins(s[1..]);
    QuotesAreReserved('\\');
    QuotesAreReserved(s[1]);
    var d, more := s[1], ThereAndBack(s[1..][1..], EXEC_ESCAPES);
    hide Unescaped, ThereAndBack, IsExecSafe, Reserved, IsReserved;
    var kept := [d] + more;
    assert s == "\\" + s[1..];
    assert "\\" + ("\\" + kept) == "\\" + (['\\'] + kept);
    PairIsRead('\\', kept, Reserved());
    PlainStays(d, more, Reserved());
    PairIsRead(d, more, Reserved());
  }

  lemma OtherAfterSlash(s: string)
    requires |s| > 1 && s[0] == '\\' && !IsQuote(s[1]) && ComesBack(s[1..]) && ComesBack(s[1..][1..])
    ensures ComesBack(s)
  {
    SafeAfter(s);
    BackBegins(s);
    BackBegins(s[1..]);
    ReservedIsThat(s[1]);
    var d, more := s[1], ThereAndBack(s[1..][1..], EXEC_ESCAPES);
    hide Unescaped, ThereAndBack, IsExecSafe, Reserved, IsReserved;
    assert s == "\\" + s[1..];
    if d in Reserved() {
      PairIsRead(d, more, Reserved());
    } else {
      SlashStays(d, more, Reserved());
    }
  }

  /** `unescapeExec` undoes `escapeExec` exactly on such strings. */
  lemma ExecRoundTripIff(s: string)
    ensures UnescapedExec(Escaped(s, EXEC_ESCAPES)) == s <==> IsExecSafe(s)
  {
    UnescapeAfterEscape(s, EXEC_ESCAPES, false);
    QuotesComeBack(s);
  }

  /** Two backslashes come back as one. */
  lemma SecondSlashIsLost()
    ensures UnescapedExec(Escaped("\\\\", EXEC_ESCAPES)) != "\\\\"
  {
    var s := "\\\\";
    ExecRoundTripIff(s);
    assert s[0] == '\\' && IsReserved(s[1]);
  }

  // ---- The standard's way of writing ----

  /** The letters of section 4 of the Desktop Entry Specification. */
  const STANDARD: Table := map[' ' := 's', '\n' := 'n', '\t' := 't', '\r' := 'r', '\\' := '\\']

  /** What a writer writes as a backslash and a letter; a space, say, may as well stand for itself. */
  type Letters = l: set<char> | '\\' in l && l <= STANDARD.Keys witness {'\\'}

  function WrittenChar(c: char, letters: Letters, semicolons: bool): string {
    if c in letters then "\\" + [STANDARD[c]]
    else if c == ';' && semicolons then "\\;"
    else [c]
  }

  function Written(s: string, letters: Letters, semicolons: bool): string {
    if s == [] then [] else WrittenChar(s[0], letters, semicolons) + Written(s[1..], letters, semicolons)
  }

  /** Whatever is written by the standard is read back as it was, be it an item of a list or a text of its own. */
  lemma {:induction false} WrittenIsRead(s: string, letters: Letters, semicolons: bool)
    ensures Unescaped(Written(s, letters, semicolons), Unescapes(semicolons)) == s
  {
    if s != [] {
      WrittenIsRead(s[1..], letters, semicolons);
      var first, rest := WrittenChar(s[0], letters, semicolons), Written(s[1..], letters, semicolons);
      if |first| == 2 {
        assert (first + rest)[2..] == rest;
      } else {
        PlainStays(s[0], rest, Unescapes(semicolons));
      }
    }
  }

  /** `escape` writes breaks, tabs and backslashes by the standard, but for a second backslash before a letter. */
  function WithDoubles(s: string): string {
    if s == [] then []
    else (if s[0] in {'\n', '\t', '\r'} then "\\" else [])
         + WrittenChar(s[0], {'\n', '\t', '\r', '\\'}, false) + WithDoubles(s[1..])
  }

  lemma {:induction false} EscapeDoubles(s: string)
    ensures Escaped(s, ESCAPES) == WithDoubles(s)
  {
    if s != [] {
      EscapeDoubles(s[1..]);
      CharDoubles(s[0]);
      hide EscapedChar, WrittenChar;
    }
  }

  lemma CharDoubles(c: char)
    ensures EscapedChar(c, ESCAPES.Keys, ESCAPES)
         == (if c in {'\n', '\t', '\r'} then "\\" else [])
            + WrittenChar(c, {'\n', '\t', '\r', '\\'}, false)
  {
  }

  // ---- Lists ----

  predicate EndsInSlash(s: string) {
    s != [] && s[|s| - 1] == '\\'
  }

  /** `split(';')`. */
  function Split(s: string, piece: string): seq<string> {
    if s == [] then [piece]
    else if s[0] == ';' then [piece] + Split(s[1..], [])
    else Split(s[1..], piece + [s[0]])
  }

  /** The pieces put together again where a semicolon was escaped: `combine` holds what is still open. */
  function Combined(pieces: seq<string>, combine: string): seq<string> {
    if pieces == [] then []
    else if EndsInSlash(pieces[0]) then Combined(pieces[1..], combine + pieces[0] + ";")
    else [combine + pieces[0]] + Combined(pieces[1..], [])
  }

  function UnescapedAll(strings: seq<string>): seq<string> {
    if strings == [] then [] else [Unescaped(strings[0], Unescapes(true))] + UnescapedAll(strings[1..])
  }

  function WithoutLast(value: string): string {
    if value != [] && value[|value| - 1] == ';' then value[..|value| - 1] else value
  }

  function ListOf(value: string): seq<string> {
    UnescapedAll(Combined(Split(WithoutLast(value), []), []))
  }

  /** `stringListValue`, on the raw value. */
  method StringList(raw: string) returns (result: seq<string>)
    ensures result == ListOf(raw)
  {
    hide Combined, UnescapedAll, Unescaped, EndsInSlash, Split, Unescapes;
    var value := raw;
    if value != [] && value[|value| - 1] == ';' {
      value := value[..|value| - 1];
    }
    var strings := Split(value, []);
    var combine: string := [];
    result := [];
    var i := 0;
    assert strings[0..] == strings;
    while i < |strings|
      invariant 0 <= i <= |strings|
      invariant ListOf(raw) == result + UnescapedAll(Combined(strings[i..], combine))
    {
      var oneStr := strings[i];
      CombinedNext(strings, i, combine);
      i := i + 1;
      if EndsInSlash(oneStr) {
        combine := combine + oneStr + ";";
        continue;
      }
      ghost var whole := combine + oneStr;
      if combine != [] {
        oneStr := combine + oneStr;
        combine := [];
      }
      assert oneStr == whole;
      var unescaped := DoUnescape(oneStr, Unescapes(true));
      Regrouped(result, [unescaped], UnescapedAll(Combined(strings[i..], [])));
      result := result + [unescaped];
    }
    NothingCombined(strings[i..], combine);
  }

  lemma CombinedNext(strings: seq<string>, i: nat, combine: string)
    requires i < |strings|
    ensures UnescapedAll(Combined(strings[i..], combine))
         == if EndsInSlash(strings[i]) then UnescapedAll(Combined(strings[i + 1..], combine + strings[i] + ";"))
            else [Unescaped(combine + strings[i], Unescapes(true))] + UnescapedAll(Combined(strings[i + 1..], []))
  {
    hide EndsInSlash, Unescaped, Unescapes;
    assert strings[i..][0] == strings[i] && strings[i..][1..] == strings[i + 1..];
    if !EndsInSlash(strings[i]) {
      var rest := Combined(strings[i + 1..], []);
      assert ([combine + strings[i]] + rest)[1..] == rest;
    }
  }

  lemma NothingCombined(strings: seq<string>, combine: string)
    requires strings == []
    ensures UnescapedAll(Combined(strings, combine)) == []
  {
  }

  // ---- Lists as the specification writes them ----

  function Encoded(item: string, letters: Letters): string {
    Written(item, letters, true)
  }

  /** Every item with its backslashes and semicolons escaped, and ended by a semicolon. */
  function EncodedList(items: seq<string>, letters: Letters): string {
    if items == [] then [] else Encoded(items[0], letters) + ";" + EncodedList(items[1..], letters)
  }

  lemma {:induction false} EncodedEndsInSlash(item: string, letters: Letters)
    ensures EndsInSlash(Encoded(item, letters)) <==> EndsInSlash(item)
    ensures Encoded(item, letters) == [] <==> item == []
  {
    if item != [] {
      EncodedEndsInSlash(item[1..], letters);
    }
  }

  // ---- And reads them ----

  /** The items in `text`: `open` is what precedes on the same item, `piece` the part of it since the last semicolon. */
  function Items(text: string, piece: string, open: string): seq<string> {
    Combined(Split(text, piece), open)
  }

  lemma ItemsAtPlain(c: char, text: string, piece: string, open: string)
    requires c != ';'
    ensures Items([c] + text, piece, open) == Items(text, piece + [c], open)
  {
    assert ([c] + text)[1..] == text;
  }

  lemma ItemsAtSemicolon(text: string, piece: string, open: string)
    ensures Items(";" + text, piece, open)
         == if EndsInSlash(piece) then Items(text, [], open + piece + ";") else [open + piece] + Items(text, [], [])
  {
    assert (";" + text)[1..] == text;
    assert Split(";" + text, piece)[1..] == Split(text, []);
  }

  lemma ItemsAtEnd(piece: string, open: string)
    ensures Items([], piece, open) == if EndsInSlash(piece) then [] else [open + piece]
  {
    assert Split([], piece) == [piece] && [piece][1..] == [];
    assert Combined([], []) == [] && Combined([], open + piece + ";") == [];
  }

  /** An encoded item is passed over as one; only its own end can be taken for an escape of what follows. */
  lemma {:induction false} ItemIsPassed(item: string, rest: string, piece: string, open: string, letters: Letters)
    returns (newPiece: string, newOpen: string)
    ensures Items(Encoded(item, letters) + rest, piece, open) == Items(rest, newPiece, newOpen)
    ensures newOpen + newPiece == open + piece + Encoded(item, letters)
    ensures EndsInSlash(newPiece) <==> EndsInSlash(piece + Encoded(item, letters))
    decreases |item|
  {
    hide Items, EndsInSlash;
    if item == [] {
      newPiece, newOpen := piece, open;
      assert Encoded(item, letters) + rest == rest;
      assert piece + Encoded(item, letters) == piece && open + piece + Encoded(item, letters) == open + piece;
    } else {
      var first, tail := WrittenChar(item[0], letters, true), Encoded(item[1..], letters);
      FirstIsPassed(item[0], tail + rest, piece, open, letters);
      assert Encoded(item, letters) == first + tail;
      hide Encoded;
      Regrouped(first, tail, rest);
      Regrouped(piece, first, tail);
      if item[0] == ';' {
        newPiece, newOpen := ItemIsPassed(item[1..], rest, [], open + piece + first, letters);
        assert open + piece + first + [] == open + piece + first && [] + tail == tail;
        Regrouped(open + piece, first, tail);
        SlashAtEnd(piece, tail);
      } else {
        newPiece, newOpen := ItemIsPassed(item[1..], rest, piece + first, open, letters);
        Regrouped(open, piece, first);
        Regrouped(open + piece, first, tail);
      }
    }
  }

  lemma SlashAtEnd(piece: string, tail: string)
    ensures EndsInSlash(piece + "\\;" + tail) <==> EndsInSlash(tail)
  {
    var all := piece + "\\;" + tail;
    assert all[|all| - 1] == if tail == [] then ';' else tail[|tail| - 1];
  }

  lemma FirstIsPassed(c: char, rest: string, piece: string, open: string, letters: Letters)
    ensures Items(WrittenChar(c, letters, true) + rest, piece, open)
         == if c == ';' then Items(rest, [], open + piece + "\\;")
            else Items(rest, piece + WrittenChar(c, letters, true), open)
  {
    hide Items;
    if c in letters {
      var d := STANDARD[c];
      assert WrittenChar(c, letters, true) + rest == ['\\'] + ([d] + rest);
      ItemsAtPlain('\\', [d] + rest, piece, open);
      ItemsAtPlain(d, rest, piece + ['\\'], open);
      assert piece + ['\\'] + [d] == piece + WrittenChar(c, letters, true);
    } else if c == ';' {
      assert "\\;" + rest == ['\\'] + (";" + rest);
      ItemsAtPlain('\\', ";" + rest, piece, open);
      ItemsAtSemicolon(rest, piece + ['\\'], open);
      assert open + (piece + ['\\']) + ";" == open + piece + "\\;";
    } else {
      ItemsAtPlain(c, rest, piece, open);
    }
  }

  predicate NoneEndsInSlash(items: seq<string>) {
    items == [] || (!EndsInSlash(items[0]) && NoneEndsInSlash(items[1..]))
  }

  /** One item comes out for each, the first with what was open before it, unless some end in a backslash. */
  ghost predicate ComeOut(items: seq<string>, out: seq<string>, open: string, letters: Letters)
    requires items != []
  {
    if NoneEndsInSlash(items) then
      |out| == |items| && out[0] == open + Encoded(items[0], letters) && UnescapedAll(out[1..]) == items[1..]
    else |out| < |items|
  }

  lemma {:induction false} ItemsComeOut(items: seq<string>, open: string, letters: Letters)
    requires items != []
    ensures ComeOut(items, Items(WithoutLast(EncodedList(items, letters)), [], open), open, letters)
  {
    hide Items, EndsInSlash, WithoutLast, ComeOut, Encoded;
    if |items| == 1 {
      OneComesOut(items, open, letters);
    } else {
      var before := FirstComesOut(items, open, letters);
      ItemsComeOut(items[1..], before, letters);
      OneMoreComesOut(items, Items(WithoutLast(EncodedList(items[1..], letters)), [], before), before, open, letters);
    }
  }

  lemma DropsLast(s: string, t: string)
    requires t != []
    ensures (s + t)[..|s + t| - 1] == s + t[..|t| - 1] && (s + t)[|s + t| - 1] == t[|t| - 1]
  {
  }

  lemma FirstItem(items: seq<string>, letters: Letters)
    requires items != []
    ensures WithoutLast(EncodedList(items, letters))
         == Encoded(items[0], letters)
            + if |items| == 1 then [] else ";" + WithoutLast(EncodedList(items[1..], letters))
  {
    var first, tail := Encoded(items[0], letters), EncodedList(items[1..], letters);
    LastIsSemicolon(items, letters);
    if |items| > 1 {
      LastIsSemicolon(items[1..], letters);
    }
    WithoutLastOf(first, tail);
  }

  lemma WithoutLastOf(first: string, tail: string)
    requires tail != [] ==> tail[|tail| - 1] == ';'
    ensures WithoutLast(first + ";" + tail) == first + if tail == [] then [] else ";" + WithoutLast(tail)
  {
    if tail == [] {
      assert first + ";" + tail == first + ";";
      DropsLast(first, ";");
    } else {
      DropsLast(first + ";", tail);
      Regrouped(first, ";", WithoutLast(tail));
    }
  }

  /** The first item is passed over with what is open before it. */
  lemma FirstItemIsPassed(item: string, rest: string, open: string, letters: Letters)
    returns (piece: string, more: string)
    ensures Items(Encoded(item, letters) + rest, [], open) == Items(rest, piece, more)
    ensures more + piece == open + Encoded(item, letters)
    ensures EndsInSlash(piece) <==> EndsInSlash(item)
  {
    hide Items, Encoded, EndsInSlash;
    var first := Encoded(item, letters);
    EncodedEndsInSlash(item, letters);
    assert [] + first == first && open + [] + first == open + first;
    piece, more := ItemIsPassed(item, rest, [], open, letters);
  }

  lemma OneComesOut(items: seq<string>, open: string, letters: Letters)
    requires |items| == 1
    ensures ComeOut(items, Items(WithoutLast(EncodedList(items, letters)), [], open), open, letters)
  {
    FirstItem(items, letters);
    hide Items, EndsInSlash, WithoutLast, EncodedList, Encoded;
    var piece, more := FirstItemIsPassed(items[0], [], open, letters);
    ItemsAtEnd(piece, more);
    assert items[1..] == [] && UnescapedAll([]) == [];
    assert NoneEndsInSlash(items) <==> !EndsInSlash(items[0]);
  }

  lemma FirstComesOut(items: seq<string>, open: string, letters: Letters) returns (before: string)
    requires |items| > 1
    ensures !EndsInSlash(items[0]) ==> before == []
    ensures var later := Items(WithoutLast(EncodedList(items[1..], letters)), [], before);
      Items(WithoutLast(EncodedList(items, letters)), [], open)
        == if EndsInSlash(items[0]) then later else [open + Encoded(items[0], letters)] + later
  {
    hide Items, EndsInSlash, WithoutLast, EncodedList, Encoded;
    FirstItem(items, letters);
    var rest := WithoutLast(EncodedList(items[1..], letters));
    var piece, more := FirstItemIsPassed(items[0], ";" + rest, open, letters);
    ItemsAtSemicolon(rest, piece, more);
    before := if EndsInSlash(items[0]) then more + piece + ";" else [];
  }

  lemma OneMoreComesOut(items: seq<string>, later: seq<string>, before: string, open: string, letters: Letters)
    requires |items| > 1 && ComeOut(items[1..], later, before, letters)
    requires !EndsInSlash(items[0]) ==> before == []
    ensures var out := if EndsInSlash(items[0]) then later else [open + Encoded(items[0], letters)] + later;
      ComeOut(items, out, open, letters)
  {
    hide Unescaped, EndsInSlash, Encoded;
    if NoneEndsInSlash(items) {
      OneMoreItem(items, later, letters);
    }
  }

  lemma OneMoreItem(items: seq<string>, later: seq<string>, letters: Letters)
    requires |items| > 1 && later != [] && later[0] == [] + Encoded(items[1], letters)
    requires UnescapedAll(later[1..]) == items[1..][1..]
    ensures UnescapedAll(later) == items[1..]
  {
    assert later[0] == Encoded(items[1], letters);
    WrittenIsRead(items[1], letters, true);
    assert items[1..] == [items[1]] + items[1..][1..];
  }

  lemma {:induction false} LastIsSemicolon(items: seq<string>, letters: Letters)
    requires items != []
    ensures EncodedList(items, letters) != [] && EncodedList(items, letters)[|EncodedList(items, letters)| - 1] == ';'
  {
    if |items| > 1 {
      LastIsSemicolon(items[1..], letters);
    }
  }

  /** A list written out is read back exactly if it has items and none ends in a backslash. */
  lemma ListRoundTripIff(items: seq<string>, letters: Letters)
    ensures ListOf(EncodedList(items, letters)) == items <==> items != [] && NoneEndsInSlash(items)
  {
    if items == [] {
      assert Split([], []) == [[]];
      assert Combined([[]], []) == [[] + []];
    } else {
      ItemsComeOut(items, [], letters);
      var out := Items(WithoutLast(EncodedList(items, letters)), [], []);
      UnescapedAllLength(out);
      if NoneEndsInSlash(items) {
        WrittenIsRead(items[0], letters, true);
        assert out == [out[0]] + out[1..] && out[0] == Encoded(items[0], letters);
        assert items == [items[0]] + items[1..];
      }
    }
  }

  // ---- The last semicolon may be left out ----

  lemma {:induction false} WrittenSnoc(s: string, c: char, letters: Letters)
    ensures Encoded(s + [c], letters) == Encoded(s, letters) + WrittenChar(c, letters, true)
  {
    if s == [] {
      assert [] + [c] == [c] && [c][1..] == [];
      assert Encoded([c], letters) == WrittenChar(c, letters, true) + Encoded([], letters);
    } else {
      assert (s + [c])[1..] == s[1..] + [c];
      WrittenSnoc(s[1..], c, letters);
    }
  }

  lemma {:induction false} EncodedListSnoc(items: seq<string>, last: string, letters: Letters)
    ensures EncodedList(items + [last], letters) == EncodedList(items, letters) + Encoded(last, letters) + ";"
  {
    hide Encoded;
    if items == [] {
      assert [] + [last] == [last] && [last][1..] == [];
    } else {
      assert (items + [last])[1..] == items[1..] + [last];
      EncodedListSnoc(items[1..], last, letters);
      var first, rest := Encoded(items[0], letters) + ";", EncodedList(items[1..], letters);
      Regrouped(first, rest, Encoded(last, letters));
      Regrouped(first, rest + Encoded(last, letters), ";");
    }
  }

  /** An item whose escaped semicolon has been cut in two is lost. */
  lemma {:induction false} CutItemIsLost(items: seq<string>, x: string, open: string, letters: Letters)
    ensures |Items(EncodedList(items, letters) + (Encoded(x, letters) + "\\"), [], open)| <= |items|
    decreases |items|
  {
    hide Items, Encoded, EndsInSlash;
    var tail := Encoded(x, letters) + "\\";
    if items == [] {
      assert EncodedList(items, letters) + tail == tail;
      var piece, more := FirstItemIsPassed(x, "\\", open, letters);
      assert "\\" == ['\\'] + [];
      ItemsAtPlain('\\', [], piece, more);
      ItemsAtEnd(piece + ['\\'], more);
      SlashEnds(piece);
    } else {
      var first, rest := Encoded(items[0], letters), EncodedList(items[1..], letters) + tail;
      assert EncodedList(items, letters) + tail == first + (";" + rest);
      var piece, more := FirstItemIsPassed(items[0], ";" + rest, open, letters);
      ItemsAtSemicolon(rest, piece, more);
      CutItemIsLost(items[1..], x, more + piece + ";", letters);
      CutItemIsLost(items[1..], x, [], letters);
    }
  }

  lemma SlashEnds(piece: string)
    ensures EndsInSlash(piece + ['\\'])
  {
  }

  lemma CutLastIsLost(items: seq<string>, x: string, letters: Letters)
    ensures |ListOf(EncodedList(items, letters) + Encoded(x, letters) + "\\;")| <= |items|
  {
    hide Items, Encoded;
    var cut := EncodedList(items, letters) + (Encoded(x, letters) + "\\");
    assert EncodedList(items, letters) + Encoded(x, letters) + "\\;" == cut + ";";
    CutItemIsLost(items, x, [], letters);
    ListIsItems(cut + ";");
    UnescapedAllLength(Items(cut, [], []));
  }

  lemma NoMoreComeOut(items: seq<string>, letters: Letters)
    requires items != []
    ensures |ListOf(EncodedList(items, letters))| <= |items|
  {
    hide Items, Encoded, EncodedList, NoneEndsInSlash;
    ItemsComeOut(items, [], letters);
    ListIsItems(EncodedList(items, letters));
    UnescapedAllLength(Items(WithoutLast(EncodedList(items, letters)), [], []));
  }

  lemma SameWithoutEnd(text: string)
    requires text != [] ==> text[|text| - 1] != ';'
    ensures ListOf(text + ";") == ListOf(text)
  {
  }

  lemma CutNothing(front: seq<string>, letters: Letters)
    ensures EncodedList(front, letters) + Encoded([], letters) == EncodedList(front, letters)
    ensures ListOf(EncodedList(front, letters)) == front + [[]] <==> front == []
    ensures NoneEndsInSlash([[]])
  {
    EncodedNothing(letters);
    OneEmptyItem();
    hide ListOf, Encoded, EncodedList, NoneEndsInSlash;
    if front != [] {
      NoMoreComeOut(front, letters);
    }
  }

  lemma CutSomething(front: seq<string>, last: string, letters: Letters)
    requires last != []
    ensures ListOf(EncodedList(front, letters) + Encoded(last, letters)) == front + [last]
            <==> NoneEndsInSlash(front + [last]) && last[|last| - 1] != ';'
  {
    hide ListOf, Encoded, EncodedList, NoneEndsInSlash;
    var x, c := last[..|last| - 1], last[|last| - 1];
    assert last == x + [c];
    if c == ';' {
      CutSemicolon(front, x, letters);
    } else {
      CutOther(front, x, c, letters);
    }
  }

  lemma CutSemicolon(front: seq<string>, x: string, letters: Letters)
    ensures |ListOf(EncodedList(front, letters) + Encoded(x + ";", letters))| <= |front|
  {
    WrittenSnoc(x, ';', letters);
    hide ListOf, Encoded, EncodedList;
    assert EncodedList(front, letters) + Encoded(x + ";", letters)
        == EncodedList(front, letters) + Encoded(x, letters) + "\\;";
    CutLastIsLost(front, x, letters);
  }

  lemma CutOther(front: seq<string>, x: string, c: char, letters: Letters)
    requires c != ';'
    ensures var items := front + [x + [c]];
            ListOf(EncodedList(front, letters) + Encoded(x + [c], letters)) == items <==> NoneEndsInSlash(items)
  {
    WrittenSnoc(x, c, letters);
    EncodedListSnoc(front, x + [c], letters);
    hide ListOf, Encoded, EncodedList, NoneEndsInSlash;
    SameWithoutEnd(EncodedList(front, letters) + Encoded(x + [c], letters));
    ListRoundTripIff(front + [x + [c]], letters);
  }

  /**
   * Without its last semicolon a list is read back exactly if none of its items ends in a backslash and the last does
   * not end in a semicolon, nor is empty, unless it is the only one.
   */
  lemma EndIsOptionalIff(items: seq<string>, letters: Letters)
    requires items != []
    ensures var last := items[|items| - 1];
            ListOf(WithoutLast(EncodedList(items, letters))) == items
            <==> NoneEndsInSlash(items) && if last == [] then |items| == 1 else last[|last| - 1] != ';'
  {
    var front, last := items[..|items| - 1], items[|items| - 1];
    assert items == front + [last];
    EncodedListSnoc(front, last, letters);
    hide ListOf, Encoded, NoneEndsInSlash, EncodedList;
    assert WithoutLast(EncodedList(items, letters)) == EncodedList(front, letters) + Encoded(last, letters);
    if last == [] {
      CutNothing(front, letters);
    } else {
      CutSomething(front, last, letters);
    }
  }

  lemma ListIsItems(text: string)
    ensures ListOf(text) == UnescapedAll(Items(WithoutLast(text), [], []))
  {
  }

  lemma EncodedNothing(letters: Letters)
    ensures Encoded([], letters) == [] && EncodedList([], letters) == []
  {
  }

  lemma OneEmptyItem()
    ensures ListOf([]) == [[]] && NoneEndsInSlash([[]])
  {
    var none: seq<string> := [];
    assert Split([], []) == [""] && [""][1..] == none;
    assert Combined([""], []) == ["" + ""] + Combined(none, []);
    assert UnescapedAll([""]) == [Unescaped("", Unescapes(true))] + UnescapedAll(none);
  }

  lemma {:induction false} UnescapedAllLength(strings: seq<string>)
    ensures |UnescapedAll(strings)| == |strings|
  {
    if strings != [] {
      UnescapedAllLength(strings[1..]);
    }
  }
}
