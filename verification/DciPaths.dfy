/** Paths as the program writes them, and where the text of a link leads. */
module DciPaths {
  import opened Basics
  import opened Bytes
  import opened DciFormat
  import opened DciStore

  const DOT: Byte := 46
  const SLASH: Byte := 47

  // ---- Paths and their texts ----

  /** A path as the program writes it. */
  function Text(p: Path): seq<Byte>
    decreases p, 0
  {
    if p.Root? then [SLASH] else Stem(p.dir) + [SLASH] + p.name
  }

  /** What stands in front of the slash and the names below `dir`. */
  function Stem(dir: Path): seq<Byte>
    decreases dir, 1
  {
    if dir.Root? then [] else Text(dir)
  }

  predicate Plain(p: Path) {
    p.Sub? ==> p.name != [] && SLASH !in p.name && Plain(p.dir)
  }

  /** Paths and their texts are the same keys as long as no name is empty or holds a slash. */
  lemma {:induction false} TextsDiffer(p: Path, q: Path)
    requires Plain(p) && Plain(q) && Text(p) == Text(q)
    ensures p == q
  {
    if p.Sub? && q.Sub? {
      LastSlash(Stem(p.dir), p.name, Stem(q.dir), q.name);
      TextBegins(p.dir);
      TextBegins(q.dir);
      if p.dir.Sub? && q.dir.Sub? {
        TextsDiffer(p.dir, q.dir);
      }
    }
  }

  lemma LastSlash(a: seq<Byte>, x: Name, b: seq<Byte>, y: Name)
    requires a + [SLASH] + x == b + [SLASH] + y && SLASH !in x && SLASH !in y
    ensures a == b && x == y
  {
    var t := a + [SLASH] + x;
    assert t[|a|] == SLASH && t[|b|] == SLASH;
    assert forall i :: 0 <= i < |x| ==> t[|a| + 1 + i] == x[i];
    assert forall i :: 0 <= i < |y| ==> t[|b| + 1 + i] == y[i];
    assert |a| == |b|;
    assert t[..|a|] == a && t[..|b|] == b;
    assert t[|a| + 1..] == x && t[|b| + 1..] == y;
  }

  /** A name with a slash, which an image may hold, makes two nodes share a key. */
  lemma SlashSharesKey()
    ensures var p, q := Sub(Sub(Root, [97]), [98]), Sub(Root, [97, 47, 98]);
            p != q && Text(p) == Text(q) == [47, 97, 47, 98]
  {
    assert Text(Sub(Root, [97])) == [SLASH, 97];
    assert Text(Sub(Sub(Root, [97]), [98])) == [SLASH, 97, SLASH, 98];
    assert Text(Sub(Root, [97, SLASH, 98])) == [SLASH, 97, SLASH, 98];
  }

  // ---- The path a link names ----

  /** `dir` extended by the components of `text`; an empty component names nothing an archive holds. */
  function Walk(dir: Path, text: seq<Byte>): Path
    decreases |text|
  {
    var i := IndexOfSlash(text, 0);
    if i == |text| then Sub(dir, text) else Walk(Sub(dir, text[..i]), text[i + 1..])
  }

  function IndexOfSlash(text: seq<Byte>, from: nat): (i: nat)
    requires from <= |text|
    ensures from <= i <= |text|
    ensures i < |text| ==> text[i] == SLASH
    ensures forall j :: from <= j < i ==> text[j] != SLASH
    decreases |text| - from
  {
    if from == |text| || text[from] == SLASH then from else IndexOfSlash(text, from + 1)
  }

  /** Leading `../` steps climb towards the root, leading `./` steps stay; climbing past the root fails. */
  function Climb(dir: Path, text: seq<Byte>): Option<(Path, seq<Byte>)>
    decreases |text|
  {
    if [DOT, DOT, SLASH] <= text then
      if dir.Root? then None else Climb(dir.dir, text[3..])
    else if [DOT, SLASH] <= text then Climb(dir, text[2..])
    else Some((dir, text))
  }

  /** The target of a link with this text in this directory; `None` is the empty path. */
  function LinkPath(dir: Path, text: seq<Byte>): Option<Path> {
    if [SLASH] <= text then
      Some(if text == [SLASH] then Root else Walk(Root, text[1..]))
    else
      match Climb(dir, text)
      case None => None
      case Some((up, rest)) => Some(if up.Root? && rest == [] then Root else Walk(up, rest))
  }

  // ---- Where that is ----

  /** The key of a path is its text: no component is lost or changed on the way from the text to the path. */
  lemma {:induction false} WalkText(dir: Path, text: seq<Byte>)
    ensures Text(Walk(dir, text)) == Stem(dir) + [SLASH] + text
    decreases |text|
  {
    var i := IndexOfSlash(text, 0);
    if i < |text| {
      var next := Sub(dir, text[..i]);
      WalkText(next, text[i + 1..]);
      Joined(Stem(dir), text, i);
    }
  }

  lemma Joined(stem: seq<Byte>, text: seq<Byte>, i: nat)
    requires i < |text| && text[i] == SLASH
    ensures stem + [SLASH] + text[..i] + [SLASH] + text[i + 1..] == stem + [SLASH] + text
  {
    assert text == text[..i] + [SLASH] + text[i + 1..];
  }

  lemma FirstSlash(a: seq<Byte>, b: seq<Byte>)
    ensures var i, text := IndexOfSlash(a, 0), a + [SLASH] + b;
      && IndexOfSlash(text, 0) == i && i < |text| && text[..i] == a[..i]
      && text[i + 1..] == if i < |a| then a[i + 1..] + [SLASH] + b else b
  {
    var i, text := IndexOfSlash(a, 0), a + [SLASH] + b;
    SlicesOfJoin(a, b, i);
    IndexIs(text, 0, i);
  }

  lemma SlicesOfJoin(a: seq<Byte>, b: seq<Byte>, i: nat)
    requires i <= |a|
    ensures var text := a + [SLASH] + b;
      && text[..i] == a[..i] && (forall j :: 0 <= j < |a| ==> text[j] == a[j]) && text[|a|] == SLASH
      && text[i + 1..] == if i < |a| then a[i + 1..] + [SLASH] + b else b
  {
    var text := a + [SLASH] + b;
    if i < |a| {
      assert text[i + 1..] == a[i + 1..] + [SLASH] + b;
    } else {
      assert text[i + 1..] == b;
    }
  }

  lemma {:induction false} IndexIs(text: seq<Byte>, from: nat, i: nat)
    requires from <= i < |text| && text[i] == SLASH && forall j :: from <= j < i ==> text[j] != SLASH
    ensures IndexOfSlash(text, from) == i
    decreases i - from
  {
    if from < i {
      IndexIs(text, from + 1, i);
    }
  }

  lemma {:induction false} WalkSplit(dir: Path, a: seq<Byte>, b: seq<Byte>)
    ensures Walk(dir, a + [SLASH] + b) == Walk(Walk(dir, a), b)
    decreases |a|
  {
    hide IndexOfSlash;
    FirstSlash(a, b);
    var i := IndexOfSlash(a, 0);
    if i < |a| {
      WalkSplit(Sub(dir, a[..i]), a[i + 1..], b);
    } else {
      assert a[..i] == a;
    }
  }

  lemma {:induction false} AllBelowRoot(p: Path)
    ensures Below(Root, p)
  {
    if p.Sub? {
      AllBelowRoot(p.dir);
    }
  }

  /** The names of `p`, joined by slashes, lead from `dir` to the same place below it. */
  lemma {:induction false} NamesLeadBelow(dir: Path, p: Path)
    requires Plain(p) && p.Sub?
    ensures Below(Root, p) && Walk(dir, Text(p)[1..]) == Rebase(Root, dir, p)
  {
    AllBelowRoot(p);
    if p.dir.Root? {
      assert Text(p)[1..] == p.name;
    } else {
      NamesLeadBelow(dir, p.dir);
      assert Text(p)[1..] == Text(p.dir)[1..] + [SLASH] + p.name;
      WalkSplit(dir, Text(p.dir)[1..], p.name);
    }
  }

  lemma {:induction false} RebaseOntoRoot(p: Path)
    requires Below(Root, p)
    ensures Rebase(Root, Root, p) == p
  {
    if p.Sub? {
      RebaseOntoRoot(p.dir);
    }
  }

  /** A link with the text of a path leads to that path, from wherever it is. */
  lemma AbsoluteLink(dir: Path, p: Path)
    requires Plain(p)
    ensures LinkPath(dir, Text(p)) == Some(p)
  {
    if p.Sub? {
      TextBegins(p);
      NamesLeadBelow(Root, p);
      RebaseOntoRoot(p);
    }
  }

  lemma {:induction false} TextBegins(p: Path)
    ensures [SLASH] <= Text(p)
    ensures p.Sub? && Plain(p) ==> |Text(p)| > 1 && Text(p)[1] != SLASH
  {
    if p.Sub? && p.dir.Sub? {
      TextBegins(p.dir);
    }
  }

  /** One step of a relative text for each element, in bytes: `../` where it is true, `./` where it is not. */
  function Steps(ups: seq<bool>): seq<Byte> {
    if ups == [] then [] else (if ups[0] then [46, 46, 47] else [46, 47]) + Steps(ups[1..])
  }

  function Ups(ups: seq<bool>): nat {
    if ups == [] then 0 else (if ups[0] then 1 else 0) + Ups(ups[1..])
  }

  predicate BeginsWithStep(text: seq<Byte>) {
    [46, 46, 47] <= text || [46, 47] <= text
  }

  /** The directory `k` levels up. */
  function Above(p: Path, k: nat): (q: Path)
    requires k <= Depth(p)
    ensures Below(q, p) && Depth(q) == Depth(p) - k
  {
    if k == 0 then p else Above(p.dir, k - 1)
  }

  /** Every text is some steps and a rest. */
  lemma {:induction false} EveryTextHasSteps(text: seq<Byte>) returns (ups: seq<bool>, rest: seq<Byte>)
    ensures text == Steps(ups) + rest && !BeginsWithStep(rest)
    decreases |text|
  {
    if BeginsWithStep(text) {
      var up := [DOT, DOT, SLASH] <= text;
      var k := if up then 3 else 2;
      ups, rest := EveryTextHasSteps(text[k..]);
      assert text == text[..k] + text[k..];
      ups := [up] + ups;
    } else {
      ups, rest := [], text;
    }
  }

  /** Steps climb as many levels as they say, and fail if there are not that many. */
  lemma {:induction false} ClimbSteps(dir: Path, ups: seq<bool>, rest: seq<Byte>)
    requires !BeginsWithStep(rest)
    ensures Climb(dir, Steps(ups) + rest)
            == if Ups(ups) > Depth(dir) then None else Some((Above(dir, Ups(ups)), rest))
    decreases |ups|
  {
    var text := Steps(ups) + rest;
    if ups == [] {
      assert text == rest;
    } else {
      var first := if ups[0] then [DOT, DOT, SLASH] else [DOT, SLASH];
      assert text == first + (Steps(ups[1..]) + rest);
      assert text[..|first|] == first && text[|first|..] == Steps(ups[1..]) + rest;
      if !ups[0] {
        assert text[1] != DOT;
        ClimbSteps(dir, ups[1..], rest);
      } else if dir.Sub? {
        ClimbSteps(dir.dir, ups[1..], rest);
      }
    }
  }

  /**
   * The key that any link text stands for: an absolute text is the key itself; a relative one continues the text of
   * the directory it climbs to, and there is none if and only if it climbs past the root.
   */
  lemma LinkKey(dir: Path, ups: seq<bool>, rest: seq<Byte>)
    requires !BeginsWithStep(rest)
    ensures var text := Steps(ups) + rest;
            if [SLASH] <= text then LinkPath(dir, text).Some? && Text(LinkPath(dir, text).value) == text
            else if Ups(ups) > Depth(dir) then LinkPath(dir, text).None?
            else LinkPath(dir, text).Some?
                 && Text(LinkPath(dir, text).value) == Stem(Above(dir, Ups(ups))) + [SLASH] + rest
  {
    hide Walk, Text, Climb, Steps, Ups;
    var text := Steps(ups) + rest;
    if [SLASH] <= text {
      AbsoluteKey(dir, text);
    } else {
      ClimbSteps(dir, ups, rest);
      if Ups(ups) <= Depth(dir) {
        WalkText(Above(dir, Ups(ups)), rest);
        RootHasItsKey(rest);
      }
    }
  }

  lemma AbsoluteKey(dir: Path, text: seq<Byte>)
    requires [SLASH] <= text
    ensures LinkPath(dir, text).Some? && Text(LinkPath(dir, text).value) == text
  {
    WalkText(Root, text[1..]);
    assert text == [SLASH] + text[1..];
  }

  lemma RootHasItsKey(rest: seq<Byte>)
    ensures rest == [] ==> Text(Root) == Stem(Root) + [SLASH] + rest
  {
  }

  /** Steps and then the names of `p` lead to the same place below the directory that the steps climb to. */
  lemma RelativeLink(dir: Path, ups: seq<bool>, p: Path)
    requires Plain(p) && p.Sub? && !BeginsWithStep(Text(p)[1..])
    ensures Below(Root, p)
    ensures LinkPath(dir, Steps(ups) + Text(p)[1..])
            == if Ups(ups) > Depth(dir) then None else Some(Rebase(Root, Above(dir, Ups(ups)), p))
  {
    var rest := Text(p)[1..];
    var text := Steps(ups) + rest;
    AllBelowRoot(p);
    TextBegins(p);
    assert rest[0] == Text(p)[1];
    assert text[0] == if ups == [] then rest[0] else DOT;
    ClimbSteps(dir, ups, rest);
    if Ups(ups) <= Depth(dir) {
      NamesLeadBelow(Above(dir, Ups(ups)), p);
    }
  }

  /** Steps alone lead to the root if they climb just so far, and to a key that no plain path has if they stop below. */
  lemma StepsAlone(dir: Path, ups: seq<bool>)
    ensures match LinkPath(dir, Steps(ups))
            case None => Ups(ups) > Depth(dir)
            case Some(p) =>
              Ups(ups) <= Depth(dir) && (p == Root <==> Ups(ups) == Depth(dir)) && (p != Root ==> !Plain(p))
  {
    assert Steps(ups) + [] == Steps(ups);
    assert ups != [] ==> Steps(ups)[0] == DOT;
    ClimbSteps(dir, ups, []);
  }
}
