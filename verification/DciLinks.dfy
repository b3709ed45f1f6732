/** Symbolic links: following chains of them, and writing through them. */
module DciLinks {
  import opened Basics
  import opened Bytes
  import opened DciFormat
  import opened DciStore
  import opened DciPaths

  // ---- Links ----

  predicate IsLink(s: Store, p: Path) {
    p in s && s[p].kind == SYMLINK && p.Sub?
  }

  function Target(s: Store, p: Path): Option<Path>
    requires IsLink(s, p)
  {
    LinkPath(p.dir, s[p].data)
  }

  // ---- Chains of links ----

  /** Following links from `p` comes to an end within `n` steps. */
  predicate Stops(s: Store, p: Path, n: nat)
    decreases n
  {
    IsLink(s, p) ==> n > 0 && (Target(s, p).Some? ==> Stops(s, Target(s, p).value, n - 1))
  }

  /** Where the chain from `p` ends; `None` if a link climbs past the root. */
  function Resolve(s: Store, p: Path, n: nat): (r: Option<Path>)
    requires Stops(s, p, n)
    ensures r.Some? ==> !IsLink(s, r.value)
    decreases n
  {
    if !IsLink(s, p) then Some(p)
    else if Target(s, p).None? then None
    else Resolve(s, Target(s, p).value, n - 1)
  }

  function Contents(s: Store, p: Option<Path>): seq<Byte> {
    if p.Some? && p.value in s then s[p.value].data else []
  }

  function DataRef(s: Store, p: Path, n: nat): seq<Byte>
    requires Stops(s, p, n)
  {
    Contents(s, Resolve(s, p, n))
  }

  /** `writeFile`: a new path is made; an existing one is overwritten through its links, if asked to. */
  function Write(lt: Order, s: Store, p: Path, data: seq<Byte>, override: bool, n: nat): (Store, bool)
    requires override ==> Stops(s, p, n)
  {
    if p in s then
      if !override then (s, false)
      else
        var end := Resolve(s, p, n);
        if end.Some? && end.value in s && s[end.value].kind == FILE
        then (s[end.value := s[end.value].(data := data)], true)
        else (s, false)
    else if CanMake(s, p) then (Attach(lt, s, p, Entry(FILE, data, [])), true)
    else (s, false)
  }

  /** One step of writing through a link: on to its target, if there is anything. */
  lemma WriteStep(lt: Order, s: Store, p: Path, data: seq<Byte>, n: nat)
    requires IsLink(s, p) && Stops(s, p, n)
    ensures Write(lt, s, p, data, true, n)
            == var target := Target(s, p);
               if target.None? || target.value !in s then (s, false)
               else Write(lt, s, target.value, data, true, n - 1)
  {
    if Target(s, p).Some? {
      var q := Target(s, p).value;
      assert Resolve(s, p, n) == Resolve(s, q, n - 1);
      if q !in s {
        assert Resolve(s, q, n - 1) == Some(q);
      }
    }
  }

  /** `link` refuses an empty text and the new path itself, written out. */
  function Link(lt: Order, s: Store, source: seq<Byte>, p: Path): (Store, bool) {
    if source == Text(p) || source == [] || !CanMake(s, p) then (s, false)
    else (Attach(lt, s, p, Entry(SYMLINK, source, [])), true)
  }

  // ---- Laws ----

  /** The two stores agree on what is a link and where it leads. */
  ghost predicate SameLinks(s: Store, t: Store) {
    forall p :: (IsLink(s, p) <==> IsLink(t, p)) && (IsLink(s, p) && IsLink(t, p) ==> s[p] == t[p])
  }

  lemma {:induction false} SameLinksResolveAlike(s: Store, t: Store, p: Path, n: nat)
    requires SameLinks(s, t)
    requires Stops(s, p, n)
    ensures Stops(t, p, n) && Resolve(t, p, n) == Resolve(s, p, n)
    decreases n
  {
    if IsLink(s, p) && Target(s, p).Some? {
      SameLinksResolveAlike(s, t, Target(s, p).value, n - 1);
    }
  }

  /** The number of steps allowed does not matter once it suffices. */
  lemma {:induction false} MoreStepsAgree(s: Store, p: Path, m: nat, n: nat)
    requires Stops(s, p, m) && Stops(s, p, n)
    ensures Resolve(s, p, m) == Resolve(s, p, n)
    decreases m
  {
    if IsLink(s, p) && Target(s, p).Some? {
      MoreStepsAgree(s, Target(s, p).value, m - 1, n - 1);
    }
  }

  /**
   * Overwriting at any link of a chain writes the file at its end: afterwards every path whose chain ends there
   * reads the new bytes, every other path reads what it read before, and no other entry changes.
   */
  lemma WriteReachesTheEnd(lt: Order, s: Store, p: Path, data: seq<Byte>, n: nat, q: Path, m: nat)
    requires p in s && Stops(s, p, n) && Stops(s, q, m)
    ensures var (t, ok) := Write(lt, s, p, data, true, n);
            && Stops(t, q, m)
            && (ok ==> var end := Resolve(s, p, n).value;
                 && DataRef(t, q, m) == (if Resolve(s, q, m) == Some(end) then data else DataRef(s, q, m))
                 && t.Keys == s.Keys && forall x <- s :: x != end ==> t[x] == s[x])
            && (!ok ==> t == s)
  {
    var (t, ok) := Write(lt, s, p, data, true, n);
    if ok {
      var end := Resolve(s, p, n).value;
      assert SameLinks(s, t);
      SameLinksResolveAlike(s, t, q, m);
    }
  }

  /** Writing to an existing path succeeds exactly when it is to be overridden and its chain ends at a file. */
  lemma WriteSucceedsIff(lt: Order, s: Store, p: Path, data: seq<Byte>, override: bool, n: nat)
    requires p in s && (override ==> Stops(s, p, n))
    ensures Write(lt, s, p, data, override, n).1
            <==> override && exists q <- s :: s[q].kind == FILE && Resolve(s, p, n) == Some(q)
    ensures !Write(lt, s, p, data, override, n).1 ==> Write(lt, s, p, data, override, n).0 == s
  {
  }

  lemma WriteValid(lt: Order, s: Store, p: Path, data: seq<Byte>, override: bool, n: nat)
    requires Valid(s) && (override ==> Stops(s, p, n))
    ensures Valid(Write(lt, s, p, data, override, n).0)
  {
    var t := Write(lt, s, p, data, override, n).0;
    if p in s {
      forall q <- t ensures ValidEntry(t, q) {
        assert ValidEntry(s, q);
      }
    } else if CanMake(s, p) {
      AttachValid(lt, s, p, Entry(FILE, data, []));
    }
  }

  lemma WriteTyped(lt: Order, s: Store, p: Path, data: seq<Byte>, override: bool, n: nat)
    requires AllTyped(s) && (override ==> Stops(s, p, n))
    ensures AllTyped(Write(lt, s, p, data, override, n).0)
  {
    hide Attach;
    if p !in s && CanMake(s, p) {
      AttachTyped(lt, s, p, Entry(FILE, data, []));
    }
  }

  // ---- Removed nodes ----

  /** The chain of links from `x` comes to something at or below `p`. */
  ghost predicate ComesTo(s: Store, p: Path, x: Path, m: nat)
    requires Stops(s, x, m)
    decreases m
  {
    Below(p, x) || (IsLink(s, x) && Target(s, x).Some? && ComesTo(s, p, Target(s, x).value, m - 1))
  }

  /** After a removal every chain of links that comes to what is gone reads nothing, every other reads as before. */
  lemma {:induction false} RemovedReads(s: Store, p: Path, x: Path, m: nat)
    requires DciStore.Valid(s) && CanRemove(s, p) && p.dir in s && Stops(s, x, m)
    ensures var t := Remove(s, p);
      Stops(t, x, m) && DataRef(t, x, m) == if ComesTo(s, p, x, m) then [] else DataRef(s, x, m)
    decreases m
  {
    RemoveTakesOut(s, p);
    var t := Remove(s, p);
    hide Remove, Below, CanRemove;
    if IsLink(s, x) && Target(s, x).Some? {
      RemovedReads(s, p, Target(s, x).value, m - 1);
    }
  }

  // ---- New nodes ----

  /** `t` is `s` with one entry more, which holds nothing, and its name in the listing above it. */
  ghost predicate Gains(s: Store, t: Store, p: Path) {
    && p.Sub? && p !in s && p.dir in s && t.Keys == s.Keys + {p} && t[p].children == []
    && t[p.dir] == s[p.dir].(children := t[p.dir].children)
    && multiset(t[p.dir].children) == multiset(s[p.dir].children) + multiset{p.name}
    && forall q <- s :: q != p.dir ==> t[q] == s[q]
  }

  lemma AttachGains(lt: Order, s: Store, p: Path, e: Entry)
    requires CanMake(s, p) && e.children == []
    ensures Gains(s, Attach(lt, s, p, e), p) && Attach(lt, s, p, e)[p] == e
  {
  }

  /** What `mkNode` checks is what keeps types right and names whole: the parent is a directory, the name is not cut. */
  lemma CanMakeIff(lt: Order, s: Store, p: Path)
    requires p.Sub? && p !in s && p.dir in s && AllTyped(s)
    ensures CanMake(s, p)
            <==> AllTyped(Attach(lt, s, p, Entry(FILE, [], []))) && p.name + [0] <= Field(p.name)
  {
    hide Insert;
    var t := Attach(lt, s, p, Entry(FILE, [], []));
    InsertMembers(lt, s[p.dir].children, p.name);
    assert p.name in t[p.dir].children;
    if s[p.dir].kind == DIRECTORY {
      AllTypedWith(lt, s, p);
    }
    if |p.name| < NAME_SIZE {
      assert Field(p.name)[..|p.name| + 1] == p.name + [0];
    }
  }

  lemma AllTypedWith(lt: Order, s: Store, p: Path)
    requires p.Sub? && p !in s && p.dir in s && AllTyped(s) && s[p.dir].kind == DIRECTORY
    ensures AllTyped(Attach(lt, s, p, Entry(FILE, [], [])))
  {
    hide Insert;
  }

  /** A new directory is there, empty, and everything reads as before. */
  lemma NewDirectory(lt: Order, s: Store, p: Path, x: Path, m: nat)
    requires Stops(s, x, m)
    ensures var (t, ok) := Mkdir(lt, s, p);
            && (ok <==> CanMake(s, p)) && (!ok ==> t == s)
            && (ok ==> Gains(s, t, p) && t[p] == Entry(DIRECTORY, [], [])
                       && Stops(t, x, m) && DataRef(t, x, m) == DataRef(s, x, m))
  {
    if CanMake(s, p) {
      AttachGains(lt, s, p, Entry(DIRECTORY, [], []));
      SameLinksResolveAlike(s, Mkdir(lt, s, p).0, x, m);
    }
  }

  /**
   * A new file holds what was written, whether or not it might have overridden something: its path reads so, and so
   * does every link that led nowhere but to it; everything else reads as before.
   */
  lemma NewFileReads(lt: Order, s: Store, p: Path, data: seq<Byte>, override: bool, n: nat, x: Path, m: nat)
    requires p !in s && (override ==> Stops(s, p, n)) && Stops(s, x, m)
    ensures var (t, ok) := Write(lt, s, p, data, override, n);
            && (ok <==> CanMake(s, p)) && (!ok ==> t == s)
            && (ok ==> Gains(s, t, p) && t[p].kind == FILE && Stops(t, x, m)
                       && DataRef(t, x, m) == (if Resolve(s, x, m) == Some(p) then data else DataRef(s, x, m)))
    ensures Resolve(s, p, 0) == Some(p)
  {
    if CanMake(s, p) {
      AttachGains(lt, s, p, Entry(FILE, data, []));
      SameLinksResolveAlike(s, Write(lt, s, p, data, override, n).0, x, m);
    }
  }

  /**
   * A new link holds the text it was given, and leads where that text does from its directory. What did not come by
   * its path reads as before; what led to it, and it itself, reads what its target does.
   */
  lemma NewLinkLeads(lt: Order, s: Store, source: seq<Byte>, p: Path, x: Path, m: nat, k: nat)
    requires Stops(s, x, m)
    ensures var (t, ok) := Link(lt, s, source, p);
            && (ok <==> source != [] && source != Text(p) && CanMake(s, p)) && (!ok ==> t == s)
            && (ok ==> Gains(s, t, p) && t[p] == Entry(SYMLINK, source, []) && IsLink(t, p)
                       && Target(t, p) == LinkPath(p.dir, source))
            && (ok && Resolve(s, x, m) != Some(p) ==> Stops(t, x, m) && DataRef(t, x, m) == DataRef(s, x, m))
            && (ok && Resolve(s, x, m) == Some(p) ==>
                  match LinkPath(p.dir, source)
                  case None => Stops(t, x, m + 1) && DataRef(t, x, m + 1) == []
                  case Some(q) => Stops(s, q, k) && Resolve(s, q, k) != Some(p) ==>
                    Stops(t, x, m + 1 + k) && DataRef(t, x, m + 1 + k) == DataRef(s, q, k))
  {
    var (t, ok) := Link(lt, s, source, p);
    if ok {
      AttachGains(lt, s, p, Entry(SYMLINK, source, []));
      var next := LinkPath(p.dir, source);
      if Resolve(s, x, m) != Some(p) {
        PassesBy(s, t, p, x, m);
      } else if next.None? {
        GoesThrough(s, t, p, x, m, 1);
      } else if Stops(s, next.value, k) && Resolve(s, next.value, k) != Some(p) {
        PassesBy(s, t, p, next.value, k);
        GoesThrough(s, t, p, x, m, 1 + k);
      }
    }
  }

  lemma {:induction false} PassesBy(s: Store, t: Store, p: Path, x: Path, m: nat)
    requires Gains(s, t, p) && s[p.dir].kind == DIRECTORY && Stops(s, x, m) && Resolve(s, x, m) != Some(p)
    ensures Stops(t, x, m) && Resolve(t, x, m) == Resolve(s, x, m) && DataRef(t, x, m) == DataRef(s, x, m)
    decreases m
  {
    if IsLink(s, x) && Target(s, x).Some? {
      PassesBy(s, t, p, Target(s, x).value, m - 1);
    }
  }

  lemma {:induction false} GoesThrough(s: Store, t: Store, p: Path, x: Path, m: nat, k: nat)
    requires Gains(s, t, p) && s[p.dir].kind == DIRECTORY && Stops(s, x, m) && Resolve(s, x, m) == Some(p)
    requires Stops(t, p, k)
    ensures Stops(t, x, m + k) && Resolve(t, x, m + k) == Resolve(t, p, k)
    decreases m
  {
    if IsLink(s, x) {
      GoesThrough(s, t, p, Target(s, x).value, m - 1, k);
    } else {
      MoreSteps(t, p, k, m + k);
      MoreStepsAgree(t, p, k, m + k);
    }
  }

  lemma {:induction false} EndedBefore(s: Store, t: Store, p: Path, x: Path, m: nat)
    requires Gains(s, t, p) && s[p.dir].kind == DIRECTORY && Stops(t, x, m)
    ensures Stops(s, x, m) && (Resolve(s, x, m) == Some(p) ==> exists i: nat :: i <= m && Stops(t, p, i))
    decreases m
  {
    if IsLink(s, x) && Target(s, x).Some? {
      EndedBefore(s, t, p, Target(s, x).value, m - 1);
    } else if x == p {
      assert Stops(t, p, m);
    }
  }

  /** Following a new link ends if and only if following its target ended, and not at the path the link has now. */
  lemma NewLinkEndsIff(lt: Order, s: Store, source: seq<Byte>, p: Path)
    requires Link(lt, s, source, p).1
    ensures var t := Link(lt, s, source, p).0;
            (exists n: nat :: Stops(t, p, n))
            <==> LinkPath(p.dir, source).None?
                 || exists k: nat :: var q := LinkPath(p.dir, source).value;
                      Stops(s, q, k) && Resolve(s, q, k) != Some(p)
  {
    var t := Link(lt, s, source, p).0;
    AttachGains(lt, s, p, Entry(SYMLINK, source, []));
    var next := LinkPath(p.dir, source);
    if next.None? {
      var n: nat := 1;
      assert Stops(t, p, n);
      assert exists n: nat :: Stops(t, p, n);
    } else {
      var q := next.value;
      if n: nat :| Stops(t, p, n) {
        NoWayBack(s, t, p, q, n);
        assert Stops(s, q, n - 1) && Resolve(s, q, n - 1) != Some(p);
      }
      if k: nat :| Stops(s, q, k) && Resolve(s, q, k) != Some(p) {
        PassesBy(s, t, p, q, k);
        assert Stops(t, p, k + 1);
        assert exists n: nat :: Stops(t, p, n);
      }
    }
  }

  lemma {:induction false} NoWayBack(s: Store, t: Store, p: Path, q: Path, n: nat)
    requires Gains(s, t, p) && s[p.dir].kind == DIRECTORY
    requires IsLink(t, p) && Target(t, p) == Some(q) && Stops(t, p, n)
    ensures n > 0 && Stops(s, q, n - 1) && Resolve(s, q, n - 1) != Some(p)
    decreases n
  {
    EndedBefore(s, t, p, q, n - 1);
    if Resolve(s, q, n - 1) == Some(p) {
      var i: nat :| i <= n - 1 && Stops(t, p, i);
      NoWayBack(s, t, p, q, i);
      MoreStepsAgree(s, q, i - 1, n - 1);
    }
  }

  // ---- Following ends exactly when the chain has no cycle, and then within as many steps as there are entries ----

  /** The place reached after `n` steps along links, if the chain is that long. */
  function Follow(s: Store, p: Path, n: nat): Option<Path>
    decreases n
  {
    if n == 0 then Some(p)
    else if IsLink(s, p) && Target(s, p).Some? then Follow(s, Target(s, p).value, n - 1)
    else None
  }

  /** The links on a chain that ends. */
  ghost function Visited(s: Store, p: Path, n: nat): (v: set<Path>)
    requires Stops(s, p, n)
    ensures v <= s.Keys
    ensures IsLink(s, p) <==> p in v
    decreases n
  {
    if !IsLink(s, p) then {}
    else if Target(s, p).None? then {p}
    else {p} + Visited(s, Target(s, p).value, n - 1)
  }

  /** The least number of steps that suffices. */
  ghost function Need(s: Store, p: Path, n: nat): (k: nat)
    requires Stops(s, p, n)
    ensures k <= n && Stops(s, p, k)
    decreases n
  {
    if !IsLink(s, p) then 0
    else if Target(s, p).None? then 1
    else 1 + Need(s, Target(s, p).value, n - 1)
  }

  lemma {:induction false} NeedIsOwn(s: Store, p: Path, m: nat, n: nat)
    requires Stops(s, p, m) && Stops(s, p, n)
    ensures Need(s, p, m) == Need(s, p, n)
    decreases m
  {
    if IsLink(s, p) && Target(s, p).Some? {
      NeedIsOwn(s, Target(s, p).value, m - 1, n - 1);
    }
  }

  lemma {:induction false} VisitedNeedsLess(s: Store, p: Path, n: nat, x: Path)
    requires Stops(s, p, n) && x in Visited(s, p, n)
    ensures exists m: nat :: Stops(s, x, m) && Need(s, x, m) <= Need(s, p, n)
    decreases n
  {
    if x != p {
      VisitedNeedsLess(s, Target(s, p).value, n - 1, x);
    }
  }

  lemma {:induction false} VisitedOnce(s: Store, p: Path, n: nat)
    requires Stops(s, p, n)
    ensures |Visited(s, p, n)| == Need(s, p, n)
    decreases n
  {
    if IsLink(s, p) && Target(s, p).Some? {
      var next := Target(s, p).value;
      VisitedOnce(s, next, n - 1);
      if p in Visited(s, next, n - 1) {
        VisitedNeedsLess(s, next, n - 1, p);
        var m: nat :| Stops(s, p, m) && Need(s, p, m) <= Need(s, next, n - 1);
        NeedIsOwn(s, p, m, n);
        assert false;
      }
    }
  }

  lemma {:induction false} MoreSteps(s: Store, p: Path, m: nat, n: nat)
    requires m <= n && Stops(s, p, m)
    ensures Stops(s, p, n)
    decreases m
  {
    if IsLink(s, p) && Target(s, p).Some? {
      MoreSteps(s, Target(s, p).value, m - 1, n - 1);
    }
  }

  lemma SetWithin(a: set<Path>, b: set<Path>)
    requires a <= b
    ensures |a| <= |b|
  {
    assert b == a + (b - a);
  }

  lemma {:induction false} StopOrFollow(s: Store, p: Path, n: nat)
    ensures Stops(s, p, n) ==> Follow(s, p, n + 1).None?
    ensures !Stops(s, p, n) ==> Follow(s, p, n).Some?
    decreases n
  {
    if n > 0 && IsLink(s, p) && Target(s, p).Some? {
      StopOrFollow(s, Target(s, p).value, n - 1);
    }
  }

  /**
   * Reading or writing through a chain of links ends if and only if it does so within as many steps as there are
   * entries; otherwise the chain goes on forever.
   */
  lemma FollowingEndsIff(s: Store, p: Path)
    ensures (exists n: nat :: Stops(s, p, n)) <==> Stops(s, p, |s|)
    ensures !Stops(s, p, |s|) <==> forall n: nat :: Follow(s, p, n).Some?
  {
    forall n: nat | Stops(s, p, n) ensures Stops(s, p, |s|) {
      var k := Need(s, p, n);
      VisitedOnce(s, p, n);
      SetWithin(Visited(s, p, n), s.Keys);
      MoreSteps(s, p, k, |s|);
    }
    forall n: nat ensures !Stops(s, p, |s|) ==> Follow(s, p, n).Some? {
      StopOrFollow(s, p, n);
    }
    StopOrFollow(s, p, |s|);
  }

  lemma {:induction false} FollowOn(s: Store, p: Path, m: nat, n: nat)
    requires Follow(s, p, m).Some?
    ensures Follow(s, p, m + n) == Follow(s, Follow(s, p, m).value, n)
    decreases m
  {
    if m > 0 {
      FollowOn(s, Target(s, p).value, m - 1, n);
    }
  }

  /** The chain comes to the same path twice. */
  ghost predicate MeetsAgain(s: Store, p: Path, i: nat, j: nat) {
    i < j && Follow(s, p, i).Some? && Follow(s, p, i) == Follow(s, p, j)
  }

  lemma {:induction false} RoundAndRound(s: Store, p: Path, i: nat, j: nat, n: nat)
    requires MeetsAgain(s, p, i, j)
    ensures Follow(s, p, n).Some?
    decreases n
  {
    if n < j {
      if Follow(s, p, n).None? {
        StopsShort(s, p, n, j);
      }
    } else {
      FollowOn(s, p, i, n - j);
      FollowOn(s, p, j, n - j);
      RoundAndRound(s, p, i, j, n - (j - i));
    }
  }

  lemma {:induction false} StopsShort(s: Store, p: Path, m: nat, n: nat)
    requires m <= n && Follow(s, p, m).None?
    ensures Follow(s, p, n).None?
    decreases m
  {
    if IsLink(s, p) && Target(s, p).Some? {
      StopsShort(s, Target(s, p).value, m - 1, n - 1);
    }
  }

  lemma {:induction false} Pigeonhole(paths: seq<Path>, within: set<Path>) returns (i: nat, j: nat)
    requires (forall p <- paths :: p in within) && |paths| > |within|
    ensures i < j < |paths| && paths[i] == paths[j]
    decreases |paths|
  {
    var last := |paths| - 1;
    if paths[last] in paths[..last] {
      i, j :| i < last && j == last && paths[i] == paths[last];
    } else {
      assert |within - {paths[last]}| == |within| - 1;
      i, j := Pigeonhole(paths[..last], within - {paths[last]});
    }
  }

  /** A chain goes on forever if and only if it comes to some path twice. */
  lemma ForeverIffCycle(s: Store, p: Path)
    ensures !Stops(s, p, |s|) <==> exists i, j :: MeetsAgain(s, p, i, j)
  {
    FollowingEndsIff(s, p);
    if !Stops(s, p, |s|) {
      var chain := seq(|s| + 1, n requires n >= 0 => match Follow(s, p, n)
        case Some(q) => q
        case None => p);
      forall n: nat | n <= |s| ensures chain[n] in s.Keys {
        FollowOn(s, p, n, 1);
        assert Follow(s, p, n + 1).Some?;
      }
      var i, j := Pigeonhole(chain, s.Keys);
      assert MeetsAgain(s, p, i, j);
    }
    forall i, j, n: nat | MeetsAgain(s, p, i, j) ensures Follow(s, p, n).Some? {
      RoundAndRound(s, p, i, j, n);
    }
  }

  /** The archive after `link("a", "/a")`: the call is not refused, and the link leads to itself. */
  lemma LinkToItself(lt: Order)
    ensures var p := Sub(Root, [97]);
            var (s, ok) := Link(lt, EMPTY, [97], p);
            ok && IsLink(s, p) && Target(s, p) == Some(p) && !Stops(s, p, |s|)
  {
    var p := Sub(Root, [97]);
    var s := Link(lt, EMPTY, [97], p).0;
    assert IndexOfSlash([97], 0) == 1;
    assert Target(s, p) == Some(p);
    assert MeetsAgain(s, p, 0, 1) by {
      assert Follow(s, p, 1) == Follow(s, p, 0);
    }
    ForeverIffCycle(s, p);
  }
}
