/**
 * File watchers and their manager. A watcher watches its path and every directory above it; watchers share those paths
 * through a count for each, and the system watcher is told when a count leaves zero and when it comes back.
 */
module FileWatchers {
  import opened Basics
  import opened FileSystemWatcher

  // ---- Counting ----

  type Counts = map<Path, nat>

  function Tally(counts: Counts, path: Path): nat {
    if path in counts then counts[path] else 0
  }

  function Plus(counts: Counts, path: Path): Counts {
    counts[path := Tally(counts, path) + 1]
  }

  function Minus(counts: Counts, path: Path): Counts {
    if Tally(counts, path) <= 1 then counts - {path} else counts[path := Tally(counts, path) - 1]
  }

  function PlusAll(counts: Counts, paths: seq<Path>): Counts {
    if paths == [] then counts else Plus(PlusAll(counts, paths[..|paths| - 1]), paths[|paths| - 1])
  }

  function MinusAll(counts: Counts, paths: seq<Path>): Counts {
    if paths == [] then counts else Minus(MinusAll(counts, paths[..|paths| - 1]), paths[|paths| - 1])
  }

  predicate IsCounting(counts: Counts) {
    forall p :: p in counts ==> counts[p] > 0
  }

  /** The paths of a chain that are new, each once. */
  function New(chain: seq<Path>, have: seq<Path>): (r: seq<Path>)
    ensures NoneTwice(have) ==> NoneTwice(have + r)
  {
    if chain == [] then []
    else if chain[0] in have then New(chain[1..], have)
    else
      var rest := New(chain[1..], have + [chain[0]]);
      assert have + ([chain[0]] + rest) == have + [chain[0]] + rest;
      [chain[0]] + rest
  }

  lemma {:induction false} NewIsTheRest(chain: seq<Path>, have: seq<Path>, p: Path)
    ensures p in have + New(chain, have) <==> p in have || p in chain
  {
    if chain != [] {
      if chain[0] in have {
        NewIsTheRest(chain[1..], have, p);
      } else {
        NewIsTheRest(chain[1..], have + [chain[0]], p);
      }
    }
  }

  /** Whether each of some different paths is counted once more or less, and no other. */
  lemma {:induction false} PlusEach(counts: Counts, paths: seq<Path>, p: Path)
    requires NoneTwice(paths) && IsCounting(counts)
    ensures IsCounting(PlusAll(counts, paths))
    ensures Tally(PlusAll(counts, paths), p) == Tally(counts, p) + if p in paths then 1 else 0
  {
    if paths != [] {
      PlusEach(counts, paths[..|paths| - 1], p);
      PlusEach(counts, paths[..|paths| - 1], paths[|paths| - 1]);
      assert paths == paths[..|paths| - 1] + [paths[|paths| - 1]];
    }
  }

  lemma {:induction false} MinusEach(counts: Counts, paths: seq<Path>, p: Path)
    requires NoneTwice(paths) && IsCounting(counts)
    ensures IsCounting(MinusAll(counts, paths))
    ensures Tally(MinusAll(counts, paths), p)
         == if p in paths && Tally(counts, p) > 0 then Tally(counts, p) - 1 else Tally(counts, p)
  {
    if paths != [] {
      MinusEach(counts, paths[..|paths| - 1], p);
      MinusEach(counts, paths[..|paths| - 1], paths[|paths| - 1]);
      assert paths == paths[..|paths| - 1] + [paths[|paths| - 1]];
    }
  }

  lemma SameTallies(c: Counts, d: Counts)
    requires IsCounting(c) && IsCounting(d) && forall p :: Tally(c, p) == Tally(d, p)
    ensures c == d
  {
    forall p
      ensures p in c <==> p in d
      ensures p in c ==> c[p] == d[p]
    {
      assert Tally(c, p) == Tally(d, p);
    }
  }

  /** What a failed start has counted is taken back exactly. */
  lemma PlusThenMinus(counts: Counts, paths: seq<Path>)
    requires NoneTwice(paths) && IsCounting(counts)
    ensures MinusAll(PlusAll(counts, paths), paths) == counts
  {
    var more := PlusAll(counts, paths);
    PlusEach(counts, paths, []);
    MinusEach(more, paths, []);
    forall p
      ensures Tally(MinusAll(more, paths), p) == Tally(counts, p)
    {
      PlusEach(counts, paths, p);
      MinusEach(more, paths, p);
    }
    SameTallies(MinusAll(more, paths), counts);
  }

  /** What `stop` leaves in a watcher's list: the paths that others are still counted for. */
  function Shared(counts: Counts, paths: seq<Path>): (r: seq<Path>)
    ensures forall p :: p in r <==> p in paths && Tally(counts, p) > 1
    ensures NoneTwice(paths) ==> NoneTwice(r)
  {
    if paths == [] then []
    else if Tally(counts, paths[0]) > 1 then
      assert NoneTwice(paths) ==> paths[0] !in paths[1..];
      [paths[0]] + Shared(counts, paths[1..])
    else Shared(counts, paths[1..])
  }

  /** Stopping and starting again counts right exactly if no path was shared: the list keeps the shared ones. */
  lemma RestartCountsRightIff(counts: Counts, chain: seq<Path>, paths: seq<Path>)
    requires IsCounting(counts) && NoneTwice(paths) && forall p :: p in paths <==> p in chain
    requires forall p :: p in paths ==> p in counts
    ensures PlusAll(MinusAll(counts, paths), New(chain, Shared(counts, paths))) == counts
       <==> forall p :: p in paths ==> counts[p] == 1
  {
    var less, shared := MinusAll(counts, paths), Shared(counts, paths);
    var again := PlusAll(less, New(chain, shared));
    forall p
      ensures Tally(again, p) == if p in shared then Tally(counts, p) - 1 else Tally(counts, p)
      ensures IsCounting(again)
    {
      NewButShared(counts, chain, paths, p);
      MinusEach(counts, paths, p);
      PlusEach(less, New(chain, shared), p);
    }
    if forall p :: p in paths ==> counts[p] == 1 {
      forall p
        ensures Tally(again, p) == Tally(counts, p)
      {
        assert p !in shared;
      }
      SameTallies(again, counts);
    } else {
      var p :| p in paths && counts[p] != 1;
      assert p in shared && Tally(again, p) == counts[p] - 1;
    }
  }

  /** With a path that two watchers share, stopping and starting one of them loses a count. */
  lemma SharedRestartLosesCount()
    ensures var counts, paths := map["a" := 2], ["a"];
      PlusAll(MinusAll(counts, paths), New(paths, Shared(counts, paths))) != counts
  {
    var counts: Counts, paths := map["a" := 2], ["a"];
    assert counts["a"] != 1 && "a" in paths;
    RestartCountsRightIff(counts, paths, paths);
  }

  // ---- A start that fails ----

  /** The paths counted before the first one that cannot be watched. */
  function Tried(added: seq<Path>, counts: Counts, failing: set<Path>): (r: seq<Path>)
    ensures r <= added
    ensures |r| < |added| ==> added[|r|] !in counts && added[|r|] in failing
    ensures forall p :: p in r ==> p in counts || p !in failing
  {
    if added == [] || (added[0] !in counts && added[0] in failing) then []
    else [added[0]] + Tried(added[1..], counts, failing)
  }

  lemma {:induction false} TriedIs(tried: seq<Path>, rest: seq<Path>, counts: Counts, failing: set<Path>)
    requires rest != [] && rest[0] !in counts && rest[0] in failing
    requires forall p :: p in tried ==> p in counts || p !in failing
    ensures Tried(tried + rest, counts, failing) == tried
  {
    if tried == [] {
      assert tried + rest == rest;
    } else {
      assert (tried + rest)[0] == tried[0] && (tried + rest)[1..] == tried[1..] + rest;
      TriedIs(tried[1..], rest, counts, failing);
    }
  }

  /** The counts and the list after a failed start: what was tried is taken back, with all that was listed before. */
  function AfterFailure(counts: Counts, had: seq<Path>, chain: seq<Path>, failing: set<Path>): (Counts, seq<Path>) {
    var tried := Tried(New(chain, had), counts, failing);
    var more := PlusAll(counts, tried);
    (MinusAll(more, had + tried), Shared(more, had + tried))
  }

  /** A first start that fails leaves the counts alone, but keeps in its list what others are counted for. */
  lemma FirstFailureLeaves(counts: Counts, chain: seq<Path>, failing: set<Path>)
    requires IsCounting(counts)
    ensures var (after, left) := AfterFailure(counts, [], chain, failing);
      && after == counts && NoneTwice(left)
      && forall p :: p in left <==> p in Tried(New(chain, []), counts, failing) && p in counts
  {
    var tried := Tried(New(chain, []), counts, failing);
    assert [] + tried == tried && [] + New(chain, []) == New(chain, []);
    PlusThenMinus(counts, tried);
    forall p
      ensures Tally(PlusAll(counts, tried), p) == Tally(counts, p) + if p in tried then 1 else 0
    {
      PlusEach(counts, tried, p);
    }
  }

  /** Whether a start that counts those new paths fails. */
  predicate Fails(counts: Counts, added: seq<Path>, failing: set<Path>) {
    exists p :: p in added && p !in counts && p in failing
  }

  /** What trying again counts right: each path of the chain once more. */
  ghost predicate RetriesRight(counts: Counts, chain: seq<Path>, failing: set<Path>) {
    PlusAll(counts, New(chain, AfterFailure(counts, [], chain, failing).1)) == PlusAll(counts, New(chain, []))
  }

  /**
   * After a first start that failed, trying again counts right exactly if nobody else was counted for a path tried
   * before: those are skipped now.
   */
  lemma RetryCountsRightIff(counts: Counts, chain: seq<Path>, failing: set<Path>)
    requires IsCounting(counts) && Fails(counts, New(chain, []), failing)
    ensures RetriesRight(counts, chain, failing)
       <==> forall p :: p in Tried(New(chain, []), counts, failing) ==> p !in counts
  {
    hide Tally, New, PlusAll, Tried, AfterFailure, NoneTwice, IsCounting, Fails;
    var tried := Tried(New(chain, []), counts, failing);
    var left := AfterFailure(counts, [], chain, failing).1;
    FirstFailureLeaves(counts, chain, failing);
    var again, right := PlusAll(counts, New(chain, left)), PlusAll(counts, New(chain, []));
    NothingTwice();
    TallyWithNew(counts, chain, left, []);
    TallyWithNew(counts, chain, [], []);
    forall p
      ensures Tally(right, p) == Tally(counts, p) + if p in chain then 1 else 0
      ensures Tally(again, p) == Tally(counts, p) + if p in chain && p !in left then 1 else 0
      ensures p in tried ==> p in chain
    {
      TallyWithNew(counts, chain, left, p);
      TallyWithNew(counts, chain, [], p);
      NewIsOther(chain, [], p);
    }
    if forall p :: p in tried ==> p !in counts {
      forall p
        ensures Tally(again, p) == Tally(right, p)
      {
        assert p !in left;
      }
      SameTallies(again, right);
    } else {
      var p :| p in tried && p in counts;
      assert p in left && p in chain && Tally(again, p) != Tally(right, p);
    }
  }

  /** With a path of the chain, everything above it is counted too. */
  ghost predicate IsClosed(counts: Counts, chain: seq<Path>) {
    forall i, j :: 0 <= i < j < |chain| && chain[i] in counts ==> chain[j] in counts
  }

  lemma {:induction false} AllAreNew(chain: seq<Path>, have: seq<Path>)
    requires NoneTwice(have + chain)
    ensures New(chain, have) == chain
  {
    if chain != [] {
      var all := have + chain;
      assert all[|have|] == chain[0] && forall i :: 0 <= i < |have| ==> all[i] == have[i];
      assert have + [chain[0]] + chain[1..] == have + chain;
      AllAreNew(chain[1..], have + [chain[0]]);
    }
  }

  /** Then what fails is preceded by nothing counted, so trying again counts right. */
  lemma ClosedRetryCountsRight(counts: Counts, chain: seq<Path>, failing: set<Path>)
    requires IsCounting(counts) && NoneTwice(chain) && IsClosed(counts, chain) && Fails(counts, chain, failing)
    ensures RetriesRight(counts, chain, failing)
  {
    hide PlusAll, New, AfterFailure, NoneTwice, IsCounting;
    assert [] + chain == chain;
    AllAreNew(chain, []);
    var tried := Tried(chain, counts, failing);
    assert |tried| < |chain|;
    forall p | p in tried
      ensures p !in counts
    {
      var i :| 0 <= i < |tried| && tried[i] == p;
      assert chain[i] == p && chain[|tried|] !in counts;
    }
    RetryCountsRightIff(counts, chain, failing);
  }

  lemma NothingTwice()
    ensures NoneTwice([])
  {
  }

  lemma TallyWithNew(counts: Counts, chain: seq<Path>, have: seq<Path>, p: Path)
    requires IsCounting(counts) && NoneTwice(have)
    ensures IsCounting(PlusAll(counts, New(chain, have)))
    ensures Tally(PlusAll(counts, New(chain, have)), p) == Tally(counts, p) + if p in chain && p !in have then 1 else 0
  {
    hide New, PlusAll;
    NewIsOther(chain, have, p);
    PlusEach(counts, New(chain, have), p);
  }

  lemma NewIsOther(chain: seq<Path>, have: seq<Path>, p: Path)
    requires NoneTwice(have)
    ensures NoneTwice(New(chain, have)) && (p in New(chain, have) <==> p in chain && p !in have)
  {
    var added := New(chain, have);
    NewIsTheRest(chain, have, p);
    DistinctTail(have, added);
  }

  lemma DistinctTail(have: seq<Path>, added: seq<Path>)
    requires NoneTwice(have + added)
    ensures NoneTwice(added) && forall p :: p in have ==> p !in added
  {
    var all := have + added;
    forall i, j | 0 <= i < j < |added|
      ensures added[i] != added[j]
    {
      assert all[|have| + i] != all[|have| + j];
    }
    forall i, j | 0 <= i < |have| && 0 <= j < |added|
      ensures have[i] != added[j]
    {
      assert all[i] != all[|have| + j];
    }
  }

  lemma NewButShared(counts: Counts, chain: seq<Path>, paths: seq<Path>, p: Path)
    requires NoneTwice(paths) && forall p :: p in paths <==> p in chain
    ensures var added := New(chain, Shared(counts, paths));
      NoneTwice(added) && (p in added <==> p in paths && p !in Shared(counts, paths))
  {
    NewIsOther(chain, Shared(counts, paths), p);
  }

  // ---- The watchers ----

  /** What all watchers share: the counts and the system watcher. */
  class Statics {
    var counts: Counts
    const system: Watcher

    /** A path is watched exactly while somebody is counted for it. */
    ghost predicate Valid()
      reads this, system, system.kernel
    {
      system.Valid() && IsCounting(counts) && system.pathToID.Keys == counts.Keys
    }

    constructor (disk: Disk)
      ensures Valid() && counts == map[] && fresh(system) && fresh(system.kernel)
    {
      system := new Watcher(disk);
      counts := map[];
    }

    /** One more watcher for a path; only for the first one the system watcher is asked. */
    method Enter(path: Path, failing: set<Path>) returns (ok: bool)
      requires Valid()
      modifies this, system, system.kernel
      ensures Valid()
      ensures ok <==> path in old(counts) || path !in failing
      ensures counts == if ok then Plus(old(counts), path) else old(counts)
    {
      hide IsInverse, IsListed, HasWatches, NoneIsLeft, IsNumbered;
      ok := true;
      if Tally(counts, path) <= 0 {
        var rejected := system.AddPaths([path], failing);
        ok := rejected == [];
      }
      if ok {
        counts := Plus(counts, path);
      }
    }

    /** One watcher less; after the last one the system watcher lets go of the path. */
    method Leave(path: Path) returns (last: bool, ok: bool)
      requires Valid()
      modifies this, system, system.kernel
      ensures Valid() && ok
      ensures last <==> Tally(old(counts), path) <= 1
      ensures counts == Minus(old(counts), path)
    {
      hide IsInverse, IsListed, HasWatches, NoneIsLeft, IsNumbered;
      var count := Tally(counts, path) - 1;
      last, ok := count <= 0, true;
      if last {
        counts := counts - {path};
        var left := system.RemovePaths([path]);
        ok := left == [];
      } else {
        counts := counts[path := count];
      }
    }
  }

  /** What a start begins with. */
  datatype Begun = Begun(counts: Counts, had: seq<Path>, chain: seq<Path>, failing: set<Path>)

  /** How far it has come: `added` are the new paths among the first `i` of the chain, and all are counted. */
  ghost predicate Progress(b: Begun, counts: Counts, list: seq<Path>, added: seq<Path>, i: nat) {
    && i <= |b.chain| && IsCounting(b.counts)
    && list == b.had + added && NoneTwice(list)
    && added + New(b.chain[i..], list) == New(b.chain, b.had)
    && counts == PlusAll(b.counts, added)
    && forall p :: p in added ==> p in b.counts || p !in b.failing
  }

  lemma Begins(b: Begun)
    requires IsCounting(b.counts) && NoneTwice(b.had)
    ensures Progress(b, b.counts, b.had, [], 0)
  {
    assert b.chain[0..] == b.chain && b.had + [] == b.had;
  }

  lemma Skips(b: Begun, counts: Counts, list: seq<Path>, added: seq<Path>, i: nat)
    requires Progress(b, counts, list, added, i) && i < |b.chain| && b.chain[i] in list
    ensures Progress(b, counts, list, added, i + 1)
  {
    hide PlusAll, NoneTwice, IsCounting;
    OneNew(b.chain, i, list);
  }

  lemma Adds(b: Begun, counts: Counts, list: seq<Path>, added: seq<Path>, i: nat)
    requires Progress(b, counts, list, added, i) && i < |b.chain|
    requires var path := b.chain[i]; path !in list && (path in counts || path !in b.failing)
    ensures var path := b.chain[i];
      Progress(b, Plus(counts, path), list + [path], added + [path], i + 1)
  {
    var path := b.chain[i];
    OneNew(b.chain, i, list);
    AddedOnce(b.had, added, path);
    CountedBefore(b.counts, added, path);
    hide PlusAll, NoneTwice, IsCounting, Plus, New;
    Regrouped(added, [path], New(b.chain[i + 1..], list + [path]));
  }

  lemma FailsThere(b: Begun, counts: Counts, list: seq<Path>, added: seq<Path>, i: nat)
    requires Progress(b, counts, list, added, i) && i < |b.chain|
    requires b.chain[i] !in list && b.chain[i] !in counts && b.chain[i] in b.failing
    ensures var path := b.chain[i]; path in New(b.chain, b.had) && path !in b.counts && path in b.failing
    ensures (MinusAll(counts, list), Shared(counts, list)) == AfterFailure(b.counts, b.had, b.chain, b.failing)
    ensures b.had == [] ==> MinusAll(counts, list) == b.counts
  {
    OneNew(b.chain, i, list);
    AddedOnce(b.had, added, b.chain[i]);
    CountedBefore(b.counts, added, b.chain[i]);
    TriedIs(added, New(b.chain[i..], list), b.counts, b.failing);
    if b.had == [] {
      FirstFailureLeaves(b.counts, b.chain, b.failing);
    }
  }

  lemma ListIsDistinct(b: Begun, counts: Counts, list: seq<Path>, added: seq<Path>, i: nat)
    requires Progress(b, counts, list, added, i)
    ensures NoneTwice(list)
  {
  }

  lemma Ends(b: Begun, counts: Counts, list: seq<Path>, added: seq<Path>)
    requires Progress(b, counts, list, added, |b.chain|)
    ensures list == b.had + New(b.chain, b.had) && counts == PlusAll(b.counts, New(b.chain, b.had))
    ensures forall p :: p in New(b.chain, b.had) ==> p in b.counts || p !in b.failing
  {
    assert b.chain[|b.chain|..] == [] && New([], list) == [];
    assert added + [] == added;
  }

  class FileWatcher {
    const chain: seq<Path>
    var started: bool
    var watchFileList: seq<Path>

    /** Once started, a watcher lists each path of its chain once. */
    ghost predicate IsWhole()
      reads this
    {
      started ==> NoneTwice(watchFileList) && forall p :: p in watchFileList <==> p in chain
    }

    constructor (chain: seq<Path>)
      ensures !started && watchFileList == [] && this.chain == chain
    {
      this.chain := chain;
      started, watchFileList := false, [];
    }

    /** `start`: every new path of the chain is counted; the first one that cannot be watched undoes it all. */
    method Start(s: Statics, failing: set<Path>) returns (ok: bool)
      requires s.Valid() && NoneTwice(watchFileList)
      modifies this, s, s.system, s.system.kernel
      ensures s.Valid()
      ensures ok <==> forall p :: p in New(chain, old(watchFileList)) ==> p in old(s.counts) || p !in failing
      ensures started <==> ok
      ensures ok ==> watchFileList == old(watchFileList) + New(chain, old(watchFileList))
                     && s.counts == PlusAll(old(s.counts), New(chain, old(watchFileList)))
      ensures !ok ==> (s.counts, watchFileList) == AfterFailure(old(s.counts), old(watchFileList), chain, failing)
      ensures !ok && old(watchFileList) == [] ==> s.counts == old(s.counts)
    {
      hide Watcher.Valid, New, PlusAll, MinusAll, Plus, Tally, NoneTwice, Progress, IsCounting;
      started := true;
      ghost var before := Begun(s.counts, watchFileList, chain, failing);
      ghost var added: seq<Path> := [];
      Begins(before);
      for i := 0 to |chain|
        invariant s.Valid() && started
        invariant Progress(before, s.counts, watchFileList, added, i)
      {
        var path := chain[i];
        if path in watchFileList {
          Skips(before, s.counts, watchFileList, added, i);
          continue;
        }
        ghost var counts := s.counts;
        var entered := s.Enter(path, failing);
        if !entered {
          FailsThere(before, s.counts, watchFileList, added, i);
          ListIsDistinct(before, s.counts, watchFileList, added, i);
          var _ := StopWatcher(s);
          started := false;
          return false;
        }
        Adds(before, counts, watchFileList, added, i);
        watchFileList := watchFileList + [path];
        added := added + [path];
      }
      Ends(before, s.counts, watchFileList, added);
      ok := true;
    }

    /** `stop`: every listed path is counted once less; those that others still count stay in the list. */
    method Stop(s: Statics) returns (ok: bool)
      requires s.Valid() && NoneTwice(watchFileList)
      modifies this`watchFileList, s, s.system, s.system.kernel
      ensures s.Valid() && ok
      ensures s.counts == MinusAll(old(s.counts), old(watchFileList))
      ensures watchFileList == Shared(old(s.counts), old(watchFileList))
    {
      hide IsInverse, IsListed, HasWatches, NoneIsLeft, IsNumbered;
      ok := true;
      var list := watchFileList;
      for i := 0 to |list|
        invariant s.Valid() && ok
        invariant s.counts == MinusAll(old(s.counts), list[..i])
        invariant watchFileList == Shared(old(s.counts), list[..i]) + list[i..]
      {
        var path := list[i];
        StoppedOnce(old(s.counts), list, i);
        ListedOnce(old(s.counts), list, i);
        var last, left := s.Leave(path);
        ok := ok && left;
        if last {
          watchFileList := Without(watchFileList, path);
        }
      }
      assert list[..|list|] == list;
    }

    method StartWatcher(s: Statics, failing: set<Path>) returns (ok: bool)
      requires s.Valid() && NoneTwice(watchFileList)
      modifies this, s, s.system, s.system.kernel
      ensures s.Valid()
      ensures old(started) ==> ok && s.counts == old(s.counts) && started && watchFileList == old(watchFileList)
      ensures !old(started) ==>
        && (started <==> ok)
        && (ok <==> forall p :: p in New(chain, old(watchFileList)) ==> p in old(s.counts) || p !in failing)
        && (ok ==> watchFileList == old(watchFileList) + New(chain, old(watchFileList))
                   && s.counts == PlusAll(old(s.counts), New(chain, old(watchFileList))))
        && (!ok ==> (s.counts, watchFileList) == AfterFailure(old(s.counts), old(watchFileList), chain, failing))
        && (!ok && old(watchFileList) == [] ==> s.counts == old(s.counts))
    {
      if started {
        return true;
      }
      ok := Start(s, failing);
    }

    method StopWatcher(s: Statics) returns (ok: bool)
      requires s.Valid() && (started ==> NoneTwice(watchFileList))
      modifies this, s, s.system, s.system.kernel
      ensures s.Valid() && !started
      ensures ok == old(started)
      ensures ok ==> s.counts == MinusAll(old(s.counts), old(watchFileList))
                     && watchFileList == Shared(old(s.counts), old(watchFileList))
      ensures !ok ==> s.counts == old(s.counts) && watchFileList == old(watchFileList)
    {
      if !started {
        return false;
      }
      ok := Stop(s);
      if ok {
        started := false;
      }
    }
  }

  /** `restartWatcher`: of a started watcher, the counts come out right just when nothing of its list was shared. */
  method Restart(w: FileWatcher, s: Statics, failing: set<Path>) returns (ok: bool)
    requires s.Valid() && w.IsWhole()
    requires w.started ==> forall p :: p in w.watchFileList ==> p in s.counts
    modifies w, s, s.system, s.system.kernel
    ensures s.Valid() && w.started == ok
    ensures !old(w.started) ==> !ok && s.counts == old(s.counts) && w.watchFileList == old(w.watchFileList)
    ensures ok ==>
              (s.counts == old(s.counts) <==> forall p :: p in w.chain ==> p in old(s.counts) && old(s.counts)[p] == 1)
    ensures old(w.started) ==>
              var list := old(w.watchFileList);
              var less, left := MinusAll(old(s.counts), list), Shared(old(s.counts), list);
              && (ok <==> !Fails(less, New(w.chain, left), failing))
              && (s.counts, w.watchFileList)
                 == if ok then (PlusAll(less, New(w.chain, left)), left + New(w.chain, left))
                    else AfterFailure(less, left, w.chain, failing)
  {
    hide AfterFailure;
    ghost var counts, paths := s.counts, w.watchFileList;
    ok := w.StopWatcher(s);
    if ok {
      ok := w.StartWatcher(s, failing);
      RestartCountsRightIff(counts, w.chain, paths);
    }
  }

  // ---- A count that a restart has lost, and a retry then skips ----

  const A: seq<Path> := ["/a", "/"]
  const B: seq<Path> := ["/b", "/"]

  lemma Chains()
    ensures NoneTwice(A) && NoneTwice(B) && [] + A == A && [] + B == B
    ensures New(A, []) == A && New(B, []) == B && New(A, ["/"]) == ["/a"] && New(A, ["/a"]) == ["/"]
  {
    assert A[0] != A[1] && B[0] != B[1];
    assert [] + A == A && [] + B == B;
    AllAreNew(A, []);
    AllAreNew(B, []);
    assert A[1..] == ["/"] && A[1..][1..] == [];
    assert New(["/"], ["/"]) == [] && New(["/"], ["/"] + ["/a"]) == [];
    assert New(["/"], ["/a"]) == ["/"] + New([], ["/a"] + ["/"]);
  }

  lemma TwoPaths(counts: Counts, p: Path, q: Path)
    ensures PlusAll(counts, [p]) == Plus(counts, p) && PlusAll(counts, [p, q]) == Plus(Plus(counts, p), q)
    ensures MinusAll(counts, [p, q]) == Minus(Minus(counts, p), q)
    ensures Shared(counts, [p, q]) == Shared(counts, [p]) + Shared(counts, [q])
  {
    var single, both := [p], [p, q];
    assert single[..|single| - 1] == [] && both[..|both| - 1] == single;
    hide Plus, Minus, Shared, Tally;
    assert MinusAll(counts, single) == Minus(counts, p);
    assert MinusAll(counts, both) == Minus(MinusAll(counts, [p]), q);
    assert [p] + [q] == both;
    SharedJoins(counts, [p], [q]);
  }

  /** What is counted with watchers of `/a` and `/b`, and after the first is restarted. */
  const BOTH: Counts := map["/a" := 1, "/" := 2, "/b" := 1]
  const RESTARTED: Counts := map["/a" := 1, "/" := 1, "/b" := 1]

  lemma CountBoth()
    ensures PlusAll(PlusAll(map[], A), B) == BOTH && "/a" in BOTH && "/" in BOTH
  {
    hide PlusAll;
    var one: Counts := map["/a" := 1, "/" := 1];
    TwoPaths(map[], "/a", "/");
    TwoPaths(one, "/b", "/");
  }

  lemma RestartLosesCount()
    ensures Shared(BOTH, A) == ["/"] && PlusAll(MinusAll(BOTH, A), ["/a"]) == RESTARTED
  {
    hide PlusAll, MinusAll, Shared;
    TwoPaths(BOTH, "/a", "/");
    TwoPaths(MinusAll(BOTH, A), "/a", "/");
    SharedOne(BOTH, "/a");
    SharedOne(BOTH, "/");
    assert Minus(BOTH, "/a") == map["/" := 2, "/b" := 1];
  }

  /** The end of the second watcher leaves `/a` counted without the root above it. */
  lemma StopLeavesGap()
    ensures MinusAll(RESTARTED, B) == map["/a" := 1]
  {
    hide MinusAll;
    TwoPaths(RESTARTED, "/b", "/");
    assert Minus(RESTARTED, "/b") == map["/a" := 1, "/" := 1];
  }

  /** A start that fails at the root then leaves `/a` listed, and the next one does not count it. */
  lemma GapIsSkipped()
    ensures var counts: Counts := map["/a" := 1];
      && Fails(counts, A, {"/"}) && AfterFailure(counts, [], A, {"/"}) == (counts, ["/a"])
      && PlusAll(counts, ["/"]) == map["/a" := 1, "/" := 1] && !RetriesRight(counts, A, {"/"})
  {
    var counts: Counts := map["/a" := 1];
    Chains();
    TwoPaths(counts, "/a", "/");
    TwoPaths(counts, "/", "/");
    assert A[1] == "/" && "/" in A;
    assert A[1..] == ["/"];
    assert Tried(A, counts, {"/"}) == ["/a"] + Tried(A[1..], counts, {"/"});
    FirstFailureLeaves(counts, A, {"/"});
    assert ["/a"][1..] == [];
    RetryCountsRightIff(counts, A, {"/"});
  }

  lemma IsWholeAt(w: FileWatcher)
    requires w.watchFileList == w.chain == A
    ensures w.IsWhole() && forall p :: p in w.watchFileList ==> p == "/a" || p == "/"
  {
    Chains();
  }

  lemma NothingFails(counts: Counts, added: seq<Path>)
    ensures !Fails(counts, added, {})
  {
  }

  /** Watchers of `/a` and `/b`; the first is restarted and the second stopped. */
  method LeaveGap(disk: Disk) returns (s: Statics, one: FileWatcher)
    ensures s.Valid() && fresh({s, s.system, s.system.kernel, one})
    ensures one.started && one.chain == A && s.counts == map["/a" := 1]
  {
    hide *;
    Chains();
    CountBoth();
    RestartLosesCount();
    StopLeavesGap();
    s := new Statics(disk);
    one := new FileWatcher(A);
    var ok := one.StartWatcher(s, {});
    var second := new FileWatcher(B);
    ok := second.StartWatcher(s, {});
    assert s.counts == BOTH && one.watchFileList == A;
    IsWholeAt(one);
    NothingFails(MinusAll(s.counts, A), ["/a"]);
    ok := Restart(one, s, {});
    ok := second.StopWatcher(s);
  }

  /** A third watcher, of `/a`, fails to start at the root and is started again. */
  method LostCountIsSkipped(disk: Disk) returns (s: Statics, one: FileWatcher, other: FileWatcher, failed: bool)
    ensures failed && one.started && other.started && one.chain == other.chain == A
    ensures s.Valid() && s.counts == map["/a" := 1, "/" := 1]
  {
    hide *;
    s, one := LeaveGap(disk);
    other := new FileWatcher(A);
    Chains();
    NothingTwice();
    GapIsSkipped();
    var ok := other.StartWatcher(s, {"/"});
    failed := !ok;
    ok := other.StartWatcher(s, {});
  }

  lemma AddedOnce(had: seq<Path>, added: seq<Path>, path: Path)
    requires NoneTwice(had + added) && path !in had + added
    ensures NoneTwice(had + added + [path]) && NoneTwice(added) && path !in added
    ensures had + (added + [path]) == had + added + [path]
  {
    var all := had + added;
    forall i, j | 0 <= i < j < |added|
      ensures added[i] != added[j]
    {
      assert all[|had| + i] != all[|had| + j];
    }
    forall i | 0 <= i < |added|
      ensures added[i] != path
    {
      assert all[|had| + i] in all;
    }
  }

  lemma OneNew(chain: seq<Path>, i: nat, have: seq<Path>)
    requires i < |chain|
    ensures New(chain[i..], have)
         == if chain[i] in have then New(chain[i + 1..], have) else [chain[i]] + New(chain[i + 1..], have + [chain[i]])
  {
    assert chain[i..][0] == chain[i] && chain[i..][1..] == chain[i + 1..];
  }

  lemma CountedBefore(counts: Counts, added: seq<Path>, path: Path)
    requires IsCounting(counts) && NoneTwice(added) && path !in added
    ensures Tally(PlusAll(counts, added), path) == Tally(counts, path)
    ensures path in PlusAll(counts, added) <==> path in counts
    ensures PlusAll(counts, added + [path]) == Plus(PlusAll(counts, added), path)
  {
    assert (added + [path])[..|added|] == added;
    PlusEach(counts, added, path);
  }

  /** The next path to stop at has not been met yet. */
  lemma StoppedOnce(counts: Counts, list: seq<Path>, i: nat)
    requires IsCounting(counts) && NoneTwice(list) && i < |list|
    ensures Tally(MinusAll(counts, list[..i]), list[i]) == Tally(counts, list[i])
    ensures MinusAll(counts, list[..i + 1]) == Minus(MinusAll(counts, list[..i]), list[i])
  {
    var path, before := list[i], list[..i];
    assert list[..i + 1] == before + [path] && (before + [path])[..|before|] == before;
    MinusEach(counts, before, path);
  }

  lemma ListedOnce(counts: Counts, list: seq<Path>, i: nat)
    requires NoneTwice(list) && i < |list|
    ensures var left := Shared(counts, list[..i]) + list[i..];
      Shared(counts, list[..i + 1]) + list[i + 1..]
        == if Tally(counts, list[i]) > 1 then left else Without(left, list[i])
  {
    hide NoneTwice, Tally, Without, Shared;
    var path, before, after := list[i], list[..i], list[i + 1..];
    var shared := Shared(counts, before);
    SplitAt(list, i);
    assert path !in shared;
    SharedJoins(counts, before, [path]);
    SharedOne(counts, path);
    if Tally(counts, path) > 1 {
      Regrouped(shared, [path], after);
    } else {
      WithoutOne(shared, path, after);
      NothingMore(shared);
    }
  }

  lemma SplitAt(list: seq<Path>, i: nat)
    requires NoneTwice(list) && i < |list|
    ensures list[..i + 1] == list[..i] + [list[i]] && list[i..] == [list[i]] + list[i + 1..]
    ensures list[i] !in list[..i] && list[i] !in list[i + 1..]
  {
  }

  lemma NothingMore(a: seq<Path>)
    ensures a + [] == a
  {
  }

  lemma SharedOne(counts: Counts, path: Path)
    ensures Shared(counts, [path]) == if Tally(counts, path) > 1 then [path] else []
  {
    assert [path][1..] == [];
  }

  lemma {:induction false} SharedJoins(counts: Counts, s: seq<Path>, t: seq<Path>)
    ensures Shared(counts, s + t) == Shared(counts, s) + Shared(counts, t)
  {
    if s == [] {
      assert s + t == t;
    } else {
      assert (s + t)[0] == s[0] && (s + t)[1..] == s[1..] + t;
      SharedJoins(counts, s[1..], t);
    }
  }

  lemma {:induction false} WithoutOne(before: seq<Path>, path: Path, after: seq<Path>)
    requires path !in before && path !in after
    ensures Without(before + ([path] + after), path) == before + after
  {
    var all := before + ([path] + after);
    if before == [] {
      assert all == [path] + after && all[1..] == after;
      NothingWithout(after, path);
    } else {
      assert all[0] == before[0] && all[1..] == before[1..] + ([path] + after);
      WithoutOne(before[1..], path, after);
    }
  }

  lemma {:induction false} NothingWithout(paths: seq<Path>, path: Path)
    requires path !in paths
    ensures Without(paths, path) == paths
  {
    if paths != [] {
      NothingWithout(paths[1..], path);
    }
  }
}
