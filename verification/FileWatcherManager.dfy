/**
 * The manager of file watchers. Removed watchers stay alive, and counted, until their deferred deletion runs.
 */
module FileWatcherManager {
  import opened Basics
  import opened FileSystemWatcher
  import opened FileWatchers

  /** The started watchers whose chain holds a path. */
  ghost function Holders(watchers: set<FileWatcher>, path: Path): set<FileWatcher>
    reads watchers
  {
    set w | w in watchers && w.started && path in w.chain
  }

  lemma HoldersWith(watchers: set<FileWatcher>, w: FileWatcher, path: Path)
    requires w !in watchers
    ensures |Holders(watchers + {w}, path)| == |Holders(watchers, path)| + if w.started && path in w.chain then 1 else 0
  {
    assert Holders(watchers + {w}, path) == Holders(watchers, path) + if w.started && path in w.chain then {w} else {};
  }

  function AllOf(watchers: map<Path, FileWatcher>, dying: seq<FileWatcher>): set<FileWatcher> {
    (set k | k in watchers :: watchers[k]) + set w | w in dying
  }

  lemma AllWith(watchers: map<Path, FileWatcher>, dying: seq<FileWatcher>, path: Path, watcher: FileWatcher)
    requires path !in watchers
    ensures AllOf(watchers[path := watcher], dying) == AllOf(watchers, dying) + {watcher}
  {
    var more := watchers[path := watcher];
    assert more[path] == watcher;
    forall w
      ensures w in AllOf(more, dying) <==> w in AllOf(watchers, dying) || w == watcher
    {
      if w in AllOf(watchers, dying) && w !in dying {
        var k :| k in watchers && watchers[k] == w;
        assert more[k] == w;
      }
    }
  }

  lemma AllMoved(watchers: map<Path, FileWatcher>, dying: seq<FileWatcher>, path: Path)
    requires path in watchers
    ensures AllOf(watchers - {path}, dying + [watchers[path]]) == AllOf(watchers, dying)
  {
    var less, more := watchers - {path}, dying + [watchers[path]];
    forall w
      ensures w in AllOf(less, more) <==> w in AllOf(watchers, dying)
    {
      if w in AllOf(watchers, dying) && w !in more {
        var k :| k in watchers && watchers[k] == w;
        assert less[k] == w;
      }
    }
  }

  lemma AllButFirst(watchers: map<Path, FileWatcher>, dying: seq<FileWatcher>)
    requires dying != [] && dying[0] !in dying[1..] && forall k :: k in watchers ==> watchers[k] != dying[0]
    ensures AllOf(watchers, dying[1..]) == AllOf(watchers, dying) - {dying[0]} && dying[0] in AllOf(watchers, dying)
  {
    assert dying == [dying[0]] + dying[1..];
  }

  /** The chain of a new watcher, each path once. */
  lemma NewOfNothing(chain: seq<Path>)
    ensures NoneTwice(New(chain, [])) && forall p :: p in New(chain, []) <==> p in chain
    ensures [] + New(chain, []) == New(chain, [])
  {
    assert [] + New(chain, []) == New(chain, []);
    forall p
      ensures p in New(chain, []) <==> p in chain
    {
      NewIsTheRest(chain, [], p);
    }
  }

  /** A new watcher is started: it counts on every path of its chain, or on none. */
  method Create(chain: seq<Path>, failing: set<Path>, statics: Statics) returns (watcher: FileWatcher)
    requires statics.Valid()
    modifies statics, statics.system, statics.system.kernel
    ensures statics.Valid()
    ensures fresh(watcher) && watcher.chain == chain && watcher.IsWhole()
    ensures watcher.started <==> forall p :: p in chain ==> p in old(statics.counts) || p !in failing
    ensures forall p :: Tally(statics.counts, p)
                     == Tally(old(statics.counts), p) + if watcher.started && p in chain then 1 else 0
  {
    hide Watcher.Valid, New, PlusAll, NoneTwice;
    ghost var counts := statics.counts;
    NewOfNothing(chain);
    watcher := new FileWatcher(chain);
    var ok := watcher.StartWatcher(statics, failing);
    if ok {
      forall p {
        PlusEach(counts, New(chain, []), p);
      }
    }
  }

  /** The destructor: a started watcher stops counting. */
  method Destroy(watcher: FileWatcher, statics: Statics)
    requires statics.Valid() && watcher.IsWhole()
    requires watcher.started ==> forall p :: p in watcher.chain ==> p in statics.counts
    modifies watcher, statics, statics.system, statics.system.kernel
    ensures statics.Valid() && !watcher.started
    ensures forall p :: Tally(statics.counts, p)
                     == Tally(old(statics.counts), p) - if old(watcher.started) && p in watcher.chain then 1 else 0
  {
    hide Watcher.Valid, MinusAll, NoneTwice;
    ghost var counts, list := statics.counts, watcher.watchFileList;
    var stopped := watcher.StopWatcher(statics);
    if stopped {
      forall p {
        MinusEach(counts, list, p);
      }
    }
  }

  /** A watcher taken out of some, and a path. */
  datatype Deletion = Deletion(watchers: set<FileWatcher>, watcher: FileWatcher, path: Path)

  twostate lemma HoldersAfter(x: Deletion)
    requires x.watcher in x.watchers && forall w :: w in x.watchers && w != x.watcher ==> unchanged(w)
    ensures |Holders(x.watchers - {x.watcher}, x.path)|
         == old(|Holders(x.watchers, x.path)|) - if old(x.watcher.started) && x.path in x.watcher.chain then 1 else 0
  {
    assert Holders(x.watchers - {x.watcher}, x.path) == old(Holders(x.watchers, x.path)) - {x.watcher};
  }

  twostate lemma WholeAfter(x: Deletion)
    requires forall w :: w in x.watchers ==> old(w.IsWhole())
    requires forall w :: w in x.watchers && w != x.watcher ==> unchanged(w)
    ensures forall w :: w in x.watchers - {x.watcher} ==> w.IsWhole()
  {
  }

  /** What has a count is counted. */
  lemma CountsAre(statics: Statics)
    requires statics.Valid()
    ensures forall p :: p in statics.counts <==> Tally(statics.counts, p) > 0
  {
  }

  class Manager {
    const statics: Statics
    var watchersMap: map<Path, FileWatcher>
    var dying: seq<FileWatcher>

    /** All watchers that exist. */
    ghost function Watchers(): set<FileWatcher>
      reads this
    {
      AllOf(watchersMap, dying)
    }

    ghost predicate IsOwn()
      reads this
    {
      && (forall k, l :: k in watchersMap && l in watchersMap && watchersMap[k] == watchersMap[l] ==> k == l)
      && (forall k :: k in watchersMap ==> watchersMap[k] !in dying)
      && (forall i, j :: 0 <= i < j < |dying| ==> dying[i] != dying[j])
    }

    ghost predicate IsCounted()
      reads this, statics, Watchers()
    {
      && (forall w :: w in Watchers() ==> w.IsWhole())
      && (forall p :: Tally(statics.counts, p) == |Holders(Watchers(), p)|)
    }

    /** Each path's count is the number of started watchers whose chain holds it. */
    ghost predicate Valid()
      reads this, statics, statics.system, statics.system.kernel, Watchers()
    {
      statics.Valid() && IsOwn() && IsCounted()
    }

    constructor (disk: Disk)
      ensures Valid() && Watchers() == {} && fresh(statics) && fresh(statics.system) && fresh(statics.system.kernel)
    {
      statics := new Statics(disk);
      watchersMap, dying := map[], [];
    }

    /** `add`: a path is added once, whether or not its watcher could be started. */
    method Add(filePath: Path, chain: seq<Path>, failing: set<Path>) returns (watcher: FileWatcher)
      requires Valid()
      modifies this`watchersMap, statics, statics.system, statics.system.kernel
      ensures Valid()
      ensures filePath in watchersMap && watcher == watchersMap[filePath]
      ensures filePath in old(watchersMap) ==> watchersMap == old(watchersMap)
      ensures filePath !in old(watchersMap) ==> fresh(watcher) && watchersMap == old(watchersMap)[filePath := watcher]
      ensures filePath !in old(watchersMap) ==>
        (watcher.started <==> forall p :: p in chain ==> p in old(statics.counts) || p !in failing)
    {
      hide Valid;
      if filePath in watchersMap {
        watcher := watchersMap[filePath];
      } else {
        watcher := Insert(filePath, chain, failing);
      }
    }

    method Insert(filePath: Path, chain: seq<Path>, failing: set<Path>) returns (watcher: FileWatcher)
      requires Valid() && filePath !in watchersMap
      modifies this`watchersMap, statics, statics.system, statics.system.kernel
      ensures Valid()
      ensures fresh(watcher) && watchersMap == old(watchersMap)[filePath := watcher]
      ensures watcher.started <==> forall p :: p in chain ==> p in old(statics.counts) || p !in failing
    {
      hide Watcher.Valid, AllOf, NoneTwice, FileWatcher.IsWhole;
      ghost var watchers := Watchers();
      watcher := Create(chain, failing, statics);
      AllWith(watchersMap, dying, filePath, watcher);
      watchersMap := watchersMap[filePath := watcher];
      assert Watchers() == watchers + {watcher};
      forall p
        ensures Tally(statics.counts, p) == |Holders(Watchers(), p)|
      {
        assert Holders(watchers, p) == old(Holders(watchers, p));
        HoldersWith(watchers, watcher, p);
      }
      forall w | w in Watchers()
        ensures w.IsWhole()
      {
        if w != watcher {
          assert w in watchers && w in old(Watchers());
        }
      }
    }

    /** `remove`: the watcher is forgotten, and deleted later. */
    method Remove(filePath: Path)
      requires Valid()
      modifies this
      ensures Valid() && Watchers() == old(Watchers())
      ensures watchersMap == old(watchersMap) - {filePath}
      ensures dying == if filePath in old(watchersMap) then old(dying) + [old(watchersMap)[filePath]] else old(dying)
    {
      if filePath in watchersMap {
        AllMoved(watchersMap, dying, filePath);
        var watcher := watchersMap[filePath];
        watchersMap := watchersMap - {filePath};
        dying := dying + [watcher];
      }
    }

    /** `removeAll`: every watcher is to be deleted later. */
    method RemoveAll()
      requires Valid()
      modifies this
      ensures Valid() && Watchers() == old(Watchers()) && watchersMap == map[]
      ensures old(dying) <= dying
    {
      hide Valid;
      while watchersMap.Keys != {}
        invariant Valid() && Watchers() == old(Watchers())
        invariant old(dying) <= dying
        decreases watchersMap.Keys
      {
        var k :| k in watchersMap.Keys;
        Remove(k);
      }
    }

    /** The deferred deletion of one watcher: its destructor stops it. */
    method DeleteOne()
      requires Valid() && dying != []
      modifies this`dying, statics, statics.system, statics.system.kernel, dying[0]
      ensures Valid() && dying == old(dying)[1..] && watchersMap == old(watchersMap)
      ensures Watchers() == old(Watchers()) - {old(dying)[0]}
    {
      hide Watcher.Valid, Statics.Valid, AllOf, NoneTwice, IsCounting;
      var watcher := dying[0];
      AllButFirst(watchersMap, dying);
      ghost var watchers := Watchers();
      forall p | watcher.started && p in watcher.chain
        ensures p in statics.counts
      {
        assert watcher in Holders(watchers, p);
        CountsAre(statics);
      }
      Destroy(watcher, statics);
      dying := dying[1..];
      assert Watchers() == watchers - {watcher};
      hide Holders, FileWatcher.IsWhole;
      forall p
        ensures Tally(statics.counts, p) == |Holders(Watchers(), p)|
      {
        HoldersAfter(Deletion(watchers, watcher, p));
      }
      WholeAfter(Deletion(watchers, watcher, []));
      assert IsOwn() && IsCounted();
    }
  }

  /** After any calls: a path is watched just while a started watcher's chain holds it, and so is its inode. */
  lemma WatchedIffHeld(m: Manager, path: Path)
    requires m.Valid()
    ensures path in m.statics.system.pathToID <==> exists w :: w in m.Watchers() && w.started && path in w.chain
    ensures var disk := m.statics.system.disk;
      disk.inode(path) in m.statics.system.kernel.watches <==>
      exists p :: p in m.statics.system.pathToID && disk.inode(p) == disk.inode(path)
  {
    var holders := Holders(m.Watchers(), path);
    assert Tally(m.statics.counts, path) == |holders|;
    if holders == {} {
      forall w | w in m.Watchers()
        ensures !(w.started && path in w.chain)
      {
        assert w !in holders;
      }
    } else {
      var w :| w in holders;
    }
  }

  /** Once all watchers are deleted nothing is watched any more. */
  lemma NothingIsLeft(m: Manager)
    requires m.Valid() && m.Watchers() == {}
    ensures m.statics.counts == map[] && m.statics.system.pathToID == map[] && m.statics.system.kernel.watches == map[]
  {
    forall p
      ensures p !in m.statics.system.pathToID
    {
      WatchedIffHeld(m, p);
    }
  }

  // ---- Starting again after a failure ----

  /** A path and the directories above it, one after the other; `up` gives the directory right above. */
  ghost predicate Climbs(up: Path -> Option<Path>, chain: seq<Path>) {
    && chain != [] && up(chain[|chain| - 1]).None?
    && forall i :: 0 <= i < |chain| - 1 ==> up(chain[i]) == Some(chain[i + 1])
  }

  lemma ClimbsFrom(up: Path -> Option<Path>, chain: seq<Path>, i: nat)
    requires Climbs(up, chain) && i < |chain|
    ensures Climbs(up, chain[i..])
  {
    var rest := chain[i..];
    assert forall j :: 0 <= j < |rest| ==> rest[j] == chain[i + j];
  }

  lemma ClimbEnds(up: Path -> Option<Path>, chain: seq<Path>)
    requires Climbs(up, chain)
    ensures |chain| == 1 <==> up(chain[0]).None?
  {
    if |chain| > 1 {
      assert up(chain[0]) == Some(chain[0 + 1]);
    }
  }

  lemma {:induction false} ClimbsAlike(up: Path -> Option<Path>, a: seq<Path>, b: seq<Path>)
    requires Climbs(up, a) && Climbs(up, b) && a[0] == b[0]
    ensures a == b
  {
    if |a| == 1 || |b| == 1 {
      ClimbEnds(up, a);
      ClimbEnds(up, b);
    } else {
      ClimbsFrom(up, a, 1);
      ClimbsFrom(up, b, 1);
      ClimbsAlike(up, a[1..], b[1..]);
      assert a == [a[0]] + a[1..] && b == [b[0]] + b[1..];
    }
  }

  lemma ClimbsOnce(up: Path -> Option<Path>, chain: seq<Path>)
    requires Climbs(up, chain)
    ensures NoneTwice(chain)
  {
    forall i, j | 0 <= i < j < |chain|
      ensures chain[i] != chain[j]
    {
      if chain[i] == chain[j] {
        ClimbsFrom(up, chain, i);
        ClimbsFrom(up, chain, j);
        ClimbsAlike(up, chain[i..], chain[j..]);
      }
    }
  }

  /** With a path, a watcher holds all paths above it. */
  lemma HeldFromThere(up: Path -> Option<Path>, held: seq<Path>, chain: seq<Path>, i: nat, j: nat)
    requires Climbs(up, held) && Climbs(up, chain) && i < j < |chain| && chain[i] in held
    ensures chain[j] in held
  {
    var k :| 0 <= k < |held| && held[k] == chain[i];
    ClimbsFrom(up, held, k);
    ClimbsFrom(up, chain, i);
    ClimbsAlike(up, held[k..], chain[i..]);
    assert chain[j] == chain[i..][j - i] == held[k..][j - i];
  }

  lemma CountsAreClosed(m: Manager, up: Path -> Option<Path>, chain: seq<Path>)
    requires m.Valid() && Climbs(up, chain) && forall w :: w in m.Watchers() ==> Climbs(up, w.chain)
    ensures IsClosed(m.statics.counts, chain)
  {
    hide Climbs;
    forall i, j | 0 <= i < j < |chain| && chain[i] in m.statics.counts
      ensures chain[j] in m.statics.counts
    {
      var holders := Holders(m.Watchers(), chain[i]);
      assert Tally(m.statics.counts, chain[i]) == |holders|;
      var w :| w in holders;
      HeldFromThere(up, w.chain, chain, i, j);
      assert w in Holders(m.Watchers(), chain[j]);
      assert Tally(m.statics.counts, chain[j]) == |Holders(m.Watchers(), chain[j])|;
    }
  }

  /** In every state that the manager's calls lead to, a watcher whose first start fails is started right later. */
  lemma FailureIsRetriedRight(m: Manager, up: Path -> Option<Path>, chain: seq<Path>, failing: set<Path>)
    requires m.Valid() && Climbs(up, chain) && forall w :: w in m.Watchers() ==> Climbs(up, w.chain)
    requires Fails(m.statics.counts, chain, failing)
    ensures RetriesRight(m.statics.counts, chain, failing)
  {
    hide Climbs, IsClosed;
    ClimbsOnce(up, chain);
    CountsAreClosed(m, up, chain);
    ClosedRetryCountsRight(m.statics.counts, chain, failing);
  }
}
