/**
 * The system watcher: watched paths and kernel watch ids, kept in two maps that are each other's inverse, over the
 * kernel's own table of watches. Several paths may name one inode and then share its watch.
 */
module FileSystemWatcher {

  type Path = string

  type Inode(==)

  // ---- Lists of paths ----

  predicate NoneTwice(paths: seq<Path>) {
    forall i, j :: 0 <= i < j < |paths| ==> paths[i] != paths[j]
  }

  function Without(paths: seq<Path>, path: Path): (r: seq<Path>)
    ensures forall p :: p in r <==> p in paths && p != path
  {
    if paths == [] then []
    else if paths[0] == path then Without(paths[1..], path)
    else [paths[0]] + Without(paths[1..], path)
  }

  lemma {:induction false} WithoutKeepsNoneTwice(paths: seq<Path>, path: Path)
    requires NoneTwice(paths)
    ensures NoneTwice(Without(paths, path))
  {
    if paths != [] {
      WithoutKeepsNoneTwice(paths[1..], path);
      if paths[0] != path {
        var rest := Without(paths[1..], path);
        assert paths[0] !in paths[1..];
        assert Without(paths, path) == [paths[0]] + rest;
      }
    }
  }

  // ---- The kernel ----

  /** inotify: one watch for an inode, its number never used again. */
  class Kernel {
    var watches: map<Inode, int>
    var last: int

    ghost predicate Valid()
      reads this
    {
      last >= 0 && IsNumbered(watches) && forall i :: i in watches ==> watches[i] <= last
    }

    constructor ()
      ensures Valid() && watches == map[]
    {
      watches, last := map[], 0;
    }

    /** `inotify_add_watch`. */
    method AddWatch(inode: Inode) returns (wd: int)
      requires Valid()
      modifies this
      ensures Valid() && wd > 0 && watches == old(watches)[inode := wd]
      ensures inode in old(watches) ==> wd == old(watches)[inode]
    {
      if inode in watches {
        wd := watches[inode];
      } else {
        last := last + 1;
        wd := last;
        watches := watches[inode := wd];
      }
    }

    /** `inotify_rm_watch`: a number that is no watch's is an error that changes nothing. */
    method RemoveWatch(wd: int)
      requires Valid()
      modifies this
      ensures Valid() && watches == WithoutWatch(old(watches), wd)
    {
      watches := WithoutWatch(watches, wd);
    }
  }

  // ---- The maps ----

  type Ids = map<Path, int>
  type Paths = map<int, seq<Path>>

  function PathsOf(idToPath: Paths, id: int): seq<Path> {
    if id in idToPath then idToPath[id] else []
  }

  ghost predicate IsInverse(pathToID: Ids, idToPath: Paths) {
    && (forall id :: id in idToPath ==> idToPath[id] != [] && NoneTwice(idToPath[id]))
    && (forall id, p :: p in PathsOf(idToPath, id) <==> p in pathToID && pathToID[p] == id)
  }

  /** `list` holds the paths of one sign: files have positive numbers, directories negative ones. */
  ghost predicate IsListed(pathToID: Ids, list: seq<Path>, sign: int) {
    && NoneTwice(list)
    && (forall p :: p in list <==> p in pathToID && pathToID[p] * sign > 0)
  }

  function Signed(dir: bool, wd: int): int {
    if dir then -wd else wd
  }

  /** What the file system says of paths, taken to stay the same. */
  datatype Disk = Disk(inode: Path -> Inode, isDir: Inode -> bool)

  ghost predicate HasWatches(pathToID: Ids, watches: map<Inode, int>, disk: Disk) {
    forall p :: p in pathToID ==>
      && disk.inode(p) in watches
      && pathToID[p] == Signed(disk.isDir(disk.inode(p)), watches[disk.inode(p)])
  }

  /** No watch outlives the last path of its inode. */
  ghost predicate NoneIsLeft(pathToID: Ids, watches: map<Inode, int>, disk: Disk) {
    forall i :: i in watches ==> exists p :: p in pathToID && disk.inode(p) == i
  }

  ghost predicate IsNumbered(watches: map<Inode, int>) {
    && (forall i :: i in watches ==> 0 < watches[i])
    && (forall i, j :: i in watches && j in watches && watches[i] == watches[j] ==> i == j)
  }

  lemma InverseWith(pathToID: Ids, idToPath: Paths, path: Path, id: int)
    requires IsInverse(pathToID, idToPath) && path !in pathToID
    ensures IsInverse(pathToID[path := id], idToPath[id := PathsOf(idToPath, id) + [path]])
  {
    var before := PathsOf(idToPath, id);
    var ids, paths := pathToID[path := id], idToPath[id := before + [path]];
    assert path !in before && NoneTwice(before + [path]);
    forall k, p
      ensures p in PathsOf(paths, k) <==> p in ids && ids[p] == k
    {
      assert p in PathsOf(idToPath, k) <==> p in pathToID && pathToID[p] == k;
    }
  }

  lemma InverseWithout(pathToID: Ids, idToPath: Paths, path: Path, id: int)
    requires IsInverse(pathToID, idToPath) && path in pathToID && pathToID[path] == id
    ensures id in idToPath
    ensures var others := Without(idToPath[id], path);
      IsInverse(pathToID - {path}, if others == [] then idToPath - {id} else idToPath[id := others])
  {
    assert path in PathsOf(idToPath, id);
    var others := Without(idToPath[id], path);
    WithoutKeepsNoneTwice(idToPath[id], path);
    var ids, paths := pathToID - {path}, if others == [] then idToPath - {id} else idToPath[id := others];
    forall k, p
      ensures p in PathsOf(paths, k) <==> p in ids && ids[p] == k
    {
      assert p in PathsOf(idToPath, k) <==> p in pathToID && pathToID[p] == k;
      assert k == id ==> (p in PathsOf(paths, k) <==> p in others);
    }
  }

  lemma ListedWith(pathToID: Ids, list: seq<Path>, sign: int, path: Path, id: int)
    requires IsListed(pathToID, list, sign) && path !in pathToID
    ensures IsListed(pathToID[path := id], if id * sign > 0 then list + [path] else list, sign)
  {
    if id * sign > 0 {
      assert path !in list;
      assert NoneTwice(list + [path]);
    }
  }

  lemma ListedWithout(pathToID: Ids, list: seq<Path>, sign: int, path: Path)
    requires IsListed(pathToID, list, sign)
    ensures IsListed(pathToID - {path}, Without(list, path), sign)
    ensures path in pathToID && pathToID[path] * sign <= 0 ==> IsListed(pathToID - {path}, list, sign)
  {
    WithoutKeepsNoneTwice(list, path);
  }

  lemma WatchesWith(pathToID: Ids, watches: map<Inode, int>, disk: Disk, path: Path, wd: int)
    requires HasWatches(pathToID, watches, disk) && NoneIsLeft(pathToID, watches, disk)
    requires path !in pathToID && (disk.inode(path) in watches ==> watches[disk.inode(path)] == wd)
    ensures var ids, all := pathToID[path := Signed(disk.isDir(disk.inode(path)), wd)], watches[disk.inode(path) := wd];
      HasWatches(ids, all, disk) && NoneIsLeft(ids, all, disk)
  {
    var ids, all := pathToID[path := Signed(disk.isDir(disk.inode(path)), wd)], watches[disk.inode(path) := wd];
    forall i | i in all
      ensures exists p :: p in ids && disk.inode(p) == i
    {
      if i == disk.inode(path) {
        assert path in ids;
      } else {
        var p :| p in pathToID && disk.inode(p) == i;
        assert p in ids;
      }
    }
  }

  /** Looking in the list of its kind is enough to find a path. */
  lemma ListedIffWatched(pathToID: Ids, watches: map<Inode, int>, disk: Disk, list: seq<Path>, path: Path)
    requires HasWatches(pathToID, watches, disk) && IsNumbered(watches)
    requires IsListed(pathToID, list, if disk.isDir(disk.inode(path)) then -1 else 1)
    ensures path in list <==> path in pathToID
  {
  }

  lemma WatchesWithoutLast(pathToID: Ids, watches: map<Inode, int>, disk: Disk, path: Path)
    requires HasWatches(pathToID, watches, disk) && NoneIsLeft(pathToID, watches, disk) && IsNumbered(watches)
    requires path in pathToID && forall p :: p in pathToID && p != path ==> disk.inode(p) != disk.inode(path)
    ensures var left := WithoutWatch(watches, watches[disk.inode(path)]);
      HasWatches(pathToID - {path}, left, disk) && NoneIsLeft(pathToID - {path}, left, disk)
  {
    var left := WithoutWatch(watches, watches[disk.inode(path)]);
    forall i | i in left
      ensures exists p :: p in pathToID - {path} && disk.inode(p) == i
    {
      var p :| p in pathToID && disk.inode(p) == i;
      assert p in pathToID - {path};
    }
  }

  lemma WatchesWithoutOther(pathToID: Ids, watches: map<Inode, int>, disk: Disk, path: Path, other: Path)
    requires HasWatches(pathToID, watches, disk) && NoneIsLeft(pathToID, watches, disk)
    requires other in pathToID && other != path && disk.inode(other) == disk.inode(path)
    ensures HasWatches(pathToID - {path}, watches, disk) && NoneIsLeft(pathToID - {path}, watches, disk)
  {
    forall i | i in watches
      ensures exists p :: p in pathToID - {path} && disk.inode(p) == i
    {
      var p :| p in pathToID && disk.inode(p) == i;
      if p == path {
        assert other in pathToID - {path};
      } else {
        assert p in pathToID - {path};
      }
    }
  }

  lemma LastOfItsInode(pathToID: Ids, idToPath: Paths, watches: map<Inode, int>, disk: Disk, path: Path, p: Path)
    requires IsInverse(pathToID, idToPath) && HasWatches(pathToID, watches, disk)
    requires path in pathToID && Without(PathsOf(idToPath, pathToID[path]), path) == []
    requires p in pathToID && p != path
    ensures disk.inode(p) != disk.inode(path)
  {
    var id := pathToID[path];
    assert p !in Without(PathsOf(idToPath, id), path);
    assert p !in PathsOf(idToPath, id);
    assert pathToID[p] != id;
  }

  lemma OtherOfItsNumber(pathToID: Ids, idToPath: Paths, id: int, path: Path) returns (q: Path)
    requires IsInverse(pathToID, idToPath) && Without(PathsOf(idToPath, id), path) != []
    ensures q in pathToID && q != path && pathToID[q] == id
  {
    q := Without(PathsOf(idToPath, id), path)[0];
    assert q in Without(PathsOf(idToPath, id), path);
    assert q in PathsOf(idToPath, id);
  }

  /** Removing the last path of a number is removing the last path of its inode. */
  lemma WatchesWithout(pathToID: Ids, idToPath: Paths, watches: map<Inode, int>, disk: Disk, path: Path)
    requires IsInverse(pathToID, idToPath) && HasWatches(pathToID, watches, disk) && NoneIsLeft(pathToID, watches, disk)
    requires IsNumbered(watches) && path in pathToID
    ensures var left := if Without(PathsOf(idToPath, pathToID[path]), path) == []
                        then WithoutWatch(watches, watches[disk.inode(path)]) else watches;
      HasWatches(pathToID - {path}, left, disk) && NoneIsLeft(pathToID - {path}, left, disk)
  {
    hide IsInverse, NoneIsLeft, WithoutWatch, Without, PathsOf, IsNumbered;
    var id := pathToID[path];
    if Without(PathsOf(idToPath, id), path) == [] {
      forall p | p in pathToID && p != path
        ensures disk.inode(p) != disk.inode(path)
      {
        LastOfItsInode(pathToID, idToPath, watches, disk, path, p);
      }
      hide HasWatches;
      WatchesWithoutLast(pathToID, watches, disk, path);
    } else {
      hide HasWatches;
      var q := OtherOfItsNumber(pathToID, idToPath, id, path);
      SameNumberSameInode(pathToID, watches, disk, path, q);
      WatchesWithoutOther(pathToID, watches, disk, path, q);
    }
  }

  lemma NumberOfWatch(pathToID: Ids, watches: map<Inode, int>, disk: Disk, path: Path)
    requires HasWatches(pathToID, watches, disk) && IsNumbered(watches) && path in pathToID
    ensures disk.inode(path) in watches
    ensures watches[disk.inode(path)] == if pathToID[path] < 0 then -pathToID[path] else pathToID[path]
  {
  }

  lemma SameNumberSameInode(pathToID: Ids, watches: map<Inode, int>, disk: Disk, p: Path, q: Path)
    requires HasWatches(pathToID, watches, disk) && IsNumbered(watches)
    requires p in pathToID && q in pathToID && pathToID[p] == pathToID[q]
    ensures disk.inode(p) == disk.inode(q)
  {
    assert watches[disk.inode(p)] == watches[disk.inode(q)];
  }

  function WithoutWatch(watches: map<Inode, int>, wd: int): map<Inode, int> {
    map i | i in watches && watches[i] != wd :: watches[i]
  }

  // ---- The watcher ----

  class Watcher {
    const disk: Disk
    const kernel: Kernel
    var pathToID: Ids
    var idToPath: Paths
    var files: seq<Path>
    var directories: seq<Path>

    /** The two maps are inverse, and a kernel watch lives just as long as some path of its inode is watched. */
    ghost predicate Valid()
      reads this, kernel
    {
      && kernel.Valid()
      && IsInverse(pathToID, idToPath)
      && IsListed(pathToID, files, 1) && IsListed(pathToID, directories, -1)
      && HasWatches(pathToID, kernel.watches, disk)
      && NoneIsLeft(pathToID, kernel.watches, disk)
    }

    constructor (disk: Disk)
      ensures Valid() && pathToID == map[] && fresh(kernel) && this.disk == disk
    {
      this.disk := disk;
      kernel := new Kernel();
      pathToID, idToPath, files, directories := map[], map[], [], [];
    }

    /** `addPaths` of the private class; `failing` are the paths the kernel refuses. */
    method AddPaths(paths: seq<Path>, failing: set<Path>) returns (rejected: seq<Path>)
      requires Valid()
      modifies this, kernel
      ensures Valid()
      ensures pathToID.Keys == old(pathToID.Keys) + Accepted(paths, failing)
      ensures forall p :: p in old(pathToID) ==> pathToID[p] == old(pathToID[p])
      ensures rejected == Rejected(paths, old(pathToID.Keys), failing)
    {
      hide IsInverse, IsListed, HasWatches, NoneIsLeft;
      rejected := [];
      for i := 0 to |paths|
        invariant Valid()
        invariant pathToID.Keys == old(pathToID.Keys) + Accepted(paths[..i], failing)
        invariant forall p :: p in old(pathToID) ==> pathToID[p] == old(pathToID[p])
        invariant rejected + Rejected(paths[i..], pathToID.Keys, failing)
               == Rejected(paths, old(pathToID.Keys), failing)
      {
        var path := paths[i];
        ghost var before := pathToID.Keys;
        var ok := AddOne(path, failing);
        assert pathToID.Keys == if ok then before + {path} else before;
        if !ok {
          rejected := rejected + [path];
        }
        assert paths[..i + 1] == paths[..i] + [path];
        assert paths[i..][0] == path && paths[i..][1..] == paths[i + 1..];
      }
      assert paths[..|paths|] == paths && paths[|paths|..] == [];
    }

    method AddOne(path: Path, failing: set<Path>) returns (ok: bool)
      requires Valid()
      modifies this, kernel
      ensures Valid()
      ensures ok <==> path !in old(pathToID) && path !in failing
      ensures pathToID.Keys == old(pathToID.Keys) + if ok then {path} else {}
      ensures forall p :: p in old(pathToID) ==> pathToID[p] == old(pathToID[p])
    {
      hide IsInverse, NoneTwice, IsListed, HasWatches, NoneIsLeft;
      var isDir := disk.isDir(disk.inode(path));
      ListedIffWatched(pathToID, kernel.watches, disk, if isDir then directories else files, path);
      if (if isDir then path in directories else path in files) {
        return false;
      }
      if path in failing {
        return false;
      }
      ghost var watches := kernel.watches;
      var wd := kernel.AddWatch(disk.inode(path));
      var id := if isDir then -wd else wd;
      WatchesWith(pathToID, watches, disk, path, wd);
      ListedWith(pathToID, files, 1, path, id);
      ListedWith(pathToID, directories, -1, path, id);
      InverseWith(pathToID, idToPath, path, id);
      if id < 0 {
        directories := directories + [path];
      } else {
        files := files + [path];
      }
      pathToID := pathToID[path := id];
      idToPath := idToPath[id := PathsOf(idToPath, id) + [path]];
      ok := true;
    }

    /** `removePaths` of the private class: nothing is ever left over. */
    method RemovePaths(paths: seq<Path>) returns (left: seq<Path>)
      requires Valid()
      modifies this, kernel
      ensures Valid() && left == []
      ensures pathToID == old(pathToID) - AsSet(paths)
    {
      hide IsInverse, IsListed, HasWatches, NoneIsLeft;
      for i := 0 to |paths|
        invariant Valid()
        invariant pathToID == old(pathToID) - AsSet(paths[..i])
      {
        RemoveOne(paths[i]);
        assert paths[..i + 1] == paths[..i] + [paths[i]];
      }
      assert paths[..|paths|] == paths;
      left := [];
    }

    method RemoveOne(path: Path)
      requires Valid()
      modifies this, kernel
      ensures Valid()
      ensures pathToID == old(pathToID) - {path}
    {
      hide IsInverse, IsListed, NoneIsLeft, HasWatches, WithoutWatch, NoneTwice, Without;
      if path in pathToID {
        InverseWithout(pathToID, idToPath, path, pathToID[path]);
        WatchesWithout(pathToID, idToPath, kernel.watches, disk, path);
        NumberOfWatch(pathToID, kernel.watches, disk, path);
      } else {
        NothingIsRemoved(pathToID, idToPath, kernel.watches, disk, path);
      }
      ListedWithout(pathToID, files, 1, path);
      ListedWithout(pathToID, directories, -1, path);

      var id := if path in pathToID then pathToID[path] else 0;
      pathToID := pathToID - {path};
      if id in idToPath {
        var others := Without(idToPath[id], path);
        idToPath := if others == [] then idToPath - {id} else idToPath[id := others];
      }
      if id !in idToPath {
        kernel.RemoveWatch(if id < 0 then -id else id);
      }
      if id < 0 {
        directories := Without(directories, path);
      } else {
        files := Without(files, path);
      }
    }
  }

  lemma NumberIsNotZero(pathToID: Ids, idToPath: Paths, watches: map<Inode, int>, disk: Disk, id: int)
    requires IsInverse(pathToID, idToPath) && HasWatches(pathToID, watches, disk) && IsNumbered(watches)
    requires id in idToPath
    ensures id != 0
  {
    var p := idToPath[id][0];
    assert p in PathsOf(idToPath, id);
    assert watches[disk.inode(p)] > 0;
  }

  /** Removing a path that is not watched does nothing. */
  lemma NothingIsRemoved(pathToID: Ids, idToPath: Paths, watches: map<Inode, int>, disk: Disk, path: Path)
    requires IsInverse(pathToID, idToPath) && HasWatches(pathToID, watches, disk) && IsNumbered(watches)
    requires path !in pathToID
    ensures 0 !in idToPath && pathToID - {path} == pathToID && WithoutWatch(watches, 0) == watches
  {
    forall id | id in idToPath
      ensures id != 0
    {
      NumberIsNotZero(pathToID, idToPath, watches, disk, id);
    }
  }

  function AsSet(paths: seq<Path>): set<Path> {
    set p | p in paths
  }

  function Accepted(paths: seq<Path>, failing: set<Path>): set<Path> {
    AsSet(paths) - failing
  }

  /** The paths that `addPaths` gives back: watched already, or refused. */
  function Rejected(paths: seq<Path>, watched: set<Path>, failing: set<Path>): seq<Path> {
    if paths == [] then []
    else if paths[0] in watched || paths[0] in failing then [paths[0]] + Rejected(paths[1..], watched, failing)
    else Rejected(paths[1..], watched + {paths[0]}, failing)
  }

  /**
   * A path is given back as often as it was given if it is watched already or cannot be, and otherwise once less: the
   * first time it comes to be watched.
   */
  lemma {:induction false} RejectedSoOften(paths: seq<Path>, watched: set<Path>, failing: set<Path>, p: Path)
    ensures var given := multiset(paths)[p];
      multiset(Rejected(paths, watched, failing))[p]
      == if p in watched || p in failing || given == 0 then given else given - 1
  {
    if paths != [] {
      var first, rest := paths[0], paths[1..];
      assert paths == [first] + rest;
      RejectedSoOften(rest, watched, failing, p);
      RejectedSoOften(rest, watched + {first}, failing, p);
    }
  }
}
