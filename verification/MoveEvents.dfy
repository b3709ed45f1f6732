/**
 * Moves in a batch of file system events. The kernel tells of a move in two halves with one cookie, and each half only
 * where it is watched; two passes over the batch put the halves together. A watched place may have several paths.
 */
module MoveEvents {
  import opened Basics
  import opened FileSystemWatcher

  datatype Kind = From | To | Other(mask: nat)

  datatype Event = Event(wd: int, kind: Kind, cookie: nat, name: string)

  /** A side of a move: a watched path, and the name of what moved below it. */
  datatype Place = Place(path: Path, name: string)

  /** `fileMoved`; a side that was not seen is missing. */
  datatype Moved = Moved(from: Option<Place>, to: Option<Place>)

  /** The paths of a watch number; directories have theirs under the negated number. */
  function PathsAt(watches: Paths, wd: int): seq<Path> {
    if PathsOf(watches, wd) != [] then PathsOf(watches, wd) else PathsOf(watches, -wd)
  }

  predicate IsWatched(e: Event, watches: Paths) {
    PathsAt(watches, e.wd) != []
  }

  // ---- What is to be reported ----

  predicate IsHalf(e: Event, kind: Kind, cookie: int, watches: Paths) {
    e.kind == kind && e.cookie == cookie && IsWatched(e, watches)
  }

  /** The watched half of that kind with that cookie. */
  function Half(events: seq<Event>, kind: Kind, cookie: int, watches: Paths): (r: Option<Event>)
    ensures r.Some? ==> r.value in events && IsHalf(r.value, kind, cookie, watches)
    ensures r.None? ==> forall e :: e in events ==> !IsHalf(e, kind, cookie, watches)
  {
    if events == [] then None
    else if IsHalf(events[0], kind, cookie, watches) then Some(events[0])
    else Half(events[1..], kind, cookie, watches)
  }

  function Places(paths: seq<Path>, name: string): (r: seq<Option<Place>>)
    ensures |r| == |paths| && forall i :: 0 <= i < |paths| ==> r[i] == Some(Place(paths[i], name))
  {
    seq(|paths|, i requires 0 <= i < |paths| => Some(Place(paths[i], name)))
  }

  /** Where a half was seen, once for every path, or the one missing side. */
  function Sides(half: Option<Event>, watches: Paths): seq<Option<Place>> {
    if half.None? then [None] else Places(PathsAt(watches, half.value.wd), half.value.name)
  }

  function Row(from: Option<Place>, tos: seq<Option<Place>>): (r: seq<Moved>)
    ensures |r| == |tos| && forall i :: 0 <= i < |tos| ==> r[i] == Moved(from, tos[i])
  {
    seq(|tos|, i requires 0 <= i < |tos| => Moved(from, tos[i]))
  }

  /** Every side of the one half with every side of the other. */
  function Cross(froms: seq<Option<Place>>, tos: seq<Option<Place>>): seq<Moved> {
    if froms == [] then []
    else Cross(froms[..|froms| - 1], tos) + Row(froms[|froms| - 1], tos)
  }

  /** All there is to say of the move with that cookie. */
  function MovesWith(cookie: nat, events: seq<Event>, watches: Paths): seq<Moved> {
    Cross(Sides(Half(events, From, cookie, watches), watches), Sides(Half(events, To, cookie, watches), watches))
  }

  /** What one event of the batch has to say of moves: the from-half speaks for both, a to-half only if it is alone. */
  function Report(e: Event, all: seq<Event>, watches: Paths): seq<Moved> {
    if !IsWatched(e, watches) || e.kind.Other? then []
    else if e.kind == To && Half(all, From, e.cookie, watches).Some? then []
    else MovesWith(e.cookie, all, watches)
  }

  function Reports(events: seq<Event>, all: seq<Event>, watches: Paths): seq<Moved> {
    if events == [] then []
    else Reports(events[..|events| - 1], all, watches) + Report(events[|events| - 1], all, watches)
  }

  // ---- What the kernel promises ----

  /** No two from-halves and no two to-halves share a cookie, and a from-half comes before its to-half. */
  ghost predicate IsPaired(events: seq<Event>) {
    && (forall i, j :: 0 <= i < j < |events| && events[i].kind == events[j].kind && !events[i].kind.Other? ==>
          events[i].cookie != events[j].cookie)
    && (forall i, j :: 0 <= i < j < |events| && events[i].kind == To && events[j].kind == From ==>
          events[i].cookie != events[j].cookie)
  }

  // ---- Maps that hold several values for a key ----

  function Reversed<T>(s: seq<T>): (r: seq<T>)
    ensures |r| == |s| && forall i :: 0 <= i < |s| ==> r[i] == s[|s| - 1 - i]
  {
    seq(|s|, i requires 0 <= i < |s| => s[|s| - 1 - i])
  }

  /** `values`: the latest comes first. */
  function Values(all: Paths, key: int): seq<Path> {
    Reversed(PathsOf(all, key))
  }

  lemma ReversedTwice<T>(s: seq<T>)
    ensures Reversed(Reversed(s)) == s
  {
  }

  /** `insert`, once for every path. */
  method InsertAll(all: Paths, key: int, paths: seq<Path>) returns (r: Paths)
    ensures r == if paths == [] then all else all[key := PathsOf(all, key) + paths]
  {
    r := all;
    for i := 0 to |paths|
      invariant r == if i == 0 then all else all[key := PathsOf(all, key) + paths[..i]]
    {
      assert PathsOf(all, key) + paths[..i + 1] == PathsOf(all, key) + paths[..i] + [paths[i]];
      assert PathsOf(all, key) + paths[..0] == PathsOf(all, key);
      r := r[key := PathsOf(r, key) + [paths[i]]];
    }
    assert paths[..|paths|] == paths;
  }

  /** The paths of a number, unless they are there already. */
  method InsertNew(all: Paths, key: int, paths: seq<Path>) returns (r: Paths)
    requires paths != [] && (key in all ==> all[key] == paths)
    ensures r == all[key := paths]
  {
    var there := Values(all, key);
    r := all;
    for i := 0 to |paths|
      invariant r == if key in all || i == 0 then all else all[key := paths[..i]]
    {
      assert key in all ==> paths[i] == there[|paths| - 1 - i];
      assert paths[..i + 1] == paths[..i] + [paths[i]];
      if paths[i] !in there {
        r := r[key := PathsOf(r, key) + [paths[i]]];
      }
    }
    assert paths[..|paths|] == paths;
  }

  // ---- The two passes ----

  /** What the first pass collects. */
  datatype Batch = Batch(
    kept: seq<Event>,
    paths: Paths,
    toPath: Paths,
    toName: map<int, string>,
    froms: set<int>)

  /** Moves among the events kept. */
  function MovesOf(events: seq<Event>): seq<Event> {
    if events == [] then []
    else
      var last := events[|events| - 1];
      MovesOf(events[..|events| - 1]) + if last.kind.Other? then [] else [last]
  }

  /** Whether a move is to be kept: if it is watched, and no to-half whose from-half has come. */
  predicate IsToBeKept(before: seq<Event>, e: Event, watches: Paths) {
    && IsWatched(e, watches) && !e.kind.Other?
    && !(e.kind == To && Half(before, From, e.cookie, watches).Some?)
  }

  /** The moves that are to be kept. */
  function KeptMoves(events: seq<Event>, watches: Paths): seq<Event> {
    if events == [] then []
    else
      var before, last := events[..|events| - 1], events[|events| - 1];
      KeptMoves(before, watches) + if IsToBeKept(before, last, watches) then [last] else []
  }

  /** The kept events, with the paths they need in the second pass. */
  ghost predicate KeepsMoves(kept: seq<Event>, paths: Paths, events: seq<Event>, watches: Paths) {
    && MovesOf(kept) == KeptMoves(events, watches)
    && (forall e :: e in kept ==> e in events)
    && HasPaths(kept, paths, watches)
  }

  /** `values` of the batch, in the order in which the paths were watched. */
  function ValuesAt(paths: Paths, wd: int): seq<Path> {
    if Values(paths, wd) != [] then Values(paths, wd) else Values(paths, -wd)
  }

  predicate IsKnown(wd: int, paths: Paths, watches: Paths) {
    PathsAt(watches, wd) != [] && ValuesAt(paths, wd) == PathsAt(watches, wd)
  }

  ghost predicate HasPaths(kept: seq<Event>, paths: Paths, watches: Paths) {
    && (forall id :: id in paths ==> PathsOf(watches, id) != [] && paths[id] == Values(watches, id))
    && (forall e :: e in kept ==> IsKnown(e.wd, paths, watches))
  }

  ghost predicate KnowsHalves(b: Batch, events: seq<Event>, watches: Paths) {
    && (forall c :: c in b.froms <==> Half(events, From, c, watches).Some?)
    && b.toPath.Keys == b.toName.Keys
    && (forall c :: c in b.toPath <==> Half(events, To, c, watches).Some?)
    && (forall c :: c in b.toPath ==>
          var to := Half(events, To, c, watches).value;
          b.toPath[c] == Reversed(PathsAt(watches, to.wd)) && b.toName[c] == to.name)
  }

  ghost predicate Collected(b: Batch, events: seq<Event>, watches: Paths) {
    KeepsMoves(b.kept, b.paths, events, watches) && KnowsHalves(b, events, watches)
  }

  /** A number is that of files or that of a directory, not both. */
  ghost predicate HasOneSign(watches: Paths) {
    forall id, other :: id in watches && other in watches && id == -other ==> id == 0
  }

  /** The watcher's map is like that. */
  lemma WatcherHasOneSign(pathToID: Ids, idToPath: Paths, watches: map<Inode, int>, disk: Disk)
    requires IsInverse(pathToID, idToPath) && HasWatches(pathToID, watches, disk) && IsNumbered(watches)
    ensures HasOneSign(idToPath) && forall id :: id in idToPath ==> NoneTwice(idToPath[id])
  {
    forall id, other | id in idToPath && other in idToPath
      ensures id + other != 0
    {
      var p, q := idToPath[id][0], idToPath[other][0];
      assert p in PathsOf(idToPath, id) && q in PathsOf(idToPath, other);
      if disk.inode(p) != disk.inode(q) {
        assert watches[disk.inode(p)] != watches[disk.inode(q)];
      }
    }
  }

  /** The next event is the first of its kind with its cookie, and no from-half comes after its to-half. */
  ghost predicate IsNext(events: seq<Event>, e: Event) {
    forall d :: d in events && d.cookie == e.cookie && !e.kind.Other? ==>
      d.kind != e.kind && !(d.kind == To && e.kind == From)
  }

  lemma NextOfPaired(events: seq<Event>, i: nat)
    requires IsPaired(events) && i < |events|
    ensures IsNext(events[..i], events[i]) && events[..i + 1] == events[..i] + [events[i]]
  {
  }

  lemma {:induction false} HalfWith(events: seq<Event>, e: Event, kind: Kind, c: int, watches: Paths)
    ensures Half(events + [e], kind, c, watches)
         == if Half(events, kind, c, watches).Some? then Half(events, kind, c, watches)
            else if IsHalf(e, kind, c, watches) then Some(e) else None
  {
    if events == [] {
      assert [] + [e] == [e];
    } else {
      assert (events + [e])[1..] == events[1..] + [e];
      HalfWith(events[1..], e, kind, c, watches);
    }
  }

  lemma UnwatchedIsSkipped(b: Batch, events: seq<Event>, e: Event, watches: Paths)
    requires Collected(b, events, watches) && !IsWatched(e, watches)
    ensures Collected(b, events + [e], watches)
  {
    var more := events + [e];
    assert more[..|more| - 1] == events && more[|more| - 1] == e;
    forall c, kind
      ensures Half(more, kind, c, watches) == Half(events, kind, c, watches)
    {
      HalfWith(events, e, kind, c, watches);
    }
  }

  /** Where the paths of a number are found: its own, or those of a directory. */
  predicate IsItsKey(id: int, wd: int, watches: Paths) {
    PathsOf(watches, id) != [] && (id == wd || (id == -wd && PathsOf(watches, wd) == []))
  }

  lemma KeyIsKnown(paths: Paths, watches: Paths, id: int, wd: int)
    requires HasOneSign(watches) && IsItsKey(id, wd, watches)
    requires forall k :: k in paths ==> PathsOf(watches, k) != [] && paths[k] == Values(watches, k)
    ensures IsKnown(wd, paths[id := Values(watches, id)], watches)
  {
    ReversedTwice(PathsOf(watches, id));
    assert wd != id ==> wd !in paths;
  }

  /** A path known for a number stays known. */
  lemma PathStays(paths: Paths, watches: Paths, id: int, wd: int)
    requires HasOneSign(watches) && PathsOf(watches, id) != [] && IsKnown(wd, paths, watches)
    requires forall k :: k in paths ==> PathsOf(watches, k) != [] && paths[k] == Values(watches, k)
    ensures IsKnown(wd, paths[id := Values(watches, id)], watches)
  {
    var now := paths[id := Values(watches, id)];
    if id == wd || id == -wd {
      assert PathsOf(watches, id) == PathsAt(watches, wd);
      KeyIsKnown(paths, watches, id, wd);
    } else {
      assert Values(now, wd) == Values(paths, wd) && Values(now, -wd) == Values(paths, -wd);
    }
  }

  lemma OneMoveIsKept(kept: seq<Event>, events: seq<Event>, e: Event, watches: Paths)
    requires MovesOf(kept) == KeptMoves(events, watches) && forall d :: d in kept ==> d in events
    requires IsNext(events, e) && IsWatched(e, watches)
    requires e.kind == To ==> Half(events, From, e.cookie, watches).None?
    ensures MovesOf(if e in kept then kept else kept + [e]) == KeptMoves(events + [e], watches)
  {
    var more, now := events + [e], kept + [e];
    assert more[..|more| - 1] == events && more[|more| - 1] == e;
    if e in kept {
      assert e.kind.Other?;
    } else {
      assert now[..|now| - 1] == kept && now[|now| - 1] == e;
    }
  }

  lemma OneMorePath(kept: seq<Event>, paths: Paths, e: Event, id: int, watches: Paths)
    requires HasPaths(kept, paths, watches) && HasOneSign(watches) && IsItsKey(id, e.wd, watches)
    ensures HasPaths(if e in kept then kept else kept + [e], paths[id := Values(watches, id)], watches)
  {
    hide HasOneSign, IsKnown, Values;
    forall d | d in kept
      ensures IsKnown(d.wd, paths[id := Values(watches, id)], watches)
    {
      PathStays(paths, watches, id, d.wd);
    }
    KeyIsKnown(paths, watches, id, e.wd);
  }

  lemma OneIsKept(kept: seq<Event>, paths: Paths, events: seq<Event>, e: Event, id: int, watches: Paths)
    requires KeepsMoves(kept, paths, events, watches) && HasOneSign(watches) && IsNext(events, e)
    requires IsItsKey(id, e.wd, watches) && IsWatched(e, watches)
    requires e.kind == To ==> Half(events, From, e.cookie, watches).None?
    ensures KeepsMoves(if e in kept then kept else kept + [e], paths[id := Values(watches, id)], events + [e], watches)
  {
    OneMoveIsKept(kept, events, e, watches);
    hide IsNext, MovesOf, KeptMoves, Half, HasPaths, HasOneSign, IsItsKey, Values;
    OneMorePath(kept, paths, e, id, watches);
  }

  lemma OneIsDropped(kept: seq<Event>, paths: Paths, events: seq<Event>, e: Event, watches: Paths)
    requires KeepsMoves(kept, paths, events, watches)
    requires e.kind == To && Half(events, From, e.cookie, watches).Some?
    ensures KeepsMoves(kept, paths, events + [e], watches)
  {
    var more := events + [e];
    assert more[..|more| - 1] == events && more[|more| - 1] == e;
  }

  /** The halves known after a watched event. */
  lemma OneMoreHalf(b: Batch, events: seq<Event>, e: Event, after: Batch, watches: Paths)
    requires KnowsHalves(b, events, watches) && IsNext(events, e) && IsWatched(e, watches)
    requires after.froms == if e.kind == From then b.froms + {e.cookie} else b.froms
    requires after.toPath
          == if e.kind == To then b.toPath[e.cookie := Reversed(PathsAt(watches, e.wd))] else b.toPath
    requires after.toName == if e.kind == To then b.toName[e.cookie := e.name] else b.toName
    ensures KnowsHalves(after, events + [e], watches)
  {
    hide Half, PathsAt, Reversed;
    forall c
      ensures c in after.froms <==> Half(events + [e], From, c, watches).Some?
    {
      HalfWith(events, e, From, c, watches);
    }
    forall c
      ensures c in after.toPath <==> Half(events + [e], To, c, watches).Some?
      ensures c in after.toPath ==>
                var to := Half(events + [e], To, c, watches).value;
                after.toPath[c] == Reversed(PathsAt(watches, to.wd)) && after.toName[c] == to.name
    {
      HalfWith(events, e, To, c, watches);
    }
  }

  /** The first pass. */
  method Collect(events: seq<Event>, watches: Paths) returns (b: Batch)
    requires HasOneSign(watches) && IsPaired(events)
    ensures Collected(b, events, watches)
  {
    hide KeepsMoves, KnowsHalves, HasOneSign, IsPaired, IsNext, Half, Reversed;
    b := Batch([], map[], map[], map[], {});
    NothingCollected(watches);
    for i := 0 to |events|
      invariant Collected(b, events[..i], watches)
    {
      var event := events[i];
      NextOfPaired(events, i);
      var id := event.wd;
      var paths := Values(watches, id);
      if paths == [] {
        id := -id;
        paths := Values(watches, id);
        if paths == [] {
          UnwatchedIsSkipped(b, events[..i], event, watches);
          continue;
        }
      }
      assert IsItsKey(id, event.wd, watches) && paths == Reversed(PathsAt(watches, event.wd));
      ghost var before := b;
      HalvesKnown(b, events[..i], event, watches);
      if event.kind != To || event.cookie !in b.froms {
        OneIsKept(b.kept, b.paths, events[..i], event, id, watches);
        if event !in b.kept {
          b := b.(kept := b.kept + [event]);
        }
        SamePaths(before.kept, b.paths, events[..i], watches, id);
        var known := InsertNew(b.paths, id, paths);
        b := b.(paths := known);
      } else {
        OneIsDropped(b.kept, b.paths, events[..i], event, watches);
      }
      if event.kind == To {
        assert PathsOf(b.toPath, event.cookie) + paths == paths;
        var toPath := InsertAll(b.toPath, event.cookie, paths);
        b := b.(toPath := toPath, toName := b.toName[event.cookie := event.name]);
      }
      if event.kind == From {
        b := b.(froms := b.froms + {event.cookie});
      }
      OneMoreHalf(before, events[..i], event, b, watches);
    }
    assert events[..|events|] == events;
  }

  lemma NothingCollected(watches: Paths)
    ensures Collected(Batch([], map[], map[], map[], {}), [], watches)
  {
  }

  lemma SamePaths(kept: seq<Event>, paths: Paths, events: seq<Event>, watches: Paths, id: int)
    requires KeepsMoves(kept, paths, events, watches)
    ensures id in paths ==> paths[id] == Values(watches, id)
  {
  }

  lemma HalvesKnown(b: Batch, events: seq<Event>, e: Event, watches: Paths)
    requires KnowsHalves(b, events, watches) && IsNext(events, e)
    ensures e.cookie in b.froms <==> Half(events, From, e.cookie, watches).Some?
    ensures e.kind == To ==> e.cookie !in b.toPath
    ensures b.toPath.Keys == b.toName.Keys
  {
  }

  // ---- The second pass ----

  /** The sides that a from-half is reported with. */
  function TosOf(cookie: nat, b: Batch): seq<Option<Place>> {
    if Values(b.toPath, cookie) == [] then [None]
    else Places(Values(b.toPath, cookie), if cookie in b.toName then b.toName[cookie] else [])
  }

  /** What the second pass reports of one event, seen at those paths. */
  function Emitted(e: Event, paths: seq<Path>, b: Batch): seq<Moved> {
    match e.kind
    case Other(_) => []
    case From => Cross(Places(paths, e.name), TosOf(e.cookie, b))
    case To => if e.cookie in b.froms then [] else Row(None, Places(paths, e.name))
  }

  function EmittedAll(events: seq<Event>, b: Batch): seq<Moved> {
    if events == [] then []
    else
      var last := events[|events| - 1];
      EmittedAll(events[..|events| - 1], b) + Emitted(last, ValuesAt(b.paths, last.wd), b)
  }

  /** What it reports at one path. */
  function EmittedAt(e: Event, path: Path, b: Batch): seq<Moved> {
    var place := Some(Place(path, e.name));
    match e.kind
    case Other(_) => []
    case From => Row(place, TosOf(e.cookie, b))
    case To => if e.cookie in b.froms then [] else [Moved(None, place)]
  }

  lemma EmittedAtOneMore(e: Event, paths: seq<Path>, path: Path, b: Batch)
    ensures Emitted(e, paths + [path], b) == Emitted(e, paths, b) + EmittedAt(e, path, b)
  {
    var more, places := Places(paths + [path], e.name), Places(paths, e.name);
    assert more == places + [Some(Place(path, e.name))];
    assert more[..|more| - 1] == places;
    assert Row(None, more) == Row(None, places) + [Moved(None, Some(Place(path, e.name)))];
  }

  method EmitAt(event: Event, path: Path, b: Batch) returns (emitted: seq<Moved>)
    ensures emitted == EmittedAt(event, path, b)
  {
    emitted := [];
    var place := Some(Place(path, event.name));
    if event.kind == From {
      var toName := if event.cookie in b.toName then b.toName[event.cookie] else [];
      var toPaths := Values(b.toPath, event.cookie);
      if toPaths == [] {
        emitted := [Moved(place, None)];
      } else {
        for j := 0 to |toPaths|
          invariant emitted == Row(place, TosOf(event.cookie, b))[..j]
        {
          emitted := emitted + [Moved(place, Some(Place(toPaths[j], toName)))];
        }
      }
    }
    if event.kind == To && event.cookie !in b.froms {
      emitted := [Moved(None, place)];
    }
  }

  /** The reports of one event. */
  method Emit(event: Event, b: Batch) returns (emitted: seq<Moved>)
    ensures emitted == Emitted(event, ValuesAt(b.paths, event.wd), b)
  {
    var paths := Values(b.paths, event.wd);
    if paths == [] {
      paths := Values(b.paths, -event.wd);
    }
    emitted := [];
    for i := 0 to |paths|
      invariant emitted == Emitted(event, paths[..i], b)
    {
      hide Emitted, EmittedAt;
      assert paths[..i + 1] == paths[..i] + [paths[i]];
      EmittedAtOneMore(event, paths[..i], paths[i], b);
      var more := EmitAt(event, paths[i], b);
      emitted := emitted + more;
    }
    assert paths[..|paths|] == paths;
  }

  /** `_q_readFromInotify`, as far as it reports moves. */
  method ReadBatch(events: seq<Event>, watches: Paths) returns (moved: seq<Moved>)
    requires HasOneSign(watches) && IsPaired(events)
    ensures moved == Reports(events, events, watches)
  {
    hide Emitted, KeepsMoves, KnowsHalves, IsPaired, HasOneSign, Reports, MovesOf, KeptMoves, ValuesAt;
    var b := Collect(events, watches);
    moved := [];
    for i := 0 to |b.kept|
      invariant moved == EmittedAll(b.kept[..i], b)
    {
      var emitted := Emit(b.kept[i], b);
      moved := moved + emitted;
      assert b.kept[..i + 1][..i] == b.kept[..i];
    }
    assert b.kept[..|b.kept|] == b.kept;
    MovesEmitAll(b.kept, b);
    MovesAreKept(b, events, watches);
    assert events[..|events|] == events;
    KeptReport(events, |events|, b, watches);
  }

  lemma MovesAreKept(b: Batch, events: seq<Event>, watches: Paths)
    requires Collected(b, events, watches)
    ensures MovesOf(b.kept) == KeptMoves(events, watches)
    ensures forall e :: e in KeptMoves(events, watches) ==> ValuesAt(b.paths, e.wd) == PathsAt(watches, e.wd)
  {
    forall e | e in MovesOf(b.kept)
      ensures e in b.kept
    {
      MovesAreSome(b.kept, e);
    }
  }

  lemma {:induction false} MovesAreSome(events: seq<Event>, e: Event)
    requires e in MovesOf(events)
    ensures e in events && !e.kind.Other?
  {
    if e != events[|events| - 1] || events[|events| - 1].kind.Other? {
      MovesAreSome(events[..|events| - 1], e);
    }
  }

  lemma {:induction false} MovesEmitAll(events: seq<Event>, b: Batch)
    ensures EmittedAll(events, b) == EmittedAll(MovesOf(events), b)
  {
    hide ValuesAt, Cross;
    if events != [] {
      var before, last := events[..|events| - 1], events[|events| - 1];
      MovesEmitAll(before, b);
      if last.kind.Other? {
        assert MovesOf(events) == MovesOf(before);
      } else {
        assert MovesOf(events)[..|MovesOf(events)| - 1] == MovesOf(before);
      }
    }
  }

  /** The kept moves report what all events have to. */
  lemma {:induction false} KeptReport(events: seq<Event>, n: nat, b: Batch, watches: Paths)
    requires n <= |events| && IsPaired(events) && KnowsHalves(b, events, watches)
    requires forall e :: e in KeptMoves(events[..n], watches) ==> ValuesAt(b.paths, e.wd) == PathsAt(watches, e.wd)
    ensures EmittedAll(KeptMoves(events[..n], watches), b) == Reports(events[..n], events, watches)
  {
    hide KnowsHalves, IsPaired, IsToBeKept, Emitted, Report, PathsAt, ValuesAt;
    if n > 0 {
      var e := events[n - 1];
      assert events[..n][..n - 1] == events[..n - 1] && events[..n][n - 1] == e;
      var kept, before := KeptMoves(events[..n], watches), KeptMoves(events[..n - 1], watches);
      if IsToBeKept(events[..n - 1], e, watches) {
        assert kept[..|kept| - 1] == before && kept[|kept| - 1] == e && e in kept;
      } else {
        assert kept == before;
      }
      KeptReport(events, n - 1, b, watches);
      KeptOrSilent(events, n - 1, b, watches);
    }
  }

  /** An event that is not kept has nothing to report. */
  lemma KeptOrSilent(events: seq<Event>, i: nat, b: Batch, watches: Paths)
    requires i < |events| && IsPaired(events) && KnowsHalves(b, events, watches)
    requires IsToBeKept(events[..i], events[i], watches) ==>
               ValuesAt(b.paths, events[i].wd) == PathsAt(watches, events[i].wd)
    ensures Report(events[i], events, watches)
         == if IsToBeKept(events[..i], events[i], watches)
            then Emitted(events[i], ValuesAt(b.paths, events[i].wd), b) else []
  {
    hide IsPaired, Half, Emitted, KnowsHalves, PathsAt, ValuesAt, MovesWith;
    var e := events[i];
    if e.kind == To {
      FromComesBefore(events, i, watches);
    }
    if IsToBeKept(events[..i], e, watches) {
      EmitsItsReport(events, i, b, watches);
    }
  }

  /** A watched to-half whose from-half is watched comes after it. */
  lemma FromComesBefore(events: seq<Event>, i: nat, watches: Paths)
    requires i < |events| && IsPaired(events) && events[i].kind == To
    ensures Half(events, From, events[i].cookie, watches).Some?
       <==> Half(events[..i], From, events[i].cookie, watches).Some?
  {
  }

  /** A watched move is the half of its kind and cookie. */
  lemma ItsOwnHalf(events: seq<Event>, i: nat, watches: Paths)
    requires i < |events| && IsPaired(events) && IsWatched(events[i], watches) && !events[i].kind.Other?
    ensures Half(events, events[i].kind, events[i].cookie, watches) == Some(events[i])
  {
    var half := Half(events, events[i].kind, events[i].cookie, watches);
    assert IsHalf(events[i], events[i].kind, events[i].cookie, watches);
    var j :| 0 <= j < |events| && events[j] == half.value;
    assert i == j;
  }

  lemma EmitsItsReport(events: seq<Event>, i: nat, b: Batch, watches: Paths)
    requires i < |events| && IsPaired(events) && KnowsHalves(b, events, watches)
    requires IsWatched(events[i], watches) && !events[i].kind.Other?
    ensures Emitted(events[i], PathsAt(watches, events[i].wd), b) == Report(events[i], events, watches)
  {
    var e := events[i];
    ItsOwnHalf(events, i, watches);
    hide IsPaired, PathsAt;
    var tos := Sides(Half(events, To, e.cookie, watches), watches);
    if e.kind == From {
      TosAreSides(e.cookie, b, events, watches);
    } else if e.cookie !in b.froms {
      var nowhere: seq<Option<Place>> := [None];
      assert nowhere[..0] == [] && Cross(nowhere, tos) == [] + Row(None, tos);
    }
  }

  lemma TosAreSides(cookie: nat, b: Batch, events: seq<Event>, watches: Paths)
    requires KnowsHalves(b, events, watches)
    ensures TosOf(cookie, b) == Sides(Half(events, To, cookie, watches), watches)
  {
    if cookie in b.toPath {
      ReversedTwice(PathsAt(watches, Half(events, To, cookie, watches).value.wd));
    }
  }

  // ---- None lost, none twice ----

  lemma {:induction false} CrossHas(froms: seq<Option<Place>>, tos: seq<Option<Place>>)
    ensures forall m :: m in Cross(froms, tos) <==> m.from in froms && m.to in tos
    ensures Differ(froms) && Differ(tos) ==> Differ(Cross(froms, tos))
    ensures froms != [] && tos != [] ==> Cross(froms, tos) != []
  {
    if froms != [] {
      var before, last := froms[..|froms| - 1], froms[|froms| - 1];
      assert froms == before + [last];
      CrossHas(before, tos);
      forall m
        ensures m in Row(last, tos) <==> m.from == last && m.to in tos
      {
        if m.from == last && m.to in tos {
          var i :| 0 <= i < |tos| && tos[i] == m.to;
          assert Row(last, tos)[i] == m;
        }
      }
      if Differ(froms) && Differ(tos) {
        assert last !in before;
        JoinDiffers(Cross(before, tos), Row(last, tos));
      }
    }
  }

  /** No path is listed twice under its number. */
  ghost predicate AreListedOnce(watches: Paths) {
    forall id :: id in watches ==> NoneTwice(watches[id])
  }

  /** Every move of which some half is watched, seen from each pair of paths of its sides. */
  ghost function Seen(events: seq<Event>, watches: Paths): set<(nat, Moved)> {
    set e, m | e in events && !e.kind.Other? && IsWatched(e, watches) && m in MovesWith(e.cookie, events, watches)
      :: (e.cookie, m)
  }

  ghost predicate IsAmong(m: Moved, seen: set<(nat, Moved)>) {
    exists c :: (c, m) in seen
  }

  ghost function Tagged(cookie: nat, moved: seq<Moved>): set<(nat, Moved)> {
    set m | m in moved :: (cookie, m)
  }

  lemma {:induction false} TaggedCount(cookie: nat, moved: seq<Moved>)
    requires Differ(moved)
    ensures |Tagged(cookie, moved)| == |moved|
  {
    if moved != [] {
      var before, last := moved[..|moved| - 1], moved[|moved| - 1];
      assert moved == before + [last];
      TaggedCount(cookie, before);
      assert Tagged(cookie, moved) == Tagged(cookie, before) + {(cookie, last)};
      assert (cookie, last) !in Tagged(cookie, before);
    }
  }

  lemma MovesWithDiffer(cookie: nat, events: seq<Event>, watches: Paths)
    requires AreListedOnce(watches)
    ensures Differ(MovesWith(cookie, events, watches))
  {
    hide Half;
    CrossHas(Sides(Half(events, From, cookie, watches), watches), Sides(Half(events, To, cookie, watches), watches));
  }

  /** What the first `n` events report, with their cookies. */
  ghost function Reported(n: nat, events: seq<Event>, watches: Paths): set<(nat, Moved)>
    requires n <= |events|
  {
    if n == 0 then {}
    else Reported(n - 1, events, watches) + Tagged(events[n - 1].cookie, Report(events[n - 1], events, watches))
  }

  lemma {:induction false} ReportedBy(n: nat, events: seq<Event>, watches: Paths, t: (nat, Moved)) returns (i: nat)
    requires n <= |events| && t in Reported(n, events, watches)
    ensures i < n && events[i].cookie == t.0 && t.1 in Report(events[i], events, watches)
  {
    i := n - 1;
    if !(events[i].cookie == t.0 && t.1 in Report(events[i], events, watches)) {
      i := ReportedBy(n - 1, events, watches, t);
    }
  }

  lemma {:induction false} ReporterCounts(n: nat, i: nat, events: seq<Event>, watches: Paths, m: Moved)
    requires i < n <= |events| && m in Report(events[i], events, watches)
    ensures (events[i].cookie, m) in Reported(n, events, watches)
  {
    hide Report;
    if i < n - 1 {
      ReporterCounts(n - 1, i, events, watches, m);
    }
  }

  /** A cookie is reported by one event only. */
  lemma ReportedOnce(events: seq<Event>, i: nat, j: nat, watches: Paths)
    requires IsPaired(events) && i < j < |events| && events[i].cookie == events[j].cookie
    requires Report(events[i], events, watches) != []
    ensures Report(events[j], events, watches) == []
  {
    hide MovesWith, PathsAt;
    var e, f := events[i], events[j];
    if !f.kind.Other? && IsWatched(f, watches) {
      assert e.kind == From && f.kind == To;
      assert IsHalf(e, From, f.cookie, watches);
    }
  }

  lemma {:induction false} ReportsCount(n: nat, events: seq<Event>, watches: Paths)
    requires n <= |events| && IsPaired(events) && AreListedOnce(watches)
    ensures |Reports(events[..n], events, watches)| == |Reported(n, events, watches)|
  {
    hide IsPaired, Report, AreListedOnce, Tagged;
    if n > 0 {
      var e := events[n - 1];
      assert events[..n][..n - 1] == events[..n - 1] && events[..n][n - 1] == e;
      ReportsCount(n - 1, events, watches);
      NotYetReported(n, events, watches);
      ReportDiffers(e, events, watches);
      TaggedCount(e.cookie, Report(e, events, watches));
    }
  }

  lemma NotYetReported(n: nat, events: seq<Event>, watches: Paths)
    requires 0 < n <= |events| && IsPaired(events)
    ensures Reported(n - 1, events, watches) !! Tagged(events[n - 1].cookie, Report(events[n - 1], events, watches))
  {
    hide IsPaired, Report, Reported;
    var before := Reported(n - 1, events, watches);
    var now := Tagged(events[n - 1].cookie, Report(events[n - 1], events, watches));
    forall t | t in before
      ensures t !in now
    {
      var i := ReportedBy(n - 1, events, watches, t);
      if events[i].cookie == events[n - 1].cookie {
        ReportedOnce(events, i, n - 1, watches);
      }
    }
  }

  /** A move is among the reports if and only if it is reported for some cookie. */
  lemma {:induction false} ReportsAre(n: nat, events: seq<Event>, watches: Paths, m: Moved)
    requires n <= |events|
    ensures m in Reports(events[..n], events, watches) <==> IsAmong(m, Reported(n, events, watches))
  {
    hide Report;
    if n > 0 {
      var e := events[n - 1];
      assert events[..n][..n - 1] == events[..n - 1] && events[..n][n - 1] == e;
      ReportsAre(n - 1, events, watches, m);
      if m in Report(e, events, watches) {
        assert (e.cookie, m) in Reported(n, events, watches);
      }
    }
  }

  lemma ReportDiffers(e: Event, events: seq<Event>, watches: Paths)
    requires AreListedOnce(watches)
    ensures Differ(Report(e, events, watches))
  {
    MovesWithDiffer(e.cookie, events, watches);
  }

  /** Of a move with a watched half, some half reports. */
  lemma SomeHalfReports(e: Event, events: seq<Event>, watches: Paths, m: Moved)
    requires e in events && !e.kind.Other? && IsWatched(e, watches) && m in MovesWith(e.cookie, events, watches)
    ensures (e.cookie, m) in Reported(|events|, events, watches)
  {
    hide MovesWith, PathsAt;
    var reporter := if e.kind == To && Half(events, From, e.cookie, watches).Some?
                    then Half(events, From, e.cookie, watches).value else e;
    var i :| 0 <= i < |events| && events[i] == reporter;
    ReporterCounts(|events|, i, events, watches, m);
  }

  /**
   * There are as many reports as moves with a watched half, seen from each pair of watched paths: none is lost and
   * none comes twice.
   */
  lemma EveryMoveIsReportedOnce(events: seq<Event>, watches: Paths)
    requires IsPaired(events) && AreListedOnce(watches)
    ensures |Reports(events, events, watches)| == |Seen(events, watches)|
    ensures forall m :: m in Reports(events, events, watches) <==> IsAmong(m, Seen(events, watches))
  {
    assert events[..|events|] == events;
    ReportsCount(|events|, events, watches);
    hide MovesWith, PathsAt, IsPaired, Reported, Reports;
    forall t
      ensures t in Seen(events, watches) <==> t in Reported(|events|, events, watches)
    {
      if t in Seen(events, watches) {
        var e :| e in events && !e.kind.Other? && IsWatched(e, watches) && e.cookie == t.0
                 && t.1 in MovesWith(e.cookie, events, watches);
        SomeHalfReports(e, events, watches, t.1);
      }
      if t in Reported(|events|, events, watches) {
        var i := ReportedBy(|events|, events, watches, t);
        assert events[i] in events;
      }
    }
    assert Seen(events, watches) == Reported(|events|, events, watches);
    forall m
      ensures m in Reports(events, events, watches) <==> IsAmong(m, Seen(events, watches))
    {
      ReportsAre(|events|, events, watches, m);
    }
  }
}
