/** The file system inside an archive, as a flat map from paths to entries, and what each operation does to it. */
module DciStore {
  import opened Basics
  import opened Bytes
  import opened DciFormat

  type Name = seq<Byte>
  type Order = (Name, Name) -> bool

  /** An absolute path, read from its last component backwards. */
  datatype Path = Root | Sub(dir: Path, name: Name)

  /** `children` are the names in the directory, in the order the archive keeps them. */
  datatype Entry = Entry(kind: Byte, data: seq<Byte>, children: seq<Name>)
  type Store = map<Path, Entry>

  const EMPTY: Store := map[Root := Entry(DIRECTORY, [], [])]

  /** `q` is `p` or lies below it. */
  predicate Below(p: Path, q: Path) {
    q == p || (q.Sub? && Below(p, q.dir))
  }

  /** A path at or below `from`, moved to the same place below `to`. */
  function Rebase(from: Path, to: Path, p: Path): (q: Path)
    requires Below(from, p)
    ensures Below(to, q)
  {
    if p == from then to else Sub(Rebase(from, to, p.dir), p.name)
  }

  /** The collator: `lt` is a strict weak order. */
  ghost predicate Collates(lt: Order) {
    && (forall a :: !lt(a, a))
    && (forall a, b, c :: lt(a, b) && lt(b, c) ==> lt(a, c))
    && (forall a, b, c :: !lt(a, b) && !lt(b, c) ==> !lt(a, c))
  }

  /** Such orders exist: names may collate by their length. */
  lemma LengthsCollate()
    ensures Collates((a, b) => |a| < |b|)
  {
  }

  ghost predicate Distinct(names: seq<Name>) {
    forall i, j :: 0 <= i < j < |names| ==> names[i] != names[j]
  }

  ghost predicate Sorted(lt: Order, names: seq<Name>) {
    forall i, j :: 0 <= i < j < |names| ==> !lt(names[j], names[i])
  }

  ghost predicate ValidEntry(s: Store, p: Path)
    requires p in s
  {
    var e := s[p];
    && Distinct(e.children)
    && (forall c <- e.children :: Sub(p, c) in s)
    && (p.Sub? ==> p.dir in s && p.name in s[p.dir].children)
  }

  /** The map is the index of one tree rooted at the empty path. */
  ghost predicate Valid(s: Store) {
    && Root in s && s[Root].kind == DIRECTORY
    && forall p {:trigger ValidEntry(s, p)} :: p in s ==> ValidEntry(s, p)
  }

  /** Only directories hold entries, and only files and links data. */
  predicate IsTyped(e: Entry) {
    e.kind in {FILE, DIRECTORY, SYMLINK} && (if e.kind == DIRECTORY then e.data == [] else e.children == [])
  }

  ghost predicate AllTyped(s: Store) {
    forall p <- s :: IsTyped(s[p])
  }

  ghost predicate SiblingsSorted(lt: Order, s: Store) {
    forall p <- s :: Sorted(lt, s[p].children)
  }

  // ---- Ordered insertion ----

  function InsertIndex(lt: Order, names: seq<Name>, name: Name): (i: nat)
    ensures i <= |names|
    ensures forall j :: 0 <= j < i ==> !lt(name, names[j])
    ensures i < |names| ==> lt(name, names[i])
  {
    if names == [] then 0 else if lt(name, names[0]) then 0 else 1 + InsertIndex(lt, names[1..], name)
  }

  function Insert(lt: Order, names: seq<Name>, name: Name): (r: seq<Name>)
    ensures multiset(r) == multiset(names) + multiset{name}
  {
    var i := InsertIndex(lt, names, name);
    assert names == names[..i] + names[i..];
    names[..i] + [name] + names[i..]
  }

  lemma {:induction false} InsertIndexIs(lt: Order, names: seq<Name>, name: Name, i: nat)
    requires i <= |names|
    requires forall j :: 0 <= j < i ==> !lt(name, names[j])
    requires i < |names| ==> lt(name, names[i])
    ensures InsertIndex(lt, names, name) == i
  {
    if i > 0 {
      assert forall j :: 0 <= j < i - 1 ==> names[1..][j] == names[j + 1];
      InsertIndexIs(lt, names[1..], name, i - 1);
    }
  }

  /** One after the other, each name is inserted in order: what copying a directory does to its listing. */
  function SortNames(lt: Order, names: seq<Name>): (r: seq<Name>)
    ensures multiset(r) == multiset(names)
  {
    if names == [] then []
    else
      assert names == names[..|names| - 1] + [names[|names| - 1]];
      Insert(lt, SortNames(lt, names[..|names| - 1]), names[|names| - 1])
  }

  lemma SameNames(a: seq<Name>, b: seq<Name>)
    requires multiset(a) == multiset(b)
    ensures forall n :: n in a <==> n in b
    ensures Distinct(a) <==> Distinct(b)
    ensures |a| == |b|
  {
    assert forall n :: n in a <==> n in multiset(a);
    assert forall n :: n in b <==> n in multiset(b);
    DistinctByCount(a);
    DistinctByCount(b);
    assert |multiset(a)| == |a| && |multiset(b)| == |b|;
  }

  lemma {:induction false} DistinctByCount(a: seq<Name>)
    ensures Distinct(a) <==> forall n :: multiset(a)[n] <= 1
  {
    if a != [] {
      var rest := a[1..];
      assert a == [a[0]] + rest;
      DistinctByCount(rest);
      assert multiset(a) == multiset{a[0]} + multiset(rest);
      if Distinct(a) {
        assert forall i, j :: 0 <= i < j < |rest| ==> rest[i] == a[i + 1] && rest[j] == a[j + 1];
        assert a[0] !in rest;
        assert a[0] !in multiset(rest);
      }
      if forall n :: multiset(a)[n] <= 1 {
        assert multiset(a)[a[0]] <= 1;
        assert a[0] !in multiset(rest);
        forall n ensures multiset(rest)[n] <= 1 {
          assert multiset(a)[n] <= 1;
        }
      }
    }
  }

  lemma InsertAt(lt: Order, names: seq<Name>, name: Name, i: nat)
    requires i <= |names|
    ensures var at, r := InsertIndex(lt, names, name), Insert(lt, names, name);
            |r| == |names| + 1 && r[i] == if i < at then names[i] else if i == at then name else names[i - 1]
  {
  }

  lemma InsertKeepsSorted(lt: Order, names: seq<Name>, name: Name)
    requires Collates(lt) && Sorted(lt, names)
    ensures Sorted(lt, Insert(lt, names, name))
  {
    var i := InsertIndex(lt, names, name);
    var r := Insert(lt, names, name);
    forall j | i <= j < |names| ensures !lt(names[j], name) {
      assert !lt(names[j], names[i]) by {
        assert j == i || !lt(names[j], names[i]);
      }
      assert lt(name, names[i]) && !lt(names[i], name);
    }
  }

  lemma {:induction false} SortNamesSorts(lt: Order, names: seq<Name>)
    requires Collates(lt)
    ensures Sorted(lt, SortNames(lt, names))
  {
    if names != [] {
      SortNamesSorts(lt, names[..|names| - 1]);
      InsertKeepsSorted(lt, SortNames(lt, names[..|names| - 1]), names[|names| - 1]);
    }
  }

  /** A listing already in order is copied in the same order: insertion is stable. */
  lemma {:induction false} SortNamesOfSorted(lt: Order, names: seq<Name>)
    requires Sorted(lt, names)
    ensures SortNames(lt, names) == names
  {
    hide InsertIndex;
    if names != [] {
      var front, last := names[..|names| - 1], names[|names| - 1];
      assert names == front + [last];
      assert Sorted(lt, front);
      SortNamesOfSorted(lt, front);
      InsertIndexIs(lt, front, last, |front|);
      assert Insert(lt, front, last) == front + [last];
    }
  }

  // ---- The operations ----

  /** What `mkNode` checks before it makes a node. */
  predicate CanMake(s: Store, p: Path) {
    && p.Sub? && p !in s
    && p.dir in s && s[p.dir].kind == DIRECTORY
    && |p.name| < NAME_SIZE
  }

  function Attach(lt: Order, s: Store, p: Path, e: Entry): Store
    requires p.Sub? && p.dir in s
  {
    var dir := s[p.dir];
    s[p.dir := dir.(children := Insert(lt, dir.children, p.name))][p := e]
  }

  lemma AttachSet(lt: Order, s: Store, p: Path, e: Entry, f: Entry)
    requires p.Sub? && p.dir in s
    ensures Attach(lt, s, p, e)[p := f] == Attach(lt, s, p, f)
  {
  }

  function Mkdir(lt: Order, s: Store, p: Path): (Store, bool) {
    if CanMake(s, p) then (Attach(lt, s, p, Entry(DIRECTORY, [], [])), true) else (s, false)
  }

  function CopyEntry(lt: Order, e: Entry): Entry {
    Entry(e.kind, e.data, SortNames(lt, e.children))
  }

  /** The copies of everything at or below `from`. */
  function Graft(lt: Order, s: Store, from: Path, to: Path): Store {
    var keys := set p | p in s && Below(from, p) :: Rebase(from, to, p);
    forall p | p in s && Below(from, p) ensures Rebase(to, from, Rebase(from, to, p)) == p {
      RebaseBack(from, to, p);
    }
    map q | q in keys :: CopyEntry(lt, s[Rebase(to, from, q)])
  }

  /** Every entry at or below `from` appears once more at or below `to`, as it was before the call. */
  function Copy(lt: Order, s: Store, from: Path, to: Path): (Store, bool) {
    if from !in s || !CanMake(s, to) then (s, false)
    else (Attach(lt, s, to, Entry(FILE, [], [])) + Graft(lt, s, from, to), true)
  }

  /** A copy succeeds exactly if there is a source and a node can be made; otherwise nothing changes. */
  lemma CopySucceedsIff(lt: Order, s: Store, from: Path, to: Path)
    ensures Copy(lt, s, from, to).1 <==> from in s && CanMake(s, to)
    ensures !Copy(lt, s, from, to).1 ==> Copy(lt, s, from, to).0 == s
    ensures Copy(lt, s, from, to).1 ==> to in Copy(lt, s, from, to).0 && to !in s
  {
    hide Graft;
  }

  /** Only a node without grandchildren leaves the index in step with the tree. */
  ghost predicate CanRemove(s: Store, p: Path) {
    p.Sub? && p in s && forall c <- s[p].children :: Sub(p, c) in s && s[Sub(p, c)].children == []
  }

  function Without(names: seq<Name>, name: Name): seq<Name> {
    if names == [] then []
    else if names[0] == name then names[1..]
    else [names[0]] + Without(names[1..], name)
  }

  lemma {:induction false} WithoutAt(names: seq<Name>, name: Name, k: nat)
    requires k < |names| && names[k] == name && forall j :: 0 <= j < k ==> names[j] != name
    ensures Without(names, name) == names[..k] + names[k + 1..]
  {
    if k > 0 {
      assert forall j :: 0 <= j < k ==> names[1..][j] == names[j + 1];
      WithoutAt(names[1..], name, k - 1);
      assert names[..k] == [names[0]] + names[1..][..k - 1];
      assert names[1..][k..] == names[k + 1..];
    }
  }

  function Remove(s: Store, p: Path): Store
    requires p.Sub? && p in s && p.dir in s
  {
    var dir := s[p.dir];
    var gone := {p} + set c | c in s[p].children :: Sub(p, c);
    s[p.dir := dir.(children := Without(dir.children, p.name))] - gone
  }

  /** The root is emptied entry by entry. */
  ghost predicate CanClear(s: Store) {
    Root in s && forall c <- s[Root].children :: CanRemove(s, Sub(Root, c))
  }

  function Clear(s: Store): Store
    requires Root in s
  {
    map[Root := s[Root].(children := [])]
  }

  // ---- Every operation keeps the index in step with the tree ----

  /** Nothing moves along with the node, and nothing else lies below the one it overrides. */
  ghost predicate CanRename(s: Store, p: Path, q: Path) {
    && p.Sub? && p in s && q.Sub? && p != q && q.dir in s && q.dir != p
    && (forall x <- s :: Below(p, x) ==> x == p)
    && (forall x <- s :: Below(q, x) ==> x == q || x == p)
  }

  /** A listing holds just the names of the entries below. */
  ghost predicate ListsExactly(s: Store, p: Path)
    requires p in s
  {
    Distinct(s[p].children) && forall c :: c in s[p].children <==> Sub(p, c) in s
  }

  /** In front of the first name that collates after it; another entry of that name goes. */
  function Placed(lt: Order, names: seq<Name>, name: Name): seq<Name> {
    var i := InsertIndex(lt, names, name);
    Without(names[..i], name) + [name] + Without(names[i..], name)
  }

  function Replaced(names: seq<Name>, before: Name, after: Name): seq<Name> {
    if names == [] then []
    else [if names[0] == before then after else names[0]] + Replaced(names[1..], before, after)
  }

  /** Within one directory the entry keeps its place; in a new one it is put in order. */
  function Relisted(lt: Order, s: Store, p: Path, q: Path, x: Path): seq<Name>
    requires p.Sub? && q.Sub? && x in s
  {
    var names := s[x].children;
    if x == p.dir && x == q.dir then Replaced(Without(names, q.name), p.name, q.name)
    else if x == q.dir then Placed(lt, names, q.name)
    else if x == p.dir then Without(names, p.name)
    else names
  }

  /** The entry at `p` moves to `q`, and the listings follow. */
  function Rename(lt: Order, s: Store, p: Path, q: Path): Store
    requires p.Sub? && q.Sub? && p in s
  {
    map x | x in s.Keys - {p} + {q} ::
      var y := if x == q then p else x;
      s[y].(children := Relisted(lt, s, p, q, y))
  }

  /** What a renaming makes of each entry. */
  lemma RenameAt(lt: Order, s: Store, p: Path, q: Path, x: Path)
    requires p.Sub? && q.Sub? && p in s && p != q.dir && (x == q || (x in s && x != p))
    ensures x in Rename(lt, s, p, q)
    ensures Rename(lt, s, p, q)[x] ==
            if x == q then s[p]
            else if x == q.dir || x == p.dir then s[x].(children := Relisted(lt, s, p, q, x))
            else s[x]
  {
    hide Placed, Replaced, Without;
    assert p.dir != p;
  }

  lemma {:induction false} RebaseBack(from: Path, to: Path, p: Path)
    requires Below(from, p)
    ensures Rebase(to, from, Rebase(from, to, p)) == p
    decreases p
  {
    if p != from {
      RebaseBack(from, to, p.dir);
      BelowIsLower(to, Rebase(from, to, p.dir));
    }
  }

  lemma Grafted(lt: Order, s: Store, from: Path, to: Path, p: Path)
    requires p in s && Below(from, p)
    ensures Rebase(from, to, p) in Graft(lt, s, from, to)
  {
  }

  lemma GraftSource(lt: Order, s: Store, from: Path, to: Path, q: Path)
    requires q in Graft(lt, s, from, to)
    ensures Below(to, q)
    ensures var p := Rebase(to, from, q);
            p in s && Below(from, p) && q == Rebase(from, to, p) && Graft(lt, s, from, to)[q] == CopyEntry(lt, s[p])
  {
    var p :| p in s && Below(from, p) && q == Rebase(from, to, p);
    RebaseBack(from, to, p);
  }

  function Depth(p: Path): nat {
    if p.Root? then 0 else 1 + Depth(p.dir)
  }

  lemma {:induction false} BelowIsLower(p: Path, q: Path)
    requires Below(p, q)
    ensures Depth(p) <= Depth(q)
  {
    if p != q {
      BelowIsLower(p, q.dir);
    }
  }

  lemma {:induction false} AncestorIn(s: Store, p: Path, q: Path)
    requires Valid(s) && Below(p, q) && q in s
    ensures p in s
    decreases q
  {
    if p != q {
      assert ValidEntry(s, q);
      AncestorIn(s, p, q.dir);
    }
  }

  lemma InsertMembers(lt: Order, names: seq<Name>, name: Name)
    ensures forall n :: n in Insert(lt, names, name) <==> n in names || n == name
    ensures Distinct(names) && name !in names ==> Distinct(Insert(lt, names, name))
  {
    SameNames(Insert(lt, names, name), names + [name]);
  }

  lemma AttachValid(lt: Order, s: Store, p: Path, e: Entry)
    requires Valid(s) && CanMake(s, p)
    requires e.children == []
    ensures Valid(Attach(lt, s, p, e))
  {
    hide Insert;
    var r := Attach(lt, s, p, e);
    InsertMembers(lt, s[p.dir].children, p.name);
    assert ValidEntry(s, p.dir);
    forall q <- r ensures ValidEntry(r, q) {
      assert q == p || ValidEntry(s, q);
    }
  }

  lemma AttachTyped(lt: Order, s: Store, p: Path, e: Entry)
    requires AllTyped(s) && CanMake(s, p) && IsTyped(e)
    ensures AllTyped(Attach(lt, s, p, e))
  {
    hide Insert;
  }

  lemma {:induction false} RebaseIsInjective(from: Path, to: Path, p: Path, q: Path)
    requires Below(from, p) && Below(from, q)
    requires Rebase(from, to, p) == Rebase(from, to, q)
    ensures p == q
  {
    RebaseBack(from, to, p);
    RebaseBack(from, to, q);
  }

  lemma CopyEntryMembers(lt: Order, e: Entry)
    ensures forall n :: n in CopyEntry(lt, e).children <==> n in e.children
    ensures Distinct(CopyEntry(lt, e).children) <==> Distinct(e.children)
    ensures e.children == [] ==> CopyEntry(lt, e).children == []
  {
    SameNames(CopyEntry(lt, e).children, e.children);
  }

  /** A path below a missing one is missing too, so copies never land on existing entries. */
  lemma NothingBelowMissing(s: Store, p: Path, q: Path)
    requires Valid(s) && p !in s && Below(p, q)
    ensures q !in s
  {
    if q in s {
      AncestorIn(s, p, q);
    }
  }

  lemma GraftedEntryValid(lt: Order, s: Store, from: Path, to: Path, q: Path)
    requires Valid(s) && from in s && CanMake(s, to)
    requires q in Graft(lt, s, from, to)
    requires to.dir in Copy(lt, s, from, to).0 && to.name in Copy(lt, s, from, to).0[to.dir].children
    ensures ValidEntry(Copy(lt, s, from, to).0, q)
  {
    hide Insert, SortNames, Graft;
    var r, g := Copy(lt, s, from, to).0, Graft(lt, s, from, to);
    GraftSource(lt, s, from, to, q);
    var p := Rebase(to, from, q);
    assert ValidEntry(s, p);
    assert r[q] == g[q] == CopyEntry(lt, s[p]);
    CopyEntryMembers(lt, s[p]);
    forall c | c in r[q].children ensures Sub(q, c) in r {
      Grafted(lt, s, from, to, Sub(p, c));
      BelowIsLower(from, p);
      assert Rebase(from, to, Sub(p, c)) == Sub(q, c);
    }
    if q != to {
      assert p == Sub(Rebase(to, from, q.dir), q.name);
      BelowIsLower(from, p.dir);
      RebaseBack(to, from, q.dir);
      Grafted(lt, s, from, to, p.dir);
      assert q.dir in g && g[q.dir] == CopyEntry(lt, s[p.dir]) by {
        GraftSource(lt, s, from, to, q.dir);
      }
      CopyEntryMembers(lt, s[p.dir]);
    }
  }

  lemma OldEntryKept(lt: Order, s: Store, from: Path, to: Path, q: Path)
    requires Valid(s) && from in s && CanMake(s, to) && q in s
    ensures q !in Graft(lt, s, from, to)
    ensures var r := Copy(lt, s, from, to).0; q in r && r[q] == Attach(lt, s, to, Entry(FILE, [], []))[q]
  {
    hide Insert, Graft, ValidEntry, InsertIndex;
    if q in Graft(lt, s, from, to) {
      GraftSource(lt, s, from, to, q);
      NothingBelowMissing(s, to, q);
    }
  }

  lemma OldEntryValid(lt: Order, s: Store, from: Path, to: Path, q: Path)
    requires Valid(s) && from in s && CanMake(s, to) && q in s
    ensures q in Copy(lt, s, from, to).0 && ValidEntry(Copy(lt, s, from, to).0, q)
  {
    hide Insert, Graft;
    OldEntryKept(lt, s, from, to, q);
    AttachValid(lt, s, to, Entry(FILE, [], []));
    assert ValidEntry(s, q) && ValidEntry(Attach(lt, s, to, Entry(FILE, [], [])), q);
    if q.Sub? {
      OldEntryKept(lt, s, from, to, q.dir);
    }
  }

  lemma AttachKeys(lt: Order, s: Store, p: Path, e: Entry)
    requires p.Sub? && p.dir in s && p !in s
    ensures Attach(lt, s, p, e).Keys == s.Keys + {p}
    ensures p.name in Attach(lt, s, p, e)[p.dir].children
    ensures forall q <- s :: Attach(lt, s, p, e)[q].kind == s[q].kind
  {
    hide Insert;
    InsertMembers(lt, s[p.dir].children, p.name);
  }

  lemma CopyKeys(lt: Order, s: Store, from: Path, to: Path)
    requires Valid(s) && from in s && CanMake(s, to)
    ensures Copy(lt, s, from, to).0.Keys == s.Keys + Graft(lt, s, from, to).Keys
    ensures to.name in Copy(lt, s, from, to).0[to.dir].children
    ensures Copy(lt, s, from, to).0[Root].kind == DIRECTORY
  {
    hide Attach, Graft, ValidEntry;
    var a, g := Attach(lt, s, to, Entry(FILE, [], [])), Graft(lt, s, from, to);
    Grafted(lt, s, from, to, from);
    assert (a + g).Keys == a.Keys + g.Keys;
    AttachKeys(lt, s, to, Entry(FILE, [], []));
    OldEntryKept(lt, s, from, to, to.dir);
    OldEntryKept(lt, s, from, to, Root);
  }

  lemma CopyValid(lt: Order, s: Store, from: Path, to: Path)
    requires Valid(s)
    ensures Valid(Copy(lt, s, from, to).0)
  {
    hide Insert, SortNames, Graft, ValidEntry;
    if from in s && CanMake(s, to) {
      var r := Copy(lt, s, from, to).0;
      CopyKeys(lt, s, from, to);
      hide Copy, Attach;
      forall q <- r ensures ValidEntry(r, q) {
        if q in s {
          OldEntryValid(lt, s, from, to, q);
        } else {
          GraftedEntryValid(lt, s, from, to, q);
        }
      }
    }
  }

  lemma CopyTyped(lt: Order, s: Store, from: Path, to: Path)
    requires Valid(s) && AllTyped(s)
    ensures AllTyped(Copy(lt, s, from, to).0)
  {
    hide Insert, SortNames, Graft, Attach;
    if from in s && CanMake(s, to) {
      AttachTyped(lt, s, to, Entry(FILE, [], []));
      forall q | q in Graft(lt, s, from, to) ensures IsTyped(Graft(lt, s, from, to)[q]) {
        GraftSource(lt, s, from, to, q);
        CopyEntryMembers(lt, s[Rebase(to, from, q)]);
      }
    }
  }

  lemma {:induction false} WithoutMembers(names: seq<Name>, name: Name)
    requires Distinct(names)
    ensures Distinct(Without(names, name))
    ensures forall n :: n in Without(names, name) <==> n in names && n != name
  {
    if names != [] {
      var rest := names[1..];
      assert forall i :: 0 <= i < |rest| ==> rest[i] == names[i + 1];
      if names[0] != name {
        WithoutMembers(rest, name);
        assert names[0] !in rest;
      }
    }
  }

  lemma RemoveValid(s: Store, p: Path)
    requires Valid(s) && CanRemove(s, p) && p.dir in s
    ensures Valid(Remove(s, p))
  {
    hide Without;
    var r := Remove(s, p);
    assert ValidEntry(s, p) && ValidEntry(s, p.dir);
    WithoutMembers(s[p.dir].children, p.name);
    forall q <- r ensures ValidEntry(r, q) {
      assert ValidEntry(s, q) && ValidEntry(s, p) && ValidEntry(s, p.dir);
    }
  }

  /** Below a node whose children are leaves there is nothing but those. */
  lemma {:induction false} BelowLeaves(s: Store, p: Path, x: Path)
    requires Valid(s) && CanRemove(s, p) && x in s && Below(p, x)
    ensures x == p || (x.Sub? && x.dir == p && x.name in s[p].children)
    decreases x
  {
    if x != p {
      assert ValidEntry(s, x);
      BelowLeaves(s, p, x.dir);
    }
  }

  ghost predicate LosesName(before: seq<Name>, after: seq<Name>, name: Name) {
    exists i :: 0 <= i < |before| && before[i] == name && after == before[..i] + before[i + 1..]
  }

  lemma NameIsLost(names: seq<Name>, name: Name)
    requires Distinct(names) && name in names
    ensures LosesName(names, Without(names, name), name)
  {
    var i :| 0 <= i < |names| && names[i] == name;
    WithoutAt(names, name, i);
  }

  /**
   * Removing a node takes it and what is below it out, and its name out of the listing above it, where the other names
   * keep their order; nothing else changes.
   */
  lemma RemoveTakesOut(s: Store, p: Path)
    requires Valid(s) && CanRemove(s, p)
    ensures p.dir in s
    ensures var t := Remove(s, p);
      && (forall x :: x in t <==> x in s && !Below(p, x))
      && (forall x <- t :: x != p.dir ==> t[x] == s[x])
      && p.dir in t && t[p.dir] == s[p.dir].(children := t[p.dir].children)
      && LosesName(s[p.dir].children, t[p.dir].children, p.name)
  {
    assert ValidEntry(s, p) && ValidEntry(s, p.dir);
    NameIsLost(s[p.dir].children, p.name);
    hide ValidEntry, Without, LosesName;
    var t := Remove(s, p);
    forall x ensures x in t <==> x in s && !Below(p, x) {
      if x in s && Below(p, x) {
        BelowLeaves(s, p, x);
      }
      if x in s && x !in t {
        assert Below(p, p);
      }
    }
    assert p.dir != p;
  }

  lemma ClearValid(s: Store)
    requires Valid(s)
    ensures Valid(Clear(s)) && (AllTyped(s) ==> AllTyped(Clear(s)))
  {
    assert ValidEntry(Clear(s), Root);
  }

  lemma RemoveTyped(s: Store, p: Path)
    requires AllTyped(s) && p.Sub? && p in s && p.dir in s
    ensures AllTyped(Remove(s, p))
  {
  }

  lemma {:induction false} WithoutAbsent(names: seq<Name>, name: Name)
    requires name !in names
    ensures Without(names, name) == names
  {
    if names != [] {
      WithoutAbsent(names[1..], name);
    }
  }

  /** A name put in is listed, and so is what else was. */
  lemma PlacedMembers(lt: Order, names: seq<Name>, name: Name)
    requires Distinct(names)
    ensures Distinct(Placed(lt, names, name))
    ensures forall n :: n in Placed(lt, names, name) <==> n in names || n == name
  {
    var i := InsertIndex(lt, names, name);
    var front, back := names[..i], names[i..];
    assert forall j :: 0 <= j < |back| ==> back[j] == names[i + j];
    assert names == front + back;
    WithoutMembers(front, name);
    WithoutMembers(back, name);
    hide Without, InsertIndex;
    DistinctParts(Without(front, name), name, Without(back, name));
  }

  lemma DistinctParts(a: seq<Name>, name: Name, b: seq<Name>)
    requires Distinct(a) && Distinct(b) && name !in a && name !in b && forall n <- a :: n !in b
    ensures Distinct(a + [name] + b)
  {
    var r := a + [name] + b;
    forall i, j | 0 <= i < j < |r| ensures r[i] != r[j] {
      assert j > |a| ==> r[j] == b[j - |a| - 1] && r[j] in b;
      assert i < |a| ==> r[i] == a[i] && r[i] in a;
      assert i > |a| ==> r[i] == b[i - |a| - 1];
    }
  }

  lemma {:induction false} ReplacedAt(names: seq<Name>, before: Name, after: Name, k: nat)
    requires Distinct(names) && k < |names| && names[k] == before
    ensures Replaced(names, before, after) == names[k := after]
  {
    var rest := names[1..];
    assert forall j :: 0 <= j < |rest| ==> rest[j] == names[j + 1];
    if k == 0 {
      ReplacedAbsent(rest, before, after);
    } else {
      ReplacedAt(rest, before, after, k - 1);
    }
  }

  lemma {:induction false} ReplacedAbsent(names: seq<Name>, before: Name, after: Name)
    requires before !in names
    ensures Replaced(names, before, after) == names
  {
    if names != [] {
      ReplacedAbsent(names[1..], before, after);
    }
  }

  lemma ReplacedMembers(names: seq<Name>, before: Name, after: Name)
    requires Distinct(names) && before in names && after !in names
    ensures Distinct(Replaced(names, before, after))
    ensures forall n :: n in Replaced(names, before, after) <==> (n in names && n != before) || n == after
  {
    var k :| 0 <= k < |names| && names[k] == before;
    ReplacedAt(names, before, after, k);
    var r := names[k := after];
    forall n | n in names && n != before ensures n in r {
      var j :| 0 <= j < |names| && names[j] == n;
      assert r[j] == n;
    }
    assert r[k] == after;
  }

  /** A listing holds the names of the entries below it after the renaming. */
  lemma RelistedMembers(lt: Order, s: Store, p: Path, q: Path, x: Path)
    requires Valid(s) && CanRename(s, p, q) && x in s
    ensures Distinct(Relisted(lt, s, p, q, x))
    ensures forall c :: c in Relisted(lt, s, p, q, x) <==> (Sub(x, c) in s && Sub(x, c) != p) || Sub(x, c) == q
  {
    hide Without, Placed, Replaced, InsertIndex;
    var names := s[x].children;
    assert ValidEntry(s, x) && ValidEntry(s, p);
    forall c ensures c in names <==> Sub(x, c) in s {
      if Sub(x, c) in s {
        assert ValidEntry(s, Sub(x, c));
      }
    }
    if x == p.dir && x == q.dir {
      WithoutMembers(names, q.name);
      ReplacedMembers(Without(names, q.name), p.name, q.name);
    } else if x == q.dir {
      PlacedMembers(lt, names, q.name);
    } else if x == p.dir {
      WithoutMembers(names, p.name);
    }
  }

  lemma BelowChild(p: Path, name: Name)
    ensures Below(p, Sub(p, name))
  {
    assert Below(p, p);
  }

  lemma RenamedEntryValid(lt: Order, s: Store, p: Path, q: Path, x: Path)
    requires Valid(s) && CanRename(s, p, q) && x in Rename(lt, s, p, q)
    ensures ValidEntry(Rename(lt, s, p, q), x)
  {
    hide Relisted, Below;
    var t := Rename(lt, s, p, q);
    var y := if x == q then p else x;
    assert ValidEntry(s, y);
    RelistedMembers(lt, s, p, q, y);
    forall c | c in t[x].children ensures Sub(x, c) in t && x != q {
      BelowChild(y, c);
    }
    if x.Sub? {
      if x != q {
        BelowChild(p, x.name);
        BelowChild(q, x.name);
      }
      RelistedMembers(lt, s, p, q, x.dir);
    }
  }

  lemma RenameValid(lt: Order, s: Store, p: Path, q: Path)
    requires Valid(s) && CanRename(s, p, q)
    ensures Valid(Rename(lt, s, p, q))
  {
    hide ValidEntry, Relisted;
    var t := Rename(lt, s, p, q);
    forall x {:trigger ValidEntry(t, x)} | x in t
      ensures ValidEntry(t, x)
    {
      RenamedEntryValid(lt, s, p, q, x);
    }
  }

  /** A renamed node keeps its data, and all others are as before, but for the two listings it leaves and comes to. */
  lemma RenameMoves(lt: Order, s: Store, p: Path, q: Path)
    requires Valid(s) && CanRename(s, p, q)
    ensures var t := Rename(lt, s, p, q);
      && (forall x :: x in t <==> (x in s && x != p) || x == q) && t[q] == s[p]
      && (forall x <- t :: x != q && x != p.dir && x != q.dir ==> t[x] == s[x])
      && (forall x <- t :: x != q && (x == p.dir || x == q.dir) ==>
            t[x] == s[x].(children := t[x].children)
            && forall c :: c in t[x].children <==> (c in s[x].children && Sub(x, c) != p) || Sub(x, c) == q)
  {
    hide Relisted;
    var t := Rename(lt, s, p, q);
    assert q.dir != p && p.dir != p && q.dir != q;
    forall x | x in t
      ensures x == q ==> t[x] == s[p]
      ensures x != q && x != p.dir && x != q.dir ==> t[x] == s[x]
      ensures x != q ==> t[x] == s[x].(children := t[x].children)
      ensures x != q ==> forall c :: c in t[x].children <==> (c in s[x].children && Sub(x, c) != p) || Sub(x, c) == q
    {
      RenameAt(lt, s, p, q, x);
      if x != q {
        RelistedMembers(lt, s, p, q, x);
        ListedIffThere(s, x);
        UnrelatedListing(lt, s, p, q, x);
      }
    }
  }

  lemma ListedIffThere(s: Store, x: Path)
    requires Valid(s) && x in s
    ensures forall c :: c in s[x].children <==> Sub(x, c) in s
  {
    assert ValidEntry(s, x);
    forall c | Sub(x, c) in s ensures c in s[x].children {
      assert ValidEntry(s, Sub(x, c));
    }
  }

  lemma UnrelatedListing(lt: Order, s: Store, p: Path, q: Path, x: Path)
    requires p.Sub? && q.Sub? && x in s
    ensures x != p.dir && x != q.dir ==> Relisted(lt, s, p, q, x) == s[x].children
  {
  }

  /** Entries are typed as before exactly if the new parent is a directory, which the program never checks. */
  lemma RenameTypedIff(lt: Order, s: Store, p: Path, q: Path)
    requires Valid(s) && AllTyped(s) && CanRename(s, p, q)
    ensures AllTyped(Rename(lt, s, p, q)) <==> s[q.dir].kind == DIRECTORY
  {
    hide Relisted;
    var t := Rename(lt, s, p, q);
    RelistedMembers(lt, s, p, q, q.dir);
    assert q.dir in t && t[q.dir].children == Relisted(lt, s, p, q, q.dir) && q.name in t[q.dir].children by {
      assert Below(q, q) && q.dir != q;
    }
    if s[q.dir].kind == DIRECTORY {
      forall x | x in t
        ensures IsTyped(t[x])
      {
        var y := if x == q then p else x;
        assert IsTyped(s[y]);
        if t[x].kind != DIRECTORY && t[x].children != [] {
          RelistedMembers(lt, s, p, q, y);
          NothingListed(lt, s, p, q, y);
        }
      }
    }
  }

  lemma NothingListed(lt: Order, s: Store, p: Path, q: Path, x: Path)
    requires Valid(s) && CanRename(s, p, q) && x in s && s[x].children == [] && x != q.dir
    ensures Relisted(lt, s, p, q, x) == []
  {
  }

  // ---- Order ----

  lemma {:induction false} WithoutKeepsSorted(lt: Order, names: seq<Name>, name: Name)
    requires Sorted(lt, names)
    ensures Sorted(lt, Without(names, name))
    ensures forall n :: n in Without(names, name) ==> n in names
  {
    if names != [] {
      var rest := names[1..];
      assert forall i :: 0 <= i < |rest| ==> rest[i] == names[i + 1];
      if names[0] != name {
        WithoutKeepsSorted(lt, rest, name);
        forall n | n in Without(rest, name) ensures !lt(n, names[0]) {
          var i :| 0 <= i < |rest| && rest[i] == n;
        }
      }
    }
  }

  lemma SortedParts(lt: Order, a: seq<Name>, name: Name, b: seq<Name>)
    ensures Sorted(lt, a + [name] + b)
        <==> Sorted(lt, a) && Sorted(lt, b) && (forall n <- a :: !lt(name, n)) && (forall n <- b :: !lt(n, name))
             && forall m <- a, n <- b :: !lt(n, m)
  {
    var r := a + [name] + b;
    assert forall i :: 0 <= i < |a| ==> r[i] == a[i];
    assert r[|a|] == name;
    assert forall i :: 0 <= i < |b| ==> r[|a| + 1 + i] == b[i];
    if Sorted(lt, r) {
      forall m, n | m in a && n in b ensures !lt(n, m) {
        var i, j :| 0 <= i < |a| && a[i] == m && 0 <= j < |b| && b[j] == n;
        assert !lt(r[|a| + 1 + j], r[i]);
      }
    }
  }

  lemma PlacedKeepsSorted(lt: Order, names: seq<Name>, name: Name)
    requires Collates(lt) && Sorted(lt, names)
    ensures Sorted(lt, Placed(lt, names, name))
  {
    var i := InsertIndex(lt, names, name);
    InsertKeepsSorted(lt, names, name);
    hide InsertIndex, Without, Sorted;
    SortedParts(lt, names[..i], name, names[i..]);
    WithoutKeepsSorted(lt, names[..i], name);
    WithoutKeepsSorted(lt, names[i..], name);
    SortedParts(lt, Without(names[..i], name), name, Without(names[i..], name));
  }

  /** A new name in the place of the old one collates between its neighbours. */
  ghost predicate Fits(lt: Order, names: seq<Name>, before: Name, after: Name) {
    forall k :: 0 <= k < |names| && names[k] == before ==>
      (k > 0 ==> !lt(after, names[k - 1])) && (k < |names| - 1 ==> !lt(names[k + 1], after))
  }

  lemma ReplacedSortedIff(lt: Order, names: seq<Name>, before: Name, after: Name)
    requires Collates(lt) && Sorted(lt, names) && Distinct(names) && before in names
    ensures Sorted(lt, Replaced(names, before, after)) <==> Fits(lt, names, before, after)
  {
    var k :| 0 <= k < |names| && names[k] == before;
    ReplacedAt(names, before, after, k);
    FitsAt(lt, names, before, after, k);
    var r := names[k := after];
    if Fits(lt, names, before, after) {
      FittingIsSorted(lt, names, after, k);
    }
    if Sorted(lt, r) {
      assert k > 0 ==> !lt(r[k], r[k - 1]);
      assert k < |names| - 1 ==> !lt(r[k + 1], r[k]);
    }
  }

  lemma FitsAt(lt: Order, names: seq<Name>, before: Name, after: Name, k: nat)
    requires Distinct(names) && k < |names| && names[k] == before
    ensures Fits(lt, names, before, after)
       <==> (k > 0 ==> !lt(after, names[k - 1])) && (k < |names| - 1 ==> !lt(names[k + 1], after))
  {
    forall j | 0 <= j < |names| && j != k ensures names[j] != before {
    }
  }

  lemma FittingIsSorted(lt: Order, names: seq<Name>, after: Name, k: nat)
    requires Collates(lt) && Sorted(lt, names) && k < |names|
    requires (k > 0 ==> !lt(after, names[k - 1])) && (k < |names| - 1 ==> !lt(names[k + 1], after))
    ensures Sorted(lt, names[k := after])
  {
    var r := names[k := after];
    forall i, j | 0 <= i < j < |r| ensures !lt(r[j], r[i]) {
      if j == k {
        assert i == k - 1 || !lt(names[k - 1], names[i]);
        NotLess(lt, after, names[k - 1], names[i]);
      } else if i == k {
        assert j == k + 1 || !lt(names[j], names[k + 1]);
        NotLess(lt, names[j], names[k + 1], after);
      }
    }
  }

  lemma NotLess(lt: Order, a: Name, b: Name, c: Name)
    requires Collates(lt)
    ensures !lt(a, b) && (b == c || !lt(b, c)) ==> !lt(a, c)
    ensures (a == b || !lt(a, b)) && !lt(b, c) ==> !lt(a, c)
  {
  }

  /**
   * Renaming into another directory keeps siblings in order; within one directory it does so exactly if the new name
   * fits in where the old one was, because nothing is sorted again.
   */
  lemma RenameSortedIff(lt: Order, s: Store, p: Path, q: Path)
    requires Collates(lt) && Valid(s) && SiblingsSorted(lt, s) && CanRename(s, p, q)
    ensures SiblingsSorted(lt, Rename(lt, s, p, q))
        <==> (p.dir == q.dir ==> Fits(lt, Without(s[q.dir].children, q.name), p.name, q.name))
  {
    hide Collates, Sorted, Fits, InsertIndex, Placed, Without, Replaced;
    var t := Rename(lt, s, p, q);
    var names := s[q.dir].children;
    assert ValidEntry(s, p) && ValidEntry(s, q.dir);
    WithoutKeepsSorted(lt, names, q.name);
    WithoutKeepsSorted(lt, s[p.dir].children, p.name);
    PlacedKeepsSorted(lt, names, q.name);
    WithoutMembers(names, q.name);
    if p.dir == q.dir {
      ReplacedSortedIff(lt, Without(names, q.name), p.name, q.name);
    }
    assert q.dir in t && t[q.dir].children == Relisted(lt, s, p, q, q.dir) by {
      assert Below(q, q) && q.dir != q;
    }
  }

  /** Files `/a` and `/b`, where `b` collates right after `a`: renaming `/a` to `/c` leaves it in front of `/b`. */
  lemma RenamedPastNeighbour(lt: Order)
    requires Collates(lt) && lt([97], [98]) && lt([98], [99])
    ensures var s, p, q := TwoFiles(), Sub(Root, [97]), Sub(Root, [99]);
      && Valid(s) && SiblingsSorted(lt, s) && CanRename(s, p, q)
      && Rename(lt, s, p, q)[Root].children == [[99], [98]] && !SiblingsSorted(lt, Rename(lt, s, p, q))
  {
    hide Collates, Relisted, Valid;
    var s, p, q := TwoFiles(), Sub(Root, [97]), Sub(Root, [99]);
    TwoFilesAre();
    TwoNames();
    RelistedTwo(lt);
    RenameAt(lt, s, p, q, Root);
    var t := Rename(lt, s, p, q);
    var names := t[Root].children;
    assert names == [[99], [98]] && lt(names[1], names[0]);
    Apart(lt, [97], [98]);
  }

  lemma Apart(lt: Order, a: Name, b: Name)
    requires Collates(lt) && lt(a, b)
    ensures !lt(b, a)
  {
  }

  lemma TwoNames()
    ensures var names: seq<Name> := [[97], [98]];
      Distinct(names) && Without(names, [99]) == names && Replaced(names, [97], [99]) == [[99], [98]]
  {
    var names: seq<Name> := [[97], [98]];
    assert names[0] == [97] && names[1] == [98] && names[0][0] != names[1][0];
    WithoutAbsent(names, [99]);
    ReplacedAt(names, [97], [99], 0);
  }

  lemma RelistedTwo(lt: Order)
    ensures Relisted(lt, TwoFiles(), Sub(Root, [97]), Sub(Root, [99]), Root) == [[99], [98]]
  {
    TwoNames();
  }

  /** Files `/a` and `/b`. */
  function TwoFiles(): Store {
    map[Root := Entry(DIRECTORY, [], [[97], [98]]), Sub(Root, [97]) := Entry(FILE, [], []),
        Sub(Root, [98]) := Entry(FILE, [], [])]
  }

  lemma TwoFilesAre()
    ensures Valid(TwoFiles()) && AllTyped(TwoFiles())
    ensures TwoFiles().Keys == {Root, Sub(Root, [97]), Sub(Root, [98])}
  {
    var s := TwoFiles();
    var names: seq<Name> := [[97], [98]];
    assert names[0] == [97] && names[1] == [98] && names[0][0] != names[1][0];
    assert ValidEntry(s, Root) && ValidEntry(s, Sub(Root, [97])) && ValidEntry(s, Sub(Root, [98]));
  }
}
