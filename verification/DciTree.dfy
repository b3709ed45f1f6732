/** The tree an index describes: copies are isomorphic, and the index alone gives the size of the image. */
module DciTree {
  import opened Bytes
  import opened DciFormat
  import opened DciStore

  ghost function BelowSet(s: Store, p: Path): set<Path> {
    set q | q in s && Below(p, q)
  }

  lemma {:induction false} BelowTransitive(p: Path, q: Path, r: Path)
    requires Below(p, q) && Below(q, r)
    ensures Below(p, r)
  {
    if r != q {
      BelowTransitive(p, q, r.dir);
    }
  }

  lemma ChildIsSmaller(s: Store, p: Path, c: Name)
    requires p in s
    ensures BelowSet(s, Sub(p, c)) < BelowSet(s, p)
  {
    forall q <- BelowSet(s, Sub(p, c)) ensures q in BelowSet(s, p) {
      BelowTransitive(p, Sub(p, c), q);
    }
    if Below(Sub(p, c), p) {
      BelowIsLower(Sub(p, c), p);
    }
    assert p in BelowSet(s, p) && p !in BelowSet(s, Sub(p, c));
  }

  /** The node at `p` with everything below it, children in listing order. */
  ghost function TreeAt(s: Store, p: Path): Tree
    requires Valid(s) && p in s
    decreases BelowSet(s, p), |s[p].children| + 1
  {
    assert ValidEntry(s, p);
    Tree(s[p].kind, if p.Root? then [] else p.name, s[p].data, TreesFrom(s, p, 0))
  }

  ghost function TreesFrom(s: Store, p: Path, i: nat): (ts: seq<Tree>)
    requires Valid(s) && p in s && i <= |s[p].children|
    ensures |ts| == |s[p].children| - i
    decreases BelowSet(s, p), |s[p].children| - i
  {
    if i == |s[p].children| then []
    else
      var c := s[p].children[i];
      assert ValidEntry(s, p);
      ChildIsSmaller(s, p, c);
      [TreeAt(s, Sub(p, c))] + TreesFrom(s, p, i + 1)
  }

  lemma {:induction false} TreesFromAt(s: Store, p: Path, i: nat)
    requires Valid(s) && p in s && i < |s[p].children|
    ensures Sub(p, s[p].children[i]) in s
    ensures TreesFrom(s, p, 0)[i] == TreeAt(s, Sub(p, s[p].children[i]))
  {
    assert ValidEntry(s, p);
    var k := 0;
    while k < i
      invariant k <= i && TreesFrom(s, p, 0)[i] == TreesFrom(s, p, k)[i - k]
    {
      k := k + 1;
    }
  }

  // ---- The tree says all there is to say ----

  /** Nodes of the same tree have the same entry, and children of the same names with the same trees. */
  lemma SameTreeSameEntry(s: Store, t: Store, p: Path)
    requires Valid(s) && Valid(t) && p in s && p in t && TreeAt(s, p) == TreeAt(t, p)
    ensures s[p] == t[p]
    ensures forall c <- s[p].children ::
      Sub(p, c) in s && Sub(p, c) in t && TreeAt(s, Sub(p, c)) == TreeAt(t, Sub(p, c))
  {
    var a, b := s[p].children, t[p].children;
    assert |a| == |b|;
    forall i | 0 <= i < |a|
      ensures a[i] == b[i] && Sub(p, a[i]) in s && Sub(p, a[i]) in t
      ensures TreeAt(s, Sub(p, a[i])) == TreeAt(t, Sub(p, a[i]))
    {
      TreesFromAt(s, p, i);
      TreesFromAt(t, p, i);
      assert TreeAt(s, Sub(p, a[i])).name == a[i] && TreeAt(t, Sub(p, b[i])).name == b[i];
    }
  }

  lemma {:induction false} SameTreesDown(s: Store, t: Store, q: Path)
    requires Valid(s) && Valid(t) && TreeAt(s, Root) == TreeAt(t, Root) && q in s
    ensures q in t && TreeAt(s, q) == TreeAt(t, q) && s[q] == t[q]
  {
    if q.Sub? {
      assert ValidEntry(s, q);
      SameTreesDown(s, t, q.dir);
      SameTreeSameEntry(s, t, q.dir);
    }
    SameTreeSameEntry(s, t, q);
  }

  /** Two sound stores of one tree are the same: paths, types, data and the order of names. */
  lemma TreeIsAll(s: Store, t: Store)
    requires Valid(s) && Valid(t) && TreeAt(s, Root) == TreeAt(t, Root)
    ensures s == t
  {
    forall q | q in s ensures q in t && s[q] == t[q] {
      SameTreesDown(s, t, q);
    }
    forall q | q in t ensures q in s {
      SameTreesDown(t, s, q);
    }
  }

  // ---- A copy is isomorphic to its source ----

  /** Same kinds, contents and names; only the order of siblings may differ. */
  ghost predicate Isomorphic(s: Store, p: Path, t: Store, q: Path)
  {
    && (forall x :: x in s && Below(p, x) ==> Rebase(p, q, x) in t)
    && (forall y :: y in t && Below(q, y) ==> Rebase(q, p, y) in s)
    && (forall x :: x in s && Below(p, x) && Rebase(p, q, x) in t ==>
          var y := Rebase(p, q, x);
          && t[y].kind == s[x].kind && t[y].data == s[x].data
          && multiset(t[y].children) == multiset(s[x].children))
  }

  lemma CopyIsIsomorphic(lt: Order, s: Store, from: Path, to: Path)
    requires Valid(s) && Copy(lt, s, from, to).1
    ensures Isomorphic(s, from, Copy(lt, s, from, to).0, to)
  {
    hide Insert, Graft, Attach, SortNames;
    var r, g := Copy(lt, s, from, to).0, Graft(lt, s, from, to);
    forall x | x in s && Below(from, x)
      ensures var y := Rebase(from, to, x);
              && y in r && r[y].kind == s[x].kind && r[y].data == s[x].data
              && multiset(r[y].children) == multiset(s[x].children)
    {
      var y := Rebase(from, to, x);
      Grafted(lt, s, from, to, x);
      GraftSource(lt, s, from, to, y);
      RebaseBack(from, to, x);
    }
    CopyKeys(lt, s, from, to);
    forall y | y in r && Below(to, y) ensures Rebase(to, from, y) in s {
      if y in s {
        NothingBelowMissing(s, to, y);
      }
      GraftSource(lt, s, from, to, y);
    }
  }

  /** What is copied is listed in order, also where its source is not. */
  lemma CopySorts(lt: Order, s: Store, from: Path, to: Path, q: Path)
    requires Collates(lt) && Valid(s) && Copy(lt, s, from, to).1 && Below(to, q) && q in Copy(lt, s, from, to).0
    ensures Sorted(lt, Copy(lt, s, from, to).0[q].children)
  {
    hide Graft, Collates, SortNames, Insert;
    NothingBelowMissing(s, to, q);
    CopyKeys(lt, s, from, to);
    GraftSource(lt, s, from, to, q);
    SortNamesSorts(lt, s[Rebase(to, from, q)].children);
  }

  /** Nothing but the listing of the new node's directory changes, and that gains just the new name. */
  lemma CopyLeavesTheRest(lt: Order, s: Store, from: Path, to: Path)
    requires Valid(s) && Copy(lt, s, from, to).1
    ensures forall q <- s :: q in Copy(lt, s, from, to).0
    ensures forall q <- s :: q != to.dir ==> Copy(lt, s, from, to).0[q] == s[q]
    ensures var e := Copy(lt, s, from, to).0[to.dir];
            && e.kind == s[to.dir].kind && e.data == s[to.dir].data
            && e.children == Insert(lt, s[to.dir].children, to.name)
    ensures forall q <- Copy(lt, s, from, to).0 :: q in s || Below(to, q)
  {
    hide Insert, Graft;
    forall q | q in s
      ensures q in Copy(lt, s, from, to).0
      ensures Copy(lt, s, from, to).0[q] == Attach(lt, s, to, Entry(FILE, [], []))[q]
    {
      OldEntryKept(lt, s, from, to, q);
    }
    forall q | q in Copy(lt, s, from, to).0 && q !in s ensures Below(to, q) {
      CopyKeys(lt, s, from, to);
      GraftSource(lt, s, from, to, q);
    }
  }

  lemma CopiedEntry(lt: Order, s: Store, from: Path, to: Path, x: Path)
    requires Valid(s) && SiblingsSorted(lt, s) && Copy(lt, s, from, to).1
    requires x in s && Below(from, x)
    ensures var r, y := Copy(lt, s, from, to).0, Rebase(from, to, x); y in r && r[y] == s[x]
  {
    hide Insert, Graft, Attach, SortNames;
    Grafted(lt, s, from, to, x);
    GraftSource(lt, s, from, to, Rebase(from, to, x));
    RebaseBack(from, to, x);
    SortNamesOfSorted(lt, s[x].children);
  }

  lemma {:induction false} CopiedTrees(lt: Order, s: Store, from: Path, to: Path, x: Path, i: nat)
    requires Valid(s) && SiblingsSorted(lt, s) && Copy(lt, s, from, to).1
    requires x in s && Below(from, x) && i <= |s[x].children|
    requires var r, y := Copy(lt, s, from, to).0, Rebase(from, to, x); Valid(r) && y in r && r[y] == s[x]
    ensures TreesFrom(Copy(lt, s, from, to).0, Rebase(from, to, x), i) == TreesFrom(s, x, i)
    decreases BelowSet(s, x), |s[x].children| - i
  {
    hide Copy;
    if i < |s[x].children| {
      var c := s[x].children[i];
      assert ValidEntry(s, x);
      ChildIsSmaller(s, x, c);
      BelowTransitive(from, x, Sub(x, c));
      BelowIsLower(from, x);
      CopiedEntry(lt, s, from, to, Sub(x, c));
      CopiedTrees(lt, s, from, to, Sub(x, c), 0);
      CopiedTrees(lt, s, from, to, x, i + 1);
    }
  }

  /** With sorted listings even the order agrees: the copy is the source tree under its new name. */
  lemma CopyIsTheSameTree(lt: Order, s: Store, from: Path, to: Path)
    requires Valid(s) && SiblingsSorted(lt, s) && Copy(lt, s, from, to).1
    ensures Valid(Copy(lt, s, from, to).0) && to in Copy(lt, s, from, to).0
    ensures TreeAt(Copy(lt, s, from, to).0, to) == TreeAt(s, from).(name := to.name)
  {
    CopyValid(lt, s, from, to);
    CopiedEntry(lt, s, from, to, from);
    CopiedTrees(lt, s, from, to, from, 0);
  }

  // ---- The size of the image, computed from the index ----

  /** What `toData` adds up per index entry: the meta data and the bytes of files and links. */
  function Weight(e: Entry): nat {
    META_SIZE + if e.kind == FILE || e.kind == SYMLINK then |e.data| else 0
  }

  ghost function SumOver(s: Store, keys: set<Path>): nat
    requires keys <= s.Keys
  {
    if keys == {} then 0
    else
      var q :| q in keys;
      Weight(s[q]) + SumOver(s, keys - {q})
  }

  lemma {:induction false} SumRemove(s: Store, keys: set<Path>, q: Path)
    requires keys <= s.Keys && q in keys
    ensures SumOver(s, keys) == Weight(s[q]) + SumOver(s, keys - {q})
    decreases |keys|
  {
    var x :| x in keys && SumOver(s, keys) == Weight(s[x]) + SumOver(s, keys - {x});
    if x != q {
      SumRemove(s, keys - {x}, q);
      SumRemove(s, keys - {q}, x);
      assert keys - {x} - {q} == keys - {q} - {x};
    }
  }

  /** What is left of the sum without the meta data of each key. */
  ghost function ContentOver(s: Store, keys: set<Path>): int
    requires keys <= s.Keys
  {
    SumOver(s, keys) - |keys| * META_SIZE
  }

  lemma ContentEnds(s: Store)
    ensures ContentOver(s, {}) == 0
    ensures ContentOver(s, s.Keys) + |s| * META_SIZE == SumOver(s, s.Keys)
  {
    assert |s.Keys| == |s|;
  }

  lemma ContentAdd(s: Store, keys: set<Path>, q: Path)
    requires keys <= s.Keys && q in s && q !in keys
    ensures ContentOver(s, keys + {q}) == ContentOver(s, keys) + Weight(s[q]) - META_SIZE
  {
    SumRemove(s, keys + {q}, q);
    assert keys + {q} - {q} == keys;
  }

  lemma {:induction false} SumUnion(s: Store, a: set<Path>, b: set<Path>)
    requires a <= s.Keys && b <= s.Keys && a !! b
    ensures SumOver(s, a + b) == SumOver(s, a) + SumOver(s, b)
    decreases |a|
  {
    if a == {} {
      assert a + b == b;
    } else {
      var x :| x in a;
      SumRemove(s, a, x);
      SumRemove(s, a + b, x);
      assert (a + b) - {x} == (a - {x}) + b;
      SumUnion(s, a - {x}, b);
    }
  }

  /** The first step on the way from `p` down to `q`. */
  function Branch(p: Path, q: Path): Name
    requires Below(p, q) && p != q
  {
    if q.dir == p then q.name else Branch(p, q.dir)
  }

  lemma {:induction false} BranchLeads(p: Path, q: Path, c: Name)
    requires Below(p, q) && p != q
    ensures Below(Sub(p, c), q) <==> Branch(p, q) == c
    decreases q
  {
    if q.dir == p {
      if Below(Sub(p, c), q) && q != Sub(p, c) {
        BelowIsLower(Sub(p, c), p);
      }
    } else {
      BranchLeads(p, q.dir, c);
    }
  }

  lemma {:induction false} BranchIsListed(s: Store, p: Path, q: Path)
    requires Valid(s) && q in s && Below(p, q) && p != q
    ensures p in s && Branch(p, q) in s[p].children
    decreases q
  {
    assert ValidEntry(s, q);
    if q.dir != p {
      BranchIsListed(s, p, q.dir);
    }
  }

  /** The writer comes to `q` from `p`: whatever it passes on the way is a directory. */
  ghost predicate Reaches(s: Store, p: Path, q: Path) {
    q == p || (q.Sub? && q.dir in s && s[q.dir].kind == DIRECTORY && Reaches(s, p, q.dir))
  }

  ghost function WrittenSet(s: Store, p: Path): set<Path> {
    set q | q in s && Reaches(s, p, q)
  }

  lemma {:induction false} ReachesDown(s: Store, p: Path, q: Path)
    requires Reaches(s, p, q)
    ensures Below(p, q)
    ensures q != p ==> p in s && s[p].kind == DIRECTORY
  {
    if q != p {
      ReachesDown(s, p, q.dir);
    }
  }

  /** The first step on the way down from a directory. */
  lemma {:induction false} ReachesThrough(s: Store, p: Path, q: Path, c: Name)
    requires p in s && s[p].kind == DIRECTORY
    ensures Reaches(s, Sub(p, c), q) <==> Reaches(s, p, q) && q != p && Below(p, q) && Branch(p, q) == c
    decreases q
  {
    if Reaches(s, p, q) {
      ReachesDown(s, p, q);
    }
    if q == p {
      if Reaches(s, Sub(p, c), q) {
        ReachesDown(s, Sub(p, c), q);
        BelowIsLower(Sub(p, c), p);
      }
    } else if q.Sub? && q != Sub(p, c) {
      ReachesThrough(s, p, q.dir, c);
      if Reaches(s, Sub(p, c), q) && q.dir == p {
        ReachesDown(s, Sub(p, c), p);
        BelowIsLower(Sub(p, c), p);
      }
    }
  }

  /** What is written of the children of `p` from the `i`-th on. */
  ghost function BranchSet(s: Store, p: Path, i: nat): set<Path>
    requires p in s && i <= |s[p].children|
  {
    set q | q in s && Reaches(s, p, q) && q != p && OnBranch(p, q, s[p].children[i..])
  }

  predicate OnBranch(p: Path, q: Path, names: seq<Name>) {
    Below(p, q) && q != p && Branch(p, q) in names
  }

  lemma BranchSetSplits(s: Store, p: Path, i: nat)
    requires Valid(s) && p in s && s[p].kind == DIRECTORY && i < |s[p].children|
    ensures var child := Sub(p, s[p].children[i]);
            && BranchSet(s, p, i) == WrittenSet(s, child) + BranchSet(s, p, i + 1)
            && WrittenSet(s, child) !! BranchSet(s, p, i + 1)
  {
    var names := s[p].children;
    var c := names[i];
    assert ValidEntry(s, p);
    assert names[i..] == [c] + names[i + 1..];
    assert c !in names[i + 1..];
    forall q | q in s
      ensures q in WrittenSet(s, Sub(p, c)) <==> Reaches(s, p, q) && q != p && Below(p, q) && Branch(p, q) == c
    {
      ReachesThrough(s, p, q, c);
      if Reaches(s, p, q) {
        ReachesDown(s, p, q);
      }
    }
    forall q | q in s && Reaches(s, p, q)
      ensures Below(p, q)
    {
      ReachesDown(s, p, q);
    }
  }

  lemma WrittenSetSplits(s: Store, p: Path)
    requires Valid(s) && p in s
    ensures WrittenSet(s, p) == {p} + BranchSet(s, p, 0)
    ensures s[p].kind != DIRECTORY ==> BranchSet(s, p, 0) == {}
  {
    forall q | q in s && Reaches(s, p, q) && q != p
      ensures q in BranchSet(s, p, 0) && s[p].kind == DIRECTORY
    {
      ReachesDown(s, p, q);
      BranchIsListed(s, p, q);
      assert s[p].children[0..] == s[p].children;
    }
  }

  lemma {:induction false} SubtreeSize(s: Store, p: Path)
    requires Valid(s) && p in s
    ensures |Encode(TreeAt(s, p))| == SumOver(s, WrittenSet(s, p))
    ensures |Payload(TreeAt(s, p))| == |Encode(TreeAt(s, p))| - META_SIZE
    decreases BelowSet(s, p), |s[p].children| + 1
  {
    assert ValidEntry(s, p);
    WrittenSetSplits(s, p);
    SumRemove(s, WrittenSet(s, p), p);
    assert WrittenSet(s, p) - {p} == BranchSet(s, p, 0);
    if s[p].kind == DIRECTORY {
      SubtreesSize(s, p, 0);
    }
  }

  lemma {:induction false} SubtreesSize(s: Store, p: Path, i: nat)
    requires Valid(s) && p in s && s[p].kind == DIRECTORY && i <= |s[p].children|
    ensures |EncodeAll(TreesFrom(s, p, i))| == SumOver(s, BranchSet(s, p, i))
    decreases BelowSet(s, p), |s[p].children| - i
  {
    hide Encode, TreeAt, BelowSet, Below, Reaches;
    if i == |s[p].children| {
      assert BranchSet(s, p, i) == {};
    } else {
      var c := s[p].children[i];
      assert ValidEntry(s, p);
      ChildIsSmaller(s, p, c);
      SubtreeSize(s, Sub(p, c));
      SubtreesSize(s, p, i + 1);
      BranchSetSplits(s, p, i);
      SumUnion(s, WrittenSet(s, Sub(p, c)), BranchSet(s, p, i + 1));
      var first, rest := TreeAt(s, Sub(p, c)), TreesFrom(s, p, i + 1);
      assert TreesFrom(s, p, i)[1..] == rest;
    }
  }

  /** The image takes its header and what each entry that is written weighs; the root has no meta data. */
  lemma ImageSize(s: Store)
    requires Valid(s)
    ensures |Image(TreeAt(s, Root))| + META_SIZE == HEADER_SIZE + SumOver(s, WrittenSet(s, Root))
  {
    assert ValidEntry(s, Root);
    SubtreeSize(s, Root);
  }

  // ---- What is counted but not written ----

  /** The entries below a file or a link weigh in the size worked out up front, but the writer never comes to them. */
  ghost function Hidden(s: Store): nat {
    SumOver(s, s.Keys - WrittenSet(s, Root))
  }

  /** What saving gives: the image, and what was in the space reserved for entries that are not written. */
  ghost predicate IsSaved(s: Store, data: seq<Byte>)
    requires Valid(s)
  {
    Image(TreeAt(s, Root)) <= data && |data| == |Image(TreeAt(s, Root))| + Hidden(s)
  }

  lemma SavedSize(s: Store)
    requires Valid(s)
    ensures |Image(TreeAt(s, Root))| + Hidden(s) + META_SIZE == HEADER_SIZE + SumOver(s, s.Keys)
  {
    ImageSize(s);
    SumUnion(s, WrittenSet(s, Root), s.Keys - WrittenSet(s, Root));
    assert WrittenSet(s, Root) + (s.Keys - WrittenSet(s, Root)) == s.Keys;
  }

  /** Nothing is held by what is no directory. */
  ghost predicate OnlyDirectoriesHold(s: Store) {
    forall p <- s :: s[p].children != [] ==> s[p].kind == DIRECTORY
  }

  lemma {:induction false} AllAreReached(s: Store, q: Path)
    requires Valid(s) && OnlyDirectoriesHold(s) && q in s
    ensures Reaches(s, Root, q)
  {
    assert ValidEntry(s, q);
    if q.Sub? {
      AllAreReached(s, q.dir);
    }
  }

  /** The reserved space is used up exactly if only directories hold entries. */
  lemma HiddenIff(s: Store)
    requires Valid(s)
    ensures Hidden(s) == 0 <==> OnlyDirectoriesHold(s)
    ensures Hidden(s) > 0 ==> Hidden(s) >= META_SIZE
  {
    var rest := s.Keys - WrittenSet(s, Root);
    if OnlyDirectoriesHold(s) {
      forall q | q in s ensures q in WrittenSet(s, Root) {
        AllAreReached(s, q);
      }
      assert rest == {};
    } else {
      var p :| p in s && s[p].children != [] && s[p].kind != DIRECTORY;
      var q := Sub(p, s[p].children[0]);
      assert ValidEntry(s, p);
      assert q in s && q in rest;
      SumRemove(s, rest, q);
    }
    if q :| q in rest {
      SumRemove(s, rest, q);
    }
  }

  // ---- What operations build can be saved ----

  ghost predicate NamesFit(s: Store) {
    forall p <- s :: p.Sub? ==> ValidName(p.name)
  }

  /** A renaming keeps names that fit exactly if the new one does: only the length of the whole path is checked. */
  lemma RenameFitsIff(lt: Order, s: Store, p: Path, q: Path)
    requires NamesFit(s) && CanRename(s, p, q)
    ensures NamesFit(Rename(lt, s, p, q)) <==> ValidName(q.name)
  {
    hide Relisted;
    assert q in Rename(lt, s, p, q);
  }

  lemma {:induction false} SubtreesAreSavable(s: Store, p: Path, i: nat)
    requires Valid(s) && AllTyped(s) && NamesFit(s) && p in s && i <= |s[p].children|
    ensures AllSavable(TreesFrom(s, p, i))
    decreases BelowSet(s, p), |s[p].children| - i
  {
    if i < |s[p].children| {
      var child := Sub(p, s[p].children[i]);
      assert ValidEntry(s, p) && ValidEntry(s, child);
      ChildIsSmaller(s, p, s[p].children[i]);
      SubtreesAreSavable(s, child, 0);
      SubtreesAreSavable(s, p, i + 1);
    }
  }

  /** Any typed store with fitting names survives a save and a load, byte for byte and order for order. */
  lemma StoreSurvivesSaving(s: Store, data: seq<Byte>)
    requires Valid(s) && AllTyped(s) && NamesFit(s) && IsSaved(s, data)
    requires |s[Root].children| < COUNT_LIMIT && |data| < SIZE_LIMIT
    ensures data == Image(TreeAt(s, Root)) && Parse(data) == Ok(TreeAt(s, Root))
  {
    assert ValidEntry(s, Root);
    SubtreesAreSavable(s, Root, 0);
    SavedImageLoads(TreeAt(s, Root));
    HiddenIff(s);
  }

  lemma {:induction false} EveryNodeIsSavable(s: Store, q: Path)
    requires Valid(s) && q in s && SavableRoot(TreeAt(s, Root))
    ensures q.Sub? ==> Savable(TreeAt(s, q))
    ensures IsTyped(s[q]) && (q.Sub? ==> ValidName(q.name))
    decreases q
  {
    assert ValidEntry(s, q);
    if q.Sub? {
      EveryNodeIsSavable(s, q.dir);
      var i :| 0 <= i < |s[q.dir].children| && s[q.dir].children[i] == q.name;
      TreesFromAt(s, q.dir, i);
      var trees := TreesFrom(s, q.dir, 0);
      assert AllSavable(trees);
      assert Savable(trees[i]);
      assert |TreesFrom(s, q, 0)| == |s[q].children|;
    } else {
      assert |TreesFrom(s, Root, 0)| == |s[Root].children|;
    }
  }

  /** What is saved loads as the same tree exactly if entries are typed, names fit and the root is not too full. */
  lemma SurvivesSavingIff(s: Store, data: seq<Byte>)
    requires Valid(s) && IsSaved(s, data) && |data| < SIZE_LIMIT
    ensures Parse(data) == Ok(TreeAt(s, Root))
       <==> AllTyped(s) && NamesFit(s) && |s[Root].children| < COUNT_LIMIT
  {
    if AllTyped(s) && NamesFit(s) && |s[Root].children| < COUNT_LIMIT {
      StoreSurvivesSaving(s, data);
    }
    if Parse(data) == Ok(TreeAt(s, Root)) {
      hide IsSaved, Parse;
      LoadedTreeIsSavable(data);
      forall q | q in s ensures IsTyped(s[q]) && (q.Sub? ==> ValidName(q.name)) {
        EveryNodeIsSavable(s, q);
      }
    }
  }

  // ---- What hidden entries do to the image ----

  /** Types are known, and directories have no data. */
  ghost predicate KindsFit(s: Store) {
    forall p <- s :: s[p].kind in {FILE, DIRECTORY, SYMLINK} && (s[p].kind == DIRECTORY ==> s[p].data == [])
  }

  lemma {:induction false} PrunedAreSavable(s: Store, p: Path, i: nat)
    requires Valid(s) && KindsFit(s) && NamesFit(s) && p in s && i <= |s[p].children|
    ensures AllSavable(PrunedAll(TreesFrom(s, p, i)))
    decreases BelowSet(s, p), |s[p].children| - i
  {
    if i < |s[p].children| {
      var child := Sub(p, s[p].children[i]);
      assert ValidEntry(s, p) && ValidEntry(s, child);
      ChildIsSmaller(s, p, s[p].children[i]);
      PrunedAreSavable(s, child, 0);
      PrunedAreSavable(s, p, i + 1);
      var trees := TreesFrom(s, p, i);
      assert trees[0] == TreeAt(s, child) && trees[1..] == TreesFrom(s, p, i + 1);
      assert Savable(Pruned(trees[0]));
    }
  }

  /** With entries below a file or a link nothing of the archive can be loaded any more. */
  lemma HiddenIsRejected(s: Store, data: seq<Byte>)
    requires Valid(s) && KindsFit(s) && NamesFit(s) && |s[Root].children| < COUNT_LIMIT
    requires !OnlyDirectoriesHold(s) && IsSaved(s, data) && |data| < SIZE_LIMIT
    ensures Parse(data).Err?
  {
    HiddenIff(s);
    assert ValidEntry(s, Root);
    PrunedAreSavable(s, Root, 0);
    var image := Image(TreeAt(s, Root));
    var tail := data[|image|..];
    assert data == image + tail;
    LongerIsRejected(TreeAt(s, Root), tail);
  }

  /** Renaming `/b` to `/a/b`, below a file, succeeds, and what is saved after that cannot be loaded. */
  lemma FileAsParent(lt: Order, data: seq<Byte>)
    ensures var s, p, q := TwoFiles(), Sub(Root, [98]), Sub(Sub(Root, [97]), [98]);
      && Valid(s) && AllTyped(s) && NamesFit(s) && CanRename(s, p, q)
      && var t := Rename(lt, s, p, q);
      && Valid(t) && !AllTyped(t) && (IsSaved(t, data) && |data| < SIZE_LIMIT ==> Parse(data).Err?)
  {
    hide Relisted;
    var s, p, q := TwoFiles(), Sub(Root, [98]), Sub(Sub(Root, [97]), [98]);
    TwoFilesAre();
    assert !Below(q, Sub(Root, [97])) && !Below(q, Root) && !Below(p, Sub(Root, [97]));
    RenameValid(lt, s, p, q);
    RenameTypedIff(lt, s, p, q);
    RenameFitsIff(lt, s, p, q);
    var t := Rename(lt, s, p, q);
    RelistedMembers(lt, s, p, q, Sub(Root, [97]));
    assert Sub(Root, [97]) in t && t[Sub(Root, [97])].kind == FILE;
    RelistedMembers(lt, s, p, q, Root);
    OneLess(t[Root].children, Sub(Root, [97]).name);
    if IsSaved(t, data) && |data| < SIZE_LIMIT {
      HiddenIsRejected(t, data);
    }
  }

  /** A name one byte too long to be saved. */
  function LongName(n: nat): (name: Name)
    ensures |name| == n
  {
    if n == 0 then [] else [97] + LongName(n - 1)
  }

  /** Renaming `/b` to a name of 63 bytes succeeds; it is cut when saved, so what is loaded is another tree. */
  lemma LongNameIsCut(lt: Order, data: seq<Byte>)
    ensures var s, p, q := TwoFiles(), Sub(Root, [98]), Sub(Root, LongName(NAME_SIZE));
      && 1 + |q.name| < META_SIZE && CanRename(s, p, q)
      && var t := Rename(lt, s, p, q);
      && Valid(t) && AllTyped(t) && !NamesFit(t)
      && (IsSaved(t, data) && |data| < SIZE_LIMIT ==> Parse(data) != Ok(TreeAt(t, Root)))
  {
    hide Relisted, LongName;
    var s, p, q := TwoFiles(), Sub(Root, [98]), Sub(Root, LongName(NAME_SIZE));
    TwoFilesAre();
    assert !Below(q, Sub(Root, [97])) && !Below(q, Root) && !Below(p, Sub(Root, [97]));
    RenameValid(lt, s, p, q);
    RenameTypedIff(lt, s, p, q);
    RenameFitsIff(lt, s, p, q);
    if IsSaved(Rename(lt, s, p, q), data) && |data| < SIZE_LIMIT {
      SurvivesSavingIff(Rename(lt, s, p, q), data);
    }
  }

  lemma OneLess(names: seq<Name>, name: Name)
    requires Distinct(names) && forall n :: n in names <==> n == name
    ensures |names| == 1
  {
    assert name in names;
    if |names| > 1 {
      TwoDiffer(names, 0, 1);
      assert false;
    }
  }

  lemma TwoDiffer(names: seq<Name>, i: nat, j: nat)
    requires Distinct(names) && i < j < |names|
    ensures names[i] in names && names[j] in names && names[i] != names[j]
  {
  }
}
