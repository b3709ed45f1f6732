/** Whole runs of operations: the hash never loses step with the tree, and whatever was built can be saved. */
module DciRuns {
  import opened Bytes
  import opened DciFormat
  import opened DciStore
  import opened DciTree
  import opened DciLinks

  datatype Op =
    | MakeDir(p: Path)
    | WriteFile(p: Path, data: seq<Byte>, override: bool)
    | MakeLink(source: seq<Byte>, p: Path)
    | CopyTree(from: Path, to: Path)
    | RemoveTree(p: Path)
    | Rename(p: Path, q: Path)

  /** The call returns, a removal takes nothing but leaves below a node, and a renamed node has nothing below it. */
  ghost predicate Enabled(s: Store, op: Op) {
    match op
    case WriteFile(p, _, override) => override ==> Stops(s, p, |s|)
    case RemoveTree(p) => if p.Root? then CanClear(s) else p in s ==> p.dir in s && CanRemove(s, p)
    case Rename(p, q) => CanRename(s, p, q)
    case _ => true
  }

  ghost function Apply(lt: Order, s: Store, op: Op): Store
    requires Enabled(s, op)
  {
    match op
    case MakeDir(p) => Mkdir(lt, s, p).0
    case WriteFile(p, data, override) => Write(lt, s, p, data, override, |s|).0
    case MakeLink(source, p) => Link(lt, s, source, p).0
    case CopyTree(from, to) => Copy(lt, s, from, to).0
    case RemoveTree(p) => if p.Root? then Clear(s) else if p in s then Remove(s, p) else s
    case Rename(p, q) => DciStore.Rename(lt, s, p, q)
  }

  /** The operations, one after the other, lead from `s` to `t`. */
  ghost predicate Runs(lt: Order, s: Store, ops: seq<Op>, t: Store)
    decreases |ops|
  {
    if ops == [] then s == t
    else Enabled(s, ops[0]) && Runs(lt, Apply(lt, s, ops[0]), ops[1..], t)
  }

  lemma OpKeepsValid(lt: Order, s: Store, op: Op)
    requires Valid(s) && Enabled(s, op)
    ensures Valid(Apply(lt, s, op))
  {
    match op
    case MakeDir(p) =>
      if CanMake(s, p) {
        AttachValid(lt, s, p, Entry(DIRECTORY, [], []));
      }
    case WriteFile(p, data, override) => WriteValid(lt, s, p, data, override, |s|);
    case MakeLink(source, p) =>
      if CanMake(s, p) {
        AttachValid(lt, s, p, Entry(SYMLINK, source, []));
      }
    case CopyTree(from, to) => CopyValid(lt, s, from, to);
    case RemoveTree(p) =>
      if p.Root? {
        ClearValid(s);
      } else if p in s {
        RemoveValid(s, p);
      }
    case Rename(p, q) => RenameValid(lt, s, p, q);
  }

  // ---- Listings stay in order ----

  lemma AttachKeepsSorted(lt: Order, s: Store, p: Path, e: Entry)
    requires Collates(lt) && SiblingsSorted(lt, s) && p.Sub? && p.dir in s && e.children == []
    ensures SiblingsSorted(lt, Attach(lt, s, p, e))
  {
    hide Insert, Collates;
    InsertKeepsSorted(lt, s[p.dir].children, p.name);
  }

  /** Such a renaming keeps siblings in order only under the condition of `RenameSortedIff`. */
  predicate RenamesInPlace(op: Op) {
    op.Rename? && op.p.Sub? && op.q.Sub? && op.p.dir == op.q.dir
  }

  lemma CopyKeepsSorted(lt: Order, s: Store, from: Path, to: Path)
    requires Collates(lt) && Valid(s) && SiblingsSorted(lt, s)
    ensures SiblingsSorted(lt, Copy(lt, s, from, to).0)
  {
    hide Insert, Collates, Graft, Attach, SortNames;
    if from in s && CanMake(s, to) {
      AttachKeepsSorted(lt, s, to, Entry(FILE, [], []));
      forall q | q in Graft(lt, s, from, to) ensures Sorted(lt, Graft(lt, s, from, to)[q].children) {
        GraftSource(lt, s, from, to, q);
        SortNamesSorts(lt, s[Rebase(to, from, q)].children);
      }
    }
  }

  lemma OpKeepsSorted(lt: Order, s: Store, op: Op)
    requires Collates(lt) && Valid(s) && SiblingsSorted(lt, s) && Enabled(s, op) && !RenamesInPlace(op)
    ensures SiblingsSorted(lt, Apply(lt, s, op))
  {
    hide Collates, Attach, Insert;
    match op
    case MakeDir(p) =>
      if CanMake(s, p) {
        AttachKeepsSorted(lt, s, p, Entry(DIRECTORY, [], []));
      }
    case WriteFile(p, data, override) =>
      if p !in s && CanMake(s, p) {
        AttachKeepsSorted(lt, s, p, Entry(FILE, data, []));
      }
    case MakeLink(source, p) =>
      if CanMake(s, p) {
        AttachKeepsSorted(lt, s, p, Entry(SYMLINK, source, []));
      }
    case CopyTree(from, to) => CopyKeepsSorted(lt, s, from, to);
    case RemoveTree(p) =>
      if p.Sub? && p in s {
        WithoutKeepsSorted(lt, s[p.dir].children, p.name);
      }
    case Rename(p, q) => RenameSortedIff(lt, s, p, q);
  }

  /** From the empty archive, or any other sound one, every run ends in a sound one, and a sorted one stays sorted. */
  lemma {:induction false} RunsStaySound(lt: Order, s: Store, ops: seq<Op>, t: Store)
    requires Valid(s) && Runs(lt, s, ops, t)
    ensures Valid(t)
    ensures Collates(lt) && SiblingsSorted(lt, s) && (forall op <- ops :: !RenamesInPlace(op)) ==> SiblingsSorted(lt, t)
    decreases |ops|
  {
    hide Valid, Collates, SiblingsSorted, Enabled, Apply, RenamesInPlace;
    if ops != [] {
      OpKeepsValid(lt, s, ops[0]);
      if Collates(lt) && SiblingsSorted(lt, s) && !RenamesInPlace(ops[0]) {
        OpKeepsSorted(lt, s, ops[0]);
      }
      RunsStaySound(lt, Apply(lt, s, ops[0]), ops[1..], t);
    }
  }

  // ---- Only directories hold entries ----

  lemma OpKeepsTyped(lt: Order, s: Store, op: Op)
    requires Valid(s) && AllTyped(s) && Enabled(s, op)
    ensures AllTyped(Apply(lt, s, op)) <==> (op.Rename? ==> s[op.q.dir].kind == DIRECTORY)
  {
    hide Attach, Stops;
    match op
    case MakeDir(p) =>
      if CanMake(s, p) {
        AttachTyped(lt, s, p, Entry(DIRECTORY, [], []));
      }
    case WriteFile(p, data, override) => WriteTyped(lt, s, p, data, override, |s|);
    case MakeLink(source, p) =>
      if CanMake(s, p) {
        AttachTyped(lt, s, p, Entry(SYMLINK, source, []));
      }
    case CopyTree(from, to) => CopyTyped(lt, s, from, to);
    case RemoveTree(p) =>
      if p.Root? {
        ClearValid(s);
      } else if p in s {
        RemoveTyped(s, p);
      }
    case Rename(p, q) => RenameTypedIff(lt, s, p, q);
  }

  /** Whatever is renamed goes to a directory. */
  ghost predicate RenamesToDirectories(lt: Order, s: Store, ops: seq<Op>)
    decreases |ops|
  {
    ops != [] && Enabled(s, ops[0]) ==>
      && (ops[0].Rename? ==> s[ops[0].q.dir].kind == DIRECTORY)
      && RenamesToDirectories(lt, Apply(lt, s, ops[0]), ops[1..])
  }

  lemma {:induction false} RunsStayTyped(lt: Order, s: Store, ops: seq<Op>, t: Store)
    requires Valid(s) && AllTyped(s) && Runs(lt, s, ops, t) && RenamesToDirectories(lt, s, ops)
    ensures AllTyped(t)
    decreases |ops|
  {
    hide Valid, AllTyped, Enabled, Apply;
    if ops != [] {
      OpKeepsValid(lt, s, ops[0]);
      OpKeepsTyped(lt, s, ops[0]);
      RunsStayTyped(lt, Apply(lt, s, ops[0]), ops[1..], t);
    }
  }

  // ---- Looking a path up is walking there ----

  /** `p` can be reached from the root through the listings. */
  ghost predicate Reached(s: Store, p: Path) {
    p.Root? || (Reached(s, p.dir) && p.dir in s && p.name in s[p.dir].children)
  }

  lemma {:induction false} LookupIsWalking(s: Store, p: Path)
    requires Valid(s)
    ensures p in s <==> Reached(s, p)
  {
    if p.Sub? {
      LookupIsWalking(s, p.dir);
      if p in s {
        assert ValidEntry(s, p);
      }
      if p.dir in s {
        assert ValidEntry(s, p.dir);
      }
    }
  }

  // ---- Whatever was built can be saved and loaded again ----

  /** The caller's part: names are not empty and hold no NUL; the archive itself bounds their length. */
  predicate CleanName(p: Path) {
    p.Sub? ==> p.name != [] && 0 !in p.name
  }

  predicate Clean(op: Op) {
    match op
    case MakeDir(p) => CleanName(p)
    case WriteFile(p, _, _) => CleanName(p)
    case MakeLink(_, p) => CleanName(p)
    case CopyTree(_, to) => CleanName(to)
    case RemoveTree(_) => true
    case Rename(_, q) => q.Sub? ==> ValidName(q.name)
  }

  lemma CopyKeepsNames(lt: Order, s: Store, from: Path, to: Path)
    requires Valid(s) && NamesFit(s) && CleanName(to)
    ensures NamesFit(Copy(lt, s, from, to).0)
  {
    hide Attach, Graft;
    if from in s && CanMake(s, to) {
      var r := Copy(lt, s, from, to).0;
      CopyKeys(lt, s, from, to);
      forall q | q in r && q.Sub? ensures ValidName(q.name) {
        if q !in s {
          GraftSource(lt, s, from, to, q);
        }
      }
    }
  }

  lemma OpKeepsNames(lt: Order, s: Store, op: Op)
    requires Valid(s) && NamesFit(s) && Enabled(s, op) && Clean(op)
    ensures NamesFit(Apply(lt, s, op))
  {
    hide Insert;
    if op.CopyTree? {
      CopyKeepsNames(lt, s, op.from, op.to);
    }
  }

  lemma {:induction false} RunsKeepNames(lt: Order, s: Store, ops: seq<Op>, t: Store)
    requires Valid(s) && NamesFit(s) && Runs(lt, s, ops, t)
    requires forall op <- ops :: Clean(op)
    ensures NamesFit(t)
    decreases |ops|
  {
    hide Valid, NamesFit, Enabled, Apply, Clean;
    if ops != [] {
      OpKeepsValid(lt, s, ops[0]);
      OpKeepsNames(lt, s, ops[0]);
      RunsKeepNames(lt, Apply(lt, s, ops[0]), ops[1..], t);
    }
  }

  /** What a run from the empty archive builds loads as it was saved exactly if the format can hold it. */
  lemma RunsSurviveSavingIff(lt: Order, ops: seq<Op>, t: Store, data: seq<Byte>)
    requires Runs(lt, EMPTY, ops, t)
    ensures Valid(t)
    ensures IsSaved(t, data) && |data| < SIZE_LIMIT ==>
      (Parse(data) == Ok(TreeAt(t, Root)) <==> AllTyped(t) && NamesFit(t) && |t[Root].children| < COUNT_LIMIT)
  {
    RunsStaySound(lt, EMPTY, ops, t);
    if IsSaved(t, data) && |data| < SIZE_LIMIT {
      SurvivesSavingIff(t, data);
    }
  }

  /** With clean names and renamings into directories that is so, as long as the root is not too full. */
  lemma RunsSurviveSaving(lt: Order, ops: seq<Op>, t: Store, data: seq<Byte>)
    requires Runs(lt, EMPTY, ops, t) && (forall op <- ops :: Clean(op)) && RenamesToDirectories(lt, EMPTY, ops)
    ensures Valid(t)
    ensures IsSaved(t, data) && |data| < SIZE_LIMIT && |t[Root].children| < COUNT_LIMIT ==>
              Parse(data) == Ok(TreeAt(t, Root))
  {
    RunsStaySound(lt, EMPTY, ops, t);
    RunsStayTyped(lt, EMPTY, ops, t);
    RunsKeepNames(lt, EMPTY, ops, t);
    if IsSaved(t, data) && |data| < SIZE_LIMIT && |t[Root].children| < COUNT_LIMIT {
      StoreSurvivesSaving(t, data);
    }
  }
}
