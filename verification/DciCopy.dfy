/** The breadth-first copy, step by step: what the store looks like while the list of pending nodes grows. */
module DciCopy {
  import opened Bytes
  import opened DciFormat
  import opened DciStore

  /** A node just made, its type and contents still to be set. */
  const BLANK: Entry := Entry(0, [], [])

  /** What stays fixed during one copy: the store before the call and the two paths. */
  datatype Job = Job(lt: Order, s0: Store, from: Path, to: Path) {
    ghost predicate Valid() {
      DciStore.Valid(s0) && from in s0 && CanMake(s0, to)
    }

    /** `p` is to be copied. */
    ghost predicate Source(p: Path) {
      p in s0 && Below(from, p)
    }

    ghost function Place(p: Path): Path
      requires Source(p)
    {
      Rebase(from, to, p)
    }
  }

  ghost predicate Kept(job: Job, s: Store, q: Path)
    requires job.Valid() && q in job.s0
  {
    q in s && s[q] == Attach(job.lt, job.s0, job.to, BLANK)[q]
  }

  /** Every entry is an old one or belongs to one of the given sources. */
  ghost predicate Known(job: Job, sources: set<Path>, q: Path) {
    q in job.s0 || (Below(job.to, q) && Rebase(job.to, job.from, q) in sources)
  }

  ghost predicate Blank(job: Job, s: Store, p: Path) {
    job.Source(p) && job.Place(p) in s && s[job.Place(p)] == BLANK
  }

  ghost predicate Copied(job: Job, sources: set<Path>, s: Store, p: Path) {
    && job.Source(p) && job.Place(p) in s && s[job.Place(p)] == CopyEntry(job.lt, job.s0[p])
    && forall c <- job.s0[p].children :: Sub(p, c) in sources
  }

  /** A source other than the first is found through its directory. */
  ghost predicate Found(job: Job, dirs: set<Path>, p: Path) {
    p != job.from ==> p.Sub? && p.dir in dirs
  }

  /** The sources in `done` are copied and their children found; those in `pending` only have a blank node. */
  ghost predicate Copying(job: Job, done: set<Path>, pending: set<Path>, s: Store) {
    && job.Valid() && done !! pending && (job.from in done || (done == {} && pending == {job.from}))
    && (forall q {:trigger Kept(job, s, q)} :: q in job.s0 ==> Kept(job, s, q))
    && (forall q {:trigger Known(job, done + pending, q)} :: q in s ==> Known(job, done + pending, q))
    && (forall p {:trigger Copied(job, done + pending, s, p)} :: p in done ==> Copied(job, done + pending, s, p))
    && (forall p {:trigger Blank(job, s, p)} :: p in pending ==> Blank(job, s, p))
    && (forall p {:trigger Found(job, done, p)} :: p in done + pending ==> Found(job, done, p))
  }

  /** Within the source `f`, after `k` of its children. */
  ghost predicate Partial(job: Job, pending: set<Path>, f: Path, k: nat, s: Store) {
    && job.Source(f) && job.Place(f) in s
    && var e := job.s0[f];
    && k <= |e.children|
    && s[job.Place(f)] == Entry(e.kind, e.data, SortNames(job.lt, e.children[..k]))
    && (forall m :: 0 <= m < |e.children| ==> (Sub(f, e.children[m]) in pending <==> m < k))
  }

  ghost predicate Within(job: Job, done: set<Path>, pending: set<Path>, f: Path, k: nat, s: Store) {
    var sources := done + pending + {f};
    && job.Valid() && done !! pending && f !in done + pending && job.from in done + {f}
    && (forall q {:trigger Kept(job, s, q)} :: q in job.s0 ==> Kept(job, s, q))
    && (forall q {:trigger Known(job, sources, q)} :: q in s ==> Known(job, sources, q))
    && (forall p {:trigger Copied(job, sources, s, p)} :: p in done ==> Copied(job, sources, s, p))
    && (forall p {:trigger Blank(job, s, p)} :: p in pending ==> Blank(job, s, p))
    && (forall p {:trigger Found(job, done, p)} :: p in done + {f} ==> Found(job, done, p))
    && (forall p {:trigger Found(job, done + {f}, p)} :: p in pending ==> Found(job, done + {f}, p))
    && Partial(job, pending, f, k, s)
  }

  lemma PlaceIsNew(job: Job, p: Path)
    requires job.Valid() && job.Source(p)
    ensures job.Place(p) !in job.s0
  {
    NothingBelowMissing(job.s0, job.to, job.Place(p));
  }

  lemma PlacesDiffer(job: Job, p: Path, q: Path)
    requires job.Source(p) && job.Source(q) && p != q
    ensures job.Place(p) != job.Place(q)
  {
    if job.Place(p) == job.Place(q) {
      RebaseIsInjective(job.from, job.to, p, q);
    }
  }

  /** Making the target of the copy starts it. */
  lemma CopyStarts(job: Job, s: Store)
    requires job.Valid() && s == Attach(job.lt, job.s0, job.to, BLANK)
    ensures Copying(job, {}, {job.from}, s)
  {
    hide Insert;
    assert job.Place(job.from) == job.to;
    assert Rebase(job.to, job.from, job.to) == job.from;
  }

  lemma ChildPlace(job: Job, f: Path, c: Name)
    requires job.Valid() && job.Source(f) && c in job.s0[f].children
    ensures job.Source(Sub(f, c)) && job.Place(Sub(f, c)) == Sub(job.Place(f), c) && Sub(f, c) != job.from
  {
    assert ValidEntry(job.s0, f);
    BelowIsLower(job.from, f);
  }

  lemma EntryStarts(job: Job, done: set<Path>, pending: set<Path>, f: Path, s: Store)
    requires Copying(job, done, pending, s) && f in pending && job.Source(f)
    ensures var e := job.s0[f];
            Within(job, done, pending - {f}, f, 0, s[job.Place(f) := Entry(e.kind, e.data, [])])
  {
    hide Attach, CopyEntry, Below, Rebase;
    var e := job.s0[f];
    var r := s[job.Place(f) := Entry(e.kind, e.data, [])];
    PlaceIsNew(job, f);
    assert done + (pending - {f}) + {f} == done + pending;
    assert e.children[..0] == [];
    assert Blank(job, s, f);
    forall q | q in job.s0 ensures Kept(job, r, q) {
      assert Kept(job, s, q);
    }
    forall q | q in r ensures Known(job, done + pending, q) {
      assert Known(job, done + pending, q);
    }
    forall p | p in done ensures Copied(job, done + pending, r, p) {
      assert Copied(job, done + pending, s, p);
      PlacesDiffer(job, p, f);
    }
    forall p | p in pending - {f} ensures Blank(job, r, p) {
      assert Blank(job, s, p);
      PlacesDiffer(job, p, f);
    }
    forall p | p in pending - {f} ensures Found(job, done + {f}, p) {
      assert Found(job, done, p);
    }
    forall m | 0 <= m < |e.children| ensures Sub(f, e.children[m]) !in pending {
      ChildPlace(job, f, e.children[m]);
      assert Sub(f, e.children[m]) in pending ==> Found(job, done, Sub(f, e.children[m]));
    }
    assert Partial(job, pending - {f}, f, 0, r);
  }

  lemma ChildIsNew(job: Job, done: set<Path>, pending: set<Path>, f: Path, k: nat, s: Store)
    requires Within(job, done, pending, f, k, s) && k < |job.s0[f].children|
    ensures var c := Sub(f, job.s0[f].children[k]);
            && job.Source(c) && job.Place(c) == Sub(job.Place(f), c.name) && job.Place(c) !in s
            && c !in done + pending + {f}
  {
    var c := Sub(f, job.s0[f].children[k]);
    ChildPlace(job, f, c.name);
    PlaceIsNew(job, c);
    assert c in done ==> Found(job, done, c);  // so `f` would have been copied already
    if job.Place(c) in s {
      assert Known(job, done + pending + {f}, job.Place(c));
      RebaseBack(job.from, job.to, c);
    }
  }

  lemma PartialPlace(job: Job, pending: set<Path>, f: Path, k: nat, s: Store)
    requires Partial(job, pending, f, k, s)
    ensures job.Source(f) && job.Place(f) in s
  {
  }

  lemma SortOneMore(lt: Order, names: seq<Name>, k: nat)
    requires k < |names|
    ensures SortNames(lt, names[..k + 1]) == Insert(lt, SortNames(lt, names[..k]), names[k])
  {
    hide Insert;
    assert names[..k + 1][..k] == names[..k];
  }

  lemma PartialGrows(job: Job, pending: set<Path>, f: Path, k: nat, s: Store)
    requires job.Valid() && Partial(job, pending, f, k, s) && k < |job.s0[f].children|
    ensures var c := Sub(f, job.s0[f].children[k]);
            Partial(job, pending + {c}, f, k + 1, Attach(job.lt, s, Sub(job.Place(f), c.name), BLANK))
  {
    hide Insert, Below, Rebase, SortNames;
    var names := job.s0[f].children;
    assert ValidEntry(job.s0, f);
    SortOneMore(job.lt, names, k);
  }

  lemma ChildAdded(job: Job, done: set<Path>, pending: set<Path>, f: Path, k: nat, s: Store)
    requires Within(job, done, pending, f, k, s) && k < |job.s0[f].children|
    ensures var c := Sub(f, job.s0[f].children[k]);
            && job.Source(c) && job.Place(f) in s
            && Within(job, done, pending + {c}, f, k + 1, Attach(job.lt, s, Sub(job.Place(f), c.name), BLANK))
  {
    hide Below, Rebase, CopyEntry, Partial, Insert;
    PartialPlace(job, pending, f, k, s);
    var e := job.s0[f];
    var c := Sub(f, e.children[k]);
    ChildIsNew(job, done, pending, f, k, s);
    PlaceIsNew(job, f);
    PlaceIsNew(job, c);
    var was, now := done + pending + {f}, done + (pending + {c}) + {f};
    var t := job.Place(f);
    var r := Attach(job.lt, s, Sub(t, c.name), BLANK);
    assert now == was + {c};
    forall q | q in job.s0 ensures Kept(job, r, q) {
      assert Kept(job, s, q);
    }
    forall q | q in r ensures Known(job, now, q) {
      if q == job.Place(c) {
        RebaseBack(job.from, job.to, c);
        NewIsBelow(job, c);
      } else {
        assert Known(job, was, q);
      }
    }
    forall p | p in done ensures Copied(job, now, r, p) {
      assert Copied(job, was, s, p);
      PlacesDiffer(job, p, f);
      PlacesDiffer(job, p, c);
    }
    forall p | p in pending ensures Blank(job, r, p) {
      assert Blank(job, s, p);
      PlacesDiffer(job, p, f);
      PlacesDiffer(job, p, c);
    }
    PartialGrows(job, pending, f, k, s);
  }

  lemma NewIsBelow(job: Job, p: Path)
    requires job.Source(p)
    ensures Below(job.to, job.Place(p))
  {
  }

  lemma EntryEnds(job: Job, done: set<Path>, pending: set<Path>, f: Path, s: Store)
    requires job.Valid() && f in job.s0 && Within(job, done, pending, f, |job.s0[f].children|, s)
    ensures Copying(job, done + {f}, pending, s)
  {
    hide Attach, Below, Rebase, SortNames, Kept, Known, Blank;
    var names := job.s0[f].children;
    assert names[..|names|] == names;
    assert done + pending + {f} == done + {f} + pending;
    forall p | p in done + {f} ensures Copied(job, done + {f} + pending, s, p) {
      assert p != f ==> Copied(job, done + pending + {f}, s, p);
    }
    forall p | p in done + {f} ensures Found(job, done + {f}, p) {
      assert Found(job, done, p);
    }
  }

  lemma {:induction false} EverySourceIsFound(job: Job, done: set<Path>, s: Store, p: Path)
    requires Copying(job, done, {}, s) && job.Source(p)
    ensures p in done
    decreases p
  {
    assert done + {} == done;
    if p != job.from {
      assert ValidEntry(job.s0, p);
      EverySourceIsFound(job, done, s, p.dir);
      assert Copied(job, done + {}, s, p.dir);
    }
  }

  /** With nothing pending the whole subtree has been copied. */
  lemma CopyEnds(job: Job, done: set<Path>, s: Store)
    requires Copying(job, done, {}, s)
    ensures (s, true) == Copy(job.lt, job.s0, job.from, job.to)
  {
    hide Insert, CopyEntry, Below, Rebase, Graft;
    var r := Copy(job.lt, job.s0, job.from, job.to).0;
    assert done + {} == done;
    CopyKeys(job.lt, job.s0, job.from, job.to);
    forall q | q in s || q in r ensures q in s && q in r && s[q] == r[q] {
      if q in job.s0 {
        assert Kept(job, s, q);
        OldEntryKept(job.lt, job.s0, job.from, job.to, q);
      } else {
        var p := CopySource(job, done, s, q);
        EverySourceIsFound(job, done, s, p);
        assert Copied(job, done + {}, s, p);
        Grafted(job.lt, job.s0, job.from, job.to, p);
        GraftSource(job.lt, job.s0, job.from, job.to, q);
        RebaseBack(job.from, job.to, p);
      }
    }
    assert s.Keys == r.Keys;
    assert s == r;
  }

  lemma CopySource(job: Job, done: set<Path>, s: Store, q: Path) returns (p: Path)
    requires Copying(job, done, {}, s) && q !in job.s0
    requires q in s || q in Graft(job.lt, job.s0, job.from, job.to)
    ensures job.Source(p) && q == job.Place(p)
  {
    if q in s {
      assert done + {} == done;
      assert Known(job, done + {}, q);
      p := Rebase(job.to, job.from, q);
      assert Copied(job, done + {}, s, p);
      RebaseBack(job.to, job.from, q);
    } else {
      GraftSource(job.lt, job.s0, job.from, job.to, q);
      p := Rebase(job.to, job.from, q);
    }
  }

  // ---- What the archive needs to know about the store at each step ----

  lemma KeptContents(job: Job, s: Store, q: Path)
    requires job.Valid() && q in job.s0 && Kept(job, s, q)
    ensures q != job.to && q in s && s[q].kind == job.s0[q].kind && s[q].data == job.s0[q].data
    ensures s[q].children == if q == job.to.dir then Insert(job.lt, job.s0[q].children, job.to.name)
                             else job.s0[q].children
  {
    hide Insert;
  }

  lemma CopyingNext(job: Job, done: set<Path>, pending: set<Path>, s: Store, f: Path)
    requires Copying(job, done, pending, s) && f in pending
    ensures job.Source(f) && job.Place(f) in s && s[job.Place(f)] == BLANK && job.Place(f) !in job.s0
    ensures Kept(job, s, f) && done <= job.s0.Keys && f !in done
  {
    assert Blank(job, s, f) && Kept(job, s, f);
    PlaceIsNew(job, f);
    forall p | p in done ensures p in job.s0 {
      assert Copied(job, done + pending, s, p);
    }
  }

  lemma WithinSource(job: Job, done: set<Path>, pending: set<Path>, f: Path, k: nat, s: Store)
    requires Within(job, done, pending, f, k, s)
    ensures job.Source(f) && Kept(job, s, f) && job.Place(f) in s
  {
  }
}