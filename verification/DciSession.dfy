/** Operations on an archive, one after the other: nodes, links and hash go through the stores of a run. */
module DciSession {
  import opened Bytes
  import opened DciFormat
  import opened DciStore
  import opened DciPaths
  import opened DciLinks
  import opened DciArchive
  import opened DciRuns

  /** A renaming is refused if its new path is written in 72 bytes or more. */
  predicate IsShort(op: Op) {
    op.Rename? ==> |Text(op.q)| < 72
  }

  /** One call; a renaming may override what is there. */
  method Perform(archive: Archive, op: Op)
    requires archive.Valid() && Enabled(archive.View(), op) && IsShort(op)
    modifies archive, archive.nodes
    ensures fresh(archive.nodes - old(archive.nodes))
    ensures archive.Valid() && archive.View() == Apply(archive.lt, old(archive.View()), op)
  {
    hide Archive.Valid, DciStore.Rename, DciStore.Remove, Clear, DciStore.Copy, Write, DciLinks.Link, DciStore.Mkdir,
         Text;
    ghost var s := archive.View();
    InView(archive);
    var ok;
    match op
    case MakeDir(p) => ok := archive.Mkdir(p);
    case WriteFile(p, data, override) => ok := archive.WriteFile(p, data, override, |s|);
    case MakeLink(source, p) => ok := archive.Link(source, p);
    case CopyTree(from, to) => ok := archive.Copy(from, to);
    case RemoveTree(p) => ok := archive.Remove(p);
    case Rename(p, q) =>
      assert archive.Renames(p, q, true) && archive.CanMove(p, q);
      ok := archive.Rename(p, q, true);
  }

  lemma InView(archive: Archive)
    requires archive.Valid()
    ensures archive.View().Keys == archive.pathToNode.Keys && Root in archive.View()
  {
    archive.ViewAt();
    archive.RootCounts();
  }

  /** A whole run of calls. */
  method PerformAll(archive: Archive, ops: seq<Op>, ghost t: Store)
    requires archive.Valid() && Runs(archive.lt, archive.View(), ops, t) && forall op <- ops :: IsShort(op)
    modifies archive, archive.nodes
    ensures fresh(archive.nodes - old(archive.nodes))
    ensures archive.Valid() && archive.View() == t
    decreases |ops|
  {
    hide Archive.Valid, Archive.View, Enabled, Apply, IsShort;
    if ops != [] {
      assert ops[0] in ops && forall op <- ops[1..] :: op in ops;
      Perform(archive, ops[0]);
      PerformAll(archive, ops[1..], t);
    }
  }
}
