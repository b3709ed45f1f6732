/** Loading an image into an archive: nodes and hash are built while the bytes are read. */
module DciLoad {
  import opened Bytes
  import opened DciFormat
  import opened DciStore
  import opened DciTree
  import opened DciPaths
  import opened DciLinks
  import opened DciArchive

  function TreeNames(ts: seq<Tree>): (names: seq<Name>)
    ensures |names| == |ts|
    ensures forall i :: 0 <= i < |ts| ==> names[i] == ts[i].name
  {
    seq(|ts|, i requires 0 <= i < |ts| => ts[i].name)
  }

  /** No two siblings share a name, neither here nor anywhere below. */
  ghost predicate DistinctNames(ts: seq<Tree>) {
    Distinct(TreeNames(ts)) && forall t <- ts :: DistinctNames(t.children)
  }

  /** The nodes made stand for the tree read. */
  ghost predicate Stands(n: Node, t: Tree, made: set<Node>)
    reads made
    decreases t
  {
    n in made && n.kind == t.kind && n.name == t.name && n.data == t.data && StandAll(n.children, t.children, made)
  }

  ghost predicate StandAll(list: seq<Node>, ts: seq<Tree>, made: set<Node>)
    reads made
    decreases ts
  {
    |list| == |ts| && forall i :: 0 <= i < |ts| ==> Stands(list[i], ts[i], made)
  }

  /** What is below a node made was made with it; only directories have children, and only the others data. */
  ghost predicate Whole(made: set<Node>)
    reads made
  {
    forall n <- made ::
      && n.kind in {FILE, DIRECTORY, SYMLINK} && (if n.kind == DIRECTORY then n.data == [] else n.children == [])
      && forall c <- n.children :: c in made
  }

  /** A node knows its place before its parent lists it. */
  ghost predicate Linked(a: Archive, n: Node)
    requires n in a.pathOf
    reads a, a.pathOf.Keys
  {
    && a.RootedNode(n) && (n.parent == null <==> n == a.root)
    && (n in a.nodes && n != a.root ==> n in n.parent.children)
    && (forall c <- n.children :: c in a.nodes && c in a.pathOf && c != a.root && c.parent == n)
    && NoRepeats(n.children)
  }

  /** In the middle of loading: the hash holds a node for every path so far, the last one if there are several. */
  ghost predicate Loading(a: Archive)
    reads a, a.pathOf.Keys
  {
    && a.root in a.nodes && a.nodes <= a.pathOf.Keys && a.root.kind == DIRECTORY && a.root.data == []
    && (forall n {:trigger Linked(a, n)} :: n in a.pathOf ==> Linked(a, n))
    && (forall n <- a.nodes :: a.pathOf[n] in a.pathToNode)
    && (forall p <- a.pathToNode :: a.pathToNode[p] in a.nodes && a.pathOf[a.pathToNode[p]] == p)
  }

  lemma LoadingIsRooted(a: Archive)
    requires Loading(a)
    ensures a.Rooted()
  {
    forall n | n in a.pathOf ensures a.RootedNode(n) {
      assert Linked(a, n);
    }
  }

  /** What loading leaves alone. */
  twostate predicate Grew(a: Archive, new made: set<Node>)
    reads a
  {
    && a.root == old(a.root) && a.nodes == old(a.nodes) + made && a.pathOf.Keys == old(a.pathOf.Keys) + made
    && fresh(made)
    && forall n :: n in old(a.pathOf) ==> a.pathOf[n] == old(a.pathOf[n])
  }

  // ---- The nodes made ----

  lemma {:induction false} StandsInMore(n: Node, t: Tree, made: set<Node>, more: set<Node>)
    requires Stands(n, t, made) && made <= more
    ensures Stands(n, t, more)
    decreases t
  {
    forall i | 0 <= i < |t.children| ensures Stands(n.children[i], t.children[i], more) {
      StandsInMore(n.children[i], t.children[i], made, more);
    }
  }

  lemma StandOneMore(list: seq<Node>, ts: seq<Tree>, n: Node, t: Tree, made: set<Node>, more: set<Node>)
    requires StandAll(list, ts, made) && Stands(n, t, more) && made <= more
    ensures StandAll(list + [n], ts + [t], more)
  {
    forall i | 0 <= i < |ts| ensures Stands(list[i], ts[i], more) {
      StandsInMore(list[i], ts[i], made, more);
    }
  }

  lemma NamesStand(list: seq<Node>, ts: seq<Tree>, made: set<Node>)
    requires StandAll(list, ts, made)
    ensures Names(list) == TreeNames(ts)
  {
    assert forall i :: 0 <= i < |ts| ==> Stands(list[i], ts[i], made);
  }

  /** No node has two children of the same name. */
  ghost predicate NamesDiffer(made: set<Node>)
    requires Whole(made)
    reads made
  {
    forall n <- made :: Distinct(Names(n.children))
  }

  // ---- The loader ----

  /** A new node that knows its directory already. */
  method Introduce(a: Archive, directory: Node, kind: Byte, name: Name) returns (node: Node)
    requires Loading(a) && directory in a.pathOf
    modifies a`pathOf
    ensures Loading(a) && fresh(node) && a.pathOf == old(a.pathOf)[node := Sub(old(a.pathOf)[directory], name)]
    ensures node.parent == directory && node.name == name && node.kind == kind && node.data == [] && node.children == []
  {
    node := new Node(name, directory);
    node.kind := kind;
    a.pathOf := a.pathOf[node := Sub(a.pathOf[directory], name)];
    Introduced(a);
  }

  twostate lemma Introduced(a: Archive)
    requires old(Loading(a)) && old(a.pathOf.Keys) <= a.pathOf.Keys
    requires a.root == old(a.root) && a.nodes == old(a.nodes) && a.pathToNode == old(a.pathToNode)
    requires forall n <- old(a.pathOf) :: unchanged(n) && a.pathOf[n] == old(a.pathOf[n])
    requires forall n <- a.pathOf.Keys - old(a.pathOf.Keys) ::
               && n.parent != null && n.parent in old(a.pathOf) && a.pathOf[n] == Sub(a.pathOf[n.parent], n.name)
               && n.children == []
    ensures Loading(a)
  {
    forall n | n in a.pathOf ensures Linked(a, n) {
      assert n in a.pathOf.Keys - old(a.pathOf.Keys) || old(Linked(a, n));
    }
  }

  twostate lemma OnlyData(a: Archive)
    requires old(Loading(a)) && a.root == old(a.root) && a.root.data == old(a.root.data)
    requires a.nodes == old(a.nodes) && a.pathToNode == old(a.pathToNode) && a.pathOf == old(a.pathOf)
    requires forall n <- a.pathOf :: n.name == old(n.name) && n.parent == old(n.parent) && n.kind == old(n.kind)
               && n.children == old(n.children)
    ensures Loading(a)
  {
    forall n | n in a.pathOf ensures Linked(a, n) {
      assert old(Linked(a, n));
    }
  }

  /** The node becomes known to its directory, and its path to the hash. */
  method Attach(a: Archive, directory: Node, node: Node)
    requires Loading(a) && directory in a.pathOf && node in a.pathOf && node !in a.nodes
    requires node.parent == directory && directory != node
    modifies a`nodes, a`pathToNode, directory`children
    ensures Loading(a) && a.nodes == old(a.nodes) + {node}
    ensures directory.children == old(directory.children) + [node]
  {
    LoadingIsRooted(a);
    assert Linked(a, node) && Linked(a, directory);
    var path := a.PathBelow(directory, node.name);
    directory.children := directory.children + [node];
    a.nodes := a.nodes + {node};
    a.pathToNode := a.pathToNode[path := node];
    Attached(Join(a, directory, node));
  }

  /** A node about to be listed in a directory. */
  datatype Join = Join(a: Archive, directory: Node, node: Node)

  twostate lemma Attached(j: Join)
    requires old(Loading(j.a)) && j.directory in j.a.pathOf && j.node in j.a.pathOf && j.node !in old(j.a.nodes)
    requires j.node.parent == j.directory && j.directory != j.node
    requires j.a.pathOf == old(j.a.pathOf) && j.a.root == old(j.a.root)
    requires j.a.nodes == old(j.a.nodes) + {j.node}
    requires j.a.pathToNode == old(j.a.pathToNode)[j.a.pathOf[j.node] := j.node]
    requires j.directory.children == old(j.directory.children) + [j.node]
    requires forall n <- j.a.pathOf :: n.name == old(n.name) && n.parent == old(n.parent) && n.kind == old(n.kind)
               && n.data == old(n.data) && (n != j.directory ==> n.children == old(n.children))
    ensures Loading(j.a)
  {
    forall n | n in j.a.pathOf ensures Linked(j.a, n) {
      assert old(Linked(j.a, n)) && old(Linked(j.a, j.node));
      if n in j.a.nodes && n != j.a.root && n != j.node {
        assert n in old(n.parent.children);
      }
    }
  }

  /** The node behind `list`, if `t` could be read, is what was read. */
  ghost predicate Entered(directory: Node, list: seq<Node>, t: Tree, made: set<Node>)
    reads directory, made
  {
    && Whole(made) && (NamesDiffer(made) <==> DistinctNames(t.children))
    && |directory.children| == |list| + 1 && directory.children[..|list|] == list
    && Stands(directory.children[|list|], t, made)
  }

  /** The nodes listed are what was read. */
  ghost predicate Gathered(list: seq<Node>, ts: seq<Tree>, made: set<Node>)
    reads made
  {
    Whole(made) && (NamesDiffer(made) <==> forall t <- ts :: DistinctNames(t.children)) && StandAll(list, ts, made)
  }

  lemma GatheredOneMore(directory: Node, list: seq<Node>, ts: seq<Tree>, t: Tree, made: set<Node>, more: set<Node>)
    requires Gathered(list, ts, made) && Entered(directory, list, t, more)
    ensures Gathered(directory.children, ts + [t], made + more)
  {
    var node := directory.children[|list|];
    assert directory.children == list + [node];
    StandsInMore(node, t, more, made + more);
    StandOneMore(list, ts, node, t, made, made + more);
    assert NamesDiffer(made + more) <==> NamesDiffer(made) && NamesDiffer(more);
    assert (forall x <- ts + [t] :: DistinctNames(x.children))
       <==> (forall x <- ts :: DistinctNames(x.children)) && DistinctNames(t.children) by {
      assert forall x :: x in ts + [t] <==> x in ts || x == t;
    }
  }

  /** The node, not listed yet, and what is below it. */
  ghost predicate Held(node: Node, t: Tree, made: set<Node>)
    reads node, made
  {
    && node.kind == t.kind && node.name == t.name && node.data == t.data && node !in made
    && t.kind in {FILE, DIRECTORY, SYMLINK} && (if t.kind == DIRECTORY then t.data == [] else t.children == [])
    && Gathered(node.children, t.children, made)
  }

  lemma HeldIsEntered(directory: Node, list: seq<Node>, node: Node, t: Tree, made: set<Node>)
    requires Held(node, t, made) && directory.children == list + [node]
    ensures Entered(directory, list, t, made + {node})
  {
    forall i | 0 <= i < |t.children| ensures Stands(node.children[i], t.children[i], made + {node}) {
      StandsInMore(node.children[i], t.children[i], made, made + {node});
    }
    forall c | c in node.children ensures c in made {
      var i :| 0 <= i < |node.children| && node.children[i] == c;
      assert Stands(node.children[i], t.children[i], made);
    }
    NamesStand(node.children, t.children, made);
  }

  /** What follows the meta data of a node. */
  function Body(data: seq<Byte>, h: Header, at: nat): Result<(Tree, nat)>
    requires at <= |data|
  {
    if h.kind == DIRECTORY then
      match ParseEntries(data, at, at + h.size - 1)
      case Ok(sub) => Ok((Tree(DIRECTORY, h.name, [], sub.0), sub.1))
      case Err(e) => Err(e)
    else if h.kind == FILE || h.kind == SYMLINK then
      if h.size < 0 || at + h.size > |data| then Err(Truncated)
      else Ok((Tree(h.kind, h.name, data[at..at + h.size], []), at + h.size))
    else Err(BadType)
  }

  lemma EntryIs(data: seq<Byte>, begin: nat)
    requires begin <= |data|
    ensures ParseEntry(data, begin)
         == match ParseMeta(data, begin)
            case Err(e) => Err(e)
            case Ok(h) => Body(data, h, begin + META_SIZE)
  {
    hide ParseMeta, ParseEntries;
  }

  /** The data of a node, or what is below it. */
  method LoadBody(a: Archive, node: Node, data: seq<Byte>, begin: nat, size: int)
    returns (r: Result<nat>, ghost made: set<Node>)
    requires begin <= |data| && Loading(a) && node in a.pathOf && node != a.root
    requires node.data == [] && node.children == []
    modifies a`nodes, a`pathOf, a`pathToNode, node`children, node`data
    ensures match Body(data, Header(node.kind, node.name, size), begin)
            case Err(e) => r == Err(e)
            case Ok((t, next)) => r == Ok(next) && Loading(a) && Grew(a, made) && Held(node, t, made)
    decreases |data| - begin, 2
  {
    hide Loading, Gathered, ParseEntries;
    made := {};
    if node.kind == DIRECTORY {
      r, made := LoadDirectory(a, node, data, begin, begin + size - 1);
    } else if node.kind == FILE || node.kind == SYMLINK {
      if size < 0 || begin + size > |data| {
        return Err(Truncated), made;
      }
      node.data := data[begin..begin + size];
      OnlyData(a);
      NothingGathered();
      r := Ok(begin + size);
    } else {
      r := Err(BadType);
    }
  }

  /** A node and what is below it are made, but the node is not listed yet. */
  twostate predicate Made(a: Archive, new node: Node, new made: set<Node>)
    reads a
  {
    && a.root == old(a.root) && a.nodes == old(a.nodes) + made && a.pathOf.Keys == old(a.pathOf.Keys) + {node} + made
    && fresh(node) && fresh(made) && node !in made
    && forall n :: n in old(a.pathOf) ==> a.pathOf[n] == old(a.pathOf[n])
  }

  method LoadNode(a: Archive, directory: Node, h: Header, data: seq<Byte>, begin: nat)
    returns (r: Result<nat>, ghost made: set<Node>, node: Node)
    requires begin <= |data| && Loading(a) && directory in a.pathOf
    modifies a`nodes, a`pathOf, a`pathToNode
    ensures match Body(data, h, begin)
            case Err(e) => r == Err(e)
            case Ok((t, next)) =>
              r == Ok(next) && Loading(a) && Made(a, node, made) && node.parent == directory && Held(node, t, made)
    decreases |data| - begin, 3
  {
    hide Body, Loading, Held;
    node := Introduce(a, directory, h.kind, h.name);
    r, made := LoadBody(a, node, data, begin, h.size);
    assert r.Ok? ==> node !in made;
  }

  /** One entry of the directory, and what is below it. */
  method LoadEntry(a: Archive, directory: Node, data: seq<Byte>, begin: nat)
    returns (r: Result<nat>, ghost made: set<Node>)
    requires begin <= |data| && Loading(a) && directory in a.pathOf
    modifies a`nodes, a`pathOf, a`pathToNode, directory`children
    ensures match ParseEntry(data, begin)
            case Err(e) => r == Err(e)
            case Ok((t, next)) =>
              r == Ok(next) && Loading(a) && Grew(a, made) && Entered(directory, old(directory.children), t, made)
    decreases |data| - begin, 0
  {
    hide ParseMeta, ParseEntry, Body, Loading, Held, Entered;
    EntryIs(data, begin);
    made := {};
    var meta := ParseMeta(data, begin);
    if meta.Err? {
      return Err(meta.error), made;
    }
    var node;
    r, made, node := LoadNode(a, directory, meta.value, data, begin + META_SIZE);
    if r.Err? {
      return;
    }
    assert directory != node && directory !in made;
    label Read:
    Attach(a, directory, node);
    assert unchanged@Read(node, made);
    HeldIsEntered(directory, old(directory.children), node, ParseEntry(data, begin).value.0, made);
    made := made + {node};
  }

  lemma ParseEnds(data: seq<Byte>, offset: nat, end: int)
    requires end <= offset <= |data|
    ensures ParseEntries(data, offset, end) == Ok(([], offset))
  {
  }

  lemma ParseFails(data: seq<Byte>, offset: nat, end: int)
    requires offset <= |data| && offset < end && ParseEntry(data, offset).Err?
    ensures ParseEntries(data, offset, end) == Err(ParseEntry(data, offset).error)
  {
  }

  lemma NothingGathered()
    ensures Gathered([], [], {})
  {
  }

  /** `loadDirectory`: entries are read until the offset has reached the end. */
  method LoadDirectory(a: Archive, directory: Node, data: seq<Byte>, begin: nat, end: int)
    returns (r: Result<nat>, ghost made: set<Node>)
    requires begin <= |data| && Loading(a) && directory in a.pathOf && directory.children == []
    modifies a`nodes, a`pathOf, a`pathToNode, directory`children
    ensures match ParseEntries(data, begin, end)
            case Err(e) => r == Err(e)
            case Ok((ts, next)) =>
              r == Ok(next) && Loading(a) && Grew(a, made) && Gathered(directory.children, ts, made)
    decreases |data| - begin, 1
  {
    hide ParseEntry, ParseEntries, Loading, Gathered, Entered;
    var offset := begin;
    made := {};
    NothingGathered();
    ghost var ts: seq<Tree> := [];
    PrependNothing(ParseEntries(data, begin, end));
    while offset < end
      invariant begin <= offset <= |data|
      invariant ParseEntries(data, begin, end) == Prepend(ts, ParseEntries(data, offset, end))
      invariant Loading(a) && Grew(a, made) && Gathered(directory.children, ts, made)
      decreases |data| - offset
    {
      ghost var list := directory.children;
      ghost var more;
      r, more := LoadEntry(a, directory, data, offset);
      if r.Err? {
        ParseFails(data, offset, end);
        return;
      }
      ParseStep(data, offset, end);
      ghost var t := ParseEntry(data, offset).value.0;
      GatheredOneMore(directory, list, ts, t, made, more);
      PrependTwice(ts, t, ParseEntries(data, r.value, end));
      made, ts, offset := made + more, ts + [t], r.value;
    }
    ParseEnds(data, offset, end);
    assert ts + [] == ts;
    r := Ok(offset);
  }

  // ---- What was loaded ----

  /** All nodes are listed. */
  ghost predicate Settled(a: Archive)
    reads a, a.pathOf.Keys
  {
    Loading(a) && a.pathOf.Keys == a.nodes
  }

  lemma ValidIsSettled(a: Archive)
    requires a.Valid() && a.root.data == []
    ensures Settled(a)
  {
    forall n | n in a.pathOf ensures Linked(a, n) {
      assert a.ValidNode(n);
    }
    forall n | n in a.nodes ensures a.pathOf[n] in a.pathToNode {
      assert a.ValidNode(n);
    }
  }

  /** Without siblings of one name every path is that of one node. */
  lemma {:induction false} PathsDiffer(a: Archive, n: Node, m: Node)
    requires Settled(a) && n in a.nodes && m in a.nodes && a.pathOf[n] == a.pathOf[m]
    requires forall x <- a.nodes :: Distinct(Names(x.children))
    ensures n == m
    decreases a.pathOf[n]
  {
    assert Linked(a, n) && Linked(a, m);
    if n != a.root && m != a.root {
      assert n.parent in a.nodes && m.parent in a.nodes;
      PathsDiffer(a, n.parent, m.parent);
      var list := n.parent.children;
      var i, j :| 0 <= i < |list| && list[i] == n && 0 <= j < |list| && list[j] == m;
      assert Names(list)[i] == Names(list)[j];
    }
  }

  lemma SettledIsValidIff(a: Archive)
    requires Settled(a)
    ensures a.Valid() <==> forall n <- a.nodes :: Distinct(Names(n.children))
  {
    if forall n <- a.nodes :: Distinct(Names(n.children)) {
      forall n | n in a.nodes ensures a.ValidNode(n) {
        assert Linked(a, n);
        PathsDiffer(a, a.pathToNode[a.pathOf[n]], n);
      }
    }
    if a.Valid() {
      forall n | n in a.nodes ensures Distinct(Names(n.children)) {
        a.NodeAt(n);
        a.EntryValid(a.pathOf[n]);
      }
    }
  }

  /** The node made for a tree shows that tree. */
  lemma {:induction false} StandsForTree(a: Archive, n: Node, t: Tree)
    requires a.Valid() && DciStore.Valid(a.View()) && n in a.nodes && n != a.root && Stands(n, t, a.nodes)
    ensures a.pathOf[n] in a.View() && TreeAt(a.View(), a.pathOf[n]) == t
    decreases t
  {
    hide Archive.ValidNode, DciStore.Valid, Archive.View, TreeAt;
    a.TreeAtNode(n);
    ChildrenStand(a, n, t.children);
  }

  lemma {:induction false} ChildrenStand(a: Archive, n: Node, ts: seq<Tree>)
    requires a.Valid() && DciStore.Valid(a.View()) && n in a.nodes && StandAll(n.children, ts, a.nodes)
    ensures a.pathOf[n] in a.View() && TreesFrom(a.View(), a.pathOf[n], 0) == ts
    decreases ts
  {
    hide Archive.ValidNode, DciStore.Valid, Archive.View, TreeAt;
    a.TreeAtNode(n);
    forall i | 0 <= i < |ts| ensures TreesFrom(a.View(), a.pathOf[n], 0)[i] == ts[i] {
      var c := n.children[i];
      assert Stands(c, ts[i], a.nodes);
      a.ChildAt(n, c);
      TreesFromAt(a.View(), a.pathOf[n], i);
      StandsForTree(a, c, ts[i]);
    }
  }

  lemma LoadedIs(a: Archive, ts: seq<Tree>, made: set<Node>)
    requires Settled(a) && a.nodes == {a.root} + made && a.root !in made && Gathered(a.root.children, ts, made)
    ensures StandAll(a.root.children, ts, a.nodes)
    ensures a.Valid() <==> DistinctNames(ts)
    ensures a.Valid() ==>
      DciStore.Valid(a.View()) && AllTyped(a.View()) && TreeAt(a.View(), Root) == Tree(DIRECTORY, [], [], ts)
  {
    SettledIsValidIff(a);
    NamesStand(a.root.children, ts, made);
    forall i | 0 <= i < |ts| ensures Stands(a.root.children[i], ts[i], a.nodes) {
      StandsInMore(a.root.children[i], ts[i], made, a.nodes);
    }
    assert (forall n <- a.nodes :: Distinct(Names(n.children))) <==> NamesDiffer(made) && Distinct(TreeNames(ts));
    if a.Valid() {
      hide Settled, Archive.ValidNode;
      a.ViewAt();
      a.ViewValid();
      a.TreeAtNode(a.root);
      a.RootPlace();
      ChildrenStand(a, a.root, ts);
    }
  }

  /** `load`: the archive is that of the image exactly if no two siblings share a name. */
  method Load(lt: Order, data: seq<Byte>) returns (r: Result<Archive>)
    ensures match Parse(data)
            case Err(e) => r == Err(e)
            case Ok(t) =>
              && r.Ok? && fresh(r.value) && fresh(r.value.nodes) && r.value.lt == lt
              && (r.value.Valid() <==> DistinctNames(t.children))
              && (r.value.Valid() ==>
                    DciStore.Valid(r.value.View()) && AllTyped(r.value.View()) && TreeAt(r.value.View(), Root) == t)
              && Settled(r.value) && StandAll(r.value.root.children, t.children, r.value.nodes)
  {
    hide Loading, Gathered, ParseEntries, Archive.Valid, Archive.View, DciStore.Valid, TreeAt, DistinctNames, AllTyped;
    if !(MAGIC[..3] <= data) {
      return Err(BadMagic);
    }
    if |data| < HEADER_SIZE {
      return Err(Truncated);
    }
    if data[4] != VERSION {
      return Err(BadVersion);
    }
    var fileCount := FromLittleEndian(data[5..8]);
    var archive := NewArchive(lt);
    ghost var made;
    var top;
    top, made := LoadDirectory(archive, archive.root, data, HEADER_SIZE, |data| - 1);
    if top.Err? {
      return Err(top.error);
    }
    ghost var ts := ParseEntries(data, HEADER_SIZE, |data| - 1).value.0;
    GatheredLength(archive.root.children, ts, made);
    if fileCount != |archive.root.children| {
      return Err(BadCount);
    }
    LoadedIs(archive, ts, made);
    return Ok(archive);
  }

  lemma GatheredLength(list: seq<Node>, ts: seq<Tree>, made: set<Node>)
    requires Gathered(list, ts, made)
    ensures |list| == |ts|
  {
  }

  /** The root of an archive to be loaded, which the hash holds as `/` from the start. */
  method NewArchive(lt: Order) returns (archive: Archive)
    ensures fresh(archive) && archive.lt == lt && Settled(archive) && fresh(archive.nodes)
    ensures archive.nodes == {archive.root} && archive.root.children == []
  {
    archive := new Archive(lt);
    archive.RootPlace();
    archive.NodeAt(archive.root);
    assert archive.EntryAt(archive.root) == EMPTY[Root];
    ValidIsSettled(archive);
  }

  // ---- Which images those are ----

  /** What an archive saves has no siblings of one name, so it always loads into an archive again. */
  lemma {:induction false} SavedNamesDiffer(s: Store, p: Path)
    requires DciStore.Valid(s) && p in s
    ensures DistinctNames(TreesFrom(s, p, 0))
    decreases BelowSet(s, p)
  {
    var ts := TreesFrom(s, p, 0);
    assert ValidEntry(s, p);
    forall i | 0 <= i < |ts| ensures ts[i].name == s[p].children[i] && DistinctNames(ts[i].children) {
      TreesFromAt(s, p, i);
      ChildIsSmaller(s, p, s[p].children[i]);
      SavedNamesDiffer(s, Sub(p, s[p].children[i]));
    }
    assert TreeNames(ts) == s[p].children;
  }

  /** Saving an archive whose entries fit and loading what was saved gives an archive with just the same entries. */
  method Reopen(archive: Archive, memory: nat -> Byte) returns (again: Archive)
    requires archive.Valid() && DciStore.Valid(archive.View())
    requires AllTyped(archive.View()) && NamesFit(archive.View()) && |archive.View()[Root].children| < COUNT_LIMIT
    requires |Image(TreeAt(archive.View(), Root))| < SIZE_LIMIT
    ensures again.Valid() && fresh(again) && again.View() == archive.View()
  {
    hide Archive.Valid, Archive.View, DciStore.Valid, TreeAt, Parse, DistinctNames, AllTyped, NamesFit, IsSaved,
         Settled;
    var data := archive.ToData(memory);
    Reopened(archive.View(), data);
    var r := Load(archive.lt, data);
    again := r.value;
    TreeIsAll(again.View(), archive.View());
  }

  lemma Reopened(s: Store, data: seq<Byte>)
    requires DciStore.Valid(s) && IsSaved(s, data) && AllTyped(s) && NamesFit(s)
    requires |s[Root].children| < COUNT_LIMIT && |Image(TreeAt(s, Root))| < SIZE_LIMIT
    ensures Parse(data) == Ok(TreeAt(s, Root)) && DistinctNames(TreeAt(s, Root).children)
  {
    HiddenIff(s);
    StoreSurvivesSaving(s, data);
    SavedNamesDiffer(s, Root);
  }

  /** An image with two files named `a` in its root. */
  const FILE_A: Tree := Tree(FILE, [97], [], [])
  const TWINS: Tree := Tree(DIRECTORY, [], [], [FILE_A, FILE_A])

  lemma TwinsAreAccepted()
    ensures Parse(Image(TWINS)) == Ok(TWINS) && !DistinctNames(TWINS.children)
  {
    var ts := TWINS.children;
    assert Savable(FILE_A);
    assert |Encode(FILE_A)| == META_SIZE;
    assert ts[1..] == [FILE_A] && ts[1..][1..] == [];
    assert |EncodeAll(ts)| == |Encode(FILE_A)| + |EncodeAll(ts[1..])|;
    assert |EncodeAll(ts[1..])| == |Encode(FILE_A)| + |EncodeAll([])|;
    RoundTripIff(TWINS);
    assert TreeNames(ts)[0] == TreeNames(ts)[1];
  }

  /** It is loaded: the root lists both, but one of them has no path that leads to it. */
  method TwinIsNotIndexed(lt: Order) returns (archive: Archive, twin: Node)
    ensures |archive.root.children| == 2 && twin in archive.root.children && twin.name == [97]
    ensures forall p <- archive.pathToNode :: archive.pathToNode[p] != twin
  {
    hide Archive.Valid, Archive.View, Parse, Image, DistinctNames;
    TwinsAreAccepted();
    var r := Load(lt, Image(TWINS));
    archive := r.value;
    OneOfTwins(archive);
    var list := archive.root.children;
    var p := Sub(Root, [97]);
    twin := if archive.pathToNode[p] == list[0] then list[1] else list[0];
  }

  lemma OneOfTwins(a: Archive)
    requires Settled(a) && StandAll(a.root.children, TWINS.children, a.nodes)
    ensures |a.root.children| == 2 && Sub(Root, [97]) in a.pathToNode
    ensures forall i :: 0 <= i < 2 ==>
      var n := a.root.children[i];
      n.name == [97] && forall p <- a.pathToNode :: a.pathToNode[p] == n ==> p == Sub(Root, [97])
    ensures a.root.children[0] != a.root.children[1]
  {
    assert Linked(a, a.root);
    assert Stands(a.root.children[0], TWINS.children[0], a.nodes) && a.pathOf[a.root.children[0]] in a.pathToNode by {
      assert a.root.children[0] in a.nodes;
    }
    forall i | 0 <= i < 2
      ensures var n := a.root.children[i]; n.name == [97] && n in a.nodes && a.pathOf[n] == Sub(Root, [97])
    {
      assert Stands(a.root.children[i], TWINS.children[i], a.nodes);
      assert Linked(a, a.root.children[i]);
    }
  }
}
