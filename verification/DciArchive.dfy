/** The archive as the program keeps it: nodes linked by pointers, and a hash from paths to nodes. */
module DciArchive {
  import opened Basics
  import opened Bytes
  import opened DciFormat
  import opened DciStore
  import opened DciTree
  import opened DciCopy
  import opened DciDevice
  import opened DciPaths
  import opened DciLinks

  /** The type a node has until its maker sets it. */
  const UNKNOWN: Byte := 0

  class Node {
    var kind: Byte
    var name: Name
    var parent: Node?
    var children: seq<Node>
    var data: seq<Byte>

    constructor (name: Name, parent: Node?)
      ensures this.name == name && this.parent == parent
      ensures kind == UNKNOWN && children == [] && data == []
    {
      this.name, this.parent := name, parent;
      kind, children, data := UNKNOWN, [], [];
    }
  }

  ghost function Names(list: seq<Node>): (names: seq<Name>)
    reads list
    ensures |names| == |list|
    ensures forall i :: 0 <= i < |list| ==> names[i] == list[i].name
  {
    seq(|list|, i requires 0 <= i < |list| reads list => list[i].name)
  }

  function Extend(p: Path, components: seq<Name>): Path
    decreases |components|
  {
    if components == [] then p else Extend(Sub(p, components[0]), components[1..])
  }

  /** The pairs still to be handled stand for the pending sources, each once. */
  ghost predicate Queue(at: map<Node, Path>, job: Job, work: seq<(Node, Node)>, pending: set<Path>) {
    if work == [] then pending == {}
    else
      var (f, t) := work[0];
      && f in at && t in at && at[f] in pending && job.Source(at[f]) && at[t] == job.Place(at[f])
      && Queue(at, job, work[1..], pending - {at[f]})
  }

  lemma {:induction false} QueueGrows(at: map<Node, Path>, bt: map<Node, Path>, job: Job, work: seq<(Node, Node)>,
                                      pending: set<Path>, f: Node, t: Node)
    requires Queue(at, job, work, pending)
    requires at.Keys <= bt.Keys && forall n <- at :: at[n] == bt[n]
    requires f in bt && t in bt && job.Source(bt[f]) && bt[t] == job.Place(bt[f]) && bt[f] !in pending
    ensures Queue(bt, job, work + [(f, t)], pending + {bt[f]})
  {
    if work == [] {
      assert work + [(f, t)] == [(f, t)];
      assert {bt[f]} - {bt[f]} == {};
    } else {
      var g := work[0].0;
      QueueGrows(at, bt, job, work[1..], pending - {at[g]}, f, t);
      assert (work + [(f, t)])[1..] == work[1..] + [(f, t)];
      assert pending + {bt[f]} - {at[g]} == pending - {at[g]} + {bt[f]};
    }
  }

  /** A new leaf below `t` with path `p`, at place `i` among its siblings. */
  datatype Insertion = Insertion(t: Node, p: Path, i: nat)

  /** A node `n` that gets the path `q` below `t`, and the node `over` that had it before. */
  datatype Move = Move(n: Node, t: Node, q: Path, over: Node?, i: nat)

  /** A node removed, and a path below it. */
  datatype Removal = Removal(n: Node, q: Path)

  lemma NamesWithOneMore(list: seq<Node>, names: seq<Name>, c: Node, i: nat)
    requires i <= |list| == |names| && forall j :: 0 <= j < |list| ==> list[j].name == names[j]
    ensures Names(list[..i] + [c] + list[i..]) == names[..i] + [c.name] + names[i..]
  {
  }

  /** `removeOne` on a list of pointers. */
  function RemoveOne(list: seq<Node>, n: Node): seq<Node> {
    if list == [] then [] else if list[0] == n then list[1..] else [list[0]] + RemoveOne(list[1..], n)
  }

  lemma {:induction false} RemoveOneInFront(a: seq<Node>, b: seq<Node>, n: Node)
    requires n in a
    ensures RemoveOne(a + b, n) == RemoveOne(a, n) + b
  {
    assert (a + b)[0] == a[0] && (a + b)[1..] == a[1..] + b;
    if a[0] != n {
      RemoveOneInFront(a[1..], b, n);
      Regrouped([a[0]], RemoveOne(a[1..], n), b);
    }
  }

  lemma {:induction false} RemoveOneInBack(a: seq<Node>, b: seq<Node>, n: Node)
    requires n !in a
    ensures RemoveOne(a + b, n) == a + RemoveOne(b, n)
  {
    if a == [] {
      assert a + b == b;
    } else {
      assert (a + b)[0] == a[0] && (a + b)[1..] == a[1..] + b;
      RemoveOneInBack(a[1..], b, n);
      assert a == [a[0]] + a[1..];
      Regrouped([a[0]], a[1..], RemoveOne(b, n));
    }
  }

  predicate NoRepeats(list: seq<Node>) {
    forall i, j :: 0 <= i < j < |list| ==> list[i] != list[j]
  }

  lemma {:induction false} RemoveOneMembers(list: seq<Node>, n: Node)
    requires NoRepeats(list)
    ensures forall m :: m in RemoveOne(list, n) <==> m in list && m != n
    ensures NoRepeats(RemoveOne(list, n))
  {
    if list != [] {
      var rest := list[1..];
      assert forall i :: 0 <= i < |rest| ==> rest[i] == list[i + 1];
      if list[0] != n {
        RemoveOneMembers(rest, n);
        assert list[0] !in rest;
      }
    }
  }

  lemma {:induction false} RemoveOneAt(list: seq<Node>, n: Node, k: nat)
    requires k < |list| && list[k] == n && forall j :: 0 <= j < k ==> list[j] != n
    ensures RemoveOne(list, n) == list[..k] + list[k + 1..]
  {
    if k > 0 {
      assert forall j :: 0 <= j < k ==> list[1..][j] == list[j + 1];
      RemoveOneAt(list[1..], n, k - 1);
      assert list[..k] == [list[0]] + list[1..][..k - 1];
      assert list[1..][k..] == list[k + 1..];
    }
  }

  lemma DropHead<T>(s: seq<T>, i: nat, more: seq<T>)
    requires i < |s|
    ensures (s + more)[i + 1..] == s[i + 1..] + more
  {
  }

  class Archive {
    const lt: Order
    var root: Node
    var pathToNode: map<Path, Node>
    ghost var nodes: set<Node>
    ghost var pathOf: map<Node, Path>

    /** Links between one node and its neighbours, and its place in the hash. */
    ghost predicate ValidNode(n: Node)
      requires n in nodes
      reads this, nodes
    {
      && n in pathOf && pathOf[n] in pathToNode && pathToNode[pathOf[n]] == n
      && (if n == root then n.parent == null && pathOf[n] == Root
          else
            && n.parent != null && n.parent in nodes && n.parent in pathOf
            && pathOf[n] == Sub(pathOf[n.parent], n.name)
            && n in n.parent.children)
      && (forall c <- n.children :: c in nodes && c != root && c.parent == n)
      && NoRepeats(n.children)
    }

    ghost predicate Valid()
      reads this, nodes
    {
      && root in nodes && root.kind == DIRECTORY && pathOf.Keys == nodes
      && (forall n {:trigger ValidNode(n)} :: n in nodes ==> ValidNode(n))
      && (forall p <- pathToNode :: pathToNode[p] in nodes && pathOf[pathToNode[p]] == p)
    }

    /** The store that the hash and the nodes stand for. */
    ghost function View(): Store
      requires Valid()
      reads this, nodes
    {
      map p | p in pathToNode :: assert ValidNode(pathToNode[p]); EntryAt(pathToNode[p])
    }

    ghost function EntryAt(n: Node): Entry
      reads n, n.children
    {
      Entry(n.kind, n.data, Names(n.children))
    }

    /** The archive read from the smallest image. */
    constructor (lt: Order)
      ensures Valid() && View() == EMPTY && nodes == {root} && fresh(root)
      ensures this.lt == lt
    {
      this.lt := lt;
      var r := new Node([], null);
      r.kind := DIRECTORY;
      root := r;
      pathToNode := map[Root := r];
      nodes := {r};
      pathOf := map[r := Root];
    }

    method GetOrderedIndexOfNodeName(list: seq<Node>, name: Name) returns (i: nat)
      ensures i == InsertIndex(lt, Names(list), name)
    {
      i := 0;
      while i < |list|
        invariant i <= |list|
        invariant forall j :: 0 <= j < i ==> !lt(name, list[j].name)
      {
        if lt(name, list[i].name) {
          break;
        }
        i := i + 1;
      }
      InsertIndexIs(lt, Names(list), name, i);
    }

    /** The parents of a node lead to the root along its path. */
    ghost predicate RootedNode(n: Node)
      requires n in pathOf
      reads this, n
    {
      if n.parent == null then pathOf[n] == Root
      else n.parent in pathOf && pathOf[n] == Sub(pathOf[n.parent], n.name)
    }

    ghost predicate Rooted()
      reads this, pathOf.Keys
    {
      forall n {:trigger RootedNode(n)} :: n in pathOf ==> RootedNode(n)
    }

    lemma ValidIsRooted()
      requires Valid()
      ensures Rooted()
    {
      forall n | n in pathOf ensures RootedNode(n) {
        assert ValidNode(n);
      }
    }

    /** The path of a node named `name` under `t`: the names up to the root, each put in front. */
    method PathBelow(t: Node, name: Name) returns (p: Path)
      requires Rooted() && t in pathOf
      ensures p == Sub(pathOf[t], name)
    {
      var components := [name];
      var current := t;
      while current.parent != null
        invariant current in pathOf
        invariant Extend(pathOf[current], components) == Sub(pathOf[t], name)
        decreases Depth(pathOf[current])
      {
        assert RootedNode(current);
        components := [current.name] + components;
        current := current.parent;
      }
      assert RootedNode(current);
      p := Extend(Root, components);
    }

    /** Nodes may have been added; those that were there still have their places. */
    twostate predicate Grown()
      reads this
    {
      && fresh(nodes - old(nodes)) && old(nodes) <= nodes && root == old(root)
      && forall n :: n in old(pathOf) ==> n in pathOf && pathOf[n] == old(pathOf[n])
    }

    /** The node now at `x.p` is a new leaf, the `x.i`-th child of `x.t`; nothing else has changed. */
    twostate predicate Inserted(x: Insertion)
      reads this, x.t, nodes
    {
      && old(Valid()) && x.t in old(nodes) && x.p.Sub? && x.p.dir == old(pathOf[x.t]) && x.p !in old(pathToNode)
      && x.p in pathToNode && pathToNode[x.p] in nodes
      && var c := pathToNode[x.p];
      && c !in old(nodes) && c.name == x.p.name && c.parent == x.t
      && c.kind == UNKNOWN && c.data == [] && c.children == []
      && root == old(root) && nodes == old(nodes) + {c}
      && pathOf == old(pathOf)[c := x.p] && pathToNode == old(pathToNode)[x.p := c]
      && (forall n <- old(nodes) :: n.kind == old(n.kind) && n.name == old(n.name) && n.data == old(n.data)
                                     && n.parent == old(n.parent) && (n != x.t ==> n.children == old(n.children)))
      && x.i <= |old(x.t.children)| && x.t.children == old(x.t.children)[..x.i] + [c] + old(x.t.children)[x.i..]
    }

    twostate lemma InsertedParent(x: Insertion)
      requires Inserted(x)
      ensures ValidNode(x.t)
    {
      assert old(ValidNode(x.t));
      forall n <- old(x.t.children) ensures n != pathToNode[x.p] {
        assert n in old(nodes);
      }
      if x.t != root {
        assert old(ValidNode(x.t.parent));
      }
    }

    twostate lemma InsertedOthers(x: Insertion)
      requires Inserted(x)
      ensures forall n <- old(nodes) :: n != x.t ==> ValidNode(n)
    {
      hide NoRepeats;
      forall n | n in old(nodes) && n != x.t ensures ValidNode(n) {
        assert old(ValidNode(n));
        if n != root && n.parent == x.t {
          assert n in old(x.t.children);
        }
      }
    }

    twostate lemma InsertedValid(x: Insertion)
      requires Inserted(x)
      ensures Valid()
    {
      InsertedParent(x);
      InsertedOthers(x);
    }

    lemma ViewIs(s: Store)
      requires Valid() && s.Keys == pathToNode.Keys
      requires forall p <- pathToNode :: EntryAt(pathToNode[p]) == s[p]
      ensures View() == s
    {
      hide ValidNode;
    }

    /** An entry whose node and whose children's names are as before is as before. */
    twostate lemma EntryKept(n: Node)
      requires n.kind == old(n.kind) && n.data == old(n.data) && n.children == old(n.children)
      requires forall c <- n.children :: c.name == old(c.name)
      ensures EntryAt(n) == old(EntryAt(n))
    {
      assert Names(n.children) == old(Names(n.children));
    }

    twostate lemma OldNode(n: Node)
      requires old(Valid()) && n in old(nodes)
      ensures old(pathOf[n]) in old(pathToNode) && old(pathToNode[pathOf[n]]) == n
      ensures forall c <- old(n.children) :: c in old(nodes)
    {
      assert old(ValidNode(n));
    }

    twostate lemma InsertedView(x: Insertion)
      requires Inserted(x) && Valid()
      requires x.i == InsertIndex(lt, old(Names(x.t.children)), x.p.name)
      ensures x.p.dir in old(View()) && View() == Attach(lt, old(View()), x.p, Entry(UNKNOWN, [], []))
    {
      hide ValidNode, InsertIndex;
      OldNode(x.t);
      forall q | q in pathToNode
        ensures EntryAt(pathToNode[q]) == Attach(lt, old(View()), x.p, Entry(UNKNOWN, [], []))[q]
      {
        ghost var n, c := pathToNode[q], pathToNode[x.p];
        if n == c {
          assert q == x.p;
        } else {
          assert n in old(nodes) && q in old(pathToNode) && old(pathToNode[q]) == n;
          OldNode(n);
          assert q == x.p.dir <==> n == x.t;
          if n == x.t {
            NamesWithOneMore(old(n.children), old(Names(n.children)), c, x.i);
          } else {
            EntryKept(n);
          }
        }
      }
      ViewIs(Attach(lt, old(View()), x.p, Entry(UNKNOWN, [], [])));
    }

    /** Make a leaf below `t`, enter it in the hash and put it in order among its siblings. */
    method AddChild(t: Node, name: Name) returns (c: Node)
      requires Valid() && t in nodes && Sub(pathOf[t], name) !in pathToNode
      modifies this, t
      ensures fresh(c) && c.name == name
      ensures var p := Sub(old(pathOf[t]), name);
              Inserted(Insertion(t, p, InsertIndex(lt, old(Names(t.children)), name))) && pathToNode[p] == c
      ensures Valid() && old(pathOf[t]) in old(View())
      ensures View() == Attach(lt, old(View()), Sub(old(pathOf[t]), name), Entry(UNKNOWN, [], []))
    {
      hide ValidNode;
      ValidIsRooted();
      var p := PathBelow(t, name);
      c := new Node(name, t);
      var index := GetOrderedIndexOfNodeName(t.children, name);
      t.children := t.children[..index] + [c] + t.children[index..];
      pathOf := pathOf[c := p];
      nodes := nodes + {c};
      pathToNode := pathToNode[p := c];
      InsertedValid(Insertion(t, p, index));
      InsertedView(Insertion(t, p, index));
    }

    // ---- Setting the contents of a node ----

    /** Only the type and the data of `n` have changed. */
    twostate predicate Filled(n: Node)
      reads this, nodes
    {
      && old(Valid()) && n in nodes && n != root
      && root == old(root) && nodes == old(nodes) && pathOf == old(pathOf) && pathToNode == old(pathToNode)
      && (forall m <- nodes :: m.name == old(m.name) && m.parent == old(m.parent) && m.children == old(m.children))
      && (forall m <- nodes :: m != n ==> m.kind == old(m.kind) && m.data == old(m.data))
    }

    twostate lemma FilledValid(n: Node)
      requires Filled(n)
      ensures Valid()
    {
      forall m <- nodes ensures ValidNode(m) {
        assert old(ValidNode(m));
      }
    }

    twostate lemma FilledView(n: Node)
      requires Filled(n) && Valid()
      ensures pathOf[n] in old(View())
      ensures View() == old(View())[pathOf[n] := old(View())[pathOf[n]].(kind := n.kind, data := n.data)]
    {
      hide ValidNode;
      OldNode(n);
      ghost var e := old(View())[pathOf[n]].(kind := n.kind, data := n.data);
      forall q | q in pathToNode
        ensures EntryAt(pathToNode[q]) == if q == pathOf[n] then e else old(View())[q]
      {
        ghost var m := pathToNode[q];
        OldNode(m);
        assert Names(m.children) == old(Names(m.children));
      }
      ViewIs(old(View())[pathOf[n] := e]);
    }

    method Fill(n: Node, kind: Byte, data: seq<Byte>)
      requires Valid() && n in nodes && n != root
      modifies n
      ensures Filled(n) && n.kind == kind && n.data == data
      ensures Valid() && pathOf[n] in old(View())
      ensures View() == old(View())[pathOf[n] := old(View())[pathOf[n]].(kind := kind, data := data)]
    {
      hide ValidNode;
      n.kind := kind;
      n.data := data;
      FilledValid(n);
      FilledView(n);
    }

    // ---- The operations ----

    /** The node of a new path, with no type yet, or null if there is something in the way. */
    method MkNode(p: Path) returns (c: Node?)
      requires Valid()
      modifies this, nodes
      ensures Valid() && Grown() && (c != null <==> CanMake(old(View()), p))
      ensures c == null ==> View() == old(View())
      ensures c != null ==> fresh(c) && c in nodes && c != root && pathOf[c] == p && c.children == []
      ensures c != null ==> View() == Attach(lt, old(View()), p, Entry(UNKNOWN, [], []))
    {
      hide ValidNode;
      if p in pathToNode || p.Root? {
        return null;
      }
      if p.dir !in pathToNode {
        return null;
      }
      var t := pathToNode[p.dir];
      if t.kind != DIRECTORY {
        return null;
      }
      if |p.name| > NAME_SIZE - 1 {
        return null;
      }
      c := AddChild(t, p.name);
    }

    method Mkdir(p: Path) returns (ok: bool)
      requires Valid()
      modifies this, nodes
      ensures fresh(nodes - old(nodes))
      ensures Valid() && (View(), ok) == DciStore.Mkdir(lt, old(View()), p)
    {
      hide ValidNode;
      var c := MkNode(p);
      if c == null {
        return false;
      }
      AttachSet(lt, old(View()), p, Entry(UNKNOWN, [], []), Entry(DIRECTORY, [], []));
      Fill(c, DIRECTORY, []);
      return true;
    }

    /** Where the link `n` leads: its text, with leading `../` and `./` steps taken from its directory. */
    method NodeLinkPath(n: Node) returns (r: Option<Path>)
      requires Valid() && n in nodes && n != root
      ensures pathOf[n].Sub? && r == LinkPath(pathOf[n].dir, n.data)
    {
      assert ValidNode(n);
      var text := n.data;
      if [SLASH] <= text {
        return Some(if text == [SLASH] then Root else Walk(Root, text[1..]));
      }
      var up := n.parent;
      var start := 0;
      while start < |text|
        invariant start <= |text| && up in nodes
        invariant Climb(pathOf[n.parent], text) == Climb(pathOf[up], text[start..])
      {
        assert ValidNode(up);
        if [DOT, DOT, SLASH] <= text[start..] {
          assert text[start..][3..] == text[start + 3..];
          start := start + 3;
          if up.parent == null {
            return None;
          }
          up := up.parent;
        } else if [DOT, SLASH] <= text[start..] {
          assert text[start..][2..] == text[start + 2..];
          start := start + 2;
        } else {
          break;
        }
      }
      var dir := NodePath(up);
      return Some(if dir.Root? && text[start..] == [] then Root else Walk(dir, text[start..]));
    }

    method NodePath(n: Node) returns (p: Path)
      requires Valid() && n in nodes
      ensures p == pathOf[n]
    {
      assert ValidNode(n);
      ValidIsRooted();
      if n.parent == null {
        return Root;
      }
      p := PathBelow(n.parent, n.name);
    }

    /** Follows links to the data at their end; `steps` bounds how far a chain that ends can go. */
    method DataRef(p: Path, ghost steps: nat) returns (data: seq<Byte>)
      requires Valid() && Stops(View(), p, steps)
      ensures data == DciLinks.DataRef(View(), p, steps)
      decreases steps
    {
      if p !in pathToNode {
        return [];
      }
      var n := pathToNode[p];
      if n.kind == SYMLINK {
        LinkIsNotRoot(n);
        var target := NodeLinkPath(n);
        if target.None? {
          return [];
        }
        data := DataRef(target.value, steps - 1);
        return;
      }
      return n.data;
    }

    method WriteFile(p: Path, data: seq<Byte>, override: bool, ghost steps: nat) returns (ok: bool)
      requires Valid() && (override ==> Stops(View(), p, steps))
      modifies this, nodes
      ensures fresh(nodes - old(nodes))
      ensures Valid() && (View(), ok) == Write(lt, old(View()), p, data, override, steps)
      decreases steps
    {
      hide ValidNode, Insert;
      if p in pathToNode {
        var n := pathToNode[p];
        if !override {
          return false;
        }
        if n.kind == SYMLINK {
          LinkIsNotRoot(n);
          WriteStep(lt, View(), p, data, steps);
          var target := NodeLinkPath(n);
          if target.None? || target.value !in pathToNode {
            return false;
          }
          ok := WriteFile(target.value, data, override, steps - 1);
          return;
        }
        if n.kind != FILE {
          return false;
        }
        Fill(n, FILE, data);
        return true;
      }
      var c := MkNode(p);
      if c == null {
        return false;
      }
      AttachSet(lt, old(View()), p, Entry(UNKNOWN, [], []), Entry(FILE, data, []));
      Fill(c, FILE, data);
      return true;
    }

    lemma LinkIsNotRoot(n: Node)
      requires Valid() && n in nodes && n.kind == SYMLINK
      ensures IsLink(View(), pathOf[n])
    {
      assert ValidNode(n);
    }

    method Link(source: seq<Byte>, p: Path) returns (ok: bool)
      requires Valid()
      modifies this, nodes
      ensures fresh(nodes - old(nodes))
      ensures Valid() && (View(), ok) == DciLinks.Link(lt, old(View()), source, p)
    {
      if source == Text(p) || source == [] {
        return false;
      }
      var c := MkNode(p);
      if c == null {
        return false;
      }
      AttachSet(lt, old(View()), p, Entry(UNKNOWN, [], []), Entry(SYMLINK, source, []));
      Fill(c, SYMLINK, source);
      return true;
    }

    /** The laws of the index follow from the links. */
    lemma ViewValid()
      requires Valid()
      ensures DciStore.Valid(View())
    {
      hide NoRepeats, ValidNode;
      RootPlace();
      NodeAt(root);
      forall p | p in View() ensures ValidEntry(View(), p) {
        EntryValid(p);
      }
    }

    lemma EntryValid(p: Path)
      requires Valid() && p in View()
      ensures Distinct(View()[p].children)
      ensures forall c <- View()[p].children :: Sub(p, c) in View()
      ensures p.Sub? ==> p.dir in View() && p.name in View()[p.dir].children
    {
      hide ValidNode;
      var n := pathToNode[p];
      forall i | 0 <= i < |n.children| ensures Sub(p, n.children[i].name) in View()
                                             && pathToNode[Sub(p, n.children[i].name)] == n.children[i] {
        ChildAt(n, n.children[i]);
        NodeAt(n.children[i]);
      }
      ChildrenDiffer(n);
      RootPlace();
      if p.Sub? {
        ParentOf(n);
        NodeAt(n.parent);
        ChildAt(n.parent, n);
        var k := FirstAt(n.parent.children, n);
        assert Names(n.parent.children)[k] == n.name;
      }
    }

    lemma ChildrenDiffer(n: Node)
      requires Valid() && n in nodes
      ensures NoRepeats(n.children)
    {
      assert ValidNode(n);
    }

    // ---- Copying a subtree ----

    lemma ChildAt(n: Node, c: Node)
      requires Valid() && n in nodes && c in n.children
      ensures c in nodes && c != root && pathOf[c] == Sub(pathOf[n], c.name)
    {
      assert ValidNode(n) && ValidNode(c);
    }

    lemma NodeAt(n: Node)
      requires Valid() && n in nodes
      ensures pathOf[n] in pathToNode && pathToNode[pathOf[n]] == n
      ensures pathOf[n] in View() && View()[pathOf[n]] == EntryAt(n)
    {
      assert ValidNode(n);
    }

    lemma ChildCount(job: Job, f: Node, to: Node)
      requires Valid() && job.Valid() && job.lt == lt && f in nodes && to in nodes && pathOf[to] == job.to
      requires job.Source(pathOf[f]) && Kept(job, View(), pathOf[f])
      ensures |f.children| == |job.s0[pathOf[f]].children| + Skipped(job, pathOf[f], |f.children|)
    {
      hide ValidNode, Attach, Below, Kept, Insert;
      var p := pathOf[f];
      KeptContents(job, View(), p);
      NodeAt(f);
      if p == job.to.dir {
        InsertAt(lt, job.s0[p].children, job.to.name, 0);
      }
    }

    /** The `idx`-th child of a source, and which child of the original source it is. */
    lemma SourceChild(job: Job, f: Node, to: Node, idx: nat)
      requires Valid() && job.Valid() && job.lt == lt && f in nodes && to in nodes && pathOf[to] == job.to
      requires job.Source(pathOf[f]) && Kept(job, View(), pathOf[f]) && idx < |f.children|
      ensures (f.children[idx] == to) <==> Skipped(job, pathOf[f], idx + 1) > Skipped(job, pathOf[f], idx)
      ensures f.children[idx] != to ==>
                var k := idx - Skipped(job, pathOf[f], idx);
                0 <= k < |job.s0[pathOf[f]].children| && f.children[idx].name == job.s0[pathOf[f]].children[k]
    {
      hide ValidNode, Attach, Below, Kept, Insert;
      var p := pathOf[f];
      var c := f.children[idx];
      KeptContents(job, View(), p);
      ChildCount(job, f, to);
      NodeAt(f);
      ChildAt(f, c);
      NodeAt(c);
      NodeAt(to);
      assert ValidEntry(job.s0, p);
      assert View()[p].children[idx] == c.name;
      if p == job.to.dir {
        InsertAt(lt, job.s0[p].children, job.to.name, idx);
      }
      assert c == to <==> pathOf[c] == job.to;
    }

    /** How many of the first `idx` children of `p` are the target of the copy. */
    ghost function Skipped(job: Job, p: Path, idx: nat): nat
      requires job.Valid() && p in job.s0
    {
      if p == job.to.dir && InsertIndex(job.lt, job.s0[p].children, job.to.name) < idx then 1 else 0
    }

    /** In the middle of `f`: the nodes handled are `idx` of its children, the new pairs follow the `rest`. */
    ghost predicate Midway(job: Job, done: set<Path>, found: set<Path>, f: Node, t: Node, to: Node, idx: nat,
                           work: seq<(Node, Node)>)
      reads this, nodes
    {
      && Valid() && job.Valid() && job.lt == lt
      && f in nodes && t in nodes && to in nodes && f != t
      && job.Source(pathOf[f]) && pathOf[t] == job.Place(pathOf[f]) && pathOf[to] == job.to
      && Skipped(job, pathOf[f], idx) <= idx
      && Within(job, done, found, pathOf[f], idx - Skipped(job, pathOf[f], idx), View())
      && Queue(pathOf, job, work, found)
    }

    /** One child of `f`: unless it is the target itself, a blank node is made for it below `t`. */
    method CopyChild(f: Node, t: Node, to: Node, idx: nat, added: seq<(Node, Node)>, ghost job: Job,
                     ghost done: set<Path>, ghost found: set<Path>, ghost rest: seq<(Node, Node)>)
      returns (more: seq<(Node, Node)>, ghost seen: set<Path>)
      requires Midway(job, done, found, f, t, to, idx, rest + added) && idx < |f.children|
      modifies this, t
      ensures Midway(job, done, seen, f, t, to, idx + 1, rest + more) && Grown()
      ensures pathOf[f] == old(pathOf[f]) && f.children == old(f.children) && t in nodes
    {
      hide ValidNode, Attach, Below, Rebase, CopyEntry, Within, Insert, Kept, Queue;
      var child := f.children[idx];
      ghost var p := pathOf[f];
      ghost var k := idx - Skipped(job, p, idx);
      WithinSource(job, done, found, p, k, View());
      SourceChild(job, f, to, idx);
      if child == to {
        return added, found;
      }
      ChildAt(f, child);
      ChildIsNew(job, done, found, p, k, View());
      ChildAdded(job, done, found, p, k, View());
      ghost var before := pathOf;
      var newChild := AddChild(t, child.name);
      QueueGrows(before, pathOf, job, rest + added, found, child, newChild);
      more, seen := added + [(child, newChild)], found + {pathOf[child]};
      assert rest + more == rest + added + [(child, newChild)];
    }

    /** The type and the data are copied first. */
    method CopyContents(f: Node, t: Node, to: Node, ghost job: Job, ghost done: set<Path>, ghost pending: set<Path>,
                        ghost rest: seq<(Node, Node)>)
      requires Valid() && job.Valid() && job.lt == lt && to in nodes && pathOf[to] == job.to
      requires f in nodes && t in nodes && job.Source(pathOf[f]) && pathOf[t] == job.Place(pathOf[f])
      requires pathOf[f] !in pending && Copying(job, done, pending + {pathOf[f]}, View())
      requires Queue(pathOf, job, rest, pending)
      modifies t
      ensures Midway(job, done, pending, f, t, to, 0, rest)
      ensures f.children == old(f.children)
    {
      hide ValidNode, Attach, Below, Rebase, CopyEntry, Copying, Within, Insert, Kept;
      ghost var p := pathOf[f];
      CopyingNext(job, done, pending + {p}, View(), p);
      KeptContents(job, View(), p);
      EntryStarts(job, done, pending + {p}, p, View());
      assert pending + {p} - {p} == pending;
      NodeAt(f);
      NodeAt(t);
      Fill(t, f.kind, f.data);
    }

    lemma MidwayEnds(job: Job, done: set<Path>, found: set<Path>, f: Node, t: Node, to: Node, work: seq<(Node, Node)>)
      requires Midway(job, done, found, f, t, to, |f.children|, work)
      ensures Valid() && Copying(job, done + {pathOf[f]}, found, View()) && Queue(pathOf, job, work, found)
    {
      hide ValidNode, Attach, Below, Rebase, CopyEntry, Copying, Within, Insert, Kept;
      var p := pathOf[f];
      WithinSource(job, done, found, p, |f.children| - Skipped(job, p, |f.children|), View());
      ChildCount(job, f, to);
      EntryEnds(job, done, found, p, View());
    }

    /** One step of the worklist: `t` becomes a copy of `f`, and the children found are to be copied next. */
    method CopyOne(f: Node, t: Node, to: Node, ghost job: Job, ghost done: set<Path>, ghost pending: set<Path>,
                   ghost rest: seq<(Node, Node)>)
      returns (added: seq<(Node, Node)>, ghost found: set<Path>)
      requires Valid() && job.Valid() && job.lt == lt && to in nodes && pathOf[to] == job.to
      requires f in nodes && t in nodes && job.Source(pathOf[f]) && pathOf[t] == job.Place(pathOf[f])
      requires pathOf[f] !in pending && Copying(job, done, pending + {pathOf[f]}, View())
      requires Queue(pathOf, job, rest, pending)
      modifies this, nodes
      ensures Valid() && Grown()
      ensures Copying(job, done + {old(pathOf[f])}, found, View())
      ensures Queue(pathOf, job, rest + added, found)
    {
      hide ValidNode, Attach, Below, Rebase, CopyEntry, Copying, Within, Insert, Kept, Midway, Queue;
      ghost var p := pathOf[f];
      CopyContents(f, t, to, job, done, pending, rest);
      added, found := [], pending;
      assert rest + [] == rest;
      var idx := 0;
      while idx < |f.children|
        invariant idx <= |f.children| && f.children == old(f.children)
        invariant Midway(job, done, found, f, t, to, idx, rest + added)
        invariant Grown() && f in pathOf && pathOf[f] == p && t in nodes
      {
        added, found := CopyChild(f, t, to, idx, added, job, done, found, rest);
        idx := idx + 1;
      }
      MidwayEnds(job, done, found, f, t, to, rest + added);
    }

    /**
     * Copies the subtree of `from` onto the new node `to`. The worklist grows while it is walked; it ends because
     * every source enters it once, even when `to` lies inside the subtree being copied.
     */
    method CopyNode(from: Node, to: Node, ghost job: Job)
      requires Valid() && job.Valid() && job.lt == lt && from in nodes && to in nodes
      requires pathOf[from] == job.from && pathOf[to] == job.to
      requires View() == Attach(lt, job.s0, job.to, BLANK)
      modifies this, nodes
      ensures fresh(nodes - old(nodes))
      ensures Valid() && (View(), true) == DciStore.Copy(lt, job.s0, job.from, job.to)
    {
      hide ValidNode, Attach, Below, CopyEntry, Copying;
      var pendingList := [(from, to)];
      ghost var done, pending := {}, {job.from};
      CopyStarts(job, View());
      assert Queue(pathOf, job, pendingList, pending) by {
        CopyingNext(job, done, pending, View(), job.from);
        assert pendingList[1..] == [] && pending - {job.from} == {};
      }
      assert pendingList[0..] == pendingList;
      var i := 0;
      while i < |pendingList|
        invariant i <= |pendingList| && Valid() && Grown() && to in nodes
        invariant Copying(job, done, pending, View()) && Queue(pathOf, job, pendingList[i..], pending)
        decreases job.s0.Keys - done
      {
        var (f, t) := pendingList[i];
        ghost var p, rest := pathOf[f], pendingList[i + 1..];
        assert pendingList[i..][0] == (f, t) && pendingList[i..][1..] == rest;
        assert pending - {p} + {p} == pending;
        CopyingNext(job, done, pending, View(), p);
        var added;
        added, pending := CopyOne(f, t, to, job, done, pending - {p}, rest);
        done := done + {p};
        DropHead(pendingList, i, added);
        pendingList := pendingList + added;
        i := i + 1;
      }
      assert pendingList[i..] == [];
      CopyEnds(job, done, View());
    }

    method Copy(from: Path, to: Path) returns (ok: bool)
      requires Valid()
      modifies this, nodes
      ensures fresh(nodes - old(nodes))
      ensures Valid() && (View(), ok) == DciStore.Copy(lt, old(View()), from, to)
    {
      hide ValidNode, Attach, Below, CopyEntry, DciStore.Valid;
      ViewValid();
      if from !in pathToNode {
        return false;
      }
      var fromNode := pathToNode[from];
      var toNode := MkNode(to);
      if toNode == null {
        return false;
      }
      CopyNode(fromNode, toNode, Job(lt, old(View()), from, to));
      return true;
    }

    // ---- Writing the image ----

    /** What the writer promises about bytes written at the position the device had. */
    twostate predicate Wrote(device: Device, bytes: seq<Byte>)
      reads device
    {
      && old(device.pos) <= |old(device.buffer)|
      && device.buffer == Overwrite(old(device.buffer), old(device.pos), bytes)
      && device.pos == old(device.pos) + |bytes| && device.pos <= |device.buffer|
    }

    method WriteMetaDataForNode(device: Device, n: Node, dataSize: nat) returns (size: nat)
      requires device.pos <= |device.buffer|
      modifies device
      ensures Wrote(device, Meta(n.kind, n.name, dataSize)) && size == META_SIZE
    {
      ghost var buffer, pos := device.buffer, device.pos;
      size := device.Write([n.kind]);
      var rawName := if |n.name| < NAME_SIZE then n.name else n.name[..NAME_SIZE - 1];
      var more := device.Write(rawName);
      OverwriteTwice(buffer, pos, [n.kind], rawName);
      size := size + more;
      more := device.Write(Zeros(NAME_SIZE - |rawName|));
      OverwriteTwice(buffer, pos, [n.kind] + rawName, Zeros(NAME_SIZE - |rawName|));
      size := size + more;
      more := device.Write(LittleEndian(dataSize, SIZE_WIDTH));
      OverwriteTwice(buffer, pos, [n.kind] + rawName + Zeros(NAME_SIZE - |rawName|),
                     LittleEndian(dataSize, SIZE_WIDTH));
      size := size + more;
      assert [n.kind] + rawName + Zeros(NAME_SIZE - |rawName|) == [n.kind] + Field(n.name);
    }

    lemma TreeAtNode(n: Node)
      requires Valid() && DciStore.Valid(View()) && n in nodes
      ensures pathOf[n] in View()
      ensures TreeAt(View(), pathOf[n])
              == Tree(n.kind, if n == root then [] else n.name, n.data, TreesFrom(View(), pathOf[n], 0))
      ensures View()[pathOf[n]].children == Names(n.children)
    {
      hide TreesFrom;
      assert ValidNode(n) && ValidNode(root);
      NodeAt(n);
    }

    method WriteDataForNode(device: Device, n: Node) returns (size: nat)
      requires Valid() && DciStore.Valid(View()) && n in nodes && device.pos <= |device.buffer|
      modifies device
      ensures pathOf[n] in View()
      ensures Wrote(device, Payload(TreeAt(View(), pathOf[n]))) && size == |Payload(TreeAt(View(), pathOf[n]))|
      decreases BelowSet(View(), pathOf[n]), 0
    {
      hide ValidNode, TreeAt, TreesFrom, Overwrite, Encode, ValidEntry, BelowSet, View, EntryAt;
      TreeAtNode(n);
      if n.kind == FILE || n.kind == SYMLINK {
        size := device.Write(n.data);
      } else if n.kind == DIRECTORY {
        ghost var p, trees := pathOf[n], TreesFrom(View(), pathOf[n], 0);
        ghost var buffer, pos := device.buffer, device.pos;
        size := 0;
        OverwriteNothing(buffer, pos);
        assert EncodeAll(trees[..0]) == [];
        hide EncodeAll;
        var i := 0;
        while i < |n.children|
          invariant i <= |n.children| == |trees|
          invariant Wrote(device, EncodeAll(trees[..i])) && size == |EncodeAll(trees[..i])|
        {
          var child := n.children[i];
          ChildAt(n, child);
          TreesFromAt(View(), p, i);
          ChildIsSmaller(View(), p, child.name);
          var written := WriteNode(device, child);
          size := size + written;
          OverwriteTwice(buffer, pos, EncodeAll(trees[..i]), Encode(trees[i]));
          EncodeNext(trees, i);
          i := i + 1;
        }
        assert trees[..i] == trees;
      } else {
        OverwriteNothing(device.buffer, device.pos);
        return 0;
      }
    }

    /** Skips the meta data, writes what is below, comes back to fill in the size, and moves on to the end. */
    method WriteNode(device: Device, n: Node) returns (size: nat)
      requires Valid() && DciStore.Valid(View()) && n in nodes && n != root && device.pos <= |device.buffer|
      modifies device
      ensures pathOf[n] in View()
      ensures Wrote(device, Encode(TreeAt(View(), pathOf[n]))) && size == |Encode(TreeAt(View(), pathOf[n]))|
      decreases BelowSet(View(), pathOf[n]), 1
    {
      hide ValidNode, TreeAt, TreesFrom, Overwrite, Padded, Meta, Payload, ValidEntry, BelowSet, View, EntryAt;
      TreeAtNode(n);
      ghost var t := TreeAt(View(), pathOf[n]);
      assert Encode(t) == Meta(t.kind, t.name, |Payload(t)|) + Payload(t);
      hide Encode;
      ghost var buffer := device.buffer;
      var metaDataPos := device.pos;
      device.Seek(metaDataPos + META_SIZE);
      var dataSize := WriteDataForNode(device, n);
      device.Seek(metaDataPos);
      var metaDataSize := WriteMetaDataForNode(device, n, dataSize);
      PatchGap(buffer, metaDataPos, Meta(t.kind, t.name, dataSize), Payload(t));
      device.Seek(device.pos + dataSize);
      size := metaDataSize + dataSize;
    }

    lemma RootPlace()
      requires Valid()
      ensures pathOf[root] == Root
    {
      assert ValidNode(root);
    }

    method WriteToDevice(device: Device) returns (ok: bool)
      requires Valid() && device.pos <= |device.buffer|
      modifies device
      ensures DciStore.Valid(View()) && Wrote(device, Image(TreeAt(View(), Root)))
      ensures ok == (|device.buffer| >= HEADER_SIZE + (|pathToNode| - 1) * META_SIZE)
    {
      hide ValidNode, TreeAt, TreesFrom, Overwrite, Payload, DciStore.Valid, View, EntryAt;
      ViewValid();
      TreeAtNode(root);
      NodeAt(root);
      assert pathOf[root] == Root by {
        RootPlace();
      }
      ghost var buffer, pos := device.buffer, device.pos;
      var version, count := [VERSION], LittleEndian(|root.children|, 3);
      var n := device.Write(MAGIC);
      n := device.Write(version);
      OverwriteTwice(buffer, pos, MAGIC, version);
      n := device.Write(count);
      OverwriteTwice(buffer, pos, MAGIC + version, count);
      n := WriteDataForNode(device, root);
      OverwriteTwice(buffer, pos, MAGIC + version + count, Payload(TreeAt(View(), Root)));
      ok := |device.buffer| >= HEADER_SIZE + (|pathToNode| - 1) * META_SIZE;
    }

    /** The bytes of all files and links, added up over the hash in whatever order it is walked. */
    method ContentSize() returns (size: nat)
      requires Valid()
      ensures size + |pathToNode| * META_SIZE == SumOver(View(), View().Keys)
    {
      hide Valid, ValidNode, ContentOver, View, EntryAt;
      ghost var view := View();
      ViewAt();
      ContentEnds(view);
      size := 0;
      var left := pathToNode.Keys;
      ghost var seen: set<Path> := {};
      while left != {}
        invariant left !! seen && left + seen == view.Keys
        invariant size == ContentOver(view, seen)
        decreases left
      {
        var p :| p in left;
        var n := pathToNode[p];
        if n.kind == FILE || n.kind == SYMLINK {
          size := size + |n.data|;
        }
        ContentAdd(view, seen, p);
        left, seen := left - {p}, seen + {p};
      }
      assert seen == view.Keys;
    }

    lemma ViewAt()
      requires Valid()
      ensures View().Keys == pathToNode.Keys
      ensures forall p <- pathToNode ::
                View()[p].kind == pathToNode[p].kind && View()[p].data == pathToNode[p].data
    {
      hide ValidNode;
    }

    /** `toData`: the space reserved up front, with whatever is in it, is filled from its start. */
    method ToData(memory: nat -> Byte) returns (data: seq<Byte>)
      requires Valid()
      ensures DciStore.Valid(View()) && IsSaved(View(), data)
    {
      hide ValidNode, DciStore.Valid, Image, TreeAt, View, SumOver, Hidden, Overwrite;
      ViewValid();
      var contents := ContentSize();
      SavedSize(View());
      RootCounts();
      var reserved := Reserved(HEADER_SIZE + (|pathToNode| - 1) * META_SIZE + contents, memory);
      StartIsWritten(reserved, Image(TreeAt(View(), Root)));
      var device := new Device(reserved);
      var ok := WriteToDevice(device);
      if !ok {
        return [];
      }
      data := device.buffer;
    }

    lemma RootCounts()
      requires Valid()
      ensures pathToNode != map[] && Root in View()
    {
      RootPlace();
      NodeAt(root);
    }

    // ---- Removing a node ----

    /** What freeing `n` takes with it. */
    ghost function Subtree(n: Node): set<Node>
      requires n in pathOf
      reads this
    {
      set m | m in pathOf && Below(pathOf[n], pathOf[m])
    }

    /** What `removeNode` takes out of the hash: the node and its children, but nothing further down. */
    ghost function Dropped(n: Node): set<Path>
      requires n in pathOf && forall c <- n.children :: c in pathOf
      reads this, n
    {
      {pathOf[n]} + set c | c in n.children :: pathOf[c]
    }

    ghost predicate ChildrenAreLeaves(n: Node)
      reads n, n.children
    {
      forall c <- n.children :: c.children == []
    }

    lemma PlacesOfChildren(n: Node)
      requires Valid() && n in nodes
      ensures forall c <- n.children :: c in nodes && c in pathOf && pathOf[c] == Sub(pathOf[n], c.name)
    {
      forall c <- n.children ensures c in nodes && pathOf[c] == Sub(pathOf[n], c.name) {
        ChildAt(n, c);
      }
    }

    /** `n` is out of its parent's list and freed with everything below it. */
    twostate predicate Removed(n: Node)
      reads this, nodes
    {
      && old(Valid()) && n in old(nodes) && n != root && root == old(root)
      && (forall c <- old(n.children) :: c in old(pathOf))
      && nodes == old(nodes) - old(Subtree(n))
      && pathOf == (map m | m in old(pathOf) && m in nodes :: old(pathOf)[m])
      && pathToNode == old(pathToNode) - old(Dropped(n))
      && (forall m <- nodes :: m.kind == old(m.kind) && m.name == old(m.name) && m.data == old(m.data)
            && m.parent == old(m.parent)
            && m.children == if m == old(n.parent) then RemoveOne(old(m.children), n) else old(m.children))
    }

    twostate lemma RemovedDownwards(n: Node)
      requires Removed(n)
      ensures forall m <- nodes :: NoRepeats(m.children)
      ensures forall m <- nodes, c <- m.children :: c in nodes && c != root && c.parent == m
    {
      hide NoRepeats;
      assert old(ValidNode(n));
      forall m | m in nodes
        ensures NoRepeats(m.children) && forall c <- m.children :: c in nodes && c != root && c.parent == m
      {
        assert old(ValidNode(m));
        RemoveOneMembers(old(m.children), n);
        forall c <- m.children ensures c in nodes && c != root && c.parent == m {
          assert c in old(m.children) && c != n && old(ValidNode(c));
          assert old(pathOf[c]) != old(pathOf[n]);
        }
      }
    }

    twostate lemma RemovedUpwards(n: Node)
      requires Removed(n)
      ensures forall m <- nodes :: m != root ==>
                m.parent in nodes && m.parent in pathOf && pathOf[m] == Sub(pathOf[m.parent], m.name)
                && m in m.parent.children
    {
      hide NoRepeats;
      assert old(ValidNode(n));
      forall m | m in nodes && m != root
        ensures m.parent in nodes && m.parent in pathOf && pathOf[m] == Sub(pathOf[m.parent], m.name)
        ensures m in m.parent.children
      {
        assert old(ValidNode(m)) && old(ValidNode(m.parent));
        assert !Below(old(pathOf[n]), old(pathOf[m.parent]));
        RemoveOneMembers(old(m.parent.children), n);
      }
    }

    twostate lemma RemovedNodes(n: Node)
      requires Removed(n)
      ensures forall m <- nodes :: ValidNode(m)
    {
      hide NoRepeats, Removed, ValidNode;
      RemovedDownwards(n);
      RemovedUpwards(n);
      RemovedPlaces(n);
      NodesAreValid();
    }

    twostate lemma RemovedPlaces(n: Node)
      requires Removed(n)
      ensures forall m <- nodes :: m in pathOf && pathOf[m] in pathToNode && pathToNode[pathOf[m]] == m
      ensures root in nodes && root.parent == null && pathOf[root] == Root
    {
      hide NoRepeats, Dropped, RemoveOne;
      OldDroppedIsBelow(n);
      forall m | m in nodes ensures pathOf[m] in pathToNode && pathToNode[pathOf[m]] == m {
        assert old(ValidNode(m));
      }
      OldRoot();
      OldParentOf(n);
      BelowRoot(old(pathOf[n]));
    }

    lemma NodesAreValid()
      requires forall m <- nodes :: m in pathOf && pathOf[m] in pathToNode && pathToNode[pathOf[m]] == m
      requires root in nodes && root.parent == null && pathOf[root] == Root
      requires forall m <- nodes :: m != root ==>
                 m.parent in nodes && m.parent in pathOf && pathOf[m] == Sub(pathOf[m.parent], m.name)
                 && m in m.parent.children
      requires forall m <- nodes :: NoRepeats(m.children)
      requires forall m <- nodes, c <- m.children :: c in nodes && c != root && c.parent == m
      ensures forall m <- nodes :: ValidNode(m)
    {
      hide NoRepeats;
    }

    twostate lemma OldChildAt(n: Node)
      requires old(Valid()) && n in old(nodes)
      ensures forall c <- old(n.children) :: c in old(nodes) && old(c.parent) == n
                && old(pathOf[c]) == Sub(old(pathOf[n]), old(c.name))
                && old(pathOf[c]) in old(pathToNode) && old(pathToNode[pathOf[c]]) == c
    {
      assert old(ValidNode(n));
      forall c | c in old(n.children)
        ensures c in old(nodes) && old(c.parent) == n && old(pathOf[c]) == Sub(old(pathOf[n]), old(c.name))
        ensures old(pathOf[c]) in old(pathToNode) && old(pathToNode[pathOf[c]]) == c
      {
        assert old(ValidNode(c));
      }
    }

    twostate lemma OldDroppedIsBelow(n: Node)
      requires old(Valid()) && n in old(nodes) && forall c <- old(n.children) :: c in old(pathOf)
      ensures forall q <- old(Dropped(n)) ::
                Below(old(pathOf[n]), q) && (q == old(pathOf[n]) || (q.Sub? && q.dir == old(pathOf[n])))
    {
      OldChildAt(n);
    }

    /** Whatever lies two steps or more below a path shows that a child there has children. */
    twostate lemma OldGrandchild(m: Node)
      requires old(Valid()) && m in old(nodes)
      ensures forall p :: Below(p, old(pathOf[m])) && p != old(pathOf[m]) && p != old(pathOf[m]).dir ==>
                p in old(pathToNode) && !old(ChildrenAreLeaves(pathToNode[p]))
      decreases old(pathOf[m])
    {
      assert old(ValidNode(m));
      if m != old(root) {
        ghost var u := old(m.parent);
        assert old(ValidNode(u));
        OldGrandchild(u);
        if u != old(root) {
          assert old(ValidNode(u.parent));
          assert u in old(u.parent.children) && m in old(u.children);
        }
      }
    }

    twostate lemma RemovedValid(n: Node)
      requires Removed(n) && old(ChildrenAreLeaves(n))
      ensures Valid()
    {
      hide NoRepeats, ValidNode;
      RemovedNodes(n);
      OldRoot();
      OldNode(n);
      OldParentOf(n);
      BelowRoot(old(pathOf[n]));
      forall q <- pathToNode ensures pathToNode[q] in nodes && pathOf[pathToNode[q]] == q {
        ghost var m := old(pathToNode[q]);
        OldGrandchild(m);
        if m != root {
          OldParentOf(m);
          OldNode(old(m.parent));
        }
      }
    }

    twostate lemma RemovedBroken(n: Node)
      requires Removed(n) && !old(ChildrenAreLeaves(n))
      ensures !Valid()
    {
      hide NoRepeats, ValidNode;
      ghost var p := old(pathOf[n]);
      OldChildAt(n);
      ghost var c :| c in old(n.children) && old(c.children) != [];
      ghost var g := old(c.children[0]);
      OldChildAt(c);
      ghost var q := old(pathOf[g]);
      assert q in old(pathToNode) && Below(p, q);
      OldDroppedIsBelow(n);
      BelowIsLower(p, q.dir);
      assert q in pathToNode && pathToNode[q] == g && g !in nodes;
    }

    /** The hash is in step with the tree after the removal exactly if the children of the node were leaves. */
    twostate lemma RemovedIff(n: Node)
      requires Removed(n)
      ensures Valid() <==> old(ChildrenAreLeaves(n))
    {
      hide ValidNode;
      if old(ChildrenAreLeaves(n)) {
        RemovedValid(n);
      } else {
        RemovedBroken(n);
      }
    }

    twostate lemma OldParentOf(n: Node)
      requires old(Valid()) && n in old(nodes) && n != old(root)
      ensures old(n.parent) != null && old(n.parent) in old(nodes) && n in old(n.parent.children)
      ensures old(pathOf[n]) == Sub(old(pathOf[n.parent]), old(n.name))
      ensures NoRepeats(old(n.parent.children))
    {
      assert old(ValidNode(n)) && old(ValidNode(n.parent));
    }

    /** The names of the children removed from the hash are those in the entry of the removed node. */
    twostate lemma DroppedIsGone(n: Node)
      requires old(Valid()) && n in old(nodes) && forall c <- old(n.children) :: c in old(pathOf)
      ensures var p := old(pathOf[n]);
              p in old(View()) && old(Dropped(n)) == {p} + set c | c in old(View())[p].children :: Sub(p, c)
    {
      hide ValidNode;
      OldNode(n);
      OldChildAt(n);
      ghost var p := old(pathOf[n]);
      ghost var names := old(Names(n.children));
      assert old(View())[p].children == names;
      forall c | c in old(n.children) ensures old(c.name) in names {
        var i :| 0 <= i < |old(n.children)| && old(n.children[i]) == c;
        assert names[i] == old(c.name);
      }
      forall c | c in names ensures exists x :: x in old(n.children) && old(pathOf[x]) == Sub(p, c) {
        var i :| 0 <= i < |names| && names[i] == c;
        assert old(n.children[i]) in old(n.children);
      }
    }

    static lemma NamesWithoutOne(list: seq<Node>, names: seq<Name>, k: nat)
      requires k < |list| == |names|
      requires forall j :: 0 <= j < |list| && j != k ==> list[j].name == names[j]
      ensures Names(list[..k] + list[k + 1..]) == names[..k] + names[k + 1..]
    {
    }

    twostate lemma RemovedParentEntry(n: Node)
      requires Removed(n) && Valid()
      ensures old(n.parent in pathOf)
      ensures var q := old(pathOf[n.parent]);
              && q in pathToNode && q in old(View())
              && EntryAt(pathToNode[q])
                 == old(View())[q].(children := Without(old(View())[q].children, old(n.name)))
    {
      hide ValidNode, Dropped, NoRepeats;
      OldParentOf(n);
      OldNode(n);
      ghost var m := old(n.parent);
      assert m in nodes by {
        if Below(old(pathOf[n]), old(pathOf[m])) {
          BelowIsLower(old(pathOf[n]), old(pathOf[m]));
        }
      }
      OldNode(m);
      OldChildAt(m);
      NodeAt(m);
      ghost var list, names := old(m.children), old(Names(m.children));
      ghost var k := FirstAt(list, n);
      forall j | 0 <= j < k ensures names[j] != old(n.name) {
        assert list[j] in list;
      }
      RemoveOneAt(list, n, k);
      WithoutAt(names, old(n.name), k);
      RemoveOneMembers(list, n);
      forall j | 0 <= j < |list| && j != k ensures list[j].name == names[j] {
        assert list[j] in list[..k] + list[k + 1..];
        ChildAt(m, list[j]);
      }
      NamesWithoutOne(list, names, k);
    }

    static lemma FirstAt(list: seq<Node>, n: Node) returns (k: nat)
      requires n in list
      ensures k < |list| && list[k] == n && forall j :: 0 <= j < k ==> list[j] != n
    {
      k := 0;
      while list[k] != n
        invariant k < |list| && forall j :: 0 <= j < k ==> list[j] != n
        invariant n in list[k..]
        decreases |list| - k
      {
        assert list[k..] == [list[k]] + list[k + 1..];
        k := k + 1;
      }
    }

    twostate lemma RemovedView(n: Node)
      requires Removed(n) && Valid() && CanRemove(old(View()), old(pathOf[n]))
      ensures var p := old(pathOf[n]); p.dir in old(View()) && View() == DciStore.Remove(old(View()), p)
    {
      hide ValidNode, Dropped, Subtree, NoRepeats, Without;
      ghost var p := old(pathOf[n]);
      OldParentOf(n);
      OldNode(old(n.parent));
      DroppedIsGone(n);
      RemovedParentEntry(n);
      forall q | q in pathToNode ensures EntryAt(pathToNode[q]) == DciStore.Remove(old(View()), p)[q] {
        ghost var m := pathToNode[q];
        OldNode(m);
        if m != old(n.parent) {
          forall c | c in m.children ensures c in old(nodes) && c.name == old(c.name) {
            ChildAt(m, c);
          }
          EntryKept(m);
        }
      }
      ViewIs(DciStore.Remove(old(View()), p));
    }

    /** `removeNode`: takes the node out of its parent, takes it and its children out of the hash, frees the subtree. */
    method Detach(n: Node)
      requires Rooted() && n in pathOf && n.parent != null && n.parent != n
      requires forall c <- n.children :: c in pathOf && pathOf[c] == Sub(pathOf[n], c.name)
      modifies this, n.parent`children
      ensures n.parent == old(n.parent) && n.parent.children == RemoveOne(old(n.parent.children), n)
      ensures root == old(root) && nodes == old(nodes) - old(Subtree(n))
      ensures pathOf == (map m | m in old(pathOf) && m in nodes :: old(pathOf)[m])
      ensures pathToNode == old(pathToNode) - old(Dropped(n))
    {
      hide Subtree, Dropped, RemoveOne;
      assert RootedNode(n);
      var p := PathBelow(n.parent, n.name);
      ghost var freed := Subtree(n);
      var parent := n.parent;
      parent.children := RemoveOne(parent.children, n);
      Unindex(n, p);
      nodes := nodes - freed;
      pathOf := map m | m in pathOf && m in nodes :: pathOf[m];
    }

    /**
     * Only if no child has children of its own does the hash keep step; otherwise it still leads to freed nodes.
     */
    method RemoveNode(n: Node)
      requires Valid() && n in nodes && n != root
      modifies this, nodes
      ensures fresh(nodes - old(nodes))
      ensures Removed(n)
      ensures Valid() <==> old(ChildrenAreLeaves(n))
      ensures Valid() ==> var p := old(pathOf[n]);
                          && CanRemove(old(View()), p) && p.dir in old(View())
                          && View() == DciStore.Remove(old(View()), p)
    {
      hide ValidNode, NoRepeats, Subtree, Dropped, View, CanRemove, DciStore.Remove, RemoveOne;
      ValidIsRooted();
      ParentOf(n);
      PlacesOfChildren(n);
      LeavesInView(n);
      Detach(n);
      RemovedIff(n);
      if old(ChildrenAreLeaves(n)) {
        RemovedView(n);
      }
    }

    /** Takes the node and its children out of the hash. */
    method Unindex(n: Node, p: Path)
      requires n in pathOf && p == pathOf[n]
      requires forall c <- n.children :: c in pathOf && pathOf[c] == Sub(p, c.name)
      modifies this`pathToNode
      ensures pathToNode == old(pathToNode) - old(Dropped(n))
    {
      pathToNode := pathToNode - {p};
      var i := 0;
      while i < |n.children|
        invariant i <= |n.children|
        invariant pathToNode == old(pathToNode) - ({p} + set c | c in n.children[..i] :: pathOf[c])
      {
        assert n.children[..i + 1] == n.children[..i] + [n.children[i]];
        pathToNode := pathToNode - {Sub(p, n.children[i].name)};
        i := i + 1;
      }
      assert n.children[..i] == n.children;
    }

    lemma ParentOf(n: Node)
      requires Valid() && n in nodes && n != root
      ensures n.parent != null && n.parent in nodes && n in n.parent.children && n !in n.children
      ensures Below(pathOf[n], pathOf[n]) && !Below(pathOf[n], pathOf[n.parent])
    {
      assert ValidNode(n);
      if n in n.children {
        ChildAt(n, n);
      }
      if Below(pathOf[n], pathOf[n.parent]) {
        BelowIsLower(pathOf[n], pathOf[n.parent]);
      }
    }

    method Remove(p: Path) returns (ok: bool)
      requires Valid()
      modifies this, nodes
      ensures fresh(nodes - old(nodes))
      ensures ok == (p in old(pathToNode))
      ensures !ok ==> Valid() && View() == old(View())
      ensures ok && p.Sub? ==> Removed(old(pathToNode[p])) && (Valid() <==> CanRemove(old(View()), p))
      ensures ok && p.Sub? && Valid() ==>
                p in old(View()) && p.dir in old(View()) && View() == DciStore.Remove(old(View()), p)
      ensures ok && p.Root? ==> (Valid() <==> CanClear(old(View())))
      ensures ok && p.Root? && Valid() ==> Root in old(View()) && View() == Clear(old(View()))
    {
      hide ValidNode, NoRepeats, Subtree, Dropped, RemoveOne, DciStore.Remove, View, Clear, CanClear;
      if p !in pathToNode {
        return false;
      }
      var n := pathToNode[p];
      NodeAt(n);
      RootPlace();
      if n == root {
        Empty();
      } else {
        LeavesInView(n);
        RemoveNode(n);
      }
      return true;
    }

    // ---- Emptying the root ----

    /** What lies below the first `k` of those nodes. */
    ghost function Gone(list: seq<Node>, k: nat): set<Node>
      requires k <= |list| && forall c <- list :: c in pathOf
      reads this
    {
      set m | m in pathOf && exists j :: 0 <= j < k && Below(pathOf[list[j]], pathOf[m])
    }

    ghost function Unlisted(list: seq<Node>, k: nat): set<Path>
      requires k <= |list| && forall c <- list :: c in pathOf && forall g <- c.children :: g in pathOf
      reads this, list
    {
      set j, q | 0 <= j < k && q in Dropped(list[j]) :: q
    }

    /** The first `k` children of the root, as it was, are detached. */
    twostate predicate Emptied(k: nat)
      reads this, nodes
    {
      && old(Valid()) && root == old(root) && root in nodes && k <= |old(root.children)|
      && (forall c <- old(root.children) :: c in old(pathOf) && forall g <- old(c.children) :: g in old(pathOf))
      && nodes == old(nodes) - old(Gone(root.children, k))
      && pathOf.Keys == nodes && (forall m <- nodes :: pathOf[m] == old(pathOf)[m])
      && pathToNode == old(pathToNode) - old(Unlisted(root.children, k))
      && root.children == old(root.children)[k..] && root.kind == old(root.kind) && root.data == old(root.data)
      && (forall m <- nodes :: m.name == old(m.name) && m.parent == old(m.parent))
      && (forall m <- nodes :: m != root ==> m.children == old(m.children))
    }

    twostate lemma OldRootChildren()
      requires old(Valid())
      ensures forall c <- old(root.children) :: c in old(nodes) && c in old(pathOf) && c != old(root)
                && old(c.parent) == old(root) && old(pathOf[c]) == Sub(Root, old(c.name))
                && forall g <- old(c.children) :: g in old(pathOf) && old(pathOf[g]) == Sub(old(pathOf[c]), old(g.name))
      ensures forall j, k :: 0 <= j < |old(root.children)| && 0 <= k < |old(root.children)| && j != k ==>
                !Below(old(pathOf[root.children[j]]), old(pathOf[root.children[k]]))
      ensures old(root.parent) == null && old(pathOf.Keys) == old(nodes)
      ensures old(root) in old(nodes) && old(pathOf[root]) == Root
    {
      ghost var r := old(root);
      assert old(ValidNode(r));
      ghost var list := old(r.children);
      OldChildAt(r);
      forall c | c in list
        ensures c in old(pathOf) && old(pathOf[c]) == Sub(Root, old(c.name))
        ensures forall g <- old(c.children) :: g in old(pathOf) && old(pathOf[g]) == Sub(old(pathOf[c]), old(g.name))
      {
        OldChildAt(c);
      }
      forall j, k | 0 <= j < |list| && 0 <= k < |list| && j != k
        ensures !Below(old(pathOf[list[j]]), old(pathOf[list[k]]))
      {
        OldNode(list[j]);
        OldNode(list[k]);
        assert list[j] in list && list[k] in list && list[j] != list[k];
        assert !Below(old(pathOf[list[j]]), Root);
      }
    }

    /** The parents of what is left are left. */
    twostate lemma EmptiedRooted(k: nat)
      requires Emptied(k)
      ensures Rooted()
    {
      forall n | n in pathOf ensures RootedNode(n) {
        assert old(ValidNode(n));
        if n != root {
          assert n.parent in nodes by {
            forall j | 0 <= j < k ensures !Below(old(pathOf[root.children[j]]), old(pathOf[n.parent])) {
              assert !Below(old(pathOf[root.children[j]]), old(pathOf[n]));
            }
          }
        }
      }
    }

    /** The next child is still there, with all that was below it. */
    twostate lemma EmptiesOneMore(k: nat)
      requires Emptied(k) && k < |old(root.children)|
      ensures var c := old(root.children)[k];
        && c in nodes && c in pathOf && c.parent == root && c != root
        && (forall g <- c.children :: g in pathOf && pathOf[g] == Sub(pathOf[c], g.name))
        && root !in Subtree(c) && nodes - Subtree(c) == old(nodes) - old(Gone(root.children, k + 1))
        && old(Unlisted(root.children, k)) + Dropped(c) == old(Unlisted(root.children, k + 1))
    {
      OldRootChildren();
      ghost var list := old(root.children);
      ghost var c := list[k];
      assert c in nodes && old(pathOf[c]) == pathOf[c];
      OldChildAt(c);
      forall g | g in c.children ensures g in nodes && pathOf[g] == old(pathOf[g]) {
        forall j | 0 <= j < k ensures !Below(old(pathOf[list[j]]), old(pathOf[g])) {
          assert !Below(old(pathOf[list[j]]), old(pathOf[c]));
        }
      }
      assert Dropped(c) == old(Dropped(c));
      OneMoreUnlisted(k);
    }

    twostate lemma OneMoreUnlisted(k: nat)
      requires k < |old(root.children)|
      requires forall c <- old(root.children) :: c in old(pathOf) && forall g <- old(c.children) :: g in old(pathOf)
      ensures old(Unlisted(root.children, k + 1)) == old(Unlisted(root.children, k)) + old(Dropped(root.children[k]))
    {
      hide Dropped;
    }

    /** The loop over the root's list, out of which each child is taken while it runs. */
    method Empty()
      requires Valid()
      modifies this, root`children
      ensures nodes <= old(nodes)
      ensures Valid() <==> CanClear(old(View()))
      ensures Valid() ==> Root in old(View()) && View() == Clear(old(View()))
    {
      hide ValidNode, Gone, Unlisted, Subtree, Dropped, Rooted, CanClear, Clear, View;
      OldRootChildren();
      ClearsIff();
      ghost var k := 0;
      NothingEmptied();
      while root.children != []
        invariant Emptied(k)
        decreases |root.children|
      {
        EmptiedRooted(k);
        EmptiesOneMore(k);
        ghost var unlisted := Dropped(root.children[0]);
        DetachFirst();
        LessAndLess(old(pathToNode), old(Unlisted(root.children, k)), unlisted);
        k := k + 1;
      }
      root.children := [];
      EmptiedIff();
    }

    /** What the root's children hold, as the store says it. */
    lemma ClearsIff()
      requires Valid()
      ensures CanClear(View()) <==> forall c <- root.children :: ChildrenAreLeaves(c)
      ensures Root in View() && Clear(View()) == map[Root := Entry(DIRECTORY, root.data, [])]
    {
      assert EntryAt(root) == Entry(DIRECTORY, root.data, Names(root.children));
      hide ValidNode, CanRemove, View, EntryAt, ChildrenAreLeaves;
      RootPlace();
      NodeAt(root);
      var names := Names(root.children);
      forall i | 0 <= i < |names|
        ensures CanRemove(View(), Sub(Root, names[i])) <==> ChildrenAreLeaves(root.children[i])
      {
        ChildAt(root, root.children[i]);
        LeavesInView(root.children[i]);
      }
    }

    static lemma LessAndLess(all: map<Path, Node>, a: set<Path>, b: set<Path>)
      ensures all - a - b == all - (a + b)
    {
    }

    method DetachFirst()
      requires Rooted() && root.children != []
      requires var c := root.children[0];
        c in pathOf && c.parent == root && c != root
        && forall g <- c.children :: g in pathOf && pathOf[g] == Sub(pathOf[c], g.name)
      modifies this, root`children
      ensures var c := old(root.children[0]);
        && root == old(root) && root.children == old(root.children)[1..]
        && nodes == old(nodes) - old(Subtree(c)) && pathToNode == old(pathToNode) - old(Dropped(c))
        && pathOf.Keys == old(pathOf).Keys * nodes && forall m <- pathOf :: pathOf[m] == old(pathOf)[m]
    {
      hide Rooted, Subtree, Dropped;
      Detach(root.children[0]);
    }

    twostate lemma NothingEmptied()
      requires old(Valid()) && unchanged(this) && forall n <- nodes :: unchanged(n)
      ensures Emptied(0)
    {
      OldRootChildren();
      assert old(ValidNode(root));
    }

    /** Whatever is not the root lies below one of its children. */
    twostate lemma OldTop(m: Node) returns (j: nat)
      requires old(Valid()) && m in old(nodes) && m != old(root)
      ensures j < |old(root.children)| && old(root.children)[j] in old(pathOf)
      ensures Below(old(pathOf[root.children[j]]), old(pathOf[m]))
      decreases old(pathOf[m])
    {
      OldParentOf(m);
      OldRootChildren();
      if old(m.parent) == old(root) {
        j :| 0 <= j < |old(root.children)| && old(root.children)[j] == m;
      } else {
        j := OldTop(old(m.parent));
      }
    }

    twostate lemma AllEmptied()
      requires Emptied(|old(root.children)|)
      ensures nodes == {root} && pathOf == map[root := Root] && root.children == [] && root.parent == null
      ensures Root in pathToNode && pathToNode[Root] == root
    {
      OldRootChildren();
      forall m | m in old(nodes) && m != root ensures m !in nodes {
        ghost var j := OldTop(m);
      }
      OldNode(root);
      forall j | 0 <= j < |old(root.children)| ensures Root !in old(Dropped(root.children[j])) {
        OldDroppedIsBelow(old(root.children[j]));
      }
    }

    /** A node three steps below the root stays in the hash. */
    twostate lemma DeepStays(c: Node)
      requires Emptied(|old(root.children)|) && c in old(root.children) && !old(ChildrenAreLeaves(c))
      ensures !Valid()
    {
      ghost var g :| g in old(c.children) && old(g.children) != [];
      OldRootChildren();
      OldChildAt(c);
      OldChildAt(g);
      ghost var h := old(g.children)[0];
      assert h in old(g.children);
      ghost var q := old(pathOf[h]);
      forall j | 0 <= j < |old(root.children)| ensures q !in old(Dropped(root.children[j])) {
        OldDroppedIsBelow(old(root.children[j]));
      }
      AllEmptied();
      assert q in pathToNode && q != Root;
    }

    /** A child of the root, or a child of one, is taken out of the hash. */
    twostate lemma ShallowIsUnlisted(m: Node)
      requires old(Valid()) && m in old(nodes) && m != old(root)
      requires forall c <- old(root.children) :: old(ChildrenAreLeaves(c))
      ensures forall c <- old(root.children) :: c in old(pathOf) && forall g <- old(c.children) :: g in old(pathOf)
      ensures old(pathOf[m]) in old(Unlisted(root.children, |root.children|))
    {
      OldRootChildren();
      ghost var j := OldTop(m);
      ghost var c := old(root.children)[j];
      OldGrandchild(m);
      OldParentOf(m);
      OldNode(old(m.parent));
      OldNode(c);
      OldNode(m);
      assert old(pathOf[m]) in old(Dropped(c)) by {
        if old(m.parent) == c {
          assert m in old(c.children);
        }
      }
    }

    twostate lemma ShallowGoes(q: Path)
      requires Emptied(|old(root.children)|) && q in pathToNode
      requires forall c <- old(root.children) :: old(ChildrenAreLeaves(c))
      ensures q == Root
    {
      OldRootChildren();
      ghost var m := old(pathToNode[q]);
      assert m in old(nodes) && old(pathOf[m]) == q;
      if m != root {
        ShallowIsUnlisted(m);
      }
    }

    /** The hash is down to the root exactly if nothing lay three steps below it. */
    twostate lemma EmptiedIff()
      requires Emptied(|old(root.children)|)
      ensures Valid() <==> forall c <- old(root.children) :: old(ChildrenAreLeaves(c))
      ensures Valid() ==> View() == map[Root := Entry(DIRECTORY, old(root.data), [])]
    {
      hide Emptied, ValidNode;
      AllEmptied();
      if forall c <- old(root.children) :: old(ChildrenAreLeaves(c)) {
        forall q | q in pathToNode ensures q == Root {
          ShallowGoes(q);
        }
        EmptiedKind();
        AloneIsValid();
      } else {
        ghost var c :| c in old(root.children) && !old(ChildrenAreLeaves(c));
        DeepStays(c);
      }
    }

    twostate lemma EmptiedKind()
      requires Emptied(|old(root.children)|)
      ensures root.kind == DIRECTORY && root.data == old(root.data)
    {
    }

    lemma AloneIsValid()
      requires nodes == {root} && pathOf == map[root := Root] && root.children == [] && root.parent == null
      requires pathToNode.Keys == {Root} && pathToNode[Root] == root && root.kind == DIRECTORY
      ensures Valid()
      ensures View() == map[Root := Entry(DIRECTORY, root.data, [])]
    {
      assert ValidNode(root);
    }

    /** What lies two steps below a removed node stays in the hash, although it is freed. */
    twostate lemma DeeperStays(x: Removal)
      requires Removed(x.n) && x.q in old(pathToNode)
      requires Below(old(pathOf[x.n]), x.q) && x.q != old(pathOf[x.n]) && x.q.dir != old(pathOf[x.n])
      ensures x.q in pathToNode && pathToNode[x.q] !in nodes
    {
      hide NoRepeats, ValidNode;
      OldDroppedIsBelow(x.n);
      assert old(pathOf[pathToNode[x.q]]) == x.q;
    }

    lemma IndexedNode(p: Path)
      requires Valid() && p in pathToNode
      ensures var n := pathToNode[p];
              && n in nodes && n in pathOf && pathOf[n] == p
              && (p.Sub? ==> p.dir in pathToNode && n != root && n.parent == pathToNode[p.dir])
    {
      var n := pathToNode[p];
      assert ValidNode(n);
      RootPlace();
      if p.Sub? {
        assert ValidNode(n.parent);
      }
    }

    lemma RootEntry()
      requires Valid()
      ensures Root in View() && View()[Root].children == Names(root.children) && root in nodes
      ensures forall c <- root.children :: c in nodes
    {
      RootPlace();
      NodeAt(root);
      assert ValidNode(root);
    }

    lemma LeavesInView(n: Node)
      requires Valid() && n in nodes && n != root
      ensures pathOf[n].Sub? && (ChildrenAreLeaves(n) <==> CanRemove(View(), pathOf[n]))
    {
      assert ValidNode(n);
      forall c <- n.children ensures Sub(pathOf[n], c.name) in View()
                                     && View()[Sub(pathOf[n], c.name)].children == Names(c.children) {
        ChildAt(n, c);
        NodeAt(c);
      }
    }

    // ---- Renaming a node ----

    /** The length of the path as a string. */
    static function DirOf(p: Path): Path {
      if p.Root? then Root else p.dir
    }

    /** The list of the new parent after the node has been put in and the overridden one taken out. */
    static function MovedIn(list: seq<Node>, i: nat, n: Node, over: Node?): seq<Node>
      requires i <= |list|
    {
      var r := if n in list then list else list[..i] + [n] + list[i..];
      if over == null then r else RemoveOne(r, over)
    }

    static lemma MovedInMembers(list: seq<Node>, i: nat, n: Node, over: Node?)
      requires i <= |list| && NoRepeats(list) && over != n
      ensures NoRepeats(MovedIn(list, i, n, over))
      ensures forall m :: m in MovedIn(list, i, n, over) <==> m == n || (m in list && m != over)
    {
      var r := if n in list then list else list[..i] + [n] + list[i..];
      assert NoRepeats(r);
      assert list == list[..i] + list[i..];
      assert forall m :: m in r <==> m == n || m in list;
      if over != null {
        RemoveOneMembers(r, over);
      }
    }

    /** `x.n` has moved to `x.q` below `x.t`; `x.over`, if any, is freed with what was below it. */
    twostate predicate Renamed(x: Move)
      reads this, nodes
    {
      && old(Valid()) && x.n in old(nodes) && x.n != root && x.t in old(nodes) && root == old(root)
      && x.q.Sub? && x.q.dir == old(pathOf[x.t]) && x.q != old(pathOf[x.n]) && x.n != x.t
      && (x.over != null ==> x.over in old(nodes) && old(pathOf[x.over]) == x.q)
      && (x.over == null ==> x.q !in old(pathToNode))
      && nodes == old(nodes) - Freed(x)
      && pathOf == (map m | m in old(pathOf) && m in nodes :: if m == x.n then x.q else old(pathOf[m]))
      && pathToNode == (old(pathToNode) - {old(pathOf[x.n])})[x.q := x.n]
      && x.n in nodes && x.n.name == x.q.name && x.n.parent == x.t && x.i <= |old(x.t.children)|
      && (forall m <- nodes :: m.kind == old(m.kind) && m.data == old(m.data)
            && (m != x.n ==> m.name == old(m.name) && m.parent == old(m.parent))
            && m.children == if m == x.t then MovedIn(old(m.children), x.i, x.n, x.over)
                             else if m == old(x.n.parent) then RemoveOne(old(m.children), x.n)
                             else old(m.children))
    }

    /** What lay below the overridden node, but not the moved node with what lies below that. */
    twostate function Freed(x: Move): set<Node>
      reads this
    {
      if x.over == null || x.over !in old(pathOf) || x.n !in old(pathOf) then {}
      else
        var p, q := old(pathOf[x.n]), old(pathOf[x.over]);
        set m | m in old(pathOf) && Below(q, old(pathOf[m])) && !(Below(q, p) && Below(p, old(pathOf[m])))
    }

    /** Nothing moves along with the node, and nothing but the node was below the overridden one. */
    ghost predicate CanMove(p: Path, q: Path)
      reads this
    {
      && (forall x <- pathToNode :: Below(p, x) ==> x == p)
      && (forall x <- pathToNode :: Below(q, x) ==> x == q || x == p)
    }

    /** What lies below a path shows that the node there has children. */
    twostate lemma OldDescendant(m: Node)
      requires old(Valid()) && m in old(nodes)
      ensures forall p :: Below(p, old(pathOf[m])) && p != old(pathOf[m]) ==>
                p in old(pathToNode) && old(pathToNode[p].children) != []
      decreases old(pathOf[m])
    {
      assert old(ValidNode(m));
      if m != old(root) {
        ghost var u := old(m.parent);
        assert old(ValidNode(u)) && m in old(u.children);
        OldDescendant(u);
      }
    }

    twostate lemma RenamedSelf(x: Move)
      requires Renamed(x) && old(x.n.children) == []
      ensures ValidNode(x.n)
    {
      assert old(ValidNode(x.t)) && old(ValidNode(x.n));
      assert x.t in nodes by {
        if Below(x.q, x.q.dir) {
          BelowIsLower(x.q, x.q.dir);
        }
      }
      MovedInMembers(old(x.t.children), x.i, x.n, x.over);
    }

    /** The links of the nodes that have not moved, upwards. */
    twostate lemma RenamedUpwards(x: Move)
      requires Renamed(x) && old(x.n.children) == []
      ensures forall m <- nodes :: m != x.n && m != root ==>
                m.parent in nodes && m.parent in pathOf && pathOf[m] == Sub(pathOf[m.parent], m.name)
                && m in m.parent.children
    {
      hide NoRepeats, MovedIn, ValidNode;
      OldNoRepeats(x.t);
      MovedInMembers(old(x.t.children), x.i, x.n, x.over);
      forall m | m in nodes && m != x.n && m != root
        ensures m.parent in nodes && m.parent in pathOf && pathOf[m] == Sub(pathOf[m.parent], m.name)
        ensures m in m.parent.children
      {
        OldParentOf(m);
        ghost var u := old(m.parent);
        OldNode(m);
        OldNode(x.n);
        assert old(pathOf[m]) != old(pathOf[x.n]);
        assert u != x.n && u in nodes;
        if m == x.over {
          BelowSelf(x.q);
          BelowBoth(old(pathOf[x.n]), x.q);
        }
        RemoveOneMembers(old(u.children), x.n);
      }
    }

    /** The links of the nodes that have not moved, downwards. */
    twostate lemma RenamedDownwards(x: Move)
      requires Renamed(x)
      ensures forall m <- nodes :: m != x.n ==> NoRepeats(m.children)
      ensures forall m <- nodes, c <- m.children :: m != x.n ==> c in nodes && c != root && c.parent == m
    {
      hide MovedIn, NoRepeats, ValidNode;
      OldNode(x.t);
      OldNoRepeats(x.t);
      MovedInMembers(old(x.t.children), x.i, x.n, x.over);
      forall m | m in nodes && m != x.n
        ensures NoRepeats(m.children) && forall c <- m.children :: c in nodes && c != root && c.parent == m
      {
        OldChildAt(m);
        OldNode(m);
        OldNoRepeats(m);
        OldRoot();
        RemoveOneMembers(old(m.children), x.n);
        forall c <- m.children ensures c in nodes && c != root && c.parent == m {
          assert c == x.n || c in old(m.children);
          if c in Freed(x) {
            OldNode(c);
            OldNode(x.over);
          }
        }
      }
    }

    twostate lemma OldNoRepeats(n: Node)
      requires old(Valid()) && n in old(nodes)
      ensures NoRepeats(old(n.children))
    {
      assert old(ValidNode(n));
    }

    twostate lemma RenamedPlaces(x: Move)
      requires Renamed(x)
      ensures forall m <- nodes :: m != x.n ==>
                m in pathOf && pathOf[m] == old(pathOf[m]) && pathOf[m] in pathToNode && pathToNode[pathOf[m]] == m
      ensures root == old(root) && root != x.n && root in nodes && root.parent == null && pathOf[root] == Root
    {
      hide NoRepeats, MovedIn, ValidNode, Below;
      OldRoot();
      BelowRoot(x.q);
      OldNode(x.n);
      forall m | m in nodes && m != x.n ensures old(pathOf[m]) in pathToNode && pathToNode[old(pathOf[m])] == m {
        OldNode(m);
        if x.over != null {
          OldNode(x.over);
        }
        if old(pathOf[m]) == x.q {
          BelowSelf(x.q);
          BelowBoth(old(pathOf[x.n]), x.q);
        }
      }
    }

    static lemma BelowBoth(p: Path, q: Path)
      requires Below(p, q) && Below(q, p)
      ensures p == q
    {
      if p != q {
        BelowIsLower(p, q.dir);
        BelowIsLower(q, p);
      }
    }

    static lemma BelowSelf(p: Path)
      ensures Below(p, p)
    {
    }

    twostate lemma OldRoot()
      requires old(Valid())
      ensures old(root.parent) == null && old(pathOf[root]) == Root
    {
      assert old(ValidNode(root));
    }

    twostate lemma RenamedNodes(x: Move)
      requires Renamed(x) && old(x.n.children) == []
      ensures forall m <- nodes :: ValidNode(m)
    {
      hide NoRepeats, MovedIn, Below, Renamed;
      RenamedSelf(x);
      RenamedUpwards(x);
      RenamedDownwards(x);
      RenamedPlaces(x);
    }

    twostate lemma RenamedValid(x: Move)
      requires Renamed(x) && old(CanMove(pathOf[x.n], x.q))
      ensures Valid()
    {
      hide NoRepeats, MovedIn, ValidNode;
      if old(x.n.children) != [] {
        OldChildAt(x.n);
        ghost var c := old(x.n.children[0]);
        assert c in old(x.n.children) && Below(old(pathOf[x.n]), old(pathOf[c]));
      }
      RenamedNodes(x);
      RenamedPlaces(x);
      OldNode(x.n);
      forall y | y in pathToNode ensures pathToNode[y] in nodes && pathOf[pathToNode[y]] == y {
        assert y == x.q || (y in old(pathToNode) && y != old(pathOf[x.n]));
      }
    }

    static lemma BelowRoot(q: Path)
      ensures q.Sub? ==> !Below(q, Root)
    {
    }

    twostate lemma RenamedBroken(x: Move)
      requires Renamed(x) && !old(CanMove(pathOf[x.n], x.q))
      ensures !Valid()
    {
      hide NoRepeats, MovedIn, ValidNode;
      ghost var p := old(pathOf[x.n]);
      OldNode(x.n);
      if old(x.n.children) != [] {
        ghost var c := old(x.n.children[0]);
        OldChildAt(x.n);
        OldParentOf(x.n);
        assert c in old(x.n.children) && x.n.children == old(x.n.children);
        if Valid() {
          ChildAt(x.n, c);
        }
      } else {
        ghost var y :| y in old(pathToNode) && ((Below(p, y) && y != p) || (Below(x.q, y) && y != x.q && y != p));
        ghost var m := old(pathToNode[y]);
        OldDescendant(m);
        assert y in pathToNode && pathToNode[y] == m && m in Freed(x);
      }
    }

    /** Only the overridden node goes from a listing whose own node stays. */
    twostate lemma RenamedChildren(x: Move)
      requires Renamed(x)
      ensures forall m <- nodes, c <- old(m.children) :: c in nodes || (c == x.over && m == x.t)
      ensures forall m <- nodes, c <- old(m.children) :: c == x.n ==> m == old(x.n.parent)
      ensures x.over != null ==>
                old(x.over.parent) == x.t && old(x.over.name) == x.q.name && x.over in old(x.t.children)
    {
      hide NoRepeats, MovedIn, ValidNode;
      OldRoot();
      if x.over != null {
        OldParentOf(x.over);
        OldNode(old(x.over.parent));
        OldNode(x.t);
      }
      forall m, c | m in nodes && c in old(m.children)
        ensures (c in nodes || (c == x.over && m == x.t)) && (c == x.n ==> m == old(x.n.parent))
      {
        OldChildAt(m);
        if c !in nodes {
          OldNode(c);
          OldNode(x.over);
        }
      }
    }

    /** The entry of the new parent. */
    twostate lemma RenamedTarget(x: Move)
      requires Renamed(x) && old(ListedExactly()) && x.t in nodes
      requires x.t != old(x.n.parent) ==> x.i == InsertIndex(lt, old(Names(x.t.children)), x.q.name)
      ensures old(pathOf[x.n]).Sub? && x.q.dir in old(View())
      ensures EntryAt(x.t) == old(View())[x.q.dir].(children :=
                                DciStore.Relisted(lt, old(View()), old(pathOf[x.n]), x.q, x.q.dir))
    {
      hide NoRepeats, MovedIn, ValidNode, Placed, Replaced, Without;
      OldNode(x.t);
      OldNode(x.n);
      OldParentOf(x.n);
      OldNoRepeats(x.t);
      OldChildAt(x.t);
      ghost var list, names := old(x.t.children), old(Names(x.t.children));
      assert old(ListsExactly(View(), x.q.dir));
      RenamedChildren(x);
      if x.t == old(x.n.parent) {
        RenamedInNames(list, names, x.i, x.n, x.over, old(x.n.name));
      } else {
        MovedInNames(lt, list, names, x.i, x.n, x.over);
      }
    }

    /** The entry of the old parent, if it is another one. */
    twostate lemma RenamedSource(x: Move)
      requires Renamed(x) && old(x.n.parent) in nodes && old(x.n.parent) != x.t
      requires old(ListedExactly())
      ensures old(x.n.parent) in old(nodes) && old(pathOf[x.n.parent]) in old(View())
      ensures EntryAt(old(x.n.parent)) == old(View()[pathOf[x.n.parent]]).(children :=
                                            Without(old(View()[pathOf[x.n.parent]]).children, old(x.n.name)))
    {
      hide NoRepeats, MovedIn, ValidNode, Without, RemoveOne;
      OldParentOf(x.n);
      ghost var u := old(x.n.parent);
      OldNode(u);
      OldNode(x.n);
      OldChildAt(u);
      OldNoRepeats(u);
      RenamedChildren(x);
      ghost var list, names := old(u.children), old(Names(u.children));
      assert old(ListsExactly(View(), pathOf[u]));
      ghost var k := FirstAt(list, x.n);
      RemoveOneAt(list, x.n, k);
      WithoutAt(names, old(x.n.name), k);
      NamesWithoutOne(list, names, k);
    }

    /** Every other entry. */
    twostate lemma RenamedOthers(x: Move)
      requires Renamed(x)
      ensures forall m <- nodes :: m != x.t && m != old(x.n.parent) ==> EntryAt(m) == old(EntryAt(m))
    {
      hide NoRepeats, MovedIn, ValidNode;
      RenamedChildren(x);
      forall m | m in nodes && m != x.t && m != old(x.n.parent)
        ensures EntryAt(m) == old(EntryAt(m))
      {
        OldChildAt(m);
        EntryKept(m);
      }
    }

    twostate lemma RenamedView(x: Move)
      requires Renamed(x) && Valid() && old(ListedExactly())
      requires x.t != old(x.n.parent) ==> x.i == InsertIndex(lt, old(Names(x.t.children)), x.q.name)
      ensures old(pathOf[x.n]).Sub? && old(pathOf[x.n]) in old(View())
      ensures View() == DciStore.Rename(lt, old(View()), old(pathOf[x.n]), x.q)
    {
      hide NoRepeats, MovedIn, ValidNode, Placed, Replaced, Without, ListsExactly, EntryAt;
      OldParentOf(x.n);
      OldNode(x.n);
      OldNode(x.t);
      ghost var p, u := old(pathOf[x.n]), old(x.n.parent);
      OldNode(u);
      ghost var s := DciStore.Rename(lt, old(View()), p, x.q);
      assert s.Keys == pathToNode.Keys;
      hide DciStore.Rename;
      RenamedPlaces(x);
      RenamedOthers(x);
      forall y | y in pathToNode ensures y in s && EntryAt(pathToNode[y]) == s[y] {
        ghost var m := pathToNode[y];
        RenameAt(lt, old(View()), p, x.q, y);
        if m == x.t {
          RenamedTarget(x);
        } else if m == u {
          RenamedSource(x);
        } else if m != x.n {
          OldNode(m);
        }
      }
      ViewIs(s);
    }

    /** How the names in the list follow. */
    static lemma MovedInNames(lt: Order, list: seq<Node>, names: seq<Name>, i: nat, n: Node, over: Node?)
      requires |list| == |names| && forall j :: 0 <= j < |list| && list[j] != over ==> list[j].name == names[j]
      requires NoRepeats(list) && Distinct(names) && n !in list && i == InsertIndex(lt, names, n.name)
      requires if over == null then n.name !in names else over in list
      requires forall j :: 0 <= j < |list| && list[j] == over ==> names[j] == n.name
      ensures Names(MovedIn(list, i, n, over)) == Placed(lt, names, n.name)
    {
      hide InsertIndex, RemoveOne, Without, NoRepeats;
      if over == null {
        WithoutAbsent(names[..i], n.name);
        WithoutAbsent(names[i..], n.name);
        NamesWithOneMore(list, names, n, i);
      } else {
        var k := FirstAt(list, over);
        OthersDiffer(names, k);
        NamesOneLess(lt, names, k);
        OneLess(list, i, n, over, k);
        NamesOfOneLess(list, names, i, n, k);
      }
    }

    static lemma NamesOfOneLess(list: seq<Node>, names: seq<Name>, i: nat, n: Node, k: nat)
      requires i <= |list| == |names| && k < |list|
      requires forall j :: 0 <= j < |list| && j != k ==> list[j].name == names[j]
      ensures Names(if k < i then list[..k] + list[k + 1..i] + ([n] + list[i..])
                    else list[..i] + [n] + (list[i..k] + list[k + 1..]))
           == if k < i then names[..k] + names[k + 1..i] + [n.name] + names[i..]
              else names[..i] + [n.name] + (names[i..k] + names[k + 1..])
    {
      if k < i {
        assert Names(list[..k] + list[k + 1..i] + ([n] + list[i..]))
            == names[..k] + names[k + 1..i] + [n.name] + names[i..];
      } else {
        assert Names(list[..i] + [n] + (list[i..k] + list[k + 1..]))
            == names[..i] + [n.name] + (names[i..k] + names[k + 1..]);
      }
    }

    static lemma OthersDiffer(names: seq<Name>, k: nat)
      requires Distinct(names) && k < |names|
      ensures forall j :: 0 <= j < |names| && j != k ==> names[j] != names[k]
    {
    }

    static lemma OneLess(list: seq<Node>, i: nat, n: Node, over: Node, k: nat)
      requires i <= |list| && k < |list| && list[k] == over && n != over && forall j :: 0 <= j < k ==> list[j] != over
      ensures RemoveOne(list[..i] + [n] + list[i..], over)
           == if k < i then list[..k] + list[k + 1..i] + ([n] + list[i..])
              else list[..i] + [n] + (list[i..k] + list[k + 1..])
    {
      hide RemoveOne;
      var front, back := list[..i], list[i..];
      if k < i {
        Regrouped(front, [n], back);
        assert front[k] == over;
        RemoveOneAt(front, over, k);
        RemoveOneInFront(front, [n] + back, over);
        assert front[..k] == list[..k] && front[k + 1..] == list[k + 1..i];
      } else {
        assert forall j :: 0 <= j < i ==> front[j] != over;
        assert forall j :: 0 <= j < |back| ==> back[j] == list[i + j];
        RemoveOneAt(back, over, k - i);
        RemoveOneInBack(front + [n], back, over);
        assert back[..k - i] == list[i..k] && back[k - i + 1..] == list[k + 1..];
      }
    }

    static lemma WithoutInFront(names: seq<Name>, i: nat, k: nat)
      requires k < i <= |names| && forall j :: 0 <= j < |names| && j != k ==> names[j] != names[k]
      ensures Without(names[..i], names[k]) == names[..k] + names[k + 1..i]
      ensures Without(names[i..], names[k]) == names[i..]
    {
      var front, back := names[..i], names[i..];
      assert forall j :: 0 <= j < k ==> front[j] != names[k];
      assert forall j :: 0 <= j < |back| ==> back[j] == names[i + j];
      hide Without;
      WithoutAt(front, names[k], k);
      WithoutAbsent(back, names[k]);
      assert front[..k] == names[..k] && front[k + 1..] == names[k + 1..i];
    }

    static lemma WithoutInBack(names: seq<Name>, i: nat, k: nat)
      requires i <= k < |names| && forall j :: 0 <= j < |names| && j != k ==> names[j] != names[k]
      ensures Without(names[..i], names[k]) == names[..i]
      ensures Without(names[i..], names[k]) == names[i..k] + names[k + 1..]
    {
      var front, back := names[..i], names[i..];
      assert forall j :: 0 <= j < i ==> front[j] != names[k];
      assert forall j :: 0 <= j < |back| ==> back[j] == names[i + j];
      hide Without;
      WithoutAbsent(front, names[k]);
      WithoutAt(back, names[k], k - i);
      assert back[..k - i] == names[i..k] && back[k - i + 1..] == names[k + 1..];
    }

    static lemma NamesOneLess(lt: Order, names: seq<Name>, k: nat)
      requires k < |names| && forall j :: 0 <= j < |names| && j != k ==> names[j] != names[k]
      ensures var i := InsertIndex(lt, names, names[k]);
              Placed(lt, names, names[k])
              == if k < i then names[..k] + names[k + 1..i] + [names[k]] + names[i..]
                 else names[..i] + [names[k]] + (names[i..k] + names[k + 1..])
    {
      hide InsertIndex, Without;
      var i := InsertIndex(lt, names, names[k]);
      if k < i {
        WithoutInFront(names, i, k);
      } else {
        WithoutInBack(names, i, k);
      }
    }

    static lemma RenamedInNames(list: seq<Node>, names: seq<Name>, i: nat, n: Node, over: Node?, before: Name)
      requires i <= |list| == |names| && NoRepeats(list) && Distinct(names) && n in list && over != n
      requires forall j :: 0 <= j < |list| && list[j] != over ==>
                 if list[j] == n then names[j] == before else list[j].name == names[j]
      requires n.name != before
      requires if over == null then n.name !in names else over in list
      requires forall j :: 0 <= j < |list| && list[j] == over ==> names[j] == n.name
      ensures Names(MovedIn(list, i, n, over)) == Replaced(Without(names, n.name), before, n.name)
    {
      hide RemoveOne, Without, Replaced;
      var h := FirstAt(list, n);
      WithoutMembers(names, n.name);
      if over == null {
        WithoutAbsent(names, n.name);
        ReplacedAt(names, before, n.name, h);
      } else {
        var k := FirstAt(list, over);
        RemoveOneAt(list, over, k);
        WithoutAt(names, n.name, k);
        var rest := names[..k] + names[k + 1..];
        ReplacedAt(rest, before, n.name, if h < k then h else h - 1);
      }
    }

    /** Every listing holds the names below it, each once. */
    ghost predicate ListedExactly()
      requires Valid()
      reads this, nodes
    {
      forall p <- View() :: ListsExactly(View(), p)
    }

    lemma ValidIsListed()
      requires Valid()
      ensures ListedExactly()
    {
      hide ValidNode;
      forall p | p in View()
        ensures ListsExactly(View(), p)
      {
        EntryValid(p);
        forall c | Sub(p, c) in View()
          ensures c in View()[p].children
        {
          EntryValid(Sub(p, c));
        }
      }
    }

    /** What the links say about the nodes a successful rename touches. */
    lemma RenameFrame(p: Path, q: Path)
      requires Valid() && p.Sub? && p in pathToNode && p != q && q.Sub? && q.dir in pathToNode && q.dir != p
      ensures var n, t := pathToNode[p], pathToNode[q.dir];
              && n in nodes && t in nodes && n != root && n != t && pathOf[n] == p && pathOf[t] == q.dir
              && n.parent != null && n.parent in nodes && n != n.parent
              && (n.parent == t <==> n in t.children)
              && (q in pathToNode ==> pathToNode[q] != n && pathToNode[q].parent == t && pathToNode[q] != t)
      ensures !Below(q, q.dir)
    {
      var n, t := pathToNode[p], pathToNode[q.dir];
      assert ValidNode(n) && ValidNode(t);
      RootPlace();
      if n in t.children {
        ChildAt(t, n);
      }
      if q in pathToNode {
        assert ValidNode(pathToNode[q]);
        NodeAt(pathToNode[q].parent);
      }
      if Below(q, q.dir) {
        BelowIsLower(q, q.dir);
      }
    }

    /** What `rename` asks for; nobody looks at the type of the new parent, or at the length of the name alone. */
    ghost predicate Renames(p: Path, q: Path, override: bool)
      reads this
    {
      && p != q && |Text(q)| < META_SIZE && (override || q !in pathToNode)
      && p in pathToNode && q.Sub? && q.dir in pathToNode && q.dir != p
    }

    ghost function TheMove(p: Path, q: Path, i: nat): Move
      requires p in pathToNode && q.Sub? && q.dir in pathToNode
      reads this
    {
      Move(pathToNode[p], pathToNode[q.dir], q, if q in pathToNode then pathToNode[q] else null, i)
    }

    /** A failure that takes nothing out of the hash. */
    ghost predicate FailsEarly(p: Path, q: Path, override: bool)
      reads this
    {
      || p == q || |Text(q)| >= META_SIZE || (!override && q in pathToNode)
      || (p !in pathToNode && !(override && q in pathToNode))
    }

    /**
     * The hash loses the entries taken before a failure; after a success it keeps step with the tree exactly if
     * nothing lay below the renamed node and nothing else below the overridden one.
     */
    method Rename(p: Path, q: Path, override: bool) returns (ok: bool)
      requires Valid() && (p.Root? ==> !Renames(p, q, override))
      modifies this, nodes
      ensures fresh(nodes - old(nodes))
      ensures ok == old(Renames(p, q, override))
      ensures !ok ==> root == old(root) && nodes == old(nodes) && forall m <- nodes :: unchanged(m)
      ensures !ok ==> pathToNode == if old(FailsEarly(p, q, override)) then old(pathToNode)
                                    else old(pathToNode) - {p} - (if override then {q} else {})
      ensures !ok ==> (Valid() <==> old(FailsEarly(p, q, override)))
      ensures ok ==> p.Sub? && exists i :: Renamed(old(TheMove(p, q, i)))
      ensures ok ==> (Valid() <==> old(CanMove(p, q)))
      ensures ok && Valid() ==> View() == DciStore.Rename(lt, old(View()), p, q)
      ensures ok && Valid() && old(AllTyped(View())) ==>
                (AllTyped(View()) <==> old(pathToNode[q.dir].kind) == DIRECTORY)
      ensures ok && Valid() && old(NamesFit(View())) ==> (NamesFit(View()) <==> ValidName(q.name))
    {
      hide ValidNode, NoRepeats, DciStore.Rename, DciStore.Valid, View, CanMove, MovedIn, RemoveOne, Below,
           ListedExactly, InsertIndex, Names, AllTyped, NamesFit;
      ValidIsListed();
      ViewValid();
      var n: Node?, t: Node?, over: Node?;
      ok, n, t, over := TakeOut(p, q, override);
      if !ok {
        return;
      }
      ghost var i := Relink(n, t, q, over);
      ghost var move := old(TheMove(p, q, i));
      assert Renamed(move);
      RenamedIff(move);
    }

    /** The checks of `rename`: the hash loses the overridden node and the one to be renamed on the way. */
    method TakeOut(p: Path, q: Path, override: bool) returns (ok: bool, n: Node?, t: Node?, over: Node?)
      requires Valid() && (p.Root? ==> !Renames(p, q, override))
      modifies this`pathToNode
      ensures ok == old(Renames(p, q, override))
      ensures !ok ==> pathToNode == if old(FailsEarly(p, q, override)) then old(pathToNode)
                                    else old(pathToNode) - {p} - (if override then {q} else {})
      ensures !ok ==> (Valid() <==> old(FailsEarly(p, q, override)))
      ensures ok ==>
        && p.Sub? && n == old(pathToNode)[p] && t == old(pathToNode)[q.dir] && n in nodes && t in nodes && n != root
        && n != t && pathOf[n] == p && pathOf[t] == q.dir
        && n.parent != null && n.parent in nodes && n != n.parent && (n.parent == t <==> n in t.children)
        && (if q in old(pathToNode) then over == old(pathToNode)[q] && over.parent == t && over != t && over != n
            else over == null)
        && (over != null ==> over in nodes && pathOf[over] == q)
        && pathToNode == old(pathToNode) - {p} - {q} && !Below(q, q.dir)
    {
      hide ValidNode, NoRepeats, Below;
      n, t, over := null, null, null;
      if p == q {
        return false, n, t, over;
      }
      if |Text(q)| >= META_SIZE {
        return false, n, t, over;
      }
      if !override && q in pathToNode {
        return false, n, t, over;
      }
      RootPlace();
      if p.Sub? && p in pathToNode && q.Sub? && q.dir in pathToNode && q.dir != p {
        RenameFrame(p, q);
      }
      if override && q in pathToNode {
        over := pathToNode[q];
        pathToNode := pathToNode - {q};
      }
      if p !in pathToNode {
        if over != null {
          NotIndexed(over);
        }
        return false, n, t, over;
      }
      n := pathToNode[p];
      pathToNode := pathToNode - {p};
      if DirOf(q) !in pathToNode {
        NotIndexed(n);
        return false, n, t, over;
      }
      t := pathToNode[DirOf(q)];
      ok := true;
    }

    /** The node gets its new name and, if it has to, moves from one list to the other. */
    method Relocate(n: Node, t: Node, name: Name) returns (ghost i: nat)
      requires n != t && n.parent != null && n != n.parent
      requires n.parent == t <==> n in t.children
      modifies n`name, n`parent, n.parent`children, t`children
      ensures i <= |old(t.children)| && n.name == name && n.parent == t
      ensures t != old(n.parent) ==> i == InsertIndex(lt, old(Names(t.children)), name)
      ensures t.children == MovedIn(old(t.children), i, n, null)
      ensures old(n.parent) != t ==> old(n.parent).children == RemoveOne(old(n.parent.children), n)
      ensures n.children == old(n.children)
    {
      n.name := name;
      var index := GetOrderedIndexOfNodeName(t.children, n.name);
      assert n !in t.children ==> Names(t.children) == old(Names(t.children));
      i := index;
      if n.parent != t {
        n.parent.children := RemoveOne(n.parent.children, n);
        t.children := t.children[..index] + [n] + t.children[index..];
        n.parent := t;
      }
    }

    lemma NotIndexed(m: Node)
      requires m in nodes && (m in pathOf ==> pathOf[m] !in pathToNode)
      ensures !Valid()
    {
      assert !ValidNode(m);
    }

    /** The rest of `rename`: the node gets its new name and place, the overridden node is taken out and freed. */
    method Relink(n: Node, t: Node, q: Path, over: Node?) returns (ghost i: nat)
      requires n != t && n.parent != null && n != n.parent && n in pathOf && over != n && over != t
      requires over != null ==> over in pathOf && over.parent == t
      requires n.parent == t <==> n in t.children
      requires q.Sub?
      modifies this, n, n.parent, t
      ensures i <= |old(t.children)| && n.name == q.name && n.parent == t
      ensures t != old(n.parent) ==> i == InsertIndex(lt, old(Names(t.children)), q.name)
      ensures n.kind == old(n.kind) && n.data == old(n.data) && n.children == old(n.children)
      ensures t.children == MovedIn(old(t.children), i, n, over)
      ensures old(n.parent) != t ==> old(n.parent).children == RemoveOne(old(n.parent.children), n)
      ensures forall m <- {t, old(n.parent)} :: m.kind == old(m.kind) && m.data == old(m.data) && m.name == old(m.name)
                                               && m.parent == old(m.parent)
      ensures root == old(root) && pathToNode == old(pathToNode)[q := n]
      ensures nodes == old(nodes) - Freed(Move(n, t, q, over, i)) && n !in Freed(Move(n, t, q, over, i))
      ensures pathOf == (map m | m in old(pathOf) && m in nodes :: if m == n then q else old(pathOf[m]))
    {
      i := Relocate(n, t, q.name);
      pathToNode := pathToNode[q := n];
      if over != null {
        over.parent.children := RemoveOne(over.parent.children, over);
      }
      nodes := nodes - Freed(Move(n, t, q, over, i));
      pathOf := map m | m in pathOf && m in nodes :: if m == n then q else pathOf[m];
    }

    /** What a renaming that succeeds does to the index, and to an archive that could be saved before. */
    twostate lemma RenamedIff(x: Move)
      requires Renamed(x) && old(ListedExactly()) && old(DciStore.Valid(View()))
      requires x.t != old(x.n.parent) ==> x.i == InsertIndex(lt, old(Names(x.t.children)), x.q.name)
      ensures Valid() <==> old(CanMove(pathOf[x.n], x.q))
      ensures old(pathOf[x.n]).Sub? && old(pathOf[x.n]) in old(View())
      ensures Valid() ==> View() == DciStore.Rename(lt, old(View()), old(pathOf[x.n]), x.q)
      ensures Valid() && old(AllTyped(View())) ==> (AllTyped(View()) <==> old(x.t.kind) == DIRECTORY)
      ensures Valid() && old(NamesFit(View())) ==> (NamesFit(View()) <==> ValidName(x.q.name))
    {
      hide NoRepeats, MovedIn, ValidNode, DciStore.Rename, DciStore.Valid, AllTyped, NamesFit;
      OldParentOf(x.n);
      OldNode(x.n);
      OldNode(x.t);
      if old(CanMove(pathOf[x.n], x.q)) {
        RenamedValid(x);
        RenamedView(x);
        if old(AllTyped(View())) {
          RenameTypedIff(lt, old(View()), old(pathOf[x.n]), x.q);
        }
        if old(NamesFit(View())) {
          RenameFitsIff(lt, old(View()), old(pathOf[x.n]), x.q);
        }
      } else {
        RenamedBroken(x);
      }
    }
  }

  // ---- Calls that leave the index out of step ----

  const A: Path := Sub(Root, [97])
  const B: Path := Sub(A, [98])
  const C: Path := Sub(B, [99])
  const D: Path := Sub(Root, [100])

  /** After `mkdir` of a path and the paths above it. */
  lemma AttachedDirectory(lt: Order, s: Store, p: Path)
    requires CanMake(s, p)
    ensures var t := Attach(lt, s, p, Entry(DIRECTORY, [], []));
            && t.Keys == s.Keys + {p} && t[p] == Entry(DIRECTORY, [], []) && p.dir in t && p.name in t[p.dir].children
            && (s[p.dir].children == [] ==> t[p.dir].children == [p.name])
            && forall q <- s :: t[q].kind == s[q].kind && (q != p.dir ==> t[q] == s[q])
  {
    InsertMembers(lt, s[p.dir].children, p.name);
  }

  /** An archive with `/a`. */
  method OneDirectory(lt: Order) returns (archive: Archive)
    ensures fresh(archive) && fresh(archive.nodes) && archive.lt == lt && archive.Valid()
    ensures archive.View().Keys == {Root, A} && archive.View()[Root].children == [A.name]
    ensures archive.View()[A] == Entry(DIRECTORY, [], [])
  {
    hide Archive.Valid, Archive.View, Attach;
    archive := new Archive(lt);
    var ok := archive.Mkdir(A);
    AttachedDirectory(lt, EMPTY, A);
  }

  /** An archive with `/a` and `/a/b`. */
  method TwoDirectories(lt: Order) returns (archive: Archive)
    ensures fresh(archive) && fresh(archive.nodes) && archive.lt == lt && archive.Valid()
    ensures archive.View().Keys == {Root, A, B} && archive.View()[B] == Entry(DIRECTORY, [], [])
    ensures archive.View()[A].children == [B.name]
  {
    hide Archive.Valid, Archive.View, Attach;
    archive := OneDirectory(lt);
    ghost var s := archive.View();
    var ok := archive.Mkdir(B);
    AttachedDirectory(lt, s, B);
  }

  /** Removing `/a` from an archive with `/a/b/c`: that path still leads to its node, which is freed. */
  method GrandchildStaysIndexed(lt: Order) returns (archive: Archive)
    ensures C in archive.pathToNode && archive.pathToNode[C] !in archive.nodes
  {
    hide Archive.Valid, Archive.View, Attach, DciStore.Remove, Archive.Dropped, Archive.Removed;
    archive := TwoDirectories(lt);
    ghost var s := archive.View();
    var ok := archive.Mkdir(C);
    AttachedDirectory(lt, s, C);
    archive.ViewAt();
    ghost var n := archive.pathToNode[A];
    archive.IndexedNode(A);
    archive.IndexedNode(C);
    label Before:
    ok := archive.Remove(A);
    archive.DeeperStays@Before(Removal(n, C));
  }

  /** Renaming `/a` to `/d` in an archive with `/a/b`: that path is still indexed, but its node lies in `/d` now. */
  method ChildKeepsItsOldPath(lt: Order) returns (archive: Archive)
    ensures B in archive.pathToNode && D in archive.pathToNode && archive.pathToNode[B].parent == archive.pathToNode[D]
  {
    hide Archive.Valid, Archive.View, Attach, DciStore.Rename;
    archive := TwoDirectories(lt);
    archive.ViewAt();
    archive.IndexedNode(A);
    archive.IndexedNode(B);
    var ok := archive.Rename(A, D, false);
  }

  /** Renaming `/a` to `/d/a`, below a directory that does not exist, fails and takes `/a` out of the hash. */
  method FailureForgetsThePath(lt: Order) returns (archive: Archive, ok: bool)
    ensures !ok && A !in archive.pathToNode && Names(archive.root.children) == [A.name]
  {
    hide Archive.Valid, Archive.View, Attach, DciStore.Rename, Archive.Renamed, Archive.CanMove, AllTyped, NamesFit;
    archive := OneDirectory(lt);
    archive.ViewAt();
    archive.RootEntry();
    hide Names, Archive.EntryAt;
    ghost var list := archive.root.children;
    assert |list| == 1 && list[0].name == A.name;
    ok := archive.Rename(A, Sub(D, A.name), false);
  }
}
