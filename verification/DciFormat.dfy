/** The DCI archive image: its plain recursive encoding, its reader, and the laws joining them. */
module DciFormat {
  import opened Basics
  import opened Bytes

  const MAGIC: seq<Byte> := [68, 67, 73, 0]  // "DCI" and a NUL
  const VERSION: Byte := 1
  const HEADER_SIZE: nat := 8
  const META_SIZE: nat := 72
  const NAME_SIZE: nat := 63
  const SIZE_WIDTH: nat := 8

  const SIZE_LIMIT: nat := 0x8000_0000_0000_0000   // one past the largest 64-bit signed size
  const COUNT_LIMIT: nat := 0x100_0000             // one past the largest 3-byte count

  const FILE: Byte := 1
  const DIRECTORY: Byte := 2
  const SYMLINK: Byte := 3

  /** One node and everything below it. */
  datatype Tree = Tree(kind: Byte, name: seq<Byte>, data: seq<Byte>, children: seq<Tree>)

  /** The fixed-size part of a node in the image. */
  datatype Header = Header(kind: Byte, name: seq<Byte>, size: int)

  datatype LoadError = BadMagic | BadVersion | BadName | BadType | BadCount | Truncated
  datatype Result<T> = Ok(value: T) | Err(error: LoadError)

  // ---- The plain encoding ----

  function Field(name: seq<Byte>): (f: seq<Byte>)
    ensures |f| == NAME_SIZE
  {
    var n := if |name| < NAME_SIZE then name else name[..NAME_SIZE - 1];
    n + Zeros(NAME_SIZE - |n|)
  }

  function Meta(kind: Byte, name: seq<Byte>, size: nat): (m: seq<Byte>)
    ensures |m| == META_SIZE
  {
    [kind] + Field(name) + LittleEndian(size, SIZE_WIDTH)
  }

  function Payload(t: Tree): seq<Byte>
    decreases t, 1
  {
    if t.kind == FILE || t.kind == SYMLINK then t.data
    else if t.kind == DIRECTORY then EncodeAll(t.children)
    else []
  }

  function Encode(t: Tree): seq<Byte>
    decreases t, 2
  {
    Meta(t.kind, t.name, |Payload(t)|) + Payload(t)
  }

  function EncodeAll(ts: seq<Tree>): seq<Byte>
    decreases ts, 0
  {
    if ts == [] then [] else Encode(ts[0]) + EncodeAll(ts[1..])
  }

  /** The whole image; the root node itself gets no meta data. */
  function Image(root: Tree): (image: seq<Byte>) {
    MAGIC + [VERSION] + LittleEndian(|root.children|, 3) + Payload(root)
  }

  lemma {:induction false} EncodeAllConcat(a: seq<Tree>, b: seq<Tree>)
    ensures EncodeAll(a + b) == EncodeAll(a) + EncodeAll(b)
  {
    if a == [] {
      assert a + b == b;
    } else {
      assert (a + b)[0] == a[0] && (a + b)[1..] == a[1..] + b;
      EncodeAllConcat(a[1..], b);
    }
  }

  lemma EncodeAllSnoc(ts: seq<Tree>, t: Tree)
    ensures EncodeAll(ts + [t]) == EncodeAll(ts) + Encode(t)
  {
    EncodeAllConcat(ts, [t]);
    assert EncodeAll([t]) == Encode(t) + EncodeAll([]);
  }

  lemma EncodeNext(ts: seq<Tree>, i: nat)
    requires i < |ts|
    ensures EncodeAll(ts[..i + 1]) == EncodeAll(ts[..i]) + Encode(ts[i])
  {
    EncodeAllSnoc(ts[..i], ts[i]);
    assert ts[..i + 1] == ts[..i] + [ts[i]];
  }

  // ---- Which trees the format can hold ----

  predicate ValidName(name: seq<Byte>) {
    1 <= |name| < NAME_SIZE && 0 !in name
  }

  predicate Savable(t: Tree)
    decreases t, 0
  {
    && ValidName(t.name)
    && t.kind in {FILE, DIRECTORY, SYMLINK}
    && (if t.kind == DIRECTORY then t.data == [] && AllSavable(t.children) else t.children == [])
  }

  predicate AllSavable(ts: seq<Tree>)
    decreases ts, 1
  {
    forall i :: 0 <= i < |ts| ==> Savable(ts[i])
  }

  predicate SavableRoot(root: Tree) {
    && root.kind == DIRECTORY && root.name == [] && root.data == []
    && |root.children| < COUNT_LIMIT
    && AllSavable(root.children)
  }

  // ---- The reader ----

  function IndexOfNul(data: seq<Byte>, from: nat): (i: int)
    requires from <= |data|
    ensures i == -1 || (from <= i < |data| && data[i] == 0)
    ensures forall j :: from <= j < (if i == -1 then |data| else i) ==> data[j] != 0
    decreases |data| - from
  {
    if from == |data| then -1 else if data[from] == 0 then from else IndexOfNul(data, from + 1)
  }

  function Signed64(b: seq<Byte>): int {
    var n := FromLittleEndian(b);
    if n < SIZE_LIMIT then n else n - 2 * SIZE_LIMIT
  }

  /** The meta data at `offset`: the type, the name up to its NUL, and the size. */
  function ParseMeta(data: seq<Byte>, offset: nat): (r: Result<Header>)
    requires offset <= |data|
    ensures r.Ok? ==> offset + META_SIZE <= |data| && ValidName(r.value.name)
  {
    if offset == |data| then Err(Truncated)
    else
      var nul := IndexOfNul(data, offset + 1);
      var nameLength := nul - (offset + 1);
      if nameLength <= 0 || nameLength >= NAME_SIZE then Err(BadName)
      else if offset + META_SIZE > |data| then Err(Truncated)
      else
        var name := data[offset + 1..nul];
        assert forall j :: 0 <= j < |name| ==> name[j] == data[offset + 1 + j];
        Ok(Header(data[offset], name, Signed64(data[offset + 1 + NAME_SIZE..offset + META_SIZE])))
  }

  /** One node at `offset` and the offset behind it. */
  function ParseEntry(data: seq<Byte>, offset: nat): (r: Result<(Tree, nat)>)
    requires offset <= |data|
    ensures r.Ok? ==> offset + META_SIZE <= r.value.1 <= |data|
    decreases |data| - offset, 0
  {
    match ParseMeta(data, offset)
    case Err(e) => Err(e)
    case Ok(h) =>
      var body := offset + META_SIZE;
      if h.kind == DIRECTORY then
        match ParseEntries(data, body, body + h.size - 1)
        case Ok(sub) => Ok((Tree(h.kind, h.name, [], sub.0), sub.1))
        case Err(e) => Err(e)
      else if h.kind == FILE || h.kind == SYMLINK then
        if h.size < 0 || body + h.size > |data| then Err(Truncated)
        else Ok((Tree(h.kind, h.name, data[body..body + h.size], []), body + h.size))
      else Err(BadType)
  }

  /** Nodes from `offset` on, until the offset has reached `end`. */
  function ParseEntries(data: seq<Byte>, offset: nat, end: int): (r: Result<(seq<Tree>, nat)>)
    requires offset <= |data|
    ensures r.Ok? ==> offset <= r.value.1 <= |data|
    decreases |data| - offset, 1
  {
    if offset >= end then Ok(([], offset))
    else
      match ParseEntry(data, offset)
      case Err(e) => Err(e)
      case Ok(first) =>
        match ParseEntries(data, first.1, end)
        case Err(e) => Err(e)
        case Ok(rest) => Ok(([first.0] + rest.0, rest.1))
  }

  function Parse(data: seq<Byte>): Result<Tree> {
    if !(MAGIC[..3] <= data) then Err(BadMagic)
    else if |data| < HEADER_SIZE then Err(Truncated)
    else if data[4] != VERSION then Err(BadVersion)
    else
      match ParseEntries(data, HEADER_SIZE, |data| - 1)
      case Err(e) => Err(e)
      case Ok(top) =>
        if FromLittleEndian(data[5..8]) != |top.0| then Err(BadCount)
        else Ok(Tree(DIRECTORY, [], [], top.0))
  }

  function Prepend(ts: seq<Tree>, r: Result<(seq<Tree>, nat)>): Result<(seq<Tree>, nat)> {
    if r.Ok? then Ok((ts + r.value.0, r.value.1)) else r
  }

  lemma PrependNothing(r: Result<(seq<Tree>, nat)>)
    ensures Prepend([], r) == r
  {
    if r.Ok? {
      assert [] + r.value.0 == r.value.0;
    }
  }

  lemma PrependTwice(ts: seq<Tree>, t: Tree, r: Result<(seq<Tree>, nat)>)
    ensures Prepend(ts, Prepend([t], r)) == Prepend(ts + [t], r)
  {
    if r.Ok? {
      assert ts + ([t] + r.value.0) == ts + [t] + r.value.0;
    }
  }

  lemma ParseStep(data: seq<Byte>, offset: nat, end: int)
    requires offset <= |data| && offset < end
    requires ParseEntry(data, offset).Ok?
    ensures var (t, next) := ParseEntry(data, offset).value;
            ParseEntries(data, offset, end) == Prepend([t], ParseEntries(data, next, end))
  {
  }

  // ---- Reading back what was written ----

  lemma FieldHoldsName(data: seq<Byte>, at: nat, name: seq<Byte>)
    requires ValidName(name)
    requires at + NAME_SIZE <= |data| && data[at..at + NAME_SIZE] == Field(name)
    ensures IndexOfNul(data, at) == at + |name|
    ensures data[at..at + |name|] == name
  {
    var f := Field(name);
    forall j | at <= j < at + NAME_SIZE ensures data[j] == f[j - at] {
      assert data[j] == data[at..at + NAME_SIZE][j - at];
    }
    assert data[at + |name|] == 0;
    forall j | at <= j < at + |name| ensures data[j] != 0 {
      assert data[j] == name[j - at];
    }
    assert data[at..at + |name|] == name;
  }

  lemma MetaParts(data: seq<Byte>, at: nat, kind: Byte, name: seq<Byte>, size: nat)
    requires at + META_SIZE <= |data| && data[at..at + META_SIZE] == Meta(kind, name, size)
    ensures data[at] == kind
    ensures data[at + 1..at + 1 + NAME_SIZE] == Field(name)
    ensures data[at + 1 + NAME_SIZE..at + META_SIZE] == LittleEndian(size, SIZE_WIDTH)
  {
    var m := Meta(kind, name, size);
    assert data[at] == m[0];
    SliceOfSlice(data, at, at + META_SIZE, at + 1, at + 1 + NAME_SIZE);
    SliceOfSlice(data, at, at + META_SIZE, at + 1 + NAME_SIZE, at + META_SIZE);
    assert m[1..1 + NAME_SIZE] == Field(name);
    assert m[1 + NAME_SIZE..META_SIZE] == LittleEndian(size, SIZE_WIDTH);
  }

  ghost predicate Holds(data: seq<Byte>, at: nat, bytes: seq<Byte>) {
    at + |bytes| <= |data| && data[at..at + |bytes|] == bytes
  }

  lemma HoldsParts(data: seq<Byte>, at: nat, a: seq<Byte>, b: seq<Byte>)
    requires Holds(data, at, a + b)
    ensures Holds(data, at, a) && Holds(data, at + |a|, b)
  {
    var s := data[at..at + |a + b|];
    assert data[at..at + |a|] == s[..|a|] == a;
    assert data[at + |a|..at + |a| + |b|] == s[|a|..] == b;
  }

  lemma SizeFits(n: nat)
    requires n < SIZE_LIMIT
    ensures Signed64(LittleEndian(n, SIZE_WIDTH)) == n
  {
    Pow256Values();
    LittleEndianRoundTrip(n, SIZE_WIDTH);
  }

  lemma MetaReadsBack(data: seq<Byte>, at: nat, kind: Byte, name: seq<Byte>, size: nat)
    requires ValidName(name) && size < SIZE_LIMIT
    requires Holds(data, at, Meta(kind, name, size))
    ensures ParseMeta(data, at) == Ok(Header(kind, name, size))
  {
    MetaParts(data, at, kind, name, size);
    FieldHoldsName(data, at + 1, name);
    SizeFits(size);
  }

  lemma DirectoryReadsBack(data: seq<Byte>, at: nat, h: Header, children: seq<Tree>, next: nat)
    requires at <= |data| && ParseMeta(data, at) == Ok(h) && h.kind == DIRECTORY
    requires ParseEntries(data, at + META_SIZE, at + META_SIZE + h.size - 1) == Ok((children, next))
    ensures ParseEntry(data, at) == Ok((Tree(h.kind, h.name, [], children), next))
  {
  }

  lemma ConsReadsBack(data: seq<Byte>, at: nat, end: int, t: Tree, mid: nat, rest: seq<Tree>, next: nat)
    requires at <= mid <= |data| && at < end
    requires ParseEntry(data, at) == Ok((t, mid)) && ParseEntries(data, mid, end) == Ok((rest, next))
    ensures ParseEntries(data, at, end) == Ok(([t] + rest, next))
  {
  }

  lemma {:induction false} EntryReadsBack(data: seq<Byte>, at: nat, t: Tree)
    requires |data| < SIZE_LIMIT
    requires Savable(t) && Holds(data, at, Encode(t))
    ensures ParseEntry(data, at) == Ok((t, at + |Encode(t)|))
    decreases t, 0
  {
    hide ParseMeta, Meta;
    var payload := Payload(t);
    HoldsParts(data, at, Meta(t.kind, t.name, |payload|), payload);
    MetaReadsBack(data, at, t.kind, t.name, |payload|);
    if t.kind == DIRECTORY {
      EntriesReadBack(data, at + META_SIZE, t.children);
      DirectoryReadsBack(data, at, Header(t.kind, t.name, |payload|), t.children, at + |Encode(t)|);
    }
  }

  lemma {:induction false} EntriesReadBack(data: seq<Byte>, at: nat, ts: seq<Tree>)
    requires |data| < SIZE_LIMIT
    requires AllSavable(ts) && Holds(data, at, EncodeAll(ts))
    ensures ParseEntries(data, at, at + |EncodeAll(ts)| - 1) == Ok((ts, at + |EncodeAll(ts)|))
    decreases ts, 1
  {
    hide ParseEntry, ParseMeta, Encode;
    if ts != [] {
      var first, rest := Encode(ts[0]), EncodeAll(ts[1..]);
      var mid, next := at + |first|, at + |first| + |rest|;
      assert EncodeAll(ts) == first + rest;
      HoldsParts(data, at, first, rest);
      assert ParseEntry(data, at) == Ok((ts[0], mid)) by {
        EntryReadsBack(data, at, ts[0]);
      }
      assert ParseEntries(data, mid, next - 1) == Ok((ts[1..], next)) by {
        EntriesReadBack(data, mid, ts[1..]);
      }
      ConsReadsBack(data, at, next - 1, ts[0], mid, ts[1..], next);
      assert ts == [ts[0]] + ts[1..];
    }
  }

  /** Further on than those children, the reader goes on as from there. */
  lemma {:induction false} EntriesThenRest(data: seq<Byte>, at: nat, ts: seq<Tree>, end: int)
    requires |data| < SIZE_LIMIT
    requires AllSavable(ts) && Holds(data, at, EncodeAll(ts)) && end >= at + |EncodeAll(ts)|
    ensures ParseEntries(data, at, end) == Prepend(ts, ParseEntries(data, at + |EncodeAll(ts)|, end))
    decreases ts
  {
    hide ParseEntry, ParseMeta, Encode;
    if ts == [] {
      PrependNothing(ParseEntries(data, at, end));
    } else {
      var first, rest := Encode(ts[0]), EncodeAll(ts[1..]);
      assert EncodeAll(ts) == first + rest;
      HoldsParts(data, at, first, rest);
      EntryReadsBack(data, at, ts[0]);
      EntryIsLong(ts[0]);
      ParseStep(data, at, end);
      EntriesThenRest(data, at + |first|, ts[1..], end);
      var last := ParseEntries(data, at + |EncodeAll(ts)|, end);
      PrependFirst(ts, last);
    }
  }

  lemma EntryIsLong(t: Tree)
    ensures |Encode(t)| >= META_SIZE
  {
  }

  lemma PrependFirst(ts: seq<Tree>, r: Result<(seq<Tree>, nat)>)
    requires ts != []
    ensures Prepend([ts[0]], Prepend(ts[1..], r)) == Prepend(ts, r)
  {
    if r.Ok? {
      assert [ts[0]] + (ts[1..] + r.value.0) == ts + r.value.0;
    }
  }

  /** A tree without what the writer passes over. */
  function Pruned(t: Tree): Tree
    decreases t, 1
  {
    t.(children := if t.kind == DIRECTORY then PrunedAll(t.children) else [])
  }

  function PrunedAll(ts: seq<Tree>): (r: seq<Tree>)
    ensures |r| == |ts|
    decreases ts, 0
  {
    if ts == [] then [] else [Pruned(ts[0])] + PrunedAll(ts[1..])
  }

  lemma {:induction false} PrunedEncodesAlike(t: Tree)
    ensures Encode(Pruned(t)) == Encode(t) && Payload(Pruned(t)) == Payload(t)
    decreases t, 1
  {
    if t.kind == DIRECTORY {
      PrunedAllEncodeAlike(t.children);
    }
  }

  lemma {:induction false} PrunedAllEncodeAlike(ts: seq<Tree>)
    ensures EncodeAll(PrunedAll(ts)) == EncodeAll(ts)
    decreases ts, 0
  {
    hide Encode;
    if ts != [] {
      PrunedEncodesAlike(ts[0]);
      PrunedAllEncodeAlike(ts[1..]);
      var pruned := PrunedAll(ts);
      assert pruned[0] == Pruned(ts[0]) && pruned[1..] == PrunedAll(ts[1..]);
    }
  }

  // ---- What the reader accepts ----

  lemma {:induction false} EntryIsSavable(data: seq<Byte>, offset: nat)
    requires offset <= |data| && ParseEntry(data, offset).Ok?
    ensures var (t, next) := ParseEntry(data, offset).value;
            Savable(t) && |Encode(t)| == next - offset
    decreases |data| - offset, 0
  {
    var h := ParseMeta(data, offset).value;
    if h.kind == DIRECTORY {
      EntriesAreSavable(data, offset + META_SIZE, offset + META_SIZE + h.size - 1);
    }
  }

  lemma {:induction false} EntriesAreSavable(data: seq<Byte>, offset: nat, end: int)
    requires offset <= |data| && ParseEntries(data, offset, end).Ok?
    ensures var (ts, next) := ParseEntries(data, offset, end).value;
            AllSavable(ts) && |EncodeAll(ts)| == next - offset
    decreases |data| - offset, 1
  {
    if offset < end {
      EntryIsSavable(data, offset);
      var (t, next) := ParseEntry(data, offset).value;
      EntriesAreSavable(data, next, end);
      var (rest, last) := ParseEntries(data, next, end).value;
      var ts := [t] + rest;
      assert ts[1..] == rest;
      assert EncodeAll(ts) == Encode(t) + EncodeAll(rest);
    }
  }

  // ---- The laws ----

  /** Every accepted image holds a tree that can be saved, in no more bytes than were read. */
  lemma LoadedTreeIsSavable(data: seq<Byte>)
    requires Parse(data).Ok?
    ensures SavableRoot(Parse(data).value)
    ensures |Image(Parse(data).value)| <= |data|
  {
    EntriesAreSavable(data, HEADER_SIZE, |data| - 1);
    var count := data[5..8];
    assert FromLittleEndian(count) < COUNT_LIMIT by {
      assert FromLittleEndian(count) == count[0] + 256 * FromLittleEndian(count[1..]);
      assert FromLittleEndian(count[1..]) == count[1] + 256 * FromLittleEndian(count[1..][1..]);
      assert FromLittleEndian(count[1..][1..]) == count[2] + 256 * FromLittleEndian(count[1..][1..][1..]);
    }
  }

  lemma SavedImageLoads(root: Tree)
    requires SavableRoot(root) && |Image(root)| < SIZE_LIMIT
    ensures Parse(Image(root)) == Ok(root)
  {
    hide ParseEntry;
    var image := Image(root);
    var payload := EncodeAll(root.children);
    var head := MAGIC + [VERSION] + LittleEndian(|root.children|, 3);
    assert image == head + payload;
    assert image[..3] == head[..3] == MAGIC[..3];
    assert image[4] == head[4] == VERSION;
    assert image[5..8] == head[5..8] == LittleEndian(|root.children|, 3);
    assert image[HEADER_SIZE..HEADER_SIZE + |payload|] == payload;
    Pow256Values();
    LittleEndianRoundTrip(|root.children|, 3);
    EntriesReadBack(image, HEADER_SIZE, root.children);
  }

  /** Saving and loading gives a tree back exactly when the format can hold it. */
  lemma RoundTripIff(root: Tree)
    requires |Image(root)| < SIZE_LIMIT
    ensures Parse(Image(root)) == Ok(root) <==> SavableRoot(root)
  {
    if SavableRoot(root) {
      SavedImageLoads(root);
    }
    if Parse(Image(root)) == Ok(root) {
      LoadedTreeIsSavable(Image(root));
    }
  }

  /** Loading, saving and loading again is loading once, whatever the image looked like. */
  lemma LoadSaveLoad(data: seq<Byte>)
    requires |data| < SIZE_LIMIT
    requires Parse(data).Ok?
    ensures Parse(Image(Parse(data).value)) == Parse(data)
  {
    LoadedTreeIsSavable(data);
    SavedImageLoads(Parse(data).value);
  }

  /** Two savable trees never share an image. */
  lemma ImageIsInjective(a: Tree, b: Tree)
    requires SavableRoot(a) && SavableRoot(b)
    requires |Image(a)| < SIZE_LIMIT
    requires Image(a) == Image(b)
    ensures a == b
  {
    SavedImageLoads(a);
    SavedImageLoads(b);
  }

  // ---- Bytes behind an image ----

  lemma SomeEntryIsRead(data: seq<Byte>, at: nat, end: int)
    requires at <= |data| && at < end && ParseEntries(data, at, end).Ok?
    ensures ParseEntries(data, at, end).value.0 != []
  {
  }

  lemma CountReadsBack(root: Tree, tail: seq<Byte>)
    requires |root.children| < COUNT_LIMIT
    ensures FromLittleEndian((Image(root) + tail)[5..8]) == |root.children|
  {
    var data, head := Image(root) + tail, MAGIC + [VERSION] + LittleEndian(|root.children|, 3);
    assert data[5..8] == head[5..8] == LittleEndian(|root.children|, 3);
    Pow256Values();
    LittleEndianRoundTrip(|root.children|, 3);
  }

  /** An image with more behind it is rejected, whatever that is: it would be one entry too many. */
  lemma LongerIsRejected(root: Tree, tail: seq<Byte>)
    requires root.kind == DIRECTORY && AllSavable(PrunedAll(root.children)) && |root.children| < COUNT_LIMIT
    requires |tail| >= 2 && |Image(root) + tail| < SIZE_LIMIT
    ensures Parse(Image(root) + tail).Err?
  {
    hide ParseEntry, ParseEntries, Image, EncodeAll, AllSavable, FromLittleEndian;
    var image := Image(root);
    var data, ts := image + tail, PrunedAll(root.children);
    HoldsPruned(root, tail);
    CountReadsBack(root, tail);
    EntriesThenRest(data, HEADER_SIZE, ts, |data| - 1);
    if ParseEntries(data, |image|, |data| - 1).Ok? {
      SomeEntryIsRead(data, |image|, |data| - 1);
    }
  }

  lemma HoldsPruned(root: Tree, tail: seq<Byte>)
    requires root.kind == DIRECTORY
    ensures var ts := PrunedAll(root.children);
      Holds(Image(root) + tail, HEADER_SIZE, EncodeAll(ts)) && HEADER_SIZE + |EncodeAll(ts)| == |Image(root)|
  {
    var ts := PrunedAll(root.children);
    var data := Image(root) + tail;
    PrunedAllEncodeAlike(root.children);
    assert Image(root) == MAGIC + [VERSION] + LittleEndian(|root.children|, 3) + EncodeAll(ts);
    assert data[HEADER_SIZE..HEADER_SIZE + |EncodeAll(ts)|] == EncodeAll(ts);
  }

  // ---- Byte by byte ----

  /** `n` without its lowest `j` bytes. */
  function Shifted(n: nat, j: nat): nat {
    if j == 0 then n else Shifted(n / 256, j - 1)
  }

  lemma {:induction false} LittleEndianAt(n: nat, k: nat, j: nat)
    requires j < k
    ensures LittleEndian(n, k)[j] == Shifted(n, j) % 256
    decreases k
  {
    if j > 0 {
      LittleEndianAt(n / 256, k - 1, j - 1);
    }
  }

  /** The first eight bytes of an image: `DCI`, a NUL, the version, and the count, low byte first. */
  lemma HeaderBytes(root: Tree)
    ensures var n, image := |root.children|, Image(root);
            |image| == 8 + |Payload(root)| && image[8..] == Payload(root)
            && image[..5] == [68, 67, 73, 0, 1]
            && image[5] == n % 256 && image[6] == n / 256 % 256 && image[7] == n / 256 / 256 % 256
  {
    var n := |root.children|;
    LittleEndianAt(n, 3, 0);
    LittleEndianAt(n, 3, 1);
    LittleEndianAt(n, 3, 2);
    assert Shifted(n, 2) == Shifted(n / 256, 1) == Shifted(n / 256 / 256, 0);
    var head := MAGIC + [VERSION] + LittleEndian(n, 3);
    assert Image(root) == head + Payload(root);
    assert Image(root)[..5] == head[..5];
    assert forall i :: 5 <= i < 8 ==> Image(root)[i] == LittleEndian(n, 3)[i - 5];
  }

  /**
   * Each byte of a node: its type, which is 1 for a file, 2 for a directory and 3 for a link, its name, cut after 62
   * bytes and filled up with NULs, the length of its payload in eight bytes, low byte first, and the payload.
   */
  lemma NodeBytes(t: Tree, i: nat)
    requires i < |Encode(t)|
    ensures var p := Payload(t);
            |Encode(t)| == 72 + |p|
            && Encode(t)[i] == if i == 0 then t.kind
                               else if i < 63 && i <= |t.name| then t.name[i - 1]
                               else if i < 64 then 0
                               else if i < 72 then Shifted(|p|, i - 64) % 256
                               else p[i - 72]
    ensures t.kind == 1 || t.kind == 3 ==> Payload(t) == t.data
    ensures t.kind == 2 ==> Payload(t) == EncodeAll(t.children)
    ensures t.kind != 1 && t.kind != 2 && t.kind != 3 ==> Payload(t) == []
  {
    hide LittleEndian, Shifted;
    if 64 <= i < 72 {
      LittleEndianAt(|Payload(t)|, SIZE_WIDTH, i - 64);
    }
  }

  /** The reader passes over what fills up a name, whatever it is. */
  lemma FillerIsIgnored(data: seq<Byte>, at: nat, name: seq<Byte>)
    requires ValidName(name) && Holds(data, at + 1, name + [0]) && at + META_SIZE <= |data|
    ensures ParseMeta(data, at) == Ok(Header(data[at], name, Signed64(data[at + 64..at + 72])))
  {
    var field := data[at + 1..at + 2 + |name|];
    assert forall j :: 0 <= j < |name| ==> data[at + 1 + j] == field[j] == name[j];
    assert data[at + 1 + |name|] == field[|name|] == 0;
    assert data[at + 1..at + 1 + |name|] == name;
  }

  /** Which images are refused for what stands in front of their nodes, and what an accepted one has there. */
  lemma HeaderIsChecked(data: seq<Byte>)
    ensures Parse(data) == Err(BadMagic) <==> !([68, 67, 73] <= data)
    ensures [68, 67, 73] <= data && |data| >= 8 ==> (Parse(data) == Err(BadVersion) <==> data[4] != 1)
    ensures Parse(data).Ok? ==>
      |data| >= 8 && |Parse(data).value.children| == data[5] as int + 256 * data[6] as int + 65536 * data[7] as int
  {
    assert MAGIC[..3] == [68, 67, 73];
    if |data| >= 8 {
      var count := data[5..8];
      assert count[1..][1..] == [count[2]] && [count[2]][1..] == [];
      assert FromLittleEndian(count) == count[0] + 256 * FromLittleEndian(count[1..]);
      assert FromLittleEndian(count[1..]) == count[1] + 256 * FromLittleEndian(count[1..][1..]);
      assert FromLittleEndian([count[2]]) == count[2] + 256 * FromLittleEndian([]);
      EntriesFailForThemselves(data, 8, |data| - 1);
    }
  }

  lemma {:induction false} EntryFailsForItself(data: seq<Byte>, offset: nat)
    requires offset <= |data|
    ensures ParseEntry(data, offset) !in {Err(BadMagic), Err(BadVersion)}
    decreases |data| - offset, 0
  {
    var h := ParseMeta(data, offset);
    if h.Ok? && h.value.kind == DIRECTORY {
      var body := offset + META_SIZE;
      EntriesFailForThemselves(data, body, body + h.value.size - 1);
    }
  }

  lemma {:induction false} EntriesFailForThemselves(data: seq<Byte>, offset: nat, end: int)
    requires offset <= |data|
    ensures ParseEntries(data, offset, end) !in {Err(BadMagic), Err(BadVersion)}
    decreases |data| - offset, 1
  {
    if offset < end {
      EntryFailsForItself(data, offset);
      if ParseEntry(data, offset).Ok? {
        EntriesFailForThemselves(data, ParseEntry(data, offset).value.1, end);
      }
    }
  }

  lemma {:induction false} BytesAreBounded(b: seq<Byte>)
    ensures FromLittleEndian(b) < Pow256(|b|)
  {
    if b != [] {
      BytesAreBounded(b[1..]);
    }
  }

  /** A size is read in two's complement. */
  lemma SizesAreSigned(b: seq<Byte>)
    requires |b| == 8
    ensures -0x8000_0000_0000_0000 <= Signed64(b) < 0x8000_0000_0000_0000
    ensures Signed64(b) == FromLittleEndian(b) || Signed64(b) == FromLittleEndian(b) - 0x1_0000_0000_0000_0000
  {
    BytesAreBounded(b);
    Pow256Values();
  }
}
