/**
 * Saving a desktop entry: sections in the order of their positions, each as its raw slice or, once parsed, printed from
 * its keys. What is saved is compared with what was loaded, and what is printed with what is parsed again.
 */
module DesktopSave {
  import opened DesktopLines
  import opened DesktopSections

  // ---- The file as a sequence of chunks ----

  /** A section name with everything up to the next one. */
  datatype Chunk = Chunk(name: string, raw: string)

  function Chunks(data: string, pos: nat): (chunks: seq<Chunk>)
    requires pos <= |data|
    decreases |data| - pos
  {
    var line := LineFrom(data, pos);
    if line.start == line.end then []
    else if IsHeader(data, line) then
      HeaderEndsBefore(data, line.end);
      [Chunk(HeaderName(data, line), data[line.start..NextHeader(data, line.end)])] + Chunks(data, line.end)
    else Chunks(data, line.end)
  }

  function Joined(chunks: seq<Chunk>): string {
    if chunks == [] then [] else chunks[0].raw + Joined(chunks[1..])
  }

  /** Whatever comes before the first section name is in no chunk, all the rest is. */
  lemma {:induction false} ChunksCover(data: string, pos: nat)
    requires pos <= |data|
    ensures Joined(Chunks(data, pos)) == data[NextHeader(data, pos)..]
    decreases |data| - pos
  {
    hide LineFrom, HeaderName;
    var line := LineFrom(data, pos);
    EmptyAtEnd(data, pos);
    if line.start != line.end {
      ChunksCover(data, line.end);
      if IsHeader(data, line) {
        var next := NextHeader(data, line.end);
        assert Chunks(data, pos)[1..] == Chunks(data, line.end);
        assert data[line.start..next] + data[next..] == data[line.start..];
      }
    }
  }

  lemma {:induction false} ChunksAreNotEmpty(data: string, pos: nat)
    requires pos <= |data|
    ensures forall c :: c in Chunks(data, pos) ==> c.raw != []
    decreases |data| - pos
  {
    hide LineFrom, HeaderName;
    var line := LineFrom(data, pos);
    if line.start != line.end {
      ChunksAreNotEmpty(data, line.end);
    }
  }

  function Later(name: string, index: nat): nat {
    if name == [] then index else index + 1
  }

  function CommittedAll(all: map<string, Section>, chunks: seq<Chunk>, index: nat): map<string, Section>
    decreases |chunks|
  {
    if chunks == [] then all
    else CommittedAll(Committed(all, chunks[0].name, chunks[0].raw, index), chunks[1..], Later(chunks[0].name, index))
  }

  /** Cutting line by line commits chunk by chunk. */
  lemma {:induction false} CutCommitsChunks(data: string, pos: nat, name: string, start: nat,
                                            all: map<string, Section>, index: nat)
    requires start <= pos <= |data|
    ensures Cut(data, pos, name, start, all, index)
         == CommittedAll(Committed(all, name, data[start..NextHeader(data, pos)], index),
                         Chunks(data, pos), Later(name, index))
    decreases |data| - pos
  {
    hide LineFrom, HeaderName, Committed;
    var line := LineFrom(data, pos);
    EmptyAtEnd(data, pos);
    if line.start == line.end {
      assert data[start..line.start] == data[start..];
    } else if IsHeader(data, line) {
      var next := HeaderName(data, line);
      CutCommitsChunks(data, line.end, next, line.start,
                       Committed(all, name, data[start..line.start], index), Later(name, index));
      assert Chunks(data, pos)[1..] == Chunks(data, line.end);
    } else {
      CutCommitsChunks(data, line.end, name, start, all, index);
    }
  }

  // ---- The chunks that are kept ----

  predicate Named(chunks: seq<Chunk>, name: string) {
    exists c :: c in chunks && c.name == name
  }

  /** Chunks with a name that no later one has. */
  function Kept(chunks: seq<Chunk>): seq<Chunk> {
    if chunks == [] then []
    else if chunks[0].name == [] || Named(chunks[1..], chunks[0].name) then Kept(chunks[1..])
    else [chunks[0]] + Kept(chunks[1..])
  }

  function NamesOf(chunks: seq<Chunk>): seq<string> {
    if chunks == [] then [] else [chunks[0].name] + NamesOf(chunks[1..])
  }

  lemma {:induction false} KeptNames(chunks: seq<Chunk>, name: string)
    ensures name in NamesOf(Kept(chunks)) <==> name != [] && Named(chunks, name)
  {
    if chunks != [] {
      KeptNames(chunks[1..], name);
      assert chunks == [chunks[0]] + chunks[1..];
      assert Named(chunks, name) <==> chunks[0].name == name || Named(chunks[1..], name) by {
        assert chunks[0] in chunks;
      }
      if chunks[0].name != [] && !Named(chunks[1..], chunks[0].name) {
        assert Kept(chunks)[1..] == Kept(chunks[1..]);
      }
    }
  }

  lemma {:induction false} OthersStay(all: map<string, Section>, chunks: seq<Chunk>, index: nat, name: string)
    requires name == [] || !Named(chunks, name)
    ensures var sections := CommittedAll(all, chunks, index);
      && (name in sections <==> name in all)
      && (name in all ==> sections[name] == all[name])
    decreases |chunks|
  {
    if chunks != [] {
      var c := chunks[0];
      assert c in chunks;
      OthersStay(Committed(all, c.name, c.raw, index), chunks[1..], Later(c.name, index), name);
    }
  }

  predicate Increasing(names: seq<string>, sections: map<string, Section>, from: int) {
    names == []
    || (names[0] in sections && from <= sections[names[0]].position
        && Increasing(names[1..], sections, sections[names[0]].position + 1))
  }

  lemma {:induction false} IncreasingFromLess(names: seq<string>, sections: map<string, Section>, from: int, less: int)
    requires Increasing(names, sections, from) && less <= from
    ensures Increasing(names, sections, less)
  {
  }

  /** Sections as loaded: the kept chunks, in order. */
  lemma {:induction false} LoadedAreKept(all: map<string, Section>, chunks: seq<Chunk>, index: nat)
    ensures var sections, kept := CommittedAll(all, chunks, index), Kept(chunks);
      && Increasing(NamesOf(kept), sections, index)
      && Holds(kept, sections)
    decreases |chunks|
  {
    if chunks != [] {
      var c, rest := chunks[0], chunks[1..];
      LoadedAreKept(Committed(all, c.name, c.raw, index), rest, Later(c.name, index));
      if c.name == [] || Named(rest, c.name) {
        IncreasingFromLess(NamesOf(Kept(rest)), CommittedAll(all, chunks, index), Later(c.name, index), index);
      } else {
        OthersStay(Committed(all, c.name, c.raw, index), rest, Later(c.name, index), c.name);
        assert Kept(chunks)[1..] == Kept(rest);
      }
    }
  }

  predicate Holds(kept: seq<Chunk>, sections: map<string, Section>) {
    kept == []
    || (kept[0].name in sections && sections[kept[0].name].unparsed == kept[0].raw && Holds(kept[1..], sections))
  }

  // ---- The order of sections ----

  /** What sorting the section names by position may give. */
  ghost predicate InOrder(order: seq<string>, sections: map<string, Section>) {
    && (forall n :: n in order <==> n in sections)
    && (forall i, j :: 0 <= i < j < |order| ==> order[i] != order[j])
    && (forall i, j :: 0 <= i < j < |order| ==>
          order[i] in sections && order[j] in sections && sections[order[i]].position <= sections[order[j]].position)
  }

  lemma {:induction false} IncreasingIsAhead(names: seq<string>, sections: map<string, Section>, from: int,
                                             name: string)
    requires Increasing(names, sections, from) && name in names
    ensures name in sections && from <= sections[name].position
  {
    if names[0] != name {
      assert name in names[1..];
      IncreasingIsAhead(names[1..], sections, sections[names[0]].position + 1, name);
    }
  }

  /** Where positions differ there is but one order. */
  lemma {:induction false} OneOrder(order: seq<string>, names: seq<string>, sections: map<string, Section>, from: int)
    requires forall n :: n in order <==> n in names
    requires forall i, j :: 0 <= i < j < |order| ==> order[i] != order[j]
    requires forall n :: n in order ==> n in sections
    requires forall i, j :: 0 <= i < j < |order| ==> sections[order[i]].position <= sections[order[j]].position
    requires Increasing(names, sections, from)
    ensures order == names
    decreases |names|
  {
    if names == [] {
      assert forall n :: n !in order;
    } else {
      assert names[0] in order && order[0] in names;
      var p := sections[names[0]].position + 1;
      if order[0] != names[0] {
        assert order[0] in names[1..];
        IncreasingIsAhead(names[1..], sections, p, order[0]);
        assert false;
      }
      forall n
        ensures n in order[1..] <==> n in names[1..]
      {
        if n in order[1..] {
          assert n in order && n != order[0];
          assert n in names;
        }
        if n in names[1..] {
          IncreasingIsAhead(names[1..], sections, p, n);
          assert n != names[0] && n in names;
          assert n in order;
        }
      }
      OneOrder(order[1..], names[1..], sections, p);
    }
  }

  // ---- What is saved ----

  function Printed(keys: seq<string>, values: Keys): string
    requires forall k :: k in keys ==> k in values
  {
    if keys == [] then [] else keys[0] + "=" + values[keys[0]] + "\n" + Printed(keys[1..], values)
  }

  /** `sectionData`; `keys` are its keys in the order of the map. */
  function SectionData(section: Section, keys: seq<string>): string
    requires forall k :: k in keys <==> k in section.values
  {
    if section.unparsed == [] then "[" + section.name + "]\n" + Printed(keys, section.values)
    else section.unparsed
  }

  type KeyOrder = map<string, seq<string>>

  ghost predicate Lists(keyOrder: KeyOrder, sections: map<string, Section>) {
    forall n :: n in sections ==> n in keyOrder && forall k :: k in keyOrder[n] <==> k in sections[n].values
  }

  ghost function Document(order: seq<string>, sections: map<string, Section>, keyOrder: KeyOrder): string
    requires Lists(keyOrder, sections) && forall n :: n in order ==> n in sections
  {
    if order == [] then []
    else SectionData(sections[order[0]], keyOrder[order[0]]) + Document(order[1..], sections, keyOrder)
  }

  lemma {:induction false} KeptDocument(kept: seq<Chunk>, sections: map<string, Section>, keyOrder: KeyOrder)
    requires Holds(kept, sections) && Lists(keyOrder, sections)
    requires forall c :: c in kept ==> c.raw != []
    requires forall n :: n in NamesOf(kept) ==> n in sections
    ensures Document(NamesOf(kept), sections, keyOrder) == Joined(kept)
  {
    if kept != [] {
      assert NamesOf(kept)[1..] == NamesOf(kept[1..]);
      KeptDocument(kept[1..], sections, keyOrder);
    }
  }

  lemma {:induction false} KeptAreSome(chunks: seq<Chunk>, c: Chunk)
    requires c in Kept(chunks)
    ensures c in chunks
  {
    if c !in Kept(chunks[1..]) {
      assert c == chunks[0];
    } else {
      KeptAreSome(chunks[1..], c);
    }
  }

  function Loaded(data: string): map<string, Section> {
    Cut(data, 0, [], 0, map[], 0)
  }

  /** Saved just as loaded, a file is its named chunks, each name's last one only. */
  lemma SavedIsKept(data: string, order: seq<string>, keyOrder: KeyOrder)
    requires InOrder(order, Loaded(data)) && Lists(keyOrder, Loaded(data))
    ensures Document(order, Loaded(data), keyOrder) == Joined(Kept(Chunks(data, 0)))
  {
    hide LineFrom, Cut, Chunks, CommittedAll;
    var sections, chunks := Loaded(data), Chunks(data, 0);
    CutCommitsChunks(data, 0, [], 0, map[], 0);
    LoadedAreKept(map[], chunks, 0);
    ChunksAreNotEmpty(data, 0);
    var names := NamesOf(Kept(chunks));
    forall n
      ensures n in order <==> n in names
    {
      KeptNames(chunks, n);
      if n == [] || !Named(chunks, n) {
        OthersStay(map[], chunks, 0, n);
      }
      if n in names {
        IncreasingIsAhead(names, sections, 0, n);
      }
    }
    OneOrder(order, names, sections, 0);
    forall c | c in Kept(chunks)
      ensures c.raw != []
    {
      KeptAreSome(chunks, c);
    }
    KeptDocument(Kept(chunks), sections, keyOrder);
  }

  /** Every section has a name, and no two the same. */
  predicate NamesAreDistinct(chunks: seq<Chunk>) {
    chunks == []
    || (chunks[0].name != [] && !Named(chunks[1..], chunks[0].name) && NamesAreDistinct(chunks[1..]))
  }

  lemma {:induction false} KeptAllOrLess(chunks: seq<Chunk>)
    requires forall c :: c in chunks ==> c.raw != []
    ensures NamesAreDistinct(chunks) ==> Kept(chunks) == chunks
    ensures |Joined(Kept(chunks))| <= |Joined(chunks)|
    ensures !NamesAreDistinct(chunks) ==> |Joined(Kept(chunks))| < |Joined(chunks)|
  {
    if chunks != [] {
      KeptAllOrLess(chunks[1..]);
      assert chunks[0] in chunks;
      if chunks[0].name != [] && !Named(chunks[1..], chunks[0].name) {
        assert Kept(chunks)[1..] == Kept(chunks[1..]);
      }
    }
  }

  /** Loading and saving reproduces the file from its first section name on, exactly if the names are distinct. */
  lemma SaveReproducesIff(data: string, order: seq<string>, keyOrder: KeyOrder)
    requires InOrder(order, Loaded(data)) && Lists(keyOrder, Loaded(data))
    ensures Document(order, Loaded(data), keyOrder) == data[NextHeader(data, 0)..]
       <==> NamesAreDistinct(Chunks(data, 0))
  {
    SavedIsKept(data, order, keyOrder);
    ChunksCover(data, 0);
    ChunksAreNotEmpty(data, 0);
    KeptAllOrLess(Chunks(data, 0));
  }
}
