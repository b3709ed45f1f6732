/**
 * Ghost vtables: an object's virtual functions are overridden on a copy of its vtable that only this object points to.
 * Memory is a set of blocks of words; a vtable pointer names a word of a block, and the table runs from there to the
 * first word that is no function address, with two more words before it.
 */
module VtableHook {

  type Obj(==,!new)

  datatype Word = Num(n: int) | Ptr(block: nat, offset: nat)

  type Heap = map<nat, seq<Word>>

  const WORD_SIZE := 64
  const SLOT_BYTES := 8
  const MAX_OFFSET := 0xFFFF

  /** The destructor every ghost vtable gets. */
  const AUTO_CLEAN := Num(0x10000000)

  // ---- Tables ----

  /** What ends a table: zero, or a number too small for an address. */
  predicate IsStop(w: Word) {
    w.Num? && (w.n == 0 || w.n < WORD_SIZE)
  }

  /** How many functions there are from a word on. */
  function Scan(words: seq<Word>, at: nat): (n: nat)
    requires at <= |words|
    ensures at + n <= |words|
    ensures at + n < |words| ==> IsStop(words[at + n])
    ensures forall i :: at <= i < at + n ==> !IsStop(words[i])
    decreases |words| - at
  {
    if at == |words| || IsStop(words[at]) then 0 else 1 + Scan(words, at + 1)
  }

  /** A table goes on as long as its words are addresses: numbers from 64 on, or pointers. */
  lemma {:induction false} ScanIs(words: seq<Word>, at: nat, n: nat)
    requires at + n < |words| && words[at + n].Num? && words[at + n].n < 64
    requires forall i :: at <= i < at + n ==> words[i].Ptr? || words[i].n >= 64
    ensures Scan(words, at) == n
    decreases n
  {
    if n > 0 {
      ScanIs(words, at + 1, n - 1);
    }
  }

  /** A vtable: two words, functions, and something that ends it. */
  predicate IsTable(heap: Heap, p: Word) {
    && p.Ptr? && p.block in heap
    && 2 <= p.offset <= |heap[p.block]|
    && p.offset + Scan(heap[p.block], p.offset) < |heap[p.block]|
  }

  /** The functions of a table. */
  function Functions(heap: Heap, p: Word): seq<Word>
    requires IsTable(heap, p)
  {
    heap[p.block][p.offset..p.offset + Scan(heap[p.block], p.offset)]
  }

  function Size(heap: Heap, p: Word): nat
    requires IsTable(heap, p)
  {
    Scan(heap[p.block], p.offset) + 2
  }

  /** A ghost vtable: as large as its original, ended by zero, and with the way back after that. */
  predicate IsGhostOf(words: seq<Word>, heap: Heap, original: Word)
    requires IsTable(heap, original)
  {
    var size := Size(heap, original);
    && |words| == size + 2
    && words[..2] == heap[original.block][original.offset - 2..original.offset]
    && (forall i :: 2 <= i < size ==> !IsStop(words[i]))
    && words[size] == Num(0)
    && words[size + 1] == original
  }

  lemma GhostHasSameSize(words: seq<Word>, heap: Heap, original: Word)
    requires IsTable(heap, original) && IsGhostOf(words, heap, original)
    ensures Scan(words, 2) == Scan(heap[original.block], original.offset)
  {
    ScanIs(words, 2, Scan(heap[original.block], original.offset));
  }

  /** The functions a pointer leads to. */
  function Slots(heap: Heap, p: Word): seq<Word> {
    if IsTable(heap, p) then Functions(heap, p) else []
  }

  // ---- The hooks ----

  /** The three static maps; the blocks are the same whoever looks at them. */
  datatype Hooks = Hooks(original: map<Obj, Word>, ghostBlock: map<Obj, nat>, destruct: map<Obj, Word>)

  /** One object's hook: a ghost of a true vtable, in a block of its own. */
  ghost predicate HasHook(hooks: Hooks, o: Obj, heap: Heap, originals: Heap) {
    && o in hooks.original && o in hooks.ghostBlock && o in hooks.destruct
    && IsTable(originals, hooks.original[o])
    && hooks.ghostBlock[o] in heap && hooks.ghostBlock[o] !in originals
    && IsGhostOf(heap[hooks.ghostBlock[o]], originals, hooks.original[o])
  }

  predicate IsAtGhost(hooks: Hooks, vptr: map<Obj, Word>, o: Obj) {
    o in vptr && o in hooks.ghostBlock && vptr[o] == Ptr(hooks.ghostBlock[o], 2)
  }

  ghost predicate AllHooks(hooks: Hooks, heap: Heap, originals: Heap) {
    && hooks.original.Keys == hooks.ghostBlock.Keys == hooks.destruct.Keys
    && (forall o :: o in hooks.original ==> HasHook(hooks, o, heap, originals))
    && (forall o, p :: o in hooks.ghostBlock && p in hooks.ghostBlock && hooks.ghostBlock[o] == hooks.ghostBlock[p] ==>
          o == p)
  }

  /** A hook is as good where its object's entries and its block are the same. */
  lemma HookStays(hooks: Hooks, now: Hooks, o: Obj, heap: Heap, heapNow: Heap, originals: Heap)
    requires HasHook(hooks, o, heap, originals)
    requires o in now.original && now.original[o] == hooks.original[o]
    requires o in now.ghostBlock && now.ghostBlock[o] == hooks.ghostBlock[o]
    requires o in now.destruct && now.destruct[o] == hooks.destruct[o]
    requires hooks.ghostBlock[o] in heapNow && heapNow[hooks.ghostBlock[o]] == heap[hooks.ghostBlock[o]]
    ensures HasHook(now, o, heapNow, originals)
  {
  }

  lemma HookBlock(hooks: Hooks, heap: Heap, originals: Heap, o: Obj)
    requires AllHooks(hooks, heap, originals) && o in hooks.original
    ensures HasHook(hooks, o, heap, originals)
    ensures o in hooks.ghostBlock && hooks.ghostBlock[o] in heap && hooks.ghostBlock[o] !in originals
  {
    hide IsGhostOf;
  }

  lemma HooksWithout(hooks: Hooks, heap: Heap, originals: Heap, o: Obj)
    requires AllHooks(hooks, heap, originals) && OriginalsStand(heap, originals) && o in hooks.original
    ensures var less := Hooks(hooks.original - {o}, hooks.ghostBlock - {o}, hooks.destruct - {o});
      AllHooks(less, heap - {hooks.ghostBlock[o]}, originals)
      && OriginalsStand(heap - {hooks.ghostBlock[o]}, originals)
  {
    hide HasHook;
    var less := Hooks(hooks.original - {o}, hooks.ghostBlock - {o}, hooks.destruct - {o});
    HookBlock(hooks, heap, originals, o);
    forall p | p in less.original
      ensures HasHook(less, p, heap - {hooks.ghostBlock[o]}, originals)
    {
      HookBlock(hooks, heap, originals, p);
      assert hooks.ghostBlock[p] != hooks.ghostBlock[o];
      HookStays(hooks, less, p, heap, heap - {hooks.ghostBlock[o]}, originals);
    }
  }

  /** One more hook, or new words for one; the others are not touched. */
  lemma HooksWith(hooks: Hooks, now: Hooks, heap: Heap, heapNow: Heap, originals: Heap, o: Obj)
    requires AllHooks(hooks, heap, originals) && HasHook(now, o, heapNow, originals)
    requires now.original.Keys == now.ghostBlock.Keys == now.destruct.Keys == hooks.original.Keys + {o}
    requires forall p :: p in hooks.original && p != o ==>
      && now.original[p] == hooks.original[p] && now.ghostBlock[p] == hooks.ghostBlock[p]
      && now.destruct[p] == hooks.destruct[p] && hooks.ghostBlock[p] != now.ghostBlock[o]
    requires forall b :: b in heap && b != now.ghostBlock[o] ==> b in heapNow && heapNow[b] == heap[b]
    ensures AllHooks(now, heapNow, originals)
  {
    hide HasHook;
    forall p | p in now.original
      ensures HasHook(now, p, heapNow, originals)
    {
      if p != o {
        HookBlock(hooks, heap, originals, p);
        HookStays(hooks, now, p, heap, heapNow, originals);
      }
    }
  }

  /** Every object's pointer leads to its ghost or to a true vtable. */
  ghost predicate AllPointers(hooks: Hooks, vptr: map<Obj, Word>, originals: Heap) {
    forall o :: o in vptr ==> IsAtGhost(hooks, vptr, o) || IsTable(originals, vptr[o])
  }

  /** The true vtables are in memory as they always were. */
  ghost predicate OriginalsStand(heap: Heap, originals: Heap) {
    forall b :: b in originals ==> b in heap && heap[b] == originals[b]
  }

  lemma TrueTableStands(heap: Heap, originals: Heap, p: Word)
    requires OriginalsStand(heap, originals) && IsTable(originals, p)
    ensures IsTable(heap, p) && Functions(heap, p) == Functions(originals, p) && Size(heap, p) == Size(originals, p)
  {
  }

  lemma GhostIsTable(hooks: Hooks, o: Obj, heap: Heap, originals: Heap)
    requires HasHook(hooks, o, heap, originals)
    ensures var p := Ptr(hooks.ghostBlock[o], 2);
      && IsTable(heap, p) && Size(heap, p) == Size(originals, hooks.original[o])
      && |Functions(heap, p)| == |Functions(originals, hooks.original[o])|
  {
    GhostHasSameSize(heap[hooks.ghostBlock[o]], originals, hooks.original[o]);
  }

  lemma PointsAt(hooks: Hooks, vptr: map<Obj, Word>, heap: Heap, originals: Heap, p: Obj)
    requires AllHooks(hooks, heap, originals) && AllPointers(hooks, vptr, originals) && OriginalsStand(heap, originals)
    requires p in vptr
    ensures vptr[p].Ptr? && vptr[p].block in heap
    ensures if IsAtGhost(hooks, vptr, p) then vptr[p].block == hooks.ghostBlock[p] && HasHook(hooks, p, heap, originals)
            else vptr[p].block in originals
  {
    hide IsGhostOf;
    if IsAtGhost(hooks, vptr, p) {
      assert p in hooks.original;
    }
  }

  lemma SlotsSame(heap: Heap, heapNow: Heap, p: Word)
    requires p.Ptr? && p.block in heap && p.block in heapNow && heapNow[p.block] == heap[p.block]
    ensures Slots(heapNow, p) == Slots(heap, p)
  {
  }

  /** What other objects see is in other blocks. */
  lemma SlotsElsewhere(hooks: Hooks, vptr: map<Obj, Word>, heap: Heap, heapNow: Heap, originals: Heap, block: nat,
                       p: Obj)
    requires AllHooks(hooks, heap, originals) && AllPointers(hooks, vptr, originals) && OriginalsStand(heap, originals)
    requires p in vptr && block !in originals && (IsAtGhost(hooks, vptr, p) ==> hooks.ghostBlock[p] != block)
    requires forall b :: b in heap && b != block ==> b in heapNow && heapNow[b] == heap[b]
    ensures Slots(heapNow, vptr[p]) == Slots(heap, vptr[p])
  {
    PointsAt(hooks, vptr, heap, originals, p);
    hide AllHooks, AllPointers, OriginalsStand, HasHook, Slots;
    SlotsSame(heap, heapNow, vptr[p]);
  }

  /** A ghost with another function in one of its slots. */
  lemma GhostWith(words: seq<Word>, heap: Heap, original: Word, i: nat, f: Word)
    requires IsTable(heap, original) && IsGhostOf(words, heap, original)
    requires i + 2 < Size(heap, original) && !IsStop(f)
    ensures IsGhostOf(words[i + 2 := f], heap, original)
    ensures words[i + 2 := f][2..Size(heap, original)] == words[2..Size(heap, original)][i := f]
  {
  }

  // ---- Copying ----

  /** What `copyVtable` puts into the new block. */
  function GhostOf(heap: Heap, p: Word): seq<Word>
    requires IsTable(heap, p)
  {
    heap[p.block][p.offset - 2..p.offset + Scan(heap[p.block], p.offset)] + [Num(0), p]
  }

  lemma CopyIsGhost(heap: Heap, p: Word)
    requires IsTable(heap, p)
    ensures IsGhostOf(GhostOf(heap, p), heap, p)
    ensures GhostOf(heap, p)[2..Size(heap, p)] == Functions(heap, p)
  {
  }

  lemma GhostIsLikeTrue(heap: Heap, originals: Heap, p: Word, block: nat, heapNow: Heap)
    requires OriginalsStand(heap, originals) && IsTable(originals, p)
    requires heapNow == heap[block := GhostOf(originals, p)]
    ensures Slots(heapNow, Ptr(block, 2)) == Slots(heap, p) == Slots(originals, p)
    ensures IsGhostOf(heapNow[block], originals, p) && |Slots(originals, p)| + 4 == |heapNow[block]|
  {
    CopyIsGhost(originals, p);
    GhostHasSameSize(heapNow[block], originals, p);
    TrueTableStands(heap, originals, p);
  }

  lemma HookIsMade(hooks: Hooks, o: Obj, heap: Heap, originals: Heap)
    requires o in hooks.original && o in hooks.ghostBlock && o in hooks.destruct
    requires IsTable(originals, hooks.original[o])
    requires hooks.ghostBlock[o] in heap && hooks.ghostBlock[o] !in originals
    requires IsGhostOf(heap[hooks.ghostBlock[o]], originals, hooks.original[o])
    ensures HasHook(hooks, o, heap, originals)
  {
  }

  lemma KeysAgree(hooks: Hooks, heap: Heap, originals: Heap)
    requires AllHooks(hooks, heap, originals)
    ensures hooks.original.Keys == hooks.ghostBlock.Keys == hooks.destruct.Keys
  {
  }

  lemma PointersWith(hooks: Hooks, now: Hooks, vptr: map<Obj, Word>, originals: Heap, o: Obj, block: nat)
    requires AllPointers(hooks, vptr, originals)
    requires now.ghostBlock == hooks.ghostBlock[o := block]
    ensures AllPointers(now, vptr[o := Ptr(block, 2)], originals)
  {
    forall p | p in vptr && p != o
      ensures IsAtGhost(now, vptr[o := Ptr(block, 2)], p) || IsTable(originals, vptr[p])
    {
      assert IsAtGhost(hooks, vptr, p) || IsTable(originals, vptr[p]);
    }
  }

  // ---- The whole state ----

  datatype State = State(heap: Heap, vptr: map<Obj, Word>, hooks: Hooks)

  ghost predicate IsGood(s: State, originals: Heap) {
    && OriginalsStand(s.heap, originals)
    && AllHooks(s.hooks, s.heap, originals)
    && AllPointers(s.hooks, s.vptr, originals)
  }

  predicate IsHooked(s: State, o: Obj) {
    IsAtGhost(s.hooks, s.vptr, o)
  }

  /** What the object's virtual functions are now. */
  function NowOf(s: State, o: Obj): seq<Word> {
    if o in s.vptr then Slots(s.heap, s.vptr[o]) else []
  }

  /** And what they were before any override. */
  function TrueOf(s: State, originals: Heap, o: Obj): seq<Word> {
    if IsHooked(s, o) && o in s.hooks.original then Slots(originals, s.hooks.original[o]) else NowOf(s, o)
  }

  predicate IsSame(s: State, t: State, originals: Heap, o: Obj) {
    && (o in t.vptr <==> o in s.vptr) && (o in s.vptr ==> t.vptr[o] == s.vptr[o])
    && IsHooked(t, o) == IsHooked(s, o) && (o in t.hooks.original <==> o in s.hooks.original)
    && NowOf(t, o) == NowOf(s, o) && TrueOf(t, originals, o) == TrueOf(s, originals, o)
  }

  /** For every object but one nothing has changed. */
  ghost predicate OthersSame(s: State, t: State, originals: Heap, o: Obj) {
    t.vptr.Keys == s.vptr.Keys && forall p :: p != o ==> IsSame(s, t, originals, p)
  }

  lemma OthersChain(s: State, t: State, u: State, originals: Heap, o: Obj)
    requires OthersSame(s, t, originals, o) && OthersSame(t, u, originals, o)
    ensures OthersSame(s, u, originals, o)
  {
    hide IsHooked, NowOf, TrueOf;
    forall p | p != o
      ensures IsSame(s, u, originals, p)
    {
      assert IsSame(s, t, originals, p) && IsSame(t, u, originals, p);
    }
  }

  /** A hooked object has as many functions as its true vtable. */
  lemma HookedHasSameSize(s: State, originals: Heap, o: Obj)
    requires IsGood(s, originals) && o in s.vptr
    ensures |NowOf(s, o)| == |TrueOf(s, originals, o)|
    ensures IsTable(s.heap, s.vptr[o]) && Size(s.heap, s.vptr[o]) == |NowOf(s, o)| + 2
  {
    PointsAt(s.hooks, s.vptr, s.heap, originals, o);
    if IsHooked(s, o) {
      GhostIsTable(s.hooks, o, s.heap, originals);
    } else {
      TrueTableStands(s.heap, originals, s.vptr[o]);
    }
  }

  /** The same pointer, the same entries and the same words make no difference. */
  lemma SameFor(s: State, t: State, originals: Heap, p: Obj)
    requires p in s.vptr <==> p in t.vptr
    requires p in s.vptr ==> t.vptr[p] == s.vptr[p] && Slots(t.heap, t.vptr[p]) == Slots(s.heap, s.vptr[p])
    requires p in s.hooks.ghostBlock <==> p in t.hooks.ghostBlock
    requires p in s.hooks.ghostBlock ==> t.hooks.ghostBlock[p] == s.hooks.ghostBlock[p]
    requires p in s.hooks.original <==> p in t.hooks.original
    requires p in s.hooks.original ==> t.hooks.original[p] == s.hooks.original[p]
    ensures IsSame(s, t, originals, p)
  {
    hide Slots;
  }

  // ---- One write, one copy, one reset ----

  function Written(s: State, o: Obj, i: nat, f: Word): State
    requires IsHooked(s, o) && s.hooks.ghostBlock[o] in s.heap && i + 2 < |s.heap[s.hooks.ghostBlock[o]]|
  {
    var block := s.hooks.ghostBlock[o];
    s.(heap := s.heap[block := s.heap[block][i + 2 := f]])
  }

  lemma GhostSlots(heap: Heap, originals: Heap, original: Word, block: nat)
    requires block in heap && IsTable(originals, original) && IsGhostOf(heap[block], originals, original)
    ensures Slots(heap, Ptr(block, 2)) == heap[block][2..Size(originals, original)]
    ensures |heap[block]| == |Slots(heap, Ptr(block, 2))| + 4
  {
    GhostHasSameSize(heap[block], originals, original);
  }

  lemma WriteIsGood(s: State, originals: Heap, o: Obj, i: nat, f: Word)
    requires IsGood(s, originals) && IsHooked(s, o) && i < |NowOf(s, o)| && !IsStop(f)
    ensures s.hooks.ghostBlock[o] in s.heap && i + 2 < |s.heap[s.hooks.ghostBlock[o]]|
    ensures s.heap[s.hooks.ghostBlock[o]][i + 2] == NowOf(s, o)[i]
    ensures var t := Written(s, o, i, f); IsGood(t, originals) && NowOf(t, o) == NowOf(s, o)[i := f]
  {
    hide AllPointers, AllHooks, OriginalsStand, IsTable, IsGhostOf;
    KeysAgree(s.hooks, s.heap, originals);
    PointsAt(s.hooks, s.vptr, s.heap, originals, o);
    var block, original := s.hooks.ghostBlock[o], s.hooks.original[o];
    GhostSlots(s.heap, originals, original, block);
    GhostWith(s.heap[block], originals, original, i, f);
    var t := Written(s, o, i, f);
    GhostSlots(t.heap, originals, original, block);
    OneGhostWritten(s, t, originals, o);
  }

  lemma OneGhostWritten(s: State, t: State, originals: Heap, o: Obj)
    requires IsGood(s, originals) && HasHook(s.hooks, o, s.heap, originals)
    requires t == s.(heap := t.heap) && t.heap.Keys == s.heap.Keys
    requires forall b :: b in s.heap && b != s.hooks.ghostBlock[o] ==> t.heap[b] == s.heap[b]
    requires IsGhostOf(t.heap[s.hooks.ghostBlock[o]], originals, s.hooks.original[o])
    ensures IsGood(t, originals)
  {
    hide IsGhostOf, AllPointers;
    KeysAgree(s.hooks, s.heap, originals);
    HookIsMade(t.hooks, o, t.heap, originals);
    hide HasHook;
    OthersBlock(s.hooks, s.heap, originals, o);
    HooksWith(s.hooks, t.hooks, s.heap, t.heap, originals, o);
  }

  lemma OthersBlock(hooks: Hooks, heap: Heap, originals: Heap, o: Obj)
    requires AllHooks(hooks, heap, originals) && o in hooks.ghostBlock
    ensures forall p :: p in hooks.original && p != o ==>
              p in hooks.ghostBlock && hooks.ghostBlock[p] != hooks.ghostBlock[o]
  {
    hide HasHook;
  }

  lemma OtherBlock(s: State, originals: Heap, o: Obj, p: Obj)
    requires IsGood(s, originals) && o in s.hooks.ghostBlock && p != o && p in s.vptr
    ensures s.hooks.ghostBlock[o] !in originals
    ensures IsHooked(s, p) ==> s.hooks.ghostBlock[p] != s.hooks.ghostBlock[o]
  {
    KeysAgree(s.hooks, s.heap, originals);
    HookBlock(s.hooks, s.heap, originals, o);
  }

  lemma WriteIsLocal(s: State, originals: Heap, o: Obj, i: nat, f: Word)
    requires IsGood(s, originals) && IsHooked(s, o) && i < |NowOf(s, o)| && !IsStop(f)
    ensures s.hooks.ghostBlock[o] in s.heap && i + 2 < |s.heap[s.hooks.ghostBlock[o]]|
    ensures s.heap[s.hooks.ghostBlock[o]][i + 2] == NowOf(s, o)[i]
    ensures var t := Written(s, o, i, f);
      && IsGood(t, originals) && IsHooked(t, o)
      && NowOf(t, o) == NowOf(s, o)[i := f] && TrueOf(t, originals, o) == TrueOf(s, originals, o)
      && OthersSame(s, t, originals, o)
  {
    WriteIsGood(s, originals, o, i, f);
    hide IsGood, NowOf, OthersSame;
    WriteOthers(s, originals, o, i, f);
  }

  lemma WriteOthers(s: State, originals: Heap, o: Obj, i: nat, f: Word)
    requires IsGood(s, originals) && IsHooked(s, o)
    requires s.hooks.ghostBlock[o] in s.heap && i + 2 < |s.heap[s.hooks.ghostBlock[o]]|
    ensures OthersSame(s, Written(s, o, i, f), originals, o)
  {
    KeysAgree(s.hooks, s.heap, originals);
    hide AllHooks, AllPointers, OriginalsStand, Slots, IsSame;
    var t := Written(s, o, i, f);
    forall p | p != o
      ensures IsSame(s, t, originals, p)
    {
      if p in s.vptr {
        OtherBlock(s, originals, o, p);
        SlotsElsewhere(s.hooks, s.vptr, s.heap, t.heap, originals, s.hooks.ghostBlock[o], p);
      }
      SameFor(s, t, originals, p);
    }
  }

  /** The maps without an object, and its block freed. */
  function Forgotten(s: State, o: Obj): State
    requires o in s.hooks.ghostBlock
  {
    var hooks := Hooks(s.hooks.original - {o}, s.hooks.ghostBlock - {o}, s.hooks.destruct - {o});
    s.(heap := s.heap - {s.hooks.ghostBlock[o]}, hooks := hooks)
  }

  /** An object whose vtable is a true one may be forgotten; nobody sees a difference. */
  lemma ForgetIsLocal(s: State, originals: Heap, o: Obj)
    requires IsGood(s, originals) && o in s.vptr && o in s.hooks.ghostBlock && IsTable(originals, s.vptr[o])
    requires !IsHooked(s, o)
    ensures var t := Forgotten(s, o);
      && IsGood(t, originals) && o !in t.hooks.original
      && NowOf(t, o) == NowOf(s, o) && OthersSame(s, t, originals, o)
  {
    KeysAgree(s.hooks, s.heap, originals);
    HooksWithout(s.hooks, s.heap, originals, o);
    HookBlock(s.hooks, s.heap, originals, o);
    PointersWithout(s.hooks, s.vptr, originals, o);
    hide AllHooks, AllPointers, OriginalsStand, HasHook, Slots, IsSame;
    var t, block := Forgotten(s, o), s.hooks.ghostBlock[o];
    PointsAt(s.hooks, s.vptr, s.heap, originals, o);
    SlotsSame(s.heap, t.heap, s.vptr[o]);
    forall p | p != o
      ensures IsSame(s, t, originals, p)
    {
      if p in s.vptr {
        PointsAt(s.hooks, s.vptr, s.heap, originals, p);
        OtherBlock(s, originals, o, p);
        SlotsSame(s.heap, t.heap, s.vptr[p]);
      }
      SameFor(s, t, originals, p);
    }
  }

  lemma PointersWithout(hooks: Hooks, vptr: map<Obj, Word>, originals: Heap, o: Obj)
    requires AllPointers(hooks, vptr, originals) && (o in vptr ==> IsTable(originals, vptr[o]))
    ensures AllPointers(Hooks(hooks.original - {o}, hooks.ghostBlock - {o}, hooks.destruct - {o}), vptr, originals)
  {
  }

  /** The object's own copy, with its true destructor kept. */
  function Attached(s: State, originals: Heap, o: Obj, index: nat, block: nat): State
    requires o in s.vptr && IsTable(originals, s.vptr[o]) && index < |Functions(originals, s.vptr[o])|
  {
    var p := s.vptr[o];
    State(s.heap[block := GhostOf(originals, p)], s.vptr[o := Ptr(block, 2)],
          Hooks(s.hooks.original[o := p], s.hooks.ghostBlock[o := block],
                s.hooks.destruct[o := Functions(originals, p)[index]]))
  }

  lemma AttachIsLocal(s: State, originals: Heap, o: Obj, index: nat, block: nat)
    requires IsGood(s, originals) && o in s.vptr && o !in s.hooks.original && IsTable(originals, s.vptr[o])
    requires index < |Functions(originals, s.vptr[o])| && block !in s.heap
    ensures var t := Attached(s, originals, o, index, block);
      && IsGood(t, originals) && IsHooked(t, o)
      && NowOf(t, o) == NowOf(s, o) == TrueOf(t, originals, o) && OthersSame(s, t, originals, o)
      && index < |TrueOf(t, originals, o)|
      && o in t.hooks.destruct && t.hooks.destruct[o] == TrueOf(t, originals, o)[index]
  {
    AttachIsGood(s, originals, o, index, block);
    AttachOthers(s, originals, o, index, block);
    assert Slots(originals, s.vptr[o]) == Functions(originals, s.vptr[o]);
  }

  lemma AttachOthers(s: State, originals: Heap, o: Obj, index: nat, block: nat)
    requires IsGood(s, originals) && o in s.vptr && o !in s.hooks.original && IsTable(originals, s.vptr[o])
    requires index < |Functions(originals, s.vptr[o])| && block !in s.heap
    ensures OthersSame(s, Attached(s, originals, o, index, block), originals, o)
  {
    KeysAgree(s.hooks, s.heap, originals);
    hide AllHooks, AllPointers, HasHook, Slots, IsSame, IsGhostOf, GhostOf, IsTable, OriginalsStand;
    var t := Attached(s, originals, o, index, block);
    forall q | q != o
      ensures IsSame(s, t, originals, q)
    {
      if q in s.vptr {
        PointsAt(s.hooks, s.vptr, s.heap, originals, q);
        SlotsSame(s.heap, t.heap, s.vptr[q]);
      }
      SameFor(s, t, originals, q);
    }
  }

  lemma AttachMakesHook(s: State, originals: Heap, o: Obj, index: nat, block: nat)
    requires OriginalsStand(s.heap, originals) && o in s.vptr && IsTable(originals, s.vptr[o])
    requires index < |Functions(originals, s.vptr[o])| && block !in s.heap
    ensures var t := Attached(s, originals, o, index, block);
      && HasHook(t.hooks, o, t.heap, originals) && OriginalsStand(t.heap, originals) && IsHooked(t, o)
      && NowOf(t, o) == NowOf(s, o) == TrueOf(t, originals, o)
  {
    StandsWith(s.heap, originals, block, GhostOf(originals, s.vptr[o]));
    var t := Attached(s, originals, o, index, block);
    GhostIsLikeTrue(s.heap, originals, s.vptr[o], block, t.heap);
    hide IsGhostOf, Slots, GhostOf, OriginalsStand;
  }

  lemma AttachIsGood(s: State, originals: Heap, o: Obj, index: nat, block: nat)
    requires IsGood(s, originals) && o in s.vptr && o !in s.hooks.original && IsTable(originals, s.vptr[o])
    requires index < |Functions(originals, s.vptr[o])| && block !in s.heap
    ensures var t := Attached(s, originals, o, index, block);
      && IsGood(t, originals) && IsHooked(t, o)
      && NowOf(t, o) == NowOf(s, o) == TrueOf(t, originals, o)
  {
    AttachMakesHook(s, originals, o, index, block);
    KeysAgree(s.hooks, s.heap, originals);
    hide AllHooks, AllPointers, IsTable, OriginalsStand, HasHook, NowOf, TrueOf, IsHooked, Functions;
    var t := Attached(s, originals, o, index, block);
    AttachedHooks(s, originals, o, t, block);
    PointersWith(s.hooks, t.hooks, s.vptr, originals, o, block);
  }

  lemma StandsWith(heap: Heap, originals: Heap, block: nat, words: seq<Word>)
    requires OriginalsStand(heap, originals) && block !in heap
    ensures OriginalsStand(heap[block := words], originals) && block !in originals
  {
  }

  lemma AttachedHooks(s: State, originals: Heap, o: Obj, t: State, block: nat)
    requires AllHooks(s.hooks, s.heap, originals) && HasHook(t.hooks, o, t.heap, originals)
    requires block !in s.heap && (forall b :: b in s.heap ==> b in t.heap && t.heap[b] == s.heap[b])
    requires t.hooks.ghostBlock == s.hooks.ghostBlock[o := block]
    requires t.hooks.original.Keys == t.hooks.destruct.Keys == s.hooks.original.Keys + {o}
    requires forall p :: p in s.hooks.original && p != o ==>
      t.hooks.original[p] == s.hooks.original[p] && t.hooks.destruct[p] == s.hooks.destruct[p]
    ensures AllHooks(t.hooks, t.heap, originals)
  {
    hide HasHook;
    forall p | p in s.hooks.original
      ensures p in s.hooks.ghostBlock && s.hooks.ghostBlock[p] != block
    {
      HookBlock(s.hooks, s.heap, originals, p);
    }
    HooksWith(s.hooks, t.hooks, s.heap, t.heap, originals, o);
  }

  /** An object's pointer may be turned to any true vtable. */
  lemma PutBackIsLocal(s: State, originals: Heap, o: Obj, p: Word)
    requires IsGood(s, originals) && o in s.vptr && IsTable(originals, p)
    ensures var t := s.(vptr := s.vptr[o := p]);
      IsGood(t, originals) && OthersSame(s, t, originals, o) && NowOf(t, o) == Slots(originals, p)
  {
    TrueSlots(s.heap, originals, p);
    PointersTo(s.hooks, s.vptr, originals, o, p);
    hide AllHooks, AllPointers, OriginalsStand, IsTable, IsSame, Slots;
    var t := s.(vptr := s.vptr[o := p]);
    forall q | q != o
      ensures IsSame(s, t, originals, q)
    {
      SameFor(s, t, originals, q);
    }
  }

  lemma PointersTo(hooks: Hooks, vptr: map<Obj, Word>, originals: Heap, o: Obj, p: Word)
    requires AllPointers(hooks, vptr, originals) && IsTable(originals, p)
    ensures AllPointers(hooks, vptr[o := p], originals)
  {
    forall q | q in vptr && q != o
      ensures IsAtGhost(hooks, vptr[o := p], q) || IsTable(originals, vptr[q])
    {
      assert IsAtGhost(hooks, vptr, q) || IsTable(originals, vptr[q]);
    }
  }

  /** The pointer put back, and the hook forgotten. */
  lemma ResetIsLocal(s: State, originals: Heap, o: Obj)
    requires IsGood(s, originals) && IsHooked(s, o)
    ensures o in s.hooks.original
    ensures var t := Forgotten(s.(vptr := s.vptr[o := s.hooks.original[o]]), o);
      && IsGood(t, originals) && o !in t.hooks.original
      && NowOf(t, o) == TrueOf(s, originals, o) && OthersSame(s, t, originals, o)
  {
    KeysAgree(s.hooks, s.heap, originals);
    HookIsThere(s.hooks, s.heap, originals, o);
    var p := s.hooks.original[o];
    PutBackIsLocal(s, originals, o, p);
    hide IsGood, IsTable, NowOf, OthersSame, Slots;
    var u := s.(vptr := s.vptr[o := p]);
    ForgetIsLocal(u, originals, o);
    OthersChain(s, u, Forgotten(u, o), originals, o);
  }

  lemma HookIsThere(hooks: Hooks, heap: Heap, originals: Heap, o: Obj)
    requires AllHooks(hooks, heap, originals) && o in hooks.original && OriginalsStand(heap, originals)
    ensures IsTable(originals, hooks.original[o])
    ensures o in hooks.ghostBlock && hooks.original[o] != Ptr(hooks.ghostBlock[o], 2)
  {
    HookBlock(hooks, heap, originals, o);
    hide IsGhostOf;
  }

  lemma TrueSlots(heap: Heap, originals: Heap, p: Word)
    requires OriginalsStand(heap, originals) && IsTable(originals, p)
    ensures Slots(heap, p) == Slots(originals, p)
  {
    TrueTableStands(heap, originals, p);
  }

  // ---- The operations ----

  function Put(words: seq<Word>, i: nat, w: Word): seq<Word> {
    if i < |words| then words[i := w] else words
  }

  function Get(words: seq<Word>, i: nat): Word {
    if i < |words| then words[i] else Num(0)
  }

  /** An object's functions once it is hooked, with the destructor taken over if it was not before. */
  function OnceHooked(s: State, o: Obj, index: nat): seq<Word> {
    if IsHooked(s, o) then NowOf(s, o) else Put(NowOf(s, o), index, AUTO_CLEAN)
  }

  /** And with one slot overridden: a small `fun` names a slot of another object, or of its own. */
  function Overridden(s: State, o: Obj, i: nat, fun: nat, other: Obj, index: nat): seq<Word> {
    Put(OnceHooked(s, o, index), i,
        if fun > MAX_OFFSET then Num(fun)
        else Get(if other == o then OnceHooked(s, o, index) else NowOf(s, other), fun / SLOT_BYTES))
  }

  /**
   * Slot by slot: the overridden one holds the address given, or what the slot given holds of the other object at
   * that time; the destructor's is taken over with the first hook; all others stay as they are.
   */
  lemma OverriddenAt(s: State, o: Obj, i: nat, fun: nat, other: Obj, index: nat, j: nat)
    requires i < |NowOf(s, o)| && j < |NowOf(s, o)| && (fun <= 0xFFFF ==> fun / 8 < |NowOf(s, other)|)
    ensures var words := Overridden(s, o, i, fun, other, index);
      && |words| == |NowOf(s, o)|
      && words[j] == if j == i then
                       if fun > 0xFFFF then Num(fun)
                       else if other == o && fun / 8 == index && !IsHooked(s, o) then AUTO_CLEAN
                       else NowOf(s, other)[fun / 8]
                     else if j == index && !IsHooked(s, o) then AUTO_CLEAN
                     else NowOf(s, o)[j]
  {
    hide NowOf, IsHooked;
  }

  class Memory {
    var heap: Heap
    var vptr: map<Obj, Word>
    var hooks: Hooks
    ghost const originals: Heap

    ghost function At(): State
      reads this
    {
      State(heap, vptr, hooks)
    }

    /** True vtables are never written, and each hooked object has a ghost of its own. */
    ghost predicate Valid()
      reads this
    {
      IsGood(At(), originals)
    }

    ghost function Now(o: Obj): seq<Word>
      reads this
    {
      NowOf(At(), o)
    }

    ghost function Truly(o: Obj): seq<Word>
      reads this
    {
      TrueOf(At(), originals, o)
    }

    ghost predicate Hooked(o: Obj)
      reads this
    {
      IsHooked(At(), o)
    }

    /** Nothing has changed for any other object. */
    twostate predicate OnlyFor(o: Obj)
      reads this
    {
      OthersSame(old(At()), At(), originals, o)
    }

    constructor (heap: Heap, vptr: map<Obj, Word>)
      requires forall o :: o in vptr ==> IsTable(heap, vptr[o])
      ensures Valid() && this.heap == heap && this.vptr == vptr && originals == heap
      ensures hooks == Hooks(map[], map[], map[]) && forall o :: !Hooked(o)
    {
      this.heap, this.vptr, originals := heap, vptr, heap;
      hooks := Hooks(map[], map[], map[]);
    }

    /** `getVtableSize`. */
    method GetVtableSize(p: Word) returns (size: nat)
      requires IsTable(heap, p)
      ensures size == Size(heap, p)
    {
      var begin := p.offset;
      while true
        invariant p.offset <= begin <= |heap[p.block]|
        invariant Scan(heap[p.block], p.offset) == begin - p.offset + Scan(heap[p.block], begin)
        decreases |heap[p.block]| - begin
      {
        var word := heap[p.block][begin];
        if IsStop(word) {
          break;
        }
        begin := begin + 1;
      }
      size := begin - p.offset + 2;
    }

    /** `copyVtable`, into a block that was free, and the destructor's word kept. */
    method CopyVtable(o: Obj, index: nat, block: nat)
      requires Valid() && o in vptr && o !in hooks.original && IsTable(originals, vptr[o])
      requires index < |Functions(originals, vptr[o])| && block !in heap
      modifies this
      ensures At() == Attached(old(At()), originals, o, index, block)
    {
      TrueTableStands(heap, originals, vptr[o]);
      var p := vptr[o];
      var size := GetVtableSize(p);
      var words := heap[p.block][p.offset - 2..p.offset - 2 + size] + [Num(0)];
      hooks := hooks.(original := hooks.original[o := p]);
      words := words + [p];
      assert words == GhostOf(originals, p) && words[index + 2] == Functions(originals, p)[index];
      heap := heap[block := words];
      vptr := vptr[o := Ptr(block, 2)];
      hooks := hooks.(ghostBlock := hooks.ghostBlock[o := block]);
      hooks := hooks.(destruct := hooks.destruct[o := words[index + 2]]);
    }

    /** `clearGhostVtable`: the maps forget the object and its block is freed. */
    method ClearGhost(o: Obj) returns (ok: bool)
      modifies this`heap, this`hooks
      ensures ok <==> o in old(hooks.original) && o in old(hooks.ghostBlock)
      ensures ok ==> At() == Forgotten(old(At()), o)
      ensures !ok && o !in old(hooks.original) ==> At() == old(At())
    {
      if o !in hooks.original {
        return false;
      }
      hooks := hooks.(original := hooks.original - {o}, destruct := hooks.destruct - {o});
      if o !in hooks.ghostBlock {
        return false;
      }
      heap := heap - {hooks.ghostBlock[o]};
      hooks := hooks.(ghostBlock := hooks.ghostBlock - {o});
      ok := true;
    }

    /** `hasVtable`. */
    method HasVtable(o: Obj) returns (has: bool)
      requires o in vptr
      ensures has <==> Hooked(o)
    {
      if o !in hooks.ghostBlock {
        return false;
      }
      has := vptr[o] == Ptr(hooks.ghostBlock[o], 2);
    }

    /** A write through the object's pointer, which leads to its ghost. */
    method WriteSlot(o: Obj, i: nat, f: Word)
      requires Valid() && Hooked(o) && i < |Now(o)| && !IsStop(f)
      modifies this`heap
      ensures Valid() && Hooked(o) && OnlyFor(o)
      ensures Now(o) == old(Now(o))[i := f] && Truly(o) == old(Truly(o))
    {
      hide IsGood, NowOf, TrueOf, OthersSame;
      WriteIsLocal(At(), originals, o, i, f);
      var block := hooks.ghostBlock[o];
      heap := heap[block := heap[block][i + 2 := f]];
    }

    /** The copy of a true vtable, with the destructor taken over. */
    method Attach(o: Obj, index: nat, block: nat)
      requires Valid() && o in vptr && o !in hooks.original && IsTable(originals, vptr[o])
      requires Now(o) == Functions(originals, vptr[o]) && index < |Now(o)| && block !in heap
      modifies this
      ensures Valid() && OnlyFor(o) && Hooked(o) && Truly(o) == old(Now(o))
      ensures Now(o) == old(Now(o))[index := AUTO_CLEAN]
      ensures o in hooks.destruct && hooks.destruct[o] == old(Now(o))[index]
    {
      hide IsGood, NowOf, TrueOf, OthersSame, IsHooked, Attached, IsTable;
      ghost var s := At();
      AttachIsLocal(s, originals, o, index, block);
      CopyVtable(o, index, block);
      ghost var t := At();
      WriteSlot(o, index, AUTO_CLEAN);
      OthersChain(s, t, At(), originals, o);
    }

    /** `ensureVtable`; `index` is the destructor's slot and `block` what the allocator gives. */
    method EnsureVtable(o: Obj, index: nat, block: nat)
      requires Valid() && o in vptr && index < |Truly(o)| && block !in heap
      modifies this
      ensures Valid() && OnlyFor(o) && Hooked(o) && Truly(o) == old(Truly(o))
      ensures Now(o) == OnceHooked(old(At()), o, index)
      ensures !old(Hooked(o)) ==> o in hooks.destruct && hooks.destruct[o] == Truly(o)[index]
    {
      ghost var s := At();
      Pointer(s, originals, o);
      hide IsGood, NowOf, TrueOf, OthersSame, IsTable;
      if o in hooks.original {
        if vptr[o] == Ptr(hooks.ghostBlock[o], 2) {
          return;
        }
        ForgetIsLocal(s, originals, o);
        var _ := ClearGhost(o);
      }
      ghost var t := At();
      Attach(o, index, block);
      OthersChain(s, t, At(), originals, o);
    }

    /** `originalFun`. */
    method OriginalFun(o: Obj, offset: nat) returns (fun: Word)
      requires Valid() && o in vptr && (offset <= MAX_OFFSET ==> offset / SLOT_BYTES < |Truly(o)|)
      ensures fun == if Hooked(o) && offset <= 0xFFFF then Truly(o)[offset / 8] else Num(0)
    {
      hide IsGood, NowOf, TrueOf, IsTable, Size, IsStop;
      var has := HasVtable(o);
      if !has {
        return Num(0);
      }
      HookWords(At(), originals, o);
      var size := GetVtableSize(vptr[o]);
      var p := heap[vptr[o].block][vptr[o].offset + size - 1];
      if offset > MAX_OFFSET {
        return Num(0);
      }
      fun := heap[p.block][p.offset + offset / SLOT_BYTES];
    }

    /** The word in an object's slot. */
    method ReadSlot(o: Obj, i: nat) returns (current: Word)
      requires Valid() && o in vptr && i < |Now(o)|
      ensures current == Now(o)[i] && !IsStop(current) && |Truly(o)| == |Now(o)|
      ensures forall f :: f in Truly(o) ==> !IsStop(f)
    {
      SlotWords(At(), originals, o);
      hide IsGood, NowOf, TrueOf, IsTable, Size, IsStop;
      current := heap[vptr[o].block][vptr[o].offset + i];
    }

    /** `resetVfptrFun`. */
    method ResetVfptrFun(o: Obj, offset: nat) returns (current: Word)
      requires Valid() && o in vptr && offset / SLOT_BYTES < |Now(o)|
      modifies this`heap
      ensures Valid() && OnlyFor(o) && Truly(o) == old(Truly(o)) && Hooked(o) == old(Hooked(o))
      ensures |Truly(o)| == |old(Now(o))|
      ensures var i := offset / SLOT_BYTES;
        if Hooked(o) && offset <= MAX_OFFSET then current == old(Now(o))[i] && Now(o) == old(Now(o))[i := Truly(o)[i]]
        else current == Num(0) && Now(o) == old(Now(o))
    {
      hide IsGood, NowOf, TrueOf, IsHooked;
      var i := offset / SLOT_BYTES;
      current := ReadSlot(o, i);
      var original := OriginalFun(o, offset);
      assert Hooked(o) && offset <= MAX_OFFSET ==> Truly(o)[i] in Truly(o);
      if original == Num(0) {
        OthersStay(At(), originals, o);
        return Num(0);
      }
      hide OthersSame;
      WriteSlot(o, i, original);
    }

    /** The word that leads back from a ghost; from a true vtable it is some word past its end, or none. */
    method WayBack(o: Obj) returns (word: Word)
      requires Valid() && o in vptr
      ensures word == Behind(At(), o)
      ensures Hooked(o) ==> o in hooks.original && word == hooks.original[o] && word != Num(0)
    {
      hide IsGood, IsTable, Size, IsHooked;
      BackWord(At(), originals, o);
      var size := GetVtableSize(vptr[o]);
      var last := vptr[o].offset - 2 + size + 1;
      word := if last < |heap[vptr[o].block]| then heap[vptr[o].block][last] else Num(0);
    }

    /**
     * `resetVtable`. An object whose vtable somebody else has put back, while the maps still know it, is turned to
     * whatever lies behind that vtable, unless that is zero.
     */
    method ResetVtable(o: Obj)
      requires Valid() && o in vptr
      modifies this
      ensures old(Hooked(o)) || o !in old(hooks.original) ==>
        && Valid() && OnlyFor(o) && !Hooked(o)
        && Now(o) == Truly(o) == old(Truly(o))
        && o !in hooks.original && o !in hooks.ghostBlock && o !in hooks.destruct
      ensures old(Hooked(o)) ==> o in old(hooks.original) && vptr[o] == old(hooks.original[o])
      ensures !old(Hooked(o)) && o !in old(hooks.original) ==> At() == old(At())
      ensures !old(Hooked(o)) && o in old(hooks.original) ==>
        var word := old(Behind(At(), o));
        && (word == Num(0) ==> At() == old(At()))
        && (word != Num(0) ==>
              && o in old(hooks.ghostBlock) && At() == Forgotten(old(At()), o).(vptr := old(vptr)[o := word])
              && (Valid() <==> IsTable(originals, word)))
    {
      hide IsGood, NowOf, TrueOf, OthersSame, IsHooked, IsTable, Functions, Behind;
      ghost var s := At();
      Pointer(s, originals, o);
      AllKeysAgree(s, originals);
      AfterReset(s, originals, o);
      NotHookedNow(s, originals, o);
      StaleReset(s, originals, o);
      var word := WayBack(o);
      if word == Num(0) {
        return;
      }
      var ok := ClearGhost(o);
      if !ok {
        return;
      }
      vptr := vptr[o := word];
    }

    /** `overrideVfptrFun` of one object, by a function of another or by any function at all. */
    method Override(o: Obj, offset: nat, fun: nat, other: Obj, index: nat, block: nat) returns (ok: bool)
      requires Valid() && o in vptr && index < |Truly(o)| && block !in heap
      requires offset <= MAX_OFFSET ==> offset / SLOT_BYTES < |Truly(o)|
      requires fun <= MAX_OFFSET ==> other in vptr && fun / SLOT_BYTES < |Truly(other)|
      modifies this
      ensures Valid() && OnlyFor(o) && Truly(o) == old(Truly(o)) && Hooked(o) == ok
      ensures ok <==> offset <= 0xFFFF
      ensures !ok ==> Now(o) == old(Truly(o))
      ensures ok ==> Now(o) == Overridden(old(At()), o, offset / SLOT_BYTES, fun, other, index)
    {
      hide IsGood, NowOf, TrueOf, OthersSame, IsStop, IsHooked;
      ghost var s := At();
      SizesAgree(s, originals, o);
      EnsureVtable(o, index, block);
      ghost var t := At();
      HookedFacts(t, originals, o);
      if offset > MAX_OFFSET {
        ResetVtable(o);
        OthersChain(s, t, At(), originals, o);
        return false;
      }
      var chosen := Num(fun);
      if fun <= MAX_OFFSET {
        OtherAsBefore(s, t, originals, o, other);
        chosen := ReadSlot(other, fun / SLOT_BYTES);
      } else {
        assert !IsStop(chosen) by {
          BigIsNoStop(fun);
        }
      }
      WriteSlot(o, offset / SLOT_BYTES, chosen);
      OthersChain(s, t, At(), originals, o);
      ok := true;
    }

    /** `callOriginalFun`: the slot is the true one for the call, and afterwards what it was; `called` is what ran. */
    method CallOriginal(o: Obj, offset: nat) returns (called: Word)
      requires Valid() && Hooked(o) && offset <= MAX_OFFSET && offset / SLOT_BYTES < |Truly(o)|
      modifies this`heap
      ensures Valid() && OnlyFor(o) && Hooked(o)
      ensures called == Truly(o)[offset / SLOT_BYTES] && Truly(o) == old(Truly(o)) && Now(o) == old(Now(o))
    {
      hide IsGood, NowOf, TrueOf, OthersSame, IsStop;
      var i := offset / SLOT_BYTES;
      SizesAgree(At(), originals, o);
      ghost var s := At();
      var oldFun := ResetVfptrFun(o, offset);
      ghost var t := At();
      called := ReadSlot(o, i);
      WriteSlot(o, i, oldFun);
      OthersChain(s, t, At(), originals, o);
    }

    /** Somebody else points the object at a true vtable: a destructor, or a new object at the same address. */
    method Restored(o: Obj, p: Word)
      requires Valid() && o in vptr && IsTable(originals, p)
      modifies this`vptr
      ensures Valid() && OnlyFor(o) && At() == old(At()).(vptr := old(vptr)[o := p])
    {
      PutBackIsLocal(At(), originals, o, p);
      hide IsGood, OthersSame;
      vptr := vptr[o := p];
    }
  }

  /** What lies behind the end of the vtable that an object has, and the zero after that. */
  function Behind(s: State, o: Obj): Word
    requires o in s.vptr && IsTable(s.heap, s.vptr[o])
  {
    var last, words := s.vptr[o].offset + Size(s.heap, s.vptr[o]) - 1, s.heap[s.vptr[o].block];
    if last < |words| then words[last] else Num(0)
  }

  /** A block with a vtable of one function, and a word behind it that leads nowhere. */
  const BLOCK: seq<Word> := [Num(0), Num(0), Num(100), Num(0), Num(5)]

  lemma BehindMayLeadNowhere(s: State, originals: Heap, o: Obj)
    requires o in s.vptr && s.vptr[o] == Ptr(0, 2) && 0 in s.heap && s.heap[0] == BLOCK
    ensures IsTable(s.heap, Ptr(0, 2)) && |Functions(s.heap, Ptr(0, 2))| == 1
    ensures Behind(s, o) == Num(5) && !IsTable(originals, Behind(s, o))
  {
    ScanIs(BLOCK, 2, 1);
  }

  /** An object is hooked, its vtable put back by somebody else, and then it is reset: it points to no vtable now. */
  method StaleResetLeadsNowhere(o: Obj) returns (m: Memory)
    ensures m.originals == map[0 := BLOCK] && o in m.vptr && m.vptr[o] == Num(5) && !m.Valid()
  {
    hide IsGood, NowOf, TrueOf, OthersSame, IsTable, Functions, Behind, IsHooked;
    var heap: Heap, vptr: map<Obj, Word> := map[0 := BLOCK], map[o := Ptr(0, 2)];
    BehindMayLeadNowhere(State(heap, vptr, Hooks(map[], map[], map[])), heap, o);
    m := new Memory(heap, vptr);
    OneFunction(m.At(), heap, o);
    m.EnsureVtable(o, 0, 1);
    PutBackUnhooks(m.At(), heap, o);
    m.Restored(o, Ptr(0, 2));
    BehindMayLeadNowhere(m.At(), heap, o);
    m.ResetVtable(o);
  }

  lemma OneFunction(s: State, originals: Heap, o: Obj)
    requires o in s.vptr && s.vptr[o] == Ptr(0, 2) && 0 in s.heap && s.heap[0] == BLOCK && s.hooks.ghostBlock == map[]
    ensures |TrueOf(s, originals, o)| == 1
  {
    ScanIs(BLOCK, 2, 1);
  }

  /** At its true vtable a hooked object is none, but the maps still know it. */
  lemma PutBackUnhooks(s: State, originals: Heap, o: Obj)
    requires IsGood(s, originals) && IsHooked(s, o) && 0 in originals && originals[0] == BLOCK
    ensures var t := s.(vptr := s.vptr[o := Ptr(0, 2)]);
      && o in s.vptr && IsTable(originals, Ptr(0, 2)) && !IsHooked(t, o) && o in t.hooks.original
      && 0 in t.heap && t.heap[0] == BLOCK
  {
    TableOfBlock(originals);
    AllKeysAgree(s, originals);
    HookBlock(s.hooks, s.heap, originals, o);
    hide AllHooks, AllPointers, HasHook, IsTable;
  }

  lemma TableOfBlock(heap: Heap)
    requires 0 in heap && heap[0] == BLOCK
    ensures IsTable(heap, Ptr(0, 2))
  {
    ScanIs(BLOCK, 2, 1);
  }

  /** Forgetting an object that is not at its ghost, and turning it elsewhere. */
  lemma StaleReset(s: State, originals: Heap, o: Obj)
    requires IsGood(s, originals) && o in s.vptr
    ensures !IsHooked(s, o) && o in s.hooks.original ==>
      && o in s.hooks.ghostBlock
      && forall word ::
           IsGood(Forgotten(s, o).(vptr := s.vptr[o := word]), originals) <==> IsTable(originals, word)
  {
    Pointer(s, originals, o);
    if !IsHooked(s, o) && o in s.hooks.original {
      ForgetIsLocal(s, originals, o);
      var t := Forgotten(s, o);
      forall word ensures IsGood(t.(vptr := s.vptr[o := word]), originals) <==> IsTable(originals, word) {
        TurnedIsGoodIff(t, originals, o, word);
      }
    }
  }

  lemma TurnedIsGoodIff(s: State, originals: Heap, o: Obj, p: Word)
    requires IsGood(s, originals) && o in s.vptr && o !in s.hooks.original
    ensures IsGood(s.(vptr := s.vptr[o := p]), originals) <==> IsTable(originals, p)
  {
    KeysAgree(s.hooks, s.heap, originals);
    hide AllHooks, OriginalsStand;
    if IsTable(originals, p) {
      PointersTo(s.hooks, s.vptr, originals, o, p);
    } else {
      var vptr := s.vptr[o := p];
      assert o in vptr && !IsAtGhost(s.hooks, vptr, o) && vptr[o] == p;
    }
  }

  lemma BackWord(s: State, originals: Heap, o: Obj)
    requires IsGood(s, originals) && o in s.vptr
    ensures s.vptr[o].Ptr? && s.vptr[o].block in s.heap && s.vptr[o].offset >= 2 && IsTable(s.heap, s.vptr[o])
    ensures var last, words := s.vptr[o].offset + Size(s.heap, s.vptr[o]) - 1, s.heap[s.vptr[o].block];
      IsHooked(s, o) ==>
        o in s.hooks.original && last < |words| && words[last] == s.hooks.original[o] && words[last].Ptr?
  {
    SlotWords(s, originals, o);
    if IsHooked(s, o) {
      HookWords(s, originals, o);
    }
  }

  lemma BigIsNoStop(fun: nat)
    requires fun > MAX_OFFSET
    ensures !IsStop(Num(fun))
  {
  }

  lemma HookedFacts(s: State, originals: Heap, o: Obj)
    requires IsGood(s, originals) && IsHooked(s, o)
    ensures o in s.vptr && o in s.hooks.original && |NowOf(s, o)| == |TrueOf(s, originals, o)|
  {
    HookWords(s, originals, o);
    SlotWords(s, originals, o);
  }

  /** What an object has, or has after its own hook is made. */
  lemma OtherAsBefore(s: State, t: State, originals: Heap, o: Obj, other: Obj)
    requires OthersSame(s, t, originals, o) && IsGood(t, originals) && other in s.vptr
    ensures other in t.vptr && |NowOf(t, other)| == |TrueOf(t, originals, other)|
    ensures other != o ==>
              NowOf(t, other) == NowOf(s, other) && TrueOf(t, originals, other) == TrueOf(s, originals, other)
  {
    if other != o {
      assert IsSame(s, t, originals, other);
    }
    hide IsGood, NowOf, TrueOf;
    SizesAgree(t, originals, other);
  }

  lemma SizesAgree(s: State, originals: Heap, o: Obj)
    requires IsGood(s, originals) && o in s.vptr
    ensures |NowOf(s, o)| == |TrueOf(s, originals, o)|
    ensures forall i :: 0 <= i < |NowOf(s, o)| ==> !IsStop(NowOf(s, o)[i])
  {
    SlotWords(s, originals, o);
  }

  lemma OthersStay(s: State, originals: Heap, o: Obj)
    ensures OthersSame(s, s, originals, o)
  {
  }

  /** Where an object's pointer leads. */
  lemma Pointer(s: State, originals: Heap, o: Obj)
    requires IsGood(s, originals) && o in s.vptr
    ensures o in s.hooks.original <==> o in s.hooks.ghostBlock
    ensures IsHooked(s, o) ==> o in s.hooks.original
    ensures !IsHooked(s, o) ==>
      IsTable(originals, s.vptr[o]) && TrueOf(s, originals, o) == NowOf(s, o) == Functions(originals, s.vptr[o])
    ensures OthersSame(s, s, originals, o)
  {
    hide HasHook;
    if !IsHooked(s, o) {
      TrueTableStands(s.heap, originals, s.vptr[o]);
    }
  }

  lemma NotHookedNow(s: State, originals: Heap, o: Obj)
    ensures o !in s.hooks.ghostBlock ==> !IsHooked(s, o)
    ensures !IsHooked(s, o) ==> TrueOf(s, originals, o) == NowOf(s, o)
  {
  }

  lemma AfterReset(s: State, originals: Heap, o: Obj)
    requires IsGood(s, originals)
    ensures IsHooked(s, o) ==>
      && o in s.vptr && o in s.hooks.original && o in s.hooks.ghostBlock
      && var hooks := Hooks(s.hooks.original - {o}, s.hooks.ghostBlock - {o}, s.hooks.destruct - {o});
      && var t := State(s.heap - {s.hooks.ghostBlock[o]}, s.vptr[o := s.hooks.original[o]], hooks);
      && IsGood(t, originals) && !IsHooked(t, o) && OthersSame(s, t, originals, o)
      && NowOf(t, o) == TrueOf(t, originals, o) == TrueOf(s, originals, o)
  {
    if IsHooked(s, o) {
      ResetIsLocal(s, originals, o);
      var t := Forgotten(s.(vptr := s.vptr[o := s.hooks.original[o]]), o);
      hide IsGood, NowOf, TrueOf, OthersSame;
      NotHookedNow(t, originals, o);
    }
  }

  lemma AllKeysAgree(s: State, originals: Heap)
    requires IsGood(s, originals)
    ensures s.hooks.original.Keys == s.hooks.ghostBlock.Keys == s.hooks.destruct.Keys
  {
  }

  lemma TableSlots(heap: Heap, p: Word)
    requires IsTable(heap, p)
    ensures p.offset + |Slots(heap, p)| < |heap[p.block]| && Size(heap, p) == |Slots(heap, p)| + 2
    ensures forall i :: 0 <= i < |Slots(heap, p)| ==>
      Slots(heap, p)[i] == heap[p.block][p.offset + i] && !IsStop(Slots(heap, p)[i])
  {
  }

  lemma TruePointer(s: State, originals: Heap, o: Obj) returns (p: Word)
    requires IsGood(s, originals) && o in s.vptr
    ensures IsTable(originals, p) && TrueOf(s, originals, o) == Slots(originals, p)
    ensures IsHooked(s, o) ==> o in s.hooks.original && p == s.hooks.original[o]
    ensures p.block in s.heap && s.heap[p.block] == originals[p.block]
  {
    PointsAt(s.hooks, s.vptr, s.heap, originals, o);
    hide IsGhostOf, Slots;
    if IsHooked(s, o) {
      p := s.hooks.original[o];
    } else {
      p := s.vptr[o];
      TrueSlots(s.heap, originals, p);
    }
  }

  /** The words a pointer leads to are the object's functions, and none ends a table. */
  lemma SlotWords(s: State, originals: Heap, o: Obj)
    requires IsGood(s, originals) && o in s.vptr
    ensures IsTable(s.heap, s.vptr[o]) && Size(s.heap, s.vptr[o]) == |NowOf(s, o)| + 2
    ensures |NowOf(s, o)| == |TrueOf(s, originals, o)|
    ensures s.vptr[o].Ptr? && s.vptr[o].block in s.heap && s.vptr[o].offset >= 2
    ensures s.vptr[o].offset + |NowOf(s, o)| < |s.heap[s.vptr[o].block]|
    ensures forall i :: 0 <= i < |NowOf(s, o)| ==>
      NowOf(s, o)[i] == s.heap[s.vptr[o].block][s.vptr[o].offset + i] && !IsStop(NowOf(s, o)[i])
    ensures forall i :: 0 <= i < |TrueOf(s, originals, o)| ==> !IsStop(TrueOf(s, originals, o)[i])
  {
    HookedHasSameSize(s, originals, o);
    var p := TruePointer(s, originals, o);
    hide IsGood, Slots, TrueOf, IsTable;
    TableSlots(s.heap, s.vptr[o]);
    TableSlots(originals, p);
  }

  /** The last word of a ghost leads back to the true vtable. */
  lemma HookWords(s: State, originals: Heap, o: Obj)
    requires IsGood(s, originals) && IsHooked(s, o)
    ensures o in s.vptr && o in s.hooks.original && IsTable(s.heap, s.vptr[o])
    ensures s.vptr[o].Ptr? && s.vptr[o].block in s.heap && s.vptr[o].offset >= 2
    ensures var p, size, words := s.hooks.original[o], Size(s.heap, s.vptr[o]), s.heap[s.vptr[o].block];
      && s.vptr[o].offset + size - 1 < |words| && words[s.vptr[o].offset + size - 1] == p
      && p.Ptr? && p.block in s.heap && p.offset + |TrueOf(s, originals, o)| < |s.heap[p.block]|
      && forall i :: 0 <= i < |TrueOf(s, originals, o)| ==>
           s.heap[p.block][p.offset + i] == TrueOf(s, originals, o)[i]
  {
    PointsAt(s.hooks, s.vptr, s.heap, originals, o);
    GhostIsTable(s.hooks, o, s.heap, originals);
    var p := TruePointer(s, originals, o);
    assert Size(s.heap, s.vptr[o]) == Size(originals, p);
    hide IsGood, Slots, TrueOf, IsTable, AllHooks, AllPointers;
    TableSlots(originals, p);
  }
}
