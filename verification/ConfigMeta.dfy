/**
 * Layered configuration: the values a meta file describes, and the override files that change them, applied one after
 * another until the first one that does not fit.
 */
module ConfigMeta {
  import opened Basics

  type Variant(==,!new)

  datatype Version = Version(major: nat, minor: nat)

  const SUPPORTED_MAJOR := 1
  const MAGIC_META := "dsg.config.meta"
  const MAGIC_OVERRIDE := "dsg.config.override"

  /** One entry of a file's contents; a field that is not there is None. */
  datatype Item = Item(
    value: Option<Variant>,
    serial: Option<int>,
    readWrite: Option<bool>,
    noOverride: bool,
    isGlobal: bool)

  type Contents = seq<(string, Item)>

  /** A file as parsed; one that is no JSON object has nothing to say. */
  datatype File = NoObject | File(magic: string, version: Version, contents: Contents)

  predicate VersionIsValid(v: Version) {
    v.major > 0 || v.minor > 0
  }

  /** `parseVersion`, on the parts between dots: two numbers, or nothing that counts. */
  function ParsedVersion(parts: seq<string>, number: string -> Option<nat>): Version {
    if |parts| == 2 && number(parts[0]).Some? && number(parts[1]).Some?
    then Version(number(parts[0]).value, number(parts[1]).value)
    else Version(0, 0)
  }

  /**
   * The versions a meta file may have: two numbers, the first of them 1, or 0 with some minor version. Anything else
   * that may stand there is refused.
   */
  lemma AcceptedVersions(magic: string, parts: seq<string>, number: string -> Option<nat>, contents: Contents)
    ensures IsMeta(File(magic, ParsedVersion(parts, number), contents))
            <==> magic == "dsg.config.meta" && |parts| == 2 && number(parts[1]).Some?
                 && (number(parts[0]) == Some(1) || (number(parts[0]) == Some(0) && number(parts[1]) != Some(0)))
  {
  }

  /** An override file is for meta files of its own major version. */
  lemma AcceptedOverrides(magic: string, parts: seq<string>, number: string -> Option<nat>, contents: Contents,
                          version: Version)
    ensures IsOverride(File(magic, ParsedVersion(parts, number), contents), version)
            <==> magic == "dsg.config.override" && |parts| == 2 && number(parts[1]).Some?
                 && number(parts[0]) == Some(version.major) && (version.major == 0 ==> number(parts[1]) != Some(0))
  {
  }

  /** Keys of a JSON object are distinct. */
  ghost predicate KeysDiffer(contents: Contents) {
    forall i, j :: 0 <= i < j < |contents| ==> contents[i].0 != contents[j].0
  }

  function ItemOf(contents: Contents, key: string): (r: Option<Item>)
    ensures r.Some? ==> (key, r.value) in contents
    ensures r.None? ==> forall i :: 0 <= i < |contents| ==> contents[i].0 != key
  {
    if contents == [] then None
    else if contents[0].0 == key then Some(contents[0].1)
    else ItemOf(contents[1..], key)
  }

  predicate AllHaveValues(contents: Contents) {
    forall i :: 0 <= i < |contents| ==> contents[i].1.value.Some?
  }

  // ---- What loading is to give ----

  predicate IsMeta(file: File) {
    && file.File? && file.magic == MAGIC_META
    && VersionIsValid(file.version) && file.version.major <= SUPPORTED_MAJOR
  }

  predicate IsOverride(file: File, version: Version) {
    && file.File? && file.magic == MAGIC_OVERRIDE
    && VersionIsValid(file.version) && file.version.major == version.major
  }

  /** The override files that count: up to the first object of another kind or version. */
  function Applied(overrides: seq<File>, version: Version): seq<File> {
    if overrides == [] then []
    else if overrides[0].NoObject? then Applied(overrides[1..], version)
    else if !IsOverride(overrides[0], version) then []
    else [overrides[0]] + Applied(overrides[1..], version)
  }

  /** The last item for a key among override files. */
  function LastItem(files: seq<File>, key: string): Option<Item> {
    if files == [] then None
    else
      var last := files[|files| - 1];
      if last.File? && ItemOf(last.contents, key).Some? then ItemOf(last.contents, key)
      else LastItem(files[..|files| - 1], key)
  }

  function LastSerial(files: seq<File>, key: string): Option<int> {
    if files == [] then None
    else
      var last := files[|files| - 1];
      if last.File? && ItemOf(last.contents, key).Some? && ItemOf(last.contents, key).value.serial.Some?
      then ItemOf(last.contents, key).value.serial
      else LastSerial(files[..|files| - 1], key)
  }

  function LastPermission(files: seq<File>, key: string): Option<bool> {
    if files == [] then None
    else
      var last := files[|files| - 1];
      if last.File? && ItemOf(last.contents, key).Some? && ItemOf(last.contents, key).value.readWrite.Some?
      then ItemOf(last.contents, key).value.readWrite
      else LastPermission(files[..|files| - 1], key)
  }

  function Or<T>(a: Option<T>, b: Option<T>): Option<T> {
    if a.Some? then a else b
  }

  /** A meta item under override files: each field by the last file that gives it, unless overriding is forbidden. */
  function Overridden(item: Item, files: seq<File>, key: string): Item {
    if item.noOverride then item
    else
      var value := if LastItem(files, key).Some? then LastItem(files, key).value.value else item.value;
      item.(value := value, serial := Or(LastSerial(files, key), item.serial),
            readWrite := Or(LastPermission(files, key), item.readWrite))
  }

  /** Every override of an overridable key comes with a value. */
  ghost predicate OverridesHaveValues(files: seq<File>, meta: Contents) {
    forall f :: f in files && f.File? ==> ItemsHaveValues(f.contents, meta)
  }

  ghost predicate ItemsHaveValues(contents: Contents, meta: Contents) {
    forall i :: 0 <= i < |contents| ==> ItemHasValue(contents[i], meta)
  }

  predicate ItemHasValue(entry: (string, Item), meta: Contents) {
    var item := ItemOf(meta, entry.0);
    item.Some? && !item.value.noOverride ==> entry.1.value.Some?
  }

  // ---- Loading ----

  /** An entry under one override. */
  function WithItem(entry: Item, item: Option<Item>): Item {
    if item.None? || entry.noOverride then entry
    else entry.(value := item.value.value, serial := Or(item.value.serial, entry.serial),
                readWrite := Or(item.value.readWrite, entry.readWrite))
  }

  lemma OneMoreFile(item: Item, files: seq<File>, file: File, key: string)
    requires file.File?
    ensures Overridden(item, files + [file], key) == WithItem(Overridden(item, files, key), ItemOf(file.contents, key))
  {
    assert (files + [file])[..|files|] == files;
  }

  /** What a file says of a key, if it says anything. */
  function SaidBy(file: File, key: string): Option<Item> {
    if file.File? then ItemOf(file.contents, key) else None
  }

  predicate SaysSerial(file: File, key: string) {
    SaidBy(file, key).Some? && SaidBy(file, key).value.serial.Some?
  }

  predicate SaysPermission(file: File, key: string) {
    SaidBy(file, key).Some? && SaidBy(file, key).value.readWrite.Some?
  }

  lemma {:induction false} LastItemIs(files: seq<File>, key: string, i: nat)
    requires i < |files| && SaidBy(files[i], key).Some? && forall j :: i < j < |files| ==> SaidBy(files[j], key).None?
    ensures LastItem(files, key) == SaidBy(files[i], key)
    decreases |files|
  {
    if i < |files| - 1 {
      LastItemIs(files[..|files| - 1], key, i);
    }
  }

  lemma {:induction false} LastSerialIs(files: seq<File>, key: string, i: nat)
    requires i < |files| && SaysSerial(files[i], key) && forall j :: i < j < |files| ==> !SaysSerial(files[j], key)
    ensures LastSerial(files, key) == SaidBy(files[i], key).value.serial
    decreases |files|
  {
    if i < |files| - 1 {
      LastSerialIs(files[..|files| - 1], key, i);
    }
  }

  lemma {:induction false} LastPermissionIs(files: seq<File>, key: string, i: nat)
    requires i < |files| && SaysPermission(files[i], key)
    requires forall j :: i < j < |files| ==> !SaysPermission(files[j], key)
    ensures LastPermission(files, key) == SaidBy(files[i], key).value.readWrite
    decreases |files|
  {
    if i < |files| - 1 {
      LastPermissionIs(files[..|files| - 1], key, i);
    }
  }

  lemma {:induction false} NobodySays(files: seq<File>, key: string)
    ensures (forall j :: 0 <= j < |files| ==> SaidBy(files[j], key).None?) ==> LastItem(files, key) == None
    ensures (forall j :: 0 <= j < |files| ==> !SaysSerial(files[j], key)) ==> LastSerial(files, key) == None
    ensures (forall j :: 0 <= j < |files| ==> !SaysPermission(files[j], key)) ==> LastPermission(files, key) == None
    decreases |files|
  {
    if files != [] {
      NobodySays(files[..|files| - 1], key);
    }
  }

  /**
   * Each field of an entry that may be overridden is that of the last file that says it, and the meta file's own if
   * none does, every field by itself; its flags are always those of the meta file, and so is all of an entry that may
   * not be overridden.
   */
  lemma EachFieldByItself(item: Item, files: seq<File>, key: string, v: nat, s: nat, p: nat)
    requires v < |files| ==> SaidBy(files[v], key).Some?
    requires forall j :: (if v < |files| then v else -1) < j < |files| ==> SaidBy(files[j], key).None?
    requires s < |files| ==> SaysSerial(files[s], key)
    requires forall j :: (if s < |files| then s else -1) < j < |files| ==> !SaysSerial(files[j], key)
    requires p < |files| ==> SaysPermission(files[p], key)
    requires forall j :: (if p < |files| then p else -1) < j < |files| ==> !SaysPermission(files[j], key)
    ensures var r := Overridden(item, files, key);
      && r.noOverride == item.noOverride && r.isGlobal == item.isGlobal
      && (item.noOverride ==> r == item)
      && (!item.noOverride ==>
            && r.value == (if v < |files| then SaidBy(files[v], key).value.value else item.value)
            && r.serial == (if s < |files| then SaidBy(files[s], key).value.serial else item.serial)
            && r.readWrite == (if p < |files| then SaidBy(files[p], key).value.readWrite else item.readWrite))
  {
    NobodySays(files, key);
    if v < |files| {
      LastItemIs(files, key, v);
    }
    if s < |files| {
      LastSerialIs(files, key, s);
    }
    if p < |files| {
      LastPermissionIs(files, key, p);
    }
  }

  /** What the entries are once some files are applied. */
  ghost predicate HoldsMeta(values: map<string, Item>, contents: Contents, files: seq<File>) {
    && (forall k :: k in values <==> ItemOf(contents, k).Some?)
    && (forall k :: k in values ==> values[k] == Overridden(ItemOf(contents, k).value, files, k))
  }

  lemma {:induction false} ItemIsThere(contents: Contents, i: nat)
    requires KeysDiffer(contents) && i < |contents|
    ensures ItemOf(contents, contents[i].0) == Some(contents[i].1)
  {
    if i > 0 {
      assert contents[0].0 != contents[i].0;
      forall j, k | 0 <= j < k < |contents| - 1
        ensures contents[1..][j].0 != contents[1..][k].0
      {
        assert contents[1 + j].0 != contents[1 + k].0;
      }
      ItemIsThere(contents[1..], i - 1);
    }
  }

  lemma {:induction false} ItemOfFirst(contents: Contents, i: nat, key: string)
    requires KeysDiffer(contents) && i < |contents|
    ensures ItemOf(contents[..i + 1], key)
         == if key == contents[i].0 then Some(contents[i].1) else ItemOf(contents[..i], key)
    ensures ItemOf(contents[..i], contents[i].0).None?
  {
    if i == 0 {
      assert contents[..1][1..] == [] && contents[..1][0] == contents[0];
    } else {
      var rest := contents[1..];
      forall j, k | 0 <= j < k < |rest|
        ensures rest[j].0 != rest[k].0
      {
        assert contents[1 + j].0 != contents[1 + k].0;
      }
      assert contents[0].0 != contents[i].0;
      assert contents[..i + 1][1..] == rest[..i] && contents[..i][1..] == rest[..i - 1];
      ItemOfFirst(rest, i - 1, key);
    }
  }

  class Meta {
    var values: map<string, Item>
    var version: Version

    constructor ()
      ensures values == map[]
    {
      values, version := map[], Version(0, 0);
    }

    /** The entries as the meta file gives them; a key without a value fails. */
    method Fill(contents: Contents) returns (ok: bool)
      requires KeysDiffer(contents) && values == map[]
      modifies this`values
      ensures ok <==> AllHaveValues(contents)
      ensures ok ==> HoldsMeta(values, contents, [])
    {
      for i := 0 to |contents|
        invariant AllHaveValues(contents[..i]) && HoldsMeta(values, contents[..i], [])
      {
        var entry := contents[i];
        if entry.1.value.None? {
          return false;
        }
        forall k {
          ItemOfFirst(contents, i, k);
        }
        values := values[entry.0 := entry.1];
      }
      assert contents[..|contents|] == contents;
      ok := true;
    }

    /** One overriding item, field by field. */
    method OverrideOne(key: string, item: Item) returns (ok: bool)
      modifies this`values
      ensures ok <==> Fits((key, item), old(values))
      ensures values == if ok && key in old(values) then old(values)[key := WithItem(old(values)[key], Some(item))]
                        else old(values)
    {
      ok := true;
      if key !in values {
        return;
      }
      if values[key].noOverride {
        assert values == values[key := values[key]];
        return;
      }
      if item.value.None? {
        return false;
      }
      var entry := values[key].(value := item.value);
      if item.serial.Some? {
        entry := entry.(serial := item.serial);
      }
      if item.readWrite.Some? {
        entry := entry.(readWrite := item.readWrite);
      }
      values := values[key := entry];
    }

    /** One override file, key by key; an override without a value fails. */
    method Override(contents: Contents) returns (ok: bool)
      requires KeysDiffer(contents)
      modifies this`values
      ensures ok <==> forall i :: 0 <= i < |contents| ==> Fits(contents[i], old(values))
      ensures values.Keys == old(values).Keys
      ensures ok ==> forall k :: k in values ==> values[k] == WithItem(old(values)[k], ItemOf(contents, k))
    {
      hide KeysDiffer, ItemOf;
      ghost var before := values;
      NoItems();
      for i := 0 to |contents|
        invariant forall j :: 0 <= j < i ==> Fits(contents[j], before)
        invariant values.Keys == before.Keys
        invariant forall k :: k in values ==> values[k] == WithItem(before[k], ItemOf(contents[..i], k))
      {
        var key, item := contents[i].0, contents[i].1;
        forall k {
          ItemOfFirst(contents, i, k);
        }
        SameFit(contents[i], values, before);
        ok := OverrideOne(key, item);
        if !ok {
          return;
        }
      }
      assert contents[..|contents|] == contents;
      ok := true;
    }

    /** `load`: the meta file, then the override files until one does not fit. */
    method Load(meta: File, overrides: seq<File>) returns (ok: bool)
      requires values == map[]
      requires meta.File? ==> KeysDiffer(meta.contents)
      requires forall f :: f in overrides && f.File? ==> KeysDiffer(f.contents)
      modifies this
      ensures ok <==> IsMeta(meta) && AllHaveValues(meta.contents)
                      && OverridesHaveValues(Applied(overrides, meta.version), meta.contents)
      ensures ok ==> version == meta.version
                     && HoldsMeta(values, meta.contents, Applied(overrides, meta.version))
    {
      if !IsMeta(meta) {
        return false;
      }
      version := meta.version;
      ok := Fill(meta.contents);
      if !ok {
        return;
      }
      ok := ApplyAll(meta.contents, overrides);
    }

    /** The override files, in order, until one is for something else. */
    method ApplyAll(ghost meta: Contents, overrides: seq<File>) returns (ok: bool)
      requires HoldsMeta(values, meta, [])
      requires forall f :: f in overrides && f.File? ==> KeysDiffer(f.contents)
      modifies this`values
      ensures ok <==> OverridesHaveValues(Applied(overrides, version), meta)
      ensures ok ==> HoldsMeta(values, meta, Applied(overrides, version))
    {
      hide HoldsMeta, ItemsHaveValues, KeysDiffer;
      ghost var done: seq<File> := [];
      ghost var all := Applied(overrides, version);
      for i := 0 to |overrides|
        invariant done + Applied(overrides[i..], version) == all
        invariant OverridesHaveValues(done, meta) && HoldsMeta(values, meta, done)
      {
        var file := overrides[i];
        NextApplied(overrides, i, version);
        if file.File? {
          if !IsOverride(file, version) {
            break;
          }
          ghost var before := values;
          FitsItsMeta(before, meta, done, file.contents);
          ok := Override(file.contents);
          if !ok {
            assert file in all;
            return;
          }
          OneMoreApplied(before, values, meta, done, file);
          done := done + [file];
        }
      }
      assert done == all;
      ok := true;
    }
  }

  lemma NextApplied(overrides: seq<File>, i: nat, version: Version)
    requires i < |overrides|
    ensures Applied(overrides[i..], version)
         == if overrides[i].NoObject? then Applied(overrides[i + 1..], version)
            else if !IsOverride(overrides[i], version) then []
            else [overrides[i]] + Applied(overrides[i + 1..], version)
  {
    assert overrides[i..][0] == overrides[i] && overrides[i..][1..] == overrides[i + 1..];
  }

  predicate Fits(entry: (string, Item), values: map<string, Item>) {
    entry.0 in values && !values[entry.0].noOverride ==> entry.1.value.Some?
  }

  lemma NoItems()
    ensures forall k :: ItemOf([], k) == None
  {
  }

  /** Whether an item fits depends on the keys and on what forbids overriding only. */
  lemma SameFit(entry: (string, Item), values: map<string, Item>, before: map<string, Item>)
    requires values.Keys == before.Keys
    requires entry.0 in values ==> values[entry.0].noOverride == before[entry.0].noOverride
    ensures Fits(entry, values) <==> Fits(entry, before)
  {
  }

  lemma FitsItsMeta(values: map<string, Item>, meta: Contents, files: seq<File>, contents: Contents)
    requires HoldsMeta(values, meta, files)
    ensures (forall i :: 0 <= i < |contents| ==> Fits(contents[i], values)) <==> ItemsHaveValues(contents, meta)
  {
    forall i | 0 <= i < |contents|
      ensures Fits(contents[i], values) <==> ItemHasValue(contents[i], meta)
    {
    }
  }

  lemma OneMoreApplied(before: map<string, Item>, values: map<string, Item>, meta: Contents, files: seq<File>,
                       file: File)
    requires file.File? && HoldsMeta(before, meta, files) && values.Keys == before.Keys
    requires forall k :: k in values ==> values[k] == WithItem(before[k], ItemOf(file.contents, k))
    ensures HoldsMeta(values, meta, files + [file])
  {
    forall k | k in values
      ensures values[k] == Overridden(ItemOf(meta, k).value, files + [file], k)
    {
      OneMoreFile(ItemOf(meta, k).value, files, file, k);
    }
  }
}
