/**
 * Configuration values as they are read and written: each user has a cache, global keys share one, and what is read
 * is the cached value where one may be written and counts, the loaded value otherwise.
 */
module ConfigFile {
  import opened Basics
  import opened ConfigMeta

  type Uid = nat

  type Loaded = map<string, Item>

  datatype Entry = Entry(value: Variant, serial: int)

  type Values = map<string, Entry>

  /** How a value is made to fit the type of the loaded one, or refused. */
  type Fitting = (Variant, Variant) -> Option<Variant>

  // ---- What the loaded configuration says ----

  function LoadedValue(meta: Loaded, key: string): Option<Variant> {
    if key in meta then meta[key].value else None
  }

  function Serial(meta: Loaded, key: string): int {
    if key in meta && meta[key].serial.Some? then meta[key].serial.value else -1
  }

  predicate IsWritable(meta: Loaded, key: string) {
    key in meta && meta[key].readWrite == Some(true)
  }

  predicate IsGlobal(meta: Loaded, key: string) {
    key in meta && meta[key].isGlobal
  }

  // ---- Caches ----

  predicate CheckSerial(metaSerial: int, cacheSerial: int) {
    cacheSerial < 0 || (metaSerial >= 0 && metaSerial == cacheSerial)
  }

  function CachedSerial(values: Values, key: string): int {
    if key in values then values[key].serial else -1
  }

  class Cache {
    var values: Values

    constructor ()
      ensures values == map[]
    {
      values := map[];
    }

    method Remove(key: string)
      modifies this
      ensures values == old(values) - {key}
    {
      values := values - {key};
    }

    /** `setValue`: nothing changes if value and serial are there already. */
    method SetValue(key: string, value: Variant, serial: int) returns (changed: bool)
      modifies this
      ensures changed <==> !(key in old(values) && old(values)[key].value == value
                             && CheckSerial(old(values)[key].serial, serial))
      ensures values == if changed then old(values)[key := Entry(value, serial)] else old(values)
    {
      if key in values && values[key].value == value && CheckSerial(CachedSerial(values, key), serial) {
        return false;
      }
      values := values[key := Entry(value, serial)];
      changed := true;
    }
  }

  /** A cache after a call of `setValue` of the file; None takes the key out. */
  function Stored(values: Values, meta: Loaded, fit: Fitting, key: string, value: Option<Variant>): Values {
    if value.None? then values - {key}
    else
      var own := LoadedValue(meta, key);
      var fitted := if own.None? then None else fit(own.value, value.value);
      if fitted.None? then values
      else if key in values && values[key].value == fitted.value && CheckSerial(values[key].serial, Serial(meta, key))
      then values
      else values[key := Entry(fitted.value, Serial(meta, key))]
  }

  /** What `setValue` returns: a reset always works, a write if the value fits and is not there already. */
  predicate Accepts(values: Values, meta: Loaded, fit: Fitting, key: string, value: Option<Variant>) {
    value.None? ||
    var own := LoadedValue(meta, key);
    var fitted := if own.None? then None else fit(own.value, value.value);
    && fitted.Some?
    && !(key in values && values[key].value == fitted.value && CheckSerial(values[key].serial, Serial(meta, key)))
  }

  /** A write is said to have changed something exactly if it has; a reset always is. */
  lemma SaysWhetherChanged(values: Values, meta: Loaded, fit: Fitting, key: string, value: Option<Variant>)
    ensures Accepts(values, meta, fit, key, value)
            <==> value.None? || Stored(values, meta, fit, key, value) != values
  {
    var after := Stored(values, meta, fit, key, value);
    if value.Some? && Accepts(values, meta, fit, key, value) {
      assert key in after && (key in values ==> after[key] != values[key]);
    }
  }

  /** What is read of a cache, if anything. */
  function CachedValue(values: Values, meta: Loaded, key: string): Option<Variant> {
    if IsWritable(meta, key) && key in values && CheckSerial(Serial(meta, key), values[key].serial)
    then Some(values[key].value) else None
  }

  class File {
    const meta: Loaded
    const globalCache: Cache

    constructor (meta: Loaded)
      ensures this.meta == meta && fresh(globalCache) && globalCache.values == map[]
    {
      this.meta := meta;
      globalCache := new Cache();
    }

    method GetCache(key: string, userCache: Cache?) returns (cache: Cache?)
      ensures cache == if IsGlobal(meta, key) then globalCache else userCache
    {
      if IsGlobal(meta, key) {
        return globalCache;
      }
      cache := userCache;
    }

    /** `setValue`; without a cache to write to nothing happens. */
    method SetValue(key: string, value: Option<Variant>, userCache: Cache?, fit: Fitting) returns (ok: bool)
      requires userCache != globalCache
      modifies globalCache, userCache
      ensures IsGlobal(meta, key) ==>
        && globalCache.values == Stored(old(globalCache.values), meta, fit, key, value)
        && (userCache != null ==> userCache.values == old(userCache.values))
      ensures !IsGlobal(meta, key) ==>
        && globalCache.values == old(globalCache.values)
        && (userCache != null ==> userCache.values == Stored(old(userCache.values), meta, fit, key, value))
      ensures var cache := if IsGlobal(meta, key) then globalCache else userCache;
        ok <==> cache != null && Accepts(old(cache.values), meta, fit, key, value)
    {
      var cache := GetCache(key, userCache);
      if cache == null {
        return false;
      }
      if value.None? {
        cache.Remove(key);
        return true;
      }
      var own := LoadedValue(meta, key);
      if own.None? {
        return false;
      }
      var copy := fit(own.value, value.value);
      if copy.None? {
        return false;
      }
      ok := cache.SetValue(key, copy.value, Serial(meta, key));
    }

    method CacheValue(userCache: Cache?, key: string) returns (value: Option<Variant>)
      ensures var cache := if IsGlobal(meta, key) then globalCache else userCache;
        value == if cache == null then None else CachedValue(cache.values, meta, key)
    {
      if IsWritable(meta, key) {
        var cache := GetCache(key, userCache);
        if cache != null {
          if CheckSerial(Serial(meta, key), CachedSerial(cache.values, key)) {
            return if key in cache.values then Some(cache.values[key].value) else None;
          }
        }
      }
      value := None;
    }

    method Value(key: string, userCache: Cache?) returns (value: Option<Variant>)
      ensures var cache := if IsGlobal(meta, key) then globalCache else userCache;
        value == Or(if cache == null then None else CachedValue(cache.values, meta, key), LoadedValue(meta, key))
    {
      value := CacheValue(userCache, key);
      if value.Some? {
        return;
      }
      value := LoadedValue(meta, key);
    }
  }

  // ---- Over runs ----

  /** A write, or a reset where the value is None, by some user. */
  datatype Call = Call(uid: Uid, key: string, value: Option<Variant>)

  /** A call, and what was loaded when it was made: caches outlive what is loaded, which may change between calls. */
  datatype Event = Event(meta: Loaded, call: Call)

  datatype State = State(shared: Values, users: map<Uid, Values>)

  function UserValues(s: State, uid: Uid): Values {
    if uid in s.users then s.users[uid] else map[]
  }

  function Next(s: State, fit: Fitting, e: Event): State {
    var c := e.call;
    if IsGlobal(e.meta, c.key) then s.(shared := Stored(s.shared, e.meta, fit, c.key, c.value))
    else s.(users := s.users[c.uid := Stored(UserValues(s, c.uid), e.meta, fit, c.key, c.value)])
  }

  function Run(fit: Fitting, events: seq<Event>): State {
    if events == [] then State(map[], map[])
    else Next(Run(fit, events[..|events| - 1]), fit, events[|events| - 1])
  }

  function Read(s: State, meta: Loaded, key: string, uid: Uid): Option<Variant> {
    Or(CachedValue(if IsGlobal(meta, key) then s.shared else UserValues(s, uid), meta, key), LoadedValue(meta, key))
  }

  // ---- What is read after a run ----

  /** The serial that a configuration gives for a key, if it gives one. */
  function Given(meta: Loaded, key: string): Option<int> {
    if key in meta && meta[key].serial.Some? && meta[key].serial.value >= 0 then meta[key].serial else None
  }

  /** `Some(uid)` is the cache of a user, None the one that all share. */
  function Owner(meta: Loaded, key: string, uid: Uid): Option<Uid> {
    if key in meta && meta[key].isGlobal then None else Some(uid)
  }

  /** A written value, and the serial for which it counts; None if it counts for all. */
  datatype Kept = Kept(value: Variant, serial: Option<int>)

  /**
   * What calls leave of a key in a cache: nothing after a reset, and otherwise the last value that fits, for the
   * serial given when it was written. Where none was given and the value was there already, the old serial stays.
   */
  function LastWrite(events: seq<Event>, fit: Fitting, key: string, owner: Option<Uid>): Option<Kept> {
    if events == [] then None
    else
      var (meta, call) := (events[|events| - 1].meta, events[|events| - 1].call);
      var before := LastWrite(events[..|events| - 1], fit, key, owner);
      if call.key != key || Owner(meta, key, call.uid) != owner then before
      else if call.value.None? then None
      else
        var own := LoadedValue(meta, key);
        var fitted := if own.Some? then fit(own.value, call.value.value) else None;
        if fitted.None? then before
        else if Given(meta, key).None? && before.Some? && before.value.value == fitted.value then before
        else Some(Kept(fitted.value, Given(meta, key)))
  }

  /** A kept value counts if no serial was given for it, or the same one is given now. */
  predicate Counts(kept: Option<Kept>, meta: Loaded, key: string) {
    kept.Some? && (kept.value.serial.None? || kept.value.serial == Given(meta, key))
  }

  ghost predicate Keeps(values: Values, key: string, last: Option<Kept>) {
    && (key in values <==> last.Some?)
    && (key in values ==>
          && values[key].value == last.value.value
          && last.value.serial == if values[key].serial < 0 then None else Some(values[key].serial))
  }

  function CacheOf(s: State, owner: Option<Uid>): Values {
    match owner
    case None => s.shared
    case Some(uid) => UserValues(s, uid)
  }

  lemma {:induction false} RunKeeps(fit: Fitting, events: seq<Event>, key: string, owner: Option<Uid>)
    ensures Keeps(CacheOf(Run(fit, events), owner), key, LastWrite(events, fit, key, owner))
  {
    if events != [] {
      RunKeeps(fit, events[..|events| - 1], key, owner);
    }
  }

  /**
   * After any calls by any users, starting from empty caches, whatever was loaded at each: a key that may be written
   * reads as its last value that was written and not reset, if that counts for what is loaded now, by anyone if it is
   * global and by that user otherwise; everything else reads as it is loaded now.
   */
  lemma ReadsTheLastWrite(fit: Fitting, events: seq<Event>, meta: Loaded, key: string, uid: Uid)
    ensures var last := LastWrite(events, fit, key, Owner(meta, key, uid));
      Read(Run(fit, events), meta, key, uid)
      == if key in meta && meta[key].readWrite == Some(true) && Counts(last, meta, key) then Some(last.value.value)
         else LoadedValue(meta, key)
  {
    RunKeeps(fit, events, key, Owner(meta, key, uid));
  }

  /**
   * A value just written is read, also where an entry of that value was there that did not count any more, unless no
   * serial is given now and one was when that entry was written: then it stays as it is, and does not count.
   */
  lemma WriteIsReadIff(fit: Fitting, events: seq<Event>, meta: Loaded, key: string, uid: Uid, v: Variant)
    requires IsWritable(meta, key) && LoadedValue(meta, key).Some?
    requires fit(LoadedValue(meta, key).value, v).Some?
    ensures var fitted := fit(LoadedValue(meta, key).value, v);
      var before := LastWrite(events, fit, key, Owner(meta, key, uid));
      Read(Run(fit, events + [Event(meta, Call(uid, key, Some(v)))]), meta, key, uid) == fitted
      <==> fitted == LoadedValue(meta, key)
           || !(before.Some? && before.value.value == fitted.value
                && before.value.serial.Some? && Given(meta, key).None?)
  {
    var now := Event(meta, Call(uid, key, Some(v)));
    assert (events + [now])[..|events|] == events;
    ReadsTheLastWrite(fit, events + [now], meta, key, uid);
  }

  /** An entry of another serial does not count, until the same value is written again. */
  lemma StaleUntilRewritten(fit: Fitting, events: seq<Event>, meta: Loaded, key: string, uid: Uid, v: Variant)
    requires IsWritable(meta, key) && LoadedValue(meta, key).Some? && Given(meta, key).Some?
    requires fit(LoadedValue(meta, key).value, v).Some?
    requires var last := LastWrite(events, fit, key, Owner(meta, key, uid));
      last.Some? && last.value.serial.Some? && last.value.serial != Given(meta, key)
    ensures Read(Run(fit, events), meta, key, uid) == LoadedValue(meta, key)
    ensures var now := Event(meta, Call(uid, key, Some(v)));
      Read(Run(fit, events + [now]), meta, key, uid) == fit(LoadedValue(meta, key).value, v)
  {
    ReadsTheLastWrite(fit, events, meta, key, uid);
    WriteIsReadIff(fit, events, meta, key, uid, v);
  }

  /** A value written for a serial, and written again while none is given: it is not read. */
  lemma RewriteIsLost(v: Variant, w: Variant)
    requires v != w
    ensures var fit: Fitting := (own, value) => Some(value);
      var item := Item(Some(w), Some(1), Some(true), false, true);
      var first, later := map["k" := item], map["k" := item.(serial := None)];
      var write := Call(0, "k", Some(v));
      Read(Run(fit, [Event(first, write), Event(later, write)]), later, "k", 0) == Some(w)
  {
  }

  /** What a user of a key that is not global reads does not depend on the calls of others. */
  lemma UsersAreApart(fit: Fitting, events: seq<Event>, more: Event, meta: Loaded, key: string, uid: Uid)
    requires !IsGlobal(meta, key) && more.call.uid != uid
    ensures Read(Run(fit, events + [more]), meta, key, uid) == Read(Run(fit, events), meta, key, uid)
  {
    assert (events + [more])[..|events|] == events;
    ReadsTheLastWrite(fit, events, meta, key, uid);
    ReadsTheLastWrite(fit, events + [more], meta, key, uid);
  }
}
