/**
 * The generated configuration wrapper: an owner on the main thread and a DConfig on the config thread share one Data
 * object through an atomic status word, a pointer, a property bit and two event queues. One property stands for all.
 */
module ConfigWrapper {
  import opened Basics

  type Value = string

  /** What a DConfig has for a key: its value, and whether that was set or is the default. */
  datatype Holding = Holding(value: Value, isSet: bool)

  datatype Status = Invalid | Initializing | Succeeded | Failed | Destroyed

  /** Events for the Data object, handled on the main thread. */
  datatype MainEvent = InitFailed | InitDone | Mirror(v: Value) | ConfigGone | DeleteData

  /** Events on the config thread: the worker's, and those for the DConfig. */
  datatype ConfigEvent = Worker | SetValue(v: Value) | Reset | BackendSignal | DeleteConfig

  /** Where the main thread is within a setter. */
  datatype MainAt = Ready | Wrote(v: Value) | Marked(v: Value) | Loaded(v: Value, seen: bool)

  /** Where the config thread is: between events, in the worker's lambda, or in `updateValue`. */
  datatype ConfigAt =
    | Idle
    | Creating
    | Failing(made: bool)        // about to announce the failure
    | Discarding(made: bool)     // about to delete the invalid DConfig
    | Storing                    // about to publish the DConfig
    | Testing                    // about to test the property bit
    | Reading                    // bit set: about to read the property
    | Writing(v: Value)          // about to pass the property on to the DConfig
    | Updating(slot: bool)       // about to fetch the value and set the bit
    | Posting(slot: bool, v: Value)
    | Connecting
    | Announcing

  datatype State = State(
    owner: bool,                 // the wrapper exists
    status: Status,
    dataFreed: nat,              // how often Data has been freed
    made: nat,                   // DConfigs made
    configFreed: nat,            // and freed
    mainQueue: seq<MainEvent>,
    configQueue: seq<ConfigEvent>,
    main: MainAt,
    config: ConfigAt,
    stored: bool,                // m_config is set
    connected: bool,             // valueChanged is connected to updateValue
    linked: bool,                // destroyed is connected to deleteLater
    property: Value,
    own: Holding,                // what the DConfig holds
    bit: bool,
    wanted: Option<Holding>,     // history: what the program asked for last, unless it was changed from outside since
    early: bool,                 // history: the owner was destroyed during initialization
    fault: bool,                 // history: a freed object was used
    held: bool)                  // assumption: Data is not freed while `updateValue` runs on it

  datatype Outcome = NoConfig | BadConfig | GoodConfig

  datatype Step =
    | SetterWrite(v: Value) | SetterMark | SetterLoad | SetterPost | ResetCall | Destroy | MainTakes
    | ConfigTakes(sync: bool) | Create(outcome: Outcome) | AnnounceFailure | Discard | Store | Test | Read
    | InitWrite(sync: bool) | Update | PostMirror | Connect | Announce
    | External(h: Holding)

  function Initial(property: Value, own: Holding, held: bool): State {
    State(true, Invalid, 0, 0, 0, [], [Worker], Ready, Idle, false, false, false, property, own, false,
          None, false, false, held)
  }

  const DEFAULT: Holding := Holding("*.debug=false", false)

  predicate ConfigAlive(s: State) {
    s.made > s.configFreed
  }

  predicate InSlot(s: State) {
    (s.config.Updating? || s.config.Posting?) && s.config.slot
  }

  predicate Enabled(s: State, step: Step) {
    match step
    case SetterWrite(_) => s.owner && s.main.Ready?
    case SetterMark => s.main.Wrote?
    case SetterLoad => s.main.Marked?
    case SetterPost => s.main.Loaded?
    case ResetCall => s.owner && s.main.Ready?
    case Destroy => s.owner && s.main.Ready?
    case MainTakes => s.main.Ready? && s.mainQueue != [] && (s.held && InSlot(s) ==> !s.mainQueue[0].DeleteData?)
    case ConfigTakes(_) => s.config.Idle? && s.configQueue != []
    case Create(_) => s.config.Creating?
    case AnnounceFailure => s.config.Failing?
    case Discard => s.config.Discarding?
    case Store => s.config.Storing?
    case Test => s.config.Testing?
    case Read => s.config.Reading?
    case InitWrite(_) => s.config.Writing?
    case Update => s.config.Updating?
    case PostMirror => s.config.Posting?
    case Connect => s.config.Connecting?
    case Announce => s.config.Announcing?
    case External(h) => h != s.own
  }

  // ---- The steps ----

  /** The moves a status may make. */
  predicate Moves(before: Status, after: Status) {
    before == after || after == Destroyed
    || (before == Invalid && after == Initializing)
    || (before == Initializing && (after == Succeeded || after == Failed))
  }

  predicate KeepsLife(s: State, t: State) {
    t.owner == s.owner && t.status == s.status && t.early == s.early && t.held == s.held && t.wanted == s.wanted
  }

  /** Using Data or the DConfig after it has been freed is a fault. */
  function UseData(s: State): (t: State)
    ensures KeepsLife(s, t)
  {
    if s.dataFreed > 0 then s.(fault := true) else s
  }

  function UseConfig(s: State): (t: State)
    ensures KeepsLife(s, t)
  {
    if ConfigAlive(s) then s else s.(fault := true)
  }

  function PostMain(s: State, e: MainEvent): (t: State)
    ensures KeepsLife(s, t)
  {
    if s.dataFreed > 0 then s.(fault := true) else s.(mainQueue := s.mainQueue + [e])
  }

  function PostConfig(s: State, e: ConfigEvent): (t: State)
    ensures KeepsLife(s, t)
  {
    if ConfigAlive(s) then s.(configQueue := s.configQueue + [e]) else s.(fault := true)
  }

  /** An event for the DConfig, if there is one to be seen. */
  function PostConfigIf(seen: bool, s: State, e: ConfigEvent): (t: State)
    ensures KeepsLife(s, t)
  {
    if seen then PostConfig(s, e) else s
  }

  /** Freeing Data drops its events and its connections. */
  function FreeData(s: State): (t: State)
    ensures KeepsLife(s, t)
  {
    s.(dataFreed := s.dataFreed + 1, mainQueue := [], connected := false, linked := false)
  }

  function OnlyWorker(q: seq<ConfigEvent>): seq<ConfigEvent> {
    if q == [] then [] else (if q[0].Worker? then [q[0]] else []) + OnlyWorker(q[1..])
  }

  /** Freeing the DConfig drops its events; if Data is linked to it, Data is told. */
  function FreeConfig(s: State): (t: State)
    ensures KeepsLife(s, t)
  {
    var u := s.(configFreed := s.configFreed + 1, configQueue := OnlyWorker(s.configQueue));
    if s.linked then PostMain(u, ConfigGone) else u
  }

  /**
   * `setValue` and `reset` of a DConfig: what changes is signalled at once or by a later event, and so is every
   * reset; nothing is signalled of a value that was set before.
   */
  function SetConfigValue(s: State, h: Holding, sync: bool): (t: State)
    ensures KeepsLife(s, t)
  {
    if h == s.own && h.isSet then UseConfig(s)
    else
      var u := UseConfig(s).(own := h);
      if !sync then PostConfig(u, BackendSignal)
      else if s.connected then u.(config := Updating(true))
      else u
  }

  function HandleMain(s: State, e: MainEvent): (t: State)
    ensures t.held == s.held && Moves(s.status, t.status) && (t.status == Destroyed ==> s.status == Destroyed)
    ensures t.owner == s.owner && t.early == s.early && t.wanted == s.wanted
  {
    match e
    case InitFailed =>
      if s.status == Initializing then s.(status := Failed) else FreeData(s)
    case InitDone =>
      if s.status == Initializing then UseConfig(s).(status := Succeeded, linked := true)
      else PostMain(PostConfig(s, DeleteConfig), DeleteData)
    case Mirror(v) => if s.owner then s.(property := v) else s
    case ConfigGone => PostMain(s, DeleteData)
    case DeleteData => FreeData(s)
  }

  function HandleConfig(s: State, e: ConfigEvent, sync: bool): (t: State)
    ensures t.held == s.held && Moves(s.status, t.status) && (t.status == Destroyed ==> s.status == Destroyed)
    ensures t.owner == s.owner && t.early == s.early && t.wanted == s.wanted
  {
    match e
    case Worker =>
      if s.status == Invalid then UseData(s).(status := Initializing, config := Creating)
      else PostMain(s, DeleteData)
    case SetValue(v) => SetConfigValue(s, Holding(v, true), sync)
    case Reset => SetConfigValue(s, DEFAULT, sync)
    case BackendSignal => if s.connected then UseConfig(s).(config := Updating(true)) else UseConfig(s)
    case DeleteConfig => FreeConfig(s)
  }

  function Next(s: State, step: Step): State
    requires Enabled(s, step)
  {
    match step
    case SetterWrite(v) => UseData(s).(property := v, main := Wrote(v), wanted := Some(Holding(v, true)))
    case SetterMark => UseData(s).(bit := true, main := Marked(s.main.v))
    case SetterLoad => UseData(s).(main := Loaded(s.main.v, s.stored))
    case SetterPost => PostConfigIf(s.main.seen, s.(main := Ready), SetValue(s.main.v))
    case ResetCall => PostConfigIf(s.stored, UseData(s).(wanted := if s.stored then Some(DEFAULT) else s.wanted), Reset)
    case Destroy =>
      var t := UseData(s).(owner := false, status := Destroyed, early := s.early || s.status == Initializing);
      if s.status == Succeeded then PostConfig(t, DeleteConfig)
      else if s.status == Failed then PostMain(t, DeleteData)
      else t
    case MainTakes => HandleMain(UseData(s).(mainQueue := s.mainQueue[1..]), s.mainQueue[0])
    case ConfigTakes(sync) => HandleConfig(s.(configQueue := s.configQueue[1..]), s.configQueue[0], sync)
    case Create(outcome) =>
      s.(made := if outcome.NoConfig? then s.made else s.made + 1,
         config := match outcome
           case NoConfig => Failing(false)
           case BadConfig => Failing(true)
           case GoodConfig => Storing)
    case AnnounceFailure => PostMain(s, InitFailed).(config := Discarding(s.config.made))
    case Discard => (if s.config.made then FreeConfig(UseConfig(s)) else s).(config := Idle)
    case Store => UseData(s).(stored := true, config := Testing)
    case Test => UseData(s).(config := if s.bit then Reading else Updating(false))
    case Read => UseData(s).(config := Writing(s.property))
    case InitWrite(sync) => SetConfigValue(s.(config := Connecting), Holding(s.config.v, true), sync)
    case Update => UseConfig(UseData(s)).(bit := s.own.isSet, config := Posting(s.config.slot, s.own.value))
    case PostMirror =>
      PostMain(s, Mirror(s.config.v)).(config := if s.config.slot then Idle else Connecting)
    case Connect => UseConfig(UseData(s)).(connected := true, config := Announcing)
    case Announce => PostMain(s, InitDone).(config := Idle)
    case External(h) => PostConfigIf(ConfigAlive(s), s.(own := h, wanted := None), BackendSignal)
  }

  // ---- What each step uses ----

  /** Data runs all handlers on the main thread, holds what setters write, and is posted to by the config thread. */
  predicate TouchesData(s: State, step: Step)
    requires Enabled(s, step)
  {
    match step
    case SetterPost | Create(_) | InitWrite(_) | External(_) => false
    case ConfigTakes(_) => s.configQueue[0].Worker? || (s.configQueue[0].DeleteConfig? && s.linked)
    case Discard => s.config.made && s.linked
    case _ => true
  }

  /** The DConfig is posted to and deleted by the main thread, and used where the config thread reads or writes it. */
  predicate TouchesConfig(s: State, step: Step)
    requires Enabled(s, step)
  {
    match step
    case SetterPost => s.main.seen
    case ResetCall => s.stored
    case Destroy => s.status == Succeeded
    case MainTakes => s.mainQueue[0].InitDone?
    case ConfigTakes(_) => !s.configQueue[0].Worker? && !s.configQueue[0].DeleteConfig?
    case Discard => s.config.made
    case InitWrite(_) | Update | Connect => true
    case _ => false
  }

  /** A step is a fault if what it uses has been freed. */
  predicate IsFault(s: State, step: Step)
    requires Enabled(s, step)
  {
    (TouchesData(s, step) && s.dataFreed > 0) || (TouchesConfig(s, step) && !ConfigAlive(s))
  }

  /** Every state reached from a fresh wrapper by some interleaving of steps. */
  ghost predicate Runs(s: State, steps: seq<Step>, t: State)
    decreases |steps|
  {
    if steps == [] then s == t
    else Enabled(s, steps[0]) && Runs(Next(s, steps[0]), steps[1..], t)
  }

  // ---- Who is to free what ----

  function Count(b: bool): nat {
    if b then 1 else 0
  }

  /** How many events of each kind that matters for freeing are queued. */
  datatype MainTally = MainTally(failed: nat, done: nat, gone: nat, deletes: nat)
  datatype ConfigTally = ConfigTally(workers: nat, deletes: nat, others: nat)

  function AddMain(t: MainTally, e: MainEvent): MainTally {
    match e
    case InitFailed => t.(failed := t.failed + 1)
    case InitDone => t.(done := t.done + 1)
    case ConfigGone => t.(gone := t.gone + 1)
    case DeleteData => t.(deletes := t.deletes + 1)
    case Mirror(_) => t
  }

  function AddConfig(t: ConfigTally, e: ConfigEvent): ConfigTally {
    match e
    case Worker => t.(workers := t.workers + 1)
    case DeleteConfig => t.(deletes := t.deletes + 1)
    case _ => t.(others := t.others + 1)
  }

  function TallyMain(q: seq<MainEvent>): MainTally {
    if q == [] then MainTally(0, 0, 0, 0) else AddMain(TallyMain(q[1..]), q[0])
  }

  function TallyConfig(q: seq<ConfigEvent>): ConfigTally {
    if q == [] then ConfigTally(0, 0, 0) else AddConfig(TallyConfig(q[1..]), q[0])
  }

  lemma {:induction false} TallyMainPost(q: seq<MainEvent>, e: MainEvent)
    ensures TallyMain(q + [e]) == AddMain(TallyMain(q), e)
  {
    if q == [] {
      assert [] + [e] == [e];
    } else {
      assert (q + [e])[1..] == q[1..] + [e];
      TallyMainPost(q[1..], e);
    }
  }

  lemma {:induction false} TallyConfigPost(q: seq<ConfigEvent>, e: ConfigEvent)
    ensures TallyConfig(q + [e]) == AddConfig(TallyConfig(q), e)
  {
    if q == [] {
      assert [] + [e] == [e];
    } else {
      assert (q + [e])[1..] == q[1..] + [e];
      TallyConfigPost(q[1..], e);
    }
  }

  lemma {:induction false} TallyOnlyWorker(q: seq<ConfigEvent>)
    ensures TallyConfig(OnlyWorker(q)) == ConfigTally(TallyConfig(q).workers, 0, 0)
  {
    if q != [] {
      TallyOnlyWorker(q[1..]);
      if q[0].Worker? {
        assert OnlyWorker(q)[1..] == OnlyWorker(q[1..]);
      } else {
        assert OnlyWorker(q) == OnlyWorker(q[1..]);
      }
    }
  }

  function MainTallyOf(s: State): MainTally {
    TallyMain(s.mainQueue)
  }

  function ConfigTallyOf(s: State): ConfigTally {
    TallyConfig(s.configQueue)
  }

  /** In the worker's lambda, before it has handed Data on. */
  predicate InWorker(s: State) {
    !s.config.Idle? && !s.config.Discarding? && !InSlot(s)
  }

  /** In the worker's lambda, or the step after it, with a DConfig nobody else knows how to free. */
  predicate HoldsConfig(s: State) {
    match s.config
    case Failing(made) => made
    case Discarding(made) => made
    case _ => InWorker(s) && !s.config.Creating?
  }

  /** The parties that are to free Data; each passes the duty on exactly once. */
  function DataHolders(s: State): nat {
    var m := TallyMain(s.mainQueue);
    TallyConfig(s.configQueue).workers + Count(InWorker(s)) + m.failed + m.done + m.gone + m.deletes
    + Count(s.status == Failed) + Count(s.linked && ConfigAlive(s))
  }

  function ConfigHolders(s: State): nat {
    Count(HoldsConfig(s)) + TallyMain(s.mainQueue).done + Count(s.status == Succeeded)
    + TallyConfig(s.configQueue).deletes
  }

  /** Data is freed once, by its one holder, and so is every DConfig. */
  ghost predicate Conserved(s: State) {
    && DataHolders(s) + s.dataFreed == 1
    && ConfigHolders(s) + s.configFreed == s.made <= 1
  }

  /** What each status tells about the rest of the state. */
  ghost predicate Consistent(s: State) {
    && (s.owner <==> s.status != Destroyed)
    && (!s.main.Ready? ==> s.owner)
    && (s.status == Invalid ==> ConfigTallyOf(s).workers > 0)
    && (s.status == Initializing ==> InWorker(s) || MainTallyOf(s).failed > 0 || MainTallyOf(s).done > 0)
    && (s.status == Succeeded ==> s.linked)
    && (ConfigTallyOf(s).workers > 0 ==> s.status in {Invalid, Destroyed} && s.config.Idle? && s.made == 0)
    && (InWorker(s) || MainTallyOf(s).failed > 0 || MainTallyOf(s).done > 0 ==> s.status in {Initializing, Destroyed})
    && (s.config.Creating? || s.config == Failing(false) ==> s.made == 0)
    && (s.stored ==> s.made == 1 && s.status != Failed && MainTallyOf(s).failed == 0)
    && (s.stored ==> !s.config.Creating? && !s.config.Failing? && !s.config.Storing? && !s.config.Discarding?)
    && (s.linked || s.connected || InSlot(s) || MainTallyOf(s).done > 0 || ConfigTallyOf(s).deletes > 0 ==> s.stored)
    && (InWorker(s) && !s.config.Creating? && !s.config.Failing? && !s.config.Storing? ==> s.stored)
    && (ConfigTallyOf(s).deletes + ConfigTallyOf(s).others > 0 || InSlot(s) ==> ConfigAlive(s))
    && (ConfigTallyOf(s).deletes > 0 ==> !s.owner)
    && (s.connected || s.linked ==> s.dataFreed == 0)
    && (s.linked ==> s.status in {Succeeded, Destroyed})
    && (InWorker(s) ==> (s.connected <==> s.config.Announcing?)) && (MainTallyOf(s).done > 0 ==> s.connected)
    && (s.dataFreed > 0 ==> s.mainQueue == [])
    && (MainTallyOf(s).gone > 0 ==> !ConfigAlive(s))
    && (s.main.Loaded? && s.main.seen ==> s.stored)
  }

  /** A fault needs an owner destroyed during initialization, and Data freed under a running slot. */
  ghost predicate Guarded(s: State) {
    && ((s.dataFreed > 0 || MainTallyOf(s).deletes > 0) && ConfigAlive(s) && !HoldsConfig(s) ==> s.early)
    && (s.status == Destroyed && (InWorker(s) || MainTallyOf(s).done > 0) ==> s.early)
    && (s.held && InSlot(s) ==> s.dataFreed == 0)
    && (s.fault ==> s.early && !s.held)
    && (s.early ==> !s.owner)
  }

  ghost predicate Sound(s: State) {
    Conserved(s) && Consistent(s) && Guarded(s)
  }

  lemma InitiallySound(property: Value, own: Holding, held: bool)
    ensures Sound(Initial(property, own, held))
  {
    assert TallyConfig([Worker]) == AddConfig(TallyConfig([]), Worker);
  }

  // ---- No step breaks it ----

  lemma TallyMainTake(q: seq<MainEvent>)
    requires q != []
    ensures TallyMain(q) == AddMain(TallyMain(q[1..]), q[0])
  {
  }

  lemma TallyConfigTake(q: seq<ConfigEvent>)
    requires q != []
    ensures TallyConfig(q) == AddConfig(TallyConfig(q[1..]), q[0])
  {
  }

  lemma TallyNothing()
    ensures TallyMain([]) == MainTally(0, 0, 0, 0)
    ensures TallyConfig([]) == ConfigTally(0, 0, 0)
  {
  }

  /** Data is there for its owner and for the worker's lambda; the DConfig for an owner who can see it. */
  lemma InUse(s: State)
    requires Sound(s)
    ensures s.owner || InWorker(s) || s.mainQueue != [] ==> s.dataFreed == 0
    ensures (s.stored && s.owner) || HoldsConfig(s) || ConfigTallyOf(s).deletes + ConfigTallyOf(s).others > 0 ==>
              ConfigAlive(s)
  {
    hide TallyMain, TallyConfig;
  }

  /** What soundness does not look at. */
  lemma SoundWhateverTheValues(s: State, t: State)
    requires Sound(s)
    requires t == s.(main := t.main, property := t.property, own := t.own, bit := t.bit,
                     wanted := t.wanted)
    requires t.main == s.main || t.main.Ready? || (s.owner && (t.main.Loaded? && t.main.seen ==> s.stored))
    ensures Sound(t)
  {
    hide TallyMain, TallyConfig;
  }

  /** A value or a signal on its way to a DConfig frees nothing. */
  lemma SoundWithOneMore(s: State, e: ConfigEvent)
    requires Sound(s) && ConfigAlive(s) && !e.Worker? && !e.DeleteConfig?
    ensures Sound(s.(configQueue := s.configQueue + [e]))
  {
    hide TallyMain, TallyConfig;
    TallyConfigPost(s.configQueue, e);
  }

  lemma SoundWithoutOne(s: State)
    requires Sound(s) && s.configQueue != [] && !s.configQueue[0].Worker? && !s.configQueue[0].DeleteConfig?
    ensures Sound(s.(configQueue := s.configQueue[1..])) && ConfigAlive(s)
  {
    hide TallyMain, TallyConfig;
    TallyConfigTake(s.configQueue);
  }

  lemma SoundInSlot(s: State)
    requires Sound(s) && ConfigAlive(s) && s.config.Idle? && s.connected
    ensures Sound(s.(config := Updating(true)))
  {
    hide TallyMain, TallyConfig;
  }

  lemma SoundSetConfigValue(s: State, h: Holding, sync: bool)
    requires Sound(s) && ConfigAlive(s) && (s.connected ==> s.config.Idle?)
    ensures Sound(SetConfigValue(s, h, sync))
  {
    hide Sound;
    var t := s.(own := h);
    SoundWhateverTheValues(s, t);
    if h != s.own || !h.isSet {
      if !sync {
        SoundWithOneMore(t, BackendSignal);
      } else if s.connected {
        SoundInSlot(t);
      }
    }
  }

  /** The setters and the reset. */
  lemma SoundCall(s: State, step: Step)
    requires Sound(s) && Enabled(s, step)
    requires step.SetterWrite? || step.SetterMark? || step.SetterLoad? || step.SetterPost? || step.ResetCall?
    ensures Sound(Next(s, step))
  {
    InUse(s);
    CallerOwns(s, step);
    hide Sound;
    if step.SetterPost? {
      var t := s.(main := Ready);
      SoundWhateverTheValues(s, t);
      if s.main.seen {
        SoundWithOneMore(t, SetValue(s.main.v));
      }
    } else if step.ResetCall? {
      var t := s.(wanted := if s.stored then Some(DEFAULT) else s.wanted);
      SoundWhateverTheValues(s, t);
      if s.stored {
        SoundWithOneMore(t, Reset);
      }
    } else {
      SoundWhateverTheValues(s, Next(s, step));
    }
  }

  lemma CallerOwns(s: State, step: Step)
    requires Sound(s) && Enabled(s, step)
    requires step.SetterWrite? || step.SetterMark? || step.SetterLoad? || step.SetterPost? || step.ResetCall?
    ensures s.owner && (step.SetterPost? && s.main.seen ==> s.stored)
  {
    hide TallyMain, TallyConfig;
  }

  lemma SoundDestroy(s: State)
    requires Sound(s) && Enabled(s, Destroy)
    ensures Sound(Next(s, Destroy))
  {
    hide TallyMain, TallyConfig, HandleMain, HandleConfig, SetConfigValue;
    InUse(s);
    if s.status == Succeeded {
      TallyConfigPost(s.configQueue, DeleteConfig);
    } else if s.status == Failed {
      TallyMainPost(s.mainQueue, DeleteData);
    }
  }

  lemma SoundExternal(s: State, h: Holding)
    requires Sound(s) && Enabled(s, External(h))
    ensures Sound(Next(s, External(h)))
  {
    hide Sound;
    var t := s.(own := h, wanted := None);
    SoundWhateverTheValues(s, t);
    if ConfigAlive(s) {
      SoundWithOneMore(t, BackendSignal);
    }
  }

  lemma SoundCreate(s: State, outcome: Outcome)
    requires Sound(s) && Enabled(s, Create(outcome))
    ensures Sound(Next(s, Create(outcome)))
  {
    hide TallyMain, TallyConfig, UseData, UseConfig, PostMain, PostConfig, HandleMain, HandleConfig, SetConfigValue;
    assert s.made == 0;
  }

  lemma SoundAnnounceFailure(s: State)
    requires Sound(s) && Enabled(s, AnnounceFailure)
    ensures Sound(Next(s, AnnounceFailure))
  {
    hide TallyMain, TallyConfig;
    TallyMainPost(s.mainQueue, InitFailed);
  }

  lemma SoundStore(s: State)
    requires Sound(s) && Enabled(s, Store)
    ensures Sound(Next(s, Store))
  {
    hide TallyMain, TallyConfig;
  }

  lemma SoundDiscard(s: State)
    requires Sound(s) && Enabled(s, Discard)
    ensures Sound(Next(s, Discard))
  {
    hide TallyMain, TallyConfig, OnlyWorker, PostMain, PostConfig, HandleMain, HandleConfig, SetConfigValue, UseData;
    InUse(s);
    assert !s.linked;
    TallyOnlyWorker(s.configQueue);
  }

  /** And after it. */
  lemma SoundFilling(s: State, step: Step)
    requires Sound(s) && Enabled(s, step) && (step.Test? || step.Read? || step.Connect?)
    ensures Sound(Next(s, step))
  {
    hide TallyMain, TallyConfig, PostMain, PostConfig, HandleMain, HandleConfig, SetConfigValue;
    InUse(s);
  }

  lemma SoundAnnounce(s: State)
    requires Sound(s) && Enabled(s, Announce)
    ensures Sound(Next(s, Announce))
  {
    hide TallyMain, TallyConfig;
    InUse(s);
    TallyMainPost(s.mainQueue, InitDone);
  }

  lemma SoundInitWrite(s: State, sync: bool)
    requires Sound(s) && Enabled(s, InitWrite(sync))
    ensures Sound(Next(s, InitWrite(sync)))
  {
    hide TallyMain, TallyConfig;
    InUse(s);
    var t := s.(config := Connecting);
    assert Sound(t);
    SoundSetConfigValue(t, Holding(s.config.v, true), sync);
  }

  lemma SoundUpdate(s: State)
    requires Sound(s) && Enabled(s, Update)
    ensures Sound(Next(s, Update))
  {
    hide TallyMain, TallyConfig;
    InUse(s);
  }

  lemma SoundPostMirror(s: State)
    requires Sound(s) && Enabled(s, PostMirror)
    ensures Sound(Next(s, PostMirror))
  {
    hide TallyMain, TallyConfig;
    InUse(s);
    TallyMainPost(s.mainQueue, Mirror(s.config.v));
  }

  lemma SoundInitFailed(s: State)
    requires Sound(s) && Enabled(s, MainTakes) && s.mainQueue[0].InitFailed?
    ensures Sound(Next(s, MainTakes))
  {
    hide TallyMain, TallyConfig;
    TallyMainTake(s.mainQueue);
    TallyNothing();
  }

  lemma SoundInitDone(s: State)
    requires Sound(s) && Enabled(s, MainTakes) && s.mainQueue[0].InitDone?
    ensures Sound(Next(s, MainTakes))
  {
    hide TallyMain, TallyConfig;
    TallyMainTake(s.mainQueue);
    TallyMainPost(s.mainQueue[1..], DeleteData);
    TallyConfigPost(s.configQueue, DeleteConfig);
  }

  lemma SoundMirror(s: State)
    requires Sound(s) && Enabled(s, MainTakes) && s.mainQueue[0].Mirror?
    ensures Sound(Next(s, MainTakes))
  {
    var t := s.(mainQueue := s.mainQueue[1..]);
    assert Sound(t) && s.dataFreed == 0 by {
      hide TallyMain, TallyConfig;
      TallyMainTake(s.mainQueue);
    }
    hide Sound;
    SoundWhateverTheValues(t, t.(property := s.mainQueue[0].v));
  }

  lemma SoundConfigGone(s: State)
    requires Sound(s) && Enabled(s, MainTakes) && s.mainQueue[0].ConfigGone?
    ensures Sound(Next(s, MainTakes))
  {
    hide TallyMain, TallyConfig;
    TallyMainTake(s.mainQueue);
    TallyMainPost(s.mainQueue[1..], DeleteData);
  }

  lemma SoundDeleteData(s: State)
    requires Sound(s) && Enabled(s, MainTakes) && s.mainQueue[0].DeleteData?
    ensures Sound(Next(s, MainTakes))
  {
    hide TallyMain, TallyConfig;
    TallyMainTake(s.mainQueue);
    TallyNothing();
  }

  lemma SoundMainTakes(s: State)
    requires Sound(s) && Enabled(s, MainTakes)
    ensures Sound(Next(s, MainTakes))
  {
    hide Sound, Next;
    match s.mainQueue[0]
    case InitFailed => SoundInitFailed(s);
    case InitDone => SoundInitDone(s);
    case Mirror(_) => SoundMirror(s);
    case ConfigGone => SoundConfigGone(s);
    case DeleteData => SoundDeleteData(s);
  }

  lemma SoundConfigTakes(s: State, sync: bool)
    requires Sound(s) && Enabled(s, ConfigTakes(sync))
    ensures Sound(Next(s, ConfigTakes(sync)))
  {
    var e, t := s.configQueue[0], s.(configQueue := s.configQueue[1..]);
    match e
    case Worker => SoundWorker(s, sync);
    case DeleteConfig => SoundDeleteConfig(s, sync);
    case _ => SoundSignal(s, sync);
  }

  lemma SoundSignal(s: State, sync: bool)
    requires Sound(s) && Enabled(s, ConfigTakes(sync)) && !s.configQueue[0].Worker? && !s.configQueue[0].DeleteConfig?
    ensures Sound(Next(s, ConfigTakes(sync)))
  {
    hide Sound;
    var e, t := s.configQueue[0], s.(configQueue := s.configQueue[1..]);
    SoundWithoutOne(s);
    match e
    case SetValue(v) => SoundSetConfigValue(t, Holding(v, true), sync);
    case Reset => SoundSetConfigValue(t, DEFAULT, sync);
    case BackendSignal =>
      if s.connected {
        SoundInSlot(t);
      }
  }

  lemma SoundWorker(s: State, sync: bool)
    requires Sound(s) && Enabled(s, ConfigTakes(sync)) && s.configQueue[0].Worker?
    ensures Sound(Next(s, ConfigTakes(sync)))
  {
    hide TallyMain, TallyConfig;
    TallyConfigTake(s.configQueue);
    TallyMainPost(s.mainQueue, DeleteData);
  }

  lemma SoundDeleteConfig(s: State, sync: bool)
    requires Sound(s) && Enabled(s, ConfigTakes(sync)) && s.configQueue[0].DeleteConfig?
    ensures Sound(Next(s, ConfigTakes(sync)))
  {
    hide TallyMain, TallyConfig, OnlyWorker;
    TallyConfigTake(s.configQueue);
    TallyOnlyWorker(s.configQueue[1..]);
    TallyMainPost(s.mainQueue, ConfigGone);
  }

  lemma StepsKeepSound(s: State, step: Step)
    requires Sound(s) && Enabled(s, step)
    ensures Sound(Next(s, step))
  {
    hide Sound, Next;
    match step
    case SetterWrite(_) => SoundCall(s, step);
    case SetterMark => SoundCall(s, step);
    case SetterLoad => SoundCall(s, step);
    case SetterPost => SoundCall(s, step);
    case ResetCall => SoundCall(s, step);
    case Destroy => SoundDestroy(s);
    case MainTakes => SoundMainTakes(s);
    case ConfigTakes(sync) => SoundConfigTakes(s, sync);
    case Create(outcome) => SoundCreate(s, outcome);
    case AnnounceFailure => SoundAnnounceFailure(s);
    case Discard => SoundDiscard(s);
    case Store => SoundStore(s);
    case Test => SoundFilling(s, step);
    case Read => SoundFilling(s, step);
    case InitWrite(sync) => SoundInitWrite(s, sync);
    case Update => SoundUpdate(s);
    case PostMirror => SoundPostMirror(s);
    case Connect => SoundFilling(s, step);
    case Announce => SoundAnnounce(s);
    case External(h) => SoundExternal(s, h);
  }

  // ---- Over whole runs ----

  lemma {:induction false} RunsKeepSound(s: State, steps: seq<Step>, t: State)
    requires Sound(s) && Runs(s, steps, t)
    ensures Sound(t)
    decreases |steps|
  {
    hide Sound, Next, Enabled;
    if steps != [] {
      StepsKeepSound(s, steps[0]);
      RunsKeepSound(Next(s, steps[0]), steps[1..], t);
    }
  }

  /** Nothing is left to do but for the world outside to change the value. */
  predicate AtRest(s: State) {
    s.main.Ready? && s.config.Idle? && s.mainQueue == [] && s.configQueue == []
  }

  /** The wrapper frees nothing twice, and at rest without an owner nothing is left unfreed. */
  lemma EachIsFreedOnce(property: Value, own: Holding, held: bool, steps: seq<Step>, t: State)
    requires Runs(Initial(property, own, held), steps, t)
    ensures t.dataFreed <= 1 && t.configFreed <= t.made <= 1
    ensures AtRest(t) && !t.owner ==> t.dataFreed == 1 && t.configFreed == t.made
    ensures t.owner ==> t.dataFreed == 0 && (t.stored ==> t.configFreed == 0)
  {
    InitiallySound(property, own, held);
    RunsKeepSound(Initial(property, own, held), steps, t);
    hide Runs, Enabled, Next;
    InUse(t);
  }

  /** Short of rest some step is always open, so a run can only end by coming to rest. */
  lemma NeverStuck(property: Value, own: Holding, held: bool, steps: seq<Step>, t: State) returns (step: Step)
    requires Runs(Initial(property, own, held), steps, t) && !AtRest(t)
    ensures !step.SetterWrite? && !step.ResetCall? && !step.Destroy? && !step.External? && Enabled(t, step)
  {
    step := match t.config
      case Creating => Create(NoConfig)
      case Failing(_) => AnnounceFailure
      case Discarding(_) => Discard
      case Storing => Store
      case Testing => Test
      case Reading => Read
      case Writing(_) => InitWrite(true)
      case Updating(_) => Update
      case Posting(_, _) => PostMirror
      case Connecting => Connect
      case Announcing => Announce
      case Idle =>
        if t.configQueue != [] then ConfigTakes(true)
        else match t.main
          case Ready => MainTakes
          case Wrote(_) => SetterMark
          case Marked(_) => SetterLoad
          case Loaded(_, _) => SetterPost;
  }

  /** A status moves only forward, and `held` says something about a whole run. */
  ghost predicate GoesOn(s: State, step: Step, t: State) {
    && Moves(s.status, t.status)
    && (s.status == Destroyed ==> t.status == Destroyed)
    && (t.status != s.status && t.status == Destroyed ==> step == Destroy)
    && t.held == s.held
    && (!s.owner ==> !t.owner && t.early == s.early)
  }

  lemma CallGoesOn(s: State, step: Step)
    requires Enabled(s, step)
    requires step.SetterWrite? || step.SetterMark? || step.SetterLoad? || step.SetterPost? || step.ResetCall?
    ensures GoesOn(s, step, Next(s, step))
  {
    hide UseData, UseConfig, PostMain, PostConfig, PostConfigIf, FreeData, FreeConfig, SetConfigValue, ConfigAlive,
         HandleMain, HandleConfig;
  }

  lemma EventGoesOn(s: State, step: Step)
    requires Enabled(s, step)
    requires step.MainTakes? || step.ConfigTakes?
    ensures GoesOn(s, step, Next(s, step))
  {
    hide UseData, UseConfig, PostMain, PostConfig, PostConfigIf, FreeData, FreeConfig, SetConfigValue, ConfigAlive,
         HandleMain, HandleConfig;
  }

  lemma OutsideGoesOn(s: State, step: Step)
    requires Enabled(s, step)
    requires step.External?
    ensures GoesOn(s, step, Next(s, step))
  {
    hide UseData, UseConfig, PostMain, PostConfig, PostConfigIf, FreeData, FreeConfig, SetConfigValue, ConfigAlive,
         HandleMain, HandleConfig;
  }

  lemma DestroyGoesOn(s: State)
    requires Enabled(s, Destroy)
    ensures GoesOn(s, Destroy, Next(s, Destroy))
  {
    var t := UseData(s).(owner := false, status := Destroyed, early := s.early || s.status == Initializing);
    var u := Next(s, Destroy);
    assert u == t || u == PostConfig(t, DeleteConfig) || u == PostMain(t, DeleteData);
    hide UseData, PostMain, PostConfig, Next;
  }

  lemma MakeGoesOn(s: State, step: Step)
    requires Enabled(s, step)
    requires step.Create? || step.AnnounceFailure? || step.Discard? || step.Store?
    ensures GoesOn(s, step, Next(s, step))
  {
    hide UseData, UseConfig, PostMain, PostConfig, PostConfigIf, FreeData, FreeConfig, SetConfigValue, ConfigAlive,
         HandleMain, HandleConfig;
  }

  lemma FillGoesOn(s: State, step: Step)
    requires Enabled(s, step)
    requires step.Test? || step.Read? || step.InitWrite? || step.Update?
    ensures GoesOn(s, step, Next(s, step))
  {
    hide UseData, UseConfig, PostMain, PostConfig, PostConfigIf, FreeData, FreeConfig, SetConfigValue, ConfigAlive,
         HandleMain, HandleConfig;
  }

  lemma EndGoesOn(s: State, step: Step)
    requires Enabled(s, step)
    requires step.PostMirror? || step.Connect? || step.Announce?
    ensures GoesOn(s, step, Next(s, step))
  {
    hide UseData, UseConfig, PostMain, PostConfig, PostConfigIf, FreeData, FreeConfig, SetConfigValue, ConfigAlive,
         HandleMain, HandleConfig;
  }

  lemma StepsGoOn(s: State, step: Step)
    requires Enabled(s, step)
    ensures GoesOn(s, step, Next(s, step))
  {
    hide Enabled, Next, GoesOn;
    if step.SetterWrite? || step.SetterMark? || step.SetterLoad? || step.SetterPost? || step.ResetCall? {
      CallGoesOn(s, step);
    } else if step.MainTakes? || step.ConfigTakes? {
      EventGoesOn(s, step);
    } else if step.External? {
      OutsideGoesOn(s, step);
    } else if step.Destroy? {
      DestroyGoesOn(s);
    } else if step.Create? || step.AnnounceFailure? || step.Discard? || step.Store? {
      MakeGoesOn(s, step);
    } else if step.Test? || step.Read? || step.InitWrite? || step.Update? {
      FillGoesOn(s, step);
    } else {
      EndGoesOn(s, step);
    }
  }

  function Rank(status: Status): nat {
    match status
    case Invalid => 0
    case Initializing => 1
    case Succeeded | Failed => 2
    case Destroyed => 3
  }

  /** No status ever comes back: not one of Succeeded and Failed turns into the other, and Destroyed is the end. */
  lemma {:induction false} StatusNeverComesBack(s: State, steps: seq<Step>, t: State)
    requires Runs(s, steps, t)
    ensures t.status == s.status || Rank(s.status) < Rank(t.status)
    ensures t.held == s.held
    decreases |steps|
  {
    if steps != [] {
      StepsGoOn(s, steps[0]);
      hide Next, Enabled;
      StatusNeverComesBack(Next(s, steps[0]), steps[1..], t);
    }
  }

  /** Nothing freed is ever used, unless the owner went away during initialization and Data under a running slot. */
  lemma FaultsNeedARace(property: Value, own: Holding, held: bool, steps: seq<Step>, t: State)
    requires Runs(Initial(property, own, held), steps, t)
    ensures t.fault ==> t.early && !held
  {
    InitiallySound(property, own, held);
    RunsKeepSound(Initial(property, own, held), steps, t);
    StatusNeverComesBack(Initial(property, own, held), steps, t);
  }

  lemma {:induction false} OneMoreStep(s: State, steps: seq<Step>, t: State, step: Step)
    requires Runs(s, steps, t) && Enabled(t, step)
    ensures Runs(s, steps + [step], Next(t, step))
    decreases |steps|
  {
    hide Enabled, Next;
    var all := steps + [step];
    if steps == [] {
      assert all[1..] == [] && all[0] == step;
    } else {
      assert all[1..] == steps[1..] + [step];
      OneMoreStep(Next(s, steps[0]), steps[1..], t, step);
    }
  }
}
