/**
 * The value is kept on both sides of the generated wrapper: the property on the main thread, the DConfig's own on the
 * config thread. Whatever the interleaving, the two agree once every event is handled, and the last setter wins.
 */
module ConfigMirror {
  import opened Basics
  import opened ConfigWrapper

  // ---- What is still on its way ----

  /** The property once the queued mirrors are handled. */
  function LastMirror(q: seq<MainEvent>, property: Value): Value {
    if q == [] then property
    else LastMirror(q[1..], if q[0].Mirror? then q[0].v else property)
  }

  predicate NoMirrors(q: seq<MainEvent>) {
    q == [] || (!q[0].Mirror? && NoMirrors(q[1..]))
  }

  function Asks(e: ConfigEvent): Option<Holding> {
    match e
    case SetValue(v) => Some(Holding(v, true))
    case Reset => Some(DEFAULT)
    case _ => None
  }

  /** What the last queued setter or reset asks for. */
  function LastAsked(q: seq<ConfigEvent>, before: Option<Holding>): Option<Holding> {
    if q == [] then before
    else LastAsked(q[1..], if Asks(q[0]).Some? then Asks(q[0]) else before)
  }

  predicate AllAsk(q: seq<ConfigEvent>, h: Holding) {
    q == [] || ((Asks(q[0]).Some? ==> Asks(q[0]).value == h) && AllAsk(q[1..], h))
  }

  predicate Signalled(q: seq<ConfigEvent>) {
    q != [] && (q[0].BackendSignal? || Signalled(q[1..]))
  }

  /** The value of a setter that is under way and will reach the DConfig, for all it knows. */
  function Underway(main: MainAt): Option<Holding> {
    match main
    case Wrote(v) => Some(Holding(v, true))
    case Marked(v) => Some(Holding(v, true))
    case Loaded(v, seen) => if seen then Some(Holding(v, true)) else None
    case Ready => None
  }

  lemma {:induction false} MainPosts(q: seq<MainEvent>, e: MainEvent, property: Value)
    ensures LastMirror(q + [e], property) == if e.Mirror? then e.v else LastMirror(q, property)
    ensures NoMirrors(q + [e]) <==> NoMirrors(q) && !e.Mirror?
  {
    if q == [] {
      assert [] + [e] == [e];
    } else {
      assert (q + [e])[1..] == q[1..] + [e];
      MainPosts(q[1..], e, if q[0].Mirror? then q[0].v else property);
    }
  }

  lemma {:induction false} ConfigPosts(q: seq<ConfigEvent>, e: ConfigEvent, before: Option<Holding>, h: Holding)
    ensures LastAsked(q + [e], before) == if Asks(e).Some? then Asks(e) else LastAsked(q, before)
    ensures AllAsk(q + [e], h) <==> AllAsk(q, h) && (Asks(e).Some? ==> Asks(e).value == h)
    ensures Signalled(q + [e]) <==> Signalled(q) || e.BackendSignal?
  {
    if q == [] {
      assert [] + [e] == [e];
    } else {
      assert (q + [e])[1..] == q[1..] + [e];
      ConfigPosts(q[1..], e, if Asks(q[0]).Some? then Asks(q[0]) else before, h);
    }
  }

  lemma {:induction false} NoMirrorsLast(q: seq<MainEvent>, property: Value)
    requires NoMirrors(q)
    ensures LastMirror(q, property) == property
  {
    if q != [] {
      NoMirrorsLast(q[1..], property);
    }
  }

  lemma {:induction false} LastAskedSince(q: seq<ConfigEvent>, before: Option<Holding>)
    ensures LastAsked(q, before) == if LastAsked(q, None).Some? then LastAsked(q, None) else before
  {
    if q != [] {
      var first := Asks(q[0]);
      LastAskedSince(q[1..], if first.Some? then first else before);
      LastAskedSince(q[1..], if first.Some? then first else None);
    }
  }

  // ---- The two sides follow each other ----

  /** The worker has not read the property yet, if it ever does. */
  predicate Unread(s: State) {
    !s.stored || s.config.Testing? || s.config.Reading?
  }

  /** What the DConfig holds, or is about to be given by the worker. */
  function Goal(s: State): Holding {
    if s.config.Writing? then Holding(s.config.v, true) else s.own
  }

  /** The setters and resets still on their way would leave the DConfig at its goal. */
  predicate Settles(s: State, h: Holding) {
    (Underway(s.main).Some? ==> Underway(s.main).value == h) && AllAsk(s.configQueue, h)
  }

  /** The property and the bit are told of the goal, or will be. */
  predicate Informed(s: State) {
    || Signalled(s.configQueue)
    || s.config.Updating?
    || Holding(if s.config.Posting? then s.config.v else LastMirror(s.mainQueue, s.property), s.bit) == Goal(s)
  }

  ghost predicate Mirrored(s: State) {
    s.owner ==>
      && (Unread(s) ==> NoMirrors(s.mainQueue))
      && (s.config.Reading? ==> s.bit)
      && (s.stored && (s.config.Announcing? || !InWorker(s)) ==> s.connected)
      && (!Unread(s) && Settles(s, Goal(s)) ==> Informed(s))
  }

  // ---- The last call wins ----

  /** `h` was asked for last, and nothing was changed from outside since: it is where it has to be to get through. */
  ghost predicate Carried(s: State, h: Holding) {
    && (s.main.Wrote? || s.main.Marked? || s.main.Loaded? ==> h == Holding(s.main.v, true))
    && (Unread(s) && (LastAsked(s.configQueue, None).None? || !s.main.Ready?) ==>
          h == Holding(s.property, true) && (s.config.Reading? || s.bit || s.main.Wrote?))
    && (Underway(s.main).None? ==>
          if LastAsked(s.configQueue, None).Some? then LastAsked(s.configQueue, None).value == h
          else !Unread(s) ==> Goal(s) == h)
  }

  ghost predicate Delivering(s: State) {
    s.owner ==>
      && (LastAsked(s.configQueue, None).Some? ==> s.stored && !(s.main.Loaded? && !s.main.seen))
      && (s.wanted.Some? ==> Carried(s, s.wanted.value))
  }

  ghost predicate InStep(s: State) {
    Sound(s) && Mirrored(s) && Delivering(s)
  }

  lemma InitiallyInStep(property: Value, own: Holding, held: bool)
    ensures InStep(Initial(property, own, held))
  {
    InitiallySound(property, own, held);
    assert LastAsked([Worker], None) == LastAsked([], None);
  }

  // ---- Every step keeps them in step ----

  /** What soundness says of an owner's state, for following the values. */
  lemma Here(s: State)
    requires Sound(s) && s.owner
    ensures s.dataFreed == 0 && s.status != Destroyed
    ensures s.stored ==> ConfigAlive(s)
    ensures s.connected || s.linked || InSlot(s) ==> s.stored
    ensures InWorker(s) && !s.config.Creating? && !s.config.Failing? && !s.config.Storing? ==> s.stored
    ensures s.config.Creating? || s.config.Failing? || s.config.Storing? || s.config.Discarding? ==> !s.stored
    ensures InWorker(s) && !s.config.Announcing? ==> !s.connected
    ensures s.main.Loaded? && s.main.seen ==> s.stored
    ensures s.mainQueue != [] && s.mainQueue[0].InitDone? ==> s.stored && s.status == Initializing
    ensures s.mainQueue != [] && s.mainQueue[0].InitFailed? ==> s.status == Initializing
    ensures s.mainQueue != [] ==> !s.mainQueue[0].ConfigGone? && !s.mainQueue[0].DeleteData?
    ensures s.configQueue != [] ==> !s.configQueue[0].DeleteConfig?
    ensures s.configQueue != [] && !s.configQueue[0].Worker? ==> ConfigAlive(s)
    ensures s.configQueue != [] && s.configQueue[0].Worker? ==> s.status == Invalid && !s.stored
  {
    hide TallyMain, TallyConfig;
    InUse(s);
    if s.mainQueue != [] {
      TallyMainTake(s.mainQueue);
    }
    if s.configQueue != [] {
      TallyConfigTake(s.configQueue);
    }
  }

  lemma Popped(s: State)
    requires s.mainQueue != []
    ensures var q, e := s.mainQueue[1..], s.mainQueue[0];
            LastMirror(s.mainQueue, s.property) == LastMirror(q, if e.Mirror? then e.v else s.property)
            && (NoMirrors(s.mainQueue) <==> !e.Mirror? && NoMirrors(q))
  {
  }

  lemma Taken(s: State)
    requires s.configQueue != []
    ensures var q, e := s.configQueue[1..], s.configQueue[0];
      && (Signalled(s.configQueue) <==> e.BackendSignal? || Signalled(q))
      && LastAsked(s.configQueue, None) == (if LastAsked(q, None).Some? then LastAsked(q, None) else Asks(e))
      && (forall h :: AllAsk(s.configQueue, h) <==> (Asks(e).Some? ==> Asks(e).value == h) && AllAsk(q, h))
  {
    LastAskedSince(s.configQueue[1..], Asks(s.configQueue[0]));
  }

  lemma {:induction false} LastMirrorIs(q: seq<MainEvent>, property: Value, v: Value)
    ensures LastMirror(q, v) == v || LastMirror(q, v) == LastMirror(q, property)
  {
    if q != [] && !q[0].Mirror? {
      LastMirrorIs(q[1..], property, v);
    }
  }

  lemma {:induction false} WorkersAskNothing(q: seq<ConfigEvent>)
    ensures LastAsked(OnlyWorker(q), None) == None
  {
    if q != [] {
      WorkersAskNothing(q[1..]);
      if q[0].Worker? {
        assert OnlyWorker(q)[1..] == OnlyWorker(q[1..]);
      } else {
        assert OnlyWorker(q) == OnlyWorker(q[1..]);
      }
    }
  }

  /** What `setValue` and `reset` do to a DConfig that is there. */
  lemma Sets(s: State, h: Holding, sync: bool)
    requires ConfigAlive(s)
    ensures var t := SetConfigValue(s, h, sync);
      && t == s.(own := h, configQueue := t.configQueue, config := t.config)
      && (t.configQueue == s.configQueue || t.configQueue == s.configQueue + [BackendSignal])
      && (t.config == s.config || (t.config == Updating(true) && s.connected))
      && (h == s.own || !s.connected || t.config == Updating(true)
          || t.configQueue == s.configQueue + [BackendSignal])
  {
  }

  lemma SetterInStep(s: State, step: Step)
    requires InStep(s) && s.owner && Enabled(s, step) && (step.SetterWrite? || step.SetterMark? || step.SetterLoad?)
    ensures Mirrored(Next(s, step)) && Delivering(Next(s, step))
  {
    Here(s);
    hide Sound, LastMirror, NoMirrors, LastAsked, AllAsk, Signalled, TallyMain, TallyConfig;
    if step.SetterWrite? {
      LastMirrorIs(s.mainQueue, s.property, step.v);
    }
  }

  lemma SetterPostFollows(s: State)
    requires InStep(s) && s.owner && Enabled(s, SetterPost)
    ensures Mirrored(Next(s, SetterPost))
  {
    Here(s);
    hide Sound, LastMirror, NoMirrors, LastAsked, AllAsk, Signalled, TallyMain, TallyConfig;
    ConfigPosts(s.configQueue, SetValue(s.main.v), None, Goal(s));
  }

  lemma SetterPostDelivers(s: State)
    requires InStep(s) && s.owner && Enabled(s, SetterPost)
    ensures Delivering(Next(s, SetterPost))
  {
    Here(s);
    hide Sound, LastMirror, NoMirrors, LastAsked, AllAsk, Signalled, TallyMain, TallyConfig;
    ConfigPosts(s.configQueue, SetValue(s.main.v), None, Goal(s));
  }

  lemma ResetInStep(s: State)
    requires InStep(s) && s.owner && Enabled(s, ResetCall)
    ensures Mirrored(Next(s, ResetCall)) && Delivering(Next(s, ResetCall))
  {
    Here(s);
    hide Sound, LastMirror, NoMirrors, LastAsked, AllAsk, Signalled, TallyMain, TallyConfig;
    ConfigPosts(s.configQueue, Reset, None, Goal(s));
  }

  lemma DestroyInStep(s: State)
    requires InStep(s) && s.owner && Enabled(s, Destroy)
    ensures Mirrored(Next(s, Destroy)) && Delivering(Next(s, Destroy))
  {
    Here(s);
    hide Sound, LastMirror, NoMirrors, LastAsked, AllAsk, Signalled, TallyMain, TallyConfig;
  }

  lemma ExternalInStep(s: State, h: Holding)
    requires InStep(s) && s.owner && Enabled(s, External(h))
    ensures Mirrored(Next(s, External(h))) && Delivering(Next(s, External(h)))
  {
    Here(s);
    hide Sound, LastMirror, NoMirrors, LastAsked, AllAsk, Signalled, TallyMain, TallyConfig;
    ConfigPosts(s.configQueue, BackendSignal, None, h);
  }

  lemma MakingInStep(s: State, step: Step)
    requires InStep(s) && s.owner && Enabled(s, step) && (step.Create? || step.AnnounceFailure? || step.Store?)
    ensures Mirrored(Next(s, step)) && Delivering(Next(s, step))
  {
    Here(s);
    hide Sound, LastMirror, NoMirrors, LastAsked, AllAsk, Signalled, TallyMain, TallyConfig;
    MainPosts(s.mainQueue, InitFailed, s.property);
  }

  lemma DiscardInStep(s: State)
    requires InStep(s) && s.owner && Enabled(s, Discard)
    ensures Mirrored(Next(s, Discard)) && Delivering(Next(s, Discard))
  {
    Here(s);
    hide Sound, LastMirror, NoMirrors, LastAsked, AllAsk, Signalled, TallyMain, TallyConfig, OnlyWorker;
    WorkersAskNothing(s.configQueue);
  }

  lemma FillingInStep(s: State, step: Step)
    requires InStep(s) && s.owner && Enabled(s, step) && (step.Test? || step.Read? || step.Connect? || step.Announce?)
    ensures Mirrored(Next(s, step)) && Delivering(Next(s, step))
  {
    Here(s);
    hide Sound, LastMirror, NoMirrors, LastAsked, AllAsk, Signalled, TallyMain, TallyConfig;
    if step.Read? {
      NoMirrorsLast(s.mainQueue, s.property);
    }
    MainPosts(s.mainQueue, InitDone, s.property);
  }

  lemma InitWriteInStep(s: State, sync: bool)
    requires InStep(s) && s.owner && Enabled(s, InitWrite(sync))
    ensures Mirrored(Next(s, InitWrite(sync))) && Delivering(Next(s, InitWrite(sync)))
  {
    Here(s);
    hide Sound, LastMirror, NoMirrors, LastAsked, AllAsk, Signalled, TallyMain, TallyConfig, SetConfigValue;
    var h := Holding(s.config.v, true);
    Sets(s.(config := Connecting), h, sync);
    ConfigPosts(s.configQueue, BackendSignal, None, h);
  }

  lemma UpdateInStep(s: State)
    requires InStep(s) && s.owner && Enabled(s, Update)
    ensures Mirrored(Next(s, Update)) && Delivering(Next(s, Update))
  {
    Here(s);
    hide Sound, LastMirror, NoMirrors, LastAsked, AllAsk, Signalled, TallyMain, TallyConfig;
  }

  lemma PostMirrorInStep(s: State)
    requires InStep(s) && s.owner && Enabled(s, PostMirror)
    ensures Mirrored(Next(s, PostMirror)) && Delivering(Next(s, PostMirror))
  {
    Here(s);
    hide Sound, LastMirror, NoMirrors, LastAsked, AllAsk, Signalled, TallyMain, TallyConfig;
    MainPosts(s.mainQueue, Mirror(s.config.v), s.property);
  }

  lemma MainTakesFollows(s: State)
    requires InStep(s) && s.owner && Enabled(s, MainTakes)
    ensures Mirrored(Next(s, MainTakes))
  {
    Here(s);
    hide Sound, LastMirror, NoMirrors, LastAsked, AllAsk, Signalled, TallyMain, TallyConfig;
    Popped(s);
  }

  lemma MainTakesDelivers(s: State)
    requires InStep(s) && s.owner && Enabled(s, MainTakes)
    ensures Delivering(Next(s, MainTakes))
  {
    Here(s);
    hide Sound, LastMirror, NoMirrors, LastAsked, AllAsk, Signalled, TallyMain, TallyConfig;
    Popped(s);
  }

  lemma TakesWorkerInStep(s: State, sync: bool)
    requires InStep(s) && s.owner && Enabled(s, ConfigTakes(sync))
    requires s.configQueue[0].Worker? || s.configQueue[0].BackendSignal?
    ensures Mirrored(Next(s, ConfigTakes(sync))) && Delivering(Next(s, ConfigTakes(sync)))
  {
    Here(s);
    hide Sound, LastMirror, NoMirrors, LastAsked, AllAsk, Signalled, TallyMain, TallyConfig;
    Taken(s);
  }

  lemma TakesValueInStep(s: State, sync: bool)
    requires InStep(s) && s.owner && Enabled(s, ConfigTakes(sync)) && s.configQueue[0].SetValue?
    ensures Mirrored(Next(s, ConfigTakes(sync))) && Delivering(Next(s, ConfigTakes(sync)))
  {
    Here(s);
    hide Sound, LastMirror, NoMirrors, LastAsked, AllAsk, Signalled, TallyMain, TallyConfig, SetConfigValue;
    Taken(s);
    var h := Holding(s.configQueue[0].v, true);
    Sets(s.(configQueue := s.configQueue[1..]), h, sync);
    ConfigPosts(s.configQueue[1..], BackendSignal, None, h);
  }

  lemma TakesResetInStep(s: State, sync: bool)
    requires InStep(s) && s.owner && Enabled(s, ConfigTakes(sync)) && s.configQueue[0].Reset?
    ensures Mirrored(Next(s, ConfigTakes(sync))) && Delivering(Next(s, ConfigTakes(sync)))
  {
    Here(s);
    hide Sound, LastMirror, NoMirrors, LastAsked, AllAsk, Signalled, TallyMain, TallyConfig, SetConfigValue;
    Taken(s);
    Sets(s.(configQueue := s.configQueue[1..]), DEFAULT, sync);
    assert Next(s, ConfigTakes(sync)) == SetConfigValue(s.(configQueue := s.configQueue[1..]), DEFAULT, sync);
    hide Next;
    ConfigPosts(s.configQueue[1..], BackendSignal, None, DEFAULT);
  }

  lemma StepsStayInStep(s: State, step: Step)
    requires InStep(s) && Enabled(s, step)
    ensures InStep(Next(s, step))
  {
    StepsKeepSound(s, step);
    if s.owner {
      if step.ConfigTakes? {
        TakesInStep(s, step.sync);
      } else {
        OtherStepInStep(s, step);
      }
    } else {
      StaysUnowned(s, step);
    }
  }

  lemma TakesInStep(s: State, sync: bool)
    requires InStep(s) && s.owner && Enabled(s, ConfigTakes(sync))
    ensures Mirrored(Next(s, ConfigTakes(sync))) && Delivering(Next(s, ConfigTakes(sync)))
  {
    Here(s);
    hide InStep, Next, Mirrored, Delivering;
    match s.configQueue[0]
    case Worker | BackendSignal => TakesWorkerInStep(s, sync);
    case SetValue(_) => TakesValueInStep(s, sync);
    case Reset => TakesResetInStep(s, sync);
  }

  lemma OtherStepInStep(s: State, step: Step)
    requires InStep(s) && s.owner && Enabled(s, step) && !step.ConfigTakes?
    ensures Mirrored(Next(s, step)) && Delivering(Next(s, step))
  {
    hide InStep, Next, Mirrored, Delivering;
    match step
    case SetterWrite(_) | SetterMark | SetterLoad => SetterInStep(s, step);
    case SetterPost =>
      SetterPostFollows(s);
      SetterPostDelivers(s);
    case ResetCall => ResetInStep(s);
    case Destroy => DestroyInStep(s);
    case MainTakes =>
      MainTakesFollows(s);
      MainTakesDelivers(s);
    case Create(_) | AnnounceFailure | Store => MakingInStep(s, step);
    case Discard => DiscardInStep(s);
    case Test | Read | Connect | Announce => FillingInStep(s, step);
    case InitWrite(sync) => InitWriteInStep(s, sync);
    case Update => UpdateInStep(s);
    case PostMirror => PostMirrorInStep(s);
    case External(h) => ExternalInStep(s, h);
  }

  lemma StaysUnowned(s: State, step: Step)
    requires Sound(s) && !s.owner && Enabled(s, step) && Sound(Next(s, step))
    ensures !Next(s, step).owner
  {
    StepsGoOn(s, step);
    hide Next, Enabled, TallyMain, TallyConfig;
  }

  /** Once initialization is over, nothing queued and no setter under way, both sides hold the same. */
  lemma QuietAndInStep(s: State)
    requires InStep(s) && s.owner && s.stored && AtRest(s)
    ensures Holding(s.property, s.bit) == s.own
    ensures s.wanted.Some? ==> s.own == s.wanted.value
  {
  }

  lemma {:induction false} RunsStayInStep(s: State, steps: seq<Step>, t: State)
    requires InStep(s) && Runs(s, steps, t)
    ensures InStep(t)
    decreases |steps|
  {
    hide InStep, Next, Enabled;
    if steps != [] {
      StepsStayInStep(s, steps[0]);
      RunsStayInStep(Next(s, steps[0]), steps[1..], t);
    }
  }

  /**
   * What the program asked for last in a run, unless there was a change from outside later. A reset made before there
   * is a DConfig to be seen asks for nothing.
   */
  function LastRequest(s: State, steps: seq<Step>, t: State, before: Option<Holding>): Option<Holding>
    requires Runs(s, steps, t)
    decreases |steps|
  {
    if steps == [] then before
    else
      var now := match steps[0]
        case SetterWrite(v) => Some(Holding(v, true))
        case ResetCall => if s.stored then Some(Holding("*.debug=false", false)) else before
        case External(_) => None
        case _ => before;
      LastRequest(Next(s, steps[0]), steps[1..], t, now)
  }

  lemma WantedFollows(s: State, step: Step)
    requires Enabled(s, step)
    ensures Next(s, step).wanted == match step
      case SetterWrite(v) => Some(Holding(v, true))
      case ResetCall => if s.stored then Some(DEFAULT) else s.wanted
      case External(_) => None
      case _ => s.wanted
  {
    hide UseData, UseConfig, PostMain, PostConfig, PostConfigIf, FreeConfig, SetConfigValue, HandleMain, HandleConfig;
  }

  lemma {:induction false} WantedIsLastRequest(s: State, steps: seq<Step>, t: State)
    requires Runs(s, steps, t)
    ensures t.wanted == LastRequest(s, steps, t, s.wanted)
    decreases |steps|
  {
    if steps != [] {
      WantedFollows(s, steps[0]);
      WantedIsLastRequest(Next(s, steps[0]), steps[1..], t);
    }
  }

  /**
   * After any run, once initialization is over, every event handled and no setter under way: the property is the
   * value of the DConfig, and the bit tells whether that was set or is the default. The last setter or reset has had
   * its way: after a setter the DConfig has that value as set, after a reset the default.
   */
  lemma TheSidesAgree(property: Value, own: Holding, held: bool, steps: seq<Step>, t: State)
    requires Runs(Initial(property, own, held), steps, t)
    requires t.owner && t.stored && AtRest(t)
    ensures t.property == t.own.value && (t.bit <==> t.own.isSet)
    ensures var last := LastRequest(Initial(property, own, held), steps, t, None);
            last.Some? ==> t.own == last.value
  {
    InitiallyInStep(property, own, held);
    RunsStayInStep(Initial(property, own, held), steps, t);
    WantedIsLastRequest(Initial(property, own, held), steps, t);
    QuietAndInStep(t);
  }

  // ---- Where nothing is asked for ----

  predicate AsksForNothing(s: State, step: Step) {
    !step.SetterWrite? && !step.External? && (step.ResetCall? ==> !s.stored)
  }

  ghost predicate RunAsksForNothing(s: State, steps: seq<Step>, t: State)
    requires Runs(s, steps, t)
    decreases |steps|
  {
    steps == [] || (AsksForNothing(s, steps[0]) && RunAsksForNothing(Next(s, steps[0]), steps[1..], t))
  }

  /** Nothing is on its way to the DConfig, which still holds what it held. */
  ghost predicate Untouched(s: State, own: Holding) {
    s.owner ==>
      && s.main.Ready? && LastAsked(s.configQueue, None).None?
      && s.own == own && !s.config.Writing? && !s.config.Reading? && (Unread(s) ==> !s.bit)
  }

  lemma StaysUntouched(s: State, step: Step, own: Holding)
    requires InStep(s) && Enabled(s, step) && AsksForNothing(s, step) && Untouched(s, own)
    ensures Untouched(Next(s, step), own)
  {
    if !s.owner {
      StepsStayInStep(s, step);
      StaysUnowned(s, step);
    } else {
      Here(s);
      hide InStep, LastAsked;
      if step.ConfigTakes? {
        Taken(s);
        LeavesUntouched(s, step.sync, own);
      } else if step.Discard? {
        hide OnlyWorker;
        WorkersAskNothing(s.configQueue);
      } else {
        hide OnlyWorker, FreeConfig, SetConfigValue, HandleConfig;
      }
    }
  }

  lemma LeavesUntouched(s: State, sync: bool, own: Holding)
    requires InStep(s) && s.owner && Enabled(s, ConfigTakes(sync)) && Untouched(s, own)
    requires LastAsked(s.configQueue[1..], None).None? && Asks(s.configQueue[0]).None?
    ensures Untouched(Next(s, ConfigTakes(sync)), own)
  {
    Here(s);
    hide InStep, LastAsked, FreeConfig, SetConfigValue;
  }

  lemma {:induction false} RunStaysUntouched(s: State, steps: seq<Step>, t: State, own: Holding)
    requires InStep(s) && Untouched(s, own) && Runs(s, steps, t) && RunAsksForNothing(s, steps, t)
    ensures Untouched(t, own) && InStep(t)
    decreases |steps|
  {
    hide InStep, Untouched, AsksForNothing, Next, Enabled;
    if steps != [] {
      StaysUntouched(s, steps[0], own);
      StepsStayInStep(s, steps[0]);
      RunStaysUntouched(Next(s, steps[0]), steps[1..], t, own);
    }
  }

  /**
   * As long as a program asks for nothing, and nobody else does, its wrapper leaves the DConfig as it is, and once
   * initialization is over and every event handled, the property has its value.
   */
  lemma NothingIsChangedUnasked(property: Value, own: Holding, held: bool, steps: seq<Step>, t: State)
    requires Runs(Initial(property, own, held), steps, t)
    requires RunAsksForNothing(Initial(property, own, held), steps, t)
    ensures t.owner ==> t.own == own
    ensures t.owner && t.stored && AtRest(t) ==> t.property == own.value && (t.bit <==> own.isSet)
  {
    var s := Initial(property, own, held);
    InitiallyInStep(property, own, held);
    assert LastAsked([Worker], None) == LastAsked([], None);
    assert Untouched(s, own);
    RunStaysUntouched(s, steps, t, own);
  }
}
