/** When destroying the owner lets the config thread use Data after it has been freed. */
module ConfigRace {
  import opened Basics
  import opened ConfigWrapper

  /** Some interleaving leads from one state to the other. */
  ghost predicate Leads(s: State, t: State) {
    exists steps :: Runs(s, steps, t)
  }

  lemma LeadsNowhere(s: State)
    ensures Leads(s, s)
  {
    assert Runs(s, [], s);
  }

  lemma LeadsOn(s: State, t: State, step: Step)
    requires Leads(s, t) && Enabled(t, step)
    ensures Leads(s, Next(t, step))
  {
    hide Enabled, Next;
    var steps :| Runs(s, steps, t);
    OneMoreStep(s, steps, t, step);
  }

  // ---- The worker comes to its end ----

  /** Without an owner, and with Data freed whenever the main thread comes to it. */
  ghost predicate Orphaned(s: State) {
    Sound(s) && !s.owner && !s.held
  }

  /** The worker has not failed. */
  predicate Works(s: State) {
    InWorker(s) && !s.config.Failing?
  }

  /** How far the worker is from its end. */
  function Distance(at: ConfigAt): nat {
    match at
    case Creating => 8
    case Storing => 7
    case Testing => 6
    case Reading => 5
    case Writing(_) => 4
    case Updating(_) => 4
    case Posting(_, _) => 3
    case Connecting => 2
    case Announcing => 1
    case _ => 0
  }

  /** A next step for the worker that leads to success. */
  function Onward(s: State): Step {
    match s.config
    case Creating => Create(GoodConfig)
    case Storing => Store
    case Testing => Test
    case Reading => Read
    case Writing(_) => InitWrite(true)
    case Updating(_) => Update
    case Posting(_, _) => PostMirror
    case Connecting => Connect
    case _ => Announce
  }

  lemma OnwardMaking(s: State)
    requires Orphaned(s) && Works(s)
    requires s.config.Creating? || s.config.Storing? || s.config.Testing? || s.config.Reading?
    ensures Enabled(s, Onward(s))
    ensures var t := Next(s, Onward(s)); !t.owner && !t.held && Works(t) && Distance(t.config) < Distance(s.config)
  {
    hide Sound;
  }

  lemma OnwardFilling(s: State)
    requires Orphaned(s) && Works(s)
    requires s.config.Writing? || s.config.Updating? || s.config.Posting? || s.config.Connecting?
    ensures Enabled(s, Onward(s))
    ensures var t := Next(s, Onward(s)); !t.owner && !t.held && Works(t) && Distance(t.config) < Distance(s.config)
  {
    hide TallyMain, TallyConfig, Guarded;
  }

  lemma OnwardAnnouncing(s: State)
    requires Orphaned(s) && s.config.Announcing?
    ensures Enabled(s, Announce)
    ensures var t := Next(s, Announce); !t.owner && !t.held && t.config.Idle? && MainTallyOf(t).done > 0
  {
    hide TallyMain, TallyConfig;
    InUse(s);
    TallyMainPost(s.mainQueue, InitDone);
  }

  /** Whatever the worker is at, it can get to announcing the DConfig. */
  lemma WorkerAnnounces(s: State, u: State) returns (t: State)
    requires Leads(s, u) && Orphaned(u) && Works(u)
    ensures Leads(s, t) && Orphaned(t) && t.config.Idle? && MainTallyOf(t).done > 0
    decreases Distance(u.config)
  {
    hide Leads, Sound, Next, Enabled, MainTallyOf;
    var step := Onward(u);
    if u.config.Announcing? {
      OnwardAnnouncing(u);
    } else if u.config.Creating? || u.config.Storing? || u.config.Testing? || u.config.Reading? {
      OnwardMaking(u);
    } else {
      OnwardFilling(u);
    }
    LeadsOn(s, u, step);
    StepsKeepSound(u, step);
    t := Next(u, step);
    if !u.config.Announcing? {
      t := WorkerAnnounces(s, t);
    }
  }

  // ---- A change of the value calls `updateValue` ----

  lemma AnnouncedConfigLives(s: State)
    requires Sound(s) && MainTallyOf(s).done > 0
    ensures ConfigAlive(s) && s.connected && s.dataFreed == 0
    ensures ConfigTallyOf(s).workers == 0 && ConfigTallyOf(s).deletes == 0
    ensures MainTallyOf(s).failed == 0 && MainTallyOf(s).gone == 0
  {
    hide TallyMain, TallyConfig;
  }

  lemma SignalTaken(s: State)
    requires Orphaned(s) && s.config.Idle? && MainTallyOf(s).done > 0 && s.configQueue != []
    ensures var t := Next(s, ConfigTakes(true));
            && !t.owner && !t.held && t.mainQueue == s.mainQueue
            && (InSlot(t)
                || (t.config.Idle? && t.configQueue == s.configQueue[1..] && !s.configQueue[0].BackendSignal?))
  {
    AnnouncedConfigLives(s);
    TallyConfigTake(s.configQueue);
    hide Sound, TallyMain, TallyConfig;
  }

  lemma SignalReachesSlot(s: State, u: State) returns (t: State)
    requires Leads(s, u) && Orphaned(u) && u.config.Idle? && MainTallyOf(u).done > 0
    requires u.configQueue != [] && u.configQueue[|u.configQueue| - 1].BackendSignal?
    ensures Leads(s, t) && Orphaned(t) && InSlot(t) && MainTallyOf(t).done > 0
    decreases |u.configQueue|
  {
    SignalTaken(u);
    hide Leads, Sound, Next;
    LeadsOn(s, u, ConfigTakes(true));
    StepsKeepSound(u, ConfigTakes(true));
    t := Next(u, ConfigTakes(true));
    if !InSlot(t) {
      t := SignalReachesSlot(s, t);
    }
  }

  /** Somebody changes the value, and the DConfig comes to signal it. */
  lemma ChangeReachesSlot(s: State, u: State) returns (t: State)
    requires Leads(s, u) && Orphaned(u) && u.config.Idle? && MainTallyOf(u).done > 0
    ensures Leads(s, t) && Orphaned(t) && InSlot(t) && MainTallyOf(t).done > 0
  {
    AnnouncedConfigLives(u);
    var step := External(Holding(u.own.value, !u.own.isSet));
    LeadsOn(s, u, step);
    StepsKeepSound(u, step);
    t := Next(u, step);
    hide Leads, Sound;
    t := SignalReachesSlot(s, t);
  }

  // ---- Meanwhile the main thread frees Data ----

  lemma MainDrains(s: State)
    requires Orphaned(s) && InSlot(s) && MainTallyOf(s).done + MainTallyOf(s).deletes > 0
    ensures Enabled(s, MainTakes)
    ensures var t := Next(s, MainTakes);
            && !t.owner && !t.held && t.config == s.config
            && (t.dataFreed > 0
                || (MainTallyOf(t).done + MainTallyOf(t).deletes > 0
                    && (MainTallyOf(t).done < MainTallyOf(s).done
                        || (MainTallyOf(t).done == MainTallyOf(s).done && |t.mainQueue| < |s.mainQueue|))))
  {
    hide TallyMain, TallyConfig, Guarded;
    TallyNothing();
    TallyMainTake(s.mainQueue);
    TallyMainPost(s.mainQueue[1..], DeleteData);
  }

  lemma MainFreesData(s: State, u: State) returns (t: State)
    requires Leads(s, u) && Orphaned(u) && InSlot(u) && MainTallyOf(u).done + MainTallyOf(u).deletes > 0
    ensures Leads(s, t) && InSlot(t) && t.dataFreed > 0
    decreases MainTallyOf(u).done, |u.mainQueue|
  {
    MainDrains(u);
    hide Leads, Sound, Next, Enabled;
    LeadsOn(s, u, MainTakes);
    StepsKeepSound(u, MainTakes);
    t := Next(u, MainTakes);
    if t.dataFreed == 0 {
      t := MainFreesData(s, t);
    }
  }

  lemma SlotUsesData(u: State, step: Step)
    requires InSlot(u) && u.dataFreed > 0 && step == if u.config.Updating? then Update else PostMirror
    ensures Enabled(u, step) && Next(u, step).fault
  {
  }

  /** The rest of `updateValue` then uses what is gone. */
  lemma SlotFaults(s: State, u: State) returns (t: State)
    requires Leads(s, u) && InSlot(u) && u.dataFreed > 0
    ensures Leads(s, t) && t.fault
  {
    var step := if u.config.Updating? then Update else PostMirror;
    SlotUsesData(u, step);
    hide Next, Enabled;
    LeadsOn(s, u, step);
    t := Next(u, step);
  }

  // ---- Exactly when ----

  /** The owner is destroyed during initialization, and that has not failed. */
  predicate Races(s: State) {
    s.status == Initializing && !s.config.Failing? && !s.config.Discarding? && InitFailed !in s.mainQueue
  }

  lemma {:induction false} FailedIsQueued(q: seq<MainEvent>)
    ensures TallyMain(q).failed > 0 <==> InitFailed in q
  {
    if q != [] {
      FailedIsQueued(q[1..]);
    }
  }

  lemma RaceStarts(s: State)
    requires Sound(s) && Races(s) && Enabled(s, Destroy) && !s.held
    ensures var t := Next(s, Destroy);
            Orphaned(t) && (Works(t) || ((t.config.Idle? || InSlot(t)) && MainTallyOf(t).done > 0))
  {
    SoundDestroy(s);
    FailedIsQueued(s.mainQueue);
    InUse(s);
    hide TallyMain, TallyConfig, Guarded, Conserved;
  }

  lemma RaceFaults(s: State) returns (t: State)
    requires Sound(s) && Races(s) && Enabled(s, Destroy) && !s.held
    ensures Leads(Next(s, Destroy), t) && t.fault
  {
    RaceStarts(s);
    hide Next, Enabled, Leads, Sound;
    var u := Next(s, Destroy);
    LeadsNowhere(u);
    t := u;
    if Works(t) {
      t := WorkerAnnounces(u, t);
    }
    if !InSlot(t) {
      t := ChangeReachesSlot(u, t);
    }
    t := MainFreesData(u, t);
    t := SlotFaults(u, t);
  }

  // ---- Otherwise ----

  /** The worker has failed and the owner is gone: Data, and a DConfig that nobody got to know, are left to free. */
  ghost predicate FailedSafely(s: State) {
    && Sound(s) && !s.owner && !s.stored && !s.fault && ConfigTallyOf(s).workers == 0
    && (s.config.Idle? || s.config.Failing? || s.config.Discarding?)
  }

  lemma NothingQueued(s: State)
    requires FailedSafely(s) && s.config.Idle?
    ensures s.configQueue == []
  {
    if s.configQueue != [] {
      TallyConfigTake(s.configQueue);
    }
    hide TallyMain, TallyConfig;
  }

  lemma FailureMainTakes(s: State)
    requires FailedSafely(s) && Enabled(s, MainTakes)
    ensures var t := Next(s, MainTakes);
            !t.owner && !t.stored && !t.fault && t.config == s.config && t.configQueue == s.configQueue
  {
    FailureHasNoDone(s);
    TallyMainTake(s.mainQueue);
    hide Sound, TallyMain, TallyConfig, HandleConfig, SetConfigValue;
    match s.mainQueue[0]
    case InitFailed =>
    case InitDone =>
    case Mirror(_) =>
    case ConfigGone =>
    case DeleteData =>
  }

  lemma FailureHasNoDone(s: State)
    requires FailedSafely(s)
    ensures MainTallyOf(s).done == 0 && s.status == Destroyed && (s.mainQueue != [] ==> s.dataFreed == 0)
  {
    hide TallyMain, TallyConfig, Guarded;
  }

  lemma FailureGoesOn(s: State, step: Step)
    requires FailedSafely(s) && Enabled(s, step) && (step.AnnounceFailure? || step.Discard? || step.External?)
    ensures var t := Next(s, step);
            && !t.owner && !t.stored && !t.fault && ConfigTallyOf(t).workers == 0
            && (t.config.Idle? || t.config.Discarding? || t.config == s.config)
  {
    InUse(s);
    TallyOnlyWorker(s.configQueue);
    TallyConfigPost(s.configQueue, BackendSignal);
    hide TallyMain, TallyConfig, OnlyWorker, HandleMain, HandleConfig, SetConfigValue;
  }

  lemma FailureOnly(s: State, step: Step)
    requires FailedSafely(s) && Enabled(s, step)
    ensures step.MainTakes? || step.AnnounceFailure? || step.Discard? || step.External?
  {
    if s.config.Idle? {
      NothingQueued(s);
    }
    hide TallyMain, TallyConfig;
  }

  lemma {:induction false} FailureStaysSafe(s: State, steps: seq<Step>, t: State)
    requires FailedSafely(s) && Runs(s, steps, t)
    ensures !t.fault
    decreases |steps|
  {
    if steps != [] {
      var step := steps[0];
      FailureOnly(s, step);
      StepsKeepSound(s, step);
      if step.MainTakes? {
        FailureMainTakes(s);
      } else {
        FailureGoesOn(s, step);
      }
      hide Next, Enabled, Sound;
      FailureStaysSafe(Next(s, step), steps[1..], t);
    }
  }

  lemma FailureIsSafe(s: State)
    requires Sound(s) && s.status == Initializing && !Races(s) && Enabled(s, Destroy)
    ensures FailedSafely(Next(s, Destroy))
  {
    SoundDestroy(s);
    FailedIsQueued(s.mainQueue);
    InUse(s);
    hide TallyMain, TallyConfig;
  }

  /** Without an owner `early` does not change any more. */
  lemma {:induction false} RunKeepsEarly(s: State, steps: seq<Step>, t: State)
    requires Sound(s) && Runs(s, steps, t) && !s.owner
    ensures t.early == s.early
    decreases |steps|
  {
    if steps != [] {
      StepsGoOn(s, steps[0]);
      StepsKeepSound(s, steps[0]);
      hide Next, Enabled, Sound;
      RunKeepsEarly(Next(s, steps[0]), steps[1..], t);
    }
  }

  lemma QuietDestroyIsSafe(s: State, steps: seq<Step>, t: State)
    requires Sound(s) && s.status != Initializing && Enabled(s, Destroy) && Runs(Next(s, Destroy), steps, t)
    ensures !t.fault
  {
    SoundDestroy(s);
    var u := Next(s, Destroy);
    assert !u.owner && !u.early;
    RunKeepsEarly(u, steps, t);
    RunsKeepSound(u, steps, t);
  }

  /**
   * Destroying the owner can lead to a use of freed memory if and only if it happens during initialization, before
   * that has failed, and nothing holds Data back while the config thread runs `updateValue` on it.
   */
  lemma DestroyFaultsIff(property: Value, own: Holding, held: bool, steps: seq<Step>, s: State)
    requires Runs(Initial(property, own, held), steps, s) && Enabled(s, Destroy)
    ensures (exists t :: Leads(Next(s, Destroy), t) && t.fault) <==> Races(s) && !held
  {
    InitiallySound(property, own, held);
    RunsKeepSound(Initial(property, own, held), steps, s);
    StatusNeverComesBack(Initial(property, own, held), steps, s);
    hide Runs, Sound, Enabled, Next;
    if Races(s) && !held {
      var t := RaceFaults(s);
    } else {
      forall t | Leads(Next(s, Destroy), t) ensures !t.fault {
        DestroyIsSafe(s, t);
      }
    }
  }

  lemma DestroyIsSafe(s: State, t: State)
    requires Sound(s) && Enabled(s, Destroy) && Leads(Next(s, Destroy), t) && (s.held || !Races(s))
    ensures !t.fault
  {
    var more :| Runs(Next(s, Destroy), more, t);
    SoundDestroy(s);
    if s.held {
      StepsGoOn(s, Destroy);
      RunsKeepSound(Next(s, Destroy), more, t);
      StatusNeverComesBack(Next(s, Destroy), more, t);
    } else if s.status == Initializing {
      FailureIsSafe(s);
      FailureStaysSafe(Next(s, Destroy), more, t);
    } else {
      QuietDestroyIsSafe(s, more, t);
    }
  }

  /** Such a run starts with the worker taking up its work. */
  lemma SomeRunFaults(property: Value, own: Holding) returns (steps: seq<Step>, t: State)
    ensures Runs(Initial(property, own, false), steps, t) && t.fault
  {
    var s := Initial(property, own, false);
    var u := Next(s, ConfigTakes(true));
    LeadsNowhere(s);
    LeadsOn(s, s, ConfigTakes(true));
    LeadsOn(s, u, Destroy);
    InitiallySound(property, own, false);
    StepsKeepSound(s, ConfigTakes(true));
    t := RaceFaults(u);
    LeadsFurther(s, Next(u, Destroy), t);
    steps :| Runs(s, steps, t);
  }

  /** What keeps every run free of faults is that Data outlives the slot. */
  lemma NoFaultIffHeld(property: Value, own: Holding, held: bool)
    ensures held <==> forall steps, t :: Runs(Initial(property, own, held), steps, t) ==> !t.fault
  {
    hide Runs;
    if held {
      forall steps, t | Runs(Initial(property, own, held), steps, t)
        ensures !t.fault
      {
        FaultsNeedARace(property, own, held, steps, t);
      }
    } else {
      var steps, t := SomeRunFaults(property, own);
      assert !(Runs(Initial(property, own, held), steps, t) ==> !t.fault);
    }
  }

  lemma LeadsFurther(s: State, t: State, u: State)
    requires Leads(s, t) && Leads(t, u)
    ensures Leads(s, u)
  {
    var a :| Runs(s, a, t);
    var b :| Runs(t, b, u);
    Joins(s, a, t, b, u);
  }

  lemma {:induction false} Joins(s: State, a: seq<Step>, t: State, b: seq<Step>, u: State)
    requires Runs(s, a, t) && Runs(t, b, u)
    ensures Runs(s, a + b, u)
    decreases |a|
  {
    hide Enabled, Next;
    if a == [] {
      assert a + b == b;
    } else {
      assert (a + b)[0] == a[0] && (a + b)[1..] == a[1..] + b;
      Joins(Next(s, a[0]), a[1..], t, b, u);
    }
  }

  // ---- Nothing freed is used unnoticed ----

  predicate SameLife(s: State, t: State) {
    t.dataFreed == s.dataFreed && t.made == s.made && t.configFreed == s.configFreed && t.linked == s.linked
  }

  lemma UseFaults(s: State)
    ensures (UseData(s).fault <==> s.fault || s.dataFreed > 0) && SameLife(s, UseData(s))
    ensures (UseConfig(s).fault <==> s.fault || !ConfigAlive(s)) && SameLife(s, UseConfig(s))
  {
  }

  lemma PostMainFaults(s: State, e: MainEvent)
    ensures (PostMain(s, e).fault <==> s.fault || s.dataFreed > 0) && SameLife(s, PostMain(s, e))
  {
  }

  lemma PostConfigFaults(s: State, e: ConfigEvent)
    ensures (PostConfig(s, e).fault <==> s.fault || !ConfigAlive(s)) && SameLife(s, PostConfig(s, e))
  {
  }

  lemma FreeConfigFaults(s: State)
    ensures FreeConfig(s).fault <==> s.fault || (s.linked && s.dataFreed > 0)
  {
    var u := s.(configFreed := s.configFreed + 1, configQueue := OnlyWorker(s.configQueue));
    PostMainFaults(u, ConfigGone);
    hide PostMain, OnlyWorker;
  }

  lemma SetConfigValueFaults(s: State, h: Holding, sync: bool)
    ensures SetConfigValue(s, h, sync).fault <==> s.fault || !ConfigAlive(s)
  {
    UseFaults(s);
    PostConfigFaults(UseConfig(s).(own := h), BackendSignal);
    hide UseConfig, PostConfig;
  }

  lemma InitDoneFaults(s: State)
    ensures HandleMain(s, InitDone).fault
            <==> s.fault || !ConfigAlive(s) || (s.status != Initializing && s.dataFreed > 0)
  {
    UseFaults(s);
    PostConfigFaults(s, DeleteConfig);
    PostMainFaults(PostConfig(s, DeleteConfig), DeleteData);
    hide UseConfig, PostConfig, PostMain, ConfigAlive;
  }

  lemma HandleMainFaults(s: State, e: MainEvent)
    requires !e.InitDone?
    ensures HandleMain(s, e).fault <==> s.fault || (e.ConfigGone? && s.dataFreed > 0)
  {
    match e
    case ConfigGone =>
      PostMainFaults(s, DeleteData);
      hide PostMain;
    case InitFailed =>
      hide PostMain;
    case _ =>
      hide PostMain;
  }

  lemma HandleConfigFaults(s: State, e: ConfigEvent, sync: bool)
    ensures HandleConfig(s, e, sync).fault <==> s.fault || match e
      case Worker => s.dataFreed > 0
      case DeleteConfig => s.linked && s.dataFreed > 0
      case _ => !ConfigAlive(s)
  {
    match e
    case Worker =>
      UseFaults(s);
      PostMainFaults(s, DeleteData);
      hide UseData, PostMain;
    case SetValue(v) =>
      SetConfigValueFaults(s, Holding(v, true), sync);
      hide SetConfigValue, ConfigAlive;
    case Reset =>
      SetConfigValueFaults(s, DEFAULT, sync);
      hide SetConfigValue, ConfigAlive;
    case BackendSignal =>
      UseFaults(s);
      hide UseConfig, ConfigAlive;
    case DeleteConfig =>
      FreeConfigFaults(s);
      hide FreeConfig;
  }

  lemma SetterFault(s: State, step: Step)
    requires Enabled(s, step) && (step.SetterWrite? || step.SetterMark? || step.SetterLoad?)
    ensures Next(s, step).fault <==> s.fault || IsFault(s, step)
  {
    UseFaults(s);
    hide UseData;
  }

  lemma CallPostFault(s: State, step: Step)
    requires Enabled(s, step) && (step.SetterPost? || step.ResetCall?)
    ensures Next(s, step).fault <==> s.fault || IsFault(s, step)
  {
    if step.SetterPost? {
      PostConfigFaults(s.(main := Ready), SetValue(s.main.v));
      hide PostConfig, ConfigAlive;
    } else {
      UseFaults(s);
      var t := UseData(s).(wanted := if s.stored then Some(DEFAULT) else s.wanted);
      PostConfigFaults(t, Reset);
      assert Next(s, step) == PostConfigIf(s.stored, t, Reset);
      hide UseData, PostConfig, Next;
    }
  }

  lemma DestroyFault(s: State)
    requires Enabled(s, Destroy)
    ensures Next(s, Destroy).fault <==> s.fault || IsFault(s, Destroy)
  {
    var t := UseData(s).(owner := false, status := Destroyed, early := s.early || s.status == Initializing);
    UseFaults(s);
    PostConfigFaults(t, DeleteConfig);
    PostMainFaults(t, DeleteData);
    hide UseData, PostConfig, PostMain;
  }

  lemma MainTakesFault(s: State)
    requires Enabled(s, MainTakes)
    ensures Next(s, MainTakes).fault <==> s.fault || IsFault(s, MainTakes)
  {
    var t, e := UseData(s).(mainQueue := s.mainQueue[1..]), s.mainQueue[0];
    UseFaults(s);
    if e.InitDone? {
      InitDoneFaults(t);
    } else {
      HandleMainFaults(t, e);
    }
    hide UseData, HandleMain;
  }

  lemma ConfigTakesFault(s: State, sync: bool)
    requires Enabled(s, ConfigTakes(sync))
    ensures Next(s, ConfigTakes(sync)).fault <==> s.fault || IsFault(s, ConfigTakes(sync))
  {
    var t, e := s.(configQueue := s.configQueue[1..]), s.configQueue[0];
    HandleConfigFaults(t, e, sync);
    assert Next(s, ConfigTakes(sync)) == HandleConfig(t, e, sync);
    hide HandleConfig, Next;
  }

  lemma WorkerFault(s: State, step: Step)
    requires Enabled(s, step)
    requires step.Create? || step.AnnounceFailure? || step.Discard? || step.Store? || step.Test? || step.Read?
    ensures Next(s, step).fault <==> s.fault || IsFault(s, step)
  {
    UseFaults(s);
    PostMainFaults(s, InitFailed);
    FreeConfigFaults(UseConfig(s));
    hide UseData, UseConfig, PostMain, FreeConfig;
  }

  lemma FillingFault(s: State, step: Step)
    requires Enabled(s, step)
    requires step.InitWrite? || step.Update? || step.Connect?
    ensures Next(s, step).fault <==> s.fault || IsFault(s, step)
  {
    UseFaults(s);
    UseFaults(UseData(s));
    if step.InitWrite? {
      SetConfigValueFaults(s.(config := Connecting), Holding(s.config.v, true), step.sync);
    }
    hide UseData, UseConfig, SetConfigValue;
  }

  lemma PostingFault(s: State, step: Step)
    requires Enabled(s, step) && (step.PostMirror? || step.Announce? || step.External?)
    ensures Next(s, step).fault <==> s.fault || IsFault(s, step)
  {
    match step
    case PostMirror => PostMainFaults(s, Mirror(s.config.v));
    case Announce => PostMainFaults(s, InitDone);
    case External(h) => PostConfigFaults(s.(own := h, wanted := None), BackendSignal);
  }

  /** The history of faults misses no use of something freed, and counts no other. */
  lemma FaultIffUsedFreed(s: State, step: Step)
    requires Enabled(s, step)
    ensures Next(s, step).fault <==> s.fault || IsFault(s, step)
  {
    hide Next, Enabled, IsFault;
    match step
    case SetterWrite(_) | SetterMark | SetterLoad => SetterFault(s, step);
    case SetterPost | ResetCall => CallPostFault(s, step);
    case Destroy => DestroyFault(s);
    case MainTakes => MainTakesFault(s);
    case ConfigTakes(sync) => ConfigTakesFault(s, sync);
    case Create(_) | AnnounceFailure | Discard | Store | Test | Read => WorkerFault(s, step);
    case InitWrite(_) | Update | Connect => FillingFault(s, step);
    case PostMirror | Announce | External(_) => PostingFault(s, step);
  }
}
