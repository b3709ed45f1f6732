/** Left alone, the generated wrapper comes to rest: each of its own steps uses up some of a finite amount of work. */
module ConfigRest {
  import opened Basics
  import opened ConfigWrapper

  /** The steps that the program and the world outside take; all others follow from them. */
  predicate IsCall(step: Step) {
    step.SetterWrite? || step.ResetCall? || step.Destroy? || step.External?
  }

  // ---- How much is left to do ----

  function MainEventWork(e: MainEvent): nat {
    match e
    case InitFailed | Mirror(_) | DeleteData => 1
    case ConfigGone => 2
    case InitDone => 6
  }

  function ConfigEventWork(e: ConfigEvent): nat {
    match e
    case DeleteConfig => 4
    case BackendSignal => 4
    case SetValue(_) | Reset => 5
    case Worker => 21
  }

  function MainWork(q: seq<MainEvent>): nat {
    if q == [] then 0 else MainEventWork(q[0]) + MainWork(q[1..])
  }

  function ConfigWork(q: seq<ConfigEvent>): nat {
    if q == [] then 0 else ConfigEventWork(q[0]) + ConfigWork(q[1..])
  }

  function SetterWork(main: MainAt): nat {
    match main
    case Ready => 0
    case Loaded(_, _) => 6
    case Marked(_) => 7
    case Wrote(_) => 8
  }

  function WorkerWork(at: ConfigAt): nat {
    match at
    case Idle => 0
    case Posting(slot, _) => if slot then 2 else 10
    case Updating(slot) => if slot then 3 else 11
    case Announcing => 7
    case Connecting => 8
    case Writing(_) => 13
    case Reading => 14
    case Testing => 15
    case Storing => 16
    case Discarding(_) => 3
    case Failing(_) => 5
    case Creating => 17
  }

  function Work(s: State): nat {
    MainWork(s.mainQueue) + ConfigWork(s.configQueue) + SetterWork(s.main) + WorkerWork(s.config)
  }

  lemma {:induction false} MainWorkWith(q: seq<MainEvent>, e: MainEvent)
    ensures MainWork(q + [e]) == MainWork(q) + MainEventWork(e)
  {
    if q == [] {
      assert [] + [e] == [e];
    } else {
      assert (q + [e])[1..] == q[1..] + [e];
      MainWorkWith(q[1..], e);
    }
  }

  lemma {:induction false} ConfigWorkWith(q: seq<ConfigEvent>, e: ConfigEvent)
    ensures ConfigWork(q + [e]) == ConfigWork(q) + ConfigEventWork(e)
  {
    if q == [] {
      assert [] + [e] == [e];
    } else {
      assert (q + [e])[1..] == q[1..] + [e];
      ConfigWorkWith(q[1..], e);
    }
  }

  lemma {:induction false} OnlyWorkerIsLess(q: seq<ConfigEvent>)
    ensures ConfigWork(OnlyWorker(q)) <= ConfigWork(q)
  {
    if q != [] {
      OnlyWorkerIsLess(q[1..]);
      if q[0].Worker? {
        assert OnlyWorker(q)[1..] == OnlyWorker(q[1..]);
      } else {
        assert OnlyWorker(q) == OnlyWorker(q[1..]);
      }
    }
  }

  // ---- Every step uses some of it up ----

  lemma SameWork(s: State, t: State)
    requires t.mainQueue == s.mainQueue && t.configQueue == s.configQueue && t.main == s.main && t.config == s.config
    ensures Work(t) == Work(s)
  {
  }

  lemma WorkWithMain(s: State, q: seq<MainEvent>)
    ensures Work(s.(mainQueue := q)) == Work(s) - MainWork(s.mainQueue) + MainWork(q)
  {
    hide MainWork, ConfigWork, SetterWork, WorkerWork;
  }

  lemma WorkWithConfig(s: State, q: seq<ConfigEvent>)
    ensures Work(s.(configQueue := q)) == Work(s) - ConfigWork(s.configQueue) + ConfigWork(q)
  {
    hide MainWork, ConfigWork, SetterWork, WorkerWork;
  }

  lemma UsesKeepWork(s: State)
    ensures Work(UseData(s)) == Work(s) && Work(UseConfig(s)) == Work(s)
    ensures UseData(s).config == UseConfig(s).config == s.config && UseData(s).main == s.main
    ensures UseConfig(s).connected == s.connected
  {
    SameWork(s, s.(fault := true));
    hide Work, ConfigAlive;
  }

  lemma PostMainWork(s: State, e: MainEvent)
    ensures Work(PostMain(s, e)) <= Work(s) + MainEventWork(e)
    ensures PostMain(s, e).main == s.main && PostMain(s, e).config == s.config
  {
    MainWorkWith(s.mainQueue, e);
    WorkWithMain(s, s.mainQueue + [e]);
    SameWork(s, s.(fault := true));
    hide Work, MainWork, MainEventWork;
  }

  lemma PostConfigWork(s: State, e: ConfigEvent)
    ensures Work(PostConfig(s, e)) <= Work(s) + ConfigEventWork(e)
    ensures PostConfig(s, e).main == s.main && PostConfig(s, e).config == s.config
  {
    ConfigWorkWith(s.configQueue, e);
    WorkWithConfig(s, s.configQueue + [e]);
    SameWork(s, s.(fault := true));
    hide Work, ConfigWork, ConfigEventWork, ConfigAlive;
  }

  lemma FreeConfigWork(s: State)
    ensures Work(FreeConfig(s)) <= Work(s) + 2
    ensures FreeConfig(s).config == s.config
  {
    var u := s.(configFreed := s.configFreed + 1);
    var t := u.(configQueue := OnlyWorker(s.configQueue));
    OnlyWorkerIsLess(s.configQueue);
    SameWork(s, u);
    WorkWithConfig(u, OnlyWorker(s.configQueue));
    PostMainWork(t, ConfigGone);
    assert FreeConfig(s) == if s.linked then PostMain(t, ConfigGone) else t;
    hide Work, PostMain, OnlyWorker, FreeConfig, ConfigWork;
  }

  lemma FreeDataWork(s: State)
    ensures Work(FreeData(s)) <= Work(s)
  {
    assert MainWork([]) == 0;
    var t := s.(mainQueue := []);
    WorkWithMain(s, []);
    SameWork(t, FreeData(s));
    hide Work, MainWork;
  }

  lemma SetConfigValueWork(s: State, h: Holding, sync: bool)
    requires s.config.Idle? || !s.connected
    ensures Work(SetConfigValue(s, h, sync)) <= Work(s) + 4
  {
    var u := UseConfig(s).(own := h);
    UsesKeepWork(s);
    SameWork(UseConfig(s), u);
    PostConfigWork(u, BackendSignal);
    if s.config.Idle? {
      WorkAt(u, Updating(true));
    }
    hide Work, UseConfig, PostConfig;
  }

  /** Another place of the config thread. */
  lemma WorkAt(s: State, at: ConfigAt)
    ensures Work(s.(config := at)) == Work(s) - WorkerWork(s.config) + WorkerWork(at)
  {
    hide MainWork, ConfigWork, SetterWork, WorkerWork;
  }

  lemma SetterWorkAt(s: State, at: MainAt)
    ensures Work(s.(main := at)) == Work(s) - SetterWork(s.main) + SetterWork(at)
  {
    hide MainWork, ConfigWork, SetterWork, WorkerWork;
  }

  lemma CallsWork(s: State, step: Step)
    requires Enabled(s, step) && (step.SetterMark? || step.SetterLoad? || step.SetterPost?)
    ensures Work(Next(s, step)) < Work(s)
  {
    UsesKeepWork(s);
    if step.SetterMark? {
      SetterWorkAt(UseData(s), Marked(s.main.v));
      SameWork(UseData(s).(main := Marked(s.main.v)), Next(s, step));
    } else if step.SetterLoad? {
      SetterWorkAt(UseData(s), Loaded(s.main.v, s.stored));
    } else {
      SetterWorkAt(s, Ready);
      PostConfigWork(s.(main := Ready), SetValue(s.main.v));
    }
    hide Work, UseData, PostConfig;
  }

  lemma HandleMainWork(s: State, e: MainEvent)
    ensures Work(HandleMain(s, e)) < Work(s) + MainEventWork(e)
  {
    FreeDataWork(s);
    match e
    case InitFailed =>
      SameWork(s, s.(status := Failed));
    case InitDone =>
      UsesKeepWork(s);
      SameWork(UseConfig(s), UseConfig(s).(status := Succeeded, linked := true));
      PostConfigWork(s, DeleteConfig);
      PostMainWork(PostConfig(s, DeleteConfig), DeleteData);
      hide Work, UseConfig, PostConfig, PostMain;
    case Mirror(v) =>
      SameWork(s, s.(property := v));
    case ConfigGone =>
      PostMainWork(s, DeleteData);
    case DeleteData =>
  }

  lemma MainTakesWork(s: State)
    requires Enabled(s, MainTakes)
    ensures Work(Next(s, MainTakes)) < Work(s)
  {
    var e, u := s.mainQueue[0], UseData(s);
    var t := u.(mainQueue := s.mainQueue[1..]);
    UsesKeepWork(s);
    WorkWithMain(u, s.mainQueue[1..]);
    assert MainWork(s.mainQueue) == MainEventWork(e) + MainWork(t.mainQueue);
    HandleMainWork(t, e);
    assert Next(s, MainTakes) == HandleMain(t, e);
    hide Work, HandleMain, UseData, Next;
  }

  lemma HandleConfigWork(s: State, e: ConfigEvent, sync: bool)
    requires s.config.Idle?
    ensures Work(HandleConfig(s, e, sync)) < Work(s) + ConfigEventWork(e)
  {
    UsesKeepWork(s);
    match e
    case Worker =>
      PostMainWork(s, DeleteData);
      WorkAt(UseData(s), Creating);
      SameWork(UseData(s).(config := Creating), UseData(s).(status := Initializing, config := Creating));
      hide Work, UseData, PostMain;
    case SetValue(v) => SetConfigValueWork(s, Holding(v, true), sync);
    case Reset => SetConfigValueWork(s, DEFAULT, sync);
    case BackendSignal =>
      WorkAt(UseConfig(s), Updating(true));
      hide Work, UseConfig;
    case DeleteConfig => FreeConfigWork(s);
  }

  lemma ConfigTakesWork(s: State, sync: bool)
    requires Enabled(s, ConfigTakes(sync))
    ensures Work(Next(s, ConfigTakes(sync))) < Work(s)
  {
    var e, t := s.configQueue[0], s.(configQueue := s.configQueue[1..]);
    WorkWithConfig(s, s.configQueue[1..]);
    assert ConfigWork(s.configQueue) == ConfigEventWork(e) + ConfigWork(t.configQueue);
    HandleConfigWork(t, e, sync);
    hide Work, HandleConfig;
  }

  /** A step that only moves the config thread on. */
  lemma MovingWorks(s: State, u: State, at: ConfigAt, t: State)
    requires Work(u) == Work(s) && u.config == s.config && WorkerWork(at) < WorkerWork(s.config)
    requires t.mainQueue == u.mainQueue && t.configQueue == u.configQueue && t.main == u.main && t.config == at
    ensures Work(t) < Work(s)
  {
    WorkAt(u, at);
    SameWork(u.(config := at), t);
    hide Work, WorkerWork;
  }

  lemma CreationWorks(s: State, step: Step)
    requires Enabled(s, step) && (step.Create? || step.Store? || step.Test? || step.Read?)
    ensures Work(Next(s, step)) < Work(s)
  {
    UsesKeepWork(s);
    var t := Next(s, step);
    hide Work, UseData;
    match step
    case Create(outcome) => MovingWorks(s, s, t.config, t);
    case _ => MovingWorks(s, UseData(s), t.config, t);
  }

  lemma FetchingWorks(s: State, step: Step)
    requires Enabled(s, step) && (step.Update? || step.Connect?)
    ensures Work(Next(s, step)) < Work(s)
  {
    UsesKeepWork(s);
    UsesKeepWork(UseData(s));
    var t := Next(s, step);
    hide Work, UseData, UseConfig;
    MovingWorks(s, UseConfig(UseData(s)), t.config, t);
  }

  lemma PostingWorks(s: State, step: Step)
    requires Enabled(s, step) && (step.AnnounceFailure? || step.PostMirror? || step.Announce?)
    ensures Work(Next(s, step)) < Work(s)
  {
    var e := match step
      case AnnounceFailure => InitFailed
      case PostMirror => Mirror(s.config.v)
      case _ => InitDone;
    PostMainWork(s, e);
    WorkAt(PostMain(s, e), Next(s, step).config);
    hide Work, PostMain;
  }

  lemma DiscardWorks(s: State)
    requires Enabled(s, Discard)
    ensures Work(Next(s, Discard)) < Work(s)
  {
    hide Work, FreeConfig, UseConfig;
    var t := UseConfig(s);
    UsesKeepWork(s);
    FreeConfigWork(t);
    if s.config.made {
      WorkAt(FreeConfig(t), Idle);
    } else {
      WorkAt(s, Idle);
    }
  }

  lemma InitWriteWorks(s: State, sync: bool)
    requires Sound(s) && Enabled(s, InitWrite(sync))
    ensures Work(Next(s, InitWrite(sync))) < Work(s)
  {
    NotYetConnected(s);
    var t, h := s.(config := Connecting), Holding(s.config.v, true);
    WorkAt(s, Connecting);
    SetConfigValueWork(t, h, sync);
    assert Next(s, InitWrite(sync)) == SetConfigValue(t, h, sync);
    hide Work, SetConfigValue, Sound, Next;
  }

  lemma NotYetConnected(s: State)
    requires Sound(s) && s.config.Writing?
    ensures !s.connected
  {
    assert InWorker(s);
    hide TallyMain, TallyConfig;
  }

  lemma StepsUseUpWork(s: State, step: Step)
    requires Sound(s) && Enabled(s, step) && !IsCall(step)
    ensures Work(Next(s, step)) < Work(s)
  {
    hide Work, Sound, Next, Enabled;
    match step
    case SetterMark | SetterLoad | SetterPost => CallsWork(s, step);
    case MainTakes => MainTakesWork(s);
    case ConfigTakes(sync) => ConfigTakesWork(s, sync);
    case Create(_) | Store | Test | Read => CreationWorks(s, step);
    case Update | Connect => FetchingWorks(s, step);
    case AnnounceFailure | PostMirror | Announce => PostingWorks(s, step);
    case Discard => DiscardWorks(s);
    case InitWrite(sync) => InitWriteWorks(s, sync);
  }

  /** A run without calls is no longer than what is left to do when it begins. */
  lemma {:induction false} RunsEnd(s: State, steps: seq<Step>, t: State)
    requires Sound(s) && Runs(s, steps, t) && forall step <- steps :: !IsCall(step)
    ensures |steps| <= Work(s)
    decreases |steps|
  {
    hide Sound, Work, Next, Enabled;
    if steps != [] {
      assert steps[0] in steps && forall step <- steps[1..] :: step in steps;
      StepsUseUpWork(s, steps[0]);
      StepsKeepSound(s, steps[0]);
      RunsEnd(Next(s, steps[0]), steps[1..], t);
    }
  }

  /**
   * From any state that a wrapper can come to, it comes to rest by itself: there is a run without further calls to a
   * state at rest, and no such run takes more steps than there is work left.
   */
  lemma {:induction false} ComesToRest(property: Value, own: Holding, held: bool, before: seq<Step>, s: State)
    returns (steps: seq<Step>, t: State)
    requires Runs(Initial(property, own, held), before, s)
    ensures Runs(s, steps, t) && AtRest(t) && forall step <- steps :: !IsCall(step)
    ensures forall more, u :: Runs(s, more, u) && (forall step <- more :: !IsCall(step)) ==> |more| <= Work(s)
    decreases Work(s)
  {
    InitiallySound(property, own, held);
    RunsKeepSound(Initial(property, own, held), before, s);
    hide Sound, Work, Next, Enabled;
    forall more, u | Runs(s, more, u) && (forall step <- more :: !IsCall(step)) ensures |more| <= Work(s) {
      RunsEnd(s, more, u);
    }
    if AtRest(s) {
      steps, t := [], s;
    } else {
      var step := NeverStuck(property, own, held, before, s);
      StepsUseUpWork(s, step);
      OneMoreStep(Initial(property, own, held), before, s, step);
      steps, t := ComesToRest(property, own, held, before + [step], Next(s, step));
      assert ([step] + steps)[1..] == steps;
      steps := [step] + steps;
    }
  }
}
