/** The watcher thread: a debounce that drains a burst of events against two clocks, and the
    refuse-reload-record loop behind it. The loop is a run of `ReloadMachine`. */
module PolicyWatcher {
  import opened Wrappers
  import opened Utf8
  import opened ReloadMachine
  import FileTree
  import PathResolution
  import TrustCheck
  import TrustAdequacy
  import TrustedLoad
  import Loader

  /** Milliseconds. */
  const DEBOUNCE: nat := 150
  const CEILING: nat := 2000

  // ---------------------------------------------------------------------------
  // The debounce
  // ---------------------------------------------------------------------------

  /** Events reach a live channel at these times, the burst's first event at `start`. */
  predicate AreArrivals(arrivals: seq<nat>, start: nat) {
    (forall i :: 0 <= i < |arrivals| ==> start <= arrivals[i]) &&
    (forall i, j :: 0 <= i < j < |arrivals| ==> arrivals[i] <= arrivals[j])
  }

  /** When the last event was received, of the first one and `k` more. */
  function LastEvent(arrivals: seq<nat>, start: nat, k: nat): nat
    requires k <= |arrivals|
  {
    if k == 0 then start else arrivals[k - 1]
  }

  /** Behind the first `k` events, nothing arrives for a full quiet period. */
  predicate IsQuiet(arrivals: seq<nat>, start: nat, k: nat)
    requires k <= |arrivals|
  {
    k == |arrivals| || arrivals[k] > LastEvent(arrivals, start, k) + DEBOUNCE
  }

  /** A full quiet period ends before the ceiling or with it. */
  predicate QuietInTime(arrivals: seq<nat>, start: nat, k: nat)
    requires k <= |arrivals|
  {
    IsQuiet(arrivals, start, k) && LastEvent(arrivals, start, k) + DEBOUNCE <= start + CEILING
  }

  /** The drain of one burst: it ends at `end` with `taken` further events received, and says whether the
      ceiling cut it short. */
  method Drain(arrivals: seq<nat>, start: nat) returns (end: nat, taken: nat, cutShort: bool)
    requires AreArrivals(arrivals, start)
    ensures start <= end <= start + 2000 && taken <= |arrivals|
    ensures arrivals == [] ==> end == start + 150 && !cutShort
    ensures cutShort <==> forall k :: 0 <= k <= |arrivals| ==> !QuietInTime(arrivals, start, k)
    ensures cutShort ==> end == start + CEILING
    ensures !cutShort ==> QuietInTime(arrivals, start, taken) && end == LastEvent(arrivals, start, taken) + DEBOUNCE
    ensures !cutShort ==> forall k :: 0 <= k < taken ==> !IsQuiet(arrivals, start, k)
  {
    var now := start;
    taken := 0;
    while true
      invariant taken <= |arrivals| && now == LastEvent(arrivals, start, taken)
      invariant start <= now <= start + CEILING
      invariant forall k :: 0 <= k < taken ==> !IsQuiet(arrivals, start, k)
      decreases |arrivals| - taken
    {
      assert forall k :: taken <= k <= |arrivals| ==>
          LastEvent(arrivals, start, taken) <= LastEvent(arrivals, start, k);
      var elapsed := now - start;
      if elapsed >= CEILING {
        return now, taken, true;
      }
      var wait := if DEBOUNCE <= CEILING - elapsed then DEBOUNCE else CEILING - elapsed;
      if taken == |arrivals| || arrivals[taken] > now + wait {
        assert wait == DEBOUNCE ==> QuietInTime(arrivals, start, taken);
        return now + wait, taken, wait < DEBOUNCE;
      }
      now := arrivals[taken];
      taken := taken + 1;
    }
  }

  // ---------------------------------------------------------------------------
  // The check and the load behind it
  // ---------------------------------------------------------------------------

  /** What the daemon is configured with, and the two calls into the policy language. */
  datatype Config<!P> = Config(
    path: FileTree.Path,
    euid: FileTree.Uid,
    linkLimit: nat,
    parse: Loader.Parser<P>,
    validates: Loader.Validator<P>)

  /** What one pass over the policy directory meets: the tree and the listing at the check, then the listing
      and the files at the load. */
  datatype Met = Met(
    tree: FileTree.Tree,
    checked: seq<Option<FileTree.Name>>,
    listed: Loader.Listing,
    files: map<Bytes, Loader.FileState>)

  predicate IsMet(m: Met) {
    FileTree.WellFormed(m.tree)
  }

  function Refusal<P>(m: Met, c: Config<P>, path: FileTree.Path): Option<TrustCheck.Refusal>
    requires IsMet(m)
  {
    TrustCheck.CheckPolicyDir(m.tree, path, m.checked, c.euid, c.linkLimit)
  }

  method Check<P>(m: Met, c: Config<P>, path: FileTree.Path) returns (r: Option<TrustCheck.Refusal>)
    requires IsMet(m)
    ensures r == Refusal(m, c, path)
  {
    r := TrustCheck.RefuseUntrustedPolicyDir(m.tree, path, m.checked, c.euid, c.linkLimit);
  }

  function LoadOf<P>(m: Met, c: Config<P>, generation: nat): Result<Loader.Loaded<P>, Loader.LoadError> {
    Loader.Load(m.listed, m.files, c.parse, c.validates, generation)
  }

  // ---------------------------------------------------------------------------
  // The engine, the recorder and the thread
  // ---------------------------------------------------------------------------

  class PolicyEngine<P> {
    const config: Config<P>
    var current: Loader.Loaded<P>

    constructor (config: Config<P>, first: Loader.Loaded<P>)
      ensures this.config == config && current == first
    {
      this.config, current := config, first;
    }

    /** Loads the directory and swaps in what it gave; on an error nothing changes. */
    method Reload(m: Met) returns (r: Result<nat, Loader.LoadError>)
      modifies this
      ensures var loaded := LoadOf(m, config, old(current.generation) + 1);
              if loaded.Err? then r == Err(loaded.error) && current == old(current)
              else r == Ok(old(current.generation) + 1) && current == loaded.value
    {
      var next := current.generation + 1;
      var loaded := Loader.LoadEntries(m.listed, m.files, config.parse, config.validates, next);
      match loaded {
        case Err(e) => return Err(e);
        case Ok(adopted) =>
          current := adopted;
          return Ok(next);
      }
    }
  }

  class Provenance {
    var trail: seq<Line>
    var health: Option<Outcome>

    constructor ()
      ensures trail == [] && health == None
    {
      trail, health := [], None;
    }

    /** To both surfaces: the trail first, then the health cell. */
    method Record(generation: nat, outcome: Outcome)
      modifies this
      ensures trail == old(trail) + [PolicySetLine(outcome, generation)] && health == Some(outcome)
    {
      trail := trail + [PolicySetLine(outcome, generation)];
      health := Some(outcome);
    }

    /** The bootstrap load goes to the trail only. */
    method RecordBootstrap(generation: nat)
      modifies this
      ensures trail == old(trail) + [PolicySetLine(SetLoaded, generation)] && health == old(health)
    {
      trail := trail + [PolicySetLine(SetLoaded, generation)];
    }
  }

  /** What one wakeup of the thread meets: a watch error, or a burst and then the directory. */
  datatype Received = WatchError | Burst(start: nat, arrivals: seq<nat>, met: Met)

  type Wakeup = w: Received | w.Burst? ==> AreArrivals(w.arrivals, w.start) && IsMet(w.met) witness WatchError

  /** What comes of a wakeup while `generation` is deciding. */
  function AttemptOf<P>(w: Wakeup, c: Config<P>, generation: nat): Attempt<Loader.Loaded<P>>
  {
    match w
    case WatchError => NoAttempt
    case Burst(_, _, met) =>
      if Refusal(met, c, c.path).Some? then Refuses else LoadAttempt(met, c, generation)
  }

  function LoadAttempt<P>(m: Met, c: Config<P>, generation: nat): Attempt<Loader.Loaded<P>> {
    match LoadOf(m, c, generation + 1)
    case Err(_) => Fails
    case Ok(next) => Adopts(next)
  }

  /** And as a function of wakeup and generation. */
  function Outcomes<P>(c: Config<P>): (Wakeup, nat) -> Attempt<Loader.Loaded<P>> {
    (w: Wakeup, generation: nat) => AttemptOf(w, c, generation)
  }

  // ---------------------------------------------------------------------------
  // What every wakeup is answered with
  // ---------------------------------------------------------------------------

  /** The line that reports on a burst met while `generation` is deciding. */
  function ReportOn<P>(m: Met, c: Config<P>, generation: nat): Line
    requires IsMet(m)
  {
    if TrustCheck.CheckPolicyDir(m.tree, c.path, m.checked, c.euid, c.linkLimit).Some? then
      PolicySetLine(ReloadRefused, generation)
    else if Loader.Load(m.listed, m.files, c.parse, c.validates, generation + 1).Err? then
      PolicySetLine(ReloadFailed, generation)
    else PolicySetLine(SetLoaded, generation + 1)
  }

  /** The set that is deciding after it. */
  function DecidingAfter<P>(m: Met, c: Config<P>, generation: nat, current: Loader.Loaded<P>): Loader.Loaded<P>
    requires IsMet(m)
  {
    var loaded := Loader.Load(m.listed, m.files, c.parse, c.validates, generation + 1);
    if TrustCheck.CheckPolicyDir(m.tree, c.path, m.checked, c.euid, c.linkLimit).None? && loaded.Ok? then loaded.value
    else current
  }

  /** A watch error changes nothing. A burst of any number of events adds its one line to the trail, the health
      cell shows its outcome, and the set and the generation are those the line speaks of. */
  ghost predicate IsAnswered<P>(s: State<Loader.Loaded<P>>, after: State<Loader.Loaded<P>>, w: Wakeup, c: Config<P>) {
    match w
    case WatchError => after == s
    case Burst(_, _, met) =>
      var line := ReportOn(met, c, s.generation);
      after.trail == s.trail + [line] && after.health == Some(line.outcome) && after.generation == line.generation &&
      after.current == DecidingAfter(met, c, s.generation, s.current) &&
      after.watcher == s.watcher && after.deciding == s.deciding
  }

  lemma AttemptIsAnswer<P>(s: State<Loader.Loaded<P>>, w: Wakeup, c: Config<P>)
    ensures IsAnswered(s, After(s, AttemptOf(w, c, s.generation)), w, c)
  {
  }

  /** The generation deciding behind those lines. */
  function GenerationBehind(lines: seq<Line>, generation: nat): nat {
    if lines == [] then generation else lines[|lines| - 1].generation
  }

  /** The lines that report on the first `n` wakeups: one for each burst, in order. */
  function Reports<P>(wakeups: seq<Wakeup>, c: Config<P>, generation: nat, n: nat): seq<Line>
    requires n <= |wakeups|
  {
    if n == 0 then []
    else
      var before := Reports(wakeups, c, generation, n - 1);
      match wakeups[n - 1]
      case WatchError => before
      case Burst(_, _, met) => before + [ReportOn(met, c, GenerationBehind(before, generation))]
  }

  function Bursts(wakeups: seq<Wakeup>, n: nat): nat
    requires n <= |wakeups|
  {
    if n == 0 then 0 else Bursts(wakeups, n - 1) + if wakeups[n - 1].Burst? then 1 else 0
  }

  /** Over any sequence of wakeups the trail grows by exactly those lines. */
  lemma {:induction false} WatchedReports<P>(s: State<Loader.Loaded<P>>, wakeups: seq<Wakeup>, n: nat, c: Config<P>)
    requires n <= |wakeups|
    ensures var end := Through(s, wakeups, Outcomes(c), n);
            end.trail == s.trail + Reports(wakeups, c, s.generation, n) &&
            end.generation == GenerationBehind(Reports(wakeups, c, s.generation, n), s.generation) &&
            |Reports(wakeups, c, s.generation, n)| == Bursts(wakeups, n)
  {
    if n == 0 {
      assert s.trail + [] == s.trail;
    } else {
      WatchedReports(s, wakeups, n - 1, c);
      AttemptIsAnswer(Through(s, wakeups, Outcomes(c), n - 1), wakeups[n - 1], c);
    }
  }

  class Thread<P> {
    const engine: PolicyEngine<P>
    const provenance: Provenance

    constructor (engine: PolicyEngine<P>, provenance: Provenance)
      ensures this.engine == engine && this.provenance == provenance
    {
      this.engine, this.provenance := engine, provenance;
    }

    /** The machine between two wakeups, with whatever requests are in flight. */
    ghost function View(deciding: map<nat, nat>): State<Loader.Loaded<P>>
      reads this, engine, provenance
    {
      State(engine.current, engine.current.generation, Idle, provenance.health, provenance.trail, deciding)
    }

    /** Loads a directory that passed the check, and records what came of it. */
    method Adopt(m: Met, ghost deciding: map<nat, nat>)
      modifies engine, provenance
      ensures View(deciding) ==
              After(old(View(deciding)), LoadAttempt(m, engine.config, old(engine.current.generation)))
    {
      LoadHasItsGeneration(m, engine.config, engine.current.generation + 1);
      var reloaded := engine.Reload(m);
      if reloaded.Ok? {
        provenance.Record(engine.current.generation, SetLoaded);
      } else {
        provenance.Record(engine.current.generation, ReloadFailed);
      }
    }

    /** Drains the burst, checks the directory, reloads it, and records what came of it. */
    method Wake(w: Wakeup, ghost deciding: map<nat, nat>)
      modifies engine, provenance
      ensures View(deciding) == After(old(View(deciding)), AttemptOf(w, engine.config, old(engine.current.generation)))
      ensures IsAnswered(old(View(deciding)), View(deciding), w, engine.config)
    {
      AttemptIsAnswer(View(deciding), w, engine.config);
      if w.WatchError? {
        return;
      }
      var end, taken, cutShort := Drain(w.arrivals, w.start);
      var refusal := Check(w.met, engine.config, engine.config.path);
      if refusal.Some? {
        provenance.Record(engine.current.generation, ReloadRefused);
      } else {
        Adopt(w.met, deciding);
      }
    }

    /** The thread over any sequence of wakeups. */
    method Watch(wakeups: seq<Wakeup>, ghost deciding: map<nat, nat>)
      modifies engine, provenance
      ensures View(deciding) == Through(old(View(deciding)), wakeups, Outcomes(engine.config), |wakeups|)
      ensures provenance.trail ==
              old(provenance.trail) + Reports(wakeups, engine.config, old(engine.current.generation), |wakeups|)
    {
      ghost var s := View(deciding);
      for n := 0 to |wakeups|
        invariant View(deciding) == Through(s, wakeups, Outcomes(engine.config), n)
      {
        Wake(wakeups[n], deciding);
      }
      WatchedReports(s, wakeups, |wakeups|, engine.config);
    }
  }

  lemma LoadHasItsGeneration<P>(m: Met, c: Config<P>, generation: nat)
    ensures LoadOf(m, c, generation).Ok? ==> LoadOf(m, c, generation).value.generation == generation
  {
  }

  datatype StartError = Untrusted(refusal: TrustCheck.Refusal) | NotLoaded(error: Loader.LoadError)

  /** Where the daemon's first check looks: the configured path is made absolute in front of it. */
  function StartRefusal<P>(m: Met, c: Config<P>): Option<TrustCheck.Refusal>
    requires IsMet(m)
  {
    Refusal(m, c, PathResolution.Absolutize(m.tree, c.path, c.linkLimit))
  }

  /** The daemon's start: check, load, record the bootstrap line, hand both to the thread. It does not start
      on a refusal or a failed load. */
  method Start<P>(config: Config<P>, m: Met) returns (r: Result<Thread<P>, StartError>)
    requires IsMet(m)
    ensures r.Err? <==> StartRefusal(m, config).Some? || LoadOf(m, config, 1).Err?
    ensures r.Err? ==> r.error == if StartRefusal(m, config).Some? then Untrusted(StartRefusal(m, config).value)
                                  else NotLoaded(LoadOf(m, config, 1).error)
    ensures r.Ok? ==>
              fresh(r.value) && fresh(r.value.engine) && fresh(r.value.provenance) &&
              r.value.engine.config == config && r.value.View(map[]) == Started(LoadOf(m, config, 1).value)
  {
    var path := PathResolution.RunAbsolutize(m.tree, config.path, config.linkLimit);
    var refusal := Check(m, config, path);
    if refusal.Some? {
      return Err(Untrusted(refusal.value));
    }
    var first := Loader.LoadEntries(m.listed, m.files, config.parse, config.validates, 1);
    if first.Err? {
      return Err(NotLoaded(first.error));
    }
    LoadHasItsGeneration(m, config, 1);
    var engine := new PolicyEngine<P>(config, first.value);
    var provenance := new Provenance();
    provenance.RecordBootstrap(engine.current.generation);
    var thread := new Thread<P>(engine, provenance);
    return Ok(thread);
  }

  // ---------------------------------------------------------------------------
  // What every watch keeps
  // ---------------------------------------------------------------------------

  /** Whatever the wakeups: the thread is at rest between them with the health cell showing the last reload
      line, the deciding set is the last one loaded, and generations count the sets loaded. */
  lemma EveryWatchKeeps<P>(first: Loader.Loaded<P>, wakeups: seq<Wakeup>, c: Config<P>)
    ensures var steps := StepsThrough(Started(first), wakeups, Outcomes(c), |wakeups|);
            MayRun(Started(first), steps) &&
            var end := Run(Started(first), steps);
            WellNumbered(end.trail) && end.watcher == Idle && end.health == LastOutcome(end.trail) &&
            end.generation == LastLoaded(end.trail) == |Adopted(first, steps)| &&
            end.current == Adopted(first, steps)[end.generation - 1]
  {
    var steps := StepsThrough(Started(first), wakeups, Outcomes(c), |wakeups|);
    ThroughIsRun(Started(first), wakeups, Outcomes(c), |wakeups|);
    StartedKeeps(first);
    EveryRunKeeps(Started(first), steps);
    GenerationNamesTheSet(first, steps);
  }

  /** The pass checked the directory without a refusal, and what it then loaded is this. */
  ghost predicate IsCheckedLoad<P>(w: Wakeup, c: Config<P>, adopted: Loader.Loaded<P>)
  {
    w.Burst? && Refusal(w.met, c, c.path).None? && LoadOf(w.met, c, adopted.generation) == Ok(adopted)
  }

  /** What a wakeup adopts is the load behind its passed check. */
  lemma AdoptedIsChecked<P>(w: Wakeup, c: Config<P>, generation: nat, next: Loader.Loaded<P>)
    requires AttemptOf(w, c, generation) == Adopts(next)
    ensures IsCheckedLoad(w, c, next)
  {
    LoadHasItsGeneration(w.met, c, generation + 1);
  }

  /** Every set that ever decides is what a load gave behind a passed check, at the start or at one wakeup;
      it is not empty and it validates. */
  lemma DecidingSetWasChecked<P>(m: Met, wakeups: seq<Wakeup>, c: Config<P>)
    requires IsMet(m)
    ensures StartRefusal(m, c).None? && LoadOf(m, c, 1).Ok? ==>
              var first := LoadOf(m, c, 1).value;
              var steps := StepsThrough(Started(first), wakeups, Outcomes(c), |wakeups|);
              MayRun(Started(first), steps) &&
              var end := Run(Started(first), steps).current;
              (end == first || exists n :: 0 <= n < |wakeups| && IsCheckedLoad(wakeups[n], c, end)) &&
              |end.policies| > 0 && c.validates(end.policies)
  {
    if StartRefusal(m, c).None? && LoadOf(m, c, 1).Ok? {
      var start := Started(LoadOf(m, c, 1).value);
      var stores := Stores(StepsThrough(start, wakeups, Outcomes(c), |wakeups|));
      EveryWatchKeeps(LoadOf(m, c, 1).value, wakeups, c);
      if stores == [] {
        LoadHolds(m, c, 1);
      } else {
        var end := stores[|stores| - 1];
        var n := StoredAt(start, wakeups, Outcomes(c), |wakeups|, |stores| - 1);
        AdoptedIsChecked(wakeups[n], c, Through(start, wakeups, Outcomes(c), n).generation, end);
        LoadHolds(wakeups[n].met, c, end.generation);
      }
    }
  }

  lemma LoadHolds<P>(m: Met, c: Config<P>, generation: nat)
    requires LoadOf(m, c, generation).Ok?
    ensures |LoadOf(m, c, generation).value.policies| > 0 && c.validates(LoadOf(m, c, generation).value.policies)
  {
    Loader.LoadedSetIsWhole(m.listed, m.files, c.parse, c.validates, generation);
  }

  /** What other users do between a check and the load behind it makes no difference: the set is the one the
      checked tree holds. */
  lemma AdoptsWhatWasChecked<P>(m: Met, c: Config<P>, names: seq<FileTree.Name>, generation: nat,
                                actions: seq<TrustAdequacy.Action>, inOrder: Loader.Listing)
    requires IsMet(m) && TrustCheck.IsPlainDirectory(m.tree, names) && c.path == FileTree.Downs(names)
    requires forall n :: 0 <= n < |m.checked| ==> m.checked[n].Some?
    requires TrustCheck.Lists(m.checked, TrustCheck.Entries(m.tree, names)) && Refusal(m, c, c.path).None?
    requires TrustAdequacy.MayRun(m.tree, actions, c.euid)
    requires TrustedLoad.ListsOnce(inOrder, TrustCheck.Entries(m.tree, names))
    ensures var after := TrustAdequacy.RunAll(m.tree, actions, c.euid);
            TrustCheck.IsPlainDirectory(after, names) &&
            (TrustedLoad.ListsOnce(m.listed, TrustCheck.Entries(after, names)) &&
             m.files == TrustedLoad.FilesIn(after, names) ==>
               LoadOf(m, c, generation) ==
               Loader.Load(inOrder, TrustedLoad.FilesIn(m.tree, names), c.parse, c.validates, generation))
  {
    TrustedLoad.TrustedLoadIsStable(m.tree, names, m.checked, c.euid, c.linkLimit, actions, inOrder, m.listed,
                                    c.parse, c.validates, generation);
  }
}
