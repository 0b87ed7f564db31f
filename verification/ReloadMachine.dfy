/** Request handlers and the policy watcher as one state machine: who snapshots, stores and writes to the
    trail in which order, and how far the trail can be trusted to name the set that decided. */
module ReloadMachine {
  import opened Wrappers

  datatype Outcome = SetLoaded | ReloadRefused | ReloadFailed

  datatype Line =
    | PolicySetLine(outcome: Outcome, generation: nat)
    | DecisionLine(request: nat, generation: nat)

  /** Where the watcher is: at rest, behind a store whose line is not written yet, or behind a line
      whose outcome the health cell does not show yet. */
  datatype Watcher = Idle | Stored | Written(outcome: Outcome)

  /** `deciding` holds the generation each request in flight has snapshotted. */
  datatype State<S> = State(
    current: S,
    generation: nat,
    watcher: Watcher,
    health: Option<Outcome>,
    trail: seq<Line>,
    deciding: map<nat, nat>)

  datatype Step<S> =
    | Snapshot(request: nat)
    | RecordDecision(request: nat)
    | Store(next: S)
    | WriteLine(outcome: Outcome)
    | SetHealth

  function Started<S>(first: S): State<S> {
    State(first, 1, Idle, None, [PolicySetLine(SetLoaded, 1)], map[])
  }

  predicate Enabled<S>(s: State<S>, step: Step<S>) {
    match step
    case Snapshot(request) => request !in s.deciding
    case RecordDecision(request) => request in s.deciding
    case Store(_) => s.watcher == Idle
    case WriteLine(outcome) => if outcome == SetLoaded then s.watcher == Stored else s.watcher == Idle
    case SetHealth => s.watcher.Written?
  }

  function Take<S>(s: State<S>, step: Step<S>): State<S>
    requires Enabled(s, step)
  {
    match step
    case Snapshot(request) => s.(deciding := s.deciding[request := s.generation])
    case RecordDecision(request) =>
      s.(trail := s.trail + [DecisionLine(request, s.deciding[request])], deciding := s.deciding - {request})
    case Store(next) => s.(current := next, generation := s.generation + 1, watcher := Stored)
    case WriteLine(outcome) =>
      s.(trail := s.trail + [PolicySetLine(outcome, s.generation)], watcher := Written(outcome))
    case SetHealth => s.(health := Some(s.watcher.outcome), watcher := Idle)
  }

  predicate MayRun<S>(s: State<S>, steps: seq<Step<S>>)
    decreases |steps|
  {
    steps == [] || (Enabled(s, steps[0]) && MayRun(Take(s, steps[0]), steps[1..]))
  }

  function Run<S>(s: State<S>, steps: seq<Step<S>>): State<S>
    requires MayRun(s, steps)
    decreases |steps|
  {
    if steps == [] then s else Run(Take(s, steps[0]), steps[1..])
  }

  lemma {:induction false} RunAppend<S>(s: State<S>, a: seq<Step<S>>, b: seq<Step<S>>)
    ensures MayRun(s, a + b) <==> MayRun(s, a) && MayRun(Run(s, a), b)
    ensures MayRun(s, a + b) ==> Run(s, a + b) == Run(Run(s, a), b)
    decreases |a|
  {
    if a == [] {
      assert a + b == b;
    } else {
      assert (a + b)[1..] == a[1..] + b;
      if Enabled(s, a[0]) {
        RunAppend(Take(s, a[0]), a[1..], b);
      }
    }
  }

  // ---------------------------------------------------------------------------
  // The trail
  // ---------------------------------------------------------------------------

  /** The generation of the most recent `loaded` line. */
  function LastLoaded(trail: seq<Line>): nat {
    if trail == [] then 0
    else
      var last := trail[|trail| - 1];
      if last.PolicySetLine? && last.outcome == SetLoaded then last.generation else LastLoaded(trail[..|trail| - 1])
  }

  /** The outcome of the most recent reload line, the bootstrap line in front of it left out. */
  function LastOutcome(trail: seq<Line>): Option<Outcome> {
    if |trail| <= 1 then None
    else
      var last := trail[|trail| - 1];
      if last.PolicySetLine? then Some(last.outcome) else LastOutcome(trail[..|trail| - 1])
  }

  /** The lines in front of `n` say what they should: `loaded` lines count up by one, and lines of attempts
      that adopted nothing carry the generation still deciding. */
  predicate WellNumbered(trail: seq<Line>) {
    forall n :: 0 <= n < |trail| && trail[n].PolicySetLine? ==>
      trail[n].generation == LastLoaded(trail[..n]) + if trail[n].outcome == SetLoaded then 1 else 0
  }

  predicate Inv<S>(s: State<S>) {
    s.trail != [] && WellNumbered(s.trail) &&
    s.generation == LastLoaded(s.trail) + (if s.watcher == Stored then 1 else 0) &&
    (if s.watcher.Written? then LastOutcome(s.trail) == Some(s.watcher.outcome) else s.health == LastOutcome(s.trail))
  }

  lemma TrailPlus(trail: seq<Line>, line: Line)
    requires trail != [] && WellNumbered(trail)
    requires line.PolicySetLine? ==>
               line.generation == LastLoaded(trail) + if line.outcome == SetLoaded then 1 else 0
    ensures WellNumbered(trail + [line])
    ensures LastLoaded(trail + [line]) == if line.PolicySetLine? then line.generation else LastLoaded(trail)
    ensures LastOutcome(trail + [line]) == if line.PolicySetLine? then Some(line.outcome) else LastOutcome(trail)
  {
    var longer := trail + [line];
    assert longer[..|trail|] == trail;
    forall n | 0 <= n < |longer| && longer[n].PolicySetLine?
      ensures longer[n].generation == LastLoaded(longer[..n]) + if longer[n].outcome == SetLoaded then 1 else 0
    {
      if n < |trail| {
        assert longer[..n] == trail[..n];
      }
    }
  }

  lemma StepKeeps<S>(s: State<S>, step: Step<S>)
    requires Inv(s) && Enabled(s, step)
    ensures Inv(Take(s, step))
    ensures s.generation <= Take(s, step).generation && LastLoaded(s.trail) <= LastLoaded(Take(s, step).trail)
  {
    match step {
      case RecordDecision(request) => TrailPlus(s.trail, DecisionLine(request, s.deciding[request]));
      case WriteLine(outcome) => TrailPlus(s.trail, PolicySetLine(outcome, s.generation));
      case _ =>
    }
  }

  lemma StartedKeeps<S>(first: S)
    ensures Inv(Started(first))
  {
    assert [PolicySetLine(SetLoaded, 1)][..0] == [];
    assert LastLoaded([]) == 0;
  }

  /** Over every run: `loaded` lines carry 1, 2, 3, ... without a gap, every other reload line carries the
      generation of the latest `loaded` line, and the health cell shows the last reload line's outcome
      except between writing that line and setting the cell. */
  lemma {:induction false} EveryRunKeeps<S>(s: State<S>, steps: seq<Step<S>>)
    requires Inv(s) && MayRun(s, steps)
    ensures Inv(Run(s, steps))
    ensures s.generation <= Run(s, steps).generation && LastLoaded(s.trail) <= LastLoaded(Run(s, steps).trail)
    decreases |steps|
  {
    if steps != [] {
      StepKeeps(s, steps[0]);
      EveryRunKeeps(Take(s, steps[0]), steps[1..]);
    }
  }

  // ---------------------------------------------------------------------------
  // Which set decides
  // ---------------------------------------------------------------------------

  /** The sets that have been deciding, the first one included, oldest first. */
  function Adopted<S>(first: S, steps: seq<Step<S>>): seq<S> {
    [first] + Stores(steps)
  }

  function Stores<S>(steps: seq<Step<S>>): seq<S> {
    if steps == [] then [] else (if steps[0].Store? then [steps[0].next] else []) + Stores(steps[1..])
  }

  lemma {:induction false} StoresCount<S>(s: State<S>, steps: seq<Step<S>>)
    requires MayRun(s, steps)
    ensures Run(s, steps).generation == s.generation + |Stores(steps)|
    ensures Run(s, steps).current == if Stores(steps) == [] then s.current else Stores(steps)[|Stores(steps)| - 1]
    decreases |steps|
  {
    if steps != [] {
      StoresCount(Take(s, steps[0]), steps[1..]);
    }
  }

  lemma {:induction false} StoresAppend<S>(a: seq<Step<S>>, b: seq<Step<S>>)
    ensures Stores(a + b) == Stores(a) + Stores(b)
  {
    if a == [] {
      assert a + b == b;
    } else {
      StoresAppend(a[1..], b);
      assert (a + b)[1..] == a[1..] + b && (a + b)[0] == a[0];
      var first := if a[0].Store? then [a[0].next] else [];
      assert Stores(a) == first + Stores(a[1..]) && Stores(a + b) == first + Stores(a[1..] + b);
      assert first + (Stores(a[1..]) + Stores(b)) == (first + Stores(a[1..])) + Stores(b);
    }
  }

  lemma StoresAtHead<S>(steps: seq<Step<S>>)
    requires forall n :: 0 < n < |steps| ==> !steps[n].Store?
    ensures Stores(steps) == if steps != [] && steps[0].Store? then [steps[0].next] else []
  {
    if steps != [] {
      NoStores(steps[1..]);
    }
  }

  lemma {:induction false} NoStores<S>(steps: seq<Step<S>>)
    requires forall n :: 0 <= n < |steps| ==> !steps[n].Store?
    ensures Stores(steps) == []
  {
    if steps != [] {
      NoStores(steps[1..]);
    }
  }

  /** A generation number names a set: generation `n` is the `n`-th set adopted since the start, and the
      latest one is deciding. */
  lemma GenerationNamesTheSet<S>(first: S, steps: seq<Step<S>>)
    requires MayRun(Started(first), steps)
    ensures var end := Run(Started(first), steps);
            end.generation == |Adopted(first, steps)| && end.current == Adopted(first, steps)[end.generation - 1]
  {
    StoresCount(Started(first), steps);
  }

  /** When only sets that pass the guards are stored, a set that passes them is always deciding. */
  lemma GuardedSetDecides<S>(first: S, steps: seq<Step<S>>, passes: S -> bool)
    requires MayRun(Started(first), steps) && passes(first)
    requires forall n :: 0 <= n < |steps| && steps[n].Store? ==> passes(steps[n].next)
    ensures passes(Run(Started(first), steps).current)
  {
    StoresCount(Started(first), steps);
    StoresPass(steps, passes);
  }

  lemma {:induction false} StoresPass<S>(steps: seq<Step<S>>, passes: S -> bool)
    requires forall n :: 0 <= n < |steps| && steps[n].Store? ==> passes(steps[n].next)
    ensures forall n :: 0 <= n < |Stores(steps)| ==> passes(Stores(steps)[n])
  {
    if steps != [] {
      assert forall n :: 0 <= n < |steps[1..]| ==> steps[1..][n] == steps[n + 1];
      StoresPass(steps[1..], passes);
    }
  }

  // ---------------------------------------------------------------------------
  // Reading the trail: which set decided a request
  // ---------------------------------------------------------------------------

  predicate NoDecisionFor<S>(steps: seq<Step<S>>, request: nat) {
    forall n :: 0 <= n < |steps| ==> steps[n] != RecordDecision(request)
  }

  /** No reload is between its store and its `loaded` line at any moment of the run. */
  predicate Calm<S>(s: State<S>, steps: seq<Step<S>>)
    requires MayRun(s, steps)
    decreases |steps|
  {
    s.watcher != Stored && (steps == [] || Calm(Take(s, steps[0]), steps[1..]))
  }

  /** A request in flight keeps the generation it snapshotted. */
  lemma {:induction false} KeepsItsSnapshot<S>(s: State<S>, steps: seq<Step<S>>, request: nat)
    requires MayRun(s, steps) && request in s.deciding && NoDecisionFor(steps, request)
    ensures request in Run(s, steps).deciding && Run(s, steps).deciding[request] == s.deciding[request]
    decreases |steps|
  {
    if steps != [] {
      assert steps[0] != RecordDecision(request);
      assert forall n :: 0 <= n < |steps[1..]| ==> steps[1..][n] == steps[n + 1];
      KeepsItsSnapshot(Take(s, steps[0]), steps[1..], request);
    }
  }

  lemma {:induction false} CalmStores<S>(s: State<S>, steps: seq<Step<S>>)
    requires MayRun(s, steps) && Calm(s, steps)
    ensures Stores(steps) == [] && Run(s, steps).watcher != Stored
    decreases |steps|
  {
    if steps != [] {
      CalmStores(Take(s, steps[0]), steps[1..]);
    }
  }

  /** The moment a request snapshots, and the moment its decision is written, with `between` in between. */
  predicate Decides<S>(s: State<S>, request: nat, between: seq<Step<S>>) {
    Inv(s) && Enabled(s, Step<S>.Snapshot(request)) && MayRun(Take(s, Snapshot(request)), between) &&
    NoDecisionFor(between, request)
  }

  function AtRecord<S>(s: State<S>, request: nat, between: seq<Step<S>>): State<S>
    requires Decides(s, request, between)
  {
    Run(Take(s, Snapshot(request)), between)
  }

  /** The generation that decided is at least that of the last `loaded` line at the snapshot, and at most
      one above that of the last `loaded` line when the decision is written. */
  lemma DecidedWithin<S>(s: State<S>, request: nat, between: seq<Step<S>>)
    requires Decides(s, request, between)
    ensures var z := AtRecord(s, request, between);
            Enabled(z, Step<S>.RecordDecision(request)) &&
            Take(z, RecordDecision(request)).trail == z.trail + [DecisionLine(request, s.generation)] &&
            LastLoaded(s.trail) <= s.generation <= LastLoaded(z.trail) + 1
  {
    StepKeeps(s, Snapshot(request));
    EveryRunKeeps(Take(s, Snapshot(request)), between);
    KeepsItsSnapshot(Take(s, Snapshot(request)), between, request);
  }

  /** It is the generation of the last `loaded` line before the decision exactly when as many sets were
      stored in between as still wait for their line: none, or the one whose line is to come. */
  lemma TrailNamesTheDecider<S>(s: State<S>, request: nat, between: seq<Step<S>>)
    requires Decides(s, request, between)
    ensures var z := AtRecord(s, request, between);
            s.generation == LastLoaded(z.trail) <==> |Stores(between)| == if z.watcher == Stored then 1 else 0
  {
    StepKeeps(s, Snapshot(request));
    EveryRunKeeps(Take(s, Snapshot(request)), between);
    StoresCount(Take(s, Snapshot(request)), between);
  }

  /** In particular whenever no reload is between its store and its line while the request is decided. */
  lemma TrailNamesTheDeciderWhenCalm<S>(s: State<S>, request: nat, between: seq<Step<S>>)
    requires Decides(s, request, between) && Calm(Take(s, Snapshot(request)), between)
    ensures s.generation == LastLoaded(AtRecord(s, request, between).trail)
  {
    CalmStores(Take(s, Snapshot(request)), between);
    TrailNamesTheDecider(s, request, between);
  }

  /** It can be one too low: the decision of a set whose line is not written yet. */
  lemma TrailCanLag<S>(s: State<S>, request: nat, next: S)
    requires Inv(s) && s.watcher == Idle && request !in s.deciding
    ensures var early := Take(s, Store(next));
            Decides(early, request, []) &&
            early.generation == LastLoaded(AtRecord(early, request, []).trail) + 1
  {
    StepKeeps(s, Store(next));
  }

  /** And it can be ahead: the decision of a set that a later `loaded` line already replaced. */
  lemma TrailCanOvertake<S>(s: State<S>, request: nat, next: S)
    requires Inv(s) && s.watcher == Idle && request !in s.deciding
    ensures var between: seq<Step<S>> := [Store(next), WriteLine(SetLoaded)];
            Decides(s, request, between) &&
            s.generation + 1 == LastLoaded(AtRecord(s, request, between).trail)
  {
    var a := Take(s, Step<S>.Snapshot(request));
    var b := Take(a, Store(next));
    StepKeeps(s, Snapshot(request));
    StepKeeps(a, Store(next));
    StepKeeps(b, WriteLine(SetLoaded));
    RunOfTwo(a, Store(next), WriteLine(SetLoaded));
  }

  lemma RunOfTwo<S>(s: State<S>, first: Step<S>, second: Step<S>)
    requires Enabled(s, first) && Enabled(Take(s, first), second)
    ensures MayRun(s, [first, second]) && Run(s, [first, second]) == Take(Take(s, first), second)
  {
    assert [first, second][1..] == [second] && [second][1..] == [];
    var a := Take(s, first);
    assert MayRun(Take(a, second), []);
    assert MayRun(a, [second]) && Run(a, [second]) == Take(a, second);
  }

  // ---------------------------------------------------------------------------
  // One attempt to reload, undisturbed
  // ---------------------------------------------------------------------------

  datatype Attempt<S> = NoAttempt | Refuses | Fails | Adopts(next: S)

  /** The watcher's steps. */
  function StepsOf<S>(a: Attempt<S>): seq<Step<S>> {
    match a
    case NoAttempt => []
    case Refuses => [WriteLine(ReloadRefused), SetHealth]
    case Fails => [WriteLine(ReloadFailed), SetHealth]
    case Adopts(next) => [Store(next), WriteLine(SetLoaded), SetHealth]
  }

  /** The machine with the outcome on both surfaces. */
  function Reported<S>(s: State<S>, outcome: Outcome): State<S> {
    s.(trail := s.trail + [PolicySetLine(outcome, s.generation)], health := Some(outcome))
  }

  function After<S>(s: State<S>, a: Attempt<S>): State<S> {
    match a
    case NoAttempt => s
    case Refuses => Reported(s, ReloadRefused)
    case Fails => Reported(s, ReloadFailed)
    case Adopts(next) => Reported(s.(current := next, generation := s.generation + 1), SetLoaded)
  }

  /** What an attempt makes of a machine at rest: a refusal or a failure is reported under the generation
      still deciding, an adopted set under its own. */
  lemma OneAttempt<S>(s: State<S>, a: Attempt<S>)
    requires s.watcher == Idle
    ensures MayRun(s, StepsOf(a)) && Run(s, StepsOf(a)) == After(s, a)
  {
    match a {
      case NoAttempt =>
      case Refuses => RunOfTwo(s, WriteLine(ReloadRefused), SetHealth);
      case Fails => RunOfTwo(s, WriteLine(ReloadFailed), SetHealth);
      case Adopts(next) =>
        RunOfTwo(Take(s, Store(next)), WriteLine(SetLoaded), SetHealth);
        assert StepsOf(a)[1..] == [WriteLine(SetLoaded), SetHealth];
    }
  }

  lemma OneMoreAttempt<S>(s: State<S>, steps: seq<Step<S>>, a: Attempt<S>)
    requires MayRun(s, steps) && Run(s, steps).watcher == Idle
    ensures MayRun(s, steps + StepsOf(a)) && Run(s, steps + StepsOf(a)) == After(Run(s, steps), a)
  {
    OneAttempt(Run(s, steps), a);
    RunAppend(s, steps, StepsOf(a));
  }

  lemma StoresOfOne<S>(a: Attempt<S>)
    ensures Stores(StepsOf(a)) == if a.Adopts? then [a.next] else []
  {
    StoresAtHead(StepsOf(a));
  }

  // ---------------------------------------------------------------------------
  // One attempt after the other
  // ---------------------------------------------------------------------------

  /** The machine behind the first `n` wakeups. What comes of a wakeup depends on the generation that is
      deciding by then. */
  function Through<W, S>(s: State<S>, wakeups: seq<W>, outcome: (W, nat) -> Attempt<S>, n: nat): State<S>
    requires n <= |wakeups|
  {
    if n == 0 then s
    else
      var before := Through(s, wakeups, outcome, n - 1);
      After(before, outcome(wakeups[n - 1], before.generation))
  }

  /** The steps it takes at them. */
  function StepsThrough<W, S>(s: State<S>, wakeups: seq<W>, outcome: (W, nat) -> Attempt<S>, n: nat): seq<Step<S>>
    requires n <= |wakeups|
  {
    if n == 0 then []
    else
      StepsThrough(s, wakeups, outcome, n - 1) +
      StepsOf(outcome(wakeups[n - 1], Through(s, wakeups, outcome, n - 1).generation))
  }

  /** Those steps are a run of the machine that ends there, at rest. */
  lemma {:induction false} ThroughIsRun<W, S>(s: State<S>, wakeups: seq<W>, outcome: (W, nat) -> Attempt<S>, n: nat)
    requires s.watcher == Idle && n <= |wakeups|
    ensures IsRun(s, StepsThrough(s, wakeups, outcome, n), Through(s, wakeups, outcome, n))
  {
    if n > 0 {
      ThroughIsRun(s, wakeups, outcome, n - 1);
      var before := Through(s, wakeups, outcome, n - 1);
      OneMoreAttempt(s, StepsThrough(s, wakeups, outcome, n - 1), outcome(wakeups[n - 1], before.generation));
    }
  }

  ghost predicate IsRun<S>(s: State<S>, steps: seq<Step<S>>, end: State<S>) {
    MayRun(s, steps) && Run(s, steps) == end && end.watcher == Idle
  }

  /** The wakeup that stored the `k`-th set. */
  lemma {:induction false} StoredAt<W, S>(s: State<S>, wakeups: seq<W>, outcome: (W, nat) -> Attempt<S>, n: nat, k: nat)
    returns (i: nat)
    requires n <= |wakeups| && k < |Stores(StepsThrough(s, wakeups, outcome, n))|
    ensures i < n
    ensures outcome(wakeups[i], Through(s, wakeups, outcome, i).generation) ==
            Adopts(Stores(StepsThrough(s, wakeups, outcome, n))[k])
  {
    var before := StepsThrough(s, wakeups, outcome, n - 1);
    var a := outcome(wakeups[n - 1], Through(s, wakeups, outcome, n - 1).generation);
    StoresAppend(before, StepsOf(a));
    if k < |Stores(before)| {
      i := StoredAt(s, wakeups, outcome, n - 1, k);
    } else {
      StoresOfOne(a);
      i := n - 1;
    }
  }
}
