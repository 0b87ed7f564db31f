/** Policy files behind symbolic links. The check judges the file a link leads to and not the directories
    on the way: what that leaves to other users, and exactly when it leaves them nothing. */
module LinkedPolicies {
  import opened Wrappers
  import opened Utf8
  import opened FileTree
  import opened OtherUsers
  import opened PathResolution
  import opened PolicyFiles
  import opened TrustCheck
  import opened TrustAdequacy

  // ---------------------------------------------------------------------------
  // A resolution, one lookup at a time
  // ---------------------------------------------------------------------------

  /** Where a resolution stands: a link-free place, what is still to do, and the links left to follow. */
  datatype Point = Point(here: seq<Name>, todo: Path, budget: nat)

  function Parent(here: seq<Name>): seq<Name> {
    if here == [] then [] else here[..|here| - 1]
  }

  /** The end of the resolution from that point on. */
  function End(t: Tree, p: Point): Lookup<seq<Name>>
    requires WellFormed(t)
  {
    Walk(t, p.here, p.todo, p.budget)
  }

  predicate AtDirectory(t: Tree, p: Point)
    requires WellFormed(t)
  {
    At(t, p.here).Found? && IsDir(t, At(t, p.here).value)
  }

  function EntriesAt(t: Tree, p: Point): map<Name, Inode>
    requires WellFormed(t) && AtDirectory(t, p)
  {
    t.nodes[At(t, p.here).value].entries
  }

  /** Where the next lookup leads, if the resolution goes on behind it. */
  function Next(t: Tree, p: Point): (r: Option<Point>)
    requires WellFormed(t)
    ensures r.Some? ==> r.value.budget < p.budget || (r.value.budget == p.budget && |r.value.todo| < |p.todo|)
  {
    if p.todo == [] || !AtDirectory(t, p) then None
    else match p.todo[0]
         case Up => Some(Point(Parent(p.here), p.todo[1..], p.budget))
         case Down(name) =>
           if name !in EntriesAt(t, p) then None
           else match t.nodes[EntriesAt(t, p)[name]]
                case Link(_, _, absolute, target) =>
                  if p.budget == 0 then None
                  else Some(Point(if absolute then [] else p.here, target + p.todo[1..], p.budget - 1))
                case _ => Some(Point(p.here + [name], p.todo[1..], p.budget))
  }

  /** The next lookup is decided beyond other users' reach: an entry that is there is trusted, and one that
      is missing is missing where they cannot add it. */
  predicate Decided(t: Tree, p: Point, euid: Uid)
    requires WellFormed(t)
  {
    p.todo == [] || !AtDirectory(t, p) || p.todo[0].Up? ||
    if p.todo[0].name in EntriesAt(t, p) then EntryTrusted(t, At(t, p.here).value, p.todo[0].name, euid)
    else ComponentTrusted(t.nodes[At(t, p.here).value], euid)
  }

  /** And so is every lookup behind it. */
  predicate Settled(t: Tree, p: Point, euid: Uid)
    requires WellFormed(t)
    decreases p.budget, |p.todo|
  {
    Decided(t, p, euid) && (Next(t, p).Some? ==> Settled(t, Next(t, p).value, euid))
  }

  /** The place was reached through trusted entries only. */
  predicate Reached(t: Tree, p: Point, euid: Uid)
    requires WellFormed(t)
  {
    At(t, p.here).Found? && ChainTrusted(t, p.here, |p.here|, euid)
  }

  lemma ChainPlus(t: Tree, here: seq<Name>, name: Name, euid: Uid)
    requires WellFormed(t) && ChainTrusted(t, here, |here|, euid) && LinkTrusted(t, here, name, euid)
    ensures ChainTrusted(t, here + [name], |here| + 1, euid)
  {
    var longer := here + [name];
    forall j | 0 <= j < |longer|
      ensures LinkTrusted(t, longer[..j], longer[j], euid)
    {
      if j < |here| {
        assert LinkTrusted(t, here[..j], here[j], euid);
        assert longer[..j] == here[..j];
      } else {
        assert longer[..j] == here;
      }
    }
  }

  lemma ChainMinus(t: Tree, here: seq<Name>, euid: Uid)
    requires WellFormed(t) && ChainTrusted(t, here, |here|, euid)
    ensures ChainTrusted(t, Parent(here), |Parent(here)|, euid)
  {
    var shorter := Parent(here);
    forall j | 0 <= j < |shorter|
      ensures LinkTrusted(t, shorter[..j], shorter[j], euid)
    {
      assert LinkTrusted(t, here[..j], here[j], euid);
      assert shorter[..j] == here[..j];
    }
  }

  lemma NextEndsAlike(t: Tree, p: Point)
    requires WellFormed(t) && Next(t, p).Some?
    ensures End(t, Next(t, p).value) == End(t, p)
  {
  }

  lemma EntryIsReached(t: Tree, here: seq<Name>, name: Name, euid: Uid)
    requires WellFormed(t) && ChainTrusted(t, here, |here|, euid) && LinkTrusted(t, here, name, euid)
    ensures At(t, here + [name]).Found? && ChainTrusted(t, here + [name], |here + [name]|, euid)
  {
    ChainPlus(t, here, name, euid);
    assert (here + [name])[..|here|] == here;
  }

  lemma NextIsReached(t: Tree, p: Point, euid: Uid)
    requires WellFormed(t) && Reached(t, p, euid) && Decided(t, p, euid) && Next(t, p).Some?
    ensures Reached(t, Next(t, p).value, euid) && End(t, Next(t, p).value) == End(t, p)
  {
    NextEndsAlike(t, p);
    match p.todo[0] {
      case Up => ChainMinus(t, p.here, euid);
      case Down(name) => EntryIsReached(t, p.here, name, euid);
    }
  }

  /** No step of another user changes a decided lookup. */
  lemma LookupStays(t: Tree, p: Point, euid: Uid, user: Uid, step: Step)
    requires WellFormed(t) && Reached(t, p, euid) && Decided(t, p, euid)
    requires IsOther(user, euid) && May(t, user, step)
    ensures var after := Take(t, user, step);
            WellFormed(after) && Reached(after, p, euid) && Decided(after, p, euid) &&
            At(after, p.here) == At(t, p.here) && Next(after, p) == Next(t, p) &&
            (Next(t, p).None? ==> End(after, p) == End(t, p))
  {
    var dir := At(t, p.here).value;
    ChainStays(t, p.here, |p.here|, euid, user, step);
    assert p.here[..|p.here|] == p.here;
    StepKeepsKinds(t, user, step, dir);
    if p.todo != [] && AtDirectory(t, p) && p.todo[0].Down? {
      var name := p.todo[0].name;
      if name in EntriesAt(t, p) {
        EntryStays(t, dir, name, euid, user, step);
        StepKeepsKinds(t, user, step, EntriesAt(t, p)[name]);
      } else {
        StepLeavesOthersNodes(t, user, step, dir);
      }
    }
  }

  /** Nor does any sequence of them. */
  lemma {:induction false} LookupStaysForGood(t: Tree, p: Point, euid: Uid, actions: seq<Action>)
    requires WellFormed(t) && Reached(t, p, euid) && Decided(t, p, euid) && MayRun(t, actions, euid)
    ensures var after := RunAll(t, actions, euid);
            Reached(after, p, euid) && Decided(after, p, euid) &&
            At(after, p.here) == At(t, p.here) && Next(after, p) == Next(t, p) &&
            (Next(t, p).None? ==> End(after, p) == End(t, p))
    decreases |actions|
  {
    if actions != [] {
      LookupStays(t, p, euid, actions[0].user, actions[0].step);
      LookupStaysForGood(Take(t, actions[0].user, actions[0].step), p, euid, actions[1..]);
    }
  }

  // ---------------------------------------------------------------------------
  // Settled means out of reach
  // ---------------------------------------------------------------------------

  /** Whatever other users do, a settled resolution ends as it did, at the same node if it leads anywhere,
      and is settled still. */
  lemma {:induction false} ResolutionStays(t: Tree, p: Point, euid: Uid, actions: seq<Action>)
    requires WellFormed(t) && Reached(t, p, euid) && Settled(t, p, euid) && MayRun(t, actions, euid)
    ensures var after := RunAll(t, actions, euid);
            Settled(after, p, euid) && End(after, p) == End(t, p) &&
            (End(t, p).Found? ==> At(after, End(t, p).value) == At(t, End(t, p).value))
    decreases p.budget, |p.todo|
  {
    LookupStaysForGood(t, p, euid, actions);
    if Next(t, p).Some? {
      NextIsReached(t, p, euid);
      NextIsReached(RunAll(t, actions, euid), p, euid);
      ResolutionStays(t, Next(t, p).value, euid, actions);
    }
  }

  // ---------------------------------------------------------------------------
  // Unsettled means within reach
  // ---------------------------------------------------------------------------

  /** The first lookup that is not decided. */
  function FirstOpen(t: Tree, p: Point, euid: Uid): (r: Point)
    requires WellFormed(t) && !Settled(t, p, euid)
    ensures !Decided(t, r, euid)
    decreases p.budget, |p.todo|
  {
    if !Decided(t, p, euid) then p else FirstOpen(t, Next(t, p).value, euid)
  }

  lemma {:induction false} OpenIsReached(t: Tree, p: Point, euid: Uid)
    requires WellFormed(t) && Reached(t, p, euid) && !Settled(t, p, euid)
    ensures Reached(t, FirstOpen(t, p, euid), euid) && End(t, FirstOpen(t, p, euid)) == End(t, p)
    decreases p.budget, |p.todo|
  {
    if Decided(t, p, euid) {
      NextIsReached(t, p, euid);
      OpenIsReached(t, Next(t, p).value, euid);
    }
  }

  /** Up to there the resolution goes the same way after anything other users did. */
  lemma {:induction false} SameWayToOpen(t: Tree, p: Point, euid: Uid, actions: seq<Action>)
    requires WellFormed(t) && Reached(t, p, euid) && !Settled(t, p, euid) && MayRun(t, actions, euid)
    ensures End(RunAll(t, actions, euid), p) == End(RunAll(t, actions, euid), FirstOpen(t, p, euid))
    decreases p.budget, |p.todo|
  {
    if Decided(t, p, euid) {
      LookupStaysForGood(t, p, euid, actions);
      NextIsReached(t, p, euid);
      NextIsReached(RunAll(t, actions, euid), p, euid);
      SameWayToOpen(t, Next(t, p).value, euid, actions);
    }
  }

  /** Who may write where the first open lookup is made: the owner of an entry there, or of the directory, or
      anyone whom its bits let in. */
  function OpenTo(t: Tree, p: Point, euid: Uid): (user: Uid)
    requires WellFormed(t) && !Decided(t, p, euid)
    ensures IsOther(user, euid) && MayAdd(t, user, At(t, p.here).value)
    ensures p.todo[0].name in EntriesAt(t, p) ==> MayTake(t, user, At(t, p.here).value, p.todo[0].name)
  {
    var dir := t.nodes[At(t, p.here).value];
    var name := p.todo[0].name;
    if name in dir.entries && OwnerTrusted(dir, euid) && IsSticky(dir.mode) then t.nodes[dir.entries[name]].owner
    else SomeWriter(dir, euid)
  }

  /** An entry that is not trusted can be renamed away. */
  lemma OpenEntryGoes(t: Tree, p: Point, euid: Uid) returns (actions: seq<Action>)
    requires WellFormed(t) && Reached(t, p, euid) && !Decided(t, p, euid) && p.todo[0].name in EntriesAt(t, p)
    ensures MayRun(t, actions, euid) && !End(RunAll(t, actions, euid), p).Found?
  {
    var dir, name, user := At(t, p.here).value, p.todo[0].name, OpenTo(t, p, euid);
    var elsewhere := LongerName(t.nodes[dir].entries.Keys);
    var step := Rename(dir, name, dir, elsewhere);
    assert |name| < |elsewhere|;
    ChainStays(t, p.here, |p.here|, euid, user, step);
    assert p.here[..|p.here|] == p.here;
    OneStepRun(t, user, step, euid);
    actions := [Action(user, step)];
  }

  /** A resolution that leads somewhere and is not settled can be cut off. */
  lemma UnsettledBreaks(t: Tree, p: Point, euid: Uid) returns (actions: seq<Action>)
    requires WellFormed(t) && Reached(t, p, euid) && !Settled(t, p, euid) && End(t, p).Found?
    ensures MayRun(t, actions, euid) && !End(RunAll(t, actions, euid), p).Found?
  {
    OpenIsReached(t, p, euid);
    actions := OpenEntryGoes(t, FirstOpen(t, p, euid), euid);
    SameWayToOpen(t, p, euid, actions);
  }

  function NamesOf(path: Path): seq<Name>
    requires OnlyNames(path)
  {
    seq(|path|, i requires 0 <= i < |path| => path[i].name)
  }

  /** What a path leads to, without links, is a canonical path. */
  lemma {:induction false} FileIsPlain(t: Tree, path: seq<Name>)
    requires WellFormed(t) && At(t, path).Found? && !t.nodes[At(t, path).value].Link?
    ensures IsPlain(t, path)
  {
    if path != [] {
      FileIsPlain(t, path[..|path| - 1]);
    }
  }

  /** The resolution ends at a file with that text. */
  predicate EndsIn(t: Tree, p: Point, text: Bytes)
    requires WellFormed(t)
  {
    End(t, p).Found? && Holds(t, End(t, p).value, text)
  }

  /** Where the rest of the way only goes down, a file with any text can be put at its end. */
  lemma OpenWayIsLaid(t: Tree, p: Point, euid: Uid, text: Bytes) returns (actions: seq<Action>)
    requires WellFormed(t) && Reached(t, p, euid) && !Decided(t, p, euid) && OnlyNames(p.todo)
    ensures MayRun(t, actions, euid) && EndsIn(RunAll(t, actions, euid), p, text)
  {
    var rest, user := NamesOf(p.todo), OpenTo(t, p, euid);
    var path, k := p.here + rest, |p.here|;
    assert path[..k] == p.here && path[k] == p.todo[0].name;
    if path[k] in EntriesAt(t, p) {
      actions := SubstitutingTheTree(t, path, k, user, euid, text);
    } else {
      actions := LayingThePath(t, path, k, user, euid, text);
    }
    var after := RunAll(t, actions, euid);
    FileIsPlain(after, path);
    PlainThen(after, p.here, rest, [], p.budget);
    assert Downs(rest) + [] == p.todo;
  }

  lemma UnsettledTakesAnyText(t: Tree, p: Point, euid: Uid, text: Bytes) returns (actions: seq<Action>)
    requires WellFormed(t) && Reached(t, p, euid) && !Settled(t, p, euid)
    requires OnlyNames(FirstOpen(t, p, euid).todo)
    ensures MayRun(t, actions, euid) && EndsIn(RunAll(t, actions, euid), p, text)
  {
    OpenIsReached(t, p, euid);
    actions := OpenWayIsLaid(t, FirstOpen(t, p, euid), euid, text);
    SameWayToOpen(t, p, euid, actions);
  }

  /** If a lookup is open, the way behind the first open one only goes down. */
  predicate OpensDownward(t: Tree, p: Point, euid: Uid)
    requires WellFormed(t)
  {
    !Settled(t, p, euid) ==> OnlyNames(FirstOpen(t, p, euid).todo)
  }

  /** No link of the tree says `..`. */
  predicate LinksDescend(t: Tree) {
    forall i :: i in t.nodes && t.nodes[i].Link? ==> OnlyNames(t.nodes[i].target)
  }

  lemma {:induction false} DescendsToOpen(t: Tree, p: Point, euid: Uid)
    requires WellFormed(t) && LinksDescend(t) && OnlyNames(p.todo)
    ensures OpensDownward(t, p, euid)
    decreases p.budget, |p.todo|
  {
    if !Settled(t, p, euid) && Decided(t, p, euid) {
      DescendsToOpen(t, Next(t, p).value, euid);
    }
  }

  // ---------------------------------------------------------------------------
  // Policies behind links
  // ---------------------------------------------------------------------------

  /** Where the resolution of an entry of the directory starts. */
  function Entrance(names: seq<Name>, name: Name, limit: nat): Point {
    Point(names, [Down(name)], limit)
  }

  lemma TargetIsEnd(t: Tree, names: seq<Name>, name: Name, limit: nat)
    requires WellFormed(t) && IsPlain(t, names)
    ensures Canonicalize(t, Downs(names) + [Down(name)], limit) == End(t, Entrance(names, name, limit))
  {
    PlainThenOne(t, names, Down(name), limit);
  }

  lemma EntranceIsReached(t: Tree, names: seq<Name>, name: Name, limit: nat, euid: Uid)
    requires WellFormed(t) && LeadsToDirectory(t, names) && DirectoryTrusted(t, names, euid)
    ensures Reached(t, Entrance(names, name, limit), euid)
  {
    TrustedChain(t, names, euid);
  }

  /** The entry bears the name of a policy. */
  predicate IsCandidate(t: Tree, names: seq<Name>, name: Name)
    requires WellFormed(t) && LeadsToDirectory(t, names)
  {
    name in Entries(t, names) && HasCedarExtension(name) && IsLoadableName(name)
  }

  /** The entry is read as a policy with that text. */
  predicate ReadsAs(t: Tree, names: seq<Name>, name: Name, limit: nat, text: Bytes)
    requires WellFormed(t)
  {
    LeadsToDirectory(t, names) && IsRead(t, names, name, limit) &&
    t.nodes[Target(t, names, name, limit).value].content == text
  }

  /** The entry is read as the same text, or is still not read. */
  ghost predicate ReadsAlike(t: Tree, after: Tree, names: seq<Name>, name: Name, limit: nat)
    requires WellFormed(t) && WellFormed(after)
  {
    LeadsToDirectory(after, names) &&
    forall text :: ReadsAs(after, names, name, limit, text) <==> ReadsAs(t, names, name, limit, text)
  }

  lemma {:induction false} DirectoryStaysForGood(t: Tree, names: seq<Name>, euid: Uid, actions: seq<Action>)
    requires WellFormed(t) && LeadsToDirectory(t, names) && DirectoryTrusted(t, names, euid)
    requires MayRun(t, actions, euid)
    ensures LeadsToDirectory(RunAll(t, actions, euid), names)
    ensures Entries(RunAll(t, actions, euid), names) == Entries(t, names)
    decreases |actions|
  {
    if actions != [] {
      DirectoryStays(t, names, euid, actions[0].user, actions[0].step);
      DirectoryStaysForGood(Take(t, actions[0].user, actions[0].step), names, euid, actions[1..]);
    }
  }

  lemma {:induction false} NodeStaysForGood(t: Tree, i: Inode, euid: Uid, actions: seq<Action>)
    requires WellFormed(t) && i in t.nodes && MayRun(t, actions, euid)
    ensures i in RunAll(t, actions, euid).nodes
    ensures t.nodes[i].File? <==> RunAll(t, actions, euid).nodes[i].File?
    ensures ComponentTrusted(t.nodes[i], euid) ==> RunAll(t, actions, euid).nodes[i] == t.nodes[i]
    decreases |actions|
  {
    if actions != [] {
      var user, step := actions[0].user, actions[0].step;
      StepKeepsKinds(t, user, step, i);
      if t.nodes[i].owner != user {
        StepLeavesOthersNodes(t, user, step, i);
      }
      NodeStaysForGood(Take(t, user, step), i, euid, actions[1..]);
    }
  }

  /** Behind a passed check, what a settled entry is read as, or that it is not read, is out of reach. */
  lemma SettledReadsAlike(t: Tree, names: seq<Name>, name: Name, euid: Uid, limit: nat, actions: seq<Action>)
    requires WellFormed(t) && LeadsToDirectory(t, names) && TrustedThrough(t, names, euid, limit)
    requires IsCandidate(t, names, name) && Settled(t, Entrance(names, name, limit), euid)
    requires MayRun(t, actions, euid)
    ensures ReadsAlike(t, RunAll(t, actions, euid), names, name, limit)
  {
    var after := RunAll(t, actions, euid);
    EntranceIsReached(t, names, name, limit, euid);
    ResolutionStays(t, Entrance(names, name, limit), euid, actions);
    DirectoryStaysForGood(t, names, euid, actions);
    TargetIsEnd(t, names, name, limit);
    TargetIsEnd(after, names, name, limit);
    assert Target(after, names, name, limit) == Target(t, names, name, limit);
    if Target(t, names, name, limit).Found? {
      assert EntryPasses(t, names, name, euid, limit);
      NodeStaysForGood(t, Target(t, names, name, limit).value, euid, actions);
    }
  }

  /** No sequence of steps of other users changes what the entry is read as, or that it is not read. */
  ghost predicate ReadsAlikeForGood(t: Tree, names: seq<Name>, name: Name, limit: nat, euid: Uid)
    requires WellFormed(t)
  {
    forall actions :: MayRun(t, actions, euid) ==> ReadsAlike(t, RunAll(t, actions, euid), names, name, limit)
  }

  lemma SettledIsOutOfReach(t: Tree, names: seq<Name>, name: Name, euid: Uid, limit: nat)
    requires WellFormed(t) && LeadsToDirectory(t, names) && TrustedThrough(t, names, euid, limit)
    requires IsCandidate(t, names, name) && Settled(t, Entrance(names, name, limit), euid)
    ensures ReadsAlikeForGood(t, names, name, limit, euid)
  {
    forall actions | MayRun(t, actions, euid)
      ensures ReadsAlike(t, RunAll(t, actions, euid), names, name, limit)
    {
      SettledReadsAlike(t, names, name, euid, limit, actions);
    }
  }

  /** What the directory's entry leads to after a run that ends its resolution in that text. */
  lemma EndIsRead(t: Tree, names: seq<Name>, name: Name, euid: Uid, limit: nat, actions: seq<Action>, text: Bytes)
    requires WellFormed(t) && LeadsToDirectory(t, names) && DirectoryTrusted(t, names, euid)
    requires IsCandidate(t, names, name) && MayRun(t, actions, euid)
    requires EndsIn(RunAll(t, actions, euid), Entrance(names, name, limit), text)
    ensures ReadsAs(RunAll(t, actions, euid), names, name, limit, text)
  {
    DirectoryStaysForGood(t, names, euid, actions);
    TargetIsEnd(RunAll(t, actions, euid), names, name, limit);
  }

  /** A policy that is read, through whatever links, behind a passed check: other users can do nothing about
      what it is read as exactly when its resolution is settled. */
  lemma LinkedPolicyExactly(t: Tree, names: seq<Name>, listing: seq<Option<Name>>, name: Name, euid: Uid, limit: nat)
    requires WellFormed(t) && LeadsToDirectory(t, names)
    requires (forall n :: 0 <= n < |listing| ==> listing[n].Some?) && Lists(listing, Entries(t, names))
    requires CheckPolicyDir(t, Downs(names), listing, euid, limit).None?
    requires IsRead(t, names, name, limit)
    ensures Settled(t, Entrance(names, name, limit), euid) <==> ReadsAlikeForGood(t, names, name, limit, euid)
  {
    CheckIsSilentThrough(t, names, listing, euid, limit);
    if Settled(t, Entrance(names, name, limit), euid) {
      SettledIsOutOfReach(t, names, name, euid, limit);
    } else {
      EntranceIsReached(t, names, name, limit, euid);
      TargetIsEnd(t, names, name, limit);
      var actions := UnsettledBreaks(t, Entrance(names, name, limit), euid);
      BrokenIsNotAlike(t, names, name, euid, limit, actions);
    }
  }

  lemma BrokenIsNotAlike(t: Tree, names: seq<Name>, name: Name, euid: Uid, limit: nat, actions: seq<Action>)
    requires WellFormed(t) && LeadsToDirectory(t, names) && DirectoryTrusted(t, names, euid)
    requires IsRead(t, names, name, limit) && MayRun(t, actions, euid)
    requires !End(RunAll(t, actions, euid), Entrance(names, name, limit)).Found?
    ensures !ReadsAlike(t, RunAll(t, actions, euid), names, name, limit)
  {
    var text := t.nodes[Target(t, names, name, limit).value].content;
    DirectoryStaysForGood(t, names, euid, actions);
    TargetIsEnd(RunAll(t, actions, euid), names, name, limit);
    assert ReadsAs(t, names, name, limit, text);
    assert !ReadsAs(RunAll(t, actions, euid), names, name, limit, text);
  }

  /** Some steps of other users make the entry read as that text. */
  ghost predicate CanRead(t: Tree, names: seq<Name>, name: Name, limit: nat, euid: Uid, text: Bytes)
    requires WellFormed(t)
  {
    exists actions :: MayRun(t, actions, euid) && ReadsAs(RunAll(t, actions, euid), names, name, limit, text)
  }

  ghost predicate CanReadAnything(t: Tree, names: seq<Name>, name: Name, limit: nat, euid: Uid)
    requires WellFormed(t)
  {
    forall text :: CanRead(t, names, name, limit, euid, text)
  }

  lemma OpenCanReadAnything(t: Tree, names: seq<Name>, name: Name, euid: Uid, limit: nat)
    requires WellFormed(t) && LeadsToDirectory(t, names) && DirectoryTrusted(t, names, euid)
    requires IsCandidate(t, names, name) && !Settled(t, Entrance(names, name, limit), euid)
    requires OpensDownward(t, Entrance(names, name, limit), euid)
    ensures CanReadAnything(t, names, name, limit, euid)
  {
    EntranceIsReached(t, names, name, limit, euid);
    forall text
      ensures CanRead(t, names, name, limit, euid, text)
    {
      var actions := UnsettledTakesAnyText(t, Entrance(names, name, limit), euid, text);
      EndIsRead(t, names, name, euid, limit, actions, text);
    }
  }

  /** What stays alike does not take every text. */
  lemma NotBoth(t: Tree, names: seq<Name>, name: Name, euid: Uid, limit: nat)
    requires WellFormed(t) && LeadsToDirectory(t, names)
    ensures !(ReadsAlikeForGood(t, names, name, limit, euid) && CanReadAnything(t, names, name, limit, euid))
  {
    var other :=
      if IsRead(t, names, name, limit) then t.nodes[Target(t, names, name, limit).value].content + [0] else [];
    assert !ReadsAs(t, names, name, limit, other);
    if CanReadAnything(t, names, name, limit, euid) {
      assert CanRead(t, names, name, limit, euid, other);
      var actions :| MayRun(t, actions, euid) && ReadsAs(RunAll(t, actions, euid), names, name, limit, other);
      assert !ReadsAlike(t, RunAll(t, actions, euid), names, name, limit);
    }
  }

  /** A policy name behind a passed check, whether it is read or dangles, and whose way only goes down behind
      its first open lookup: either nothing about it is within other users' reach, or every text is. */
  lemma NothingOrAnyText(t: Tree, names: seq<Name>, listing: seq<Option<Name>>, name: Name, euid: Uid, limit: nat)
    requires WellFormed(t) && LeadsToDirectory(t, names)
    requires (forall n :: 0 <= n < |listing| ==> listing[n].Some?) && Lists(listing, Entries(t, names))
    requires CheckPolicyDir(t, Downs(names), listing, euid, limit).None?
    requires IsCandidate(t, names, name) && OpensDownward(t, Entrance(names, name, limit), euid)
    ensures Settled(t, Entrance(names, name, limit), euid) <==> ReadsAlikeForGood(t, names, name, limit, euid)
    ensures !Settled(t, Entrance(names, name, limit), euid) <==> CanReadAnything(t, names, name, limit, euid)
  {
    CheckIsSilentThrough(t, names, listing, euid, limit);
    NotBoth(t, names, name, euid, limit);
    if Settled(t, Entrance(names, name, limit), euid) {
      SettledIsOutOfReach(t, names, name, euid, limit);
    } else {
      OpenCanReadAnything(t, names, name, euid, limit);
    }
  }

  // ---------------------------------------------------------------------------
  // One link to a canonical path
  // ---------------------------------------------------------------------------

  /** The entry is a link to an absolute path without `..`. */
  predicate LinksTo(t: Tree, names: seq<Name>, name: Name, path: seq<Name>)
    requires WellFormed(t) && LeadsToDirectory(t, names)
  {
    name in Entries(t, names) && t.nodes[Entries(t, names)[name]].Link? &&
    t.nodes[Entries(t, names)[name]].absolute && t.nodes[Entries(t, names)[name]].target == Downs(path)
  }

  /** What is left to do of a path behind its first `k` components. */
  function Rest(path: seq<Name>, k: nat, budget: nat): Point
    requires k <= |path|
  {
    Point(path[..k], Downs(path[k..]), budget)
  }

  lemma RestFollows(t: Tree, path: seq<Name>, k: nat, budget: nat)
    requires WellFormed(t) && k < |path| && IsPlain(t, path[..k + 1])
    ensures Next(t, Rest(path, k, budget)) == Some(Rest(path, k + 1, budget))
    ensures AtDirectory(t, Rest(path, k, budget)) && path[k] in EntriesAt(t, Rest(path, k, budget))
    ensures At(t, path[..k + 1]) == Found(EntriesAt(t, Rest(path, k, budget))[path[k]])
  {
    var upTo := path[..k + 1];
    assert upTo[..|upTo| - 1] == path[..k] && upTo == path[..k] + [path[k]];
    assert Downs(path[k..])[1..] == Downs(path[k + 1..]);
  }

  /** A resolution is settled when its next lookup is decided and the rest is settled. */
  lemma SettledByNext(t: Tree, p: Point, q: Point, euid: Uid)
    requires WellFormed(t) && Next(t, p) == Some(q) && OpensDownward(t, q, euid)
    ensures Settled(t, p, euid) <==> Decided(t, p, euid) && Settled(t, q, euid)
    ensures Decided(t, p, euid) || OnlyNames(p.todo) ==> OpensDownward(t, p, euid)
  {
  }

  /** The way down a canonical path to a trusted file is settled exactly when the ancestors on it are
      trusted. */
  lemma {:induction false} PlainIsSettled(t: Tree, path: seq<Name>, k: nat, budget: nat, euid: Uid)
    requires WellFormed(t) && IsPlain(t, path) && k <= |path| && OwnerTrusted(t.nodes[At(t, path).value], euid)
    ensures Settled(t, Rest(path, k, budget), euid) <==> AncestorsTrustedFrom(t, path, k, |path|, euid)
    ensures OpensDownward(t, Rest(path, k, budget), euid)
    decreases |path| - k
  {
    if k < |path| {
      PlainIsSettled(t, path, k + 1, budget, euid);
      PlainPrefix(t, path, k + 1);
      RestFollows(t, path, k, budget);
      SettledByNext(t, Rest(path, k, budget), Rest(path, k + 1, budget), euid);
      if k + 1 == |path| {
        assert path[..k + 1] == path;
      }
    }
  }

  /** The path breaks off behind its first `k` components, in a directory. */
  predicate BreaksOff(t: Tree, path: seq<Name>, k: nat)
    requires WellFormed(t)
  {
    k < |path| && IsPlain(t, path[..k]) && IsDir(t, At(t, path[..k]).value) &&
    path[k] !in t.nodes[At(t, path[..k]).value].entries
  }

  /** The way down a path that breaks off is settled exactly when the ancestors are trusted and the directory
      it breaks off in is closed to others. */
  lemma {:induction false} BrokenIsSettled(t: Tree, path: seq<Name>, j: nat, k: nat, budget: nat, euid: Uid)
    requires WellFormed(t) && BreaksOff(t, path, k) && j <= k
    ensures Settled(t, Rest(path, j, budget), euid) <==>
            AncestorsTrustedFrom(t, path, j, k, euid) && ComponentTrusted(t.nodes[At(t, path[..k]).value], euid)
    ensures OpensDownward(t, Rest(path, j, budget), euid)
    decreases k - j
  {
    if j < k {
      BrokenIsSettled(t, path, j + 1, k, budget, euid);
      PlainPrefix(t, path[..k], j + 1);
      assert path[..k][..j + 1] == path[..j + 1];
      RestFollows(t, path, j, budget);
      SettledByNext(t, Rest(path, j, budget), Rest(path, j + 1, budget), euid);
    } else {
      assert Next(t, Rest(path, k, budget)).None?;
    }
  }

  predicate AncestorsTrustedFrom(t: Tree, path: seq<Name>, j: nat, k: nat, euid: Uid)
    requires WellFormed(t) && j <= k <= |path|
  {
    forall i :: j <= i < k ==> At(t, path[..i]).Found? && AncestorTrusted(t.nodes[At(t, path[..i]).value], euid)
  }

  lemma LinkLeadsToPath(t: Tree, names: seq<Name>, name: Name, path: seq<Name>, euid: Uid, limit: nat)
    requires WellFormed(t) && LeadsToDirectory(t, names) && DirectoryTrusted(t, names, euid)
    requires LinksTo(t, names, name, path) && limit > 0
    ensures Decided(t, Entrance(names, name, limit), euid)
    ensures Next(t, Entrance(names, name, limit)) == Some(Rest(path, 0, limit - 1))
  {
    assert path[..0] == [] && path[0..] == path && [Down(name)][1..] == [] && Downs(path) + [] == Downs(path);
  }

  lemma SettledByPath(t: Tree, names: seq<Name>, name: Name, path: seq<Name>, euid: Uid, limit: nat)
    requires WellFormed(t) && LeadsToDirectory(t, names) && DirectoryTrusted(t, names, euid) && limit > 0
    requires LinksTo(t, names, name, path) && OpensDownward(t, Rest(path, 0, limit - 1), euid)
    ensures Settled(t, Entrance(names, name, limit), euid) <==> Settled(t, Rest(path, 0, limit - 1), euid)
    ensures OpensDownward(t, Entrance(names, name, limit), euid)
  {
    LinkLeadsToPath(t, names, name, path, euid, limit);
    SettledByNext(t, Entrance(names, name, limit), Rest(path, 0, limit - 1), euid);
  }

  /** What an entry leads to that is one link. */
  lemma LinkTarget(t: Tree, names: seq<Name>, name: Name, path: seq<Name>, euid: Uid, limit: nat)
    requires WellFormed(t) && LeadsToDirectory(t, names) && DirectoryTrusted(t, names, euid)
    requires LinksTo(t, names, name, path) && limit > 0
    ensures IsPlain(t, path) ==> Target(t, names, name, limit) == At(t, path)
    ensures BreaksOff(t, path, 1) ==> Target(t, names, name, limit).Missing?
  {
    TargetIsEnd(t, names, name, limit);
    LinkLeadsToPath(t, names, name, path, euid, limit);
    NextEndsAlike(t, Entrance(names, name, limit));
    assert path[0..] == path && path[..0] == [];
    if IsPlain(t, path) {
      PlainResolvesToItself(t, path, limit - 1);
    }
    if BreaksOff(t, path, 1) {
      RestFollows(t, path, 0, limit - 1);
      NextEndsAlike(t, Rest(path, 0, limit - 1));
    }
  }

  lemma LinkedFileIsTrusted(t: Tree, names: seq<Name>, name: Name, path: seq<Name>, euid: Uid, limit: nat)
    requires WellFormed(t) && LeadsToDirectory(t, names) && TrustedThrough(t, names, euid, limit) && limit > 0
    requires IsRead(t, names, name, limit) && LinksTo(t, names, name, path) && IsPlain(t, path)
    ensures OwnerTrusted(t.nodes[At(t, path).value], euid)
  {
    LinkTarget(t, names, name, path, euid, limit);
    assert EntryPasses(t, names, name, euid, limit);
  }

  lemma OneLinkIsSettled(t: Tree, names: seq<Name>, name: Name, path: seq<Name>, euid: Uid, limit: nat)
    requires WellFormed(t) && LeadsToDirectory(t, names) && DirectoryTrusted(t, names, euid) && limit > 0
    requires LinksTo(t, names, name, path) && IsPlain(t, path) && OwnerTrusted(t.nodes[At(t, path).value], euid)
    ensures Settled(t, Entrance(names, name, limit), euid) <==> AncestorsTrusted(t, path, |path|, euid)
    ensures OpensDownward(t, Entrance(names, name, limit), euid)
  {
    PlainIsSettled(t, path, 0, limit - 1, euid);
    SettledByPath(t, names, name, path, euid, limit);
    assert AncestorsTrustedFrom(t, path, 0, |path|, euid) <==> AncestorsTrusted(t, path, |path|, euid);
  }

  /** A policy that is one link to a canonical path: the ancestors of its file have to pass the test that the
      check puts to those of the directory, and when they do not, every text is within other users' reach. */
  lemma OneLinkExactly(t: Tree, names: seq<Name>, listing: seq<Option<Name>>, name: Name, path: seq<Name>,
                       euid: Uid, limit: nat)
    requires WellFormed(t) && LeadsToDirectory(t, names) && limit > 0
    requires (forall n :: 0 <= n < |listing| ==> listing[n].Some?) && Lists(listing, Entries(t, names))
    requires CheckPolicyDir(t, Downs(names), listing, euid, limit).None?
    requires IsRead(t, names, name, limit) && LinksTo(t, names, name, path) && IsPlain(t, path)
    ensures AncestorsTrusted(t, path, |path|, euid) <==> ReadsAlikeForGood(t, names, name, limit, euid)
    ensures !AncestorsTrusted(t, path, |path|, euid) <==> CanReadAnything(t, names, name, limit, euid)
  {
    CheckIsSilentThrough(t, names, listing, euid, limit);
    LinkedFileIsTrusted(t, names, name, path, euid, limit);
    OneLinkIsSettled(t, names, name, path, euid, limit);
    NothingOrAnyText(t, names, listing, name, euid, limit);
  }

  lemma DanglingIsSettled(t: Tree, names: seq<Name>, name: Name, path: seq<Name>, k: nat, euid: Uid, limit: nat)
    requires WellFormed(t) && LeadsToDirectory(t, names) && DirectoryTrusted(t, names, euid) && limit > 0
    requires LinksTo(t, names, name, path) && BreaksOff(t, path, k)
    ensures Settled(t, Entrance(names, name, limit), euid) <==>
            AncestorsTrusted(t, path, k, euid) && ComponentTrusted(t.nodes[At(t, path[..k]).value], euid)
    ensures OpensDownward(t, Entrance(names, name, limit), euid)
  {
    BrokenIsSettled(t, path, 0, k, limit - 1, euid);
    SettledByPath(t, names, name, path, euid, limit);
    assert AncestorsTrustedFrom(t, path, 0, k, euid) <==> AncestorsTrusted(t, path, k, euid);
  }

  /** A policy name that is one link to a path that breaks off is skipped by the check. It stays unread exactly
      when the ancestors are trusted and the directory where the path breaks off is closed to others; when it
      is not so, every text is within their reach. */
  lemma DanglingLinkExactly(t: Tree, names: seq<Name>, listing: seq<Option<Name>>, name: Name, path: seq<Name>,
                            k: nat, euid: Uid, limit: nat)
    requires WellFormed(t) && LeadsToDirectory(t, names) && limit > 0
    requires (forall n :: 0 <= n < |listing| ==> listing[n].Some?) && Lists(listing, Entries(t, names))
    requires CheckPolicyDir(t, Downs(names), listing, euid, limit).None?
    requires IsCandidate(t, names, name) && LinksTo(t, names, name, path) && BreaksOff(t, path, k)
    ensures var closed := AncestorsTrusted(t, path, k, euid) && ComponentTrusted(t.nodes[At(t, path[..k]).value], euid);
            (closed <==> ReadsAlikeForGood(t, names, name, limit, euid)) &&
            (!closed <==> CanReadAnything(t, names, name, limit, euid))
  {
    CheckIsSilentThrough(t, names, listing, euid, limit);
    DanglingIsSettled(t, names, name, path, k, euid, limit);
    NothingOrAnyText(t, names, listing, name, euid, limit);
  }

  // ---------------------------------------------------------------------------
  // Two inputs
  // ---------------------------------------------------------------------------

  /** `/p` (0755) holds a policy name that is a link to `/w/f`, and `/w` is open to everyone (0777). All of it
      belongs to root. */
  function SharedTarget(p: Name, w: Name, f: Name, policy: Name, present: bool): Tree {
    Tree(0, map[
      0 := Directory(0, 0x1ED, map[p := 1, w := 2]),
      1 := Directory(0, 0x1ED, map[policy := 3]),
      2 := Directory(0, 0x1FF, if present then map[f := 4] else map[]),
      3 := Link(0, 0x1FF, true, Downs([w, f])),
      4 := File(0, 0x1A4, [])])
  }

  lemma SharedModes(euid: Uid)
    ensures forall node: Node :: node.owner == 0 && (node.mode == 0x1ED || node.mode == 0x1A4) ==>
              ComponentTrusted(node, euid) && AncestorTrusted(node, euid)
    ensures forall node: Node :: node.mode == 0x1FF ==> !AncestorTrusted(node, euid) && !ComponentTrusted(node, euid)
  {
    assert 0x1ED as Mode & 0x012 == 0 && 0x1A4 as Mode & 0x012 == 0 && 0x1FF as Mode & 0x012 != 0;
    assert 0x1FF as Mode & 0x200 == 0;
  }

  lemma SharedPlaces(p: Name, w: Name, f: Name, policy: Name, present: bool)
    requires p != w
    ensures var t := SharedTarget(p, w, f, policy, present);
            WellFormed(t) && At(t, []) == Found(0) && At(t, [p]) == Found(1) && At(t, [w]) == Found(2) &&
            IsPlain(t, [p]) && IsPlain(t, [w]) &&
            (if present then At(t, [w, f]) == Found(4) && IsPlain(t, [w, f]) else BreaksOff(t, [w, f], 1))
  {
    var t := SharedTarget(p, w, f, policy, present);
    assert [p][..0] == [] && [w][..0] == [] && [w, f][..1] == [w];
    assert At(t, []) == Found(0);
    assert At(t, [p]) == Found(1) && At(t, [w]) == Found(2);
    assert IsPlain(t, []);
  }

  lemma SharedDirectory(p: Name, w: Name, f: Name, policy: Name, present: bool, euid: Uid)
    requires p != w
    ensures var t := SharedTarget(p, w, f, policy, present);
            WellFormed(t) && LeadsToDirectory(t, [p]) && DirectoryTrusted(t, [p], euid) &&
            Entries(t, [p]) == map[policy := 3] && LinksTo(t, [p], policy, [w, f])
  {
    SharedPlaces(p, w, f, policy, present);
    SharedModes(euid);
    assert [p][..0] == [];
  }

  lemma SharedPasses(p: Name, w: Name, f: Name, policy: Name, present: bool, euid: Uid, limit: nat)
    requires p != w && limit > 0 && HasCedarExtension(policy) && IsLoadableName(policy)
    ensures var t := SharedTarget(p, w, f, policy, present);
            WellFormed(t) && LeadsToDirectory(t, [p]) && Lists([Some(policy)], Entries(t, [p])) &&
            CheckPolicyDir(t, Downs([p]), [Some(policy)], euid, limit).None? &&
            (IsRead(t, [p], policy, limit) <==> present)
  {
    var t := SharedTarget(p, w, f, policy, present);
    SharedPlaces(p, w, f, policy, present);
    SharedDirectory(p, w, f, policy, present, euid);
    LinkTarget(t, [p], policy, [w, f], euid, limit);
    SharedModes(euid);
    assert EntryPasses(t, [p], policy, euid, limit);
    assert [Some(policy)][0] == Some(policy);
    CheckIsSilentThrough(t, [p], [Some(policy)], euid, limit);
  }

  /** The check passes `/p`, with a file at the link's end or without one, and other users can make any text
      the policy. */
  lemma SharedTargetTakesAnyText(p: Name, w: Name, f: Name, policy: Name, present: bool, euid: Uid, limit: nat)
    requires p != w && limit > 0 && HasCedarExtension(policy) && IsLoadableName(policy)
    ensures var t := SharedTarget(p, w, f, policy, present);
            WellFormed(t) && LeadsToDirectory(t, [p]) &&
            CheckPolicyDir(t, Downs([p]), [Some(policy)], euid, limit).None? &&
            (IsRead(t, [p], policy, limit) <==> present) && CanReadAnything(t, [p], policy, limit, euid)
  {
    var t := SharedTarget(p, w, f, policy, present);
    SharedPlaces(p, w, f, policy, present);
    SharedDirectory(p, w, f, policy, present, euid);
    SharedPasses(p, w, f, policy, present, euid, limit);
    SharedModes(euid);
    assert [w, f][..1] == [w];
    if present {
      OneLinkExactly(t, [p], [Some(policy)], policy, [w, f], euid, limit);
    } else {
      DanglingLinkExactly(t, [p], [Some(policy)], policy, [w, f], 1, euid, limit);
    }
  }
}
