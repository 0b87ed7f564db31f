/** Why the trust check is the right one: it is silent exactly when no sequence of steps by other
    local users can change what the daemon loads from the directory. */
module TrustAdequacy {
  import opened Wrappers
  import opened Utf8
  import opened FileTree
  import opened OtherUsers
  import opened PathResolution
  import opened PolicyFiles
  import opened TrustCheck

  /** What a load sees: the directory the path leads to, its entries, and the loadable contents. */
  datatype Loaded = Loaded(dir: Inode, entries: map<Name, Inode>, contents: map<Name, Bytes>)

  function LoadedFrom(t: Tree, names: seq<Name>): Option<Loaded>
    requires WellFormed(t)
  {
    match At(t, names)
    case Found(dir) =>
      if !t.nodes[dir].Directory? then None
      else
        Some(Loaded(dir, t.nodes[dir].entries, Contents(t, t.nodes[dir].entries)))
    case _ => None
  }

  function Contents(t: Tree, entries: map<Name, Inode>): map<Name, Bytes> {
    map name | name in entries && IsPolicy(t, entries, name) :: t.nodes[entries[name]].content
  }

  datatype Action = Action(user: Uid, step: Step)

  predicate IsOther(user: Uid, euid: Uid) {
    user != euid && user != 0
  }

  /** A sequence of steps other users may take, one after the other. */
  predicate MayRun(t: Tree, actions: seq<Action>, euid: Uid)
    requires WellFormed(t)
    decreases |actions|
  {
    actions == [] ||
    (IsOther(actions[0].user, euid) && May(t, actions[0].user, actions[0].step) &&
     (StepKeepsWellFormed(t, actions[0].user, actions[0].step);
      MayRun(Take(t, actions[0].user, actions[0].step), actions[1..], euid)))
  }

  function RunAll(t: Tree, actions: seq<Action>, euid: Uid): (r: Tree)
    requires WellFormed(t) && MayRun(t, actions, euid)
    ensures WellFormed(r)
    decreases |actions|
  {
    if actions == [] then t
    else
      StepKeepsWellFormed(t, actions[0].user, actions[0].step);
      RunAll(Take(t, actions[0].user, actions[0].step), actions[1..], euid)
  }

  // ---------------------------------------------------------------------------
  // Trusted means out of reach
  // ---------------------------------------------------------------------------

  /** Each of the first `k` components is named by a directory that is trusted as an ancestor and, where
      others may write, sticky and naming something they do not own. */
  predicate ChainTrusted(t: Tree, names: seq<Name>, k: nat, euid: Uid)
    requires WellFormed(t) && k <= |names|
  {
    forall j :: 0 <= j < k ==> LinkTrusted(t, names[..j], names[j], euid)
  }

  predicate LinkTrusted(t: Tree, here: seq<Name>, name: Name, euid: Uid)
    requires WellFormed(t)
  {
    At(t, here).Found? && EntryTrusted(t, At(t, here).value, name, euid)
  }

  predicate EntryTrusted(t: Tree, dir: Inode, name: Name, euid: Uid)
    requires WellFormed(t)
  {
    IsDir(t, dir) && AncestorTrusted(t.nodes[dir], euid) && name in t.nodes[dir].entries &&
    (IsLoose(t.nodes[dir].mode) ==> OwnerTrusted(t.nodes[t.nodes[dir].entries[name]], euid))
  }

  /** A trusted entry keeps leading where it did; and to a node that is trusted no less. */
  lemma EntryStays(t: Tree, dir: Inode, name: Name, euid: Uid, user: Uid, step: Step)
    requires WellFormed(t) && EntryTrusted(t, dir, name, euid)
    requires IsOther(user, euid) && May(t, user, step)
    ensures var after := Take(t, user, step);
            WellFormed(after) && EntryTrusted(after, dir, name, euid) &&
            after.nodes[dir].entries[name] == t.nodes[dir].entries[name]
  {
    StepKeepsWellFormed(t, user, step);
    StepLeavesOthersNodes(t, user, step, dir);
    if IsLoose(t.nodes[dir].mode) {
      StepLeavesStickyEntry(t, user, step, dir, name);
      StepLeavesOthersNodes(t, user, step, t.nodes[dir].entries[name]);
    }
  }

  /** No step of another user moves a component of a trusted path. */
  lemma {:induction false} PathStays(t: Tree, names: seq<Name>, k: nat, euid: Uid, user: Uid, step: Step)
    requires WellFormed(t) && k <= |names| && ChainTrusted(t, names, k, euid)
    requires IsOther(user, euid) && May(t, user, step)
    ensures WellFormed(Take(t, user, step)) && At(Take(t, user, step), names[..k]) == At(t, names[..k])
  {
    StepKeepsWellFormed(t, user, step);
    if k > 0 {
      PathStays(t, names, k - 1, euid, user, step);
      assert LinkTrusted(t, names[..k - 1], names[k - 1], euid);
      EntryStays(t, At(t, names[..k - 1]).value, names[k - 1], euid, user, step);
      OneFurther(t, names, k);
      OneFurther(Take(t, user, step), names, k);
    }
  }

  lemma OneFurther(t: Tree, names: seq<Name>, k: nat)
    requires WellFormed(t) && 0 < k <= |names| && At(t, names[..k - 1]).Found?
    requires IsDir(t, At(t, names[..k - 1]).value) && names[k - 1] in t.nodes[At(t, names[..k - 1]).value].entries
    ensures At(t, names[..k]) == Found(t.nodes[At(t, names[..k - 1]).value].entries[names[k - 1]])
  {
    assert names[..k][..k - 1] == names[..k - 1];
  }

  /** And the path stays trusted. */
  lemma ChainStays(t: Tree, names: seq<Name>, k: nat, euid: Uid, user: Uid, step: Step)
    requires WellFormed(t) && k <= |names| && ChainTrusted(t, names, k, euid)
    requires IsOther(user, euid) && May(t, user, step)
    ensures var after := Take(t, user, step);
            WellFormed(after) && ChainTrusted(after, names, k, euid) && At(after, names[..k]) == At(t, names[..k])
  {
    PathStays(t, names, k, euid, user, step);
    forall j | 0 <= j < k
      ensures LinkTrusted(Take(t, user, step), names[..j], names[j], euid)
    {
      assert LinkTrusted(t, names[..j], names[j], euid);
      PathStays(t, names, j, euid, user, step);
      EntryStays(t, At(t, names[..j]).value, names[j], euid, user, step);
    }
  }

  lemma TrustedChain(t: Tree, names: seq<Name>, euid: Uid)
    requires WellFormed(t) && LeadsToDirectory(t, names) && DirectoryTrusted(t, names, euid)
    ensures ChainTrusted(t, names, |names|, euid)
  {
    forall j | 0 <= j < |names|
      ensures LinkTrusted(t, names[..j], names[j], euid)
    {
      AncestorIsDirectory(t, names, j);
      if j + 1 < |names| {
        assert AncestorTrusted(t.nodes[At(t, names[..j + 1]).value], euid);
      } else {
        assert names[..j + 1] == names;
      }
    }
  }

  /** The directory stays where it is, what it is and trusted. */
  lemma DirectoryStays(t: Tree, names: seq<Name>, euid: Uid, user: Uid, step: Step)
    requires WellFormed(t) && LeadsToDirectory(t, names) && DirectoryTrusted(t, names, euid)
    requires IsOther(user, euid) && May(t, user, step)
    ensures var after := Take(t, user, step);
            WellFormed(after) && LeadsToDirectory(after, names) && DirectoryTrusted(after, names, euid) &&
            At(after, names) == At(t, names) && Entries(after, names) == Entries(t, names)
  {
    TrustedChain(t, names, euid);
    ChainStays(t, names, |names|, euid, user, step);
    assert names[..|names|] == names;
    StepLeavesOthersNodes(t, user, step, At(t, names).value);
    PlainStays(t, names, euid, user, step, |names|);
    forall j | 0 <= j < |names|
      ensures AncestorTrusted(Take(t, user, step).nodes[At(Take(t, user, step), names[..j]).value], euid)
    {
      assert LinkTrusted(Take(t, user, step), names[..j], names[j], euid);
    }
  }

  lemma {:induction false} PlainStays(t: Tree, names: seq<Name>, euid: Uid, user: Uid, step: Step, k: nat)
    requires WellFormed(t) && LeadsToDirectory(t, names) && ChainTrusted(t, names, |names|, euid)
    requires IsOther(user, euid) && May(t, user, step) && k <= |names|
    ensures WellFormed(Take(t, user, step)) && IsPlain(Take(t, user, step), names[..k])
  {
    ChainStays(t, names, k, euid, user, step);
    PlainPrefix(t, names, k);
    StepKeepsKinds(t, user, step, At(t, names[..k]).value);
    if k > 0 {
      PlainStays(t, names, euid, user, step, k - 1);
      assert names[..k][..k - 1] == names[..k - 1];
    }
  }

  lemma PoliciesStay(t: Tree, names: seq<Name>, euid: Uid, user: Uid, step: Step, name: Name)
    requires WellFormed(t) && IsPlainDirectory(t, names) && Trusted(t, names, euid)
    requires IsOther(user, euid) && May(t, user, step) && name in Entries(t, names)
    ensures var after := Take(t, user, step);
            var entries := Entries(t, names);
            entries[name] in after.nodes && !after.nodes[entries[name]].Link? &&
            (IsPolicy(after, entries, name) <==> IsPolicy(t, entries, name)) &&
            (IsPolicy(t, entries, name) ==> after.nodes[entries[name]] == t.nodes[entries[name]])
  {
    var i := Entries(t, names)[name];
    StepKeepsKinds(t, user, step, i);
    if IsPolicy(t, Entries(t, names), name) {
      StepLeavesOthersNodes(t, user, step, i);
    }
  }

  /** One step: what is loaded stays the same, and so does the verdict. */
  lemma TrustSurvivesAStep(t: Tree, names: seq<Name>, euid: Uid, user: Uid, step: Step)
    requires WellFormed(t) && IsPlainDirectory(t, names) && Trusted(t, names, euid)
    requires IsOther(user, euid) && May(t, user, step)
    ensures var after := Take(t, user, step);
            WellFormed(after) && IsPlainDirectory(after, names) && Trusted(after, names, euid) &&
            LoadedFrom(after, names) == LoadedFrom(t, names)
  {
    var after := Take(t, user, step);
    var entries := Entries(t, names);
    DirectoryStays(t, names, euid, user, step);
    forall name | name in entries
      ensures entries[name] in after.nodes && !after.nodes[entries[name]].Link?
      ensures IsPolicy(after, entries, name) <==> IsPolicy(t, entries, name)
      ensures IsPolicy(t, entries, name) ==> after.nodes[entries[name]] == t.nodes[entries[name]]
    {
      PoliciesStay(t, names, euid, user, step, name);
    }
    assert Contents(after, entries) == Contents(t, entries);
  }

  /** Every sequence of steps by other users leaves what is loaded as it was, and the check silent. */
  lemma {:induction false} TrustSurvivesEveryRun(t: Tree, names: seq<Name>, euid: Uid, actions: seq<Action>)
    requires WellFormed(t) && IsPlainDirectory(t, names) && Trusted(t, names, euid)
    requires MayRun(t, actions, euid)
    ensures var after := RunAll(t, actions, euid);
            IsPlainDirectory(after, names) && Trusted(after, names, euid) &&
            LoadedFrom(after, names) == LoadedFrom(t, names)
    decreases |actions|
  {
    if actions != [] {
      TrustSurvivesAStep(t, names, euid, actions[0].user, actions[0].step);
      TrustSurvivesEveryRun(Take(t, actions[0].user, actions[0].step), names, euid, actions[1..]);
    }
  }

  // ---------------------------------------------------------------------------
  // Untrusted means within reach
  // ---------------------------------------------------------------------------

  /** The directory holds `text` as a policy under that name. */
  predicate Loads(t: Tree, names: seq<Name>, name: Name, text: Bytes)
    requires WellFormed(t)
  {
    LoadedFrom(t, names).Some? && name in LoadedFrom(t, names).value.contents &&
    LoadedFrom(t, names).value.contents[name] == text
  }

  /** Some steps of other users make the text a policy in the directory. */
  ghost predicate WithinReach(t: Tree, names: seq<Name>, euid: Uid, text: Bytes)
    requires WellFormed(t)
  {
    exists actions, name :: MayRun(t, actions, euid) && Loads(RunAll(t, actions, euid), names, name, text)
  }

  lemma OneStepRun(t: Tree, user: Uid, step: Step, euid: Uid)
    requires WellFormed(t) && IsOther(user, euid) && May(t, user, step)
    ensures MayRun(t, [Action(user, step)], euid) && RunAll(t, [Action(user, step)], euid) == Take(t, user, step)
  {
    StepKeepsWellFormed(t, user, step);
    var actions := [Action(user, step)];
    assert actions[1..] == [];
  }

  /** One step, and then others. */
  lemma StepThenRun(t: Tree, user: Uid, step: Step, rest: seq<Action>, euid: Uid)
    requires WellFormed(t) && IsOther(user, euid) && May(t, user, step)
    requires WellFormed(Take(t, user, step)) && MayRun(Take(t, user, step), rest, euid)
    ensures var actions := [Action(user, step)] + rest;
            MayRun(t, actions, euid) && RunAll(t, actions, euid) == RunAll(Take(t, user, step), rest, euid)
  {
    var actions := [Action(user, step)] + rest;
    assert actions[0] == Action(user, step) && actions[1..] == rest;
  }

  lemma {:induction false} LongerName(names: set<Name>) returns (longest: Name)
    ensures forall name :: name in names ==> |name| < |longest|
    decreases names
  {
    if names == {} {
      longest := [];
    } else {
      var name :| name in names;
      var other := LongerName(names - {name});
      longest := other + name + [0];
    }
  }

  lemma {:induction false} LargerInode(inodes: set<Inode>) returns (largest: Inode)
    ensures forall i :: i in inodes ==> i < largest
    decreases inodes
  {
    if inodes == {} {
      largest := 0;
    } else {
      var some :| some in inodes;
      var other := LargerInode(inodes - {some});
      largest := other + some + 1;
      assert forall i :: i in inodes ==> i == some || i in inodes - {some};
    }
  }

  /** A policy name longer than any of these. */
  function PolicyName(length: nat): Name {
    seq(length + 1, _ => LETTER) + [DOT] + CEDAR
  }

  const LETTER: Byte := 0x61

  lemma PolicyNameIsLoadable(length: nat)
    ensures HasCedarExtension(PolicyName(length)) && IsLoadableName(PolicyName(length))
    ensures |PolicyName(length)| > length
  {
    var name := PolicyName(length);
    assert name[length + 1] == DOT && name[length + 2..] == CEDAR;
    assert LastDot(name) == length + 1;
    AsciiIsUtf8(name);
  }

  /** The path leads to a file with that text. */
  predicate Holds(t: Tree, path: seq<Name>, text: Bytes)
    requires WellFormed(t)
  {
    At(t, path).Found? && t.nodes[At(t, path).value].File? && t.nodes[At(t, path).value].content == text
  }

  lemma HeldIsLoaded(t: Tree, names: seq<Name>, name: Name, text: Bytes)
    requires WellFormed(t) && Holds(t, names + [name], text)
    requires HasCedarExtension(name) && IsLoadableName(name)
    ensures Loads(t, names, name, text)
  {
    var path := names + [name];
    assert path[..|path| - 1] == names;
  }

  lemma HeldIsWithinReach(t: Tree, names: seq<Name>, name: Name, euid: Uid, text: Bytes, actions: seq<Action>)
    requires WellFormed(t) && MayRun(t, actions, euid) && Holds(RunAll(t, actions, euid), names + [name], text)
    requires HasCedarExtension(name) && IsLoadableName(name)
    ensures WithinReach(t, names, euid, text)
  {
    HeldIsLoaded(RunAll(t, actions, euid), names, name, text);
  }

  /** A new entry changes no path that leads somewhere. */
  lemma {:induction false} CreatingMovesNothing(t: Tree, user: Uid, step: Step, names: seq<Name>, k: nat)
    requires WellFormed(t) && step.Create? && May(t, user, step) && k <= |names| && At(t, names[..k]).Found?
    ensures WellFormed(Take(t, user, step)) && At(Take(t, user, step), names[..k]) == At(t, names[..k])
  {
    StepKeepsWellFormed(t, user, step);
    if k > 0 {
      assert names[..k][..k - 1] == names[..k - 1];
      CreatingMovesNothing(t, user, step, names, k - 1);
    }
  }

  /** Who may write where a path breaks off lays the rest of it, down to a file of their own. */
  lemma {:induction false} LayingThePath(t: Tree, path: seq<Name>, k: nat, user: Uid, euid: Uid, text: Bytes)
    returns (actions: seq<Action>)
    requires WellFormed(t) && IsOther(user, euid) && k < |path| && At(t, path[..k]).Found?
    requires MayAdd(t, user, At(t, path[..k]).value) && path[k] !in t.nodes[At(t, path[..k]).value].entries
    ensures MayRun(t, actions, euid) && Holds(RunAll(t, actions, euid), path, text)
    decreases |path| - k
  {
    var dir := At(t, path[..k]).value;
    var inode := LargerInode(t.nodes.Keys);
    var node := if k == |path| - 1 then File(user, 0x1A4, text) else Directory(user, 0x1ED, map[]);
    var step := Create(dir, path[k], inode, node);
    StepKeepsWellFormed(t, user, step);
    var after := Take(t, user, step);
    CreatingMovesNothing(t, user, step, path, k);
    assert path[..k + 1][..k] == path[..k];
    assert At(after, path[..k + 1]) == Found(inode);
    if k == |path| - 1 {
      OneStepRun(t, user, step, euid);
      assert path[..k + 1] == path;
      actions := [Action(user, step)];
    } else {
      var rest := LayingThePath(after, path, k + 1, user, euid, text);
      StepThenRun(t, user, step, rest, euid);
      actions := [Action(user, step)] + rest;
    }
  }

  /** `after` is `t` with the entry `gone` taken out of `dir`, and perhaps new entries added there. */
  predicate EntryGone(t: Tree, after: Tree, dir: Inode, gone: Name) {
    IsDir(t, dir) && IsDir(after, dir) && after.root == t.root && gone !in after.nodes[dir].entries &&
    (forall i :: i in t.nodes && i != dir ==> i in after.nodes && after.nodes[i] == t.nodes[i]) &&
    (forall name :: name in t.nodes[dir].entries && name != gone ==>
       name in after.nodes[dir].entries && after.nodes[dir].entries[name] == t.nodes[dir].entries[name])
  }

  /** A path that does not lead through the entry still leads where it did. */
  lemma {:induction false} GoneMovesNothing(t: Tree, after: Tree, path: seq<Name>, dir: Inode, gone: Name, k: nat)
    requires WellFormed(t) && WellFormed(after) && EntryGone(t, after, dir, gone)
    requires k <= |path| && At(t, path[..k]).Found?
    requires forall i :: 0 <= i < k ==> !(At(t, path[..i]) == Found(dir) && path[i] == gone)
    ensures At(after, path[..k]) == At(t, path[..k])
  {
    if k > 0 {
      assert path[..k][..k - 1] == path[..k - 1];
      GoneMovesNothing(t, after, path, dir, gone, k - 1);
    }
  }

  /** Who may take a component of a path out of its directory renames it, and lays the rest of the path
      anew, down to a file of their own. */
  lemma {:induction false} SubstitutingTheTree(t: Tree, path: seq<Name>, j: nat, user: Uid, euid: Uid, text: Bytes)
    returns (actions: seq<Action>)
    requires WellFormed(t) && IsOther(user, euid) && j < |path| && At(t, path[..j]).Found?
    requires MayTake(t, user, At(t, path[..j]).value, path[j])
    ensures MayRun(t, actions, euid) && Holds(RunAll(t, actions, euid), path, text)
  {
    var dir := At(t, path[..j]).value;
    if i: nat :| i < j && At(t, path[..i]) == Found(dir) && path[i] == path[j] {
      actions := SubstitutingTheTree(t, path, i, user, euid, text);
    } else {
      var elsewhere := LongerName(t.nodes[dir].entries.Keys);
      var step := Rename(dir, path[j], dir, elsewhere);
      StepKeepsWellFormed(t, user, step);
      var after := Take(t, user, step);
      assert |path[j]| < |elsewhere|;
      assert EntryGone(t, after, dir, path[j]);
      GoneMovesNothing(t, after, path, dir, path[j], j);
      var rest := LayingThePath(after, path, j, user, euid, text);
      StepThenRun(t, user, step, rest, euid);
      actions := [Action(user, step)] + rest;
    }
  }

  /** Who may move a component of the path makes any text a policy. */
  lemma MovableComponent(t: Tree, names: seq<Name>, j: nat, user: Uid, euid: Uid, text: Bytes)
    requires WellFormed(t) && LeadsToDirectory(t, names) && IsOther(user, euid) && j < |names|
    requires At(t, names[..j]).Found? && MayTake(t, user, At(t, names[..j]).value, names[j])
    ensures WithinReach(t, names, euid, text)
  {
    PolicyNameIsLoadable(0);
    SubstitutingUnder(t, names, j, user, euid, text, PolicyName(0));
  }

  lemma SubstitutingUnder(t: Tree, names: seq<Name>, j: nat, user: Uid, euid: Uid, text: Bytes, name: Name)
    requires WellFormed(t) && IsOther(user, euid) && j < |names| && HasCedarExtension(name) && IsLoadableName(name)
    requires At(t, names[..j]).Found? && MayTake(t, user, At(t, names[..j]).value, names[j])
    ensures WithinReach(t, names, euid, text)
  {
    var path := names + [name];
    assert path[..j] == names[..j] && path[j] == names[j];
    var actions := SubstitutingTheTree(t, path, j, user, euid, text);
    HeldIsWithinReach(t, names, name, euid, text, actions);
  }

  /** The sticky bit alone does not protect an ancestor: the next component's owner may still move it,
      which is why that owner is judged too. */
  lemma StickyNeedsTheOwnerRule(t: Tree, names: seq<Name>, j: nat, euid: Uid, text: Bytes)
    requires WellFormed(t) && LeadsToDirectory(t, names) && j < |names|
    requires At(t, names[..j]).Found? && IsLoose(t.nodes[At(t, names[..j]).value].mode)
    requires At(t, names[..j + 1]).Found? && !OwnerTrusted(t.nodes[At(t, names[..j + 1]).value], euid)
    ensures WithinReach(t, names, euid, text)
  {
    AncestorIsDirectory(t, names, j);
    MovableComponent(t, names, j, t.nodes[At(t, names[..j + 1]).value].owner, euid, text);
  }

  /** Someone else who may write what is judged: its owner, or anyone when the bits are loose. */
  function SomeWriter(node: Node, euid: Uid): (user: Uid)
    ensures !OwnerTrusted(node, euid) || IsLoose(node.mode) ==> IsOther(user, euid) && MayWrite(node, user)
    ensures !OwnerTrusted(node, euid) ==> user == node.owner
  {
    if !OwnerTrusted(node, euid) then node.owner else euid + 1
  }

  lemma UntrustedAncestor(t: Tree, names: seq<Name>, j: nat, euid: Uid, text: Bytes)
    requires WellFormed(t) && LeadsToDirectory(t, names) && j < |names|
    requires At(t, names[..j]).Found? && !AncestorTrusted(t.nodes[At(t, names[..j]).value], euid)
    ensures WithinReach(t, names, euid, text)
  {
    AncestorIsDirectory(t, names, j);
    MovableComponent(t, names, j, SomeWriter(t.nodes[At(t, names[..j]).value], euid), euid, text);
  }

  /** Whoever may write the directory adds a policy to it. */
  lemma UntrustedDirectory(t: Tree, names: seq<Name>, euid: Uid, text: Bytes)
    requires WellFormed(t) && LeadsToDirectory(t, names)
    requires !ComponentTrusted(t.nodes[At(t, names).value], euid)
    ensures WithinReach(t, names, euid, text)
  {
    var longer := LongerName(Entries(t, names).Keys);
    var name := PolicyName(|longer|);
    PolicyNameIsLoadable(|longer|);
    var path := names + [name];
    assert path[..|names|] == names;
    var actions := LayingThePath(t, path, |names|, SomeWriter(t.nodes[At(t, names).value], euid), euid, text);
    HeldIsWithinReach(t, names, name, euid, text, actions);
  }

  /** Whoever may write a policy file writes another policy. */
  lemma UntrustedPolicy(t: Tree, names: seq<Name>, name: Name, euid: Uid, text: Bytes)
    requires WellFormed(t) && LeadsToDirectory(t, names)
    requires IsPolicy(t, Entries(t, names), name)
    requires !ComponentTrusted(t.nodes[Entries(t, names)[name]], euid)
    ensures WithinReach(t, names, euid, text)
  {
    var i := Entries(t, names)[name];
    var user := SomeWriter(t.nodes[i], euid);
    var step := Write(i, text);
    WritingMovesNothing(t, names, user, i, text, |names|);
    assert names[..|names|] == names;
    OneStepRun(t, user, step, euid);
    assert Loads(Take(t, user, step), names, name, text);
  }

  lemma {:induction false} WritingMovesNothing(t: Tree, names: seq<Name>, user: Uid, i: Inode, content: Bytes, k: nat)
    requires WellFormed(t) && At(t, names).Found? && k <= |names|
    requires May(t, user, Write(i, content))
    ensures WellFormed(Take(t, user, Write(i, content)))
    ensures At(Take(t, user, Write(i, content)), names[..k]) == At(t, names[..k])
  {
    StepKeepsWellFormed(t, user, Write(i, content));
    if k > 0 {
      WritingMovesNothing(t, names, user, i, content, k - 1);
      AncestorIsDirectory(t, names, k - 1);
      assert names[..k][..k - 1] == names[..k - 1];
    }
  }

  /** A refusal is never without reason: other users can make any text at all a policy. */
  lemma RefusalIsNeeded(t: Tree, names: seq<Name>, euid: Uid, text: Bytes)
    requires WellFormed(t) && LeadsToDirectory(t, names) && !Trusted(t, names, euid)
    ensures WithinReach(t, names, euid, text)
  {
    if !ComponentTrusted(t.nodes[At(t, names).value], euid) {
      UntrustedDirectory(t, names, euid, text);
    } else if !AncestorsTrusted(t, names, |names|, euid) {
      forall j | 0 <= j < |names|
        ensures At(t, names[..j]).Found?
      {
        AncestorIsDirectory(t, names, j);
      }
      var j :| 0 <= j < |names| && !AncestorTrusted(t.nodes[At(t, names[..j]).value], euid);
      UntrustedAncestor(t, names, j, euid, text);
    } else {
      var name :| IsPolicy(t, Entries(t, names), name) && !ComponentTrusted(t.nodes[Entries(t, names)[name]], euid);
      UntrustedPolicy(t, names, name, euid, text);
    }
  }

  /** No sequence of steps by other users changes what is loaded. */
  ghost predicate OutOfReach(t: Tree, names: seq<Name>, euid: Uid)
    requires WellFormed(t)
  {
    forall actions :: MayRun(t, actions, euid) ==> LoadedFrom(RunAll(t, actions, euid), names) == LoadedFrom(t, names)
  }

  /** For a canonical path to a directory without link entries: the check is silent exactly when what is
      loaded is out of every other user's reach, for good; and it refuses exactly when every text is within
      their reach. There is nothing in between. */
  lemma CheckIsAdequate(t: Tree, names: seq<Name>, listing: seq<Option<Name>>, euid: Uid, limit: nat)
    requires WellFormed(t) && IsPlainDirectory(t, names)
    requires (forall n :: 0 <= n < |listing| ==> listing[n].Some?) && Lists(listing, Entries(t, names))
    ensures var refusal := CheckPolicyDir(t, Downs(names), listing, euid, limit);
            (refusal.None? <==> OutOfReach(t, names, euid)) &&
            (refusal.Some? <==> forall text :: WithinReach(t, names, euid, text))
  {
    CheckIsSilentExactly(t, names, listing, euid, limit);
    var other := LongerName(Contents(t, Entries(t, names)).Values);
    if Trusted(t, names, euid) {
      forall actions | MayRun(t, actions, euid)
        ensures LoadedFrom(RunAll(t, actions, euid), names) == LoadedFrom(t, names)
      {
        TrustSurvivesEveryRun(t, names, euid, actions);
      }
      assert !WithinReach(t, names, euid, other);
    } else {
      forall text
        ensures WithinReach(t, names, euid, text)
      {
        RefusalIsNeeded(t, names, euid, text);
      }
      assert WithinReach(t, names, euid, other);
      var actions, name :| MayRun(t, actions, euid) && Loads(RunAll(t, actions, euid), names, name, other);
      assert LoadedFrom(RunAll(t, actions, euid), names) != LoadedFrom(t, names);
    }
  }

  /** And it stays silent after every such run, with the directory listed in any order. */
  lemma CheckStaysSilent(t: Tree, names: seq<Name>, listing: seq<Option<Name>>, euid: Uid, limit: nat,
                         actions: seq<Action>, later: seq<Option<Name>>)
    requires WellFormed(t) && IsPlainDirectory(t, names)
    requires (forall n :: 0 <= n < |listing| ==> listing[n].Some?) && Lists(listing, Entries(t, names))
    requires CheckPolicyDir(t, Downs(names), listing, euid, limit).None?
    requires MayRun(t, actions, euid)
    requires (forall n :: 0 <= n < |later| ==> later[n].Some?) && Lists(later, Entries(t, names))
    ensures CheckPolicyDir(RunAll(t, actions, euid), Downs(names), later, euid, limit).None?
  {
    CheckIsSilentExactly(t, names, listing, euid, limit);
    TrustSurvivesEveryRun(t, names, euid, actions);
    CheckIsSilentExactly(RunAll(t, actions, euid), names, later, euid, limit);
  }
}
