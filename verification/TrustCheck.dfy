/** The trust check on the policy directory: the refusal truth tables, and the three loops that
    apply them to the directory, its loadable files and its ancestors. */
module TrustCheck {
  import opened Wrappers
  import opened FileTree
  import opened OtherUsers
  import opened PathResolution
  import opened PolicyFiles

  datatype Who = GroupAndWorld | GroupOnly | WorldOnly

  datatype Refusal =
    | ForeignOwner(path: Path, owner: Uid)
    | Writable(path: Path, who: Who)
    | WritableAncestor(path: Path, ancestor: Path, who: Who)
    | Unreadable(path: Path)

  datatype Facts = Facts(owner: Uid, mode: Mode, isDir: bool)

  function FactsOf(node: Node): Facts {
    Facts(node.owner, node.mode, node.Directory?)
  }

  predicate IsForeign(owner: Uid, euid: Uid) {
    owner != euid && owner != 0
  }

  function LooseWriters(mode: Mode): Option<Who> {
    match (mode & 0x010 != 0, mode & 0x002 != 0)
    case (true, true) => Some(GroupAndWorld)
    case (true, false) => Some(GroupOnly)
    case (false, true) => Some(WorldOnly)
    case (false, false) => None
  }

  /** For an ancestor the sticky bit is a mitigation; for the directory itself it is not. */
  function LooseAncestorWriters(mode: Mode): Option<Who> {
    if mode & STICKY != 0 then None else LooseWriters(mode)
  }

  function JudgeComponent(path: Path, facts: Facts, euid: Uid): Option<Refusal> {
    if IsForeign(facts.owner, euid) then Some(ForeignOwner(path, facts.owner))
    else match LooseWriters(facts.mode)
         case Some(who) => Some(Writable(path, who))
         case None => None
  }

  function JudgeAncestor(path: Path, ancestor: Path, facts: Facts, euid: Uid): Option<Refusal> {
    if !facts.isDir then None
    else if IsForeign(facts.owner, euid) then Some(ForeignOwner(ancestor, facts.owner))
    else match LooseAncestorWriters(facts.mode)
         case Some(who) => Some(WritableAncestor(path, ancestor, who))
         case None => None
  }

  function RefuseIfUntrusted(t: Tree, path: Path, euid: Uid, limit: nat): Option<Refusal>
    requires WellFormed(t)
  {
    match Stat(t, path, limit)
    case Found(i) => JudgeComponent(path, FactsOf(t.nodes[i]), euid)
    case _ => Some(Unreadable(path))
  }

  /** The loader would load this entry: its name says so, and it leads to a regular file. */
  predicate IsLoadable(t: Tree, dir: Path, name: Name, limit: nat)
    requires WellFormed(t)
  {
    IsLoadableName(name) &&
    match Stat(t, dir + [Down(name)], limit)
    case Found(i) => t.nodes[i].File?
    case _ => false
  }

  /** One entry of the listing; an entry that could not be read is a refusal. */
  function JudgeEntry(t: Tree, dir: Path, entry: Option<Name>, euid: Uid, limit: nat): Option<Refusal>
    requires WellFormed(t)
  {
    match entry
    case None => Some(Unreadable(dir))
    case Some(name) =>
      if !HasCedarExtension(name) || !IsLoadable(t, dir, name, limit) then None
      else RefuseIfUntrusted(t, dir + [Down(name)], euid, limit)
  }

  function FirstEntryRefusal(t: Tree, dir: Path, listing: seq<Option<Name>>, euid: Uid, limit: nat): Option<Refusal>
    requires WellFormed(t)
  {
    if listing == [] then None
    else
      var first := JudgeEntry(t, dir, listing[0], euid, limit);
      if first.Some? then first else FirstEntryRefusal(t, dir, listing[1..], euid, limit)
  }

  /** One ancestor: a missing one has nothing that could be renamed, an unreadable one is a refusal. */
  function JudgeOneAncestor(t: Tree, path: Path, ancestor: Path, euid: Uid, limit: nat): Option<Refusal>
    requires WellFormed(t)
  {
    match Stat(t, ancestor, limit)
    case Found(i) => JudgeAncestor(path, ancestor, FactsOf(t.nodes[i]), euid)
    case Missing => None
    case _ => Some(Unreadable(ancestor))
  }

  /** The ancestors of `path` with fewer than `k` components, the nearest first. */
  function FirstAncestorRefusal(t: Tree, path: Path, k: nat, euid: Uid, limit: nat): Option<Refusal>
    requires WellFormed(t) && k <= |path|
  {
    if k == 0 then None
    else
      var first := JudgeOneAncestor(t, path, path[..k - 1], euid, limit);
      if first.Some? then first else FirstAncestorRefusal(t, path, k - 1, euid, limit)
  }

  /** The first refusal, or none. `listing` is what reading the directory yields. */
  function CheckPolicyDir(t: Tree, path: Path, listing: seq<Option<Name>>, euid: Uid, limit: nat): Option<Refusal>
    requires WellFormed(t)
  {
    var dir := Absolutize(t, path, limit);
    var own := RefuseIfUntrusted(t, dir, euid, limit);
    if own.Some? then own
    else if !IsDir(t, Stat(t, dir, limit).value) then Some(Unreadable(dir))
    else
      var files := FirstEntryRefusal(t, dir, listing, euid, limit);
      if files.Some? then files else FirstAncestorRefusal(t, dir, |dir|, euid, limit)
  }

  // ---------------------------------------------------------------------------
  // The check as it runs
  // ---------------------------------------------------------------------------

  method RefuseOnUntrustedAncestors(t: Tree, path: Path, euid: Uid, limit: nat) returns (r: Option<Refusal>)
    requires WellFormed(t)
    ensures r == FirstAncestorRefusal(t, path, |path|, euid, limit)
  {
    var current := path;
    while current != []
      invariant |current| <= |path| && current == path[..|current|]
      invariant FirstAncestorRefusal(t, path, |path|, euid, limit) ==
                FirstAncestorRefusal(t, path, |current|, euid, limit)
      decreases |current|
    {
      var ancestor := current[..|current| - 1];
      assert ancestor == path[..|current| - 1];
      match Stat(t, ancestor, limit) {
        case Found(i) =>
          var refusal := JudgeAncestor(path, ancestor, FactsOf(t.nodes[i]), euid);
          if refusal.Some? {
            return refusal;
          }
        case Missing =>
        case _ => return Some(Unreadable(ancestor));
      }
      current := ancestor;
    }
    return None;
  }

  method RefuseUntrustedPolicyDir(t: Tree, path: Path, listing: seq<Option<Name>>, euid: Uid, limit: nat)
    returns (r: Option<Refusal>)
    requires WellFormed(t)
    ensures r == CheckPolicyDir(t, path, listing, euid, limit)
  {
    var dir := RunAbsolutize(t, path, limit);
    var refusal := RefuseIfUntrusted(t, dir, euid, limit);
    if refusal.Some? {
      return refusal;
    }
    if !IsDir(t, Stat(t, dir, limit).value) {
      return Some(Unreadable(dir));
    }
    for n := 0 to |listing|
      invariant FirstEntryRefusal(t, dir, listing, euid, limit) ==
                FirstEntryRefusal(t, dir, listing[n..], euid, limit)
    {
      assert listing[n..][1..] == listing[n + 1..];
      if listing[n].None? {
        return Some(Unreadable(dir));
      }
      var name := listing[n].value;
      if !HasCedarExtension(name) {
        continue;
      }
      if !IsLoadable(t, dir, name, limit) {
        continue;
      }
      refusal := RefuseIfUntrusted(t, dir + [Down(name)], euid, limit);
      if refusal.Some? {
        return refusal;
      }
    }
    r := RefuseOnUntrustedAncestors(t, dir, euid, limit);
  }

  // ---------------------------------------------------------------------------
  // What silence means, for a canonical path
  // ---------------------------------------------------------------------------

  predicate OwnerTrusted(node: Node, euid: Uid) {
    node.owner == euid || node.owner == 0
  }

  predicate ComponentTrusted(node: Node, euid: Uid) {
    OwnerTrusted(node, euid) && !IsLoose(node.mode)
  }

  predicate AncestorTrusted(node: Node, euid: Uid) {
    OwnerTrusted(node, euid) && (IsSticky(node.mode) || !IsLoose(node.mode))
  }

  /** A canonical path to a directory. */
  predicate LeadsToDirectory(t: Tree, names: seq<Name>)
    requires WellFormed(t)
  {
    IsPlain(t, names) && t.nodes[At(t, names).value].Directory?
  }

  /** And none of the directory's entries is a link. */
  predicate IsPlainDirectory(t: Tree, names: seq<Name>)
    requires WellFormed(t)
  {
    LeadsToDirectory(t, names) &&
    forall name :: name in Entries(t, names) ==> !t.nodes[Entries(t, names)[name]].Link?
  }

  function Entries(t: Tree, names: seq<Name>): map<Name, Inode>
    requires WellFormed(t) && At(t, names).Found? && t.nodes[At(t, names).value].Directory?
  {
    t.nodes[At(t, names).value].entries
  }

  /** The entry holds a policy the loader loads. */
  predicate IsPolicy(t: Tree, entries: map<Name, Inode>, name: Name) {
    name in entries && entries[name] in t.nodes && t.nodes[entries[name]].File? &&
    HasCedarExtension(name) && IsLoadableName(name)
  }

  /** The directory and every ancestor are beyond other users' reach. */
  predicate DirectoryTrusted(t: Tree, names: seq<Name>, euid: Uid)
    requires WellFormed(t) && LeadsToDirectory(t, names)
  {
    ComponentTrusted(t.nodes[At(t, names).value], euid) && AncestorsTrusted(t, names, |names|, euid)
  }

  /** And so is every policy file in it. */
  ghost predicate Trusted(t: Tree, names: seq<Name>, euid: Uid)
    requires WellFormed(t) && LeadsToDirectory(t, names)
  {
    DirectoryTrusted(t, names, euid) &&
    forall name :: IsPolicy(t, Entries(t, names), name) ==>
      ComponentTrusted(t.nodes[Entries(t, names)[name]], euid)
  }

  /** What the entry leads to, links followed. */
  function Target(t: Tree, names: seq<Name>, name: Name, limit: nat): (r: Lookup<Inode>)
    requires WellFormed(t)
    ensures r.Found? ==> r.value in t.nodes
  {
    Stat(t, Downs(names) + [Down(name)], limit)
  }

  /** The entry is read as a policy, perhaps through links. */
  predicate IsRead(t: Tree, names: seq<Name>, name: Name, limit: nat)
    requires WellFormed(t) && LeadsToDirectory(t, names)
  {
    name in Entries(t, names) && HasCedarExtension(name) && IsLoadableName(name) &&
    Target(t, names, name, limit).Found? && t.nodes[Target(t, names, name, limit).value].File?
  }

  /** Nothing is held against the entry: it is not read as a policy, or what it leads to is trusted. */
  predicate EntryPasses(t: Tree, names: seq<Name>, name: Name, euid: Uid, limit: nat)
    requires WellFormed(t) && LeadsToDirectory(t, names)
  {
    IsRead(t, names, name, limit) ==> ComponentTrusted(t.nodes[Target(t, names, name, limit).value], euid)
  }

  /** What is judged of a directory that may hold links: of a policy, the file it leads to. */
  ghost predicate TrustedThrough(t: Tree, names: seq<Name>, euid: Uid, limit: nat)
    requires WellFormed(t) && LeadsToDirectory(t, names)
  {
    DirectoryTrusted(t, names, euid) &&
    forall name :: name in Entries(t, names) ==> EntryPasses(t, names, name, euid, limit)
  }

  predicate AncestorsTrusted(t: Tree, names: seq<Name>, k: nat, euid: Uid)
    requires WellFormed(t) && k <= |names|
  {
    forall j :: 0 <= j < k ==> At(t, names[..j]).Found? && AncestorTrusted(t.nodes[At(t, names[..j]).value], euid)
  }

  /** Reading the directory yields each of its entries, perhaps beside errors. */
  ghost predicate Lists(listing: seq<Option<Name>>, entries: map<Name, Inode>) {
    forall name :: name in entries <==> Some(name) in listing
  }

  lemma LooseWritersExact(mode: Mode)
    ensures LooseWriters(mode).Some? <==> IsLoose(mode)
  {
    assert (mode & 0x012 != 0) <==> (mode & 0x010 != 0 || mode & 0x002 != 0);
  }

  lemma PlainStat(t: Tree, names: seq<Name>, limit: nat)
    requires WellFormed(t) && IsPlain(t, names)
    ensures Stat(t, Downs(names), limit) == At(t, names)
  {
    PlainResolvesToItself(t, names, limit);
  }

  lemma EntryStat(t: Tree, names: seq<Name>, name: Name, limit: nat)
    requires WellFormed(t) && LeadsToDirectory(t, names) && name in Entries(t, names)
    requires !t.nodes[Entries(t, names)[name]].Link?
    ensures Target(t, names, name, limit) == Found(Entries(t, names)[name])
  {
    var full := names + [name];
    assert full[..|full| - 1] == names;
    assert IsPlain(t, full);
    PlainStat(t, full, limit);
    assert Downs(full) == Downs(names) + [Down(name)];
  }

  lemma OneEntryExact(t: Tree, names: seq<Name>, name: Name, euid: Uid, limit: nat)
    requires WellFormed(t) && LeadsToDirectory(t, names) && name in Entries(t, names)
    ensures JudgeEntry(t, Downs(names), Some(name), euid, limit).None? <==> EntryPasses(t, names, name, euid, limit)
  {
    if Target(t, names, name, limit).Found? {
      LooseWritersExact(t.nodes[Target(t, names, name, limit).value].mode);
    }
  }

  lemma {:induction false} EntriesExact(t: Tree, names: seq<Name>, listing: seq<Option<Name>>, euid: Uid, limit: nat)
    requires WellFormed(t) && LeadsToDirectory(t, names)
    requires forall n :: 0 <= n < |listing| && listing[n].Some? ==> listing[n].value in Entries(t, names)
    ensures FirstEntryRefusal(t, Downs(names), listing, euid, limit).None? <==>
            forall n :: 0 <= n < |listing| ==> listing[n].Some? && EntryPasses(t, names, listing[n].value, euid, limit)
  {
    if listing != [] {
      if listing[0].Some? {
        OneEntryExact(t, names, listing[0].value, euid, limit);
      }
      EntriesExact(t, names, listing[1..], euid, limit);
      assert forall n :: 0 <= n < |listing[1..]| ==> listing[1..][n] == listing[n + 1];
      assert forall n :: 0 < n < |listing| ==> listing[n] == listing[1..][n - 1];
    }
  }

  lemma {:induction false} AncestorsExact(t: Tree, names: seq<Name>, k: nat, euid: Uid, limit: nat)
    requires WellFormed(t) && IsPlain(t, names) && k <= |names|
    ensures k <= |Downs(names)|
    ensures FirstAncestorRefusal(t, Downs(names), k, euid, limit).None? <==> AncestorsTrusted(t, names, k, euid)
  {
    if k > 0 {
      OneAncestorExact(t, names, k - 1, euid, limit);
      AncestorsExact(t, names, k - 1, euid, limit);
    }
  }

  lemma OneAncestorExact(t: Tree, names: seq<Name>, j: nat, euid: Uid, limit: nat)
    requires WellFormed(t) && IsPlain(t, names) && j < |names|
    ensures j < |Downs(names)| && At(t, names[..j]).Found?
    ensures JudgeOneAncestor(t, Downs(names), Downs(names)[..j], euid, limit).None? <==>
            AncestorTrusted(t.nodes[At(t, names[..j]).value], euid)
  {
    PlainPrefix(t, names, j);
    PlainStat(t, names[..j], limit);
    assert Downs(names)[..j] == Downs(names[..j]);
    AncestorIsDirectory(t, names, j);
    LooseWritersExact(t.nodes[At(t, names[..j]).value].mode);
  }

  lemma {:induction false} AncestorIsDirectory(t: Tree, names: seq<Name>, j: nat)
    requires WellFormed(t) && At(t, names).Found? && j < |names|
    ensures At(t, names[..j]).Found? && t.nodes[At(t, names[..j]).value].Directory?
    ensures names[j] in t.nodes[At(t, names[..j]).value].entries
    ensures At(t, names[..j + 1]) == Found(t.nodes[At(t, names[..j]).value].entries[names[j]])
  {
    if j == |names| - 1 {
      assert names[..j + 1] == names;
    } else {
      var init := names[..|names| - 1];
      AncestorIsDirectory(t, init, j);
      assert init[..j] == names[..j] && init[..j + 1] == names[..j + 1];
    }
  }

  /** A canonical path is its own absolute form. */
  lemma CanonicalIsAbsolute(t: Tree, names: seq<Name>, limit: nat)
    requires WellFormed(t) && IsPlain(t, names)
    ensures Absolutize(t, Downs(names), limit) == Downs(names)
  {
    PlainResolvesToItself(t, names, limit);
    assert Downs(names)[..|names|] == Downs(names);
    assert Downs(names) + Downs(names)[|names|..] == Downs(names);
  }

  /** Whatever path resolves is made the canonical path it resolves to. */
  lemma ResolvedIsAbsolute(t: Tree, path: Path, names: seq<Name>, limit: nat)
    requires WellFormed(t) && Canonicalize(t, path, limit) == Found(names)
    ensures IsPlain(t, names) && Absolutize(t, path, limit) == Downs(names)
  {
    WalkEndsPlain(t, [], path, limit);
    assert path[..|path|] == path && Downs(names) + path[|path|..] == Downs(names);
  }

  lemma EntriesPassAll(t: Tree, names: seq<Name>, listing: seq<Option<Name>>, euid: Uid, limit: nat)
    requires WellFormed(t) && LeadsToDirectory(t, names) && Lists(listing, Entries(t, names))
    ensures FirstEntryRefusal(t, Downs(names), listing, euid, limit).None? <==>
            None !in listing &&
            forall name :: name in Entries(t, names) ==> EntryPasses(t, names, name, euid, limit)
  {
    forall n | 0 <= n < |listing| && listing[n].Some?
      ensures listing[n].value in Entries(t, names)
    {
      assert Some(listing[n].value) in listing;
    }
    EntriesExact(t, names, listing, euid, limit);
    forall name | name in Entries(t, names)
      ensures exists n :: 0 <= n < |listing| && listing[n] == Some(name)
    {
      assert Some(name) in listing;
    }
  }

  /** For every path that resolves, through whatever links: the check is silent exactly when the path leads to
      a directory, every entry of it could be read, and the directory, the files its policies lead to and the
      ancestors of the place it really is at are all trusted. */
  lemma CheckExactly(t: Tree, path: Path, names: seq<Name>, listing: seq<Option<Name>>, euid: Uid, limit: nat)
    requires WellFormed(t) && Canonicalize(t, path, limit) == Found(names)
    requires LeadsToDirectory(t, names) ==> Lists(listing, Entries(t, names))
    ensures CheckPolicyDir(t, path, listing, euid, limit).None? <==>
            LeadsToDirectory(t, names) && None !in listing && TrustedThrough(t, names, euid, limit)
  {
    ResolvedIsAbsolute(t, path, names, limit);
    PlainStat(t, names, limit);
    LooseWritersExact(t.nodes[At(t, names).value].mode);
    AncestorsExact(t, names, |names|, euid, limit);
    if LeadsToDirectory(t, names) {
      EntriesPassAll(t, names, listing, euid, limit);
    }
  }

  /** A path that leads to something else than a directory is refused, as unreadable when it is trusted. */
  lemma OtherThanDirectoryIsRefused(t: Tree, path: Path, names: seq<Name>, listing: seq<Option<Name>>, euid: Uid,
                                    limit: nat)
    requires WellFormed(t) && Canonicalize(t, path, limit) == Found(names) && !LeadsToDirectory(t, names)
    ensures IsPlain(t, names)
    ensures CheckPolicyDir(t, path, listing, euid, limit) ==
            if ComponentTrusted(t.nodes[At(t, names).value], euid) then Some(Unreadable(Downs(names)))
            else JudgeComponent(Downs(names), FactsOf(t.nodes[At(t, names).value]), euid)
    ensures CheckPolicyDir(t, path, listing, euid, limit).Some?
  {
    ResolvedIsAbsolute(t, path, names, limit);
    PlainStat(t, names, limit);
    LooseWritersExact(t.nodes[At(t, names).value].mode);
  }

  /** A path that does not resolve is refused as unreadable, when no part of it runs out of links. */
  lemma UnresolvedIsRefused(t: Tree, path: Path, listing: seq<Option<Name>>, euid: Uid, limit: nat)
    requires WellFormed(t) && !Canonicalize(t, path, limit).Found?
    requires forall j :: 0 <= j <= |path| ==> !Canonicalize(t, path[..j], limit).TooManyLinks?
    ensures CheckPolicyDir(t, path, listing, euid, limit) == Some(Unreadable(Absolutize(t, path, limit)))
  {
    AbsoluteStaysUnresolved(t, path, limit);
  }

  // ---------------------------------------------------------------------------
  // Ancestors that are no directories
  // ---------------------------------------------------------------------------

  /** What an ancestor of any path is refused for: not to be inspectable though it is there; or, as a directory,
      its owner, or bits without the sticky one. One that is missing or no directory is passed over. */
  lemma AncestorMeans(t: Tree, path: Path, ancestor: Path, euid: Uid, limit: nat)
    requires WellFormed(t)
    ensures var r := JudgeOneAncestor(t, path, ancestor, euid, limit);
            match Stat(t, ancestor, limit)
            case Found(i) =>
              (r.Some? <==> IsDir(t, i) && !AncestorTrusted(t.nodes[i], euid)) &&
              (r.Some? && !OwnerTrusted(t.nodes[i], euid) ==> r.value == ForeignOwner(ancestor, t.nodes[i].owner))
            case Missing => r == None
            case NotDirectory => r == Some(Unreadable(ancestor))
            case TooManyLinks => r == Some(Unreadable(ancestor))
  {
    match Stat(t, ancestor, limit) {
      case Found(i) => LooseWritersExact(t.nodes[i].mode);
      case _ =>
    }
  }

  /** The walk goes from the nearest ancestor to the root and answers with the first that is refused. */
  lemma {:induction false} FirstAncestorIsFirst(t: Tree, path: Path, k: nat, j: nat, euid: Uid, limit: nat)
    requires WellFormed(t) && j < k <= |path|
    requires forall i :: j < i < k ==> JudgeOneAncestor(t, path, path[..i], euid, limit).None?
    ensures JudgeOneAncestor(t, path, path[..j], euid, limit).Some? ==>
              FirstAncestorRefusal(t, path, k, euid, limit) == JudgeOneAncestor(t, path, path[..j], euid, limit)
  {
    if j + 1 < k {
      assert JudgeOneAncestor(t, path, path[..k - 1], euid, limit).None?;
      FirstAncestorIsFirst(t, path, k - 1, j, euid, limit);
    }
  }

  /** When none of them is refused, the walk is silent. */
  lemma {:induction false} NoAncestorRefused(t: Tree, path: Path, k: nat, euid: Uid, limit: nat)
    requires WellFormed(t) && k <= |path|
    ensures FirstAncestorRefusal(t, path, k, euid, limit).None? <==>
            forall i :: 0 <= i < k ==> JudgeOneAncestor(t, path, path[..i], euid, limit).None?
  {
    if k > 0 {
      NoAncestorRefused(t, path, k - 1, euid, limit);
    }
  }

  /** The listing is judged in order: the first entry that is refused, or could not be read, is the answer. */
  lemma {:induction false} FirstEntryIsFirst(t: Tree, dir: Path, listing: seq<Option<Name>>, n: nat, euid: Uid,
                                             limit: nat)
    requires WellFormed(t) && n < |listing|
    requires forall i :: 0 <= i < n ==> JudgeEntry(t, dir, listing[i], euid, limit).None?
    ensures JudgeEntry(t, dir, listing[n], euid, limit).Some? ==>
              FirstEntryRefusal(t, dir, listing, euid, limit) == JudgeEntry(t, dir, listing[n], euid, limit)
  {
    if n > 0 {
      assert JudgeEntry(t, dir, listing[0], euid, limit).None?;
      FirstEntryIsFirst(t, dir, listing[1..], n - 1, euid, limit);
    }
  }

  /** The directory itself is judged first, then its entries, then its ancestors. */
  lemma RefusalsInOrder(t: Tree, path: Path, names: seq<Name>, listing: seq<Option<Name>>, euid: Uid, limit: nat)
    requires WellFormed(t) && Canonicalize(t, path, limit) == Found(names) && LeadsToDirectory(t, names)
    ensures var r, dir := CheckPolicyDir(t, path, listing, euid, limit), Downs(names);
            var node := t.nodes[At(t, names).value];
            if !OwnerTrusted(node, euid) then r == Some(ForeignOwner(dir, node.owner))
            else if IsLoose(node.mode) then r.Some? && r.value.Writable? && r.value.path == dir
            else
              var files := FirstEntryRefusal(t, dir, listing, euid, limit);
              r == if files.Some? then files else FirstAncestorRefusal(t, dir, |dir|, euid, limit)
  {
    ResolvedIsAbsolute(t, path, names, limit);
    PlainStat(t, names, limit);
    LooseWritersExact(t.nodes[At(t, names).value].mode);
  }

  // ---------------------------------------------------------------------------
  // What a refusal says is so
  // ---------------------------------------------------------------------------

  /** Which of the two bits let others in. */
  predicate Means(who: Who, mode: Mode) {
    match who
    case GroupAndWorld => mode & 0x010 != 0 && mode & 0x002 != 0
    case GroupOnly => mode & 0x010 != 0 && mode & 0x002 == 0
    case WorldOnly => mode & 0x010 == 0 && mode & 0x002 != 0
  }

  /** What is said of the node at the end of a path. */
  predicate IsSo(t: Tree, refusal: Refusal, dir: Path, listing: seq<Option<Name>>, euid: Uid, limit: nat)
    requires WellFormed(t)
  {
    match refusal
    case ForeignOwner(path, owner) =>
      Stat(t, path, limit).Found? && t.nodes[Stat(t, path, limit).value].owner == owner && owner != euid && owner != 0
    case Writable(path, who) =>
      Stat(t, path, limit).Found? && Means(who, t.nodes[Stat(t, path, limit).value].mode)
    case WritableAncestor(path, ancestor, who) =>
      path == dir && ancestor < dir && Stat(t, ancestor, limit).Found? &&
      IsDir(t, Stat(t, ancestor, limit).value) && Means(who, t.nodes[Stat(t, ancestor, limit).value].mode) &&
      t.nodes[Stat(t, ancestor, limit).value].mode & 0x200 == 0
    case Unreadable(path) =>
      !Stat(t, path, limit).Found? ||
      (path == dir && (!IsDir(t, Stat(t, path, limit).value) || None in listing))
  }

  lemma {:induction false} EntryRefusalIsSo(t: Tree, dir: Path, listing: seq<Option<Name>>, euid: Uid, limit: nat)
    requires WellFormed(t)
    ensures var r := FirstEntryRefusal(t, dir, listing, euid, limit);
            r.Some? ==> IsSo(t, r.value, dir, listing, euid, limit)
  {
    if listing != [] {
      EntryRefusalIsSo(t, dir, listing[1..], euid, limit);
    }
  }

  lemma {:induction false} AncestorRefusalIsSo(t: Tree, dir: Path, k: nat, listing: seq<Option<Name>>, euid: Uid,
                                               limit: nat)
    requires WellFormed(t) && k <= |dir|
    ensures var r := FirstAncestorRefusal(t, dir, k, euid, limit);
            r.Some? ==> IsSo(t, r.value, dir, listing, euid, limit)
  {
    if k > 0 {
      AncestorRefusalIsSo(t, dir, k - 1, listing, euid, limit);
    }
  }

  /** Of whatever path: a refusal names something that is as it says. */
  lemma RefusalIsSo(t: Tree, path: Path, listing: seq<Option<Name>>, euid: Uid, limit: nat)
    requires WellFormed(t)
    ensures var r := CheckPolicyDir(t, path, listing, euid, limit);
            r.Some? ==> IsSo(t, r.value, Absolutize(t, path, limit), listing, euid, limit)
  {
    var dir := Absolutize(t, path, limit);
    EntryRefusalIsSo(t, dir, listing, euid, limit);
    AncestorRefusalIsSo(t, dir, |dir|, listing, euid, limit);
  }

  // ---------------------------------------------------------------------------
  // Canonical paths
  // ---------------------------------------------------------------------------

  /** The check is silent exactly when the directory, the files its policies lead to and its ancestors are
      all trusted, in whatever order the directory is listed. */
  lemma CheckIsSilentThrough(t: Tree, names: seq<Name>, listing: seq<Option<Name>>, euid: Uid, limit: nat)
    requires WellFormed(t) && LeadsToDirectory(t, names)
    requires (forall n :: 0 <= n < |listing| ==> listing[n].Some?) && Lists(listing, Entries(t, names))
    ensures CheckPolicyDir(t, Downs(names), listing, euid, limit).None? <==> TrustedThrough(t, names, euid, limit)
  {
    PlainResolvesToItself(t, names, limit);
    CheckExactly(t, Downs(names), names, listing, euid, limit);
  }

  /** Without links a policy is its own target. */
  lemma CheckIsSilentExactly(t: Tree, names: seq<Name>, listing: seq<Option<Name>>, euid: Uid, limit: nat)
    requires WellFormed(t) && IsPlainDirectory(t, names)
    requires (forall n :: 0 <= n < |listing| ==> listing[n].Some?) && Lists(listing, Entries(t, names))
    ensures CheckPolicyDir(t, Downs(names), listing, euid, limit).None? <==> Trusted(t, names, euid)
  {
    CheckIsSilentThrough(t, names, listing, euid, limit);
    forall name | name in Entries(t, names)
      ensures Target(t, names, name, limit) == Found(Entries(t, names)[name])
    {
      EntryStat(t, names, name, limit);
    }
  }
}
