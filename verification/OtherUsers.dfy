/** The steps a local user other than the daemon's and root can take in a directory tree, and what
    such a step leaves alone. Group and world write bits count as open to every such user. */
module OtherUsers {
  import opened Utf8
  import opened FileTree

  const GROUP_OR_WORLD_WRITE: Mode := 0x012
  const STICKY: Mode := 0x200

  predicate IsLoose(mode: Mode) {
    mode & GROUP_OR_WORLD_WRITE != 0
  }

  predicate IsSticky(mode: Mode) {
    mode & STICKY != 0
  }

  datatype Step =
    | Create(dir: Inode, name: Name, inode: Inode, node: Node)
    | HardLink(dir: Inode, name: Name, inode: Inode)
    | Unlink(dir: Inode, name: Name)
    | Rename(dir: Inode, name: Name, toDir: Inode, toName: Name)
    | Chmod(inode: Inode, mode: Mode)
    | Write(inode: Inode, content: Bytes)

  /** An owner can give itself any bit, so owning is enough to write. */
  predicate MayWrite(node: Node, user: Uid) {
    node.owner == user || IsLoose(node.mode)
  }

  predicate IsDir(t: Tree, i: Inode) {
    i in t.nodes && t.nodes[i].Directory?
  }

  /** Adding an entry needs the directory only. */
  predicate MayAdd(t: Tree, user: Uid, dir: Inode) {
    IsDir(t, dir) && MayWrite(t.nodes[dir], user)
  }

  /** Taking an entry away needs the directory, and in a sticky one also its ownership or the
      entry's. */
  predicate MayTake(t: Tree, user: Uid, dir: Inode, name: Name)
    requires WellFormed(t)
  {
    MayAdd(t, user, dir) && name in t.nodes[dir].entries &&
    (IsSticky(t.nodes[dir].mode) ==>
       t.nodes[dir].owner == user || t.nodes[t.nodes[dir].entries[name]].owner == user)
  }

  predicate May(t: Tree, user: Uid, step: Step)
    requires WellFormed(t)
  {
    match step
    case Create(dir, name, inode, node) =>
      MayAdd(t, user, dir) && name !in t.nodes[dir].entries && inode !in t.nodes &&
      node.owner == user && (node.Directory? ==> node.entries == map[])
    case HardLink(dir, name, inode) =>
      MayAdd(t, user, dir) && name !in t.nodes[dir].entries && inode in t.nodes && !t.nodes[inode].Directory?
    case Unlink(dir, name) => MayTake(t, user, dir, name)
    case Rename(dir, name, toDir, toName) =>
      MayTake(t, user, dir, name) && MayAdd(t, user, toDir) &&
      (toName in t.nodes[toDir].entries ==> MayTake(t, user, toDir, toName))
    case Chmod(inode, mode) => inode in t.nodes && t.nodes[inode].owner == user
    case Write(inode, content) => inode in t.nodes && t.nodes[inode].File? && MayWrite(t.nodes[inode], user)
  }

  function WithEntries(t: Tree, dir: Inode, entries: map<Name, Inode>): Tree
    requires IsDir(t, dir)
  {
    t.(nodes := t.nodes[dir := t.nodes[dir].(entries := entries)])
  }

  function Take(t: Tree, user: Uid, step: Step): Tree
    requires WellFormed(t) && May(t, user, step)
  {
    match step
    case Create(dir, name, inode, node) =>
      var u := WithEntries(t, dir, t.nodes[dir].entries[name := inode]);
      u.(nodes := u.nodes[inode := node])
    case HardLink(dir, name, inode) => WithEntries(t, dir, t.nodes[dir].entries[name := inode])
    case Unlink(dir, name) => WithEntries(t, dir, t.nodes[dir].entries - {name})
    case Rename(dir, name, toDir, toName) =>
      var moved := t.nodes[dir].entries[name];
      var u := WithEntries(t, dir, t.nodes[dir].entries - {name});
      WithEntries(u, toDir, u.nodes[toDir].entries[toName := moved])
    case Chmod(inode, mode) => t.(nodes := t.nodes[inode := t.nodes[inode].(mode := mode)])
    case Write(inode, content) => t.(nodes := t.nodes[inode := t.nodes[inode].(content := content)])
  }

  lemma StepKeepsWellFormed(t: Tree, user: Uid, step: Step)
    requires WellFormed(t) && May(t, user, step)
    ensures WellFormed(Take(t, user, step))
  {
  }

  /** Kind, owner and mode of a node that someone else owns do not change; nor does the content of a
      file, or the entries of a directory, that the user may not write. */
  lemma StepLeavesOthersNodes(t: Tree, user: Uid, step: Step, i: Inode)
    requires WellFormed(t) && May(t, user, step) && i in t.nodes && t.nodes[i].owner != user
    ensures WellFormed(Take(t, user, step))
    ensures var after := Take(t, user, step).nodes;
            i in after && after[i].owner == t.nodes[i].owner && after[i].mode == t.nodes[i].mode &&
            (t.nodes[i].Directory? <==> after[i].Directory?) && (t.nodes[i].File? <==> after[i].File?) &&
            (!IsLoose(t.nodes[i].mode) ==> after[i] == t.nodes[i])
  {
    StepKeepsWellFormed(t, user, step);
  }

  /** Kinds never change, nor does what a link says. */
  lemma StepKeepsKinds(t: Tree, user: Uid, step: Step, i: Inode)
    requires WellFormed(t) && May(t, user, step) && i in t.nodes
    ensures var after := Take(t, user, step).nodes;
            i in after && (t.nodes[i].Directory? <==> after[i].Directory?) &&
            (t.nodes[i].File? <==> after[i].File?) && (t.nodes[i].Link? <==> after[i].Link?) &&
            (t.nodes[i].Link? ==> after[i].absolute == t.nodes[i].absolute && after[i].target == t.nodes[i].target)
  {
  }

  /** In a sticky directory that someone else owns, an entry for a node that someone else owns stays
      where it is. */
  lemma StepLeavesStickyEntry(t: Tree, user: Uid, step: Step, dir: Inode, name: Name)
    requires WellFormed(t) && May(t, user, step)
    requires IsDir(t, dir) && t.nodes[dir].owner != user && IsSticky(t.nodes[dir].mode)
    requires name in t.nodes[dir].entries && t.nodes[t.nodes[dir].entries[name]].owner != user
    ensures var after := Take(t, user, step);
            IsDir(after, dir) && name in after.nodes[dir].entries &&
            after.nodes[dir].entries[name] == t.nodes[dir].entries[name]
  {
  }
}
