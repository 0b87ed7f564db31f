/** A Unix directory tree: owned nodes with permission bits, directories that name them, symbolic
    links, and the lookups the daemon makes. */
module FileTree {
  import opened Utf8

  type Uid = nat
  type Inode = nat
  type Name = Bytes

  /** Permission bits plus setuid, setgid and sticky. */
  type Mode = bv12

  /** A path component; `.` and doubled slashes never become one. */
  datatype Component = Up | Down(name: Name)

  type Path = seq<Component>

  datatype Node =
    | Directory(owner: Uid, mode: Mode, entries: map<Name, Inode>)
    | File(owner: Uid, mode: Mode, content: Bytes)
    | Link(owner: Uid, mode: Mode, absolute: bool, target: Path)

  datatype Tree = Tree(root: Inode, nodes: map<Inode, Node>)

  predicate WellFormed(t: Tree) {
    t.root in t.nodes && t.nodes[t.root].Directory? &&
    forall i, name :: i in t.nodes && t.nodes[i].Directory? && name in t.nodes[i].entries ==>
      t.nodes[i].entries[name] in t.nodes
  }

  function Downs(names: seq<Name>): Path {
    seq(|names|, i requires 0 <= i < |names| => Down(names[i]))
  }

  datatype Lookup<+T> = Found(value: T) | Missing | NotDirectory | TooManyLinks

  /** The node at the end of a path of plain directories: no link is followed. */
  function At(t: Tree, names: seq<Name>): (r: Lookup<Inode>)
    requires WellFormed(t)
    ensures r.Found? ==> r.value in t.nodes
  {
    if names == [] then Found(t.root)
    else
      var parent := At(t, names[..|names| - 1]);
      if !parent.Found? then parent
      else if !t.nodes[parent.value].Directory? then NotDirectory
      else if names[|names| - 1] !in t.nodes[parent.value].entries then Missing
      else Found(t.nodes[parent.value].entries[names[|names| - 1]])
  }

  /** Symbolic-link resolution of the components still to do, from the link-free place `here`, with
      `budget` links left to follow. The answer is the link-free path of the last component. */
  function Walk(t: Tree, here: seq<Name>, todo: Path, budget: nat): Lookup<seq<Name>>
    requires WellFormed(t)
    decreases budget, |todo|
  {
    if todo == [] then Found(here)
    else
      match At(t, here)
      case Found(dir) =>
        if !t.nodes[dir].Directory? then NotDirectory
        else
          (match todo[0]
           case Up => Walk(t, if here == [] then [] else here[..|here| - 1], todo[1..], budget)
           case Down(name) =>
             if name !in t.nodes[dir].entries then Missing
             else
               (match t.nodes[t.nodes[dir].entries[name]]
                case Link(_, _, absolute, target) =>
                  if budget == 0 then TooManyLinks
                  else Walk(t, if absolute then [] else here, target + todo[1..], budget - 1)
                case _ => Walk(t, here + [name], todo[1..], budget)))
      case Missing => Missing
      case NotDirectory => NotDirectory
      case TooManyLinks => TooManyLinks
  }

  /** `realpath`: everything resolved, under the system's limit on links. */
  function Canonicalize(t: Tree, path: Path, limit: nat): Lookup<seq<Name>>
    requires WellFormed(t)
  {
    Walk(t, [], path, limit)
  }

  /** `stat`: the node a path leads to, links followed. */
  function Stat(t: Tree, path: Path, limit: nat): (r: Lookup<Inode>)
    requires WellFormed(t)
    ensures r.Found? ==> r.value in t.nodes
  {
    match Canonicalize(t, path, limit)
    case Found(names) => At(t, names)
    case Missing => Missing
    case NotDirectory => NotDirectory
    case TooManyLinks => TooManyLinks
  }

  /** Every step of the link-free path exists and is not itself a link. */
  predicate IsPlain(t: Tree, names: seq<Name>)
    requires WellFormed(t)
  {
    At(t, names).Found? && !t.nodes[At(t, names).value].Link? &&
    (names == [] || IsPlain(t, names[..|names| - 1]))
  }

  // ---------------------------------------------------------------------------
  // Laws of the walk
  // ---------------------------------------------------------------------------

  /** Walking on from where a walk ended. The links followed so far are gone from the budget. */
  lemma {:induction false} WalkOn(t: Tree, here: seq<Name>, first: Path, rest: Path, budget: nat) returns (left: nat)
    requires WellFormed(t)
    ensures left <= budget
    ensures Walk(t, here, first, budget).Found? ==>
              Walk(t, here, first + rest, budget) == Walk(t, Walk(t, here, first, budget).value, rest, left)
    ensures !Walk(t, here, first, budget).Found? ==> Walk(t, here, first + rest, budget) == Walk(t, here, first, budget)
    decreases budget, |first|
  {
    left := budget;
    if first == [] {
      assert first + rest == rest;
    } else if At(t, here).Found? && t.nodes[At(t, here).value].Directory? {
      var dir := t.nodes[At(t, here).value];
      assert (first + rest)[1..] == first[1..] + rest;
      match first[0] {
        case Up => left := WalkOn(t, if here == [] then [] else here[..|here| - 1], first[1..], rest, budget);
        case Down(name) =>
          if name in dir.entries {
            match t.nodes[dir.entries[name]] {
              case Link(_, _, absolute, target) =>
                if budget > 0 {
                  assert target + (first[1..] + rest) == (target + first[1..]) + rest;
                  left := WalkOn(t, if absolute then [] else here, target + first[1..], rest, budget - 1);
                }
              case _ => left := WalkOn(t, here + [name], first[1..], rest, budget);
            }
          }
      }
    }
  }
}
