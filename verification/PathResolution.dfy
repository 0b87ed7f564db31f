/** `absolutize`: as much of an absolute path as exists is resolved, the rest is appended as it
    stands. */
module PathResolution {
  import opened FileTree

  /** The search for a resolvable prefix, from the first `k` components downwards. A component that
      has no file name cannot be set aside, and the path is then given back as it was. */
  function Shorten(t: Tree, path: Path, k: nat, limit: nat): Path
    requires WellFormed(t) && k <= |path|
  {
    match Canonicalize(t, path[..k], limit)
    case Found(names) => Downs(names) + path[k..]
    case _ => if k > 0 && path[k - 1].Down? then Shorten(t, path, k - 1, limit) else path
  }

  function Absolutize(t: Tree, path: Path, limit: nat): Path
    requires WellFormed(t)
  {
    Shorten(t, path, |path|, limit)
  }

  method RunAbsolutize(t: Tree, path: Path, limit: nat) returns (out: Path)
    requires WellFormed(t)
    ensures out == Absolutize(t, path, limit)
  {
    var prefix := path;
    var rest: Path := [];
    while true
      invariant prefix + rest == path
      invariant Absolutize(t, path, limit) == Shorten(t, path, |prefix|, limit)
      decreases |prefix|
    {
      assert path[..|prefix|] == prefix && path[|prefix|..] == rest;
      match Canonicalize(t, prefix, limit) {
        case Found(names) => return Downs(names) + rest;
        case _ =>
      }
      if prefix == [] || prefix[|prefix| - 1].Up? {
        return path;
      }
      rest := [prefix[|prefix| - 1]] + rest;
      prefix := prefix[..|prefix| - 1];
    }
  }

  // ---------------------------------------------------------------------------
  // What it computes
  // ---------------------------------------------------------------------------

  predicate Resolves(t: Tree, path: Path, k: nat, limit: nat)
    requires WellFormed(t) && k <= |path|
  {
    Canonicalize(t, path[..k], limit).Found?
  }

  /** `k` is the length of the longest resolvable prefix. */
  predicate IsLongest(t: Tree, path: Path, k: nat, limit: nat)
    requires WellFormed(t) && k <= |path|
  {
    Resolves(t, path, k, limit) && forall j :: k < j <= |path| ==> !Resolves(t, path, j, limit)
  }

  predicate OnlyNames(path: Path) {
    forall i :: 0 <= i < |path| ==> path[i].Down?
  }

  lemma OnlyNamesInit(path: Path, k: nat, j: nat)
    requires k < j <= |path|
    ensures OnlyNames(path[k..j]) <==> OnlyNames(path[k..j - 1]) && path[j - 1].Down?
  {
    var init, whole := path[k..j - 1], path[k..j];
    assert forall i :: 0 <= i < |init| ==> init[i] == whole[i];
    assert forall i :: 0 <= i < |whole| ==> whole[i] == if i < |init| then init[i] else path[j - 1];
    assert whole[|init|] == path[j - 1];
  }

  lemma {:induction false} ShortenFinds(t: Tree, path: Path, k: nat, j: nat, limit: nat)
    requires WellFormed(t) && k <= j <= |path|
    requires Resolves(t, path, k, limit) && forall i :: k < i <= j ==> !Resolves(t, path, i, limit)
    ensures Shorten(t, path, j, limit) ==
            if OnlyNames(path[k..j]) then Downs(Canonicalize(t, path[..k], limit).value) + path[k..] else path
  {
    if k < j {
      OnlyNamesInit(path, k, j);
      assert !Resolves(t, path, j, limit);
      if path[j - 1].Down? {
        ShortenFinds(t, path, k, j - 1, limit);
      }
    }
  }

  /** The resolution of the longest resolvable prefix, then the components behind it untouched; or
      the path itself when one of those is a `..`. */
  lemma AbsolutizeMeaning(t: Tree, path: Path, k: nat, limit: nat)
    requires WellFormed(t) && k <= |path| && IsLongest(t, path, k, limit)
    ensures Absolutize(t, path, limit) ==
            if OnlyNames(path[k..]) then Downs(Canonicalize(t, path[..k], limit).value) + path[k..] else path
  {
    ShortenFinds(t, path, k, |path|, limit);
    assert path[k..|path|] == path[k..];
  }

  /** There always is a longest resolvable prefix: the root resolves. */
  lemma {:induction false} LongestExists(t: Tree, path: Path, j: nat, limit: nat) returns (k: nat)
    requires WellFormed(t) && j <= |path|
    requires forall i :: j < i <= |path| ==> !Resolves(t, path, i, limit)
    ensures k <= |path| && IsLongest(t, path, k, limit)
  {
    if Resolves(t, path, j, limit) {
      k := j;
    } else {
      assert j > 0;
      k := LongestExists(t, path, j - 1, limit);
    }
  }

  // ---------------------------------------------------------------------------
  // Link-free paths
  // ---------------------------------------------------------------------------

  lemma {:induction false} PlainPrefix(t: Tree, names: seq<Name>, k: nat)
    requires WellFormed(t) && IsPlain(t, names) && k <= |names|
    ensures IsPlain(t, names[..k])
  {
    if k < |names| {
      PlainPrefix(t, names[..|names| - 1], k);
      assert names[..|names| - 1][..k] == names[..k];
    } else {
      assert names[..k] == names;
    }
  }

  lemma PlainStep(t: Tree, here: seq<Name>, name: Name, budget: nat)
    requires WellFormed(t) && IsPlain(t, here + [name])
    ensures Walk(t, here, [Down(name)], budget) == Found(here + [name])
  {
    assert (here + [name])[..|here|] == here;
    assert [Down(name)][1..] == [];
  }

  /** A link-free path resolves to itself, whatever the budget. */
  lemma {:induction false} PlainResolvesToItself(t: Tree, names: seq<Name>, budget: nat)
    requires WellFormed(t) && IsPlain(t, names)
    ensures Canonicalize(t, Downs(names), budget) == Found(names)
  {
    if names != [] {
      var init, name := names[..|names| - 1], names[|names| - 1];
      PlainResolvesToItself(t, init, budget);
      var left := WalkOn(t, [], Downs(init), [Down(name)], budget);
      assert Downs(names) == Downs(init) + [Down(name)];
      assert names == init + [name];
      PlainStep(t, init, name, left);
    }
  }

  /** Whatever resolves, resolves to a link-free path. */
  lemma {:induction false} WalkEndsPlain(t: Tree, here: seq<Name>, todo: Path, budget: nat)
    requires WellFormed(t) && IsPlain(t, here)
    requires Walk(t, here, todo, budget).Found?
    ensures IsPlain(t, Walk(t, here, todo, budget).value)
    decreases budget, |todo|
  {
    if todo != [] {
      var dir := t.nodes[At(t, here).value];
      match todo[0] {
        case Up => WalkEndsPlain(t, if here == [] then [] else here[..|here| - 1], todo[1..], budget);
        case Down(name) =>
          match t.nodes[dir.entries[name]] {
            case Link(_, _, absolute, target) =>
              WalkEndsPlain(t, if absolute then [] else here, target + todo[1..], budget - 1);
            case _ =>
              assert (here + [name])[..|here|] == here;
              WalkEndsPlain(t, here + [name], todo[1..], budget);
          }
      }
    }
  }

  /** Adding components to an unresolvable path does not make it resolvable. */
  lemma LongerStaysUnresolved(t: Tree, path: Path, j: nat, k: nat, limit: nat)
    requires WellFormed(t) && j <= k <= |path| && !Resolves(t, path, j, limit)
    ensures !Resolves(t, path, k, limit)
  {
    var left := WalkOn(t, [], path[..j], path[j..k], limit);
    assert path[..k] == path[..j] + path[j..k];
  }

  // ---------------------------------------------------------------------------
  // Idempotence
  // ---------------------------------------------------------------------------

  /** The first component that could not be resolved resolves after all when the links in front of it
      need not be followed again. */
  predicate ResolvesAfresh(t: Tree, path: Path, k: nat, limit: nat)
    requires WellFormed(t) && k <= |path| && Resolves(t, path, k, limit)
  {
    k < |path| && Walk(t, Canonicalize(t, path[..k], limit).value, [path[k]], limit).Found?
  }

  /** The resolved form is its own longest resolvable prefix, plus what was set aside. */
  lemma ResolvedFormResolves(t: Tree, path: Path, k: nat, limit: nat)
    requires WellFormed(t) && k <= |path| && IsLongest(t, path, k, limit) && OnlyNames(path[k..])
    ensures var names := Canonicalize(t, path[..k], limit).value;
            var r := Downs(names) + path[k..];
            IsPlain(t, names) && |names| <= |r| && Canonicalize(t, r[..|names|], limit) == Found(names) &&
            (IsLongest(t, r, |names|, limit) <==> !ResolvesAfresh(t, path, k, limit))
  {
    var names := Canonicalize(t, path[..k], limit).value;
    var r := Downs(names) + path[k..];
    WalkEndsPlain(t, [], path[..k], limit);
    PlainResolvesToItself(t, names, limit);
    assert r[..|names|] == Downs(names);
    if k < |path| {
      PlainThenOne(t, names, path[k], limit);
      assert r[..|names| + 1] == Downs(names) + [path[k]];
      assert Resolves(t, r, |names| + 1, limit) <==> ResolvesAfresh(t, path, k, limit);
      if !ResolvesAfresh(t, path, k, limit) {
        forall j | |names| < j <= |r|
          ensures !Resolves(t, r, j, limit)
        {
          LongerStaysUnresolved(t, r, |names| + 1, j, limit);
        }
      }
    }
  }

  /** A link-free prefix costs no budget. */
  lemma {:induction false} PlainThenOne(t: Tree, names: seq<Name>, next: Component, budget: nat)
    requires WellFormed(t) && IsPlain(t, names)
    ensures Canonicalize(t, Downs(names) + [next], budget) == Walk(t, names, [next], budget)
  {
    assert [] + names == names;
    PlainThen(t, [], names, [next], budget);
  }

  lemma {:induction false} PlainThen(t: Tree, here: seq<Name>, names: seq<Name>, rest: Path, budget: nat)
    requires WellFormed(t) && IsPlain(t, here + names)
    ensures Walk(t, here, Downs(names) + rest, budget) == Walk(t, here + names, rest, budget)
    decreases |names|
  {
    if names == [] {
      assert here + names == here && Downs(names) + rest == rest;
    } else {
      var todo := Downs(names) + rest;
      var next := here + [names[0]];
      assert next + names[1..] == here + names;
      assert todo[1..] == Downs(names[1..]) + rest;
      PlainPrefix(t, here + names, |here|);
      PlainPrefix(t, here + names, |next|);
      assert (here + names)[..|here|] == here && (here + names)[..|next|] == next;
      assert next[..|here|] == here;
      PlainThen(t, next, names[1..], rest, budget);
    }
  }

  /** A link-free path that is one component longer than a resolvable prefix's target would have been
      resolved the first time. */
  lemma PlainWouldHaveResolved(t: Tree, path: Path, k: nat, name: Name, limit: nat)
    requires WellFormed(t) && k < |path| && Resolves(t, path, k, limit) && path[k] == Down(name)
    requires IsPlain(t, Canonicalize(t, path[..k], limit).value + [name])
    ensures Resolves(t, path, k + 1, limit)
  {
    var left := WalkOn(t, [], path[..k], [path[k]], limit);
    assert path[..k + 1] == path[..k] + [path[k]];
    PlainStep(t, Canonicalize(t, path[..k], limit).value, name, left);
  }

  /** A link-free path cannot begin with a resolved prefix and the component that failed behind it. */
  lemma ResolvedFormStaysShort(t: Tree, path: Path, k: nat, c: seq<Name>, limit: nat)
    requires WellFormed(t) && k < |path| && IsLongest(t, path, k, limit) && IsPlain(t, c)
    ensures var names := Canonicalize(t, path[..k], limit).value;
            !(Downs(names) + [path[k]] <= Downs(c))
  {
    var names := Canonicalize(t, path[..k], limit).value;
    var r := Downs(names) + [path[k]];
    if r <= Downs(c) {
      assert forall i :: 0 <= i < |r| ==> r[i] == Downs(c)[i] == Down(c[i]);
      assert forall i :: 0 <= i < |names| ==> Down(names[i]) == Downs(names)[i] == r[i];
      assert path[k] == r[|names|] == Down(c[|names|]);
      PlainPrefix(t, c, |names| + 1);
      assert c[..|names| + 1] == names + [c[|names|]];
      PlainWouldHaveResolved(t, path, k, c[|names|], limit);
    }
  }

  /** When the first component that failed resolves after all, a second pass gives another path. */
  lemma AfreshMeansDifferent(t: Tree, path: Path, k: nat, limit: nat)
    requires WellFormed(t) && k < |path| && IsLongest(t, path, k, limit) && OnlyNames(path[k..])
    requires ResolvesAfresh(t, path, k, limit)
    ensures var r := Absolutize(t, path, limit); Absolutize(t, r, limit) != r
  {
    var names := Canonicalize(t, path[..k], limit).value;
    var r := Downs(names) + path[k..];
    AbsolutizeMeaning(t, path, k, limit);
    OneMoreResolves(t, path, k, limit);
    var m := LongestExists(t, r, |r|, limit);
    AbsolutizeMeaning(t, r, m, limit);
    assert r[m..] == path[k..][m - |names|..];
    var c := Canonicalize(t, r[..m], limit).value;
    WalkEndsPlain(t, [], r[..m], limit);
    ResolvedFormStaysShort(t, path, k, c, limit);
    DifferentHeads(r, Downs(c), m, |names| + 1);
  }

  lemma OneMoreResolves(t: Tree, path: Path, k: nat, limit: nat)
    requires WellFormed(t) && k < |path| && Resolves(t, path, k, limit) && ResolvesAfresh(t, path, k, limit)
    ensures var names := Canonicalize(t, path[..k], limit).value;
            var r := Downs(names) + path[k..];
            r[..|names| + 1] == Downs(names) + [path[k]] && Resolves(t, r, |names| + 1, limit)
  {
    var names := Canonicalize(t, path[..k], limit).value;
    WalkEndsPlain(t, [], path[..k], limit);
    assert (Downs(names) + path[k..])[..|names| + 1] == Downs(names) + [path[k]];
    PlainThenOne(t, names, path[k], limit);
  }

  lemma DifferentHeads(r: Path, c: Path, m: nat, n: nat)
    requires n <= m <= |r| && !(r[..n] <= c)
    ensures c + r[m..] != r
  {
  }

  /** A second pass changes nothing exactly when the first component that could not be resolved does
      not resolve with the whole link budget available to it. */
  lemma AbsolutizeTwice(t: Tree, path: Path, k: nat, limit: nat)
    requires WellFormed(t) && k <= |path| && IsLongest(t, path, k, limit)
    ensures var r := Absolutize(t, path, limit);
            Absolutize(t, r, limit) == r <==> !(OnlyNames(path[k..]) && ResolvesAfresh(t, path, k, limit))
  {
    AbsolutizeMeaning(t, path, k, limit);
    if OnlyNames(path[k..]) {
      if ResolvesAfresh(t, path, k, limit) {
        AfreshMeansDifferent(t, path, k, limit);
      } else {
        var names := Canonicalize(t, path[..k], limit).value;
        var r := Downs(names) + path[k..];
        ResolvedFormResolves(t, path, k, limit);
        assert r[|names|..] == path[k..];
        AbsolutizeMeaning(t, r, |names|, limit);
      }
    }
  }

  /** A walk that did not fail for lack of budget goes the same way with more of it. */
  lemma {:induction false} MoreBudget(t: Tree, here: seq<Name>, todo: Path, budget: nat, more: nat)
    requires WellFormed(t) && budget <= more && !Walk(t, here, todo, budget).TooManyLinks?
    ensures Walk(t, here, todo, more) == Walk(t, here, todo, budget)
    decreases budget, |todo|
  {
    if todo != [] && At(t, here).Found? && t.nodes[At(t, here).value].Directory? {
      var dir := t.nodes[At(t, here).value];
      match todo[0] {
        case Up => MoreBudget(t, if here == [] then [] else here[..|here| - 1], todo[1..], budget, more);
        case Down(name) =>
          if name in dir.entries {
            match t.nodes[dir.entries[name]] {
              case Link(_, _, absolute, target) =>
                MoreBudget(t, if absolute then [] else here, target + todo[1..], budget - 1, more - 1);
              case _ => MoreBudget(t, here + [name], todo[1..], budget, more);
            }
          }
      }
    }
  }

  lemma NotAfreshWithinTheBudget(t: Tree, path: Path, k: nat, limit: nat)
    requires WellFormed(t) && k <= |path| && IsLongest(t, path, k, limit)
    requires forall j :: 0 <= j <= |path| ==> !Canonicalize(t, path[..j], limit).TooManyLinks?
    ensures !ResolvesAfresh(t, path, k, limit)
  {
    if k < |path| {
      assert !Resolves(t, path, k + 1, limit);
      var names := Canonicalize(t, path[..k], limit).value;
      var left := WalkOn(t, [], path[..k], [path[k]], limit);
      assert path[..k + 1] == path[..k] + [path[k]];
      MoreBudget(t, names, [path[k]], left, limit);
    }
  }

  /** So a path none of whose prefixes exhausts the link budget is resolved once and for all. */
  lemma IdempotentWithinTheBudget(t: Tree, path: Path, limit: nat)
    requires WellFormed(t)
    requires forall j :: 0 <= j <= |path| ==> !Canonicalize(t, path[..j], limit).TooManyLinks?
    ensures var r := Absolutize(t, path, limit); Absolutize(t, r, limit) == r
  {
    var k := LongestExists(t, path, |path|, limit);
    NotAfreshWithinTheBudget(t, path, k, limit);
    AbsolutizeTwice(t, path, k, limit);
  }

  /** Then what does not resolve is not made resolvable either. */
  lemma AbsoluteStaysUnresolved(t: Tree, path: Path, limit: nat)
    requires WellFormed(t) && !Canonicalize(t, path, limit).Found?
    requires forall j :: 0 <= j <= |path| ==> !Canonicalize(t, path[..j], limit).TooManyLinks?
    ensures !Canonicalize(t, Absolutize(t, path, limit), limit).Found?
  {
    var k := LongestExists(t, path, |path|, limit);
    AbsolutizeMeaning(t, path, k, limit);
    assert path[..|path|] == path;
    if OnlyNames(path[k..]) {
      var names := Canonicalize(t, path[..k], limit).value;
      var r := Downs(names) + path[k..];
      NotAfreshWithinTheBudget(t, path, k, limit);
      ResolvedFormResolves(t, path, k, limit);
      assert r[..|r|] == r && !Resolves(t, r, |r|, limit);
    }
  }

  /** A root with a link to itself and a link to that. */
  function Loops(self: Name, away: Name): Tree {
    Tree(0, map[
      0 := Directory(0, 0x1ED, map[self := 1, away := 2]),
      1 := Link(0, 0x1FF, false, []),
      2 := Link(0, 0x1FF, true, [])])
  }

  /** Whatever the limit above zero, some path uses it up in its resolvable part and then ends in a link: the
      second pass resolves what the first one left. */
  lemma NotIdempotentBeyondTheBudget(self: Name, away: Name, limit: nat)
    requires self != away
    ensures var t := Loops(self, away);
            var path := seq(limit, _ => Down(self)) + [Down(away)];
            WellFormed(t) &&
            Absolutize(t, path, limit) == [Down(away)] &&
            Absolutize(t, [Down(away)], limit) == if limit == 0 then [Down(away)] else []
  {
    var t := Loops(self, away);
    var selves := seq(limit, _ => Down(self));
    var path := selves + [Down(away)];
    SelfLinks(self, away, limit, limit, []);
    SelfLinks(self, away, limit, limit, [Down(away)]);
    assert selves + [] == selves;
    assert path[..limit] == selves && path[limit..] == [Down(away)] && path[..limit + 1] == path;
    assert Walk(t, [], [Down(away)], 0) == TooManyLinks;
    assert OnlyNames(path[limit..]);
    assert IsLongest(t, path, limit, limit);
    AbsolutizeMeaning(t, path, limit, limit);
    assert Downs([]) + [Down(away)] == [Down(away)];
    if limit > 0 {
      var none: Path := [];
      assert [Down(away)][1..] == none && none + none == none;
      assert Walk(t, [], [Down(away)], limit) == Walk(t, [], [], limit - 1);
      assert [Down(away)][..1] == [Down(away)];
      AbsolutizeMeaning(t, [Down(away)], 1, limit);
    } else {
      assert path == [Down(away)];
    }
  }

  lemma {:induction false} SelfLinks(self: Name, away: Name, n: nat, budget: nat, rest: Path)
    requires self != away && n <= budget
    ensures WellFormed(Loops(self, away))
    ensures Walk(Loops(self, away), [], seq(n, _ => Down(self)) + rest, budget) ==
            Walk(Loops(self, away), [], rest, budget - n)
    decreases n
  {
    var todo := seq(n, _ => Down(self)) + rest;
    if n == 0 {
      assert todo == rest;
    } else {
      var none: Path := [];
      assert none + todo[1..] == seq(n - 1, _ => Down(self)) + rest;
      SelfLinks(self, away, n - 1, budget - 1, rest);
    }
  }
}
