/** Cutting a sequence at separators, as `str::split` does: there is always at least one part. */
module Splitting {
  /** Where the first separator stands, or the length when there is none. */
  function Cut<T(==)>(s: seq<T>, seps: set<T>): (n: nat)
    ensures n <= |s|
    ensures forall i :: 0 <= i < n ==> s[i] !in seps
    ensures n < |s| ==> s[n] in seps
  {
    if s == [] || s[0] in seps then 0 else 1 + Cut(s[1..], seps)
  }

  /** The part of `s` in front of the first occurrence of `sep`. */
  function Before<T(==)>(s: seq<T>, sep: T): seq<T> {
    s[..Cut(s, {sep})]
  }

  function Split<T(==)>(s: seq<T>, seps: set<T>): (parts: seq<seq<T>>)
    ensures parts != []
  {
    var n := Cut(s, seps);
    if n == |s| then [s] else [s[..n]] + Split(s[n + 1..], seps)
  }

  lemma NoCut<T>(s: seq<T>, seps: set<T>)
    requires forall sep :: sep in seps ==> sep !in s
    ensures Cut(s, seps) == |s| && Split(s, seps) == [s]
  {
  }

  lemma {:induction false} CutAppend<T>(a: seq<T>, b: seq<T>, seps: set<T>)
    ensures Cut(a, seps) < |a| ==> Cut(a + b, seps) == Cut(a, seps)
    ensures Cut(a, seps) == |a| ==> Cut(a + b, seps) == |a| + Cut(b, seps)
  {
    if a == [] {
      assert a + b == b;
    } else if a[0] !in seps {
      assert (a + b)[1..] == a[1..] + b;
      CutAppend(a[1..], b, seps);
    }
  }

  /** A separator between two sequences keeps their parts apart. */
  lemma {:induction false} SplitAtSeparator<T>(a: seq<T>, sep: T, b: seq<T>, seps: set<T>)
    requires sep in seps
    ensures Split(a + [sep] + b, seps) == Split(a, seps) + Split(b, seps)
    decreases |a|
  {
    var n := Cut(a, seps);
    CutInFront(a, sep, b, seps);
    if n < |a| {
      SplitAtSeparator(a[n + 1..], sep, b, seps);
      assert [a[..n]] + (Split(a[n + 1..], seps) + Split(b, seps)) == Split(a, seps) + Split(b, seps);
    } else {
      assert a[..n] == a;
    }
  }

  lemma CutInFront<T>(a: seq<T>, sep: T, b: seq<T>, seps: set<T>)
    requires sep in seps
    ensures var n, s := Cut(a, seps), a + [sep] + b;
            Cut(s, seps) == n && n < |s| && s[..n] == a[..n] &&
            s[n + 1..] == if n == |a| then b else a[n + 1..] + [sep] + b
  {
    assert a + [sep] + b == a + ([sep] + b);
    CutAppend(a, [sep] + b, seps);
  }
}
