/** Cedar's `like` patterns over the joined arguments, and what it takes for one to pin a token. */
module Patterns {
  import opened Splitting

  datatype Element = Wildcard | Literal(c: char)

  type Pattern = seq<Element>

  const SPACE := ' '

  predicate Matches(p: Pattern, s: string)
    decreases |p| + |s|
  {
    if p == [] then s == ""
    else match p[0]
         case Literal(c) => s != "" && s[0] == c && Matches(p[1..], s[1..])
         case Wildcard => Matches(p[1..], s) || (s != "" && Matches(p, s[1..]))
  }

  /** The arguments behind the first one, joined by single spaces. */
  function ArgvTail(args: seq<string>): string {
    if |args| <= 1 then "" else Join(args[1..])
  }

  function Join(args: seq<string>): string {
    if args == [] then "" else if |args| == 1 then args[0] else args[0] + [SPACE] + Join(args[1..])
  }

  /** The space-separated tokens a joined tail reads as. */
  function Tokens(tail: string): seq<string> {
    Split(tail, {SPACE})
  }

  /** How many elements come before the first wildcard. */
  function FirstWildcard(p: Pattern): (n: nat)
    ensures n <= |p| && (n < |p| ==> p[n] == Wildcard)
    ensures forall i :: 0 <= i < n ==> p[i].Literal?
  {
    if p == [] || p[0] == Wildcard then 0 else 1 + FirstWildcard(p[1..])
  }

  /** The pattern is an exact text, or its leading text ends with the separating space. */
  predicate PinsAToken(p: Pattern) {
    var n := FirstWildcard(p);
    n == |p| || (n > 0 && p[n - 1] == Literal(SPACE))
  }

  /** The text of the literal elements, wildcards left out. */
  function LiteralText(p: Pattern): string {
    if p == [] then "" else match p[0]
                            case Literal(c) => [c] + LiteralText(p[1..])
                            case Wildcard => LiteralText(p[1..])
  }

  /** The text in front of the first wildcard. */
  function Prefix(p: Pattern): string {
    LiteralText(p[..FirstWildcard(p)])
  }

  // ---------------------------------------------------------------------------
  // What matching means
  // ---------------------------------------------------------------------------

  lemma {:induction false} MatchesText(p: Pattern, s: string)
    requires FirstWildcard(p) == |p|
    ensures Matches(p, s) <==> s == LiteralText(p)
  {
    if p != [] {
      MatchesText(p[1..], if s == "" then "" else s[1..]);
      if s != "" {
        assert s == [s[0]] + s[1..];
      }
    }
  }

  /** A match starts with the pattern's leading text, and the rest of the pattern matches the rest. */
  lemma {:induction false} MatchesPrefix(p: Pattern, s: string)
    ensures Matches(p, s) <==>
            Prefix(p) <= s && Matches(p[FirstWildcard(p)..], s[|Prefix(p)|..])
    decreases |p|
  {
    var n := FirstWildcard(p);
    if n == 0 {
      assert p[..0] == [] && p[0..] == p && s[0..] == s;
    } else {
      assert p[..n][1..] == p[1..][..n - 1];
      assert p[1..][n - 1..] == p[n..];
      assert Prefix(p) == [p[0].c] + Prefix(p[1..]);
      if s != "" {
        MatchesPrefix(p[1..], s[1..]);
        assert s == [s[0]] + s[1..];
        assert s[0] == p[0].c && Prefix(p[1..]) <= s[1..] ==> s[1..][|Prefix(p[1..])|..] == s[|Prefix(p)|..];
        assert Prefix(p) <= s <==> s[0] == p[0].c && Prefix(p[1..]) <= s[1..] by {
          assert Prefix(p) <= s ==> Prefix(p)[0] == s[0] && Prefix(p)[1..] <= s[1..];
        }
      }
    }
  }

  /** Every pattern matches its own text with all wildcards empty. */
  lemma {:induction false} MatchesOwnText(p: Pattern)
    ensures Matches(p, LiteralText(p))
  {
    if p != [] {
      MatchesOwnText(p[1..]);
      if p[0].Literal? {
        assert LiteralText(p)[1..] == LiteralText(p[1..]);
      }
    }
  }

  /** A wildcard swallows whatever is put in front of a match. */
  lemma WildcardSwallows(p: Pattern, c: char, s: string)
    requires p != [] && p[0] == Wildcard && Matches(p, s)
    ensures Matches(p, [c] + s)
  {
    assert ([c] + s)[1..] == s;
  }

  // ---------------------------------------------------------------------------
  // Tokens
  // ---------------------------------------------------------------------------

  lemma {:induction false} TokensJoin(a: string, b: string)
    ensures Tokens(a + [SPACE] + b) == Tokens(a) + Tokens(b)
  {
    SplitAtSeparator(a, SPACE, b, {SPACE});
  }

  /** One more character in front: a space starts a new token, anything else lengthens the first. */
  lemma TokensCons(c: char, s: string)
    ensures Tokens([c] + s) ==
            if c == SPACE then [""] + Tokens(s) else [[c] + Tokens(s)[0]] + Tokens(s)[1..]
  {
    var t, k := [c] + s, Cut(s, {SPACE});
    assert t[1..] == s;
    if c == SPACE {
      assert t[..0] == "";
    } else {
      assert t[..k + 1] == [c] + s[..k];
      if k < |s| {
        assert t[k + 2..] == s[k + 1..];
      } else {
        assert s[..k] == s;
      }
    }
  }

  /** `fused` is `a` and `b` with the last token of the one and the first of the other made one. */
  predicate IsFused(a: seq<string>, b: seq<string>, fused: seq<string>) {
    a != [] && b != [] && fused == a[..|a| - 1] + [a[|a| - 1] + b[0]] + b[1..]
  }

  /** Joining two texts without a space fuses the tokens at the seam. */
  lemma {:induction false} TokensFuse(a: string, b: string)
    ensures IsFused(Tokens(a), Tokens(b), Tokens(a + b))
    decreases |a|
  {
    if a == "" {
      assert Tokens(a) == [""] && a + b == b;
      FuseEmpty(Tokens(b));
    } else {
      TokensFuse(a[1..], b);
      FuseOneMore(a[0], a[1..], b, a, a + b);
    }
  }

  lemma FuseOneMore(c: char, a: string, b: string, longer: string, joined: string)
    requires IsFused(Tokens(a), Tokens(b), Tokens(a + b)) && longer == [c] + a && joined == [c] + (a + b)
    ensures IsFused(Tokens(longer), Tokens(b), Tokens(joined))
  {
    TokensCons(c, a);
    TokensCons(c, a + b);
    FuseBehind(c, Tokens(a), Tokens(b), Tokens(a + b));
  }

  lemma FuseEmpty(b: seq<string>)
    requires b != []
    ensures IsFused([""], b, b)
  {
    assert "" + b[0] == b[0] && b == [b[0]] + b[1..];
  }

  lemma FuseBehind(c: char, a: seq<string>, b: seq<string>, fused: seq<string>)
    requires IsFused(a, b, fused)
    ensures IsFused([""] + a, b, [""] + fused)
    ensures IsFused([[c] + a[0]] + a[1..], b, [[c] + fused[0]] + fused[1..])
  {
    if |a| == 1 {
      assert fused[0] == a[0] + b[0] && fused[1..] == b[1..];
      assert [c] + (a[0] + b[0]) == [c] + a[0] + b[0];
    }
  }

  /** How many complete tokens a text holds: those a space ends. */
  function Complete(s: string): nat {
    |Tokens(s)| - 1
  }

  /** The token a pattern's leading text breaks off in, or ends with the separating space. */
  function PinnedToken(p: Pattern): nat {
    var text := Prefix(p);
    if text != "" && text[|text| - 1] == SPACE then Complete(text) - 1 else Complete(text)
  }

  lemma EndsWithSpace(text: string)
    requires text != "" && text[|text| - 1] == SPACE
    ensures Complete(text) > 0 && Tokens(text) == Tokens(text[..|text| - 1]) + [""]
  {
    var init := text[..|text| - 1];
    assert text == init + [SPACE] + "";
    TokensJoin(init, "");
    assert Tokens("") == [""];
  }

  /** Both texts have a token number `k`, and it is the same. */
  predicate ShareToken(s: string, t: string, k: nat) {
    k < |Tokens(s)| && k < |Tokens(t)| && Tokens(s)[k] == Tokens(t)[k]
  }

  /** The joined tail, spelled out: nothing of no arguments or one, and from the second on each behind one
      space. */
  lemma TailSpelledOut(args: seq<string>)
    ensures |args| <= 1 ==> ArgvTail(args) == ""
    ensures |args| == 2 ==> ArgvTail(args) == args[1]
    ensures |args| > 2 ==> ArgvTail(args) == args[1] + " " + ArgvTail(args[1..])
  {
    if |args| > 2 {
      assert args[1..][1..] == args[2..];
    }
  }

  lemma OneToken(s: string)
    requires ' ' !in s
    ensures Tokens(s) == [s]
  {
    NoCut(s, {SPACE});
  }

  /** Arguments without spaces are the tokens of their tail. */
  lemma {:induction false} TailTokens(args: seq<string>)
    requires |args| > 1 && forall i :: 0 < i < |args| ==> ' ' !in args[i]
    ensures Tokens(ArgvTail(args)) == args[1..]
    decreases |args|
  {
    var rest := args[1..];
    OneToken(args[1]);
    TailSpelledOut(args);
    if |args| > 2 {
      assert forall i :: 0 < i < |rest| ==> rest[i] == args[i + 1];
      TailTokens(rest);
      TokensJoin(args[1], ArgvTail(rest));
      assert rest == [args[1]] + rest[1..];
    } else {
      assert rest == [args[1]];
    }
  }

  // ---------------------------------------------------------------------------
  // A pin pins, and nothing else does
  // ---------------------------------------------------------------------------

  lemma {:induction false} PrefixEnd(p: Pattern)
    ensures |Prefix(p)| == FirstWildcard(p)
    ensures Prefix(p) != [] ==> p[FirstWildcard(p) - 1] == Literal(Prefix(p)[|Prefix(p)| - 1])
    decreases |p|
  {
    var n := FirstWildcard(p);
    if n > 0 {
      assert p[..n][1..] == p[1..][..n - 1];
      assert Prefix(p) == [p[0].c] + Prefix(p[1..]);
      PrefixEnd(p[1..]);
    }
  }

  /** A pattern without a wildcard that pins matches one tail and no other. */
  lemma ExactPin(p: Pattern, s: string)
    requires FirstWildcard(p) == |p|
    ensures PinsAToken(p) && (Matches(p, s) <==> s == Prefix(p))
  {
    MatchesText(p, s);
    assert p[..|p|] == p;
  }

  /** A pattern with a wildcard that pins matches only tails that start with the complete tokens of its
      leading text. */
  lemma WholeTokensFirst(p: Pattern, s: string)
    requires PinsAToken(p) && FirstWildcard(p) < |p| && Matches(p, s)
    ensures var text := Prefix(p);
            text != "" && text[|text| - 1] == SPACE && 0 < Complete(text) < |Tokens(s)| &&
            Tokens(s)[..Complete(text)] == Tokens(text)[..Complete(text)]
  {
    var text := Prefix(p);
    MatchesPrefix(p, s);
    PrefixEnd(p);
    EndsWithSpace(text);
    var init, rest := text[..|text| - 1], s[|text|..];
    assert s == init + [SPACE] + rest;
    TokensJoin(init, rest);
  }

  /** The two tails that tell a pattern that pins nothing from one that does: its own text, and the
      same with one more character where the first wildcard stands. */
  function Stretched(p: Pattern): string {
    Prefix(p) + "x" + LiteralText(p[FirstWildcard(p)..])
  }

  lemma {:induction false} OwnText(p: Pattern)
    ensures LiteralText(p) == Prefix(p) + LiteralText(p[FirstWildcard(p)..])
    decreases |p|
  {
    var n := FirstWildcard(p);
    if n > 0 {
      assert p[..n][1..] == p[1..][..n - 1];
      assert Prefix(p) == [p[0].c] + Prefix(p[1..]);
      assert p[1..][n - 1..] == p[n..];
      OwnText(p[1..]);
    } else {
      assert p[0..] == p;
    }
  }

  lemma StretchedMatches(p: Pattern, rest: Pattern, text: string)
    requires FirstWildcard(p) < |p| && rest == p[FirstWildcard(p)..] && text == LiteralText(rest)
    ensures Matches(p, Stretched(p))
  {
    MatchesOwnText(rest);
    WildcardSwallows(rest, 'x', text);
    PrefixThenMatch(p, ['x'] + text);
    PlusX(Prefix(p), text);
  }

  lemma PlusX(a: string, b: string)
    ensures a + "x" + b == a + (['x'] + b)
  {
  }

  lemma PrefixThenMatch(p: Pattern, s: string)
    requires Matches(p[FirstWildcard(p)..], s)
    ensures Matches(p, Prefix(p) + s)
  {
    MatchesPrefix(p, Prefix(p) + s);
    assert (Prefix(p) + s)[|Prefix(p)|..] == s;
  }

  lemma StretchedTokenDiffers(text: string, rest: string)
    ensures !ShareToken(text + rest, text + "x" + rest, Complete(text))
  {
    assert text + "x" + rest == text + ("x" + rest);
    TokensFuse(text, rest);
    TokensFuse(text, "x" + rest);
    TokensFuse("x", rest);
    assert Tokens("x") == ["x"];
    assert |Tokens("x" + rest)[0]| == 1 + |Tokens(rest)[0]|;
  }

  /** A pattern that pins nothing matches two tails that differ in the very token its leading text
      breaks off in. */
  lemma UnpinnedTokenVaries(p: Pattern)
    requires !PinsAToken(p)
    ensures Matches(p, LiteralText(p)) && Matches(p, Stretched(p))
    ensures !ShareToken(LiteralText(p), Stretched(p), PinnedToken(p))
  {
    MatchesOwnText(p);
    StretchedMatches(p, p[FirstWildcard(p)..], LiteralText(p[FirstWildcard(p)..]));
    OwnText(p);
    PrefixEnd(p);
    StretchedTokenDiffers(Prefix(p), LiteralText(p[FirstWildcard(p)..]));
  }

  lemma PinnedTokenIsShared(p: Pattern, s: string, t: string)
    requires PinsAToken(p) && Matches(p, s) && Matches(p, t)
    ensures ShareToken(s, t, PinnedToken(p))
  {
    if FirstWildcard(p) == |p| {
      ExactPin(p, s);
      ExactPin(p, t);
      var text := Prefix(p);
      if text != "" && text[|text| - 1] == SPACE {
        EndsWithSpace(text);
      }
    } else {
      WholeTokensFirst(p, s);
      WholeTokensFirst(p, t);
      var k := PinnedToken(p);
      assert Tokens(s)[k] == Tokens(s)[..k + 1][k];
      assert Tokens(t)[k] == Tokens(t)[..k + 1][k];
    }
  }

  /** A pattern pins a token exactly when all tails it matches agree on that token. */
  lemma PinsExactly(p: Pattern)
    ensures PinsAToken(p) <==> forall s, t :: Matches(p, s) && Matches(p, t) ==> ShareToken(s, t, PinnedToken(p))
  {
    if PinsAToken(p) {
      forall s, t | Matches(p, s) && Matches(p, t)
        ensures ShareToken(s, t, PinnedToken(p))
      {
        PinnedTokenIsShared(p, s, t);
      }
    } else {
      UnpinnedTokenVaries(p);
    }
  }
}
