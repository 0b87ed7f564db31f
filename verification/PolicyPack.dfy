/** The shipped policies, and what they approve for every command line. */
module PolicyPack {
  import opened Wrappers
  import opened Splitting
  import opened Patterns
  import opened Cedar
  import opened Entities
  import opened Engine
  import opened LintSoundness

  // ---------------------------------------------------------------------------
  // The policies
  // ---------------------------------------------------------------------------

  function Attr(name: string): Expr {
    Attribute(Variable(Resource), name)
  }

  function Is(e: Expr, s: string): Expr {
    Binary(Equal, e, Constant(TextConst(s)))
  }

  function ArgsContain(s: string): Expr {
    Binary(Contains, Attr("args"), Constant(TextConst(s)))
  }

  function Letters(s: string): Pattern {
    seq(|s|, i requires 0 <= i < |s| => Literal(s[i]))
  }

  /** `a || b || c`, as it parses. */
  function AnyOf(es: seq<Expr>): Expr
    requires es != []
  {
    if |es| == 1 then es[0] else Or(AnyOf(es[..|es| - 1]), es[|es| - 1])
  }

  /** `@id("...")`. */
  function Id(name: string): seq<Annotation> {
    [Annotation("id", name)]
  }

  const LAUNCH := EntityUid(ACTION, "launchCommand")
  const STAR: Pattern := [Wildcard]

  const SESSION_LAUNCHES_ONLY := Policy(
    "00-baseline:session-launches-only", Id("session-launches-only"), Forbid, Anything, Exactly(LAUNCH), Anything,
    [Unless(Binary(Equal, Variable(Principal), Constant(EntityConst(EntityUid(CALLER, "session")))))])

  const NO_UNKNOWN_AGENTS := Policy(
    "00-baseline:no-unknown-agents", Id("no-unknown-agents"), Forbid, Anything, Anything, Anything,
    [When(Binary(In, Variable(Principal), Constant(EntityConst(EntityUid(AGENT, "unknown")))))])

  function Subcommand(s: string): seq<Expr> {
    [Is(Attr("argv_tail"), s), Like(Attr("argv_tail"), Letters(s + " ") + STAR)]
  }

  const SUBCOMMANDS: seq<Expr> := Subcommand("status") + Subcommand("diff") + Subcommand("log") + Subcommand("show")

  const GIT_READ_ONLY := Policy(
    "10-git:git-read-only", Id("git-read-only"), Permit,
    Within(EntityUid(AGENT, "claude-code")), Exactly(LAUNCH), Anything,
    [When(And(Is(Attr("command"), "git"), AnyOf(SUBCOMMANDS)))])

  const REWRITES: seq<Expr> := [ArgsContain("--force"), ArgsContain("--force-with-lease"), ArgsContain("--hard")]

  const NO_HISTORY_REWRITES := Policy(
    "10-git:no-history-rewrites", Id("no-history-rewrites"), Forbid, Anything, Exactly(LAUNCH), Anything,
    [When(AnyOf(REWRITES))])

  function Mentions(flag: string): Expr {
    Like(Attr("argv_tail"), STAR + Letters(flag) + STAR)
  }

  const EXECUTIONS: seq<Expr> := [ArgsContain("-c"), Mentions("--config-env"), Mentions("--exec-path"),
                                  Mentions("--upload-pack"), Mentions("--receive-pack")]

  const NO_CODE_EXECUTING_FLAGS := Policy(
    "10-git:no-code-executing-git-flags", Id("no-code-executing-git-flags"), Forbid,
    Anything, Exactly(LAUNCH), Anything,
    [When(And(Is(Attr("command"), "git"), AnyOf(EXECUTIONS)))])

  const PACK: seq<Policy> := [SESSION_LAUNCHES_ONLY, NO_UNKNOWN_AGENTS, GIT_READ_ONLY, NO_HISTORY_REWRITES,
                              NO_CODE_EXECUTING_FLAGS]

  // ---------------------------------------------------------------------------
  // Patterns in use
  // ---------------------------------------------------------------------------

  /** `text` occurs in `s`. */
  predicate Occurs(text: string, s: string) {
    exists i :: 0 <= i <= |s| && text <= s[i..]
  }

  lemma {:induction false} StarMatches(s: string)
    ensures Matches(STAR, s)
  {
    assert STAR[1..] == [];
    if s != "" {
      StarMatches(s[1..]);
    }
  }

  lemma {:induction false} LettersMatch(text: string, rest: Pattern, s: string)
    ensures Matches(Letters(text) + rest, s) <==> text <= s && Matches(rest, s[|text|..])
    decreases |text|
  {
    if text == "" {
      assert Letters(text) + rest == rest && s[0..] == s;
    } else {
      assert (Letters(text) + rest)[1..] == Letters(text[1..]) + rest;
      if s != "" {
        LettersMatch(text[1..], rest, s[1..]);
        assert s == [s[0]] + s[1..] && text == [text[0]] + text[1..];
        assert text <= s <==> text[0] == s[0] && text[1..] <= s[1..];
        assert text <= s ==> s[1..][|text[1..]|..] == s[|text|..];
      }
    }
  }

  /** `like "text*"`. */
  lemma StartsMatch(text: string, s: string)
    ensures Matches(Letters(text) + STAR, s) <==> text <= s
  {
    LettersMatch(text, STAR, s);
    if text <= s {
      StarMatches(s[|text|..]);
    }
  }

  /** `like "*text*"`. */
  lemma {:induction false} OccursMatch(text: string, s: string)
    ensures Matches(STAR + Letters(text) + STAR, s) <==> Occurs(text, s)
    decreases |s|
  {
    var p := STAR + Letters(text) + STAR;
    assert p[1..] == Letters(text) + STAR;
    StartsMatch(text, s);
    assert s[0..] == s;
    if s != "" {
      OccursMatch(text, s[1..]);
      forall i | 0 <= i <= |s[1..]|
        ensures s[1..][i..] == s[i + 1..]
      {
      }
      assert Occurs(text, s) <==> text <= s || Occurs(text, s[1..]) by {
        if Occurs(text, s) && !(text <= s) {
          var i :| 0 <= i <= |s| && text <= s[i..];
          assert text <= s[1..][i - 1..];
        }
        if Occurs(text, s[1..]) {
          var i :| 0 <= i <= |s[1..]| && text <= s[1..][i..];
          assert text <= s[i + 1..];
        }
      }
    }
  }

  /** The tail is the word, or starts with the word and a space: its first token is the word. */
  lemma FirstTokenIs(word: string, tail: string)
    requires SPACE !in word
    ensures tail == word || word + " " <= tail <==> Tokens(tail)[0] == word
  {
    var n := Cut(tail, {SPACE});
    assert Tokens(tail)[0] == tail[..n];
    assert n < |tail| ==> tail[..n + 1] == tail[..n] + " ";
    assert n == |tail| ==> tail[..n] == tail;
    if tail == word {
      NoCut(word, {SPACE});
    } else if word + " " <= tail {
      assert tail[|word|] == (word + " ")[|word|] == SPACE;
      assert forall i :: 0 <= i < |word| ==> tail[i] == (word + " ")[i] == word[i] && word[i] != SPACE;
      assert n == |word|;
      assert tail[..n] == word;
    }
  }

  /** A text without spaces that occurs in one argument behind the first occurs in the joined tail. */
  lemma ArgumentInTail(args: seq<string>, k: nat, text: string)
    requires 0 < k < |args| && Occurs(text, args[k])
    ensures Occurs(text, ArgvTail(args))
  {
    ArgumentInJoin(args[1..], k - 1, text);
  }

  lemma {:induction false} ArgumentInJoin(args: seq<string>, k: nat, text: string)
    requires k < |args| && Occurs(text, args[k])
    ensures Occurs(text, Join(args))
  {
    if |args| > 1 {
      if k == 0 {
        OccursInLonger("", text, args[0], [SPACE] + Join(args[1..]));
        assert "" + args[0] + ([SPACE] + Join(args[1..])) == Join(args);
      } else {
        ArgumentInJoin(args[1..], k - 1, text);
        OccursInLonger(args[0] + [SPACE], text, Join(args[1..]), "");
        assert args[0] + [SPACE] + Join(args[1..]) + "" == Join(args);
      }
    }
  }

  lemma OccursInLonger(front: string, text: string, s: string, back: string)
    requires Occurs(text, s)
    ensures Occurs(text, front + s + back)
  {
    var i :| 0 <= i <= |s| && text <= s[i..];
    assert (front + s + back)[|front| + i..] == s[i..] + back;
  }

  // ---------------------------------------------------------------------------
  // Evaluating the building blocks
  // ---------------------------------------------------------------------------

  lemma AttrEval(q: Query, name: string)
    requires q.target.Command? && name in ResourceAttrs(q.target)
    ensures Eval(Attr(name), SliceOf(q)) == Ok(ResourceAttrs(q.target)[name])
  {
    DistinctKinds(q);
    assert Eval(Variable(Resource), SliceOf(q)) == Ok(Entity(SliceOf(q).resource));
  }

  lemma IsEval(q: Query, name: string, s: string)
    requires q.target.Command? && name in {"command", "argv_tail"}
    ensures Eval(Is(Attr(name), s), SliceOf(q)) ==
            Ok(Bool((if name == "command" then q.target.command else ArgvTail(q.target.args)) == s))
  {
    AttrEval(q, name);
    assert Eval(Constant(TextConst(s)), SliceOf(q)) == Ok(Text(s));
  }

  lemma LikeEval(q: Query, p: Pattern)
    requires q.target.Command?
    ensures Eval(Like(Attr("argv_tail"), p), SliceOf(q)) == Ok(Bool(Matches(p, ArgvTail(q.target.args))))
  {
    AttrEval(q, "argv_tail");
  }

  lemma ArgsContainEval(q: Query, s: string)
    requires q.target.Command?
    ensures Eval(ArgsContain(s), SliceOf(q)) == Ok(Bool(s in q.target.args))
  {
    AttrEval(q, "args");
    assert Eval(Constant(TextConst(s)), SliceOf(q)) == Ok(Text(s));
    assert Text(s) in (set a | a in q.target.args :: Text(a)) <==> s in q.target.args;
  }

  /** Every expression of the list evaluates to its Boolean. */
  ghost predicate AllEval(es: seq<Expr>, bs: seq<bool>, q: Request) {
    |es| == |bs| && forall i :: 0 <= i < |es| ==> Eval(es[i], q) == Ok(Bool(bs[i]))
  }

  lemma {:induction false} AnyOfEval(es: seq<Expr>, bs: seq<bool>, q: Request)
    requires es != [] && AllEval(es, bs, q)
    ensures Eval(AnyOf(es), q) == Ok(Bool(true in bs))
  {
    var n := |es| - 1;
    if n > 0 {
      AnyOfEval(es[..n], bs[..n], q);
      assert bs == bs[..n] + [bs[n]];
    }
  }

  // ---------------------------------------------------------------------------
  // Each policy, for every command line
  // ---------------------------------------------------------------------------

  const READ_ONLY: set<string> := {"status", "diff", "log", "show"}
  const REWRITE_FLAGS: set<string> := {"--force", "--force-with-lease", "--hard"}
  const EXECUTING_FLAGS: set<string> := {"--config-env", "--exec-path", "--upload-pack", "--receive-pack"}

  lemma WhenEval(p: Policy, body: Expr, q: Request, b: bool)
    requires p.conditions == [When(body)] && Eval(body, q) == Ok(Bool(b))
    ensures Satisfied(p, q) == Ok(InScope(p, q) && b)
  {
    assert p.conditions[1..] == [];
    if b {
      assert HoldsAll(p.conditions, q) == Ok(true);
    } else {
      assert HoldsAll(p.conditions, q) == Ok(false);
    }
    if InScope(p, q) {
      assert Satisfied(p, q) == HoldsAll(p.conditions, q);
    }
  }

  lemma SessionPolicy(q: Query)
    requires q.target.Command?
    ensures Satisfied(SESSION_LAUNCHES_ONLY, SliceOf(q)) == Ok(q.caller != "session")
  {
    var body := SESSION_LAUNCHES_ONLY.conditions[0].body;
    assert Eval(Variable(Principal), SliceOf(q)) == Ok(Entity(EntityUid(CALLER, q.caller)));
    assert Eval(body, SliceOf(q)) == Ok(Bool(q.caller == "session"));
    assert SESSION_LAUNCHES_ONLY.conditions[1..] == [];
    assert InScope(SESSION_LAUNCHES_ONLY, SliceOf(q));
    if q.caller == "session" {
      assert HoldsAll(SESSION_LAUNCHES_ONLY.conditions, SliceOf(q)) == Ok(false);
    } else {
      assert HoldsAll(SESSION_LAUNCHES_ONLY.conditions, SliceOf(q)) == Ok(true);
    }
  }

  lemma UnknownPolicy(q: Query)
    ensures Satisfied(NO_UNKNOWN_AGENTS, SliceOf(q)) == Ok(q.agent == "unknown")
  {
    var unknown := EntityUid(AGENT, "unknown");
    PrincipalInAgent(q, "unknown");
    InEval(SliceOf(q), unknown);
    var body := Binary(In, Variable(Principal), Constant(EntityConst(unknown)));
    WhenEval(NO_UNKNOWN_AGENTS, body, SliceOf(q), q.agent == "unknown");
  }

  lemma PrincipalInAgent(q: Query, agent: string)
    ensures IsIn(SliceOf(q), SliceOf(q).principal, EntityUid(AGENT, agent)) <==> q.agent == agent
  {
    DistinctKinds(q);
    PrincipalIsIn(q, EntityUid(AGENT, agent));
  }

  lemma InEval(s: Request, uid: EntityUid)
    ensures Eval(Binary(In, Variable(Principal), Constant(EntityConst(uid))), s) == Ok(Bool(IsIn(s, s.principal, uid)))
  {
    assert Eval(Variable(Principal), s) == Ok(Entity(s.principal));
    assert Eval(Constant(EntityConst(uid)), s) == Ok(Entity(uid));
  }

  lemma SubcommandEval(q: Query, word: string)
    requires q.target.Command? && SPACE !in word
    ensures var tail := ArgvTail(q.target.args);
            AllEval(Subcommand(word), [tail == word, word + " " <= tail], SliceOf(q)) &&
            (tail == word || word + " " <= tail <==> Tokens(tail)[0] == word)
  {
    var tail := ArgvTail(q.target.args);
    IsEval(q, "argv_tail", word);
    LikeEval(q, Letters(word + " ") + STAR);
    StartsMatch(word + " ", tail);
    FirstTokenIs(word, tail);
  }

  lemma AllEvalAppend(a: seq<Expr>, x: seq<bool>, b: seq<Expr>, y: seq<bool>, q: Request)
    requires AllEval(a, x, q) && AllEval(b, y, q)
    ensures AllEval(a + b, x + y, q)
  {
  }

  /** What the two tests of one subcommand answer. */
  function Answers(tail: string, word: string): seq<bool> {
    [tail == word, word + " " <= tail]
  }

  lemma SubcommandAnswers(q: Query, word: string)
    requires q.target.Command? && SPACE !in word
    ensures var tail := ArgvTail(q.target.args);
            AllEval(Subcommand(word), Answers(tail, word), SliceOf(q)) &&
            (true in Answers(tail, word) <==> Tokens(tail)[0] == word)
  {
    var tail := ArgvTail(q.target.args);
    SubcommandEval(q, word);
    assert true in Answers(tail, word) <==> Answers(tail, word)[0] || Answers(tail, word)[1];
  }

  lemma SubcommandsEval(q: Query)
    requires q.target.Command?
    ensures Eval(AnyOf(SUBCOMMANDS), SliceOf(q)) == Ok(Bool(Tokens(ArgvTail(q.target.args))[0] in READ_ONLY))
  {
    var tail, s := ArgvTail(q.target.args), SliceOf(q);
    var b1, b2, b3, b4 := Answers(tail, "status"), Answers(tail, "diff"), Answers(tail, "log"), Answers(tail, "show");
    SubcommandAnswers(q, "status");
    SubcommandAnswers(q, "diff");
    SubcommandAnswers(q, "log");
    SubcommandAnswers(q, "show");
    AllEvalAppend(Subcommand("status"), b1, Subcommand("diff"), b2, s);
    AllEvalAppend(Subcommand("status") + Subcommand("diff"), b1 + b2, Subcommand("log"), b3, s);
    AllEvalAppend(Subcommand("status") + Subcommand("diff") + Subcommand("log"), b1 + b2 + b3,
                  Subcommand("show"), b4, s);
    AnyOfEval(SUBCOMMANDS, b1 + b2 + b3 + b4, s);
  }

  lemma AndEval(left: Expr, right: Expr, q: Request, l: bool, r: bool)
    requires Eval(left, q) == Ok(Bool(l)) && Eval(right, q) == Ok(Bool(r))
    ensures Eval(And(left, right), q) == Ok(Bool(l && r))
  {
  }

  lemma ReadOnlyPolicy(q: Query)
    requires q.target.Command?
    ensures Satisfied(GIT_READ_ONLY, SliceOf(q)) ==
            Ok(q.agent == "claude-code" && q.target.command == "git" && Tokens(ArgvTail(q.target.args))[0] in READ_ONLY)
  {
    var s := SliceOf(q);
    var agent := EntityUid(AGENT, "claude-code");
    var body := And(Is(Attr("command"), "git"), AnyOf(SUBCOMMANDS));
    var git, read := q.target.command == "git", Tokens(ArgvTail(q.target.args))[0] in READ_ONLY;
    PrincipalInAgent(q, "claude-code");
    IsEval(q, "command", "git");
    SubcommandsEval(q);
    AndEval(Is(Attr("command"), "git"), AnyOf(SUBCOMMANDS), s, git, read);
    WhenEval(GIT_READ_ONLY, body, s, git && read);
    assert InScope(GIT_READ_ONLY, s) <==> q.agent == "claude-code";
  }

  lemma RewritesPolicy(q: Query)
    requires q.target.Command?
    ensures Satisfied(NO_HISTORY_REWRITES, SliceOf(q)) ==
            Ok(exists flag :: flag in REWRITE_FLAGS && flag in q.target.args)
  {
    var args, s := q.target.args, SliceOf(q);
    var bs := ["--force" in args, "--force-with-lease" in args, "--hard" in args];
    ArgsContainEval(q, "--force");
    ArgsContainEval(q, "--force-with-lease");
    ArgsContainEval(q, "--hard");
    AnyOfEval(REWRITES, bs, s);
    WhenEval(NO_HISTORY_REWRITES, AnyOf(REWRITES), s, true in bs);
    assert true in bs <==> bs[0] || bs[1] || bs[2];
    assert REWRITE_FLAGS == {"--force", "--force-with-lease", "--hard"};
  }

  lemma MentionsEval(q: Query, flag: string)
    requires q.target.Command?
    ensures Eval(Mentions(flag), SliceOf(q)) == Ok(Bool(Occurs(flag, ArgvTail(q.target.args))))
  {
    LikeEval(q, STAR + Letters(flag) + STAR);
    OccursMatch(flag, ArgvTail(q.target.args));
  }

  /** Whether any of the second list's tests holds. */
  predicate IsExecuting(args: seq<string>) {
    "-c" in args || exists flag :: flag in EXECUTING_FLAGS && Occurs(flag, ArgvTail(args))
  }

  lemma ExecutionsEval(q: Query)
    requires q.target.Command?
    ensures Eval(AnyOf(EXECUTIONS), SliceOf(q)) == Ok(Bool(IsExecuting(q.target.args)))
  {
    var args, tail, s := q.target.args, ArgvTail(q.target.args), SliceOf(q);
    var bs := ["-c" in args, Occurs("--config-env", tail), Occurs("--exec-path", tail), Occurs("--upload-pack", tail),
               Occurs("--receive-pack", tail)];
    ArgsContainEval(q, "-c");
    MentionsEval(q, "--config-env");
    MentionsEval(q, "--exec-path");
    MentionsEval(q, "--upload-pack");
    MentionsEval(q, "--receive-pack");
    AnyOfEval(EXECUTIONS, bs, s);
    assert true in bs <==> bs[0] || bs[1] || bs[2] || bs[3] || bs[4];
    assert EXECUTING_FLAGS == {"--config-env", "--exec-path", "--upload-pack", "--receive-pack"};
  }

  lemma ExecutionsPolicy(q: Query)
    requires q.target.Command?
    ensures Satisfied(NO_CODE_EXECUTING_FLAGS, SliceOf(q)) ==
            Ok(q.target.command == "git" && IsExecuting(q.target.args))
  {
    var s := SliceOf(q);
    ExecutionsEval(q);
    IsEval(q, "command", "git");
    AndEval(Is(Attr("command"), "git"), AnyOf(EXECUTIONS), s, q.target.command == "git", IsExecuting(q.target.args));
    WhenEval(NO_CODE_EXECUTING_FLAGS, And(Is(Attr("command"), "git"), AnyOf(EXECUTIONS)), s,
             q.target.command == "git" && IsExecuting(q.target.args));
  }

  // ---------------------------------------------------------------------------
  // The pack as a whole
  // ---------------------------------------------------------------------------

  /** A read-only git command line, launched directly, by the one agent the pack knows. */
  predicate IsApproved(q: Query)
    requires q.target.Command?
  {
    var args, tail := q.target.args, ArgvTail(q.target.args);
    q.target.command == "git" && q.caller == "session" && q.agent == "claude-code" &&
    Tokens(tail)[0] in READ_ONLY &&
    "-c" !in args && (forall flag :: flag in REWRITE_FLAGS ==> flag !in args) &&
    (forall flag :: flag in EXECUTING_FLAGS ==> !Occurs(flag, tail))
  }

  /** Every policy of the pack has an answer, and these are its permits and forbids. */
  lemma PackMembers(p: Policy)
    ensures p in PACK <==> p == SESSION_LAUNCHES_ONLY || p == NO_UNKNOWN_AGENTS || p == GIT_READ_ONLY ||
                           p == NO_HISTORY_REWRITES || p == NO_CODE_EXECUTING_FLAGS
  {
  }

  lemma PackAllowMeans(q: Query, rejects: char -> bool, a: bool, b: bool, c: bool, d: bool, e: bool)
    requires q.target.Command?
    requires Satisfied(SESSION_LAUNCHES_ONLY, SliceOf(q)) == Ok(a)
    requires Satisfied(NO_UNKNOWN_AGENTS, SliceOf(q)) == Ok(b)
    requires Satisfied(GIT_READ_ONLY, SliceOf(q)) == Ok(c)
    requires Satisfied(NO_HISTORY_REWRITES, SliceOf(q)) == Ok(d)
    requires Satisfied(NO_CODE_EXECUTING_FLAGS, SliceOf(q)) == Ok(e)
    ensures Evaluate(PACK, q, rejects).allow <==> IdsWritable(q, rejects) && c && !a && !b && !d && !e
  {
    AllowMeans(PACK, q, rejects);
    var s := SliceOf(q);
    PackMembers(SESSION_LAUNCHES_ONLY);
    PackMembers(NO_UNKNOWN_AGENTS);
    PackMembers(GIT_READ_ONLY);
    PackMembers(NO_HISTORY_REWRITES);
    PackMembers(NO_CODE_EXECUTING_FLAGS);
    forall p | p in PACK
      ensures Satisfied(p, s).Ok? && (p.effect == Permit <==> p == GIT_READ_ONLY)
      ensures p == SESSION_LAUNCHES_ONLY || p == NO_UNKNOWN_AGENTS || p == GIT_READ_ONLY ||
              p == NO_HISTORY_REWRITES || p == NO_CODE_EXECUTING_FLAGS
    {
      PackMembers(p);
    }
  }

  /** The shipped pack allows exactly the approved command lines, of all there are. */
  lemma PackAllowsExactly(q: Query, rejects: char -> bool)
    requires q.target.Command?
    ensures Evaluate(PACK, q, rejects).allow <==> IdsWritable(q, rejects) && IsApproved(q)
  {
    var args, tail := q.target.args, ArgvTail(q.target.args);
    var git, read := q.target.command == "git", Tokens(tail)[0] in READ_ONLY;
    var rewrites := exists flag :: flag in REWRITE_FLAGS && flag in args;
    SessionPolicy(q);
    UnknownPolicy(q);
    ReadOnlyPolicy(q);
    RewritesPolicy(q);
    ExecutionsPolicy(q);
    PackAllowMeans(q, rejects, q.caller != "session", q.agent == "unknown", q.agent == "claude-code" && git && read,
                   rewrites, git && IsExecuting(args));
    assert "claude-code" != "unknown";
  }

  /** No flag text hides in a single argument of an approved command line. */
  lemma NoFlagInAnyArgument(q: Query, k: nat, flag: string)
    requires q.target.Command? && IsApproved(q) && 0 < k < |q.target.args| && flag in EXECUTING_FLAGS
    ensures !Occurs(flag, q.target.args[k])
  {
    if Occurs(flag, q.target.args[k]) {
      ArgumentInTail(q.target.args, k, flag);
    }
  }

  /** With `-c` in front of everything else, the permit alone and the forbid alone each deny git. */
  lemma ConfigInjectionIsDeniedTwice(q: Query)
    requires q.target.Command? && |q.target.args| > 1 && q.target.args[1] == "-c"
    ensures Satisfied(GIT_READ_ONLY, SliceOf(q)) != Ok(true)
    ensures q.target.command == "git" ==> Satisfied(NO_CODE_EXECUTING_FLAGS, SliceOf(q)) == Ok(true)
  {
    var tail := ArgvTail(q.target.args);
    ReadOnlyPolicy(q);
    ExecutionsPolicy(q);
    FirstTokenIs("-c", tail);
    assert tail == "-c" || "-c" + " " <= tail;
    assert "-c" !in READ_ONLY;
  }

  /** The pack permits no endpoint request. */
  lemma PackDeniesEndpoints(q: Query, rejects: char -> bool)
    requires q.target.Endpoint?
    ensures !Evaluate(PACK, q, rejects).allow
  {
    AllowMeans(PACK, q, rejects);
    assert "httpRequest" != "launchCommand";
    assert !InScope(GIT_READ_ONLY, SliceOf(q));
    assert Satisfied(GIT_READ_ONLY, SliceOf(q)) == Ok(false);
    assert forall p :: p in PACK && p.effect == Permit ==> p == GIT_READ_ONLY;
  }

  // ---------------------------------------------------------------------------
  // The pack under the daemon's own lint
  // ---------------------------------------------------------------------------

  /** A text with one wildcard behind it pins a token exactly when the text ends with a space. */
  lemma StartsPin(text: string)
    ensures PinsAToken(Letters(text) + STAR) <==> text != "" && text[|text| - 1] == SPACE
  {
    var p := Letters(text) + STAR;
    LettersThenWildcard(text);
    assert text != "" ==> p[|text| - 1] == Literal(text[|text| - 1]);
  }

  lemma {:induction false} LettersThenWildcard(text: string)
    ensures FirstWildcard(Letters(text) + STAR) == |text|
  {
    if text != "" {
      LettersThenWildcard(text[1..]);
      assert (Letters(text) + STAR)[1..] == Letters(text[1..]) + STAR;
    }
  }

  /** There is no unpinned read, down into what is read from. */
  predicate IsPinned(e: Expr) {
    Lint.Unpinned(e, true) == 0
  }

  lemma AttrIsPinned(name: string)
    ensures if name == Lint.TAIL then Lint.UnpinnedBelow(Attr(name), true) == 0 else IsPinned(Attr(name))
  {
    assert Lint.Unpinned(Variable(Resource), true) == 0;
  }

  lemma {:induction false} AnyOfIsPinned(es: seq<Expr>)
    requires es != [] && forall i :: 0 <= i < |es| ==> IsPinned(es[i])
    ensures IsPinned(AnyOf(es))
  {
    if |es| > 1 {
      AnyOfIsPinned(es[..|es| - 1]);
    }
  }

  lemma SubcommandIsPinned(word: string)
    ensures forall e :: e in Subcommand(word) ==> IsPinned(e)
  {
    AttrIsPinned("argv_tail");
    StartsPin(word + " ");
    assert Lint.Unpinned(Constant(TextConst(word)), true) == 0;
  }

  lemma ReadOnlyIsPinned()
    ensures UnpinnedIn(GIT_READ_ONLY.conditions, true) == 0
  {
    var test := AnyOf(SUBCOMMANDS);
    var body := And(Is(Attr("command"), "git"), test);
    SubcommandIsPinned("status");
    SubcommandIsPinned("diff");
    SubcommandIsPinned("log");
    SubcommandIsPinned("show");
    AnyOfIsPinned(SUBCOMMANDS);
    AttrIsPinned("command");
    assert Lint.Unpinned(Constant(TextConst("git")), true) == 0;
    assert IsPinned(Is(Attr("command"), "git"));
    OnlyCondition(body);
  }

  /** The lint, and the deeper one too, leave the shipped permit alone: what it says of a command line hangs
      on its pinning tests only. */
  lemma ShippedPermitIsPinned(q: Query, tail: string)
    requires q.target.Command?
    requires Agree(GIT_READ_ONLY.conditions[0].body, SliceOf(q), tail)
    ensures !IsFlagged(GIT_READ_ONLY, false) && !IsFlagged(GIT_READ_ONLY, true)
    ensures HasTail(SliceOf(q))
    ensures Satisfied(GIT_READ_ONLY, WithTail(SliceOf(q), tail)) == Satisfied(GIT_READ_ONLY, SliceOf(q))
  {
    ReadOnlyIsPinned();
    FlaggedExactly(GIT_READ_ONLY, true);
    DeepFlagsMore(GIT_READ_ONLY);
    UnflaggedPermitIsPinned(GIT_READ_ONLY, SliceOf(q), tail);
  }

  lemma OnlyCondition(body: Expr)
    ensures UnpinnedIn([When(body)], true) == Lint.Unpinned(body, true)
  {
    assert [When(body)][1..] == [];
  }
}
