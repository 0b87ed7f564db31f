/** How raw identifiers become entity uids, and the entity slice one query is evaluated over. */
module Entities {
  import opened Wrappers
  import opened Patterns
  import opened Cedar

  // ---------------------------------------------------------------------------
  // Quoting
  // ---------------------------------------------------------------------------

  /** `str::replace` of one character. */
  function Replace(s: string, c: char, to: string): string {
    if s == "" then "" else (if s[0] == c then to else [s[0]]) + Replace(s[1..], c, to)
  }

  /** Backslashes first, then quotes. */
  function Escape(raw: string): string {
    Replace(Replace(raw, '\\', "\\\\"), '"', "\\\"")
  }

  /** What one pass over the raw text would write. */
  function EscapeOnce(raw: string): string {
    if raw == "" then ""
    else (if raw[0] == '\\' then "\\\\" else if raw[0] == '"' then "\\\"" else [raw[0]]) + EscapeOnce(raw[1..])
  }

  /** A string literal read up to its closing quote: the text, and what follows the quote. `rejects`
      are the characters the literal may not hold as they are. */
  function ReadLiteral(s: string, rejects: char -> bool): Option<(string, string)> {
    if s == "" then None
    else if s[0] == '"' then Some(("", s[1..]))
    else if s[0] == '\\' then
      if |s| > 1 && (s[1] == '\\' || s[1] == '"') then PrependChar(s[1], ReadLiteral(s[2..], rejects)) else None
    else if rejects(s[0]) then None
    else PrependChar(s[0], ReadLiteral(s[1..], rejects))
  }

  function PrependChar(c: char, read: Option<(string, string)>): Option<(string, string)> {
    match read
    case None => None
    case Some(pair) => Some(([c] + pair.0, pair.1))
  }

  /** The raw text holds no character a literal may not hold. */
  predicate IsWritable(raw: string, rejects: char -> bool) {
    forall i :: 0 <= i < |raw| && raw[i] != '\\' && raw[i] != '"' ==> !rejects(raw[i])
  }

  /** The uid printed as `kind::"<escaped id>"` and read back: the whole text must be one literal. */
  function MakeUid(kind: string, raw: string, rejects: char -> bool): Option<EntityUid> {
    match ReadLiteral(Escape(raw) + "\"", rejects)
    case Some((id, rest)) => if rest == "" then Some(EntityUid(kind, id)) else None
    case None => None
  }

  lemma {:induction false} ReplaceAppend(a: string, b: string, c: char, to: string)
    ensures Replace(a + b, c, to) == Replace(a, c, to) + Replace(b, c, to)
  {
    if a == "" {
      assert a + b == b;
    } else {
      assert (a + b)[1..] == a[1..] + b;
      ReplaceAppend(a[1..], b, c, to);
    }
  }

  /** The two chained replacements are one pass: the second never touches what the first wrote. */
  lemma {:induction false} ChainedIsOnePass(raw: string)
    ensures Escape(raw) == EscapeOnce(raw)
  {
    if raw != "" {
      ChainedIsOnePass(raw[1..]);
      var rest := Replace(raw[1..], '\\', "\\\\");
      var head := if raw[0] == '\\' then "\\\\" else [raw[0]];
      ReplaceAppend(head, rest, '"', "\\\"");
      if raw[0] == '\\' {
        assert "\\\\"[1..] == "\\" && "\\"[1..] == "";
        assert Replace("\\", '"', "\\\"") == "\\";
        assert Replace("\\\\", '"', "\\\"") == "\\\\";
      } else {
        assert head[1..] == "";
        assert Replace(head, '"', "\\\"") == (if raw[0] == '"' then "\\\"" else [raw[0]]) + "";
      }
    }
  }

  /** Reading what was escaped consumes it up to the closing quote and gives the raw text back, for
      exactly the raw texts a literal can hold. */
  lemma {:induction false} LiteralRoundTrip(raw: string, rest: string, rejects: char -> bool)
    ensures ReadLiteral(EscapeOnce(raw) + "\"" + rest, rejects) ==
            if IsWritable(raw, rejects) then Some((raw, rest)) else None
  {
    var s := EscapeOnce(raw) + "\"" + rest;
    if raw == "" {
      assert s[1..] == rest;
    } else {
      LiteralRoundTrip(raw[1..], rest, rejects);
      var tail := EscapeOnce(raw[1..]) + "\"" + rest;
      assert IsWritable(raw, rejects) <==>
             IsWritable(raw[1..], rejects) && (raw[0] != '\\' && raw[0] != '"' ==> !rejects(raw[0])) by {
        assert forall i :: 0 <= i < |raw[1..]| ==> raw[1..][i] == raw[i + 1];
        assert forall i :: 0 < i < |raw| ==> raw[i] == raw[1..][i - 1];
      }
      if raw[0] == '\\' || raw[0] == '"' {
        assert s == "\\" + [raw[0]] + tail;
        assert s[2..] == tail;
      } else {
        assert s == [raw[0]] + tail;
        assert s[1..] == tail;
      }
      assert raw == [raw[0]] + raw[1..];
    }
  }

  /** A uid is made exactly when the id can be written, and it carries that id: distinct ids give
      distinct uids. */
  lemma UidRoundTrip(kind: string, raw: string, rejects: char -> bool)
    ensures MakeUid(kind, raw, rejects) ==
            if IsWritable(raw, rejects) then Some(EntityUid(kind, raw)) else None
  {
    ChainedIsOnePass(raw);
    LiteralRoundTrip(raw, "", rejects);
    assert Escape(raw) + "\"" + "" == Escape(raw) + "\"";
  }

  lemma DistinctIdsGiveDistinctUids(kind: string, a: string, b: string, rejects: char -> bool)
    requires a != b && MakeUid(kind, a, rejects).Some? && MakeUid(kind, b, rejects).Some?
    ensures MakeUid(kind, a, rejects) != MakeUid(kind, b, rejects)
  {
    UidRoundTrip(kind, a, rejects);
    UidRoundTrip(kind, b, rejects);
  }

  // ---------------------------------------------------------------------------
  // The slice for one query
  // ---------------------------------------------------------------------------

  datatype Target =
    | Command(command: string, args: seq<string>, interceptRule: string, childPid: nat)
    | Endpoint(routeId: string, upstream: string, httpMethod: string, path: string, ruleLabel: string)

  datatype Query = Query(
    agent: string,
    sessionId: string,
    caller: string,
    callerKind: string,
    requestId: string,
    backend: string,
    reason: Option<string>,
    target: Target)

  const AGENT := "Nono::Agent"
  const SESSION := "Nono::Session"
  const CALLER := "Nono::Caller"
  const COMMAND := "Nono::Command"
  const HTTP_ENDPOINT := "Nono::HttpEndpoint"
  const ACTION := "Nono::Action"

  function ActionOf(target: Target): EntityUid {
    EntityUid(ACTION, if target.Command? then "launchCommand" else "httpRequest")
  }

  function ResourceKind(target: Target): string {
    if target.Command? then COMMAND else HTTP_ENDPOINT
  }

  function ResourceAttrs(target: Target): map<string, Value> {
    match target
    case Command(command, args, _, _) =>
      map["command" := Text(command),
          "args" := SetOf(set a | a in args :: Text(a)),
          "argv_tail" := Text(ArgvTail(args)),
          "arg_count" := Long(|args|)]
    case Endpoint(routeId, upstream, httpMethod, path, _) =>
      map["route_id" := Text(routeId),
          "upstream" := Text(upstream),
          "method" := Text(httpMethod),
          "path" := Text(path)]
  }

  function ContextOf(q: Query): map<string, Value> {
    var pairs := match q.target
      case Command(_, _, interceptRule, childPid) =>
        map["backend" := Text(q.backend),
            "intercept_rule" := Text(interceptRule),
            "caller_kind" := Text(q.callerKind),
            "child_pid" := Long(childPid),
            "session_id" := Text(q.sessionId)]
      case Endpoint(_, _, _, _, ruleLabel) =>
        map["backend" := Text(q.backend), "rule_label" := Text(ruleLabel)];
    if q.reason.Some? then pairs["reason" := Text(q.reason.value)] else pairs
  }

  /** The request of four uids: the caller sits in its session, the session in its agent. */
  function Slice(agent: EntityUid, session: EntityUid, caller: EntityUid, resource: EntityUid, q: Query): Request {
    Request(caller, ActionOf(q.target), resource, ContextOf(q),
            map[agent := EntityData(map[], {}),
                session := EntityData(map[], {agent}),
                caller := EntityData(map[], {session}),
                resource := EntityData(ResourceAttrs(q.target), {})])
  }

  /** The request for a query, when all four ids can be written as uids. */
  function Build(q: Query, rejects: char -> bool): Option<Request> {
    var agent := MakeUid(AGENT, q.agent, rejects);
    var session := MakeUid(SESSION, q.sessionId, rejects);
    var caller := MakeUid(CALLER, q.caller, rejects);
    var resource := MakeUid(ResourceKind(q.target), q.requestId, rejects);
    if agent.None? || session.None? || caller.None? || resource.None? then None
    else Some(Slice(agent.value, session.value, caller.value, resource.value, q))
  }

  predicate IdsWritable(q: Query, rejects: char -> bool) {
    IsWritable(q.agent, rejects) && IsWritable(q.sessionId, rejects) &&
    IsWritable(q.caller, rejects) && IsWritable(q.requestId, rejects)
  }

  /** The slice of a query whose ids went through unchanged. */
  function SliceOf(q: Query): Request {
    Slice(EntityUid(AGENT, q.agent), EntityUid(SESSION, q.sessionId), EntityUid(CALLER, q.caller),
          EntityUid(ResourceKind(q.target), q.requestId), q)
  }

  lemma BuildExactly(q: Query, rejects: char -> bool)
    ensures Build(q, rejects) == if IdsWritable(q, rejects) then Some(SliceOf(q)) else None
  {
    UidRoundTrip(AGENT, q.agent, rejects);
    UidRoundTrip(SESSION, q.sessionId, rejects);
    UidRoundTrip(CALLER, q.caller, rejects);
    UidRoundTrip(ResourceKind(q.target), q.requestId, rejects);
  }

  /** The principal is in its caller, its session and its agent, and in nothing else. */
  lemma PrincipalIsIn(q: Query, x: EntityUid)
    ensures IsIn(SliceOf(q), SliceOf(q).principal, x) <==>
            x == EntityUid(CALLER, q.caller) || x == EntityUid(SESSION, q.sessionId) || x == EntityUid(AGENT, q.agent)
  {
    var r := SliceOf(q);
    var agent, session := EntityUid(AGENT, q.agent), EntityUid(SESSION, q.sessionId);
    var caller := EntityUid(CALLER, q.caller);
    var resource := EntityUid(ResourceKind(q.target), q.requestId);
    DistinctKinds(q);
    assert r.entities.Keys == {agent, session, caller, resource};
    assert |r.entities| == |r.entities.Keys| == 4;
    assert r.entities[caller].parents == {session} && r.entities[session].parents == {agent};
    assert r.entities[agent].parents == {};
    AgentReach(r, agent, x);
    assert Reaches(r.entities, session, x, 3) <==> x == session || Reaches(r.entities, agent, x, 2);
    assert Reaches(r.entities, caller, x, 4) <==> x == caller || Reaches(r.entities, session, x, 3);
  }

  /** The resource is in nothing but itself. */
  lemma ResourceIsIn(q: Query, x: EntityUid)
    ensures IsIn(SliceOf(q), SliceOf(q).resource, x) <==> x == SliceOf(q).resource
  {
    DistinctKinds(q);
    assert SliceOf(q).entities[SliceOf(q).resource].parents == {};
  }

  lemma AgentReach(r: Request, agent: EntityUid, x: EntityUid)
    requires agent in r.entities && r.entities[agent].parents == {}
    ensures Reaches(r.entities, agent, x, 2) <==> x == agent
  {
  }

  lemma DistinctKinds(q: Query)
    ensures AGENT != SESSION && AGENT != CALLER && SESSION != CALLER
    ensures ResourceKind(q.target) != AGENT && ResourceKind(q.target) != SESSION && ResourceKind(q.target) != CALLER
  {
    assert |AGENT| == 11 && |SESSION| == 13 && |CALLER| == 12 && |COMMAND| == 13 && |HTTP_ENDPOINT| == 18;
    assert SESSION[6] == 'S' && COMMAND[6] == 'C';
  }
}
