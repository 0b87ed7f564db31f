/** What a policy reads: every variable, resource attribute and context value of the entity slice, as the
    evaluator gives it for a query, and what that makes of whole policies about endpoints. */
module EntityReads {
  import opened Wrappers
  import opened Utf8
  import opened Patterns
  import opened Cedar
  import opened Entities
  import opened Engine
  import opened PolicyPack

  lemma VariablesRead(q: Query)
    ensures Eval(Variable(Principal), SliceOf(q)) == Ok(Entity(EntityUid("Nono::Caller", q.caller)))
    ensures Eval(Variable(Action), SliceOf(q)) ==
            Ok(Entity(EntityUid("Nono::Action", if q.target.Command? then "launchCommand" else "httpRequest")))
    ensures Eval(Variable(Resource), SliceOf(q)) ==
            Ok(Entity(EntityUid(if q.target.Command? then "Nono::Command" else "Nono::HttpEndpoint", q.requestId)))
    ensures forall name :: Eval(Attribute(Variable(Principal), name), SliceOf(q)) == Err(NoAttribute(name))
  {
    DistinctKinds(q);
  }

  function FromContext(name: string): Expr {
    Attribute(Variable(Context), name)
  }

  lemma ResourceReads(q: Query, name: string)
    ensures Eval(Attr(name), SliceOf(q)) ==
            if name in ResourceAttrs(q.target) then Ok(ResourceAttrs(q.target)[name]) else Err(NoAttribute(name))
  {
    DistinctKinds(q);
    assert Eval(Variable(Resource), SliceOf(q)) == Ok(Entity(SliceOf(q).resource));
    assert SliceOf(q).entities[SliceOf(q).resource].attrs == ResourceAttrs(q.target);
  }

  /** The attributes of a command, and no others: the command's name, its arguments as a set, the arguments
      behind the first joined, and how many there are. */
  lemma CommandReads(q: Query)
    requires q.target.Command?
    ensures Eval(Attr("command"), SliceOf(q)) == Ok(Text(q.target.command))
    ensures Eval(Attr("args"), SliceOf(q)) == Ok(SetOf(set a | a in q.target.args :: Text(a)))
    ensures Eval(Attr("argv_tail"), SliceOf(q)) == Ok(Text(ArgvTail(q.target.args)))
    ensures Eval(Attr("arg_count"), SliceOf(q)) == Ok(Long(|q.target.args|))
    ensures forall name :: name !in {"command", "args", "argv_tail", "arg_count"} ==>
              Eval(Attr(name), SliceOf(q)) == Err(NoAttribute(name))
  {
    forall name
      ensures Eval(Attr(name), SliceOf(q)) ==
              if name in ResourceAttrs(q.target) then Ok(ResourceAttrs(q.target)[name]) else Err(NoAttribute(name))
    {
      ResourceReads(q, name);
    }
  }

  /** The attributes of an endpoint, and no others. */
  lemma EndpointReads(q: Query)
    requires q.target.Endpoint?
    ensures Eval(Attr("route_id"), SliceOf(q)) == Ok(Text(q.target.routeId))
    ensures Eval(Attr("upstream"), SliceOf(q)) == Ok(Text(q.target.upstream))
    ensures Eval(Attr("method"), SliceOf(q)) == Ok(Text(q.target.httpMethod))
    ensures Eval(Attr("path"), SliceOf(q)) == Ok(Text(q.target.path))
    ensures forall name :: name !in {"route_id", "upstream", "method", "path"} ==>
              Eval(Attr(name), SliceOf(q)) == Err(NoAttribute(name))
  {
    forall name
      ensures Eval(Attr(name), SliceOf(q)) ==
              if name in ResourceAttrs(q.target) then Ok(ResourceAttrs(q.target)[name]) else Err(NoAttribute(name))
    {
      ResourceReads(q, name);
    }
  }

  lemma ContextHolds(q: Query, name: string)
    ensures Eval(FromContext(name), SliceOf(q)) ==
            if name in ContextOf(q) then Ok(ContextOf(q)[name]) else Err(NoAttribute(name))
    ensures Eval(Has(Variable(Context), name), SliceOf(q)) == Ok(Bool(name in ContextOf(q)))
  {
    assert Eval(Variable(Context), SliceOf(q)) == Ok(RecordOf(ContextOf(q)));
  }

  /** The reason is in the context exactly when the query has one. */
  lemma ReasonReads(q: Query)
    ensures Eval(Has(Variable(Context), "reason"), SliceOf(q)) == Ok(Bool(q.reason.Some?))
    ensures q.reason.Some? ==> Eval(FromContext("reason"), SliceOf(q)) == Ok(Text(q.reason.value))
  {
    ContextHolds(q, "reason");
  }

  lemma CommandContextReads(q: Query)
    requires q.target.Command?
    ensures Eval(FromContext("backend"), SliceOf(q)) == Ok(Text(q.backend))
    ensures Eval(FromContext("intercept_rule"), SliceOf(q)) == Ok(Text(q.target.interceptRule))
    ensures Eval(FromContext("caller_kind"), SliceOf(q)) == Ok(Text(q.callerKind))
    ensures Eval(FromContext("child_pid"), SliceOf(q)) == Ok(Long(q.target.childPid))
    ensures Eval(FromContext("session_id"), SliceOf(q)) == Ok(Text(q.sessionId))
    ensures forall name ::
              name !in {"backend", "intercept_rule", "caller_kind", "child_pid", "session_id", "reason"} ==>
              Eval(FromContext(name), SliceOf(q)) == Err(NoAttribute(name))
  {
    ReadThroughContext(q);
  }

  lemma EndpointContextReads(q: Query)
    requires q.target.Endpoint?
    ensures Eval(FromContext("backend"), SliceOf(q)) == Ok(Text(q.backend))
    ensures Eval(FromContext("rule_label"), SliceOf(q)) == Ok(Text(q.target.ruleLabel))
    ensures forall name :: name !in {"backend", "rule_label", "reason"} ==>
              Eval(FromContext(name), SliceOf(q)) == Err(NoAttribute(name))
  {
    ReadThroughContext(q);
  }

  lemma ReadThroughContext(q: Query)
    ensures forall name ::
              Eval(FromContext(name), SliceOf(q)) ==
              if name in ContextOf(q) then Ok(ContextOf(q)[name]) else Err(NoAttribute(name))
  {
    forall name
      ensures Eval(FromContext(name), SliceOf(q)) ==
              if name in ContextOf(q) then Ok(ContextOf(q)[name]) else Err(NoAttribute(name))
    {
      ContextHolds(q, name);
    }
  }

  // ---------------------------------------------------------------------------
  // Policies about endpoints
  // ---------------------------------------------------------------------------

  lemma IsText(e: Expr, s: string, v: string, r: Request)
    requires Eval(e, r) == Ok(Text(v))
    ensures Eval(Is(e, s), r) == Ok(Bool(v == s))
  {
    assert Eval(Constant(TextConst(s)), r) == Ok(Text(s));
  }

  /** `permit when { resource.method == m && resource.path like p }` */
  function PermitPath(m: string, p: Pattern): Policy {
    Policy("permit", [], Permit, Anything, Anything, Anything,
           [When(And(Is(Attr("method"), m), Like(Attr("path"), p)))])
  }

  /** `forbid when { context has reason && context.reason == r }` */
  function ForbidReason(r: string): Policy {
    Policy("forbid", [], Forbid, Anything, Anything, Anything,
           [When(And(Has(Variable(Context), "reason"), Is(FromContext("reason"), r)))])
  }

  lemma OneCondition(p: Policy, body: Expr, r: Request, b: bool)
    requires p.conditions == [When(body)] && Eval(body, r) == Ok(Bool(b))
    requires p.principal == Anything && p.action == Anything && p.resource == Anything
    ensures Satisfied(p, r) == Ok(b)
  {
    assert p.conditions[1..] == [] && HoldsAll(p.conditions[1..], r) == Ok(true);
    assert InScope(p, r);
  }

  lemma PermitPathMeans(q: Query, m: string, p: Pattern)
    requires q.target.Endpoint?
    ensures Satisfied(PermitPath(m, p), SliceOf(q)) == Ok(q.target.httpMethod == m && Matches(p, q.target.path))
  {
    var body := And(Is(Attr("method"), m), Like(Attr("path"), p));
    EndpointReads(q);
    IsText(Attr("method"), m, q.target.httpMethod, SliceOf(q));
    assert Eval(Like(Attr("path"), p), SliceOf(q)) == Ok(Bool(Matches(p, q.target.path)));
    OneCondition(PermitPath(m, p), body, SliceOf(q), q.target.httpMethod == m && Matches(p, q.target.path));
  }

  lemma ForbidReasonMeans(q: Query, r: string)
    ensures Satisfied(ForbidReason(r), SliceOf(q)) == Ok(q.reason == Some(r))
  {
    var body := And(Has(Variable(Context), "reason"), Is(FromContext("reason"), r));
    ReasonReads(q);
    if q.reason.Some? {
      IsText(FromContext("reason"), r, q.reason.value, SliceOf(q));
    }
    OneCondition(ForbidReason(r), body, SliceOf(q), q.reason == Some(r));
  }

  /** A permit on method and path allows exactly the endpoint queries with that method and a path that matches,
      among those whose ids can be written and whose path is unambiguous. */
  lemma PermitPathAllows(q: Query, m: string, p: Pattern, rejects: char -> bool)
    requires q.target.Endpoint?
    ensures Evaluate([PermitPath(m, p)], q, rejects).allow <==>
            q.target.httpMethod == m && Matches(p, q.target.path) && IdsWritable(q, rejects) &&
            EndpointPath.AmbiguityOf(Encode(q.target.path)).None?
  {
    var policies := [PermitPath(m, p)];
    assert policies[0] in policies && forall x :: x in policies ==> x == policies[0];
    PermitPathMeans(q, m, p);
    AllowMeans(policies, q, rejects);
  }

  /** A forbid on the reason beside it takes away exactly the queries with that reason, and none without. */
  lemma ForbidReasonDenies(q: Query, m: string, p: Pattern, r: string, rejects: char -> bool)
    requires q.target.Endpoint?
    ensures Evaluate([PermitPath(m, p), ForbidReason(r)], q, rejects).allow <==>
            Evaluate([PermitPath(m, p)], q, rejects).allow && q.reason != Some(r)
  {
    var policies := [PermitPath(m, p), ForbidReason(r)];
    assert policies[0] in policies && policies[1] in policies;
    assert forall x :: x in policies ==> x == policies[0] || x == policies[1];
    PermitPathMeans(q, m, p);
    ForbidReasonMeans(q, r);
    AllowMeans(policies, q, rejects);
    PermitPathAllows(q, m, p, rejects);
  }
}
