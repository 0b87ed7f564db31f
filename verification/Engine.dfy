/** Evaluating a query: the guard on ambiguous paths, the entity slice, the authorizer, and the
    fail-closed conversion of its answer. */
module Engine {
  import opened Wrappers
  import opened Utf8
  import opened Cedar
  import opened Entities
  import EndpointPath
  import UriPath
  import Splitting

  datatype Reason =
    | PermittedBy(ids: set<string>)
    | DeniedBy(ids: set<string>)
    | NothingPermitted
    | EvaluationErrors(ids: set<string>)
    | AmbiguousPath(cause: EndpointPath.Ambiguity)
    | CouldNotBuild

  datatype Decision = Decision(allow: bool, matched: set<string>, reason: Reason)

  /** An answer with errors in it is never an allow: a `forbid` may have been skipped. */
  function FromResponse(r: Response): Decision {
    if r.errors != {} then Decision(false, r.reasons, EvaluationErrors(r.errors))
    else if r.allow then Decision(true, r.reasons, PermittedBy(r.reasons))
    else if r.reasons == {} then Decision(false, {}, NothingPermitted)
    else Decision(false, r.reasons, DeniedBy(r.reasons))
  }

  function Evaluate(policies: seq<Policy>, q: Query, rejects: char -> bool): Decision {
    var ambiguity := if q.target.Endpoint? then EndpointPath.AmbiguityOf(Encode(q.target.path)) else None;
    if ambiguity.Some? then Decision(false, {}, AmbiguousPath(ambiguity.value))
    else match Build(q, rejects)
         case None => Decision(false, {}, CouldNotBuild)
         case Some(request) => FromResponse(Authorize(policies, request))
  }

  lemma NoneSatisfied(policies: seq<Policy>, effect: Effect, s: Request)
    ensures IdsWhere(policies, effect, s) == {} <==>
            forall p :: p in policies && p.effect == effect ==> Satisfied(p, s) != Ok(true)
  {
    var ids := IdsWhere(policies, effect, s);
    if ids == {} {
      forall p | p in policies && p.effect == effect
        ensures Satisfied(p, s) != Ok(true)
      {
        assert p.id !in ids;
      }
    } else {
      var id :| id in ids;
    }
  }

  lemma NoneErrs(policies: seq<Policy>, s: Request)
    ensures ErrorIds(policies, s) == {} <==> forall p :: p in policies ==> Satisfied(p, s).Ok?
  {
    var ids := ErrorIds(policies, s);
    if ids == {} {
      forall p | p in policies
        ensures Satisfied(p, s).Ok?
      {
        assert p.id !in ids;
      }
    } else {
      var id :| id in ids;
    }
  }

  /** What an allow takes, from any set of policies: an unambiguous path, ids that can be written, a
      permit that is satisfied, no forbid that is, and not one policy that could not be evaluated. */
  lemma AllowMeans(policies: seq<Policy>, q: Query, rejects: char -> bool)
    ensures Evaluate(policies, q, rejects).allow <==>
            (q.target.Endpoint? ==> EndpointPath.AmbiguityOf(Encode(q.target.path)).None?) &&
            IdsWritable(q, rejects) &&
            (exists p :: p in policies && p.effect == Permit && Satisfied(p, SliceOf(q)) == Ok(true)) &&
            (forall p :: p in policies && p.effect == Forbid ==> Satisfied(p, SliceOf(q)) != Ok(true)) &&
            (forall p :: p in policies ==> Satisfied(p, SliceOf(q)).Ok?)
  {
    BuildExactly(q, rejects);
    NoneSatisfied(policies, Permit, SliceOf(q));
    NoneSatisfied(policies, Forbid, SliceOf(q));
    NoneErrs(policies, SliceOf(q));
  }

  /** What an answer records, in every case: the cause of an ambiguous path; that no request could be built;
      the policies in error; or the ids of the satisfied forbids, of the satisfied permits when there is no
      such forbid, or that there is neither. */
  lemma RecordedMeans(policies: seq<Policy>, q: Query, rejects: char -> bool)
    ensures var d := Evaluate(policies, q, rejects);
            var cause := EndpointPath.AmbiguityOf(Encode(if q.target.Endpoint? then q.target.path else ""));
            var s := SliceOf(q);
            if q.target.Endpoint? && cause.Some? then d == Decision(false, {}, AmbiguousPath(cause.value))
            else if !IdsWritable(q, rejects) then d == Decision(false, {}, CouldNotBuild)
            else
              var forbids := set p | p in policies && p.effect == Forbid && Satisfied(p, s) == Ok(true) :: p.id;
              var permits := set p | p in policies && p.effect == Permit && Satisfied(p, s) == Ok(true) :: p.id;
              var errors := set p | p in policies && Satisfied(p, s).Err? :: p.id;
              var matched := if forbids != {} then forbids else permits;
              d.matched == matched &&
              d.allow == (errors == {} && forbids == {} && permits != {}) &&
              d.reason ==
                if errors != {} then EvaluationErrors(errors)
                else if forbids != {} then DeniedBy(forbids)
                else if permits != {} then PermittedBy(permits)
                else NothingPermitted
  {
    BuildExactly(q, rejects);
  }

  /** An endpoint request that any set of policies allows has a path that every origin resolves to what
      it spells, however often it decodes, folding backslashes and stripping parameters or not. */
  lemma AllowedPathIsUnambiguous(policies: seq<Policy>, q: Query, rejects: char -> bool, k: nat,
                                 fold: bool, strip: bool)
    requires q.target.Endpoint? && Evaluate(policies, q, rejects).allow
    requires EndpointPath.Decoded(RoutingPart(q.target.path), k).Some?
    ensures var seen := UriPath.View(EndpointPath.Decoded(RoutingPart(q.target.path), k).value, fold, strip);
            UriPath.RemoveDotSegments(seen) == seen
  {
    EncodeDecodes(q.target.path);
    UriPath.LetThroughMeansUnambiguous(Encode(q.target.path), k, fold, strip);
  }

  function RoutingPart(path: string): Bytes {
    Splitting.Before(Encode(path), EndpointPath.QUESTION)
  }
}
