/** As much of the Cedar language as the lint and the shipped policies need: values, expressions and
    their evaluation, policies, and the authorization decision. */
module Cedar {
  import opened Wrappers
  import opened Patterns

  datatype EntityUid = EntityUid(kind: string, id: string)

  datatype Value =
    | Bool(b: bool)
    | Long(n: int)
    | Text(s: string)
    | Entity(uid: EntityUid)
    | SetOf(elements: set<Value>)
    | RecordOf(fields: map<string, Value>)

  datatype Constant = BoolConst(b: bool) | LongConst(n: int) | TextConst(s: string) | EntityConst(uid: EntityUid)

  datatype Variable = Principal | Action | Resource | Context

  datatype Operator = Equal | NotEqual | In | Less | LessEqual | Contains | ContainsAll | ContainsAny

  datatype Expr =
    | Constant(value: Constant)
    | Variable(name: Variable)
    | Attribute(base: Expr, attr: string)
    | Has(base: Expr, attr: string)
    | Like(text: Expr, pattern: Pattern)
    | Not(arg: Expr)
    | And(left: Expr, right: Expr)
    | Or(left: Expr, right: Expr)
    | Binary(op: Operator, left: Expr, right: Expr)
    | IfThenElse(cond: Expr, yes: Expr, no: Expr)
    | SetExpr(items: seq<Expr>)
    | RecordExpr(entries: seq<Entry>)

  datatype Entry = Entry(key: string, value: Expr)

  datatype EvalError = WrongType | NoAttribute(attr: string) | NoEntity(uid: EntityUid)

  type Outcome = Result<Value, EvalError>

  datatype EntityData = EntityData(attrs: map<string, Value>, parents: set<EntityUid>)

  datatype Request = Request(
    principal: EntityUid,
    action: EntityUid,
    resource: EntityUid,
    context: map<string, Value>,
    entities: map<EntityUid, EntityData>)

  // ---------------------------------------------------------------------------
  // Evaluation
  // ---------------------------------------------------------------------------

  function ConstantValue(c: Constant): Value {
    match c
    case BoolConst(b) => Bool(b)
    case LongConst(n) => Long(n)
    case TextConst(s) => Text(s)
    case EntityConst(uid) => Entity(uid)
  }

  function VariableValue(v: Variable, q: Request): Value {
    match v
    case Principal => Entity(q.principal)
    case Action => Entity(q.action)
    case Resource => Entity(q.resource)
    case Context => RecordOf(q.context)
  }

  function AttributeOf(v: Value, attr: string, q: Request): Outcome {
    match v
    case Entity(uid) =>
      if uid !in q.entities then Err(NoEntity(uid))
      else if attr !in q.entities[uid].attrs then Err(NoAttribute(attr))
      else Ok(q.entities[uid].attrs[attr])
    case RecordOf(fields) => if attr in fields then Ok(fields[attr]) else Err(NoAttribute(attr))
    case _ => Err(WrongType)
  }

  function HasAttribute(v: Value, attr: string, q: Request): Outcome {
    match v
    case Entity(uid) => Ok(Bool(uid in q.entities && attr in q.entities[uid].attrs))
    case RecordOf(fields) => Ok(Bool(attr in fields))
    case _ => Err(WrongType)
  }

  function LikeOf(v: Value, pattern: Pattern): Outcome {
    if v.Text? then Ok(Bool(Matches(pattern, v.s))) else Err(WrongType)
  }

  /** `a` is `b` or has it among its ancestors, at most `depth` steps up. */
  predicate Reaches(entities: map<EntityUid, EntityData>, a: EntityUid, b: EntityUid, depth: nat)
    decreases depth
  {
    a == b ||
    (depth > 0 && a in entities && exists p :: p in entities[a].parents && Reaches(entities, p, b, depth - 1))
  }

  predicate IsIn(q: Request, a: EntityUid, b: EntityUid) {
    Reaches(q.entities, a, b, |q.entities|)
  }

  function InOf(l: Value, r: Value, q: Request): Outcome {
    match (l, r)
    case (Entity(a), Entity(b)) => Ok(Bool(IsIn(q, a, b)))
    case (Entity(a), SetOf(elements)) =>
      if exists v :: v in elements && !v.Entity? then Err(WrongType)
      else Ok(Bool(exists v :: v in elements && v.Entity? && IsIn(q, a, v.uid)))
    case _ => Err(WrongType)
  }

  function BinaryOf(op: Operator, l: Value, r: Value, q: Request): Outcome {
    match op
    case Equal => Ok(Bool(l == r))
    case NotEqual => Ok(Bool(l != r))
    case In => InOf(l, r, q)
    case Less => if l.Long? && r.Long? then Ok(Bool(l.n < r.n)) else Err(WrongType)
    case LessEqual => if l.Long? && r.Long? then Ok(Bool(l.n <= r.n)) else Err(WrongType)
    case Contains => if l.SetOf? then Ok(Bool(r in l.elements)) else Err(WrongType)
    case ContainsAll => if l.SetOf? && r.SetOf? then Ok(Bool(r.elements <= l.elements)) else Err(WrongType)
    case ContainsAny => if l.SetOf? && r.SetOf? then Ok(Bool(l.elements * r.elements != {})) else Err(WrongType)
  }

  /** A Boolean is wanted; anything else is a type error. */
  function AsBool(r: Outcome): Outcome {
    if r.Ok? && !r.value.Bool? then Err(WrongType) else r
  }

  function Eval(e: Expr, q: Request): Outcome {
    match e
    case Constant(c) => Ok(ConstantValue(c))
    case Variable(v) => Ok(VariableValue(v, q))
    case Attribute(base, attr) =>
      (match Eval(base, q) case Ok(v) => AttributeOf(v, attr, q) case Err(error) => Err(error))
    case Has(base, attr) =>
      (match Eval(base, q) case Ok(v) => HasAttribute(v, attr, q) case Err(error) => Err(error))
    case Like(text, pattern) =>
      (match Eval(text, q) case Ok(v) => LikeOf(v, pattern) case Err(error) => Err(error))
    case Not(arg) =>
      (match AsBool(Eval(arg, q)) case Ok(v) => Ok(Bool(!v.b)) case Err(error) => Err(error))
    case And(left, right) =>
      (match AsBool(Eval(left, q))
       case Ok(v) => if v.b then AsBool(Eval(right, q)) else Ok(Bool(false))
       case Err(error) => Err(error))
    case Or(left, right) =>
      (match AsBool(Eval(left, q))
       case Ok(v) => if v.b then Ok(Bool(true)) else AsBool(Eval(right, q))
       case Err(error) => Err(error))
    case Binary(op, left, right) =>
      (match Eval(left, q)
       case Ok(l) => (match Eval(right, q) case Ok(r) => BinaryOf(op, l, r, q) case Err(error) => Err(error))
       case Err(error) => Err(error))
    case IfThenElse(cond, yes, no) =>
      (match AsBool(Eval(cond, q))
       case Ok(v) => if v.b then Eval(yes, q) else Eval(no, q)
       case Err(error) => Err(error))
    case SetExpr(items) =>
      (match EvalItems(items, q)
       case Ok(values) => Ok(SetOf(set v | v in values))
       case Err(error) => Err(error))
    case RecordExpr(entries) =>
      (match EvalEntries(entries, q)
       case Ok(fields) => Ok(RecordOf(fields))
       case Err(error) => Err(error))
  }

  function EvalItems(items: seq<Expr>, q: Request): Result<seq<Value>, EvalError> {
    if items == [] then Ok([])
    else match Eval(items[0], q)
         case Ok(v) =>
           (match EvalItems(items[1..], q) case Ok(rest) => Ok([v] + rest) case Err(error) => Err(error))
         case Err(error) => Err(error)
  }

  function EvalEntries(entries: seq<Entry>, q: Request): Result<map<string, Value>, EvalError> {
    if entries == [] then Ok(map[])
    else match Eval(entries[0].value, q)
         case Ok(v) =>
           (match EvalEntries(entries[1..], q)
            case Ok(rest) => Ok(map[entries[0].key := v] + rest)
            case Err(error) => Err(error))
         case Err(error) => Err(error)
  }

  // ---------------------------------------------------------------------------
  // Policies and the decision
  // ---------------------------------------------------------------------------

  datatype Effect = Permit | Forbid

  datatype Condition = When(body: Expr) | Unless(body: Expr)

  /** What a policy's head asks of one of the three uids of a request. */
  datatype Scope =
    | Anything
    | Exactly(uid: EntityUid)
    | Within(uid: EntityUid)
    | WithinAny(uids: seq<EntityUid>)
    | OfKind(kind: string)
    | OfKindWithin(kind: string, uid: EntityUid)

  predicate Covers(scope: Scope, a: EntityUid, q: Request) {
    match scope
    case Anything => true
    case Exactly(uid) => a == uid
    case Within(uid) => IsIn(q, a, uid)
    case WithinAny(uids) => exists i :: 0 <= i < |uids| && IsIn(q, a, uids[i])
    case OfKind(kind) => a.kind == kind
    case OfKindWithin(kind, uid) => a.kind == kind && IsIn(q, a, uid)
  }

  datatype Annotation = Annotation(key: string, value: string)

  /** A policy: its annotations, its head, and the conditions behind it. */
  datatype Policy = Policy(
    id: string,
    annotations: seq<Annotation>,
    effect: Effect,
    principal: Scope,
    action: Scope,
    resource: Scope,
    conditions: seq<Condition>)

  predicate InScope(p: Policy, q: Request) {
    Covers(p.principal, q.principal, q) && Covers(p.action, q.action, q) && Covers(p.resource, q.resource, q)
  }

  /** The conditions hold, in order; the first one that fails or errs settles it. */
  function HoldsAll(conditions: seq<Condition>, q: Request): Result<bool, EvalError> {
    if conditions == [] then Ok(true)
    else match AsBool(Eval(conditions[0].body, q))
         case Ok(v) => if v.b == conditions[0].When? then HoldsAll(conditions[1..], q) else Ok(false)
         case Err(error) => Err(error)
  }

  function Satisfied(p: Policy, q: Request): Result<bool, EvalError> {
    if InScope(p, q) then HoldsAll(p.conditions, q) else Ok(false)
  }

  /** What the authorizer answers: the decision, the policies that determined it, and the policies
      that could not be evaluated. */
  datatype Response = Response(allow: bool, reasons: set<string>, errors: set<string>)

  function IdsWhere(policies: seq<Policy>, effect: Effect, q: Request): set<string> {
    set p | p in policies && p.effect == effect && Satisfied(p, q) == Ok(true) :: p.id
  }

  function ErrorIds(policies: seq<Policy>, q: Request): set<string> {
    set p | p in policies && Satisfied(p, q).Err? :: p.id
  }

  /** A satisfied `forbid` denies; otherwise a satisfied `permit` allows; otherwise deny. A policy that
      errs counts as not satisfied. */
  function Authorize(policies: seq<Policy>, q: Request): Response {
    var forbids, permits := IdsWhere(policies, Forbid, q), IdsWhere(policies, Permit, q);
    Response(
      forbids == {} && permits != {},
      if forbids != {} then forbids else permits,
      ErrorIds(policies, q))
  }
}
