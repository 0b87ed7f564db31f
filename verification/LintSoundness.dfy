/** What a lint count of zero should promise: apart from what its pinning tests ask, a policy cannot tell
    one joined tail from another. The count of a walk that goes on below a read keeps the promise; that of
    the walk that stops there excludes no test at all. */
module LintSoundness {
  import opened Wrappers
  import opened Patterns
  import opened Cedar
  import opened Lint

  // ---------------------------------------------------------------------------
  // Requests that differ in the tail only
  // ---------------------------------------------------------------------------

  /** The resource has a joined tail. */
  predicate HasTail(q: Request) {
    q.resource in q.entities && TAIL in q.entities[q.resource].attrs && q.entities[q.resource].attrs[TAIL].Text?
  }

  function TailOf(q: Request): string
    requires HasTail(q)
  {
    q.entities[q.resource].attrs[TAIL].s
  }

  function WithTail(q: Request, tail: string): Request
    requires HasTail(q)
  {
    var data := q.entities[q.resource];
    q.(entities := q.entities[q.resource := data.(attrs := data.attrs[TAIL := Text(tail)])])
  }

  // ---------------------------------------------------------------------------
  // Tails that answer every pinning test alike
  // ---------------------------------------------------------------------------

  /** An `==` test against this side answers alike for both tails, when the side does not itself give
      back the tail. */
  ghost predicate SameAgainst(side: Expr, q: Request, tail: string)
    requires HasTail(q)
  {
    forall v :: Eval(side, q) == Ok(v) && Eval(side, WithTail(q, tail)) == Ok(v) ==>
      (Text(TailOf(q)) == v <==> Text(tail) == v)
  }

  /** The request's own tail and the other one answer every pinning `like` and `==` alike. */
  ghost predicate Agree(e: Expr, q: Request, tail: string)
    requires HasTail(q)
  {
    match e
    case Constant(_) => true
    case Variable(_) => true
    case Attribute(base, _) => Agree(base, q, tail)
    case Has(base, _) => Agree(base, q, tail)
    case Like(text, pattern) =>
      Agree(text, q, tail) &&
      (IsTailRead(text) && PinsAToken(pattern) ==> (Matches(pattern, TailOf(q)) <==> Matches(pattern, tail)))
    case Not(arg) => Agree(arg, q, tail)
    case And(left, right) => Agree(left, q, tail) && Agree(right, q, tail)
    case Or(left, right) => Agree(left, q, tail) && Agree(right, q, tail)
    case Binary(op, left, right) =>
      Agree(left, q, tail) && Agree(right, q, tail) &&
      (op == Equal && (IsTailRead(left) || IsTailRead(right)) ==>
         SameAgainst(left, q, tail) && SameAgainst(right, q, tail))
    case IfThenElse(cond, yes, no) => Agree(cond, q, tail) && Agree(yes, q, tail) && Agree(no, q, tail)
    case SetExpr(items) => forall i :: 0 <= i < |items| ==> Agree(items[i], q, tail)
    case RecordExpr(entries) => forall i :: 0 <= i < |entries| ==> Agree(entries[i].value, q, tail)
  }

  // ---------------------------------------------------------------------------
  // Non-interference
  // ---------------------------------------------------------------------------

  lemma {:induction false} SameReach(q: Request, tail: string, a: EntityUid, b: EntityUid, depth: nat)
    requires HasTail(q)
    ensures Reaches(WithTail(q, tail).entities, a, b, depth) <==> Reaches(q.entities, a, b, depth)
    decreases depth
  {
    if depth > 0 && a in q.entities {
      assert WithTail(q, tail).entities[a].parents == q.entities[a].parents;
      forall p | p in q.entities[a].parents
        ensures Reaches(WithTail(q, tail).entities, p, b, depth - 1) <==> Reaches(q.entities, p, b, depth - 1)
      {
        SameReach(q, tail, p, b, depth - 1);
      }
    }
  }

  lemma SameIsIn(q: Request, tail: string, a: EntityUid, b: EntityUid)
    requires HasTail(q)
    ensures IsIn(WithTail(q, tail), a, b) <==> IsIn(q, a, b)
  {
    assert WithTail(q, tail).entities.Keys == q.entities.Keys;
    assert |WithTail(q, tail).entities.Keys| == |q.entities.Keys|;
    SameReach(q, tail, a, b, |q.entities|);
  }

  lemma SameBinary(op: Operator, l: Value, r: Value, q: Request, tail: string)
    requires HasTail(q)
    ensures BinaryOf(op, l, r, WithTail(q, tail)) == BinaryOf(op, l, r, q)
  {
    if op == In && l.Entity? {
      forall v: EntityUid
        ensures IsIn(WithTail(q, tail), l.uid, v) <==> IsIn(q, l.uid, v)
      {
        SameIsIn(q, tail, l.uid, v);
      }
    }
  }

  /** What a read of the attribute gives in both requests: the same, or each its own tail. */
  lemma TailReadTwice(e: Expr, q: Request, tail: string)
    requires HasTail(q) && IsTailRead(e)
    requires Eval(e.base, WithTail(q, tail)) == Eval(e.base, q)
    ensures Eval(e, WithTail(q, tail)) == Eval(e, q) ||
            (Eval(e, q) == Ok(Text(TailOf(q))) && Eval(e, WithTail(q, tail)) == Ok(Text(tail)))
  {
  }

  /** An operand of an `==` test: evaluated alike, or the tail itself. */
  ghost predicate AlikeOrTail(e: Expr, q: Request, tail: string)
    requires HasTail(q)
  {
    Eval(e, WithTail(q, tail)) == Eval(e, q) ||
    (Eval(e, q) == Ok(Text(TailOf(q))) && Eval(e, WithTail(q, tail)) == Ok(Text(tail)))
  }

  lemma SameEquality(e: Expr, q: Request, tail: string)
    requires HasTail(q) && e.Binary? && e.op == Equal
    requires AlikeOrTail(e.left, q, tail) && AlikeOrTail(e.right, q, tail)
    requires SameAgainst(e.left, q, tail) && SameAgainst(e.right, q, tail)
    ensures Eval(e, WithTail(q, tail)) == Eval(e, q)
  {
    if Eval(e.left, q).Ok? && Eval(e.right, q).Ok? {
      var l, r := Eval(e.left, q).value, Eval(e.right, q).value;
      assert Eval(e.left, WithTail(q, tail)) == Ok(l) || Eval(e.left, WithTail(q, tail)) == Ok(Text(tail));
      assert Eval(e.right, WithTail(q, tail)) == Ok(r) || Eval(e.right, WithTail(q, tail)) == Ok(Text(tail));
    }
  }

  /** With no unpinned read, counted down into what is read from, an expression evaluates to the same value
      or the same error for any two tails that answer its pinning tests alike. */
  lemma {:induction false} NonInterference(e: Expr, q: Request, tail: string)
    requires HasTail(q) && Unpinned(e, true) == 0 && Agree(e, q, tail)
    ensures Eval(e, WithTail(q, tail)) == Eval(e, q)
    decreases e, 0
  {
    match e {
      case Constant(_) =>
      case Variable(_) =>
      case Attribute(base, _) => NonInterference(base, q, tail);
      case Has(base, _) => NonInterference(base, q, tail);
      case Like(text, _) =>
        if IsTailRead(text) {
          NonInterference(text.base, q, tail);
          TailReadTwice(text, q, tail);
        } else {
          NonInterference(text, q, tail);
        }
      case Not(arg) => NonInterference(arg, q, tail);
      case And(left, right) =>
        NonInterference(left, q, tail);
        NonInterference(right, q, tail);
      case Or(left, right) =>
        NonInterference(left, q, tail);
        NonInterference(right, q, tail);
      case Binary(op, left, right) =>
        if op == Equal && (IsTailRead(left) || IsTailRead(right)) {
          Operand(left, q, tail);
          Operand(right, q, tail);
          SameEquality(e, q, tail);
        } else {
          NonInterference(left, q, tail);
          NonInterference(right, q, tail);
          if Eval(left, q).Ok? && Eval(right, q).Ok? {
            SameBinary(op, Eval(left, q).value, Eval(right, q).value, q, tail);
          }
        }
      case IfThenElse(cond, yes, no) =>
        NonInterference(cond, q, tail);
        NonInterference(yes, q, tail);
        NonInterference(no, q, tail);
      case SetExpr(items) => ItemsDoNotInterfere(items, q, tail);
      case RecordExpr(entries) => EntriesDoNotInterfere(entries, q, tail);
    }
  }

  lemma {:induction false} Operand(e: Expr, q: Request, tail: string)
    requires HasTail(q) && Agree(e, q, tail) && UnpinnedSide(e, true) == 0
    ensures AlikeOrTail(e, q, tail)
    decreases e, 1
  {
    if IsTailRead(e) {
      NonInterference(e.base, q, tail);
      TailReadTwice(e, q, tail);
    } else {
      NonInterference(e, q, tail);
    }
  }

  lemma {:induction false} ItemsDoNotInterfere(items: seq<Expr>, q: Request, tail: string)
    requires HasTail(q) && UnpinnedItems(items, true) == 0
    requires forall i :: 0 <= i < |items| ==> Agree(items[i], q, tail)
    ensures EvalItems(items, WithTail(q, tail)) == EvalItems(items, q)
  {
    if items != [] {
      NonInterference(items[0], q, tail);
      ItemsDoNotInterfere(items[1..], q, tail);
    }
  }

  lemma {:induction false} EntriesDoNotInterfere(entries: seq<Entry>, q: Request, tail: string)
    requires HasTail(q) && UnpinnedEntries(entries, true) == 0
    requires forall i :: 0 <= i < |entries| ==> Agree(entries[i].value, q, tail)
    ensures EvalEntries(entries, WithTail(q, tail)) == EvalEntries(entries, q)
  {
    if entries != [] {
      NonInterference(entries[0].value, q, tail);
      EntriesDoNotInterfere(entries[1..], q, tail);
    }
  }

  // ---------------------------------------------------------------------------
  // The shape that escapes the walk
  // ---------------------------------------------------------------------------

  function Choice(test: Expr): Expr {
    IfThenElse(test, Constant(TextConst("a")), Constant(TextConst("b")))
  }

  function Wrapping(test: Expr): Expr {
    RecordExpr([Entry(TAIL, Choice(test))])
  }

  /** `{argv_tail: if <test> then "a" else "b"}.argv_tail == "a"`: an equality test on a record's own
      field of that name, with any test at all inside the record. */
  function Wrapped(test: Expr): Expr {
    Binary(Equal, Attribute(Wrapping(test), TAIL), Constant(TextConst("a")))
  }

  lemma OneEntry(e: Expr, deep: bool)
    ensures UnpinnedEntries([Entry(TAIL, e)], deep) == Unpinned(e, deep)
  {
    var entries := [Entry(TAIL, e)];
    assert entries[1..] == [] && entries[0].value == e;
    assert UnpinnedEntries(entries[1..], deep) == 0;
  }

  lemma OneEntryEval(e: Expr, q: Request)
    ensures EvalEntries([Entry(TAIL, e)], q) ==
            match Eval(e, q) case Ok(v) => Ok(map[TAIL := v]) case Err(error) => Err(error)
  {
    var entries := [Entry(TAIL, e)];
    assert entries[1..] == [] && entries[0].value == e && EvalEntries(entries[1..], q) == Ok(map[]);
    if Eval(e, q).Ok? {
      assert map[TAIL := Eval(e, q).value] + map[] == map[TAIL := Eval(e, q).value];
    }
  }

  lemma ChoiceShape(test: Expr, e: Expr, deep: bool)
    requires e.IfThenElse? && e.cond == test && e.yes.Constant? && e.no.Constant?
    ensures Unpinned(e, deep) == Unpinned(test, deep)
  {
    assert Unpinned(e.yes, deep) == 0 && Unpinned(e.no, deep) == 0;
  }

  lemma WrappedShape(test: Expr)
    ensures Unpinned(Wrapped(test), false) == 0 && Unpinned(Wrapped(test), true) == Unpinned(test, true)
  {
    var read := Attribute(Wrapping(test), TAIL);
    ChoiceShape(test, Choice(test), true);
    OneEntry(Choice(test), true);
    assert UnpinnedBelow(read, false) == 0 && UnpinnedBelow(read, true) == Unpinned(test, true);
    assert Unpinned(Constant(TextConst("a")), true) == 0 && Unpinned(Constant(TextConst("a")), false) == 0;
    assert forall deep :: UnpinnedSide(read, deep) == UnpinnedBelow(read, deep);
  }

  /** What the choice gives for each answer of the test. */
  function Chosen(r: Outcome): Outcome {
    if r.Err? then r else if r.value == Bool(true) then Ok(Text("a")) else Ok(Text("b"))
  }

  lemma ChoiceEval(test: Expr, yes: Expr, no: Expr, q: Request)
    requires Eval(yes, q) == Ok(Text("a")) && Eval(no, q) == Ok(Text("b"))
    ensures Eval(IfThenElse(test, yes, no), q) == Chosen(AsBool(Eval(test, q)))
  {
  }

  lemma ReadBack(e: Expr, q: Request)
    ensures Eval(Attribute(RecordExpr([Entry(TAIL, e)]), TAIL), q) == Eval(e, q)
  {
    OneEntryEval(e, q);
  }

  lemma EqualsA(e: Expr, q: Request, r: Outcome)
    requires Eval(e, q) == Chosen(AsBool(r))
    ensures Eval(Binary(Equal, e, Constant(TextConst("a"))), q) == AsBool(r)
  {
    assert "a"[0] == 'a' && "b"[0] == 'b';
    assert Eval(Constant(TextConst("a")), q) == Ok(Text("a"));
  }

  lemma WrappedEval(test: Expr, q: Request)
    ensures var r := AsBool(Eval(test, q));
            Eval(Attribute(Wrapping(test), TAIL), q) == Chosen(r) && Eval(Wrapped(test), q) == r
  {
    ChoiceEval(test, Constant(TextConst("a")), Constant(TextConst("b")), q);
    ReadBack(Choice(test), q);
    EqualsA(Attribute(Wrapping(test), TAIL), q, Eval(test, q));
  }

  lemma WrappedAgrees(test: Expr, q: Request, tail: string)
    requires HasTail(q) && TailOf(q) !in {"a", "b"} && tail !in {"a", "b"}
    ensures Agree(Wrapped(test), q, tail) <==> Agree(test, q, tail)
  {
    var read := Attribute(Wrapping(test), TAIL);
    var entries := [Entry(TAIL, Choice(test))];
    WrappedEval(test, q);
    assert SameAgainst(read, q, tail) && SameAgainst(Constant(TextConst("a")), q, tail);
    assert Agree(Choice(test), q, tail) <==> Agree(test, q, tail);
    assert entries[0].value == Choice(test) && |entries| == 1;
    assert Agree(Wrapping(test), q, tail) <==> Agree(Choice(test), q, tail);
  }

  /** Whatever a test asks, its wrapped form asks the same and gives the walk nothing to count; its pinning
      tests are the test's own, and a walk that goes on below them counts in both the same. So a count of
      zero excludes no test at all. */
  lemma AnyTestCanHide(test: Expr, q: Request, tail: string)
    requires HasTail(q) && TailOf(q) !in {"a", "b"} && tail !in {"a", "b"}
    ensures Walk(Est(Wrapped(test)), false) == 0 && Walk(Est(Wrapped(test)), true) == Walk(Est(test), true)
    ensures Eval(Wrapped(test), q) == AsBool(Eval(test, q))
    ensures Agree(Wrapped(test), q, tail) <==> Agree(test, q, tail)
  {
    WalkCountsUnpinned(Wrapped(test), false);
    WalkCountsUnpinned(Wrapped(test), true);
    WalkCountsUnpinned(test, true);
    WrappedShape(test);
    WrappedEval(test, q);
    WrappedAgrees(test, q, tail);
  }

  const ENDS_IN_X: Pattern := [Wildcard, Literal('x')]

  /** `resource.argv_tail like "*x"`: an unanchored glob. */
  const GLOB: Expr := Like(Attribute(Variable(Resource), TAIL), ENDS_IN_X)

  lemma EndsInX()
    ensures Matches(ENDS_IN_X, "cx") && !Matches(ENDS_IN_X, "cy")
  {
    assert ENDS_IN_X[1..] == [Literal('x')] && [Literal('x')][1..] == [];
    assert "cx"[1..] == "x" && "cy"[1..] == "y" && "x"[1..] == "" && "y"[1..] == "";
    assert Matches([Literal('x')], "x") && !Matches([Literal('x')], "y");
    assert !Matches([Literal('x')], "") && !Matches([Literal('x')], "cy");
    assert Matches(ENDS_IN_X, "x") && !Matches(ENDS_IN_X, "") && !Matches(ENDS_IN_X, "y");
  }

  lemma GlobEval(q: Request)
    requires HasTail(q)
    ensures Eval(GLOB, q) == Ok(Bool(Matches(ENDS_IN_X, TailOf(q))))
  {
    assert Eval(Variable(Resource), q) == Ok(Entity(q.resource));
    assert Eval(Attribute(Variable(Resource), TAIL), q) == Ok(Text(TailOf(q)));
  }

  /** The walk finds nothing unpinned in the wrapped glob, two tails answer its pinning tests alike, and
      it tells them apart all the same. */
  lemma HiddenReadsInterfere(q: Request)
    requires HasTail(q) && TailOf(q) == "cx"
    ensures Walk(Est(Wrapped(GLOB)), false) == 0 && Walk(Est(Wrapped(GLOB)), true) == 1 && Agree(Wrapped(GLOB), q, "cy")
    ensures Eval(Wrapped(GLOB), q) == Ok(Bool(true)) && Eval(Wrapped(GLOB), WithTail(q, "cy")) == Ok(Bool(false))
  {
    assert FirstWildcard(ENDS_IN_X) == 0 && !PinsAToken(ENDS_IN_X);
    assert Unpinned(Variable(Resource), true) == 0 && Unpinned(GLOB, true) == 1;
    assert Agree(GLOB.text, q, "cy") && Agree(GLOB, q, "cy");
    EndsInX();
    GlobEval(q);
    GlobEval(WithTail(q, "cy"));
    AnyTestCanHide(GLOB, q, "cy");
    WalkCountsUnpinned(GLOB, true);
    WrappedEval(GLOB, WithTail(q, "cy"));
  }

  // ---------------------------------------------------------------------------
  // Whole policies
  // ---------------------------------------------------------------------------

  function UidJson(uid: EntityUid): Json {
    JObject([Field("type", JString(uid.kind)), Field("id", JString(uid.id))])
  }

  function UidsJson(uids: seq<EntityUid>): seq<Json> {
    if uids == [] then [] else [UidJson(uids[0])] + UidsJson(uids[1..])
  }

  function ScopeJson(scope: Scope): Json {
    match scope
    case Anything => Obj("op", JString("All"))
    case Exactly(uid) => JObject([Field("op", JString("==")), Field("entity", UidJson(uid))])
    case Within(uid) => JObject([Field("op", JString("in")), Field("entity", UidJson(uid))])
    case WithinAny(uids) => JObject([Field("op", JString("in")), Field("entities", JArray(UidsJson(uids)))])
    case OfKind(kind) => JObject([Field("op", JString("is")), Field("entity_type", JString(kind))])
    case OfKindWithin(kind, uid) =>
      JObject([Field("op", JString("is"))] +
              [Field("entity_type", JString(kind)), Field("in", Obj("entity", UidJson(uid)))])
  }

  function AnnotationFields(annotations: seq<Annotation>): seq<Field> {
    if annotations == [] then []
    else [Field(annotations[0].key, JString(annotations[0].value))] + AnnotationFields(annotations[1..])
  }

  function ConditionJson(c: Condition): Json {
    JObject([Field("kind", JString(if c.When? then "when" else "unless")), Field("body", Est(c.body))])
  }

  function ConditionsJson(conditions: seq<Condition>): seq<Json> {
    if conditions == [] then [] else [ConditionJson(conditions[0])] + ConditionsJson(conditions[1..])
  }

  function AnnotationsField(p: Policy): seq<Field> {
    if p.annotations == [] then [] else [Field("annotations", JObject(AnnotationFields(p.annotations)))]
  }

  function BehindTheHead(p: Policy): seq<Field> {
    [Field("conditions", JArray(ConditionsJson(p.conditions)))] + AnnotationsField(p)
  }

  function PolicyJson(p: Policy): Json {
    JObject([Field("effect", JString(if p.effect.Permit? then "permit" else "forbid"))] +
            ([Field("principal", ScopeJson(p.principal))] +
             ([Field("action", ScopeJson(p.action))] +
              ([Field("resource", ScopeJson(p.resource))] +
               BehindTheHead(p)))))
  }

  function UnpinnedIn(conditions: seq<Condition>, deep: bool): nat {
    if conditions == [] then 0 else Unpinned(conditions[0].body, deep) + UnpinnedIn(conditions[1..], deep)
  }

  /** The lint has something to say about the policy's argument matching; with `deep`, the lint whose walk
      goes on into what is read from. */
  predicate IsFlagged(p: Policy, deep: bool) {
    p.effect == Permit && Walk(PolicyJson(p), deep) > 0
  }

  lemma UidHoldsNoReads(uid: EntityUid, deep: bool)
    ensures Walk(UidJson(uid), deep) == 0
  {
    WalkTwo("type", JString(uid.kind), "id", JString(uid.id), deep);
  }

  lemma {:induction false} UidsHoldNoReads(uids: seq<EntityUid>, deep: bool)
    ensures WalkItems(UidsJson(uids), deep) == 0
  {
    if uids != [] {
      UidHoldsNoReads(uids[0], deep);
      UidsHoldNoReads(uids[1..], deep);
      assert UidsJson(uids)[1..] == UidsJson(uids[1..]);
    }
  }

  lemma ScopeHoldsNoReads(scope: Scope, deep: bool)
    ensures Walk(ScopeJson(scope), deep) == 0
  {
    match scope {
      case Anything => OrdinaryKey("op", JString("All"), deep);
      case Exactly(uid) =>
        UidHoldsNoReads(uid, deep);
        WalkTwo("op", JString("=="), "entity", UidJson(uid), deep);
      case Within(uid) =>
        UidHoldsNoReads(uid, deep);
        WalkTwo("op", JString("in"), "entity", UidJson(uid), deep);
      case WithinAny(uids) =>
        UidsHoldNoReads(uids, deep);
        WalkTwo("op", JString("in"), "entities", JArray(UidsJson(uids)), deep);
      case OfKind(kind) => WalkTwo("op", JString("is"), "entity_type", JString(kind), deep);
      case OfKindWithin(kind, uid) =>
        UidHoldsNoReads(uid, deep);
        OrdinaryKey("entity", UidJson(uid), deep);
        ThreeFields("op", JString("is"), "entity_type", JString(kind), "in", Obj("entity", UidJson(uid)), deep);
    }
  }

  /** Annotations are texts, and no text is taken for an operand: whatever they are called, even like an
      operator, the walk finds nothing in them. */
  lemma AnnotationsHoldNoReads(annotations: seq<Annotation>, deep: bool)
    ensures Walk(JObject(AnnotationFields(annotations)), deep) == 0
  {
    var fields := AnnotationFields(annotations);
    TextsOnly(annotations, "like", deep);
    TextsOnly(annotations, "==", deep);
    TextsOnly(annotations, ".", deep);
    var node := JObject(fields);
    assert !IsTailLike(node) && !IsArgvTail(node);
    assert !IsTailEquality(node);
  }

  lemma {:induction false} TextsOnly(annotations: seq<Annotation>, key: string, deep: bool)
    ensures var found := Find(AnnotationFields(annotations), key); found.None? || found.value.JString?
    ensures WalkFields(AnnotationFields(annotations), deep) == 0
  {
    if annotations != [] {
      TextsOnly(annotations[1..], key, deep);
      assert AnnotationFields(annotations)[1..] == AnnotationFields(annotations[1..]);
    }
  }

  lemma {:induction false} ConditionsHold(conditions: seq<Condition>, deep: bool)
    ensures WalkItems(ConditionsJson(conditions), deep) == UnpinnedIn(conditions, deep)
  {
    if conditions != [] {
      var kind := JString(if conditions[0].When? then "when" else "unless");
      WalkCountsUnpinned(conditions[0].body, deep);
      WalkTwo("kind", kind, "body", Est(conditions[0].body), deep);
      assert Walk(kind, deep) == 0;
      ConditionsHold(conditions[1..], deep);
      assert ConditionsJson(conditions)[1..] == ConditionsJson(conditions[1..]);
    }
  }

  /** None of the fields is named like an operator. */
  predicate NoOperator(fields: seq<Field>) {
    Find(fields, "like").None? && Find(fields, "==").None? && Find(fields, ".").None?
  }

  lemma PlainField(key: string, value: Json, fields: seq<Field>, deep: bool)
    requires key != "like" && key != "==" && key != "." && NoOperator(fields)
    ensures NoOperator([Field(key, value)] + fields)
    ensures WalkFields([Field(key, value)] + fields, deep) == Walk(value, deep) + WalkFields(fields, deep)
  {
    assert ([Field(key, value)] + fields)[1..] == fields;
  }

  lemma AnnotationsFieldHoldsNoReads(p: Policy, deep: bool)
    ensures NoOperator(AnnotationsField(p)) && WalkFields(AnnotationsField(p), deep) == 0
  {
    if p.annotations != [] {
      AnnotationsHoldNoReads(p.annotations, deep);
      var notes := JObject(AnnotationFields(p.annotations));
      PlainField("annotations", notes, [], deep);
      assert [Field("annotations", notes)] + [] == AnnotationsField(p);
    }
  }

  lemma ConditionsBehindTheHead(p: Policy, deep: bool)
    ensures NoOperator(BehindTheHead(p)) && WalkFields(BehindTheHead(p), deep) == UnpinnedIn(p.conditions, deep)
  {
    AnnotationsFieldHoldsNoReads(p, deep);
    ConditionsHold(p.conditions, deep);
    PlainField("conditions", JArray(ConditionsJson(p.conditions)), AnnotationsField(p), deep);
  }

  /** The lint flags a policy exactly when it is a permit one of whose conditions has an unpinned read. */
  lemma FlaggedExactly(p: Policy, deep: bool)
    ensures IsFlagged(p, deep) <==> p.effect == Permit && UnpinnedIn(p.conditions, deep) > 0
  {
    var principal, action, resource := ScopeJson(p.principal), ScopeJson(p.action), ScopeJson(p.resource);
    var f3 := [Field("resource", resource)] + BehindTheHead(p);
    var f2 := [Field("action", action)] + f3;
    var f1 := [Field("principal", principal)] + f2;
    ConditionsBehindTheHead(p, deep);
    PlainField("resource", resource, BehindTheHead(p), deep);
    PlainField("action", action, f3, deep);
    PlainField("principal", principal, f2, deep);
    WalkOneMore("effect", JString(if p.effect.Permit? then "permit" else "forbid"), f1, deep);
    ScopeHoldsNoReads(p.principal, deep);
    ScopeHoldsNoReads(p.action, deep);
    ScopeHoldsNoReads(p.resource, deep);
  }

  /** The deeper lint flags whatever the lint flags. */
  lemma DeepFlagsMore(p: Policy)
    ensures IsFlagged(p, false) ==> IsFlagged(p, true)
  {
    FlaggedExactly(p, false);
    FlaggedExactly(p, true);
    DeepCountsMoreIn(p.conditions);
  }

  lemma {:induction false} DeepCountsMoreIn(conditions: seq<Condition>)
    ensures UnpinnedIn(conditions, false) <= UnpinnedIn(conditions, true)
  {
    if conditions != [] {
      DeepCountsMore(conditions[0].body);
      DeepCountsMoreIn(conditions[1..]);
    }
  }

  /** Going deeper only ever finds more. */
  lemma {:induction false} DeepCountsMore(e: Expr)
    ensures Unpinned(e, false) <= Unpinned(e, true) && UnpinnedSide(e, false) <= UnpinnedSide(e, true)
  {
    match e {
      case Constant(_) =>
      case Variable(_) =>
      case Attribute(base, _) => DeepCountsMore(base);
      case Has(base, _) => DeepCountsMore(base);
      case Like(text, _) => DeepCountsMore(text);
      case Not(arg) => DeepCountsMore(arg);
      case And(left, right) =>
        DeepCountsMore(left);
        DeepCountsMore(right);
      case Or(left, right) =>
        DeepCountsMore(left);
        DeepCountsMore(right);
      case Binary(_, left, right) =>
        DeepCountsMore(left);
        DeepCountsMore(right);
      case IfThenElse(cond, yes, no) =>
        DeepCountsMore(cond);
        DeepCountsMore(yes);
        DeepCountsMore(no);
      case SetExpr(items) => DeepCountsMoreItems(items);
      case RecordExpr(entries) => DeepCountsMoreEntries(entries);
    }
  }

  lemma {:induction false} DeepCountsMoreItems(items: seq<Expr>)
    ensures UnpinnedItems(items, false) <= UnpinnedItems(items, true)
  {
    if items != [] {
      DeepCountsMore(items[0]);
      DeepCountsMoreItems(items[1..]);
    }
  }

  lemma {:induction false} DeepCountsMoreEntries(entries: seq<Entry>)
    ensures UnpinnedEntries(entries, false) <= UnpinnedEntries(entries, true)
  {
    if entries != [] {
      DeepCountsMore(entries[0].value);
      DeepCountsMoreEntries(entries[1..]);
    }
  }

  lemma {:induction false} ConditionsDoNotInterfere(conditions: seq<Condition>, q: Request, tail: string)
    requires HasTail(q) && UnpinnedIn(conditions, true) == 0
    requires forall i :: 0 <= i < |conditions| ==> Agree(conditions[i].body, q, tail)
    ensures HoldsAll(conditions, WithTail(q, tail)) == HoldsAll(conditions, q)
  {
    if conditions != [] {
      NonInterference(conditions[0].body, q, tail);
      ConditionsDoNotInterfere(conditions[1..], q, tail);
    }
  }

  /** A permit that the deeper lint leaves alone is satisfied, unsatisfied or in error for one tail exactly
      as for any other that answers its pinning tests alike. */
  lemma UnflaggedPermitIsPinned(p: Policy, q: Request, tail: string)
    requires HasTail(q) && p.effect == Permit && !IsFlagged(p, true)
    requires forall i :: 0 <= i < |p.conditions| ==> Agree(p.conditions[i].body, q, tail)
    ensures Satisfied(p, WithTail(q, tail)) == Satisfied(p, q)
  {
    FlaggedExactly(p, true);
    ConditionsDoNotInterfere(p.conditions, q, tail);
    SameScope(p.principal, q.principal, q, tail);
    SameScope(p.action, q.action, q, tail);
    SameScope(p.resource, q.resource, q, tail);
  }

  lemma SameScope(scope: Scope, a: EntityUid, q: Request, tail: string)
    requires HasTail(q)
    ensures Covers(scope, a, WithTail(q, tail)) <==> Covers(scope, a, q)
  {
    forall b
      ensures IsIn(WithTail(q, tail), a, b) <==> IsIn(q, a, b)
    {
      SameIsIn(q, tail, a, b);
    }
  }
}
