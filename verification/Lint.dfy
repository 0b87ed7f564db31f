/** The argument-matching lint: a walk over the JSON form of a policy that counts the reads of
    `argv_tail` which pin no token, and what a count of zero means for evaluation. */
module Lint {
  import opened Wrappers
  import opened Patterns
  import opened Cedar

  const TAIL := "argv_tail"

  // ---------------------------------------------------------------------------
  // The JSON form
  // ---------------------------------------------------------------------------

  datatype Json = JScalar | JString(s: string) | JArray(items: seq<Json>) | JObject(fields: seq<Field>)

  datatype Field = Field(key: string, value: Json)

  /** `Value::get` on an object. */
  function Get(node: Json, key: string): (r: Option<Json>)
    ensures r.Some? ==> r.value < node
  {
    if node.JObject? then Find(node.fields, key) else None
  }

  function Find(fields: seq<Field>, key: string): (r: Option<Json>)
    ensures r.Some? ==> exists i :: 0 <= i < |fields| && r.value == fields[i].value
  {
    if fields == [] then None
    else if fields[0].key == key then Some(fields[0].value)
    else Find(fields[1..], key)
  }

  function Obj(key: string, value: Json): Json {
    JObject([Field(key, value)])
  }

  function Sides(left: Json, right: Json): Json {
    JObject([Field("left", left), Field("right", right)])
  }

  function OperatorKey(op: Operator): string {
    match op
    case Equal => "=="
    case NotEqual => "!="
    case In => "in"
    case Less => "<"
    case LessEqual => "<="
    case Contains => "contains"
    case ContainsAll => "containsAll"
    case ContainsAny => "containsAny"
  }

  function ConstantJson(c: Constant): Json {
    match c
    case TextConst(s) => JString(s)
    case EntityConst(uid) => Obj("__entity", JObject([Field("type", JString(uid.kind)), Field("id", JString(uid.id))]))
    case _ => JScalar
  }

  function ElementJson(element: Element): Json {
    match element
    case Wildcard => JString("Wildcard")
    case Literal(c) => Obj("Literal", JString([c]))
  }

  function PatternJson(p: Pattern): Json {
    JArray(seq(|p|, i requires 0 <= i < |p| => ElementJson(p[i])))
  }

  function Est(e: Expr): Json {
    match e
    case Constant(c) => Obj("Value", ConstantJson(c))
    case Variable(v) => Obj("Var", JString("var"))
    case Attribute(base, attr) => Obj(".", JObject([Field("left", Est(base)), Field("attr", JString(attr))]))
    case Has(base, attr) => Obj("has", JObject([Field("left", Est(base)), Field("attr", JString(attr))]))
    case Like(text, pattern) =>
      Obj("like", JObject([Field("left", Est(text)), Field("pattern", PatternJson(pattern))]))
    case Not(arg) => Obj("!", Obj("arg", Est(arg)))
    case And(left, right) => Obj("&&", Sides(Est(left), Est(right)))
    case Or(left, right) => Obj("||", Sides(Est(left), Est(right)))
    case Binary(op, left, right) => Obj(OperatorKey(op), Sides(Est(left), Est(right)))
    case IfThenElse(cond, yes, no) =>
      Obj("if-then-else", JObject([Field("if", Est(cond)), Field("then", Est(yes)), Field("else", Est(no))]))
    case SetExpr(items) => Obj("Set", JArray(EstItems(items)))
    case RecordExpr(entries) => Obj("Record", JObject(EstEntries(entries)))
  }

  function EstItems(items: seq<Expr>): seq<Json> {
    if items == [] then [] else [Est(items[0])] + EstItems(items[1..])
  }

  function EstEntries(entries: seq<Entry>): seq<Field> {
    if entries == [] then [] else [Field(entries[0].key, Est(entries[0].value))] + EstEntries(entries[1..])
  }

  // ---------------------------------------------------------------------------
  // The walk
  // ---------------------------------------------------------------------------

  predicate IsArgvTail(node: Json) {
    Get(node, ".").Some? && Get(Get(node, ".").value, "attr") == Some(JString(TAIL))
  }

  /** The position of the first wildcard element, or the length. */
  function WildcardPosition(elements: seq<Json>): (n: nat)
    ensures n <= |elements|
  {
    if elements == [] || elements[0] == JString("Wildcard") then 0 else 1 + WildcardPosition(elements[1..])
  }

  predicate PinsJson(pattern: Json) {
    pattern.JArray? &&
    var n := WildcardPosition(pattern.items);
    n == |pattern.items| || (n > 0 && Get(pattern.items[n - 1], "Literal") == Some(JString([SPACE])))
  }

  function SidesOf(equality: Json): (r: seq<Json>)
    ensures forall i :: 0 <= i < |r| ==> r[i] < equality
  {
    (if Get(equality, "left").Some? then [Get(equality, "left").value] else []) +
    (if Get(equality, "right").Some? then [Get(equality, "right").value] else [])
  }

  /** The node is a `like` on the attribute. */
  predicate IsTailLike(node: Json) {
    Get(node, "like").Some? && Get(Get(node, "like").value, "left").Some? &&
    IsArgvTail(Get(Get(node, "like").value, "left").value)
  }

  predicate LikePins(node: Json)
    requires IsTailLike(node)
  {
    var pattern := Get(Get(node, "like").value, "pattern");
    pattern.Some? && PinsJson(pattern.value)
  }

  /** The node is an `==` with the attribute on one side or both. */
  predicate IsTailEquality(node: Json) {
    Get(node, "==").Some? && exists side :: side in SidesOf(Get(node, "==").value) && IsArgvTail(side)
  }

  /** How many reads of the attribute in this node pin nothing. The walk stops at a read; with `deep` it
      goes on into what is read from. */
  function Walk(node: Json, deep: bool): nat
    decreases node, 1
  {
    match node
    case JObject(fields) =>
      if IsTailLike(node) then
        (if LikePins(node) then 0 else 1) + WalkBelow(Get(Get(node, "like").value, "left").value, deep)
      else if IsTailEquality(node) then
        var sides := SidesOf(Get(node, "==").value);
        (if |sides| > 0 then WalkSide(sides[0], deep) else 0) + (if |sides| > 1 then WalkSide(sides[1], deep) else 0)
      else if IsArgvTail(node) then 1 + WalkBelow(node, deep)
      else WalkFields(fields, deep)
    case JArray(items) => WalkItems(items, deep)
    case _ => 0
  }

  /** What the attribute is read from. */
  function WalkBelow(read: Json, deep: bool): nat
    requires IsArgvTail(read)
    decreases read, 0
  {
    var base := Get(Get(read, ".").value, "left");
    if deep && base.Some? then Walk(base.value, deep) else 0
  }

  /** One side of an equality test on the attribute. */
  function WalkSide(side: Json, deep: bool): nat
    decreases side, 2
  {
    if IsArgvTail(side) then WalkBelow(side, deep) else Walk(side, deep)
  }

  function WalkFields(fields: seq<Field>, deep: bool): nat
    decreases fields, 0
  {
    if fields == [] then 0 else Walk(fields[0].value, deep) + WalkFields(fields[1..], deep)
  }

  function WalkItems(items: seq<Json>, deep: bool): nat
    decreases items, 0
  {
    if items == [] then 0 else Walk(items[0], deep) + WalkItems(items[1..], deep)
  }

  lemma {:induction false} WalkFieldsStep(fields: seq<Field>, i: nat, deep: bool)
    requires i < |fields|
    ensures WalkFields(fields[..i + 1], deep) == WalkFields(fields[..i], deep) + Walk(fields[i].value, deep)
  {
    if i == 0 {
      assert fields[..1][1..] == [] && fields[..0] == [];
    } else {
      assert fields[..i + 1][1..] == fields[1..][..i] && fields[..i][1..] == fields[1..][..i - 1];
      WalkFieldsStep(fields[1..], i - 1, deep);
    }
  }

  lemma {:induction false} WalkItemsStep(items: seq<Json>, i: nat, deep: bool)
    requires i < |items|
    ensures WalkItems(items[..i + 1], deep) == WalkItems(items[..i], deep) + Walk(items[i], deep)
  {
    if i == 0 {
      assert items[..1][1..] == [] && items[..0] == [];
    } else {
      assert items[..i + 1][1..] == items[1..][..i] && items[..i][1..] == items[1..][..i - 1];
      WalkItemsStep(items[1..], i - 1, deep);
    }
  }

  /** The walk as it runs: it adds to a count it is handed. */
  method RunWalk(node: Json, count: nat) returns (out: nat)
    ensures out == count + Walk(node, false)
    decreases node
  {
    out := count;
    match node {
      case JObject(fields) =>
        if IsTailLike(node) {
          if !LikePins(node) {
            out := out + 1;
          }
          return;
        }
        if IsTailEquality(node) {
          var sides := SidesOf(Get(node, "==").value);
          assert forall i :: 0 <= i < |sides| ==>
              WalkSide(sides[i], false) == if IsArgvTail(sides[i]) then 0 else Walk(sides[i], false);
          if |sides| > 0 && !IsArgvTail(sides[0]) {
            out := RunWalk(sides[0], out);
          }
          if |sides| > 1 && !IsArgvTail(sides[1]) {
            out := RunWalk(sides[1], out);
          }
          return;
        }
        if IsArgvTail(node) {
          out := out + 1;
          return;
        }
        for i := 0 to |fields|
          invariant out == count + WalkFields(fields[..i], false)
        {
          WalkFieldsStep(fields, i, false);
          out := RunWalk(fields[i].value, out);
        }
        assert fields[..|fields|] == fields;
      case JArray(items) =>
        for i := 0 to |items|
          invariant out == count + WalkItems(items[..i], false)
        {
          WalkItemsStep(items, i, false);
          out := RunWalk(items[i], out);
        }
        assert items[..|items|] == items;
      case _ =>
    }
  }

  // ---------------------------------------------------------------------------
  // The same count on expressions
  // ---------------------------------------------------------------------------

  predicate IsTailRead(e: Expr) {
    e.Attribute? && e.attr == TAIL
  }

  function Unpinned(e: Expr, deep: bool): nat {
    match e
    case Constant(_) => 0
    case Variable(_) => 0
    case Attribute(base, attr) =>
      (if attr == TAIL then 1 else 0) + if attr != TAIL || deep then Unpinned(base, deep) else 0
    case Has(base, _) => Unpinned(base, deep)
    case Like(text, pattern) =>
      if IsTailRead(text) then
        (if PinsAToken(pattern) then 0 else 1) + if deep then Unpinned(text.base, deep) else 0
      else Unpinned(text, deep)
    case Not(arg) => Unpinned(arg, deep)
    case And(left, right) => Unpinned(left, deep) + Unpinned(right, deep)
    case Or(left, right) => Unpinned(left, deep) + Unpinned(right, deep)
    case Binary(op, left, right) =>
      if op == Equal && (IsTailRead(left) || IsTailRead(right)) then
        (if !IsTailRead(left) then Unpinned(left, deep) else if deep then Unpinned(left.base, deep) else 0) +
        (if !IsTailRead(right) then Unpinned(right, deep) else if deep then Unpinned(right.base, deep) else 0)
      else Unpinned(left, deep) + Unpinned(right, deep)
    case IfThenElse(cond, yes, no) => Unpinned(cond, deep) + Unpinned(yes, deep) + Unpinned(no, deep)
    case SetExpr(items) => UnpinnedItems(items, deep)
    case RecordExpr(entries) => UnpinnedEntries(entries, deep)
  }

  /** What the attribute is read from. */
  function UnpinnedBelow(read: Expr, deep: bool): nat
    requires IsTailRead(read)
  {
    if deep then Unpinned(read.base, deep) else 0
  }

  /** One side of an equality test on the attribute. */
  function UnpinnedSide(side: Expr, deep: bool): nat {
    if IsTailRead(side) then UnpinnedBelow(side, deep) else Unpinned(side, deep)
  }

  function UnpinnedItems(items: seq<Expr>, deep: bool): nat {
    if items == [] then 0 else Unpinned(items[0], deep) + UnpinnedItems(items[1..], deep)
  }

  function UnpinnedEntries(entries: seq<Entry>, deep: bool): nat {
    if entries == [] then 0 else Unpinned(entries[0].value, deep) + UnpinnedEntries(entries[1..], deep)
  }

  lemma GetOne(key: string, value: Json, k: string)
    ensures Get(Obj(key, value), k) == if key == k then Some(value) else None
  {
    assert [Field(key, value)][1..] == [];
    assert Find([Field(key, value)][1..], k).None?;
  }

  lemma GetTwo(key: string, value: Json, other: string, second: Json, k: string)
    ensures Get(JObject([Field(key, value), Field(other, second)]), k) ==
            if key == k then Some(value) else if other == k then Some(second) else None
  {
    assert [Field(key, value), Field(other, second)][1..] == [Field(other, second)];
    GetOne(other, second, k);
  }

  /** The key of an expression's JSON form. */
  function KeyOf(e: Expr): string {
    match e
    case Constant(_) => "Value"
    case Variable(_) => "Var"
    case Attribute(_, _) => "."
    case Has(_, _) => "has"
    case Like(_, _) => "like"
    case Not(_) => "!"
    case And(_, _) => "&&"
    case Or(_, _) => "||"
    case Binary(op, _, _) => OperatorKey(op)
    case IfThenElse(_, _, _) => "if-then-else"
    case SetExpr(_) => "Set"
    case RecordExpr(_) => "Record"
  }

  /** An expression's JSON form has one field, named after its operator. */
  lemma EstForm(e: Expr, key: string) returns (value: Json)
    ensures Est(e) == Obj(KeyOf(e), value)
    ensures Get(Est(e), key) == if key == KeyOf(e) then Some(value) else None
  {
    value := Est(e).fields[0].value;
    GetOne(KeyOf(e), value, key);
  }

  lemma EstHasOneKey(e: Expr, key: string)
    requires key in {"left", "right", "attr", "pattern"}
    ensures Get(Est(e), key).None?
  {
    var _ := EstForm(e, key);
  }

  /** An object that is none of the three shapes the walk looks for is walked through. */
  lemma WalkObj(key: string, value: Json, deep: bool)
    requires var node := Obj(key, value); !IsTailLike(node) && !IsTailEquality(node) && !IsArgvTail(node)
    ensures Walk(Obj(key, value), deep) == Walk(value, deep)
  {
    assert [Field(key, value)][1..] == [];
    assert WalkFields([Field(key, value)][1..], deep) == 0;
  }

  lemma OrdinaryKey(key: string, value: Json, deep: bool)
    requires key != "like" && key != "==" && key != "."
    ensures Walk(Obj(key, value), deep) == Walk(value, deep)
  {
    GetOne(key, value, "like");
    GetOne(key, value, "==");
    GetOne(key, value, ".");
    WalkObj(key, value, deep);
  }

  /** A list of named expressions is never mistaken for an operator, whatever the names. */
  lemma {:induction false} FindInEntries(entries: seq<Entry>, key: string)
    ensures Find(EstEntries(entries), key).None? ||
            exists e :: Find(EstEntries(entries), key) == Some(Est(e))
  {
    if entries != [] {
      assert EstEntries(entries)[1..] == EstEntries(entries[1..]);
      FindInEntries(entries[1..], key);
      if entries[0].key == key {
        assert Find(EstEntries(entries), key) == Some(Est(entries[0].value));
      }
    }
  }

  lemma EntriesAreNoOperator(entries: seq<Entry>)
    ensures var node := JObject(EstEntries(entries));
            !IsTailLike(node) && !IsTailEquality(node) && !IsArgvTail(node)
  {
    var node := JObject(EstEntries(entries));
    forall key, inner | key in {"like", "==", "."} && inner in {"left", "right", "attr"}
      ensures Get(node, key).Some? ==> Get(Get(node, key).value, inner).None?
    {
      FindInEntries(entries, key);
      if Get(node, key).Some? {
        var e :| Find(EstEntries(entries), key) == Some(Est(e));
        EstHasOneKey(e, inner);
      }
    }
  }

  lemma TailReadForm(e: Expr)
    ensures IsArgvTail(Est(e)) <==> IsTailRead(e)
  {
    if e.Attribute? {
      GetTwo("left", Est(e.base), "attr", JString(e.attr), "attr");
    }
    var _ := EstForm(e, ".");
  }

  lemma {:induction false} WildcardPositionForm(p: Pattern)
    ensures WildcardPosition(PatternJson(p).items) == FirstWildcard(p)
  {
    if p != [] {
      assert PatternJson(p).items[0] == ElementJson(p[0]);
      assert PatternJson(p).items[1..] == PatternJson(p[1..]).items;
      WildcardPositionForm(p[1..]);
    }
  }

  lemma PatternForm(p: Pattern)
    ensures PinsJson(PatternJson(p)) <==> PinsAToken(p)
  {
    WildcardPositionForm(p);
    var n := FirstWildcard(p);
    if 0 < n < |p| {
      assert PatternJson(p).items[n - 1] == ElementJson(p[n - 1]);
      assert Get(ElementJson(p[n - 1]), "Literal") == Some(JString([p[n - 1].c]));
    }
  }

  // ---------------------------------------------------------------------------
  // The walk counts what the expressions say
  // ---------------------------------------------------------------------------

  /** An object with two fields neither of which is named like an operator. */
  lemma WalkTwo(key: string, value: Json, other: string, second: Json, deep: bool)
    requires key != "like" && key != "==" && key != "." && other != "like" && other != "==" && other != "."
    ensures Walk(JObject([Field(key, value), Field(other, second)]), deep) == Walk(value, deep) + Walk(second, deep)
  {
    var node := JObject([Field(key, value), Field(other, second)]);
    GetTwo(key, value, other, second, "like");
    GetTwo(key, value, other, second, "==");
    GetTwo(key, value, other, second, ".");
    assert node.fields[1..] == [Field(other, second)] && [Field(other, second)][1..] == [];
    assert WalkFields([Field(other, second)][1..], deep) == 0;
    assert WalkFields(node.fields[1..], deep) == Walk(second, deep);
  }

  lemma {:induction false} PatternHoldsNoReads(p: Pattern, deep: bool)
    ensures Walk(PatternJson(p), deep) == 0
  {
    if p != [] {
      assert PatternJson(p).items[0] == ElementJson(p[0]);
      assert PatternJson(p).items[1..] == PatternJson(p[1..]).items;
      if p[0].Literal? {
        OrdinaryKey("Literal", JString([p[0].c]), deep);
      }
      PatternHoldsNoReads(p[1..], deep);
      assert WalkItems(PatternJson(p[1..]).items, deep) == 0;
      assert Walk(ElementJson(p[0]), deep) == 0;
    }
  }

  lemma ConstantHoldsNoReads(c: Constant, deep: bool)
    ensures Walk(Obj("Value", ConstantJson(c)), deep) == 0
  {
    OrdinaryKey("Value", ConstantJson(c), deep);
    if c.EntityConst? {
      var kind, id := JString(c.uid.kind), JString(c.uid.id);
      OrdinaryKey("__entity", JObject([Field("type", kind), Field("id", id)]), deep);
      WalkTwo("type", kind, "id", id, deep);
    }
  }

  lemma WalkAttribute(e: Expr, deep: bool)
    requires e.Attribute? && Walk(Est(e.base), deep) == Unpinned(e.base, deep)
    ensures Walk(Est(e), deep) == Unpinned(e, deep)
  {
    TailReadForm(e);
    var value := EstForm(e, "like");
    value := EstForm(e, "==");
    GetTwo("left", Est(e.base), "attr", JString(e.attr), "left");
    if e.attr != TAIL {
      WalkObj(".", value, deep);
      WalkTwo("left", Est(e.base), "attr", JString(e.attr), deep);
    }
  }

  lemma BelowForm(e: Expr, deep: bool)
    requires IsTailRead(e) && Walk(Est(e), deep) == Unpinned(e, deep)
    ensures IsArgvTail(Est(e)) && WalkBelow(Est(e), deep) == UnpinnedBelow(e, deep)
  {
    TailReadForm(e);
    var _ := EstForm(e, "like");
    var _ := EstForm(e, "==");
  }

  lemma WalkLike(e: Expr, deep: bool)
    requires e.Like? && Walk(Est(e.text), deep) == Unpinned(e.text, deep)
    ensures Walk(Est(e), deep) == Unpinned(e, deep)
  {
    var value := EstForm(e, "like");
    var _ := EstForm(e, "==");
    var _ := EstForm(e, ".");
    GetTwo("left", Est(e.text), "pattern", PatternJson(e.pattern), "left");
    GetTwo("left", Est(e.text), "pattern", PatternJson(e.pattern), "pattern");
    TailReadForm(e.text);
    PatternForm(e.pattern);
    if IsTailRead(e.text) {
      BelowForm(e.text, deep);
    }
    if !IsTailRead(e.text) {
      WalkObj("like", value, deep);
      WalkTwo("left", Est(e.text), "pattern", PatternJson(e.pattern), deep);
      PatternHoldsNoReads(e.pattern, deep);
    }
  }

  lemma EqualityForm(e: Expr)
    requires e.Binary? && e.op == Equal
    ensures Get(Est(e), "==") == Some(Sides(Est(e.left), Est(e.right)))
    ensures SidesOf(Sides(Est(e.left), Est(e.right))) == [Est(e.left), Est(e.right)]
    ensures !IsTailLike(Est(e)) && !IsArgvTail(Est(e))
    ensures IsTailEquality(Est(e)) <==> IsTailRead(e.left) || IsTailRead(e.right)
  {
    var left, right := Est(e.left), Est(e.right);
    var _ := EstForm(e, "==");
    var _ := EstForm(e, "like");
    var _ := EstForm(e, ".");
    GetTwo("left", left, "right", right, "left");
    GetTwo("left", left, "right", right, "right");
    TailReadForm(e.left);
    TailReadForm(e.right);
    var sides := SidesOf(Sides(left, right));
    assert sides == [left, right] && sides[0] == left && sides[1] == right;
  }

  lemma WalkEqual(e: Expr, deep: bool)
    requires e.Binary? && e.op == Equal
    requires Walk(Est(e.left), deep) == Unpinned(e.left, deep) && Walk(Est(e.right), deep) == Unpinned(e.right, deep)
    ensures Walk(Est(e), deep) == Unpinned(e, deep)
  {
    EqualityForm(e);
    if IsTailRead(e.left) || IsTailRead(e.right) {
      SideForm(e.left, deep);
      SideForm(e.right, deep);
      var sides := [Est(e.left), Est(e.right)];
      assert Walk(Est(e), deep) == WalkSide(sides[0], deep) + WalkSide(sides[1], deep);
      assert Unpinned(e, deep) == UnpinnedSide(e.left, deep) + UnpinnedSide(e.right, deep);
    } else {
      WalkObj("==", Sides(Est(e.left), Est(e.right)), deep);
      WalkTwo("left", Est(e.left), "right", Est(e.right), deep);
    }
  }

  lemma SideForm(e: Expr, deep: bool)
    ensures Walk(Est(e), deep) == Unpinned(e, deep) ==> WalkSide(Est(e), deep) == UnpinnedSide(e, deep)
  {
    TailReadForm(e);
    if IsTailRead(e) && Walk(Est(e), deep) == Unpinned(e, deep) {
      BelowForm(e, deep);
    }
  }

  lemma WalkBinary(e: Expr, deep: bool)
    requires e.And? || e.Or? || (e.Binary? && e.op != Equal)
    requires Walk(Est(e.left), deep) == Unpinned(e.left, deep) && Walk(Est(e.right), deep) == Unpinned(e.right, deep)
    ensures Walk(Est(e), deep) == Unpinned(e, deep)
  {
    OrdinaryBinary(e);
    OrdinarySides(KeyOf(e), Est(e.left), Est(e.right), deep);
  }

  lemma OrdinaryBinary(e: Expr)
    requires e.And? || e.Or? || (e.Binary? && e.op != Equal)
    ensures KeyOf(e) != "like" && KeyOf(e) != "==" && KeyOf(e) != "."
    ensures Est(e) == Obj(KeyOf(e), Sides(Est(e.left), Est(e.right)))
  {
  }

  lemma OrdinarySides(key: string, left: Json, right: Json, deep: bool)
    requires key != "like" && key != "==" && key != "."
    ensures Walk(Obj(key, Sides(left, right)), deep) == Walk(left, deep) + Walk(right, deep)
  {
    OrdinaryKey(key, Sides(left, right), deep);
    WalkTwo("left", left, "right", right, deep);
  }

  /** An object in front of whose fields one more is put. */
  lemma WalkOneMore(key: string, value: Json, fields: seq<Field>, deep: bool)
    requires key != "like" && key != "==" && key != "."
    requires Find(fields, "like").None? && Find(fields, "==").None? && Find(fields, ".").None?
    ensures Walk(JObject([Field(key, value)] + fields), deep) == Walk(value, deep) + WalkFields(fields, deep)
  {
    var node := JObject([Field(key, value)] + fields);
    assert node.fields[1..] == fields;
    assert Get(node, "like").None? && Get(node, "==").None? && Get(node, ".").None?;
  }

  lemma ThreeFields(a: string, x: Json, b: string, y: Json, c: string, z: Json, deep: bool)
    requires a !in {"like", "==", "."} && b !in {"like", "==", "."} && c !in {"like", "==", "."}
    ensures Walk(JObject([Field(a, x)] + [Field(b, y), Field(c, z)]), deep) ==
            Walk(x, deep) + Walk(y, deep) + Walk(z, deep)
  {
    var fields := [Field(b, y), Field(c, z)];
    assert "like" in {"like", "==", "."} && "==" in {"like", "==", "."} && "." in {"like", "==", "."};
    assert fields[1..] == [Field(c, z)] && fields[1..][1..] == [];
    assert WalkFields(fields[1..], deep) == Walk(z, deep);
    assert Find(fields[1..], "like").None? && Find(fields[1..], "==").None? && Find(fields[1..], ".").None?;
    WalkOneMore(a, x, fields, deep);
  }

  lemma WalkIf(e: Expr, deep: bool)
    requires e.IfThenElse? && Walk(Est(e.cond), deep) == Unpinned(e.cond, deep)
    requires Walk(Est(e.yes), deep) == Unpinned(e.yes, deep) && Walk(Est(e.no), deep) == Unpinned(e.no, deep)
    ensures Walk(Est(e), deep) == Unpinned(e, deep)
  {
    var cond, yes, no := Est(e.cond), Est(e.yes), Est(e.no);
    var fields := [Field("if", cond), Field("then", yes), Field("else", no)];
    ThreeFields("if", cond, "then", yes, "else", no, deep);
    assert fields == [Field("if", cond)] + [Field("then", yes), Field("else", no)];
    OrdinaryKey("if-then-else", JObject(fields), deep);
  }

  /** The walk over the JSON form counts exactly the unpinned reads of the expression. */
  lemma {:induction false} WalkCountsUnpinned(e: Expr, deep: bool)
    ensures Walk(Est(e), deep) == Unpinned(e, deep)
  {
    match e {
      case Constant(c) => ConstantHoldsNoReads(c, deep);
      case Variable(_) => OrdinaryKey("Var", JString("var"), deep);
      case Attribute(base, _) =>
        WalkCountsUnpinned(base, deep);
        WalkAttribute(e, deep);
      case Has(base, attr) =>
        WalkCountsUnpinned(base, deep);
        OrdinaryKey("has", JObject([Field("left", Est(base)), Field("attr", JString(attr))]), deep);
        WalkTwo("left", Est(base), "attr", JString(attr), deep);
      case Like(text, _) =>
        WalkCountsUnpinned(text, deep);
        WalkLike(e, deep);
      case Not(arg) =>
        WalkCountsUnpinned(arg, deep);
        OrdinaryKey("!", Obj("arg", Est(arg)), deep);
        OrdinaryKey("arg", Est(arg), deep);
      case And(left, right) =>
        WalkCountsUnpinned(left, deep);
        WalkCountsUnpinned(right, deep);
        WalkBinary(e, deep);
      case Or(left, right) =>
        WalkCountsUnpinned(left, deep);
        WalkCountsUnpinned(right, deep);
        WalkBinary(e, deep);
      case Binary(op, left, right) =>
        WalkCountsUnpinned(left, deep);
        WalkCountsUnpinned(right, deep);
        if op == Equal {
          WalkEqual(e, deep);
        } else {
          WalkBinary(e, deep);
        }
      case IfThenElse(cond, yes, no) =>
        WalkCountsUnpinned(cond, deep);
        WalkCountsUnpinned(yes, deep);
        WalkCountsUnpinned(no, deep);
        WalkIf(e, deep);
      case SetExpr(items) =>
        WalkCountsItems(items, deep);
        OrdinaryKey("Set", JArray(EstItems(items)), deep);
      case RecordExpr(entries) =>
        WalkCountsEntries(entries, deep);
        EntriesAreNoOperator(entries);
        OrdinaryKey("Record", JObject(EstEntries(entries)), deep);
    }
  }

  lemma {:induction false} WalkCountsItems(items: seq<Expr>, deep: bool)
    ensures WalkItems(EstItems(items), deep) == UnpinnedItems(items, deep)
  {
    if items != [] {
      WalkCountsUnpinned(items[0], deep);
      WalkCountsItems(items[1..], deep);
      assert EstItems(items)[1..] == EstItems(items[1..]);
    }
  }

  lemma {:induction false} WalkCountsEntries(entries: seq<Entry>, deep: bool)
    ensures WalkFields(EstEntries(entries), deep) == UnpinnedEntries(entries, deep)
  {
    if entries != [] {
      WalkCountsUnpinned(entries[0].value, deep);
      WalkCountsEntries(entries[1..], deep);
      assert EstEntries(entries)[1..] == EstEntries(entries[1..]);
    }
  }
}
