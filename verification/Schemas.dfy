/**
 A plain boolean reading of the JSON Schema subset: whether a value satisfies a
 schema when `$ref` is followed at most so many levels deep. Past the cut-off
 nothing is satisfied, as in the validator.
 */
module Schemas {
  import opened Wrappers
  import opened Pointers

  /** What a caller may add: other documents, and a check for each regex pattern and text. */
  datatype Resolver = Resolver(documents: map<string, Value>, checks: map<(string, string), bool>)

  /** Where a reference without a document name leads, and what the caller added. */
  datatype Cx = Cx(root: Value, resolver: Option<Resolver>)

  /** One question: does the value satisfy the schema here? */
  datatype Goal = Goal(cx: Cx, schema: Value, value: Value)

  function Get(s: map<string, Value>, k: string): Option<Value> {
    if k in s then Some(s[k]) else None
  }

  /** The list a keyword holds; none when it holds anything else. */
  function List(s: map<string, Value>, k: string): Option<seq<Value>> {
    if k in s && s[k].Arr? then Some(s[k].items) else None
  }

  function Table(s: map<string, Value>, k: string): map<string, Value> {
    if k in s && s[k].Obj? then s[k].fields else map[]
  }

  /** A keyword's value as an unsigned integer. */
  function Limit(s: map<string, Value>, k: string): Option<nat> {
    if k in s && s[k].Num? && s[k].n.Int? && s[k].n.i >= 0 then Some(s[k].n.i) else None
  }

  function AsReal(n: Number): real {
    match n
    case Int(i) => i as real
    case Float(r) => r
  }

  function Bound(s: map<string, Value>, k: string): Option<real> {
    if k in s && s[k].Num? then Some(AsReal(s[k].n)) else None
  }

  // --- references ------------------------------------------------------------

  function BeforeHash(r: string): (doc: string)
    ensures |doc| <= |r| && r[..|doc|] == doc
  {
    if r == "" || r[0] == '#' then "" else [r[0]] + BeforeHash(r[1..])
  }

  /** The schema a reference names, and the document to go on in. */
  function ResolveIn(cx: Cx, r: string): Option<(Cx, Value)> {
    var doc := BeforeHash(r);
    var at :=
      if doc == "" then Some(cx)
      else if cx.resolver.Some? && doc in cx.resolver.value.documents
      then Some(cx.(root := cx.resolver.value.documents[doc]))
      else None;
    if at.None? then None
    else
      var local := r[|doc|..];
      match ResolveRef(at.value.root, if local == "" then "#" else local)
      case None => None
      case Some(t) => Some((at.value, t))
  }

  // --- keywords that ask nothing further -------------------------------------

  predicate TypeMatches(t: string, v: Value) {
    if t == "null" then v.Null?
    else if t == "boolean" then v.Bool?
    else if t == "object" then v.Obj?
    else if t == "array" then v.Arr?
    else if t == "string" then v.Str?
    else if t == "number" then v.Num?
    else if t == "integer" then v.Num? && (v.n.Int? || v.n.r.Floor as real == v.n.r)
    else true
  }

  predicate TypeOk(s: map<string, Value>, v: Value) {
    match Get(s, "type")
    case Some(Str(t)) => TypeMatches(t, v)
    case Some(Arr(ts)) => exists i :: 0 <= i < |ts| && ts[i].Str? && TypeMatches(ts[i].s, v)
    case _ => true
  }

  predicate EnumOk(s: map<string, Value>, v: Value) {
    List(s, "enum").Some? ==> v in List(s, "enum").value
  }

  predicate ConstOk(s: map<string, Value>, v: Value) {
    "const" in s ==> s["const"] == v
  }

  predicate Nulled(s: map<string, Value>, v: Value) {
    v.Null? && Get(s, "nullable") == Some(Bool(true))
  }

  function TrimStart(p: string, c: char): string {
    if p != "" && p[0] == c then TrimStart(p[1..], c) else p
  }

  function TrimEnd(p: string, c: char): string {
    if p != "" && p[|p| - 1] == c then TrimEnd(p[..|p| - 1], c) else p
  }

  function Core(p: string): string {
    TrimEnd(TrimStart(p, '^'), '$')
  }

  predicate Literal(p: string) {
    Core(p) == ".*" || forall i :: 0 <= i < |Core(p)| ==> Core(p)[i] !in ".*+?()[]{}|\\"
  }

  predicate Contains(s: string, t: string) {
    exists i :: 0 <= i <= |s| && t <= s[i..]
  }

  predicate LiteralMatches(p: string, s: string) {
    var core := Core(p);
    var fromStart := p != "" && p[0] == '^';
    var toEnd := p != "" && p[|p| - 1] == '$';
    if !Literal(p) || core == ".*" then true
    else if fromStart && toEnd then s == core
    else if fromStart then core <= s
    else if toEnd then |core| <= |s| && s[|s| - |core|..] == core
    else Contains(s, core)
  }

  predicate PatternOk(cx: Cx, p: string, st: string) {
    if Literal(p) then LiteralMatches(p, st)
    else cx.resolver.Some? ==> (p, st) in cx.resolver.value.checks && cx.resolver.value.checks[(p, st)]
  }

  predicate AtLeast(limit: Option<nat>, n: nat) {
    limit.Some? ==> n >= limit.value
  }

  predicate AtMost(limit: Option<nat>, n: nat) {
    limit.Some? ==> n <= limit.value
  }

  predicate StringOk(cx: Cx, s: map<string, Value>, st: string) {
    && AtLeast(Limit(s, "minLength"), |st|)
    && AtMost(Limit(s, "maxLength"), |st|)
    && ("pattern" in s && s["pattern"].Str? ==> PatternOk(cx, s["pattern"].s, st))
  }

  /** The nearest whole number, halves away from zero. */
  function Round(q: real): real {
    if q >= 0.0 then (q + 0.5).Floor as real else -((-q + 0.5).Floor as real)
  }

  predicate MultipleOk(x: real, m: real) {
    m > 0.0 ==> -0.000000001 <= x / m - Round(x / m) <= 0.000000001
  }

  predicate NumberOk(s: map<string, Value>, n: Number) {
    var x := AsReal(n);
    && (Bound(s, "minimum").Some? ==> x >= Bound(s, "minimum").value)
    && (Bound(s, "maximum").Some? ==> x <= Bound(s, "maximum").value)
    && (Bound(s, "exclusiveMinimum").Some? ==> x > Bound(s, "exclusiveMinimum").value)
    && (Bound(s, "exclusiveMaximum").Some? ==> x < Bound(s, "exclusiveMaximum").value)
    && (Bound(s, "multipleOf").Some? ==> MultipleOk(x, Bound(s, "multipleOf").value))
  }

  predicate RequiredOk(s: map<string, Value>, obj: map<string, Value>) {
    var req := List(s, "required");
    req.Some? ==> forall i :: 0 <= i < |req.value| && req.value[i].Str? ==> req.value[i].s in obj
  }

  predicate DependentOk(s: map<string, Value>, obj: map<string, Value>) {
    var deps := Table(s, "dependentRequired");
    forall k :: k in deps && k in obj && deps[k].Arr? ==>
      forall i :: 0 <= i < |deps[k].items| && deps[k].items[i].Str? ==> deps[k].items[i].s in obj
  }

  predicate ObjectSizeOk(s: map<string, Value>, obj: map<string, Value>) {
    AtLeast(Limit(s, "minProperties"), |obj|) && AtMost(Limit(s, "maxProperties"), |obj|)
  }

  predicate ArraySizeOk(s: map<string, Value>, arr: seq<Value>) {
    AtLeast(Limit(s, "minItems"), |arr|) && AtMost(Limit(s, "maxItems"), |arr|)
  }

  predicate UniqueOk(s: map<string, Value>, arr: seq<Value>) {
    Get(s, "uniqueItems") == Some(Bool(true)) ==> forall i, j :: 0 <= i < j < |arr| ==> arr[i] != arr[j]
  }

  // --- the reading -----------------------------------------------------------

  /** Does the goal hold, following schemas at most `n` levels deep? */
  ghost predicate Holds(g: Goal, n: nat)
    decreases n, 0
  {
    n > 0 && Node(g, n - 1)
  }

  ghost predicate Node(g: Goal, n: nat)
    decreases n, 5
  {
    match g.schema
    case Bool(b) => b
    case Obj(s) => RefOk(g, n) && (Nulled(s, g.value) || Body(g, n))
    case _ => false
  }

  ghost predicate Body(g: Goal, n: nat)
    requires g.schema.Obj?
    decreases n, 4
  {
    var s, v := g.schema.fields, g.value;
    && TypeOk(s, v) && EnumOk(s, v) && ConstOk(s, v)
    && (v.Obj? ==> ObjectOk(g, n))
    && (v.Arr? ==> ArrayOk(g, n))
    && (v.Str? ==> StringOk(g.cx, s, v.s))
    && (v.Num? ==> NumberOk(s, v.n))
    && Combined(g, n)
  }

  ghost predicate RefOk(g: Goal, n: nat)
    requires g.schema.Obj?
    decreases n, 3
  {
    match Get(g.schema.fields, "$ref")
    case Some(Str(r)) =>
      (match ResolveIn(g.cx, r)
       case None => false
       case Some(t) => Holds(Goal(t.0, t.1, g.value), n))
    case _ => true
  }

  ghost predicate ObjectOk(g: Goal, n: nat)
    requires g.schema.Obj? && g.value.Obj?
    decreases n, 3
  {
    var s, obj := g.schema.fields, g.value.fields;
    && RequiredOk(s, obj) && ObjectSizeOk(s, obj) && DependentOk(s, obj)
    && forall k :: k in obj ==> PropOk(g.cx, s, k, obj[k], n)
  }

  predicate Covered(s: map<string, Value>, k: string) {
    k in Table(s, "properties") || exists pat :: pat in Table(s, "patternProperties") && LiteralMatches(pat, k)
  }

  ghost predicate PropOk(cx: Cx, s: map<string, Value>, k: string, v: Value, n: nat)
    decreases n, 2
  {
    && (k in Table(s, "properties") ==> Holds(Goal(cx, Table(s, "properties")[k], v), n))
    && (forall pat :: pat in Table(s, "patternProperties") && LiteralMatches(pat, k) ==>
          Holds(Goal(cx, Table(s, "patternProperties")[pat], v), n))
    && (!Covered(s, k) ==> OtherOk(cx, s, v, n))
  }

  ghost predicate OtherOk(cx: Cx, s: map<string, Value>, v: Value, n: nat)
    decreases n, 1
  {
    match Get(s, "additionalProperties")
    case Some(Bool(b)) => b
    case Some(Obj(fields)) => Holds(Goal(cx, Obj(fields), v), n)
    case _ => true
  }

  ghost predicate ArrayOk(g: Goal, n: nat)
    requires g.schema.Obj? && g.value.Arr?
    decreases n, 3
  {
    var s, arr := g.schema.fields, g.value.items;
    && ArraySizeOk(s, arr) && UniqueOk(s, arr)
    && (forall i :: 0 <= i < |arr| ==> ItemOk(g.cx, s, i, arr[i], n))
    && ("contains" in s ==> exists i :: 0 <= i < |arr| && Holds(Goal(g.cx, s["contains"], arr[i]), n))
  }

  /** The schema item `i` is held to, if any; `None` for an item that may not be there. */
  datatype ItemRule = Free | Forbidden | Under(schema: Value)

  function RuleOf(s: map<string, Value>, i: nat): ItemRule {
    var prefix := List(s, "prefixItems");
    if prefix.Some? && i < |prefix.value| then Under(prefix.value[i])
    else match Get(s, "items")
      case Some(Bool(b)) => if !b && prefix.Some? then Forbidden else Under(Bool(b))
      case Some(Obj(fields)) => Under(Obj(fields))
      case _ => Free
  }

  ghost predicate ItemOk(cx: Cx, s: map<string, Value>, i: nat, v: Value, n: nat)
    decreases n, 1
  {
    match RuleOf(s, i)
    case Free => true
    case Forbidden => false
    case Under(schema) => Holds(Goal(cx, schema, v), n)
  }

  function With(g: Goal, schema: Value): Goal {
    g.(schema := schema)
  }

  ghost predicate Combined(g: Goal, n: nat)
    requires g.schema.Obj?
    decreases n, 3
  {
    var s := g.schema.fields;
    && (List(s, "allOf").Some? ==> AllHold(g, List(s, "allOf").value, n))
    && (List(s, "anyOf").Some? ==> AnyHolds(g, List(s, "anyOf").value, n))
    && (List(s, "oneOf").Some? ==> HowMany(g, List(s, "oneOf").value, n) == 1)
    && ("not" in s ==> !Holds(With(g, s["not"]), n))
    && ("if" in s ==> BranchOk(g, n))
  }

  ghost predicate AllHold(g: Goal, subs: seq<Value>, n: nat)
    decreases n, 1
  {
    forall i :: 0 <= i < |subs| ==> Holds(With(g, subs[i]), n)
  }

  ghost predicate AnyHolds(g: Goal, subs: seq<Value>, n: nat)
    decreases n, 1
  {
    exists i :: 0 <= i < |subs| && Holds(With(g, subs[i]), n)
  }

  ghost function HowMany(g: Goal, subs: seq<Value>, n: nat): nat
    decreases n, 1, |subs|
  {
    if subs == [] then 0
    else HowMany(g, subs[..|subs| - 1], n) + (if Holds(With(g, subs[|subs| - 1]), n) then 1 else 0)
  }

  ghost predicate BranchOk(g: Goal, n: nat)
    requires g.schema.Obj? && "if" in g.schema.fields
    decreases n, 1
  {
    var s := g.schema.fields;
    var branch := if Holds(With(g, s["if"]), n) then "then" else "else";
    branch in s ==> Holds(With(g, s[branch]), n)
  }
}
