/**
 What each keyword of the schema language means, on its own and said directly of
 the value: the laws the boolean reading, and so the validator, must agree with.
 References come first, since they move between documents.
 */
module Keywords {
  import opened Wrappers
  import opened Pointers
  import opened Schemas

  // --- references ------------------------------------------------------------

  function RefTo(r: string): Value {
    Obj(map["$ref" := Str(r)])
  }

  /** A document's name: not empty, and without the mark a pointer begins with. */
  predicate Names(d: string) {
    d != "" && '#' !in d
  }

  lemma {:induction false} NameBeforeHash(d: string, p: string)
    requires '#' !in d && (p == "" || p[0] == '#')
    ensures BeforeHash(d + p) == d && (d + p)[|d|..] == p
  {
    if d == "" {
      assert d + p == p;
    } else {
      assert (d + p)[0] == d[0] && (d + p)[1..] == d[1..] + p;
      NameBeforeHash(d[1..], p);
      assert d == [d[0]] + d[1..];
    }
  }

  lemma {:induction false} HashSplits(r: string)
    requires r != "" && r[0] != '#'
    ensures Names(BeforeHash(r))
    ensures var p := r[|BeforeHash(r)|..];
            r == BeforeHash(r) + p && (p == "" || p[0] == '#')
  {
    if |r| == 1 || r[1] == '#' {
      assert BeforeHash(r[1..]) == "";
      assert BeforeHash(r) == [r[0]];
    } else {
      HashSplits(r[1..]);
      assert r == [r[0]] + r[1..];
    }
  }

  /** A schema that is nothing but a reference holds exactly when what it names does. */
  lemma RefHolds(cx: Cx, r: string, v: Value, n: nat)
    ensures Holds(Goal(cx, RefTo(r), v), n + 1) <==>
            ResolveIn(cx, r).Some? && Holds(Goal(ResolveIn(cx, r).value.0, ResolveIn(cx, r).value.1, v), n)
  {
    hide ResolveIn;
    var g := Goal(cx, RefTo(r), v);
    Silent(g, n);
    assert Get(RefTo(r).fields, "$ref") == Some(Str(r));
    assert RefOk(g, n) <==>
           ResolveIn(cx, r).Some? && Holds(Goal(ResolveIn(cx, r).value.0, ResolveIn(cx, r).value.1, v), n);
  }

  /** Keywords that are not there ask nothing. */
  lemma Silent(g: Goal, n: nat)
    requires g.schema.Obj? && g.schema.fields.Keys <= {"$ref"}
    ensures Holds(g, n + 1) <==> RefOk(g, n)
  {
    hide Holds, RefOk;
    var s := g.schema.fields;
    assert "type" !in s && "enum" !in s && "const" !in s && "nullable" !in s;
    assert Body(g, n) by {
      if g.value.Obj? {
        NoObjectKeyword(g, n);
      }
      if g.value.Arr? {
        NoArrayKeyword(g, n);
      }
      NoCombinator(g, n);
    }
    HoldsOnce(g, n);
  }

  lemma HoldsOnce(g: Goal, n: nat)
    requires g.schema.Obj?
    ensures Holds(g, n + 1) <==> RefOk(g, n) && (Nulled(g.schema.fields, g.value) || Body(g, n))
  {
    hide RefOk, Body, Nulled;
    assert Holds(g, n + 1) == Node(g, n);
  }

  /** Members nothing is said of are free. */
  lemma FreeMembers(g: Goal, n: nat)
    requires g.schema.Obj? && g.value.Obj?
    requires g.schema.fields.Keys !! {"properties", "patternProperties", "additionalProperties"}
    ensures forall k :: k in g.value.fields ==> PropOk(g.cx, g.schema.fields, k, g.value.fields[k], n)
  {
    hide Holds;
    var s := g.schema.fields;
    assert Table(s, "properties") == map[] && Table(s, "patternProperties") == map[];
    forall k | k in g.value.fields ensures PropOk(g.cx, s, k, g.value.fields[k], n) {
      assert OtherOk(g.cx, s, g.value.fields[k], n);
    }
  }

  lemma NoObjectKeyword(g: Goal, n: nat)
    requires g.schema.Obj? && g.value.Obj?
    requires g.schema.fields.Keys !! {"required", "properties", "patternProperties", "additionalProperties",
                                      "minProperties", "maxProperties", "dependentRequired"}
    ensures ObjectOk(g, n)
  {
    hide Holds, PropOk;
    FreeMembers(g, n);
  }

  lemma NoArrayKeyword(g: Goal, n: nat)
    requires g.schema.Obj? && g.value.Arr?
    requires g.schema.fields.Keys !! {"prefixItems", "items", "minItems", "maxItems", "uniqueItems", "contains"}
    ensures ArrayOk(g, n)
  {
    hide Holds, ItemOk;
    FreeItems(g, n);
  }

  lemma FreeItems(g: Goal, n: nat)
    requires g.schema.Obj? && g.value.Arr? && g.schema.fields.Keys !! {"prefixItems", "items"}
    ensures forall i :: 0 <= i < |g.value.items| ==> ItemOk(g.cx, g.schema.fields, i, g.value.items[i], n)
  {
    hide Holds;
    var s, arr := g.schema.fields, g.value.items;
    forall i | 0 <= i < |arr| ensures ItemOk(g.cx, s, i, arr[i], n) {
      assert RuleOf(s, i) == Free;
    }
  }

  lemma NoCombinator(g: Goal, n: nat)
    requires g.schema.Obj? && g.schema.fields.Keys !! {"allOf", "anyOf", "oneOf", "not", "if"}
    ensures Combined(g, n)
  {
    hide Holds;
  }

  /** A reference into another document is that document's own local reference: it does not
      matter where it is made from. Without the document it holds of nothing. */
  lemma ForeignReference(root: Value, resolver: Option<Resolver>, d: string, p: string, v: Value, n: nat)
    requires Names(d) && (p == "" || p[0] == '#')
    ensures Holds(Goal(Cx(root, resolver), RefTo(d + p), v), n + 1) <==>
            && resolver.Some? && d in resolver.value.documents
            && Holds(Goal(Cx(resolver.value.documents[d], resolver), RefTo(if p == "" then "#" else p), v), n + 1)
  {
    hide Holds;
    var local := if p == "" then "#" else p;
    NameBeforeHash(d, p);
    NameBeforeHash("", local);
    assert "" + local == local;
    RefHolds(Cx(root, resolver), d + p, v, n);
    if resolver.Some? && d in resolver.value.documents {
      RefHolds(Cx(resolver.value.documents[d], resolver), local, v, n);
    }
  }

  /** So the referring document has no say in what a reference by name means. */
  lemma ReferrerHasNoSay(root: Value, other: Value, resolver: Option<Resolver>, r: string, v: Value, n: nat)
    requires r != "" && r[0] != '#'
    ensures Holds(Goal(Cx(root, resolver), RefTo(r), v), n) <==> Holds(Goal(Cx(other, resolver), RefTo(r), v), n)
  {
    if n > 0 {
      HashSplits(r);
      var d := BeforeHash(r);
      hide Holds, BeforeHash;
      ForeignReference(root, resolver, d, r[|d|..], v, n - 1);
      ForeignReference(other, resolver, d, r[|d|..], v, n - 1);
    }
  }

  /** A bare document name stands for the document, read as a schema of its own. */
  lemma DocumentReference(root: Value, resolver: Option<Resolver>, d: string, v: Value, n: nat)
    requires Names(d)
    ensures Holds(Goal(Cx(root, resolver), RefTo(d), v), n + 1) <==>
            && resolver.Some? && d in resolver.value.documents
            && Holds(Goal(Cx(resolver.value.documents[d], resolver), resolver.value.documents[d], v), n)
  {
    hide Holds;
    assert d + "" == d;
    ForeignReference(root, resolver, d, "", v, n);
    if resolver.Some? && d in resolver.value.documents {
      LocalReference(Cx(resolver.value.documents[d], resolver), [], v, n);
      assert "#" + Pointer([]) == "#";
    }
  }

  /** A local reference written for a path stands for the schema at that path, in the same
      document. */
  lemma LocalReference(cx: Cx, path: seq<Segment>, v: Value, n: nat)
    requires Fits(path) && Returns(path) && Lookup(cx.root, path).Some?
    ensures Holds(Goal(cx, RefTo("#" + Pointer(path)), v), n + 1) <==>
            Holds(Goal(cx, Lookup(cx.root, path).value, v), n)
  {
    hide Holds, Pointer, Lookup;
    var r := "#" + Pointer(path);
    PointerComesBack(cx.root, path);
    NameBeforeHash("", r);
    assert "" + r == r;
    RefHolds(cx, r, v, n);
  }

  ghost predicate SameButRef(s: map<string, Value>, s': map<string, Value>) {
    forall k :: k != "$ref" ==> (k in s <==> k in s') && (k in s ==> s[k] == s'[k])
  }

  lemma SameMember(cx: Cx, s: map<string, Value>, s': map<string, Value>, k: string, v: Value, n: nat)
    requires SameButRef(s, s')
    ensures PropOk(cx, s, k, v, n) <==> PropOk(cx, s', k, v, n)
  {
    hide Holds, LiteralMatches;
    assert Table(s, "properties") == Table(s', "properties");
    assert Table(s, "patternProperties") == Table(s', "patternProperties");
    assert Get(s, "additionalProperties") == Get(s', "additionalProperties");
    assert OtherOk(cx, s, v, n) <==> OtherOk(cx, s', v, n);
  }

  lemma SameObject(g: Goal, g': Goal, n: nat)
    requires g.schema.Obj? && g'.schema.Obj? && SameButRef(g.schema.fields, g'.schema.fields)
    requires g.cx == g'.cx && g.value == g'.value && g.value.Obj?
    ensures ObjectOk(g, n) <==> ObjectOk(g', n)
  {
    hide Holds, PropOk;
    var s, s' := g.schema.fields, g'.schema.fields;
    forall k | k in g.value.fields
      ensures PropOk(g.cx, s, k, g.value.fields[k], n) <==> PropOk(g.cx, s', k, g.value.fields[k], n)
    {
      SameMember(g.cx, s, s', k, g.value.fields[k], n);
    }
    assert List(s, "required") == List(s', "required");
    assert Table(s, "dependentRequired") == Table(s', "dependentRequired");
    assert RequiredOk(s, g.value.fields) <==> RequiredOk(s', g.value.fields);
    assert DependentOk(s, g.value.fields) <==> DependentOk(s', g.value.fields);
    assert ObjectSizeOk(s, g.value.fields) <==> ObjectSizeOk(s', g.value.fields);
  }

  lemma SameArray(g: Goal, g': Goal, n: nat)
    requires g.schema.Obj? && g'.schema.Obj? && SameButRef(g.schema.fields, g'.schema.fields)
    requires g.cx == g'.cx && g.value == g'.value && g.value.Arr?
    ensures ArrayOk(g, n) <==> ArrayOk(g', n)
  {
    hide Holds;
    var s, s' := g.schema.fields, g'.schema.fields;
    forall i | 0 <= i < |g.value.items| ensures RuleOf(s, i) == RuleOf(s', i) {
    }
  }

  lemma SameCombined(g: Goal, g': Goal, n: nat)
    requires g.schema.Obj? && g'.schema.Obj? && SameButRef(g.schema.fields, g'.schema.fields)
    requires g.cx == g'.cx && g.value == g'.value
    ensures Combined(g, n) <==> Combined(g', n)
  {
    hide Holds;
    var s, s' := g.schema.fields, g'.schema.fields;
    assert forall sub :: With(g, sub) == With(g', sub);
    if List(s, "oneOf").Some? {
      SameCount(g, g', List(s, "oneOf").value, n);
    }
    if "if" in s {
      assert BranchOk(g, n) <==> BranchOk(g', n);
    }
  }

  lemma {:induction false} SameCount(g: Goal, g': Goal, subs: seq<Value>, n: nat)
    requires g.cx == g'.cx && g.value == g'.value
    ensures HowMany(g, subs, n) == HowMany(g', subs, n)
  {
    hide Holds;
    if subs == [] {
    } else {
      SameCount(g, g', subs[..|subs| - 1], n);
    }
  }

  /** What stands beside a reference is asked as well: such a schema holds exactly when the
      reference does and the rest does. */
  lemma SiblingsApply(cx: Cx, s: map<string, Value>, r: string, v: Value, n: nat)
    requires "$ref" in s && s["$ref"] == Str(r)
    ensures Holds(Goal(cx, Obj(s), v), n + 1) <==>
            Holds(Goal(cx, RefTo(r), v), n + 1) && Holds(Goal(cx, Obj(s - {"$ref"}), v), n + 1)
  {
    hide Holds, ObjectOk, ArrayOk, Combined, StringOk, NumberOk;
    var g, g', h := Goal(cx, Obj(s), v), Goal(cx, Obj(s - {"$ref"}), v), Goal(cx, RefTo(r), v);
    assert SameButRef(s, s - {"$ref"});
    HoldsOnce(g, n);
    HoldsOnce(g', n);
    Silent(h, n);
    assert RefOk(g, n) <==> RefOk(h, n);
    assert RefOk(g', n);
    SamePlain(cx, s, s - {"$ref"}, v);
    if v.Obj? {
      SameObject(g, g', n);
    }
    if v.Arr? {
      SameArray(g, g', n);
    }
    SameCombined(g, g', n);
  }

  lemma SamePlain(cx: Cx, s: map<string, Value>, s': map<string, Value>, v: Value)
    requires SameButRef(s, s')
    ensures TypeOk(s, v) <==> TypeOk(s', v)
    ensures (EnumOk(s, v) <==> EnumOk(s', v)) && (ConstOk(s, v) <==> ConstOk(s', v))
    ensures Nulled(s, v) <==> Nulled(s', v)
    ensures v.Str? ==> (StringOk(cx, s, v.s) <==> StringOk(cx, s', v.s))
    ensures v.Num? ==> (NumberOk(s, v.n) <==> NumberOk(s', v.n))
  {
    hide TypeMatches, PatternOk, MultipleOk, NumberOk;
    SameNumber(s, s', v);
  }

  lemma SameNumber(s: map<string, Value>, s': map<string, Value>, v: Value)
    requires SameButRef(s, s')
    ensures v.Num? ==> (NumberOk(s, v.n) <==> NumberOk(s', v.n))
  {
    hide MultipleOk;
  }

  // --- schemas that are not objects ------------------------------------------

  /** `true` takes everything; `false`, and whatever is no schema, nothing. */
  lemma PlainSchemas(cx: Cx, schema: Value, v: Value, n: nat)
    requires !schema.Obj?
    ensures Holds(Goal(cx, schema, v), n + 1) <==> schema == Bool(true)
  {
    assert Holds(Goal(cx, schema, v), n + 1) == Node(Goal(cx, schema, v), n);
  }

  // --- one keyword at a time -------------------------------------------------

  /** The schema with this keyword alone takes the value. */
  ghost predicate Takes(cx: Cx, keyword: string, x: Value, v: Value, n: nat) {
    Holds(Goal(cx, Obj(map[keyword := x]), v), n + 1)
  }

  lemma Alone(cx: Cx, keyword: string, x: Value, v: Value, n: nat)
    requires keyword != "$ref"
    ensures Takes(cx, keyword, x, v, n) <==>
            var g := Goal(cx, Obj(map[keyword := x]), v);
            (keyword == "nullable" && x == Bool(true) && v == Null) || Body(g, n)
  {
    hide Holds, Body;
    var g := Goal(cx, Obj(map[keyword := x]), v);
    assert RefOk(g, n);
    HoldsOnce(g, n);
  }

  const OBJECT_KEYWORDS := {"required", "properties", "patternProperties", "additionalProperties",
                            "minProperties", "maxProperties", "dependentRequired"}
  const ARRAY_KEYWORDS := {"prefixItems", "items", "minItems", "maxItems", "uniqueItems", "contains"}
  const COMBINATORS := {"allOf", "anyOf", "oneOf", "not", "if"}

  const VALUE_KEYWORDS := {"$ref", "nullable", "type", "enum", "const", "minLength", "maxLength", "pattern",
                           "minimum", "maximum", "exclusiveMinimum", "exclusiveMaximum", "multipleOf"}

  lemma ObjectKeywordsApart()
    ensures OBJECT_KEYWORDS !! VALUE_KEYWORDS && OBJECT_KEYWORDS !! ARRAY_KEYWORDS && OBJECT_KEYWORDS !! COMBINATORS
  {
  }

  lemma ArrayKeywordsApart()
    ensures ARRAY_KEYWORDS !! VALUE_KEYWORDS && ARRAY_KEYWORDS !! OBJECT_KEYWORDS && ARRAY_KEYWORDS !! COMBINATORS
  {
  }

  lemma CombinatorsApart()
    ensures COMBINATORS !! VALUE_KEYWORDS && {"then", "else"} !! VALUE_KEYWORDS
    ensures COMBINATORS !! OBJECT_KEYWORDS && {"then", "else"} !! OBJECT_KEYWORDS
    ensures COMBINATORS !! ARRAY_KEYWORDS && {"then", "else"} !! ARRAY_KEYWORDS
  {
    ObjectKeywordsApart();
    ArrayKeywordsApart();
  }

  /** Without the keywords of plain values, nothing is asked of them. */
  lemma Quiet(g: Goal, n: nat)
    requires g.schema.Obj? && g.schema.fields.Keys !! VALUE_KEYWORDS
    ensures var s, v := g.schema.fields, g.value;
            && RefOk(g, n) && !Nulled(s, v) && TypeOk(s, v) && EnumOk(s, v) && ConstOk(s, v)
            && (v.Str? ==> StringOk(g.cx, s, v.s)) && (v.Num? ==> NumberOk(s, v.n))
  {
    hide Holds;
    var s := g.schema.fields;
    assert forall k :: k in VALUE_KEYWORDS ==> k !in s;
  }

  /** A keyword of plain values, on its own, asks of the value only what it says. */
  lemma ValueAlone(cx: Cx, keyword: string, x: Value, v: Value, n: nat)
    requires keyword in VALUE_KEYWORDS && keyword != "$ref" && keyword != "nullable"
    ensures var s := map[keyword := x];
            Takes(cx, keyword, x, v, n) <==>
              && TypeOk(s, v) && EnumOk(s, v) && ConstOk(s, v)
              && (v.Str? ==> StringOk(cx, s, v.s))
              && (v.Num? ==> NumberOk(s, v.n))
  {
    hide Holds, Takes, TypeOk, EnumOk, ConstOk, ObjectOk, ArrayOk, StringOk, NumberOk, Combined;
    var g := Goal(cx, Obj(map[keyword := x]), v);
    ObjectKeywordsApart();
    ArrayKeywordsApart();
    CombinatorsApart();
    Alone(cx, keyword, x, v, n);
    if v.Obj? {
      NoObjectKeyword(g, n);
    }
    if v.Arr? {
      NoArrayKeyword(g, n);
    }
    NoCombinator(g, n);
  }

  // --- any type --------------------------------------------------------------

  predicate Equals(r: real, i: int) {
    r == i as real
  }

  ghost predicate IsWhole(v: Value) {
    v.Num? && (v.n.Int? || exists i :: Equals(v.n.r, i))
  }

  lemma WholeFloor(r: real)
    ensures r.Floor as real == r <==> exists i :: Equals(r, i)
  {
    assert r.Floor as real == r ==> Equals(r, r.Floor);
    if i :| Equals(r, i) {
      assert r.Floor == i;
    }
  }

  ghost predicate OfType(v: Value, t: string) {
    || (t == "null" && v == Null)
    || (t == "boolean" && v in {Bool(true), Bool(false)})
    || (t == "object" && v.Obj?) || (t == "array" && v.Arr?) || (t == "string" && v.Str?) || (t == "number" && v.Num?)
    || (t == "integer" && IsWhole(v))
    || t !in {"null", "boolean", "object", "array", "string", "number", "integer"}
  }

  lemma TypeKeyword(cx: Cx, t: string, v: Value, n: nat)
    ensures Takes(cx, "type", Str(t), v, n) <==> OfType(v, t)
  {
    hide Takes;
    ValueAlone(cx, "type", Str(t), v, n);
    TypeNames(t, v);
  }

  lemma TypeNames(t: string, v: Value)
    ensures TypeMatches(t, v) <==> OfType(v, t)
  {
    if v.Num? && v.n.Float? {
      WholeFloor(v.n.r);
    }
    assert v.Bool? ==> v == Bool(v.b);
  }

  lemma TypesKeyword(cx: Cx, ts: seq<string>, v: Value, n: nat)
    ensures Takes(cx, "type", Arr(seq(|ts|, i requires 0 <= i < |ts| => Str(ts[i]))), v, n) <==>
            exists t :: t in ts && OfType(v, t)
  {
    hide Takes, OfType, TypeMatches;
    var xs := seq(|ts|, i requires 0 <= i < |ts| => Str(ts[i]));
    ValueAlone(cx, "type", Arr(xs), v, n);
    forall t ensures TypeMatches(t, v) <==> OfType(v, t) {
      TypeNames(t, v);
    }
    assert TypeOk(map["type" := Arr(xs)], v) <==> exists i :: 0 <= i < |xs| && xs[i].Str? && TypeMatches(xs[i].s, v);
    if t :| t in ts && OfType(v, t) {
      var i :| 0 <= i < |ts| && ts[i] == t;
      assert xs[i] == Str(t);
    }
  }

  lemma EnumKeyword(cx: Cx, xs: seq<Value>, v: Value, n: nat)
    ensures Takes(cx, "enum", Arr(xs), v, n) <==> exists i :: 0 <= i < |xs| && xs[i] == v
  {
    hide Takes;
    ValueAlone(cx, "enum", Arr(xs), v, n);
  }

  lemma ConstKeyword(cx: Cx, x: Value, v: Value, n: nat)
    ensures Takes(cx, "const", x, v, n) <==> v == x
  {
    hide Takes;
    ValueAlone(cx, "const", x, v, n);
  }

  /** With `nullable` a null is taken, whatever else is asked. */
  lemma NullableKeyword(cx: Cx, s: map<string, Value>, n: nat)
    requires "nullable" in s && s["nullable"] == Bool(true) && "$ref" !in s
    ensures Holds(Goal(cx, Obj(s), Null), n + 1)
  {
    hide Holds, Body;
    var g := Goal(cx, Obj(s), Null);
    assert RefOk(g, n);
    HoldsOnce(g, n);
  }

  /** Nothing but `true` makes it so. */
  lemma OnlyTrueIsNullable(cx: Cx, x: Value, n: nat)
    requires x != Bool(true)
    ensures !Holds(Goal(cx, Obj(map["nullable" := x, "type" := Str("string")]), Null), n + 1)
  {
    hide Holds;
    var s := map["nullable" := x, "type" := Str("string")];
    var g := Goal(cx, Obj(s), Null);
    HoldsOnce(g, n);
    assert s["nullable"] == x && s["type"] == Str("string");
    assert !TypeOk(s, Null);
  }

  // --- strings and numbers ---------------------------------------------------

  lemma MinLengthKeyword(cx: Cx, k: nat, v: Value, n: nat)
    ensures Takes(cx, "minLength", Num(Int(k)), v, n) <==> (v.Str? ==> k <= |v.s|)
  {
    hide Takes, NumberOk;
    ValueAlone(cx, "minLength", Num(Int(k)), v, n);
    NotANumberKeyword("minLength", Num(Int(k)), v);
    assert "minLength"[1] != "maxLength"[1];
  }

  lemma MaxLengthKeyword(cx: Cx, k: nat, v: Value, n: nat)
    ensures Takes(cx, "maxLength", Num(Int(k)), v, n) <==> (v.Str? ==> |v.s| <= k)
  {
    hide Takes, NumberOk;
    ValueAlone(cx, "maxLength", Num(Int(k)), v, n);
    NotANumberKeyword("maxLength", Num(Int(k)), v);
    assert "minLength"[1] != "maxLength"[1];
  }

  /** A length that is no whole number from nothing on asks nothing. */
  lemma NoLength(cx: Cx, keyword: string, x: Value, v: Value, n: nat)
    requires keyword in {"minLength", "maxLength"}
    requires !(x.Num? && x.n.Int? && x.n.i >= 0)
    ensures Takes(cx, keyword, x, v, n)
  {
    hide Takes, NumberOk;
    ValueAlone(cx, keyword, x, v, n);
    NotANumberKeyword(keyword, x, v);
    assert "minLength"[1] != "maxLength"[1];
  }

  lemma NotANumberKeyword(keyword: string, x: Value, v: Value)
    requires keyword !in {"minimum", "maximum", "exclusiveMinimum", "exclusiveMaximum", "multipleOf"}
    ensures v.Num? ==> NumberOk(map[keyword := x], v.n)
  {
  }

  lemma NumberAlone(cx: Cx, keyword: string, m: Number, v: Value, n: nat)
    requires keyword in {"minimum", "maximum", "exclusiveMinimum", "exclusiveMaximum", "multipleOf"}
    ensures Takes(cx, keyword, Num(m), v, n) <==> (v.Num? ==> NumberOk(map[keyword := Num(m)], v.n))
  {
    hide Takes, NumberOk;
    ValueAlone(cx, keyword, Num(m), v, n);
    assert keyword !in {"minLength", "maxLength", "pattern", "type", "enum", "const"};
  }

  /** A bound asks nothing but of numbers, and holds what it names. */
  lemma MinimumKeyword(cx: Cx, m: Number, v: Value, n: nat)
    ensures Takes(cx, "minimum", Num(m), v, n) <==> (v.Num? ==> AsReal(m) <= AsReal(v.n))
    ensures Takes(cx, "exclusiveMinimum", Num(m), v, n) <==> (v.Num? ==> AsReal(m) < AsReal(v.n))
  {
    hide Takes;
    NumberAlone(cx, "minimum", m, v, n);
    NumberAlone(cx, "exclusiveMinimum", m, v, n);
    assert "minimum"[1] != "maximum"[1] && "exclusiveMinimum"[10] != "exclusiveMaximum"[10];
  }

  lemma MaximumKeyword(cx: Cx, m: Number, v: Value, n: nat)
    ensures Takes(cx, "maximum", Num(m), v, n) <==> (v.Num? ==> AsReal(v.n) <= AsReal(m))
    ensures Takes(cx, "exclusiveMaximum", Num(m), v, n) <==> (v.Num? ==> AsReal(v.n) < AsReal(m))
  {
    hide Takes;
    NumberAlone(cx, "maximum", m, v, n);
    NumberAlone(cx, "exclusiveMaximum", m, v, n);
    assert "minimum"[1] != "maximum"[1] && "exclusiveMinimum"[10] != "exclusiveMaximum"[10];
  }

  /** `x` lies no further from the `k`-th multiple of `m` than a thousand-millionth of `m`. */
  predicate Near(x: real, m: real, k: int) {
    -m <= 1_000_000_000.0 * (x - k as real * m) <= m
  }

  ghost predicate NearMultiple(x: real, m: real) {
    exists k :: Near(x, m, k)
  }

  lemma Scales(f: real, g: real, m: real)
    requires m > 0.0
    ensures f <= g <==> f * m <= g * m
  {
    if f <= g {
      assert (g - f) * m >= 0.0;
    } else {
      assert (f - g) * m > 0.0;
    }
  }

  lemma NearQuotient(x: real, m: real, k: int)
    requires m > 0.0
    ensures Near(x, m, k) <==> -0.000000001 <= x / m - k as real <= 0.000000001
  {
    var d := x / m - k as real;
    assert x / m * m == x;
    assert d * m == x - k as real * m;
    Scales(d, 0.000000001, m);
    Scales(-0.000000001, d, m);
  }

  lemma RoundIsNear(q: real, k: int)
    requires -0.000000001 <= q - k as real <= 0.000000001
    ensures Round(q) == k as real
  {
    if q >= 0.0 {
      assert (q + 0.5).Floor == k;
    } else {
      assert (-q + 0.5).Floor == -k;
    }
  }

  lemma MultipleExactly(x: real, m: real)
    ensures MultipleOk(x, m) <==> (m > 0.0 ==> NearMultiple(x, m))
  {
    if m > 0.0 {
      var q := x / m;
      var k := if q >= 0.0 then (q + 0.5).Floor else -((-q + 0.5).Floor);
      assert Round(q) == k as real;
      NearQuotient(x, m, k);
      if NearMultiple(x, m) {
        var k' :| Near(x, m, k');
        NearQuotient(x, m, k');
        RoundIsNear(q, k');
      }
    }
  }

  /** `multipleOf` takes the numbers near a multiple. */
  lemma MultipleKeyword(cx: Cx, m: Number, v: Value, n: nat)
    ensures Takes(cx, "multipleOf", Num(m), v, n) <==>
            (v.Num? && AsReal(m) > 0.0 ==> NearMultiple(AsReal(v.n), AsReal(m)))
  {
    hide Takes, NearMultiple, MultipleOk;
    NumberAlone(cx, "multipleOf", m, v, n);
    if v.Num? {
      assert NumberOk(map["multipleOf" := Num(m)], v.n) <==> MultipleOk(AsReal(v.n), AsReal(m));
      MultipleExactly(AsReal(v.n), AsReal(m));
    }
  }

  lemma NearWhole(x: int, m: int, k: int)
    ensures Near(x as real, m as real, k) <==> -m <= 1_000_000_000 * (x - k * m) <= m
  {
    var d := x - k * m;
    assert d as real == x as real - k as real * m as real by {
      assert (k * m) as real == k as real * m as real;
    }
    assert (1_000_000_000 * d) as real == 1_000_000_000.0 * d as real;
  }

  lemma NextMultiples(x: int, m: int, k: int)
    requires m > 0 && -m <= 1_000_000_000 * (x - k * m) <= m
    ensures k == x / m || k == x / m + 1
  {
    var j := x / m - k;
    assert x - k * m == j * m + x % m;
    if j >= 1 {
      Grows(1, j, m);
    } else if j <= -2 {
      Grows(j, -2, m);
    }
  }

  lemma Grows(i: int, j: int, m: int)
    requires i <= j && m > 0
    ensures i * m <= j * m
  {
  }

  /** Whole numbers are near a multiple when the remainder, or what it lacks of the factor, is no
      more than a thousand-millionth of the factor: for factors below that, when there is none. */
  lemma WholeMultiples(x: int, m: int)
    requires m > 0
    ensures NearMultiple(x as real, m as real) <==>
            1_000_000_000 * (x % m) <= m || 1_000_000_000 * (m - x % m) <= m
    ensures m < 1_000_000_000 ==> (NearMultiple(x as real, m as real) <==> x % m == 0)
  {
    hide Near;
    var k := x / m;
    assert x - k * m == x % m && x - (k + 1) * m == x % m - m;
    NearWhole(x, m, k);
    NearWhole(x, m, k + 1);
    if NearMultiple(x as real, m as real) {
      var j :| Near(x as real, m as real, j);
      NearWhole(x, m, j);
      NextMultiples(x, m, j);
    }
  }

  /** What a pattern says of a text, in words. */
  lemma PatternKeyword(cx: Cx, p: string, v: Value, n: nat)
    ensures Takes(cx, "pattern", Str(p), v, n) <==> (v.Str? ==> PatternOk(cx, p, v.s))
  {
    hide Takes, PatternOk;
    ValueAlone(cx, "pattern", Str(p), v, n);
  }

  // --- objects ---------------------------------------------------------------

  lemma OnlyObjectKeywords(g: Goal, n: nat)
    requires g.schema.Obj? && g.schema.fields.Keys <= OBJECT_KEYWORDS
    ensures Holds(g, n + 1) <==> (g.value.Obj? ==> ObjectOk(g, n))
  {
    hide Holds, ObjectOk, ArrayOk, Combined, TypeOk, EnumOk, ConstOk, StringOk, NumberOk, RefOk, Nulled;
    ObjectKeywordsApart();
    Quiet(g, n);
    HoldsOnce(g, n);
    if g.value.Arr? {
      NoArrayKeyword(g, n);
    }
    NoCombinator(g, n);
  }

  lemma MinPropertiesKeyword(cx: Cx, k: nat, v: Value, n: nat)
    ensures Takes(cx, "minProperties", Num(Int(k)), v, n) <==> (v.Obj? ==> k <= |v.fields|)
  {
    hide Holds, PropOk;
    var g := Goal(cx, Obj(map["minProperties" := Num(Int(k))]), v);
    OnlyObjectKeywords(g, n);
    if v.Obj? {
      FreeMembers(g, n);
    }
    assert "minProperties"[1] != "maxProperties"[1];
  }

  lemma MaxPropertiesKeyword(cx: Cx, k: nat, v: Value, n: nat)
    ensures Takes(cx, "maxProperties", Num(Int(k)), v, n) <==> (v.Obj? ==> |v.fields| <= k)
  {
    hide Holds, PropOk;
    var g := Goal(cx, Obj(map["maxProperties" := Num(Int(k))]), v);
    OnlyObjectKeywords(g, n);
    if v.Obj? {
      FreeMembers(g, n);
    }
    assert "minProperties"[1] != "maxProperties"[1];
  }

  lemma RequiredKeyword(cx: Cx, names: seq<string>, v: Value, n: nat)
    ensures Takes(cx, "required", Arr(seq(|names|, i requires 0 <= i < |names| => Str(names[i]))), v, n) <==>
            (v.Obj? ==> forall k :: k in names ==> k in v.fields)
  {
    hide Holds, PropOk;
    var x := Arr(seq(|names|, i requires 0 <= i < |names| => Str(names[i])));
    OnlyObjectKeywords(Goal(cx, Obj(map["required" := x]), v), n);
    if v.Obj? {
      FreeMembers(Goal(cx, Obj(map["required" := x]), v), n);
      assert forall i :: 0 <= i < |names| ==> x.items[i] == Str(names[i]);
      assert RequiredOk(map["required" := x], v.fields) <==> forall i :: 0 <= i < |names| ==> names[i] in v.fields;
    }
  }

  /** What a member that is there needs beside it. */
  lemma DependentRequiredKeyword(cx: Cx, k: string, need: string, v: Value, n: nat)
    ensures Takes(cx, "dependentRequired", Obj(map[k := Arr([Str(need)])]), v, n) <==>
            (v.Obj? && k in v.fields ==> need in v.fields)
  {
    hide Holds, PropOk;
    var x := Obj(map[k := Arr([Str(need)])]);
    OnlyObjectKeywords(Goal(cx, Obj(map["dependentRequired" := x]), v), n);
    if v.Obj? {
      FreeMembers(Goal(cx, Obj(map["dependentRequired" := x]), v), n);
      NeedsOne(k, need, v.fields);
    }
  }

  lemma NeedsOne(k: string, need: string, obj: map<string, Value>)
    ensures DependentOk(map["dependentRequired" := Obj(map[k := Arr([Str(need)])])], obj) <==>
            (k in obj ==> need in obj)
  {
    var deps := map[k := Arr([Str(need)])];
    assert Table(map["dependentRequired" := Obj(deps)], "dependentRequired") == deps;
    assert deps[k].items[0] == Str(need) && |deps[k].items| == 1;
  }

  /** The three keywords that say what members are held to, together: a member is held to its
      own schema and to that of every pattern its name matches, and one that is neither named
      nor matched to the schema for the rest. */
  lemma MemberKeywords(cx: Cx, props: map<string, Value>, pats: map<string, Value>, rest: Value, v: Value, n: nat)
    requires rest.Obj? || rest.Bool?
    ensures var s := map["properties" := Obj(props), "patternProperties" := Obj(pats), "additionalProperties" := rest];
            Holds(Goal(cx, Obj(s), v), n + 1) <==>
              (v.Obj? ==> forall k :: k in v.fields ==>
                            MemberTaken(cx, props, pats, rest, k, v.fields[k], n))
  {
    hide Holds, PropOk, MemberTaken;
    var s := map["properties" := Obj(props), "patternProperties" := Obj(pats), "additionalProperties" := rest];
    var g := Goal(cx, Obj(s), v);
    OnlyObjectKeywords(g, n);
    if v.Obj? {
      forall k | k in v.fields
        ensures PropOk(cx, s, k, v.fields[k], n) <==> MemberTaken(cx, props, pats, rest, k, v.fields[k], n)
      {
        MemberExactly(cx, s, props, pats, rest, k, v.fields[k], n);
      }
      assert RequiredOk(s, v.fields) && ObjectSizeOk(s, v.fields) && DependentOk(s, v.fields);
    }
  }

  lemma MemberExactly(cx: Cx, s: map<string, Value>, props: map<string, Value>, pats: map<string, Value>, rest: Value,
                      k: string, v: Value, n: nat)
    requires rest.Obj? || rest.Bool?
    requires s == map["properties" := Obj(props), "patternProperties" := Obj(pats), "additionalProperties" := rest]
    ensures PropOk(cx, s, k, v, n) <==> MemberTaken(cx, props, pats, rest, k, v, n)
  {
    hide Holds, LiteralMatches;
    assert Table(s, "properties") == props && Table(s, "patternProperties") == pats;
    assert Get(s, "additionalProperties") == Some(rest);
    assert OtherOk(cx, s, v, n) <==> (if rest.Bool? then rest.b else Holds(Goal(cx, rest, v), n));
  }

  ghost predicate MemberTaken(cx: Cx, props: map<string, Value>, pats: map<string, Value>, rest: Value,
                              k: string, v: Value, n: nat)
  {
    && (k in props ==> Holds(Goal(cx, props[k], v), n))
    && (forall p :: p in pats && LiteralMatches(p, k) ==> Holds(Goal(cx, pats[p], v), n))
    && (k !in props && (forall p :: p in pats ==> !LiteralMatches(p, k)) ==>
          if rest.Bool? then rest.b else Holds(Goal(cx, rest, v), n))
  }

  // --- arrays ----------------------------------------------------------------

  lemma OnlyArrayKeywords(g: Goal, n: nat)
    requires g.schema.Obj? && g.schema.fields.Keys <= ARRAY_KEYWORDS
    ensures Holds(g, n + 1) <==> (g.value.Arr? ==> ArrayOk(g, n))
  {
    hide Holds, ObjectOk, ArrayOk, Combined, TypeOk, EnumOk, ConstOk, StringOk, NumberOk, RefOk, Nulled;
    ArrayKeywordsApart();
    Quiet(g, n);
    HoldsOnce(g, n);
    if g.value.Obj? {
      NoObjectKeyword(g, n);
    }
    NoCombinator(g, n);
  }

  lemma ItemCountKeywords(cx: Cx, k: nat, v: Value, n: nat)
    ensures Takes(cx, "minItems", Num(Int(k)), v, n) <==> (v.Arr? ==> k <= |v.items|)
    ensures Takes(cx, "maxItems", Num(Int(k)), v, n) <==> (v.Arr? ==> |v.items| <= k)
  {
    hide Holds, ItemOk;
    var g, h := Goal(cx, Obj(map["minItems" := Num(Int(k))]), v), Goal(cx, Obj(map["maxItems" := Num(Int(k))]), v);
    OnlyArrayKeywords(g, n);
    OnlyArrayKeywords(h, n);
    if v.Arr? {
      FreeItems(g, n);
      FreeItems(h, n);
    }
    assert "minItems"[1] != "maxItems"[1];
  }

  lemma UniqueKeyword(cx: Cx, v: Value, n: nat)
    ensures Takes(cx, "uniqueItems", Bool(true), v, n) <==>
            (v.Arr? ==> forall i, j :: 0 <= i < |v.items| && 0 <= j < |v.items| && v.items[i] == v.items[j] ==> i == j)
  {
    hide Holds, ItemOk;
    var g := Goal(cx, Obj(map["uniqueItems" := Bool(true)]), v);
    OnlyArrayKeywords(g, n);
    if v.Arr? {
      FreeItems(g, n);
    }
  }

  lemma ContainsKeyword(cx: Cx, sub: Value, v: Value, n: nat)
    ensures Takes(cx, "contains", sub, v, n) <==>
            (v.Arr? ==> exists i :: 0 <= i < |v.items| && Holds(Goal(cx, sub, v.items[i]), n))
  {
    hide Holds, ItemOk;
    var g := Goal(cx, Obj(map["contains" := sub]), v);
    OnlyArrayKeywords(g, n);
    if v.Arr? {
      FreeItems(g, n);
    }
  }

  /** The first items are each held to their own schema, and those after them to the schema for
      the rest. */
  lemma ItemKeywords(cx: Cx, prefix: seq<Value>, rest: Value, v: Value, n: nat)
    requires rest.Obj? || rest.Bool?
    ensures var s := map["prefixItems" := Arr(prefix), "items" := rest];
            Holds(Goal(cx, Obj(s), v), n + 1) <==>
              (v.Arr? ==> forall i :: 0 <= i < |v.items| ==>
                            ItemTaken(cx, prefix, rest, i, v.items[i], n))
  {
    hide Holds, ItemTaken, ItemOk;
    var s := map["prefixItems" := Arr(prefix), "items" := rest];
    var g := Goal(cx, Obj(s), v);
    OnlyArrayKeywords(g, n);
    if v.Arr? {
      forall i | 0 <= i < |v.items|
        ensures ItemOk(cx, s, i, v.items[i], n) <==> ItemTaken(cx, prefix, rest, i, v.items[i], n)
      {
        ItemExactly(cx, s, prefix, rest, i, v.items[i], n);
      }
      assert ArraySizeOk(s, v.items) && UniqueOk(s, v.items);
    }
  }

  ghost predicate ItemTaken(cx: Cx, prefix: seq<Value>, rest: Value, i: nat, v: Value, n: nat) {
    if i < |prefix| then Holds(Goal(cx, prefix[i], v), n)
    else rest != Bool(false) && Holds(Goal(cx, rest, v), n)
  }

  lemma ItemExactly(cx: Cx, s: map<string, Value>, prefix: seq<Value>, rest: Value, i: nat, v: Value, n: nat)
    requires (rest.Obj? || rest.Bool?) && s == map["prefixItems" := Arr(prefix), "items" := rest]
    ensures ItemOk(cx, s, i, v, n) <==> ItemTaken(cx, prefix, rest, i, v, n)
  {
    hide Holds;
    assert List(s, "prefixItems") == Some(prefix) && Get(s, "items") == Some(rest);
  }

  /** Without the first keyword the second is for every item. */
  lemma AllItemsKeyword(cx: Cx, rest: Value, v: Value, n: nat)
    requires rest.Obj? || rest.Bool?
    ensures Takes(cx, "items", rest, v, n) <==>
            (v.Arr? ==> forall i :: 0 <= i < |v.items| ==> Holds(Goal(cx, rest, v.items[i]), n))
  {
    hide Holds;
    var s := map["items" := rest];
    var g := Goal(cx, Obj(s), v);
    OnlyArrayKeywords(g, n);
    assert List(s, "prefixItems") == None && Get(s, "items") == Some(rest);
    if v.Arr? {
      forall i | 0 <= i < |v.items| ensures ItemOk(cx, s, i, v.items[i], n) <==> Holds(Goal(cx, rest, v.items[i]), n) {
      }
    }
  }

  // --- combinators -----------------------------------------------------------

  lemma OnlyCombinators(g: Goal, n: nat)
    requires g.schema.Obj? && g.schema.fields.Keys <= COMBINATORS + {"then", "else"}
    ensures Holds(g, n + 1) <==> Combined(g, n)
  {
    hide Holds, ObjectOk, ArrayOk, Combined, TypeOk, EnumOk, ConstOk, StringOk, NumberOk, RefOk, Nulled;
    CombinatorsApart();
    Quiet(g, n);
    HoldsOnce(g, n);
    if g.value.Obj? {
      NoObjectKeyword(g, n);
    }
    if g.value.Arr? {
      NoArrayKeyword(g, n);
    }
  }

  lemma ListCombinators(cx: Cx, subs: seq<Value>, v: Value, n: nat)
    ensures Takes(cx, "allOf", Arr(subs), v, n) <==> forall i :: 0 <= i < |subs| ==> Holds(Goal(cx, subs[i], v), n)
    ensures Takes(cx, "anyOf", Arr(subs), v, n) <==> exists i :: 0 <= i < |subs| && Holds(Goal(cx, subs[i], v), n)
  {
    hide Holds;
    var g, h := Goal(cx, Obj(map["allOf" := Arr(subs)]), v), Goal(cx, Obj(map["anyOf" := Arr(subs)]), v);
    OnlyCombinators(g, n);
    OnlyCombinators(h, n);
    assert "allOf"[0] != "oneOf"[0] && "anyOf"[0] != "oneOf"[0] && "allOf"[1] != "anyOf"[1];
    assert AllHold(g, subs, n) <==> forall i :: 0 <= i < |subs| ==> Holds(With(g, subs[i]), n);
    assert forall i :: 0 <= i < |subs| ==> With(g, subs[i]) == With(h, subs[i]) == Goal(cx, subs[i], v);
  }

  lemma {:induction false} HowManyExactly(g: Goal, subs: seq<Value>, n: nat)
    ensures HowMany(g, subs, n) == 0 <==> forall i :: 0 <= i < |subs| ==> !Holds(With(g, subs[i]), n)
    ensures HowMany(g, subs, n) == 1 <==>
            exists i :: 0 <= i < |subs| && OnlyOne(g, subs, n, i)
  {
    hide Holds;
    if subs == [] {
    } else {
      var last := |subs| - 1;
      var init := subs[..last];
      HowManyExactly(g, init, n);
      if Holds(With(g, subs[last]), n) {
        assert HowMany(g, init, n) == 0 ==> OnlyOne(g, subs, n, last);
        forall i | 0 <= i < |subs| && OnlyOne(g, subs, n, i) ensures HowMany(g, init, n) == 0 {
          assert i == last;
        }
      } else {
        forall i | 0 <= i < last ensures OnlyOne(g, init, n, i) <==> OnlyOne(g, subs, n, i) {
        }
      }
    }
  }

  ghost predicate OnlyOne(g: Goal, subs: seq<Value>, n: nat, i: nat) {
    && i < |subs| && Holds(With(g, subs[i]), n)
    && forall j :: 0 <= j < |subs| && Holds(With(g, subs[j]), n) ==> j == i
  }

  lemma OneOfKeyword(cx: Cx, subs: seq<Value>, v: Value, n: nat)
    ensures Takes(cx, "oneOf", Arr(subs), v, n) <==>
            exists i :: 0 <= i < |subs| && OnlyOne(Goal(cx, Bool(true), v), subs, n, i)
  {
    hide Holds, HowMany;
    var g, h := Goal(cx, Obj(map["oneOf" := Arr(subs)]), v), Goal(cx, Bool(true), v);
    OnlyCombinators(g, n);
    HowManyExactly(g, subs, n);
    assert "allOf"[0] != "oneOf"[0] && "anyOf"[0] != "oneOf"[0];
    forall i | 0 <= i < |subs| ensures OnlyOne(g, subs, n, i) <==> OnlyOne(h, subs, n, i) {
      assert forall j :: 0 <= j < |subs| ==> With(g, subs[j]) == With(h, subs[j]);
    }
  }

  lemma NotKeyword(cx: Cx, sub: Value, v: Value, n: nat)
    ensures Takes(cx, "not", sub, v, n) <==> !Holds(Goal(cx, sub, v), n)
  {
    hide Holds;
    var g := Goal(cx, Obj(map["not" := sub]), v);
    OnlyCombinators(g, n);
  }

  lemma IfKeyword(cx: Cx, cond: Value, yes: Value, no: Value, v: Value, n: nat)
    ensures var s := map["if" := cond, "then" := yes, "else" := no];
            Holds(Goal(cx, Obj(s), v), n + 1) <==>
            if Holds(Goal(cx, cond, v), n) then Holds(Goal(cx, yes, v), n) else Holds(Goal(cx, no, v), n)
  {
    hide Holds;
    var s := map["if" := cond, "then" := yes, "else" := no];
    var g := Goal(cx, Obj(s), v);
    OnlyCombinators(g, n);
    assert "then"[0] != "else"[0];
    assert s["then"] == yes && s["else"] == no && s["if"] == cond;
  }

  // --- literal patterns ------------------------------------------------------

  const META := ".*+?()[]{}|\\"

  /** A text a pattern can stand for as it is. */
  predicate PlainText(w: string) {
    && (forall i :: 0 <= i < |w| ==> w[i] !in META)
    && (w != "" ==> w[0] != '^' && w[|w| - 1] != '$')
  }

  /** A run of anchors: the code trims any number of them. */
  predicate All(t: string, c: char) {
    forall i :: 0 <= i < |t| ==> t[i] == c
  }

  lemma {:induction false} TrimHead(head: string, t: string)
    requires All(head, '^') && (t != "" ==> t[0] != '^')
    ensures TrimStart(head + t, '^') == t
  {
    if head == "" {
      assert head + t == t;
    } else {
      assert (head + t)[1..] == head[1..] + t;
      TrimHead(head[1..], t);
    }
  }

  lemma {:induction false} TrimTail(w: string, tail: string)
    requires All(tail, '$') && (w != "" ==> w[|w| - 1] != '$')
    ensures TrimEnd(w + tail, '$') == w
  {
    if tail == "" {
      assert w + tail == w;
    } else {
      var last := |tail| - 1;
      assert (w + tail)[..|w + tail| - 1] == w + tail[..last];
      TrimTail(w, tail[..last]);
    }
  }

  lemma TrimBoth(head: string, w: string, tail: string)
    requires All(head, '^') && All(tail, '$') && (w != "" ==> w[0] != '^' && w[|w| - 1] != '$')
    ensures Core(head + (w + tail)) == w
  {
    hide TrimStart, TrimEnd;
    assert w + tail != "" ==> (w + tail)[0] == if w != "" then w[0] else '$';
    TrimHead(head, w + tail);
    TrimTail(w, tail);
  }

  /** Between its anchors a pattern is taken by the letter if and only if it is `.*` or holds no
      character that is special. */
  lemma LiteralExactly(head: string, w: string, tail: string)
    requires All(head, '^') && All(tail, '$') && (w != "" ==> w[0] != '^' && w[|w| - 1] != '$')
    ensures Literal(head + (w + tail)) <==> w == ".*" || forall c :: c in w ==> c !in META
    ensures w == ".*" ==> forall s :: LiteralMatches(head + (w + tail), s)
  {
    TrimBoth(head, w, tail);
    hide Core;
    assert (forall c :: c in w ==> c !in META) <==> forall i :: 0 <= i < |w| ==> w[i] !in META;
  }

  lemma CoreOf(w: string, head: string, tail: string)
    requires PlainText(w) && head in {"", "^"} && tail in {"", "$"}
    ensures Core(head + (w + tail)) == w && Literal(head + (w + tail)) && w != ".*"
    ensures w != "" ==> w[0] != '^' && w[|w| - 1] != '$'
  {
    TrimBoth(head, w, tail);
    hide Core;
  }

  predicate OccursAt(s: string, w: string, i: nat) {
    i + |w| <= |s| && s[i..i + |w|] == w
  }

  lemma OccursIn(s: string, w: string, i: nat)
    requires i <= |s|
    ensures w <= s[i..] <==> OccursAt(s, w, i)
  {
    if i + |w| <= |s| {
      assert s[i..][..|w|] == s[i..i + |w|];
    }
  }

  lemma ContainsExactly(s: string, w: string)
    ensures Contains(s, w) <==> exists i :: OccursAt(s, w, i)
  {
    hide OccursAt;
    if i :| 0 <= i <= |s| && w <= s[i..] {
      OccursIn(s, w, i);
    }
    if i :| OccursAt(s, w, i) {
      OccursInside(s, w, i);
      OccursIn(s, w, i);
    }
  }

  lemma OccursInside(s: string, w: string, i: nat)
    requires OccursAt(s, w, i)
    ensures i + |w| <= |s|
  {
  }

  /** How a literal pattern is matched, once its anchors and its core are known. */
  lemma MatchedBy(p: string, w: string, s: string)
    requires Core(p) == w && Literal(p) && w != ".*"
    ensures var fromStart, toEnd := p != "" && p[0] == '^', p != "" && p[|p| - 1] == '$';
            LiteralMatches(p, s) <==>
              if fromStart && toEnd then s == w
              else if fromStart then w <= s
              else if toEnd then |w| <= |s| && s[|s| - |w|..] == w
              else Contains(s, w)
  {
    hide Core, Literal, Contains;
  }

  /** A plain text matches wherever it occurs; */
  lemma PlainMatches(w: string, s: string)
    requires PlainText(w)
    ensures LiteralMatches(w, s) <==> exists i :: OccursAt(s, w, i)
  {
    CoreOf(w, "", "");
    assert "" + (w + "") == w;
    hide PlainText, Core, Literal, LiteralMatches, Contains, OccursAt;
    MatchedBy(w, w, s);
    ContainsExactly(s, w);
  }

  /** `^` ties it to the beginning, */
  lemma FromStart(w: string, s: string)
    requires PlainText(w)
    ensures LiteralMatches("^" + w, s) <==> OccursAt(s, w, 0)
  {
    CoreOf(w, "^", "");
    hide PlainText, Core, Literal, LiteralMatches, Contains;
    var p := "^" + w;
    assert "^" + (w + "") == p;
    assert p[0] == '^' && p[|p| - 1] == if w == "" then '^' else w[|w| - 1];
    MatchedBy(p, w, s);
    OccursIn(s, w, 0);
    assert s[0..] == s;
  }

  lemma AnchoredEnd(w: string, p: string)
    requires PlainText(w) && p == w + "$"
    ensures Core(p) == w && Literal(p) && w != ".*"
    ensures p[|p| - 1] == '$' && p[0] != '^'
  {
    CoreOf(w, "", "$");
    hide PlainText, Core, Literal;
    assert "" + p == p;
    assert w != "" ==> p[0] == w[0];
  }

  lemma OccursLast(s: string, w: string)
    ensures |w| <= |s| ==> (OccursAt(s, w, |s| - |w|) <==> s[|s| - |w|..] == w)
  {
  }

  /** `$` to the end, */
  lemma ToEnd(w: string, s: string)
    requires PlainText(w)
    ensures LiteralMatches(w + "$", s) <==> |w| <= |s| && OccursAt(s, w, |s| - |w|)
  {
    hide PlainText, Core, Literal, LiteralMatches, Contains, OccursAt;
    var p := w + "$";
    AnchoredEnd(w, p);
    MatchedBy(p, w, s);
    OccursLast(s, w);
  }

  /** and both to the whole. */
  lemma WholeText(w: string, s: string)
    requires PlainText(w)
    ensures LiteralMatches("^" + (w + "$"), s) <==> s == w
  {
    CoreOf(w, "^", "$");
    hide PlainText, Core, Literal, LiteralMatches, Contains;
    var p := "^" + (w + "$");
    assert p[0] == '^' && p[|p| - 1] == '$';
    MatchedBy(p, w, s);
  }

  /** What the validator has no engine for is not held against a text without a resolver, and
      with one is held to the resolver's check; a missing check fails. */
  lemma OtherPatterns(cx: Cx, p: string, s: string)
    requires !Literal(p)
    ensures LiteralMatches(p, s) && exists i :: 0 <= i < |p| && p[i] in META
    ensures cx.resolver.None? ==> PatternOk(cx, p, s)
    ensures cx.resolver.Some? ==>
              var checks := cx.resolver.value.checks;
              PatternOk(cx, p, s) <==> if (p, s) in checks then checks[(p, s)] else false
  {
    var i :| 0 <= i < |Core(p)| && Core(p)[i] in META;
    CoreWithin(p);
    assert Core(p)[i] in Core(p);
    var j :| 0 <= j < |p| && p[j] == Core(p)[i];
  }

  lemma CoreWithin(p: string)
    ensures forall c :: c in Core(p) ==> c in p
  {
    TrimStartWithin(p, '^');
    TrimEndWithin(TrimStart(p, '^'), '$');
  }

  lemma {:induction false} TrimStartWithin(p: string, c: char)
    ensures forall x :: x in TrimStart(p, c) ==> x in p
  {
    if p == "" {
    } else if p[0] == c {
      TrimStartWithin(p[1..], c);
    }
  }

  lemma {:induction false} TrimEndWithin(p: string, c: char)
    ensures forall x :: x in TrimEnd(p, c) ==> x in p
  {
    if p == "" {
    } else if p[|p| - 1] == c {
      TrimEndWithin(p[..|p| - 1], c);
    }
  }
}
