/**
 The validator itself: a walk that pushes every violation onto a list, counts
 its depth up and down, and gives up past `MAX_DEPTH`. Each part is proved to
 leave the list alone exactly when the plain reading holds.
 */
module Validator {
  import opened Wrappers
  import opened Pointers
  import opened Schemas
  import opened CutOff
  import opened Keywords

  const MAX_DEPTH: nat := 64

  datatype Complaint =
    | TooDeep | NothingAllowed | InvalidSchema | Unresolvable
    | WrongType | NotInEnum | NotConst
    | MissingProperty(name: string) | UnknownProperty(name: string) | PropertyNeeds(name: string, needs: string)
    | TooFewProperties | TooManyProperties
    | ItemNotAllowed | TooFewItems | TooManyItems | NotUnique | NoneContained
    | TooShort | TooLong | NoPatternMatch
    | BelowMinimum | AboveMaximum | NotAboveMinimum | NotBelowMaximum | NotMultiple
    | NoneOfAny | NotExactlyOne | MatchesNot

  /** A violation and the pointer shown with it; the rest of its wording is left out. */
  datatype Violation = Violation(at: string, what: Complaint)

  /** How many levels are left at a depth. */
  function Levels(depth: nat): nat {
    if depth <= MAX_DEPTH then MAX_DEPTH + 1 - depth else 0
  }

  // --- what a part of the walk adds ------------------------------------------

  /** The pointer leads from `path` to a node of `value`. */
  ghost predicate PointsInto(value: Value, path: string, at: string) {
    exists segs :: Lookup(value, segs).Some? && at == Shown(path + Pointer(segs))
  }

  /** Earlier violations stay as they are; none is added exactly when `ok`; and every added
      one names a node of `value`. */
  ghost predicate Adds(errs: seq<Violation>, errs': seq<Violation>, ok: bool, value: Value, path: string) {
    && errs <= errs'
    && (errs' == errs <==> ok)
    && forall j :: |errs| <= j < |errs'| ==> PointsInto(value, path, errs'[j].at)
  }

  function Complain(errs: seq<Violation>, ok: bool, path: string, what: Complaint): seq<Violation> {
    if ok then errs else errs + [Violation(Shown(path), what)]
  }

  lemma AddsNothing(errs: seq<Violation>, value: Value, path: string)
    ensures Adds(errs, errs, true, value, path)
  {
  }

  lemma PointsHere(value: Value, path: string)
    ensures PointsInto(value, path, Shown(path))
  {
    assert Lookup(value, []).Some? && path + Pointer([]) == path;
  }

  lemma AddsCheck(e0: seq<Violation>, e1: seq<Violation>, before: bool, ok: bool, value: Value, path: string,
                  what: Complaint)
    requires Adds(e0, e1, before, value, path)
    ensures Adds(e0, Complain(e1, ok, path, what), before && ok, value, path)
  {
    PointsHere(value, path);
  }

  lemma AddsThen(e0: seq<Violation>, e1: seq<Violation>, e2: seq<Violation>, ok1: bool, ok2: bool, value: Value,
                 path: string)
    requires Adds(e0, e1, ok1, value, path) && Adds(e1, e2, ok2, value, path)
    ensures Adds(e0, e2, ok1 && ok2, value, path)
  {
  }

  lemma PointsChild(value: Value, path: string, seg: Segment, child: Value, at: string)
    requires Lookup(value, [seg]) == Some(child) && PointsInto(child, path + ("/" + Text(seg)), at)
    ensures PointsInto(value, path, at)
  {
    hide Text, Lookup, Shown;
    var segs :| Lookup(child, segs).Some? && at == Shown(path + ("/" + Text(seg)) + Pointer(segs));
    var all := [seg] + segs;
    LookupStep(value, seg, child, segs);
    assert all[1..] == segs;
    assert path + ("/" + Text(seg)) + Pointer(segs) == path + Pointer(all);
  }

  /** What is added below a member or an item is added below the whole. */
  lemma AddsChild(e0: seq<Violation>, e1: seq<Violation>, ok: bool, value: Value, path: string, seg: Segment,
                  child: Value)
    requires Lookup(value, [seg]) == Some(child)
    requires Adds(e0, e1, ok, child, path + ("/" + Text(seg)))
    ensures Adds(e0, e1, ok, value, path)
  {
    hide Text, Lookup, PointsInto;
    forall j | |e0| <= j < |e1| ensures PointsInto(value, path, e1[j].at) {
      PointsChild(value, path, seg, child, e1[j].at);
    }
  }

  lemma LookupStep(value: Value, seg: Segment, child: Value, segs: seq<Segment>)
    requires Lookup(value, [seg]) == Some(child)
    ensures Lookup(value, [seg] + segs) == Lookup(child, segs)
  {
    assert ([seg] + segs)[1..] == segs && [seg][1..] == [];
  }

  // --- keywords that ask nothing further -------------------------------------

  method RequiredCheck(s: map<string, Value>, value: Value, path: string, errs: seq<Violation>)
    returns (errs': seq<Violation>)
    requires value.Obj?
    ensures Adds(errs, errs', RequiredOk(s, value.fields), value, path)
  {
    errs' := errs;
    AddsNothing(errs, value, path);
    var req := List(s, "required");
    if req.Some? {
      hide Adds;
      for i := 0 to |req.value|
        invariant Adds(errs, errs',
                       forall j :: 0 <= j < i && req.value[j].Str? ==> req.value[j].s in value.fields,
                       value, path)
      {
        var r := req.value[i];
        if r.Str? {
          AddsCheck(errs, errs', forall j :: 0 <= j < i && req.value[j].Str? ==> req.value[j].s in value.fields,
                    r.s in value.fields, value, path, MissingProperty(r.s));
          errs' := Complain(errs', r.s in value.fields, path, MissingProperty(r.s));
        }
        assert (forall j :: 0 <= j < i + 1 && req.value[j].Str? ==> req.value[j].s in value.fields) <==>
               && (forall j :: 0 <= j < i && req.value[j].Str? ==> req.value[j].s in value.fields)
               && (r.Str? ==> r.s in value.fields);
      }
    }
  }

  predicate NeedsMet(needs: seq<Value>, upTo: nat, obj: map<string, Value>)
    requires upTo <= |needs|
  {
    forall i :: 0 <= i < upTo && needs[i].Str? ==> needs[i].s in obj
  }

  method NeedsCheck(k: string, needs: seq<Value>, value: Value, path: string, errs: seq<Violation>)
    returns (errs': seq<Violation>)
    requires value.Obj?
    ensures Adds(errs, errs', NeedsMet(needs, |needs|, value.fields), value, path)
  {
    errs' := errs;
    AddsNothing(errs, value, path);
    for i := 0 to |needs|
      invariant Adds(errs, errs', NeedsMet(needs, i, value.fields), value, path)
    {
      hide Adds;
      var n := needs[i];
      if n.Str? {
        AddsCheck(errs, errs', NeedsMet(needs, i, value.fields), n.s in value.fields, value, path,
                  PropertyNeeds(k, n.s));
        errs' := Complain(errs', n.s in value.fields, path, PropertyNeeds(k, n.s));
      }
      assert NeedsMet(needs, i + 1, value.fields) <==>
          NeedsMet(needs, i, value.fields) && (n.Str? ==> n.s in value.fields);
    }
  }

  ghost predicate DependentMet(deps: map<string, Value>, ks: set<string>, obj: map<string, Value>) {
    forall k :: k in ks && k in deps && k in obj && deps[k].Arr? ==> NeedsMet(deps[k].items, |deps[k].items|, obj)
  }

  method DependentCheck(s: map<string, Value>, value: Value, path: string, errs: seq<Violation>)
    returns (errs': seq<Violation>)
    requires value.Obj?
    ensures Adds(errs, errs', DependentOk(s, value.fields), value, path)
  {
    var deps := Table(s, "dependentRequired");
    errs' := errs;
    AddsNothing(errs, value, path);
    var todo := deps.Keys;
    while todo != {}
      invariant todo <= deps.Keys
      invariant Adds(errs, errs', DependentMet(deps, deps.Keys - todo, value.fields), value, path)
    {
      hide Adds, NeedsMet;
      var k :| k in todo;
      ghost var before := DependentMet(deps, deps.Keys - todo, value.fields);
      ghost var e1 := errs';
      if k in value.fields && deps[k].Arr? {
        errs' := NeedsCheck(k, deps[k].items, value, path, errs');
        AddsThen(errs, e1, errs', before, NeedsMet(deps[k].items, |deps[k].items|, value.fields), value, path);
      }
      assert deps.Keys - (todo - {k}) == deps.Keys - todo + {k};
      todo := todo - {k};
    }
    assert deps.Keys - todo == deps.Keys;
    assert DependentMet(deps, deps.Keys, value.fields) <==> DependentOk(s, value.fields);
  }

  method StringKeywords(cx: Cx, s: map<string, Value>, value: Value, path: string, errs: seq<Violation>)
    returns (errs': seq<Violation>)
    requires value.Str?
    ensures Adds(errs, errs', StringOk(cx, s, value.s), value, path)
  {
    AddsNothing(errs, value, path);
    hide Adds, PatternOk;
    var ok1 := AtLeast(Limit(s, "minLength"), |value.s|);
    AddsCheck(errs, errs, true, ok1, value, path, TooShort);
    errs' := Complain(errs, ok1, path, TooShort);
    var ok2 := AtMost(Limit(s, "maxLength"), |value.s|);
    AddsCheck(errs, errs', ok1, ok2, value, path, TooLong);
    errs' := Complain(errs', ok2, path, TooLong);
    if "pattern" in s && s["pattern"].Str? {
      var ok3 := PatternOk(cx, s["pattern"].s, value.s);
      AddsCheck(errs, errs', ok1 && ok2, ok3, value, path, NoPatternMatch);
      errs' := Complain(errs', ok3, path, NoPatternMatch);
    }
  }

  method NumberKeywords(s: map<string, Value>, value: Value, path: string, errs: seq<Violation>)
    returns (errs': seq<Violation>)
    requires value.Num?
    ensures Adds(errs, errs', NumberOk(s, value.n), value, path)
  {
    AddsNothing(errs, value, path);
    hide Adds, MultipleOk;
    var x := AsReal(value.n);
    var ok1 := Bound(s, "minimum").Some? ==> x >= Bound(s, "minimum").value;
    AddsCheck(errs, errs, true, ok1, value, path, BelowMinimum);
    errs' := Complain(errs, ok1, path, BelowMinimum);
    var ok2 := Bound(s, "maximum").Some? ==> x <= Bound(s, "maximum").value;
    AddsCheck(errs, errs', ok1, ok2, value, path, AboveMaximum);
    errs' := Complain(errs', ok2, path, AboveMaximum);
    var ok3 := Bound(s, "exclusiveMinimum").Some? ==> x > Bound(s, "exclusiveMinimum").value;
    AddsCheck(errs, errs', ok1 && ok2, ok3, value, path, NotAboveMinimum);
    errs' := Complain(errs', ok3, path, NotAboveMinimum);
    var ok4 := Bound(s, "exclusiveMaximum").Some? ==> x < Bound(s, "exclusiveMaximum").value;
    AddsCheck(errs, errs', ok1 && ok2 && ok3, ok4, value, path, NotBelowMaximum);
    errs' := Complain(errs', ok4, path, NotBelowMaximum);
    var ok5 := Bound(s, "multipleOf").Some? ==> MultipleOk(x, Bound(s, "multipleOf").value);
    AddsCheck(errs, errs', ok1 && ok2 && ok3 && ok4, ok5, value, path, NotMultiple);
    errs' := Complain(errs', ok5, path, NotMultiple);
  }

  method UniqueCheck(s: map<string, Value>, value: Value, path: string, errs: seq<Violation>)
    returns (errs': seq<Violation>)
    requires value.Arr?
    ensures Adds(errs, errs', UniqueOk(s, value.items), value, path)
  {
    AddsNothing(errs, value, path);
    errs' := errs;
    if Get(s, "uniqueItems") == Some(Bool(true)) {
      var arr := value.items;
      for i := 0 to |arr|
        invariant errs' == errs
        invariant forall j, k :: 0 <= j < i && j < k < |arr| ==> arr[j] != arr[k]
      {
        if arr[i] in arr[i + 1..] {
          AddsCheck(errs, errs, true, false, value, path, NotUnique);
          errs' := Complain(errs, false, path, NotUnique);
          return;
        }
      }
    }
  }

  // --- the walk --------------------------------------------------------------

  /** Walk one goal. `cut` says whether the walk gave up anywhere below. */
  method Walk(g: Goal, path: string, errs: seq<Violation>, depth: nat)
    returns (errs': seq<Violation>, depth': nat, ghost cut: bool)
    requires depth <= MAX_DEPTH + 1
    ensures depth' == depth
    ensures Adds(errs, errs', Holds(g, Levels(depth)), g.value, path)
    ensures !cut <==> Untouched(g, Levels(depth))
    decreases Levels(depth), 0
  {
    hide Adds, Visits;
    AddsNothing(errs, g.value, path);
    depth' := depth;
    if depth' > MAX_DEPTH {
      AddsCheck(errs, errs, true, false, g.value, path, TooDeep);
      return Complain(errs, false, path, TooDeep), depth', true;
    }
    depth' := depth' + 1;
    errs', depth', cut := WalkInner(g, path, errs, depth');
    depth' := depth' - 1;
  }

  method WalkInner(g: Goal, path: string, errs: seq<Violation>, depth: nat)
    returns (errs': seq<Violation>, depth': nat, ghost cut: bool)
    requires depth <= MAX_DEPTH + 1
    ensures depth' == depth
    ensures Adds(errs, errs', Node(g, Levels(depth)), g.value, path)
    ensures !cut <==> VisitsUntouched(g, Levels(depth))
    decreases Levels(depth), 5
  {
    hide Adds, Holds, VisitsRef, VisitsObject, VisitsArray, VisitsCombined;
    var v := g.value;
    AddsNothing(errs, v, path);
    errs', depth', cut := errs, depth, false;
    if g.schema.Bool? {
      AddsCheck(errs, errs, true, g.schema.b, v, path, NothingAllowed);
      return Complain(errs, g.schema.b, path, NothingAllowed), depth', false;
    }
    if !g.schema.Obj? {
      AddsCheck(errs, errs, true, false, v, path, InvalidSchema);
      return Complain(errs, false, path, InvalidSchema), depth', false;
    }
    var s := g.schema.fields;
    errs', depth', cut := Reference(g, path, errs', depth');
    if Nulled(s, v) {
      return;
    }
    ghost var e1, c1 := errs', cut;
    errs', depth', cut := WalkBody(g, path, errs', depth');
    AddsThen(errs, e1, errs', RefOk(g, Levels(depth)), Body(g, Levels(depth)), v, path);
    cut := cut || c1;
  }

  method Reference(g: Goal, path: string, errs: seq<Violation>, depth: nat)
    returns (errs': seq<Violation>, depth': nat, ghost cut: bool)
    requires depth <= MAX_DEPTH + 1 && g.schema.Obj?
    ensures depth' == depth
    ensures Adds(errs, errs', RefOk(g, Levels(depth)), g.value, path)
    ensures !cut <==> forall h :: VisitsRef(g, h) ==> Untouched(h, Levels(depth))
    decreases Levels(depth), 1
  {
    hide Adds, Holds, Untouched;
    AddsNothing(errs, g.value, path);
    errs', depth', cut := errs, depth, false;
    match Get(g.schema.fields, "$ref") {
      case Some(Str(r)) =>
        var target := ResolveIn(g.cx, r);
        if target.Some? {
          errs', depth', cut := Walk(Goal(target.value.0, target.value.1, g.value), path, errs', depth');
        } else {
          AddsCheck(errs, errs, true, false, g.value, path, Unresolvable);
          errs' := Complain(errs, false, path, Unresolvable);
        }
      case _ =>
    }
  }

  method WalkBody(g: Goal, path: string, errs: seq<Violation>, depth: nat)
    returns (errs': seq<Violation>, depth': nat, ghost cut: bool)
    requires depth <= MAX_DEPTH + 1 && g.schema.Obj?
    ensures depth' == depth
    ensures Adds(errs, errs', Body(g, Levels(depth)), g.value, path)
    ensures !cut <==>
            forall h ::
              VisitsObject(g, h) || VisitsArray(g, Levels(depth), h) || VisitsCombined(g, Levels(depth), h) ==>
                       Untouched(h, Levels(depth))
    decreases Levels(depth), 4
  {
    hide Adds, Holds, Untouched, TypeOk, EnumOk, ConstOk, ObjectOk, ArrayOk, StringOk, NumberOk, Combined,
         VisitsCombined;
    var s, v := g.schema.fields, g.value;
    AddsNothing(errs, v, path);
    errs', depth', cut := errs, depth, false;
    var ok1 := TypeOk(s, v);
    AddsCheck(errs, errs', true, ok1, v, path, WrongType);
    errs' := Complain(errs', ok1, path, WrongType);
    var ok2 := EnumOk(s, v);
    AddsCheck(errs, errs', ok1, ok2, v, path, NotInEnum);
    errs' := Complain(errs', ok2, path, NotInEnum);
    var ok3 := ConstOk(s, v);
    AddsCheck(errs, errs', ok1 && ok2, ok3, v, path, NotConst);
    errs' := Complain(errs', ok3, path, NotConst);
    ghost var e1, ok4 := errs', true;
    match v {
      case Obj(_) =>
        errs', depth', cut := ObjectKeywords(g, path, errs', depth');
        ok4 := ObjectOk(g, Levels(depth));
      case Arr(_) =>
        errs', depth', cut := ArrayKeywords(g, path, errs', depth');
        ok4 := ArrayOk(g, Levels(depth));
      case Str(_) =>
        errs' := StringKeywords(g.cx, s, v, path, errs');
        ok4 := StringOk(g.cx, s, v.s);
      case Num(_) =>
        errs' := NumberKeywords(s, v, path, errs');
        ok4 := NumberOk(s, v.n);
      case _ => AddsNothing(errs', v, path);
    }
    AddsThen(errs, e1, errs', ok1 && ok2 && ok3, ok4, v, path);
    ghost var e2, c2 := errs', cut;
    errs', depth', cut := Combinators(g, path, errs', depth');
    AddsThen(errs, e2, errs', ok1 && ok2 && ok3 && ok4, Combined(g, Levels(depth)), v, path);
    cut := cut || c2;
  }

  // --- objects ---------------------------------------------------------------

  ghost predicate PropsOk(g: Goal, ks: set<string>, n: nat)
    requires g.schema.Obj? && g.value.Obj?
  {
    forall k :: k in ks && k in g.value.fields ==> PropOk(g.cx, g.schema.fields, k, g.value.fields[k], n)
  }

  ghost predicate PropsUntouched(g: Goal, ks: set<string>, n: nat)
    requires g.schema.Obj? && g.value.Obj?
  {
    forall k, h :: k in ks && k in g.value.fields && VisitsProp(g.cx, g.schema.fields, k, g.value.fields[k], h) ==>
        Untouched(h, n)
  }

  method ObjectKeywords(g: Goal, path: string, errs: seq<Violation>, depth: nat)
    returns (errs': seq<Violation>, depth': nat, ghost cut: bool)
    requires depth <= MAX_DEPTH + 1 && g.schema.Obj? && g.value.Obj?
    ensures depth' == depth
    ensures Adds(errs, errs', ObjectOk(g, Levels(depth)), g.value, path)
    ensures !cut <==> forall h :: VisitsObject(g, h) ==> Untouched(h, Levels(depth))
    decreases Levels(depth), 3
  {
    hide Adds, Holds, Untouched, PropOk, VisitsProp, VisitsObject, PropsUntouched, RequiredOk, DependentOk, AtLeast,
         AtMost;
    var s, obj := g.schema.fields, g.value.fields;
    errs' := RequiredCheck(s, g.value, path, errs);
    ghost var e1, ok := errs', RequiredOk(s, obj);
    errs', depth', cut := Properties(g, path, errs', depth);
    ObjectVisits(g, Levels(depth));
    AddsThen(errs, e1, errs', ok, PropsOk(g, obj.Keys, Levels(depth)), g.value, path);
    ok := ok && PropsOk(g, obj.Keys, Levels(depth));
    var ok1 := AtLeast(Limit(s, "minProperties"), |obj|);
    AddsCheck(errs, errs', ok, ok1, g.value, path, TooFewProperties);
    errs' := Complain(errs', ok1, path, TooFewProperties);
    var ok2 := AtMost(Limit(s, "maxProperties"), |obj|);
    AddsCheck(errs, errs', ok && ok1, ok2, g.value, path, TooManyProperties);
    errs' := Complain(errs', ok2, path, TooManyProperties);
    ghost var e2 := errs';
    errs' := DependentCheck(s, g.value, path, errs');
    AddsThen(errs, e2, errs', ok && ok1 && ok2, DependentOk(s, obj), g.value, path);
  }

  method Properties(g: Goal, path: string, errs: seq<Violation>, depth: nat)
    returns (errs': seq<Violation>, depth': nat, ghost cut: bool)
    requires depth <= MAX_DEPTH + 1 && g.schema.Obj? && g.value.Obj?
    ensures depth' == depth
    ensures Adds(errs, errs', PropsOk(g, g.value.fields.Keys, Levels(depth)), g.value, path)
    ensures !cut <==> PropsUntouched(g, g.value.fields.Keys, Levels(depth))
    decreases Levels(depth), 2, 1
  {
    hide Adds, Holds, Untouched, PropOk, VisitsProp;
    var obj := g.value.fields;
    AddsNothing(errs, g.value, path);
    errs', depth', cut := errs, depth, false;
    var todo := obj.Keys;
    while todo != {}
      invariant todo <= obj.Keys && depth' == depth
      invariant Adds(errs, errs', PropsOk(g, obj.Keys - todo, Levels(depth)), g.value, path)
      invariant !cut <==> PropsUntouched(g, obj.Keys - todo, Levels(depth))
      decreases |todo|
    {
      var k :| k in todo;
      ghost var e1, c1 := errs', cut;
      errs', depth', cut := Property(g, k, path, errs', depth');
      ghost var ok := PropOk(g.cx, g.schema.fields, k, obj[k], Levels(depth));
      AddsThen(errs, e1, errs', PropsOk(g, obj.Keys - todo, Levels(depth)), ok, g.value, path);
      assert obj.Keys - (todo - {k}) == obj.Keys - todo + {k};
      cut := cut || c1;
      todo := todo - {k};
    }
    assert obj.Keys - todo == obj.Keys;
  }

  lemma MemberLookup(value: Value, k: string)
    requires value.Obj? && k in value.fields
    ensures Lookup(value, [Key(k)]) == Some(value.fields[k])
  {
    assert [Key(k)][1..] == [];
  }

  lemma ItemLookup(value: Value, i: nat)
    requires value.Arr? && i < |value.items|
    ensures Lookup(value, [Index(i)]) == Some(value.items[i])
  {
    assert [Index(i)][1..] == [];
  }

  ghost predicate PatsOk(cx: Cx, pats: map<string, Value>, ks: set<string>, k: string, v: Value, n: nat) {
    forall pat :: pat in ks && pat in pats && LiteralMatches(pat, k) ==> Holds(Goal(cx, pats[pat], v), n)
  }

  ghost predicate PatsUntouched(cx: Cx, pats: map<string, Value>, ks: set<string>, k: string, v: Value, n: nat) {
    forall pat :: pat in ks && pat in pats && LiteralMatches(pat, k) ==> Untouched(Goal(cx, pats[pat], v), n)
  }

  /** One member: its own schema, each pattern's it matches, or the one for all others. A
      member nothing covers is complained of at the object itself. */
  method Property(g: Goal, k: string, path: string, errs: seq<Violation>, depth: nat)
    returns (errs': seq<Violation>, depth': nat, ghost cut: bool)
    requires depth <= MAX_DEPTH + 1 && g.schema.Obj? && g.value.Obj? && k in g.value.fields
    ensures depth' == depth
    ensures Adds(errs, errs', PropOk(g.cx, g.schema.fields, k, g.value.fields[k], Levels(depth)), g.value, path)
    ensures !cut <==> forall h :: VisitsProp(g.cx, g.schema.fields, k, g.value.fields[k], h) ==>
            Untouched(h, Levels(depth))
    decreases Levels(depth), 2, 0
  {
    hide Adds, Holds, Untouched, LiteralMatches, VisitsProp, Lookup;
    var cx, s, v := g.cx, g.schema.fields, g.value.fields[k];
    var props, pats := Table(s, "properties"), Table(s, "patternProperties");
    var child := path + ("/" + Escape(k));
    AddsNothing(errs, g.value, path);
    MemberLookup(g.value, k);
    errs', depth', cut := errs, depth, false;
    ghost var n, ok := Levels(depth), true;
    PropVisits(cx, s, k, v, n);
    if k in props {
      errs', depth', cut := Walk(Goal(cx, props[k], v), child, errs', depth');
      ok := Holds(Goal(cx, props[k], v), n);
      AddsChild(errs, errs', ok, g.value, path, Key(k), v);
    }
    ghost var e1, c1 := errs', cut;
    var matched;
    errs', depth', matched, cut := Patterns(cx, pats, k, v, child, errs', depth');
    ghost var okPats := PatsOk(cx, pats, pats.Keys, k, v, n);
    AddsChild(e1, errs', okPats, g.value, path, Key(k), v);
    AddsThen(errs, e1, errs', ok, okPats, g.value, path);
    cut := cut || c1;
    if k !in props && !matched {
      ghost var e2, c2 := errs', cut;
      match Get(s, "additionalProperties") {
        case Some(Bool(b)) =>
          AddsCheck(errs, errs', ok && okPats, b, g.value, path, UnknownProperty(k));
          errs' := Complain(errs', b, path, UnknownProperty(k));
        case Some(Obj(fields)) =>
          errs', depth', cut := Walk(Goal(cx, Obj(fields), v), child, errs', depth');
          ghost var okOther := Holds(Goal(cx, Obj(fields), v), n);
          AddsChild(e2, errs', okOther, g.value, path, Key(k), v);
          AddsThen(errs, e2, errs', ok && okPats, okOther, g.value, path);
          cut := cut || c2;
        case _ =>
      }
    }
  }

  /** What a member is held to, kind by kind. */
  lemma PropVisits(cx: Cx, s: map<string, Value>, k: string, v: Value, n: nat)
    ensures (forall h :: VisitsProp(cx, s, k, v, h) ==> Untouched(h, n)) <==>
              var props, pats := Table(s, "properties"), Table(s, "patternProperties");
              var other := Get(s, "additionalProperties");
              && (k in props ==> Untouched(Goal(cx, props[k], v), n))
              && PatsUntouched(cx, pats, pats.Keys, k, v, n)
              && (!Covered(s, k) && other.Some? && other.value.Obj? ==> Untouched(Goal(cx, other.value, v), n))
  {
    hide Untouched, LiteralMatches;
    var props, pats := Table(s, "properties"), Table(s, "patternProperties");
    if forall h :: VisitsProp(cx, s, k, v, h) ==> Untouched(h, n) {
      assert k in props ==> VisitsProp(cx, s, k, v, Goal(cx, props[k], v));
      forall pat | pat in pats && LiteralMatches(pat, k) ensures Untouched(Goal(cx, pats[pat], v), n) {
        assert VisitsProp(cx, s, k, v, Goal(cx, pats[pat], v));
      }
      var other := Get(s, "additionalProperties");
      if !Covered(s, k) && other.Some? && other.value.Obj? {
        assert VisitsProp(cx, s, k, v, Goal(cx, other.value, v));
      }
    }
  }

  lemma ObjectVisits(g: Goal, n: nat)
    requires g.schema.Obj? && g.value.Obj?
    ensures (forall h :: VisitsObject(g, h) ==> Untouched(h, n)) <==> PropsUntouched(g, g.value.fields.Keys, n)
  {
    hide Untouched, VisitsProp;
    if forall h :: VisitsObject(g, h) ==> Untouched(h, n) {
      forall k, h | k in g.value.fields && VisitsProp(g.cx, g.schema.fields, k, g.value.fields[k], h)
          ensures Untouched(h, n) {
        assert VisitsObject(g, h);
      }
    }
  }

  lemma ArrayVisits(g: Goal, n: nat)
    requires g.schema.Obj? && g.value.Arr?
    ensures (forall h :: VisitsArray(g, n, h) ==> Untouched(h, n)) <==>
              var s := g.schema.fields;
              && ItemsUntouched(g, |g.value.items|, n)
              && ("contains" in s ==>
                    forall h :: Tried(ItemGoals(g.cx, s["contains"], g.value.items), n, h) ==> Untouched(h, n))
  {
    hide Untouched, VisitsItem, Tried, ItemGoals;
    var s := g.schema.fields;
    if forall h :: VisitsArray(g, n, h) ==> Untouched(h, n) {
      forall i, h | 0 <= i < |g.value.items| && VisitsItem(g.cx, s, i, g.value.items[i], h) ensures Untouched(h, n) {
        assert VisitsArray(g, n, h);
      }
      if "contains" in s {
        forall h | Tried(ItemGoals(g.cx, s["contains"], g.value.items), n, h) ensures Untouched(h, n) {
          assert VisitsArray(g, n, h);
        }
      }
    }
  }

  /** Every pattern's schema that the member's name matches. */
  method Patterns(cx: Cx, pats: map<string, Value>, k: string, v: Value, path: string, errs: seq<Violation>, depth: nat)
    returns (errs': seq<Violation>, depth': nat, matched: bool, ghost cut: bool)
    requires depth <= MAX_DEPTH + 1
    ensures depth' == depth
    ensures Adds(errs, errs', PatsOk(cx, pats, pats.Keys, k, v, Levels(depth)), v, path)
    ensures matched <==> SomeMatches(pats.Keys, k)
    ensures !cut <==> PatsUntouched(cx, pats, pats.Keys, k, v, Levels(depth))
    decreases Levels(depth), 1
  {
    hide Adds, Holds, Untouched, LiteralMatches, PatsOk, PatsUntouched, SomeMatches;
    AddsNothing(errs, v, path);
    errs', depth', matched, cut := errs, depth, false, false;
    ghost var n, done := Levels(depth), {};
    NoPats(cx, pats, k, v, n);
    var todo := pats.Keys;
    while todo != {}
      invariant done !! todo && done + todo == pats.Keys && depth' == depth
      invariant Adds(errs, errs', PatsOk(cx, pats, done, k, v, n), v, path)
      invariant !cut <==> PatsUntouched(cx, pats, done, k, v, n)
      invariant matched <==> SomeMatches(done, k)
      decreases |todo|
    {
      var pat :| pat in todo;
      OnePat(cx, pats, done, pat, k, v, n);
      if LiteralMatches(pat, k) {
        matched := true;
        ghost var e1, c1 := errs', cut;
        errs', depth', cut := Walk(Goal(cx, pats[pat], v), path, errs', depth');
        AddsThen(errs, e1, errs', PatsOk(cx, pats, done, k, v, n), Holds(Goal(cx, pats[pat], v), n), v, path);
        cut := cut || c1;
      }
      todo, done := todo - {pat}, done + {pat};
    }
    assert done == pats.Keys;
  }

  predicate SomeMatches(pats: set<string>, k: string) {
    exists pat :: pat in pats && LiteralMatches(pat, k)
  }

  lemma NoPats(cx: Cx, pats: map<string, Value>, k: string, v: Value, n: nat)
    ensures PatsOk(cx, pats, {}, k, v, n) && PatsUntouched(cx, pats, {}, k, v, n) && !SomeMatches({}, k)
  {
  }

  lemma OnePat(cx: Cx, pats: map<string, Value>, done: set<string>, pat: string, k: string, v: Value, n: nat)
    requires pat in pats
    ensures PatsOk(cx, pats, done + {pat}, k, v, n) <==>
              PatsOk(cx, pats, done, k, v, n) && (LiteralMatches(pat, k) ==> Holds(Goal(cx, pats[pat], v), n))
    ensures PatsUntouched(cx, pats, done + {pat}, k, v, n) <==>
              PatsUntouched(cx, pats, done, k, v, n) && (LiteralMatches(pat, k) ==>
                  Untouched(Goal(cx, pats[pat], v), n))
    ensures SomeMatches(done + {pat}, k) <==> SomeMatches(done, k) || LiteralMatches(pat, k)
  {
    hide Holds, Untouched, LiteralMatches;
  }

  // --- arrays ----------------------------------------------------------------

  ghost predicate ItemsOk(g: Goal, upTo: nat, n: nat)
    requires g.schema.Obj? && g.value.Arr? && upTo <= |g.value.items|
  {
    forall i :: 0 <= i < upTo ==> ItemOk(g.cx, g.schema.fields, i, g.value.items[i], n)
  }

  ghost predicate ItemsUntouched(g: Goal, upTo: nat, n: nat)
    requires g.schema.Obj? && g.value.Arr? && upTo <= |g.value.items|
  {
    forall i, h :: 0 <= i < upTo && VisitsItem(g.cx, g.schema.fields, i, g.value.items[i], h) ==> Untouched(h, n)
  }

  method Items(g: Goal, path: string, errs: seq<Violation>, depth: nat)
    returns (errs': seq<Violation>, depth': nat, ghost cut: bool)
    requires depth <= MAX_DEPTH + 1 && g.schema.Obj? && g.value.Arr?
    ensures depth' == depth
    ensures Adds(errs, errs', ItemsOk(g, |g.value.items|, Levels(depth)), g.value, path)
    ensures !cut <==> ItemsUntouched(g, |g.value.items|, Levels(depth))
    decreases Levels(depth), 2
  {
    hide Adds, Holds, Untouched, RuleOf;
    var s, arr := g.schema.fields, g.value.items;
    AddsNothing(errs, g.value, path);
    errs', depth', cut := errs, depth, false;
    for i := 0 to |arr|
      invariant depth' == depth
      invariant Adds(errs, errs', ItemsOk(g, i, Levels(depth)), g.value, path)
      invariant !cut <==> ItemsUntouched(g, i, Levels(depth))
    {
      ghost var e1, c1 := errs', cut;
      var child := path + ("/" + Decimal(i));
      AddsNothing(errs', arr[i], child);
      match RuleOf(s, i) {
        case Free =>
        case Forbidden =>
          AddsCheck(errs', errs', true, false, arr[i], child, ItemNotAllowed);
          errs' := Complain(errs', false, child, ItemNotAllowed);
        case Under(schema) =>
          errs', depth', cut := Walk(Goal(g.cx, schema, arr[i]), child, errs', depth');
          cut := cut || c1;
      }
      ItemLookup(g.value, i);
      AddsChild(e1, errs', ItemOk(g.cx, s, i, arr[i], Levels(depth)), g.value, path, Index(i), arr[i]);
      AddsThen(errs, e1, errs', ItemsOk(g, i, Levels(depth)), ItemOk(g.cx, s, i, arr[i], Levels(depth)), g.value, path);
    }
  }

  /** Whether some item satisfies a schema, tried in turn up to the first that does. */
  method AnyContained(g: Goal, schema: Value, path: string, depth: nat)
    returns (found: bool, depth': nat, ghost cut: bool)
    requires depth <= MAX_DEPTH + 1 && g.value.Arr?
    ensures depth' == depth
    ensures found <==>
            exists i :: 0 <= i < |g.value.items| && Holds(Goal(g.cx, schema, g.value.items[i]), Levels(depth))
    ensures !cut <==> forall h :: Tried(ItemGoals(g.cx, schema, g.value.items), Levels(depth), h) ==>
            Untouched(h, Levels(depth))
    decreases Levels(depth), 1
  {
    hide Holds, Untouched;
    var arr := g.value.items;
    ghost var goals, n := ItemGoals(g.cx, schema, arr), Levels(depth);
    found, depth', cut := false, depth, false;
    for i := 0 to |arr|
      invariant depth' == depth && !found
      invariant NoneBefore(goals, n, i)
      invariant !cut <==> forall j :: 0 <= j < i ==> Untouched(goals[j], n)
    {
      var e: seq<Violation>;
      ghost var c1 := cut;
      e, depth', cut := Walk(Goal(g.cx, schema, arr[i]), path, [], depth');
      cut := cut || c1;
      if e == [] {
        assert Holds(goals[i], n);
        return true, depth', cut;
      }
    }
  }

  method ArrayKeywords(g: Goal, path: string, errs: seq<Violation>, depth: nat)
    returns (errs': seq<Violation>, depth': nat, ghost cut: bool)
    requires depth <= MAX_DEPTH + 1 && g.schema.Obj? && g.value.Arr?
    ensures depth' == depth
    ensures Adds(errs, errs', ArrayOk(g, Levels(depth)), g.value, path)
    ensures !cut <==> forall h :: VisitsArray(g, Levels(depth), h) ==> Untouched(h, Levels(depth))
    decreases Levels(depth), 3
  {
    hide Adds, Holds, Untouched, ItemOk, VisitsItem, VisitsArray, ItemsUntouched, UniqueOk, Tried, ItemGoals,
         AtLeast, AtMost;
    var s, arr := g.schema.fields, g.value.items;
    ghost var n := Levels(depth);
    errs', depth', cut := Items(g, path, errs, depth);
    ArrayVisits(g, n);
    var ok1 := AtLeast(Limit(s, "minItems"), |arr|);
    AddsCheck(errs, errs', ItemsOk(g, |arr|, n), ok1, g.value, path, TooFewItems);
    errs' := Complain(errs', ok1, path, TooFewItems);
    var ok2 := AtMost(Limit(s, "maxItems"), |arr|);
    AddsCheck(errs, errs', ItemsOk(g, |arr|, n) && ok1, ok2, g.value, path, TooManyItems);
    errs' := Complain(errs', ok2, path, TooManyItems);
    ghost var e1 := errs';
    errs' := UniqueCheck(s, g.value, path, errs');
    AddsThen(errs, e1, errs', ItemsOk(g, |arr|, n) && ok1 && ok2, UniqueOk(s, arr), g.value, path);
    if "contains" in s {
      ghost var c1 := cut;
      var any;
      any, depth', cut := AnyContained(g, s["contains"], path, depth');
      AddsCheck(errs, errs', ItemsOk(g, |arr|, n) && ok1 && ok2 && UniqueOk(s, arr), any, g.value, path, NoneContained);
      errs' := Complain(errs', any, path, NoneContained);
      cut := cut || c1;
    }
  }

  // --- combinators -----------------------------------------------------------

  ghost predicate SubsOk(g: Goal, subs: seq<Value>, upTo: nat, n: nat)
    requires upTo <= |subs|
  {
    forall i :: 0 <= i < upTo ==> Holds(With(g, subs[i]), n)
  }

  method AllOf(g: Goal, subs: seq<Value>, path: string, errs: seq<Violation>, depth: nat)
    returns (errs': seq<Violation>, depth': nat, ghost cut: bool)
    requires depth <= MAX_DEPTH + 1
    ensures depth' == depth
    ensures Adds(errs, errs', AllHold(g, subs, Levels(depth)), g.value, path)
    ensures !cut <==> forall h :: h in Alternatives(g, subs) ==> Untouched(h, Levels(depth))
    decreases Levels(depth), 1
  {
    hide Adds, Holds, Untouched;
    AddsNothing(errs, g.value, path);
    errs', depth', cut := errs, depth, false;
    ghost var goals, n := Alternatives(g, subs), Levels(depth);
    for i := 0 to |subs|
      invariant depth' == depth
      invariant Adds(errs, errs', SubsOk(g, subs, i, n), g.value, path)
      invariant !cut <==> forall j :: 0 <= j < i ==> Untouched(goals[j], n)
    {
      ghost var e1, c1 := errs', cut;
      errs', depth', cut := Walk(With(g, subs[i]), path, errs', depth');
      AddsThen(errs, e1, errs', SubsOk(g, subs, i, n), Holds(With(g, subs[i]), n), g.value, path);
      assert SubsOk(g, subs, i + 1, n) <==> SubsOk(g, subs, i, n) && Holds(With(g, subs[i]), n);
      cut := cut || c1;
    }
  }

  /** Whether some alternative holds, tried in turn up to the first that does. */
  method AnyOf(g: Goal, subs: seq<Value>, path: string, depth: nat)
    returns (matched: bool, depth': nat, ghost cut: bool)
    requires depth <= MAX_DEPTH + 1
    ensures depth' == depth
    ensures matched <==> AnyHolds(g, subs, Levels(depth))
    ensures !cut <==> forall h :: Tried(Alternatives(g, subs), Levels(depth), h) ==> Untouched(h, Levels(depth))
    decreases Levels(depth), 1
  {
    hide Holds, Untouched;
    matched, depth', cut := false, depth, false;
    ghost var goals, n := Alternatives(g, subs), Levels(depth);
    for i := 0 to |subs|
      invariant depth' == depth && !matched
      invariant NoneBefore(goals, n, i)
      invariant !cut <==> forall j :: 0 <= j < i ==> Untouched(goals[j], n)
    {
      var e: seq<Violation>;
      ghost var c1 := cut;
      e, depth', cut := Walk(With(g, subs[i]), path, [], depth');
      cut := cut || c1;
      if e == [] {
        assert Holds(goals[i], n);
        return true, depth', cut;
      }
    }
  }

  /** How many alternatives hold; all are tried. */
  method OneOf(g: Goal, subs: seq<Value>, path: string, depth: nat)
    returns (n: nat, depth': nat, ghost cut: bool)
    requires depth <= MAX_DEPTH + 1
    ensures depth' == depth
    ensures n == HowMany(g, subs, Levels(depth))
    ensures !cut <==> forall h :: h in Alternatives(g, subs) ==> Untouched(h, Levels(depth))
    decreases Levels(depth), 1
  {
    hide Holds, Untouched;
    n, depth', cut := 0, depth, false;
    ghost var goals := Alternatives(g, subs);
    for i := 0 to |subs|
      invariant depth' == depth
      invariant n == HowMany(g, subs[..i], Levels(depth))
      invariant !cut <==> forall j :: 0 <= j < i ==> Untouched(goals[j], Levels(depth))
    {
      var e: seq<Violation>;
      ghost var c1 := cut;
      e, depth', cut := Walk(With(g, subs[i]), path, [], depth');
      cut := cut || c1;
      assert subs[..i + 1][..i] == subs[..i];
      if e == [] {
        n := n + 1;
      }
    }
    assert subs[..|subs|] == subs;
  }

  method Combinators(g: Goal, path: string, errs: seq<Violation>, depth: nat)
    returns (errs': seq<Violation>, depth': nat, ghost cut: bool)
    requires depth <= MAX_DEPTH + 1 && g.schema.Obj?
    ensures depth' == depth
    ensures Adds(errs, errs', Combined(g, Levels(depth)), g.value, path)
    ensures !cut <==> forall h :: VisitsCombined(g, Levels(depth), h) ==> Untouched(h, Levels(depth))
    decreases Levels(depth), 3
  {
    hide Adds, Holds, Untouched, AllHold, AnyHolds, HowMany, Tried, Alternatives, VisitsBranch;
    ghost var n := Levels(depth);
    errs', depth', cut := Alternation(g, path, errs, depth);
    ghost var e1, c1 := errs', cut;
    errs', depth', cut := Conditions(g, path, errs', depth');
    AddsThen(errs, e1, errs', AlternationOk(g, n), ConditionsOk(g, n), g.value, path);
    cut := cut || c1;
  }

  ghost predicate AlternationOk(g: Goal, n: nat)
    requires g.schema.Obj?
  {
    var s := g.schema.fields;
    && (List(s, "allOf").Some? ==> AllHold(g, List(s, "allOf").value, n))
    && (List(s, "anyOf").Some? ==> AnyHolds(g, List(s, "anyOf").value, n))
    && (List(s, "oneOf").Some? ==> HowMany(g, List(s, "oneOf").value, n) == 1)
  }

  ghost predicate ConditionsOk(g: Goal, n: nat)
    requires g.schema.Obj?
  {
    var s := g.schema.fields;
    ("not" in s ==> !Holds(With(g, s["not"]), n)) && ("if" in s ==> BranchOk(g, n))
  }

  method Alternation(g: Goal, path: string, errs: seq<Violation>, depth: nat)
    returns (errs': seq<Violation>, depth': nat, ghost cut: bool)
    requires depth <= MAX_DEPTH + 1 && g.schema.Obj?
    ensures depth' == depth
    ensures Adds(errs, errs', AlternationOk(g, Levels(depth)), g.value, path)
    ensures var s, n := g.schema.fields, Levels(depth);
            !cut <==> forall h ::
              (|| (List(s, "allOf").Some? && h in Alternatives(g, List(s, "allOf").value))
               || (List(s, "anyOf").Some? && Tried(Alternatives(g, List(s, "anyOf").value), n, h))
               || (List(s, "oneOf").Some? && h in Alternatives(g, List(s, "oneOf").value)))
              ==> Untouched(h, n)
    decreases Levels(depth), 2
  {
    hide Adds, Holds, Untouched, AllHold, AnyHolds, HowMany, Tried, Alternatives;
    var s := g.schema.fields;
    ghost var n, ok := Levels(depth), true;
    AddsNothing(errs, g.value, path);
    errs', depth', cut := errs, depth, false;
    if List(s, "allOf").Some? {
      errs', depth', cut := AllOf(g, List(s, "allOf").value, path, errs', depth');
      ok := AllHold(g, List(s, "allOf").value, n);
    }
    if List(s, "anyOf").Some? {
      ghost var c1 := cut;
      var matched;
      matched, depth', cut := AnyOf(g, List(s, "anyOf").value, path, depth');
      AddsCheck(errs, errs', ok, matched, g.value, path, NoneOfAny);
      errs' := Complain(errs', matched, path, NoneOfAny);
      ok := ok && matched;
      cut := cut || c1;
    }
    if List(s, "oneOf").Some? {
      ghost var c2 := cut;
      var count;
      count, depth', cut := OneOf(g, List(s, "oneOf").value, path, depth');
      AddsCheck(errs, errs', ok, count == 1, g.value, path, NotExactlyOne);
      errs' := Complain(errs', count == 1, path, NotExactlyOne);
      cut := cut || c2;
    }
  }

  method Conditions(g: Goal, path: string, errs: seq<Violation>, depth: nat)
    returns (errs': seq<Violation>, depth': nat, ghost cut: bool)
    requires depth <= MAX_DEPTH + 1 && g.schema.Obj?
    ensures depth' == depth
    ensures Adds(errs, errs', ConditionsOk(g, Levels(depth)), g.value, path)
    ensures var s, n := g.schema.fields, Levels(depth);
            !cut <==> forall h ::
              (|| ("not" in s && h == With(g, s["not"]))
               || ("if" in s && h == With(g, s["if"]))
               || ("if" in s && VisitsBranch(g, n, h)))
              ==> Untouched(h, n)
    decreases Levels(depth), 2
  {
    hide Adds, Holds, Untouched;
    var s := g.schema.fields;
    ghost var n, ok := Levels(depth), true;
    AddsNothing(errs, g.value, path);
    errs', depth', cut := errs, depth, false;
    if "not" in s {
      var matches;
      matches, depth', cut := Satisfies(With(g, s["not"]), path, depth');
      AddsCheck(errs, errs', true, !matches, g.value, path, MatchesNot);
      errs' := Complain(errs', !matches, path, MatchesNot);
      ok := !matches;
    }
    if "if" in s {
      ghost var c1 := cut;
      var met;
      met, depth', cut := Satisfies(With(g, s["if"]), path, depth');
      cut := cut || c1;
      var branch := if met then "then" else "else";
      if branch in s {
        ghost var e1, c2 := errs', cut;
        errs', depth', cut := Walk(With(g, s[branch]), path, errs', depth');
        AddsThen(errs, e1, errs', ok, Holds(With(g, s[branch]), n), g.value, path);
        cut := cut || c2;
      }
    }
  }

  /** Walk a goal with a list of its own, to see whether it stays empty. */
  method Satisfies(g: Goal, path: string, depth: nat) returns (ok: bool, depth': nat, ghost cut: bool)
    requires depth <= MAX_DEPTH + 1
    ensures depth' == depth
    ensures ok <==> Holds(g, Levels(depth))
    ensures !cut <==> Untouched(g, Levels(depth))
    decreases Levels(depth), 1
  {
    hide Holds, Untouched;
    var e: seq<Violation>;
    e, depth', cut := Walk(g, path, [], depth);
    ok := e == [];
  }

  // --- the entry point -------------------------------------------------------

  /** The value satisfies a document the caller has, in the document's own context. */
  ghost predicate InDocument(resolver: Resolver, d: string, value: Value, n: nat)
    requires d in resolver.documents
  {
    Holds(Goal(Cx(resolver.documents[d], Some(resolver)), resolver.documents[d], value), n)
  }

  ghost predicate NamesNode(value: Value, at: string) {
    exists segs :: Lookup(value, segs).Some? && at == if segs == [] then "/" else Pointer(segs)
  }

  /** Validate a value. The answer is `Ok` exactly when the plain reading holds within the
      cut-off, each violation names a node of the value, and an answer for which the cut-off
      was not reached is the answer at every larger one. A reference to another document is
      answered by that document, read as a schema of its own, and the referring one has no say. */
  method Validate(cx: Cx, value: Value) returns (r: Result<(), seq<Violation>>, ghost cut: bool)
    ensures r.Ok? <==> Holds(Goal(cx, cx.root, value), 65)
    ensures r.Err? ==> r.error != [] && forall e :: e in r.error ==> NamesNode(value, e.at)
    ensures forall d :: Names(d) && cx.root == RefTo(d) ==>
              (r.Ok? <==> && cx.resolver.Some? && d in cx.resolver.value.documents
                          && InDocument(cx.resolver.value, d, value, 64))
    ensures forall ref, other :: ref != "" && ref[0] != '#' && cx.root == RefTo(ref) ==>
              (r.Ok? <==> Holds(Goal(Cx(other, cx.resolver), RefTo(ref), value), 65))
    ensures !cut <==> Untouched(Goal(cx, cx.root, value), 65)
    ensures !cut ==> forall m: nat :: m >= 65 ==> (r.Ok? <==> Holds(Goal(cx, cx.root, value), m))
  {
    hide Holds, Untouched;
    var g := Goal(cx, cx.root, value);
    forall d | Names(d) && cx.root == RefTo(d)
      ensures Holds(g, MAX_DEPTH + 1) <==>
              && cx.resolver.Some? && d in cx.resolver.value.documents
              && InDocument(cx.resolver.value, d, value, MAX_DEPTH)
    {
      DocumentReference(cx.root, cx.resolver, d, value, MAX_DEPTH);
    }
    forall ref, other | ref != "" && ref[0] != '#' && cx.root == RefTo(ref)
      ensures Holds(g, MAX_DEPTH + 1) <==> Holds(Goal(Cx(other, cx.resolver), RefTo(ref), value), MAX_DEPTH + 1)
    {
      ReferrerHasNoSay(cx.root, other, cx.resolver, ref, value, MAX_DEPTH + 1);
    }
    var errs, depth;
    errs, depth, cut := Walk(g, "", [], 0);
    if !cut {
      forall m: nat | m >= MAX_DEPTH + 1 ensures Holds(g, MAX_DEPTH + 1) <==> Holds(g, m) {
        VerdictStable(g, MAX_DEPTH + 1, m);
      }
    }
    if errs == [] {
      r := Ok(());
    } else {
      forall e | e in errs ensures NamesNode(value, e.at) {
        var segs :| Lookup(value, segs).Some? && e.at == Shown("" + Pointer(segs));
        assert "" + Pointer(segs) == Pointer(segs);
      }
      r := Err(errs);
    }
  }
}
