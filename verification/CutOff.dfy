/**
 The cut-off changes no verdict it is not reached for: the goals a walk visits,
 in the order and with the early stops of the validator, and what follows when
 none of them runs out of levels.
 */
module CutOff {
  import opened Wrappers
  import opened Pointers
  import opened Schemas

  // --- the goals a walk visits -----------------------------------------------

  /** Goals tried one after the other until one holds. */
  ghost predicate Tried(goals: seq<Goal>, n: nat, h: Goal) {
    exists i :: 0 <= i < |goals| && goals[i] == h && NoneBefore(goals, n, i)
  }

  ghost predicate NoneBefore(goals: seq<Goal>, n: nat, i: nat) {
    forall j :: 0 <= j < i && j < |goals| ==> !Holds(goals[j], n)
  }

  function Alternatives(g: Goal, subs: seq<Value>): (goals: seq<Goal>)
    ensures |goals| == |subs| && forall i :: 0 <= i < |subs| ==> goals[i] == With(g, subs[i])
  {
    seq(|subs|, i requires 0 <= i < |subs| => With(g, subs[i]))
  }

  function ItemGoals(cx: Cx, schema: Value, arr: seq<Value>): (goals: seq<Goal>)
    ensures |goals| == |arr| && forall i :: 0 <= i < |arr| ==> goals[i] == Goal(cx, schema, arr[i])
  {
    seq(|arr|, i requires 0 <= i < |arr| => Goal(cx, schema, arr[i]))
  }

  ghost predicate VisitsRef(g: Goal, h: Goal)
    requires g.schema.Obj?
  {
    match Get(g.schema.fields, "$ref")
    case Some(Str(r)) => ResolveIn(g.cx, r).Some?
        && h == Goal(ResolveIn(g.cx, r).value.0, ResolveIn(g.cx, r).value.1, g.value)
    case _ => false
  }

  ghost predicate VisitsProp(cx: Cx, s: map<string, Value>, k: string, v: Value, h: Goal) {
    || (k in Table(s, "properties") && h == Goal(cx, Table(s, "properties")[k], v))
    || (exists pat :: pat in Table(s, "patternProperties") && LiteralMatches(pat, k)
                      && h == Goal(cx, Table(s, "patternProperties")[pat], v))
    || (!Covered(s, k) && Get(s, "additionalProperties").Some? && Get(s, "additionalProperties").value.Obj?
        && h == Goal(cx, Get(s, "additionalProperties").value, v))
  }

  ghost predicate VisitsObject(g: Goal, h: Goal)
    requires g.schema.Obj?
  {
    g.value.Obj? && exists k :: k in g.value.fields && VisitsProp(g.cx, g.schema.fields, k, g.value.fields[k], h)
  }

  ghost predicate VisitsItem(cx: Cx, s: map<string, Value>, i: nat, v: Value, h: Goal) {
    RuleOf(s, i).Under? && h == Goal(cx, RuleOf(s, i).schema, v)
  }

  ghost predicate VisitsArray(g: Goal, n: nat, h: Goal)
    requires g.schema.Obj?
  {
    var s := g.schema.fields;
    g.value.Arr? && (
      || (exists i :: 0 <= i < |g.value.items| && VisitsItem(g.cx, s, i, g.value.items[i], h))
      || ("contains" in s && Tried(ItemGoals(g.cx, s["contains"], g.value.items), n, h)))
  }

  ghost predicate VisitsCombined(g: Goal, n: nat, h: Goal)
    requires g.schema.Obj?
  {
    var s := g.schema.fields;
    || (List(s, "allOf").Some? && h in Alternatives(g, List(s, "allOf").value))
    || (List(s, "anyOf").Some? && Tried(Alternatives(g, List(s, "anyOf").value), n, h))
    || (List(s, "oneOf").Some? && h in Alternatives(g, List(s, "oneOf").value))
    || ("not" in s && h == With(g, s["not"]))
    || ("if" in s && h == With(g, s["if"]))
    || ("if" in s && VisitsBranch(g, n, h))
  }

  ghost predicate VisitsBranch(g: Goal, n: nat, h: Goal)
    requires g.schema.Obj? && "if" in g.schema.fields
  {
    var s := g.schema.fields;
    var branch := if Holds(With(g, s["if"]), n) then "then" else "else";
    branch in s && h == With(g, s[branch])
  }

  ghost predicate Visits(g: Goal, n: nat, h: Goal) {
    g.schema.Obj? && (
      || VisitsRef(g, h)
      || (!Nulled(g.schema.fields, g.value)
          && (VisitsObject(g, h) || VisitsArray(g, n, h) || VisitsCombined(g, n, h))))
  }

  /** The walk of `g` within `n` levels never runs out of them. */
  ghost predicate Untouched(g: Goal, n: nat)
    decreases n, 0
  {
    n > 0 && VisitsUntouched(g, n - 1)
  }

  ghost predicate VisitsUntouched(g: Goal, n: nat)
    decreases n, 1
  {
    forall h :: Visits(g, n, h) ==> Untouched(h, n)
  }

  // --- the same answers at every visited goal give the same verdict ----------

  ghost predicate Agree(g: Goal, a: nat, b: nat) {
    forall h :: Visits(g, a, h) ==> (Holds(h, a) <==> Holds(h, b))
  }

  lemma {:induction false} NoneBeforeAgrees(goals: seq<Goal>, a: nat, b: nat, i: nat)
    requires i <= |goals|
    requires forall h :: Tried(goals, a, h) ==> (Holds(h, a) <==> Holds(h, b))
    ensures NoneBefore(goals, a, i) <==> NoneBefore(goals, b, i)
  {
    hide Holds;
    if i == 0 {
    } else {
      NoneBeforeAgrees(goals, a, b, i - 1);
      if NoneBefore(goals, a, i - 1) {
        assert Tried(goals, a, goals[i - 1]);
      }
      assert forall n: nat :: NoneBefore(goals, n, i) <==> NoneBefore(goals, n, i - 1) && !Holds(goals[i - 1], n);
    }
  }

  lemma TriedAgrees(goals: seq<Goal>, a: nat, b: nat)
    requires forall h :: Tried(goals, a, h) ==> (Holds(h, a) <==> Holds(h, b))
    ensures forall h :: Tried(goals, a, h) <==> Tried(goals, b, h)
    ensures (exists i :: 0 <= i < |goals| && Holds(goals[i], a)) <==>
            (exists i :: 0 <= i < |goals| && Holds(goals[i], b))
  {
    hide Holds;
    forall h ensures Tried(goals, a, h) <==> Tried(goals, b, h) {
      forall i | 0 <= i < |goals| ensures NoneBefore(goals, a, i) <==> NoneBefore(goals, b, i) {
        NoneBeforeAgrees(goals, a, b, i);
      }
    }
    NoneBeforeAgrees(goals, a, b, |goals|);
    assert forall n: nat :: NoneBefore(goals, n, |goals|) <==> !exists i :: 0 <= i < |goals| && Holds(goals[i], n);
  }

  lemma RefAgrees(g: Goal, a: nat, b: nat)
    requires g.schema.Obj?
    requires forall h :: VisitsRef(g, h) ==> (Holds(h, a) <==> Holds(h, b))
    ensures RefOk(g, a) <==> RefOk(g, b)
  {
    hide Holds;
    match Get(g.schema.fields, "$ref") {
      case Some(Str(r)) =>
        if ResolveIn(g.cx, r).Some? {
          var t := ResolveIn(g.cx, r).value;
          assert VisitsRef(g, Goal(t.0, t.1, g.value));
        }
      case _ =>
    }
  }

  lemma PropAgrees(cx: Cx, s: map<string, Value>, k: string, v: Value, a: nat, b: nat)
    requires forall h :: VisitsProp(cx, s, k, v, h) ==> (Holds(h, a) <==> Holds(h, b))
    ensures PropOk(cx, s, k, v, a) <==> PropOk(cx, s, k, v, b)
  {
    hide Holds, LiteralMatches;
    if k in Table(s, "properties") {
      assert VisitsProp(cx, s, k, v, Goal(cx, Table(s, "properties")[k], v));
    }
    forall pat | pat in Table(s, "patternProperties") && LiteralMatches(pat, k)
      ensures Holds(Goal(cx, Table(s, "patternProperties")[pat], v), a) <==>
              Holds(Goal(cx, Table(s, "patternProperties")[pat], v), b)
    {
      assert VisitsProp(cx, s, k, v, Goal(cx, Table(s, "patternProperties")[pat], v));
    }
    if !Covered(s, k) {
      match Get(s, "additionalProperties") {
        case Some(Obj(fields)) => assert VisitsProp(cx, s, k, v, Goal(cx, Obj(fields), v));
        case _ =>
      }
    }
  }

  lemma ObjectAgrees(g: Goal, a: nat, b: nat)
    requires g.schema.Obj? && g.value.Obj?
    requires forall h :: VisitsObject(g, h) ==> (Holds(h, a) <==> Holds(h, b))
    ensures ObjectOk(g, a) <==> ObjectOk(g, b)
  {
    hide Holds, PropOk, VisitsProp;
    var s, obj := g.schema.fields, g.value.fields;
    forall k | k in obj ensures PropOk(g.cx, s, k, obj[k], a) <==> PropOk(g.cx, s, k, obj[k], b) {
      assert forall h :: VisitsProp(g.cx, s, k, obj[k], h) ==> VisitsObject(g, h);
      PropAgrees(g.cx, s, k, obj[k], a, b);
    }
  }

  lemma ArrayAgrees(g: Goal, a: nat, b: nat)
    requires g.schema.Obj? && g.value.Arr?
    requires forall h :: VisitsArray(g, a, h) ==> (Holds(h, a) <==> Holds(h, b))
    ensures ArrayOk(g, a) <==> ArrayOk(g, b)
    ensures forall h :: VisitsArray(g, a, h) <==> VisitsArray(g, b, h)
  {
    hide Holds, Tried, RuleOf;
    var s, arr := g.schema.fields, g.value.items;
    forall i | 0 <= i < |arr| ensures ItemOk(g.cx, s, i, arr[i], a) <==> ItemOk(g.cx, s, i, arr[i], b) {
      if RuleOf(s, i).Under? {
        var h := Goal(g.cx, RuleOf(s, i).schema, arr[i]);
        assert VisitsItem(g.cx, s, i, arr[i], h);
        assert VisitsArray(g, a, h);
      }
    }
    if "contains" in s {
      TriedAgrees(ItemGoals(g.cx, s["contains"], arr), a, b);
      AnyItem(g.cx, s["contains"], arr, a);
      AnyItem(g.cx, s["contains"], arr, b);
    }
  }

  lemma AnyItem(cx: Cx, schema: Value, arr: seq<Value>, n: nat)
    ensures var goals := ItemGoals(cx, schema, arr);
            (exists i :: 0 <= i < |goals| && Holds(goals[i], n)) <==>
            (exists i :: 0 <= i < |arr| && Holds(Goal(cx, schema, arr[i]), n))
  {
    hide Holds;
    var goals := ItemGoals(cx, schema, arr);
    assert forall i :: 0 <= i < |arr| ==> goals[i] == Goal(cx, schema, arr[i]);
  }

  lemma AnyAlternative(g: Goal, subs: seq<Value>, n: nat)
    ensures var goals := Alternatives(g, subs);
            (exists i :: 0 <= i < |goals| && Holds(goals[i], n)) <==> AnyHolds(g, subs, n)
  {
    hide Holds;
    var goals := Alternatives(g, subs);
    assert forall i :: 0 <= i < |subs| ==> goals[i] == With(g, subs[i]);
  }

  lemma {:induction false} HowManyAgrees(g: Goal, subs: seq<Value>, a: nat, b: nat)
    requires forall i :: 0 <= i < |subs| ==> (Holds(With(g, subs[i]), a) <==> Holds(With(g, subs[i]), b))
    ensures HowMany(g, subs, a) == HowMany(g, subs, b)
  {
    hide Holds;
    if subs == [] {
    } else {
      HowManyAgrees(g, subs[..|subs| - 1], a, b);
    }
  }

  lemma AlternativesAgree(g: Goal, subs: seq<Value>, a: nat, b: nat)
    requires forall h :: h in Alternatives(g, subs) ==> (Holds(h, a) <==> Holds(h, b))
    ensures AllHold(g, subs, a) <==> AllHold(g, subs, b)
    ensures HowMany(g, subs, a) == HowMany(g, subs, b)
  {
    hide Holds;
    forall i | 0 <= i < |subs| ensures Holds(With(g, subs[i]), a) <==> Holds(With(g, subs[i]), b) {
      assert Alternatives(g, subs)[i] in Alternatives(g, subs);
    }
    HowManyAgrees(g, subs, a, b);
  }

  lemma CombinedAgrees(g: Goal, a: nat, b: nat)
    requires g.schema.Obj?
    requires forall h :: VisitsCombined(g, a, h) ==> (Holds(h, a) <==> Holds(h, b))
    ensures Combined(g, a) <==> Combined(g, b)
    ensures forall h :: VisitsCombined(g, a, h) <==> VisitsCombined(g, b, h)
  {
    hide Holds, Tried, AllHold, AnyHolds, HowMany, Alternatives;
    var s := g.schema.fields;
    if List(s, "allOf").Some? {
      AlternativesAgree(g, List(s, "allOf").value, a, b);
    }
    if List(s, "anyOf").Some? {
      TriedAgrees(Alternatives(g, List(s, "anyOf").value), a, b);
      AnyAlternative(g, List(s, "anyOf").value, a);
      AnyAlternative(g, List(s, "anyOf").value, b);
    }
    if List(s, "oneOf").Some? {
      AlternativesAgree(g, List(s, "oneOf").value, a, b);
    }
    if "not" in s {
      assert VisitsCombined(g, a, With(g, s["not"]));
    }
    if "if" in s {
      assert VisitsCombined(g, a, With(g, s["if"]));
      var branch := if Holds(With(g, s["if"]), a) then "then" else "else";
      if branch in s {
        assert VisitsBranch(g, a, With(g, s[branch]));
        assert VisitsCombined(g, a, With(g, s[branch]));
      }
    }
  }

  lemma NodeAgrees(g: Goal, a: nat, b: nat)
    requires Agree(g, a, b)
    ensures Node(g, a) <==> Node(g, b)
    ensures forall h :: Visits(g, a, h) <==> Visits(g, b, h)
  {
    hide Holds, VisitsRef, VisitsObject, VisitsArray, VisitsCombined, RefOk, ObjectOk, ArrayOk, Combined;
    if g.schema.Obj? {
      RefAgrees(g, a, b);
      if !Nulled(g.schema.fields, g.value) {
        if g.value.Obj? {
          ObjectAgrees(g, a, b);
        }
        if g.value.Arr? {
          ArrayAgrees(g, a, b);
        } else {
          OnlyArrays(g, a, b);
        }
        CombinedAgrees(g, a, b);
      }
    }
  }

  lemma OnlyArrays(g: Goal, a: nat, b: nat)
    requires g.schema.Obj? && !g.value.Arr?
    ensures forall h :: VisitsArray(g, a, h) <==> VisitsArray(g, b, h)
  {
  }

  /** A verdict reached without touching the cut-off is the verdict at every larger cut-off,
      and is reached there without touching it too. */
  lemma {:induction false} VerdictStable(g: Goal, n: nat, m: nat)
    requires Untouched(g, n) && n <= m
    ensures Holds(g, n) <==> Holds(g, m)
    ensures Untouched(g, m)
    decreases n
  {
    hide Node, Visits;
    var a, b := n - 1, m - 1;
    forall h | Visits(g, a, h) ensures (Holds(h, a) <==> Holds(h, b)) && Untouched(h, b) {
      VerdictStable(h, a, b);
    }
    NodeAgrees(g, a, b);
  }

  /** References that lead round in a circle hold of nothing, however many levels are allowed,
      and their walk always ends at the cut-off. */
  lemma {:induction false} ReferenceCycleFails(circle: seq<Goal>, i: nat, n: nat)
    requires i < |circle| && forall k :: 0 <= k < |circle| ==> circle[k].schema.Obj?
    requires forall k :: 0 <= k < |circle| ==> VisitsRef(circle[k], circle[if k + 1 < |circle| then k + 1 else 0])
    ensures !Holds(circle[i], n) && !Untouched(circle[i], n)
    decreases n
  {
    hide Body, VisitsObject, VisitsArray, VisitsCombined;
    if n == 0 {
    } else {
      var next := if i + 1 < |circle| then i + 1 else 0;
      ReferenceCycleFails(circle, next, n - 1);
      assert Visits(circle[i], n - 1, circle[next]) && !RefOk(circle[i], n - 1);
      assert !Node(circle[i], n - 1) && !VisitsUntouched(circle[i], n - 1);
    }
  }
}
