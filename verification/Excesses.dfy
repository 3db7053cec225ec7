/**
 Runs that pass a limit, each from an empty store: what the conditions of the
 run theorems are there for.
 */
module Excesses {
  import opened Wrappers
  import opened Calendar
  import opened Allowances
  import opened Spending
  import opened Restarts
  import opened Budgets
  import opened Histories

  /** An allowance of a hundred per period, and nothing else. */
  function Hundred(per: Per): Allowance {
    Allowance("a", "GBP", 100, 100, per, None, None, [], None, None, None, None, false)
  }

  /** An allowance no amount can pass. */
  function Boundless(per: Per): Allowance {
    Allowance("b", "GBP", U128_MAX, U128_MAX, per, None, None, [], None, None, None, None, false)
  }

  function InForce(per: Per): map<string, Allowance> {
    map["a" := Hundred(per), "b" := Boundless(per)]
  }

  function Key(operation: string): string {
    ChargeId("co", operation)
  }

  /** A charge of a hundred by an operation. */
  function Spent(operation: string, now: nat): Charge {
    Charge("co", operation, "a", "GBP", 100, Sent, now, None)
  }

  function Charging(operation: string, now: nat, reply: PutReply): Op {
    DoCharge(Request("a", "co", operation, 100, now), Usage(0, 0), reply)
  }

  function Settling(operation: string, state: ChargeState, reply: PutReply): Op {
    DoSettle("co", operation, state, 0, reply)
  }

  lemma KeysDiffer()
    ensures Key("1") != Key("2")
  {
    assert Key("1")[3] == '1' && Key("2")[3] == '2';
  }

  /** A run a step at a time. */
  lemma RunStep(l: Ledger, op: Op, rest: seq<Op>, past: seq<Charges>, a: Allowance, start: nat)
    ensures var ops, l' := [op] + rest, Step(l, op);
            && Run(l, ops) == Run(l', rest)
            && PastAfter(l, ops, InStore, past) == PastAfter(l', rest, InStore, past + [Forgets(l, op, l.store)])
            && TakenOver(l, ops, a, start, Amounts) ==
                TakenIn(l, op, a, start, Amounts) + TakenOver(l', rest, a, start, Amounts)
  {
    hide Step, Forgets, TakenIn;
    assert ([op] + rest)[1..] == rest;
  }

  lemma RunEnd(l: Ledger, past: seq<Charges>, a: Allowance, start: nat)
    ensures Run(l, []) == l && PastAfter(l, [], InStore, past) == past && TakenOver(l, [], a, start, Amounts) == 0
  {
  }

  /** A charge of a hundred is asked of the store while nothing counts for its period. */
  lemma ChargeWritten(l: Ledger, per: Per, operation: string, now: nat, reply: PutReply)
    requires l.read == Done && l.live == InForce(per)
    requires Key(operation) in l.charges ==> !l.charges[Key(operation)].state.Counts()
    requires Tally(l.charges, Hundred(per), From(Since(per, now)), Amounts) == 0
    ensures var op := Charging(operation, now, reply);
            && Written(l, op) == Some((Spent(operation, now), reply))
            && Step(l, op) == Put(l, Spent(operation, now), reply)
  {
    hide Judge, Tally, Since;
    var a, op := Hundred(per), Charging(operation, now, reply);
    var used := Used(l, a, now, {}, Usage(0, 0));
    assert l.charges - {} == l.charges;
    assert used.spent == 0;
    forall limit ensures !Exceeds(a, "co", None, 100, used, now, limit) {
      match limit case _ =>
    }
    assert Judge(a, "co", None, 100, used, now).Ok?;
  }

  /** Two charges of a hundred that count for one period are past the limit. */
  lemma TwoExceed(m: Charges, past: seq<Charges>, per: Per, now: nat)
    requires Booked(m, past, Hundred(per), InPeriod(now), Amounts) >= 200
    ensures !Within(m, past, Hundred(per))
  {
    hide Booked;
    assert !PeriodFits(m, past, Hundred(per), now);
  }

  lemma TallyOne(k: string, c: Charge, a: Allowance, scope: Scope, what: Measure)
    ensures Tally(map[k := c], a, scope, what) == Weigh(c, a, scope, what)
  {
    hide Weigh;
    TallyPut(map[], k, c, a, scope, what);
    NoCharges(a, scope, what);
    var none: Charges := map[];
    assert none[k := c] == map[k := c] && none - {k} == none;
  }

  lemma TallyTwo(j: string, b: Charge, k: string, c: Charge, a: Allowance, scope: Scope, what: Measure)
    requires j != k
    ensures Tally(map[j := b, k := c], a, scope, what) == Weigh(b, a, scope, what) + Weigh(c, a, scope, what)
  {
    hide Weigh;
    TallyPut(map[j := b], k, c, a, scope, what);
    TallyOne(j, b, a, scope, what);
    assert map[j := b][k := c] == map[j := b, k := c] && map[j := b] - {k} == map[j := b];
  }

  /** What a charge of a hundred weighs, by what became of it. */
  lemma SpentWeighs(c: Charge, operation: string, now: nat, per: Per)
    requires c == Spent(operation, now).(state := c.state, ended := c.ended)
    ensures var a := Hundred(per);
            && Weigh(c, a, From(Since(per, now)), Amounts) == (if c.state.Counts() then 100 else 0)
            && Weigh(c, a, InPeriod(now), Amounts) == (if c.state.Counts() then 100 else 0)
            && Weigh(c, a, EverIn(now), Amounts) == 100
  {
    hide Since, SamePeriod;
    SinceMonotone(per, now, now);
    SameItself(per, now);
  }

  /** The ledger that holds these charges, in memory and store alike. */
  function Holding(per: Per, m: Charges): Ledger {
    Ledger(m, m, InForce(per), Done)
  }

  lemma SetUp(per: Per)
    ensures Step(Opened(map[]), DoSet(InForce(per), true)) == Holding(per, map[])
  {
    var none: Charges := map[];
    assert none + none == none && "a" in InForce(per);
  }

  /** A charge kept where none is held. */
  lemma KeepsCharge(per: Per, m: Charges, operation: string, now: nat)
    requires Key(operation) !in m && Tally(m, Hundred(per), From(Since(per, now)), Amounts) == 0
    ensures var l, op := Holding(per, m), Charging(operation, now, Kept);
            && Step(l, op) == Holding(per, m[Key(operation) := Spent(operation, now)])
            && TakenIn(l, op, Hundred(per), now, Amounts) == 100
            && Forgets(l, op, l.store) == map[]
  {
    hide Tally, Since, ChargeId, Used, Judge, Weigh, Written;
    ChargeWritten(Holding(per, m), per, operation, now, Kept);
    SpentWeighs(Spent(operation, now), operation, now, per);
  }

  lemma MovesCharge(per: Per, m: Charges, operation: string, state: ChargeState, a: Allowance, start: nat)
    requires Key(operation) in m && m[Key(operation)].state != state && m[Key(operation)].state != Credited
    requires m[Key(operation)].company == "co" && m[Key(operation)].operation == operation
    ensures var l, op, k := Holding(per, m), Settling(operation, state, Kept), Key(operation);
            && Step(l, op) == Holding(per, m[k := m[k].(state := state, ended := Some(0))])
            && TakenIn(l, op, a, start, Amounts) == 0
            && Forgets(l, op, l.store) == map[]
  {
    hide ChargeId;
  }

  // --- a refused charge revived ----------------------------------------------

  function RevivalRun(): seq<Op> {
    [DoSet(InForce(Once), true)] + ([Charging("1", 0, Kept)] + ([Settling("1", Refused, Kept)]
    + ([Charging("2", 0, Kept)] + ([Settling("1", Confirmed, Kept)] + []))))
  }

  /** A charge is refused, another takes its room, and the first is settled after all. */
  lemma RevivalExceeds()
    ensures !Within(Run(Opened(map[]), RevivalRun()).charges, [], Hundred(Once))
  {
    hide ChargeId, Weigh, Tally, Within, Booked, Run, PastAfter, TakenOver, Step, Forgets, TakenIn, Since;
    var a, k1, k2 := Hundred(Once), Key("1"), Key("2");
    var c1, c2 := Spent("1", 0), Spent("2", 0);
    var r1, f1 := c1.(state := Refused, ended := Some(0)), c1.(state := Confirmed, ended := Some(0));
    var none: Charges := map[];
    KeysDiffer();
    SetUp(Once);
    NoCharges(a, From(Since(Once, 0)), Amounts);
    KeepsCharge(Once, none, "1", 0);
    MovesCharge(Once, none[k1 := c1], "1", Refused, a, 0);
    assert none[k1 := c1][k1 := r1] == map[k1 := r1];
    TallyOne(k1, r1, a, From(Since(Once, 0)), Amounts);
    SpentWeighs(r1, "1", 0, Once);
    KeepsCharge(Once, map[k1 := r1], "2", 0);
    MovesCharge(Once, map[k1 := r1][k2 := c2], "1", Confirmed, a, 0);
    var m := map[k1 := f1, k2 := c2];
    assert map[k1 := r1][k2 := c2][k1 := f1] == m;
    assert Run(Opened(map[]), RevivalRun()).charges == m by {
      var o1, o2, o3 := DoSet(InForce(Once), true), Charging("1", 0, Kept), Settling("1", Refused, Kept);
      var o4, o5 := Charging("2", 0, Kept), Settling("1", Confirmed, Kept);
      RunStep(Opened(map[]), o1, [o2] + ([o3] + ([o4] + ([o5] + []))), [], a, 0);
      RunStep(Holding(Once, none), o2, [o3] + ([o4] + ([o5] + [])), [], a, 0);
      RunStep(Holding(Once, none[k1 := c1]), o3, [o4] + ([o5] + []), [], a, 0);
      RunStep(Holding(Once, map[k1 := r1]), o4, [o5] + [], [], a, 0);
      RunStep(Holding(Once, map[k1 := r1][k2 := c2]), o5, [], [], a, 0);
      RunEnd(Holding(Once, m), [], a, 0);
    }
    SpentWeighs(f1, "1", 0, Once);
    SpentWeighs(c2, "2", 0, Once);
    TallyTwo(k1, f1, k2, c2, a, InPeriod(0), Amounts);
    BookedHeld(m, a, InPeriod(0), Amounts);
    TwoExceed(m, [], Once, 0);
  }

  lemma BookedHeld(m: Charges, a: Allowance, scope: Scope, what: Measure)
    ensures Booked(m, [], a, scope, what) == Tally(m, a, scope, what)
  {
  }

  // --- a charge forgotten too soon -------------------------------------------

  function ForgettingRun(per: Per, allowances: map<string, Allowance>, t: nat, now: nat): seq<Op> {
    [DoSet(InForce(per), true)] + ([Charging("1", t, Kept)] + ([Settling("1", Confirmed, Kept)]
    + ([DoSweep(allowances, now, {}, {})] + ([Charging("1", t, Kept)] + []))))
  }

  lemma ForgetsCharge(per: Per, c: Charge, allowances: map<string, Allowance>, now: nat, a: Allowance, start: nat)
    requires Swept(c, allowances, now)
    ensures var l, op := Holding(per, map[Key("1") := c]), DoSweep(allowances, now, {}, {});
            && Step(l, op) == Holding(per, map[])
            && TakenIn(l, op, a, start, Amounts) == 0
            && Forgets(l, op, l.store) == map[Key("1") := c]
  {
    hide ChargeId, Swept;
    var m := map[Key("1") := c];
    assert Stale(m, allowances, now) == {Key("1")};
    assert m - {Key("1")} == map[];
    assert Among(m, {Key("1")}) == m;
  }

  /** What the run forgot by its end: the confirmed charge, in its fourth step. */
  function Forgotten(f: Charges): seq<Charges> {
    var none: Charges := map[];
    [none] + [none] + [none] + [f] + [none]
  }

  lemma ForgettingRunEnds(per: Per, allowances: map<string, Allowance>, t: nat, now: nat, c: Charge, f: Charge)
    requires c == Spent("1", t) && f == c.(state := Confirmed, ended := Some(0)) && Swept(f, allowances, now)
    ensures var ops, a := ForgettingRun(per, allowances, t, now), Hundred(per);
            && TakenOver(Opened(map[]), ops, a, t, Amounts) == 200
            && Run(Opened(map[]), ops) == Holding(per, map[Key("1") := c])
            && PastAfter(Opened(map[]), ops, InStore, []) == Forgotten(map[Key("1") := f])
  {
    hide ChargeId, Tally, Run, PastAfter, TakenOver, Step, Forgets, TakenIn, Since, Swept;
    var o1, o2, o3, o4, o5 := DoSet(InForce(per), true), Charging("1", t, Kept), Settling("1", Confirmed, Kept),
                              DoSweep(allowances, now, {}, {}), Charging("1", t, Kept);
    var a, k, start := Hundred(per), Key("1"), t;
    var none: Charges := map[];
    SetUp(per);
    SetTakesNothing(per, a, start);
    NoCharges(a, From(Since(per, t)), Amounts);
    KeepsCharge(per, none, "1", t);
    MovesCharge(per, map[k := c], "1", Confirmed, a, start);
    assert none[k := c] == map[k := c] && map[k := c][k := f] == map[k := f];
    ForgetsCharge(per, f, allowances, now, a, start);
    RunStep(Opened(none), o1, [o2] + ([o3] + ([o4] + ([o5] + []))), [], a, start);
    RunStep(Holding(per, none), o2, [o3] + ([o4] + ([o5] + [])), [] + [none], a, start);
    RunStep(Holding(per, map[k := c]), o3, [o4] + ([o5] + []), [none] + [none], a, start);
    RunStep(Holding(per, map[k := f]), o4, [o5] + [], [none] + [none] + [none], a, start);
    RunStep(Holding(per, none), o5, [], [none] + [none] + [none] + [map[k := f]], a, start);
    RunEnd(Holding(per, map[k := c]), Forgotten(map[k := f]), a, start);
    assert [] + [none] == [none];
  }

  predicate PlainOp(op: Op, a: Allowance) {
    Clean(op) && KeepsTerms(op, a)
  }

  lemma ForgettingRunIsPlain(per: Per, allowances: map<string, Allowance>, t: nat, now: nat)
    ensures forall op :: op in ForgettingRun(per, allowances, t, now) ==> PlainOp(op, Hundred(per))
  {
    hide Since;
  }

  /** A confirmed charge is swept and its operation charged again for the same period: two
      hundred were taken of a hundred. This is so whenever the sweep forgets the charge, because
      it was not told of the allowance or because its clock was ahead. */
  lemma ForgottenExceeds(per: Per, allowances: map<string, Allowance>, t: nat, now: nat)
    requires "a" in allowances ==> t < Since(allowances["a"].per, now)
    ensures var ops, a := ForgettingRun(per, allowances, t, now), Hundred(per);
            && (forall op :: op in ops ==> PlainOp(op, a))
            && TakenOver(Opened(map[]), ops, a, t, Amounts) == 200
            && !Within(Run(Opened(map[]), ops).store, PastAfter(Opened(map[]), ops, InStore, []), a)
  {
    var a, k, c, scope := Hundred(per), Key("1"), Spent("1", t), InPeriod(t);
    var f := c.(state := Confirmed, ended := Some(0));
    assert Swept(f, allowances, now);
    hide ChargeId, Weigh, Tally, Within, Booked, Bygone, Run, PastAfter, TakenOver, Since, Swept, PlainOp,
         ForgettingRun, Forgotten;
    ForgettingRunIsPlain(per, allowances, t, now);
    ForgettingRunEnds(per, allowances, t, now, c, f);
    SpentWeighs(c, "1", t, per);
    SpentWeighs(f, "1", t, per);
    TallyOne(k, c, a, scope, Amounts);
    TallyOne(k, f, a, scope, Amounts);
    BygoneOne(map[k := f], a, scope);
    TwoBooked(map[k := c], Forgotten(map[k := f]), a, scope);
    TwoExceed(map[k := c], Forgotten(map[k := f]), per, t);
  }

  lemma SetTakesNothing(per: Per, a: Allowance, start: nat)
    ensures var l, op := Opened(map[]), DoSet(InForce(per), true);
            TakenIn(l, op, a, start, Amounts) == 0 && Forgets(l, op, l.store) == map[]
  {
  }

  lemma BygoneOne(f: Charges, a: Allowance, scope: Scope)
    ensures Bygone(Forgotten(f), a, scope, Amounts) == Tally(f, a, scope, Amounts)
  {
    hide Tally;
    var none: Charges := map[];
    NoCharges(a, scope, Amounts);
    BygoneAppend([], none, a, scope, Amounts);
    assert [] + [none] == [none];
    BygoneAppend([none], none, a, scope, Amounts);
    BygoneAppend([none] + [none], none, a, scope, Amounts);
    BygoneAppend([none] + [none] + [none], f, a, scope, Amounts);
    BygoneAppend([none] + [none] + [none] + [f], none, a, scope, Amounts);
  }

  lemma TwoBooked(m: Charges, past: seq<Charges>, a: Allowance, scope: Scope)
    requires Tally(m, a, scope, Amounts) == 100 && Bygone(past, a, scope, Amounts) == 100
    ensures Booked(m, past, a, scope, Amounts) == 200
  {
  }

  /** A sweep that is not told of the allowance forgets what counts for it. */
  lemma UntoldSweepExceeds()
    ensures var ops := ForgettingRun(Once, map[], 0, 0);
            TakenOver(Opened(map[]), ops, Hundred(Once), 0, Amounts) == 200
  {
    hide TakenOver;
    ForgottenExceeds(Once, map[], 0, 0);
  }

  /** So does one that is, when the clock then goes back to a day before it. */
  lemma ClockBackExceeds()
    ensures var ops := ForgettingRun(Day, InForce(Day), 0, DAY_MS);
            TakenOver(Opened(map[]), ops, Hundred(Day), 0, Amounts) == 200
  {
    hide TakenOver;
    ForgottenExceeds(Day, InForce(Day), 0, DAY_MS);
  }

  // --- a store that strays ---------------------------------------------------

  function StrayingRun(): seq<Op> {
    [DoSet(InForce(Once), true)] + ([Charging("1", 0, Degraded(true))] + ([Charging("2", 0, Kept)]
    + ([DoRestart] + ([DoSet(InForce(Once), true)] + []))))
  }

  /** A charge the degraded store kept all the same is refused, another takes its room, and the
      next process reads both. */
  lemma StrayExceeds()
    ensures !Within(Run(Opened(map[]), StrayingRun()).charges, [], Hundred(Once))
  {
    hide ChargeId, Weigh, Tally, Within, Booked, Run, PastAfter, TakenOver, Forgets, TakenIn, Since, Used, Judge,
         Written;
    var a, k1, k2, c1, c2 := Hundred(Once), Key("1"), Key("2"), Spent("1", 0), Spent("2", 0);
    var o1, o2, o3 := DoSet(InForce(Once), true), Charging("1", 0, Degraded(true)), Charging("2", 0, Kept);
    var none: Charges := map[];
    KeysDiffer();
    SetUp(Once);
    NoCharges(a, From(Since(Once, 0)), Amounts);
    var l1 := Holding(Once, none);
    ChargeWritten(l1, Once, "1", 0, Degraded(true));
    var l2 := l1.(store := none[k1 := c1]);
    assert Step(l1, o2) == l2;
    ChargeWritten(l2, Once, "2", 0, Kept);
    var m := map[k1 := c1, k2 := c2];
    var l3 := Ledger(none[k2 := c2], m, InForce(Once), Done);
    assert Step(l2, o3) == l3 by {
      assert none[k1 := c1][k2 := c2] == m;
    }
    assert Step(l3, DoRestart) == Opened(m);
    assert Step(Opened(m), o1) == Holding(Once, m) by {
      assert none + m == m && "a" in InForce(Once);
    }
    hide Step;
    RunStep(Opened(none), o1, [o2] + ([o3] + ([DoRestart] + ([o1] + []))), [], a, 0);
    RunStep(l1, o2, [o3] + ([DoRestart] + ([o1] + [])), [], a, 0);
    RunStep(l2, o3, [DoRestart] + ([o1] + []), [], a, 0);
    RunStep(l3, DoRestart, [o1] + [], [], a, 0);
    RunStep(Opened(m), o1, [], [], a, 0);
    RunEnd(Holding(Once, m), [], a, 0);
    SpentWeighs(c1, "1", 0, Once);
    SpentWeighs(c2, "2", 0, Once);
    TallyTwo(k1, c1, k2, c2, a, InPeriod(0), Amounts);
    BookedHeld(m, a, InPeriod(0), Amounts);
    TwoExceed(m, [], Once, 0);
  }

  // --- a charge of nothing before the store was read -------------------------

  /** A charge of nothing to the boundless allowance, by the operation charged first. */
  function Nothing(): Charge {
    Charge("co", "1", "b", "GBP", 0, Sent, 0, None)
  }

  function ChargingNothing(): Op {
    DoCharge(Request("b", "co", "1", 0, 0), Usage(0, 0), Kept)
  }

  /** A charge is confirmed, and the next process cannot read the store. */
  function UnreadRun(rest: seq<Op>): seq<Op> {
    [DoSet(InForce(Once), true)] + ([Charging("1", 0, Kept)] + ([Settling("1", Confirmed, Kept)]
    + ([DoRestart] + ([DoSet(InForce(Once), false)] + rest))))
  }

  function OverwritingRun(): seq<Op> {
    UnreadRun([ChargingNothing()] + ([DoSet(InForce(Once), true)] + ([Charging("2", 0, Kept)] + [])))
  }

  function Unread(m: Charges, kept: Charges): Ledger {
    Ledger(m, kept, InForce(Once), Failed)
  }

  function Nones(): seq<Charges> {
    var none: Charges := map[];
    [none] + [none] + [none] + [none] + [none]
  }

  lemma UnreadRunEnds(rest: seq<Op>, f: Charge)
    requires f == Spent("1", 0).(state := Confirmed, ended := Some(0))
    ensures var l, a := Unread(map[], map[Key("1") := f]), Hundred(Once);
            && Run(Opened(map[]), UnreadRun(rest)) == Run(l, rest)
            && PastAfter(Opened(map[]), UnreadRun(rest), InStore, []) == PastAfter(l, rest, InStore, Nones())
            && TakenOver(Opened(map[]), UnreadRun(rest), a, 0, Amounts) ==
               100 + TakenOver(l, rest, a, 0, Amounts)
  {
    hide ChargeId, Tally, Run, PastAfter, TakenOver, Step, Forgets, TakenIn, Since;
    var a, k, c, start := Hundred(Once), Key("1"), Spent("1", 0), 0;
    var none: Charges := map[];
    var o1, o2, o3, o5 := DoSet(InForce(Once), true), Charging("1", 0, Kept), Settling("1", Confirmed, Kept),
                          DoSet(InForce(Once), false);
    SetUp(Once);
    SetTakesNothing(Once, a, start);
    NoCharges(a, From(Since(Once, 0)), Amounts);
    KeepsCharge(Once, none, "1", 0);
    MovesCharge(Once, map[k := c], "1", Confirmed, a, start);
    assert none[k := c] == map[k := c] && map[k := c][k := f] == map[k := f];
    FailedRead(map[k := f], a, start);
    RunStep(Opened(none), o1, [o2] + ([o3] + ([DoRestart] + ([o5] + rest))), [], a, start);
    RunStep(Holding(Once, none), o2, [o3] + ([DoRestart] + ([o5] + rest)), [] + [none], a, start);
    RunStep(Holding(Once, map[k := c]), o3, [DoRestart] + ([o5] + rest), [none] + [none], a, start);
    RunStep(Holding(Once, map[k := f]), DoRestart, [o5] + rest, [none] + [none] + [none], a, start);
    RunStep(Opened(map[k := f]), o5, rest, [none] + [none] + [none] + [none], a, start);
    assert [] + [none] == [none];
  }

  /** A restart, and a read that fails. */
  lemma FailedRead(m: Charges, a: Allowance, start: nat)
    ensures var l, op := Holding(Once, m), DoRestart;
            && Step(l, op) == Opened(m)
            && TakenIn(l, op, a, start, Amounts) == 0 && Forgets(l, op, l.store) == map[]
    ensures var l, op := Opened(m), DoSet(InForce(Once), false);
            && Step(l, op) == Unread(map[], m)
            && TakenIn(l, op, a, start, Amounts) == 0 && Forgets(l, op, l.store) == map[]
  {
    assert "a" in InForce(Once);
  }

  /** Nothing is charged over the stored record, which memory does not hold. */
  lemma Overwrites(f: Charge, start: nat)
    ensures var l, op := Unread(map[], map[Key("1") := f]), ChargingNothing();
            && Step(l, op) == Unread(map[Key("1") := Nothing()], map[Key("1") := Nothing()])
            && TakenIn(l, op, Hundred(Once), start, Amounts) == 0
            && Forgets(l, op, l.store) == map[Key("1") := f]
  {
    hide ChargeId, Tally, Since, Judge;
    var l, op, b := Unread(map[], map[Key("1") := f]), ChargingNothing(), Boundless(Once);
    var used := Used(l, b, 0, {}, Usage(0, 0));
    forall limit ensures !Exceeds(b, "co", None, 0, used, 0, limit) {
      match limit case _ =>
    }
    assert Judge(b, "co", None, 0, used, 0).Ok?;
    assert Written(l, op) == Some((Nothing(), Kept));
    var none: Charges := map[];
    assert none[Key("1") := Nothing()] == map[Key("1") := Nothing()];
    assert map[Key("1") := f][Key("1") := Nothing()] == map[Key("1") := Nothing()];
    assert Among(map[Key("1") := f], {Key("1")}) == map[Key("1") := f];
  }

  lemma ReadAgain(m: Charges, a: Allowance, start: nat)
    ensures var l, op := Unread(m, m), DoSet(InForce(Once), true);
            && Step(l, op) == Holding(Once, m)
            && TakenIn(l, op, a, start, Amounts) == 0 && Forgets(l, op, l.store) == map[]
  {
    assert m + m == m && "a" in InForce(Once);
  }

  lemma OverwritingRunEnds(f: Charge)
    requires f == Spent("1", 0).(state := Confirmed, ended := Some(0))
    ensures var ops, none: Charges := OverwritingRun(), map[];
            && TakenOver(Opened(map[]), ops, Hundred(Once), 0, Amounts) == 200
            && Run(Opened(map[]), ops) == Holding(Once, map[Key("1") := Nothing(), Key("2") := Spent("2", 0)])
            && PastAfter(Opened(map[]), ops, InStore, []) == Nones() + [map[Key("1") := f]] + [none] + [none]
  {
    hide ChargeId, Tally, Weigh, Run, PastAfter, TakenOver, Step, Forgets, TakenIn, Since, Nones, UnreadRun;
    var a, k1, k2, z, start := Hundred(Once), Key("1"), Key("2"), Nothing(), 0;
    var none: Charges := map[];
    var o6, o7, o8 := ChargingNothing(), DoSet(InForce(Once), true), Charging("2", 0, Kept);
    var m := map[k1 := z, k2 := Spent("2", 0)];
    KeysDiffer();
    UnreadRunEnds([o6] + ([o7] + ([o8] + [])), f);
    Overwrites(f, start);
    ReadAgain(map[k1 := z], a, start);
    TallyOne(k1, z, a, From(Since(Once, 0)), Amounts);
    NothingWeighs(From(Since(Once, 0)));
    KeepsCharge(Once, map[k1 := z], "2", 0);
    assert map[k1 := z][k2 := Spent("2", 0)] == m;
    RunStep(Unread(none, map[k1 := f]), o6, [o7] + ([o8] + []), Nones(), a, start);
    RunStep(Unread(map[k1 := z], map[k1 := z]), o7, [o8] + [], Nones() + [map[k1 := f]], a, start);
    RunStep(Holding(Once, map[k1 := z]), o8, [], Nones() + [map[k1 := f]] + [none], a, start);
    RunEnd(Holding(Once, m), Nones() + [map[k1 := f]] + [none] + [none], a, start);
  }

  lemma NothingWeighs(scope: Scope)
    ensures Weigh(Nothing(), Hundred(Once), scope, Amounts) == 0
  {
  }

  lemma BygoneNones(a: Allowance, scope: Scope)
    ensures Bygone(Nones(), a, scope, Amounts) == 0
  {
    hide Tally;
    var none: Charges := map[];
    NoCharges(a, scope, Amounts);
    BygoneAppend([], none, a, scope, Amounts);
    assert [] + [none] == [none];
    BygoneAppend([none], none, a, scope, Amounts);
    BygoneAppend([none] + [none], none, a, scope, Amounts);
    BygoneAppend([none] + [none] + [none], none, a, scope, Amounts);
    BygoneAppend([none] + [none] + [none] + [none], none, a, scope, Amounts);
  }

  /** While the store cannot be read, a charge of nothing to an allowance no amount can pass is
      written over the record of a confirmed charge; once the store is read again the budget of
      that charge can be spent a second time. No sweep is needed, and the store answers plainly. */
  lemma OverwrittenExceeds()
    ensures var ops, a := OverwritingRun(), Hundred(Once);
            && (forall op :: op in ops ==> PlainOp(op, a) && Orderly(op, a, 0))
            && TakenOver(Opened(map[]), ops, a, 0, Amounts) == 200
            && !Within(Run(Opened(map[]), ops).store, PastAfter(Opened(map[]), ops, InStore, []), a)
  {
    hide ChargeId, Weigh, Tally, Within, Booked, Bygone, Run, PastAfter, TakenOver, Since, PlainOp, Orderly, Nones,
         OverwritingRun;
    var a, k1, k2, scope := Hundred(Once), Key("1"), Key("2"), InPeriod(0);
    var f := Spent("1", 0).(state := Confirmed, ended := Some(0));
    var m, none: Charges := map[k1 := Nothing(), k2 := Spent("2", 0)], map[];
    var past := Nones() + [map[k1 := f]] + [none] + [none];
    KeysDiffer();
    OverwritingRunIsOrderly();
    OverwritingRunEnds(f);
    SpentWeighs(f, "1", 0, Once);
    SpentWeighs(Spent("2", 0), "2", 0, Once);
    NothingWeighs(scope);
    TallyOne(k1, f, a, scope, Amounts);
    TallyTwo(k1, Nothing(), k2, Spent("2", 0), a, scope, Amounts);
    NoCharges(a, scope, Amounts);
    BygoneNones(a, scope);
    BygoneAppend(Nones(), map[k1 := f], a, scope, Amounts);
    BygoneAppend(Nones() + [map[k1 := f]], none, a, scope, Amounts);
    BygoneAppend(Nones() + [map[k1 := f]] + [none], none, a, scope, Amounts);
    TwoBooked(m, past, a, scope);
    TwoExceed(m, past, Once, 0);
  }

  lemma OverwritingRunIsOrderly()
    ensures forall op :: op in OverwritingRun() ==> PlainOp(op, Hundred(Once)) && Orderly(op, Hundred(Once), 0)
  {
    hide PlainOp, Orderly, InForce;
    var o6, o7, o8 := ChargingNothing(), DoSet(InForce(Once), true), Charging("2", 0, Kept);
    OpsInOrder(o6, "1", Confirmed);
    OpsInOrder(o8, "2", Confirmed);
    UnreadRunOps([o6] + ([o7] + ([o8] + [])));
  }

  lemma OpsInOrder(op: Op, operation: string, state: ChargeState)
    requires op == ChargingNothing() || op == Charging(operation, 0, Kept)
    ensures forall o ::
              || o == op || o == Charging(operation, 0, Kept) || o == Settling(operation, state, Kept) || o == DoRestart
              || o == DoSet(InForce(Once), true) || o == DoSet(InForce(Once), false)
              ==> PlainOp(o, Hundred(Once)) && Orderly(o, Hundred(Once), 0)
  {
    hide Since;
  }

  lemma UnreadRunOps(rest: seq<Op>)
    ensures forall op :: op in UnreadRun(rest) ==>
              || op in rest || op == DoSet(InForce(Once), true) || op == Charging("1", 0, Kept)
              || op == Settling("1", Confirmed, Kept) || op == DoRestart || op == DoSet(InForce(Once), false)
  {
    hide InForce;
  }
}
