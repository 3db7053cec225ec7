/**
 The limits of an allowance over whole runs of the ledger: what its books hold
 at any time, beside charges they no longer hold.
 */
module Budgets {
  import opened Wrappers
  import opened Calendar
  import opened Allowances
  import opened Spending
  import opened Restarts

  // --- books -----------------------------------------------------------------

  /** The charges in memory, or those in the store. */
  datatype Book = InMemory | InStore

  function BookOf(l: Ledger, book: Book): Charges {
    if book == InMemory then l.charges else l.store
  }

  /** What is summed over charges no longer held, step by step as they were forgotten. */
  ghost function Bygone(past: seq<Charges>, a: Allowance, scope: Scope, what: Measure): nat {
    if past == [] then 0
    else Bygone(past[..|past| - 1], a, scope, what) + Tally(past[|past| - 1], a, scope, what)
  }

  ghost function Booked(m: Charges, past: seq<Charges>, a: Allowance, scope: Scope, what: Measure): nat {
    Tally(m, a, scope, what) + Bygone(past, a, scope, what)
  }

  predicate Fits(a: Allowance, amount: int, payments: int) {
    amount <= a.budget && (a.times.Some? ==> payments <= a.times.value)
  }

  /** No calendar period holds more, or more payments, than the allowance says; with `once` all
      time is one period. */
  ghost predicate Within(m: Charges, past: seq<Charges>, a: Allowance) {
    forall t: nat :: PeriodFits(m, past, a, t)
  }

  ghost predicate PeriodFits(m: Charges, past: seq<Charges>, a: Allowance, t: nat) {
    Fits(a, Booked(m, past, a, InPeriod(t), Amounts), Booked(m, past, a, InPeriod(t), Payments))
  }

  lemma {:induction false} BookedSamePeriod(m: Charges, past: seq<Charges>, a: Allowance, t: nat, u: nat, what: Measure)
    requires SamePeriod(a.per, t, u)
    ensures Booked(m, past, a, InPeriod(t), what) == Booked(m, past, a, InPeriod(u), what)
    decreases |past|
  {
    hide Tally, SamePeriod;
    TallySamePeriod(m, a, t, u, what);
    if past == [] {
    } else {
      var last := |past| - 1;
      TallySamePeriod(past[last], a, t, u, what);
      BookedSamePeriod(m, past[..last], a, t, u, what);
    }
  }

  /** The charge's own period has room for it. */
  ghost predicate HasRoom(m: Charges, past: seq<Charges>, c: Charge, a: Allowance) {
    c.allowance == a.id && c.currency == a.currency ==>
      var period := InPeriod(c.at);
      Fits(a, Booked(m, past, a, period, Amounts) + c.amount, Booked(m, past, a, period, Payments) + 1)
  }

  lemma PutAdds(m: Charges, past: seq<Charges>, k: string, c: Charge, a: Allowance, t: nat, what: Measure)
    ensures var before := Booked(m, past, a, InPeriod(t), what);
            var after := Booked(m[k := c], past, a, InPeriod(t), what);
            && after <= before + Weigh(c, a, InPeriod(t), what)
            && ((k in m ==> !m[k].state.Counts()) ==> after == before + Weigh(c, a, InPeriod(t), what))
            && (k in m && Weigh(c, a, InPeriod(t), what) <= Weigh(m[k], a, InPeriod(t), what) ==>
                after <= before)
  {
    hide Tally, Bygone;
    TallyPut(m, k, c, a, InPeriod(t), what);
    TallyDrop(m, k, a, InPeriod(t), what);
  }

  /** A counting charge put where none counted keeps the limits exactly when there is room. */
  lemma PutExactly(m: Charges, past: seq<Charges>, k: string, c: Charge, a: Allowance)
    requires Within(m, past, a) && c.state.Counts()
    ensures HasRoom(m, past, c, a) ==> Within(m[k := c], past, a)
    ensures (k in m ==> !m[k].state.Counts()) && Within(m[k := c], past, a) ==> HasRoom(m, past, c, a)
  {
    hide Tally, Bygone, Booked, SamePeriod;
    var m' := m[k := c];
    SameItself(a.per, c.at);
    if HasRoom(m, past, c, a) {
      forall t: nat ensures PeriodFits(m', past, a, t) {
        assert PeriodFits(m, past, a, t);
        PutAdds(m, past, k, c, a, t, Amounts);
        PutAdds(m, past, k, c, a, t, Payments);
        if SamePeriod(a.per, c.at, t) {
          BookedSamePeriod(m, past, a, c.at, t, Amounts);
          BookedSamePeriod(m, past, a, c.at, t, Payments);
        }
      }
    }
    if (k in m ==> !m[k].state.Counts()) && Within(m[k := c], past, a) {
      assert PeriodFits(m[k := c], past, a, c.at);
      PutAdds(m, past, k, c, a, c.at, Amounts);
      PutAdds(m, past, k, c, a, c.at, Payments);
    }
  }

  lemma SameItself(per: Per, t: nat)
    ensures SamePeriod(per, t, t)
  {
  }

  /** A charge that moves to another state keeps the limits, unless it did not count and now
      does: then exactly when there is room. */
  lemma MoveExactly(m: Charges, past: seq<Charges>, k: string, c: Charge, a: Allowance)
    requires Within(m, past, a) && k in m && c == m[k].(state := c.state, ended := c.ended)
    ensures Within(m[k := c], past, a) <==> (!m[k].state.Counts() && c.state.Counts() ==> HasRoom(m, past, m[k], a))
  {
    hide Tally, Bygone, Booked, PeriodFits;
    if !m[k].state.Counts() && c.state.Counts() {
      PutExactly(m, past, k, c, a);
    } else {
      var m' := m[k := c];
      forall t: nat ensures PeriodFits(m', past, a, t) {
        assert PeriodFits(m, past, a, t);
        LighterFits(m, past, k, c, a, t);
      }
    }
  }

  lemma LighterFits(m: Charges, past: seq<Charges>, k: string, c: Charge, a: Allowance, t: nat)
    requires PeriodFits(m, past, a, t) && k in m && c == m[k].(state := c.state, ended := c.ended)
    requires m[k].state.Counts() || !c.state.Counts()
    ensures PeriodFits(m[k := c], past, a, t)
  {
    hide Tally, Bygone, Booked;
    PutAdds(m, past, k, c, a, t, Amounts);
    PutAdds(m, past, k, c, a, t, Payments);
  }

  lemma DropWithin(m: Charges, past: seq<Charges>, gone: set<string>, a: Allowance)
    requires Within(m, past, a)
    ensures Within(m - gone, past, a)
  {
    hide Tally, Bygone;
    forall t: nat ensures PeriodFits(m - gone, past, a, t) {
      assert PeriodFits(m, past, a, t);
      TallyDropAll(m, gone, a, InPeriod(t), Amounts);
      TallyDropAll(m, gone, a, InPeriod(t), Payments);
    }
  }

  // --- one step --------------------------------------------------------------

  /** `a` is what its id stands for, whenever it is in force. */
  predicate Fixed(live: map<string, Allowance>, a: Allowance) {
    && (forall id :: id in live ==> live[id].id == id)
    && (a.id in live ==> live[a.id] == a)
  }

  predicate KeepsTerms(op: Op, a: Allowance) {
    op.DoSet? ==> Fixed(op.all, a)
  }

  /** A settle that moves a refused charge back to one that counts. */
  predicate Revives(l: Ledger, op: Op) {
    && op.DoSettle? && op.reply == Kept
    && ChargeId(op.company, op.operation) in l.charges
    && l.charges[ChargeId(op.company, op.operation)].state == Refused
    && op.state.Counts()
  }

  /** Such a settle finds room. */
  ghost predicate Roomy(l: Ledger, op: Op, m: Charges, past: seq<Charges>, a: Allowance) {
    Revives(l, op) ==> HasRoom(m, past, l.charges[ChargeId(op.company, op.operation)], a)
  }

  /** Nothing of the period a charge is for was forgotten. */
  ghost predicate Unforgotten(past: seq<Charges>, op: Op, a: Allowance) {
    op.DoCharge? && op.r.id == a.id ==>
      forall what :: Bygone(past, a, InPeriod(op.r.now), what) == 0
  }

  /** The book can be told from the step: memory always, the store while it mirrors memory and
      answers plainly. */
  predicate Sure(l: Ledger, op: Op, book: Book) {
    book == InStore ==> Mirrors(l) && Clean(op)
  }

  lemma BookWrites(l: Ledger, op: Op, book: Book)
    requires Sure(l, op, book) && (op.DoCharge? || op.DoSettle? || op.DoSettleFinal?)
    ensures var w, m := Written(l, op), BookOf(l, book);
            BookOf(Step(l, op), book) == if w.Some? && w.value.1 == Kept then m[IdOf(w.value.0) := w.value.0] else m
  {
    StepWrites(l, op);
    WrittenReply(l, op);
  }

  lemma WrittenReply(l: Ledger, op: Op)
    requires op.DoCharge? || op.DoSettle? || op.DoSettleFinal?
    ensures Written(l, op).Some? ==> Written(l, op).value.1 == op.reply
  {
    hide Judge, Used;
  }

  /** The room `judge` saw is room in the calendar period of the new charge. */
  lemma ChargeHasRoom(l: Ledger, op: Op, m: Charges, past: seq<Charges>, a: Allowance)
    requires op.DoCharge? && Written(l, op).Some? && Fixed(l.live, a) && Within(m, past, a)
    requires l.read == Done ==> m == l.charges && Unforgotten(past, op, a)
    ensures HasRoom(m, past, Written(l, op).value.0, a)
  {
    hide Tally, Bygone, Judge, Used, SamePeriod;
    var r, c := op.r, Written(l, op).value.0;
    if r.id == a.id && c.currency == a.currency {
      assert PeriodFits(m, past, a, r.now);
      JudgedRoom(l, r, op.x402, a);
    }
  }

  lemma JudgedRoom(l: Ledger, r: Request, x402: Usage, a: Allowance)
    requires Judge(a, r.company, None, r.amount, Used(l, a, r.now, {}, x402), r.now).Ok?
    requires l.read == Done ==> Tally(l.charges, a, InPeriod(r.now), Amounts) <= a.budget
    ensures if l.read == Done
            then Fits(a, Tally(l.charges, a, InPeriod(r.now), Amounts) + r.amount,
                         Tally(l.charges, a, InPeriod(r.now), Payments) + 1)
            else r.amount == 0 && a.budget == U128_MAX && a.times.None?
  {
    hide Tally, Judge, Used, Exceeds;
    if l.read == Done {
      JudgedExactly(l, a, r.company, r.amount, r.now, x402);
      TallyCurrent(l.charges, a, r.now, Amounts);
      TallyCurrent(l.charges, a, r.now, Payments);
    } else {
      UnreadRefusesExactly(l, a, r.company, r.amount, r.now, x402);
    }
  }

  /** What a charge is written over does not count. */
  lemma ChargeOverNothing(l: Ledger, op: Op)
    requires op.DoCharge? && Written(l, op).Some?
    ensures var c := Written(l, op).value.0;
            && c.state == Sent && IdOf(c) == ChargeId(op.r.company, op.r.operation)
            && (IdOf(c) in l.charges ==> !l.charges[IdOf(c)].state.Counts())
  {
    hide Judge, Used;
  }

  /** What a settle writes is the charge that was there, moved; and it revives one only when
      the guard says so. */
  lemma SettleMoves(l: Ledger, op: Op)
    requires (op.DoSettle? || op.DoSettleFinal?) && Keyed(l.charges) && Written(l, op).Some?
    ensures var c := Written(l, op).value.0;
            && IdOf(c) in l.charges
            && c == l.charges[IdOf(c)].(state := c.state, ended := c.ended)
            && (Revives(l, op) <==>
                  Written(l, op).value.1 == Kept && !l.charges[IdOf(c)].state.Counts() && c.state.Counts())
            && (Revives(l, op) ==> IdOf(c) == ChargeId(op.company, op.operation))
  {
  }

  lemma NoWriteNoRevival(l: Ledger, op: Op)
    requires Revives(l, op)
    ensures Written(l, op).Some?
  {
  }

  /** Every step keeps the limits, in memory and in the store, exactly when it does not revive
      a refused charge its period has no room for. */
  lemma StepExactly(l: Ledger, op: Op, book: Book, past: seq<Charges>, a: Allowance)
    requires Keyed(l.charges) && Fixed(l.live, a) && Sure(l, op, book)
    requires Within(BookOf(l, book), past, a) && Unforgotten(past, op, a)
    requires book == InMemory && op.DoSet? && l.read != Done ==> Within(l.charges + l.store, past, a)
    ensures Within(BookOf(Step(l, op), book), past, a) <==> Roomy(l, op, BookOf(l, book), past, a)
  {
    hide Within, HasRoom, Written, Unforgotten, Used, Judge;
    var m := BookOf(l, book);
    match op
    case DoSweep(allowances, now, refused, gone) =>
      var stale := Stale(l.charges, allowances, now);
      if book == InStore {
        assert stale - (refused - gone) == stale - refused;
      }
      DropWithin(m, past, stale - refused, a);
    case DoSet(_, _) =>
    case DoRestart =>
      if book == InMemory {
        DropWithin(m, past, m.Keys, a);
        assert m - m.Keys == map[];
      }
    case DoCharge(_, _, _) =>
      BookWrites(l, op, book);
      if Written(l, op).Some? {
        var c := Written(l, op).value.0;
        ChargeOverNothing(l, op);
        ChargeHasRoom(l, op, m, past, a);
        PutExactly(m, past, IdOf(c), c, a);
      }
    case _ => SettleStepExactly(l, op, book, past, a);
  }

  lemma SettleStepExactly(l: Ledger, op: Op, book: Book, past: seq<Charges>, a: Allowance)
    requires (op.DoSettle? || op.DoSettleFinal?) && Keyed(l.charges) && Sure(l, op, book)
    requires Within(BookOf(l, book), past, a)
    ensures Within(BookOf(Step(l, op), book), past, a) <==> Roomy(l, op, BookOf(l, book), past, a)
  {
    hide Within, HasRoom, Written;
    var m := BookOf(l, book);
    BookWrites(l, op, book);
    if Written(l, op).Some? {
      var c := Written(l, op).value.0;
      SettleMoves(l, op);
      MoveExactly(m, past, IdOf(c), c, a);
    } else if Revives(l, op) {
      NoWriteNoRevival(l, op);
    }
  }

  /** `settle` on its own looks at no limit: it keeps those of an allowance exactly when it
      revives no refused charge, or finds room for the one it revives. */
  lemma SettleSafeExactly(l: Ledger, company: string, operation: string, state: ChargeState, now: nat, reply: PutReply,
                          past: seq<Charges>, a: Allowance)
    requires Keyed(l.charges) && Within(l.charges, past, a)
    ensures var key := ChargeId(company, operation);
            Within(SettleStep(l, company, operation, state, now, reply).charges, past, a) <==>
              (reply == Kept && state.Counts() && key in l.charges && l.charges[key].state == Refused ==>
                 HasRoom(l.charges, past, l.charges[key], a))
  {
    hide Within, HasRoom, ChargeId;
    var key := ChargeId(company, operation);
    if key in l.charges {
      MoveExactly(l.charges, past, key, l.charges[key].(state := state, ended := Some(now)), a);
    }
  }

  // --- whole runs ------------------------------------------------------------

  ghost predicate Throughout(l: Ledger, ops: seq<Op>, book: Book, a: Allowance)
    decreases |ops|
  {
    Within(BookOf(l, book), [], a) && (ops != [] ==> Throughout(Step(l, ops[0]), ops[1..], book, a))
  }

  ghost predicate RoomyRun(l: Ledger, ops: seq<Op>, book: Book, a: Allowance)
    decreases |ops|
  {
    ops != [] ==> Roomy(l, ops[0], BookOf(l, book), [], a) && RoomyRun(Step(l, ops[0]), ops[1..], book, a)
  }

  /** The runs a book can be followed through: for memory, whatever the store answers, once it
      was read and until a restart; for the store, restarts and failed reads included, while
      it answers plainly. */
  predicate Followed(l: Ledger, ops: seq<Op>, book: Book) {
    match book
    case InMemory => l.read == Done && DoRestart !in ops
    case InStore => Mirrors(l) && forall op :: op in ops ==> Clean(op)
  }

  lemma FollowedStep(l: Ledger, ops: seq<Op>, book: Book)
    requires Followed(l, ops, book) && ops != [] && Keyed(l.charges)
    ensures Sure(l, ops[0], book) && Followed(Step(l, ops[0]), ops[1..], book)
  {
    hide Judge, Used, Strays, Mirrors, Clean;
    if book == InStore {
      CleanNeverStrays(l, ops[0]);
      StepMirrorsExactly(l, ops[0]);
    }
  }

  lemma StepKeepsFixed(l: Ledger, op: Op, a: Allowance)
    requires Fixed(l.live, a) && KeepsTerms(op, a)
    ensures Fixed(Step(l, op).live, a)
  {
    hide Judge, Used;
  }

  /** Whatever the clock says and in whatever order, whatever the other rail spends: the
      charges held, in memory and in the store, stay within every calendar period's budget and
      number of payments all through a run, exactly when no settle of the run revives a refused
      charge that its period has no room for. */
  lemma {:induction false} BudgetHolds(l: Ledger, ops: seq<Op>, book: Book, a: Allowance)
    requires Keyed(l.charges) && Keyed(l.store) && Fixed(l.live, a)
    requires Followed(l, ops, book) && forall op :: op in ops ==> KeepsTerms(op, a)
    requires Within(BookOf(l, book), [], a)
    ensures Throughout(l, ops, book, a) <==> RoomyRun(l, ops, book, a)
    decreases |ops|
  {
    hide Within, Step, Roomy, Followed, Fixed, BookOf, Clean, Mirrors;
    if ops == [] {
    } else {
      FollowedStep(l, ops, book);
      SureOfRead(l, ops, book);
      StepExactly(l, ops[0], book, [], a);
      if Roomy(l, ops[0], BookOf(l, book), [], a) {
        StepKeepsKeyed(l, ops[0]);
        StepKeepsFixed(l, ops[0], a);
        BudgetHolds(Step(l, ops[0]), ops[1..], book, a);
      } else {
        assert !Throughout(Step(l, ops[0]), ops[1..], book, a);
      }
    }
  }

  lemma SureOfRead(l: Ledger, ops: seq<Op>, book: Book)
    requires Followed(l, ops, book)
    ensures book == InMemory ==> l.read == Done
  {
  }

  /** What holds of the store holds of memory while the store mirrors it. */
  lemma MemoryWithin(l: Ledger, past: seq<Charges>, a: Allowance)
    requires Mirrors(l) && Within(l.store, past, a)
    ensures Within(l.charges, past, a)
  {
    hide Within;
    assert l.charges == l.store - (l.store.Keys - l.charges.Keys);
    DropWithin(l.store, past, l.store.Keys - l.charges.Keys, a);
  }

  // --- an allowance that never renews ----------------------------------------

  lemma {:induction false} OnceIsAlways(m: Charges, a: Allowance, t: nat, what: Measure)
    requires a.per == Once
    ensures Tally(m, a, InPeriod(t), what) == Tally(m, a, Always, what)
  {
    if m == map[] {
    } else {
      var k :| k in m;
      TallyTake(m, k, a, InPeriod(t), what);
      TallyTake(m, k, a, Always, what);
      OnceIsAlways(m - {k}, a, t, what);
    }
  }

  lemma OnceWithin(m: Charges, a: Allowance)
    requires a.per == Once
    ensures Within(m, [], a) <==> Fits(a, Tally(m, a, Always, Amounts), Tally(m, a, Always, Payments))
  {
    hide Tally;
    forall t: nat
      ensures PeriodFits(m, [], a, t) <==> Fits(a, Tally(m, a, Always, Amounts), Tally(m, a, Always, Payments))
    {
      OnceIsAlways(m, a, t, Amounts);
      OnceIsAlways(m, a, t, Payments);
    }
    assert Within(m, [], a) ==> PeriodFits(m, [], a, 0);
  }

  /** All counting charges of the allowance in a book, whenever they were made, stay within its
      limits all through a run. */
  ghost predicate AlwaysThroughout(l: Ledger, ops: seq<Op>, book: Book, a: Allowance)
    decreases |ops|
  {
    && Fits(a, Tally(BookOf(l, book), a, Always, Amounts), Tally(BookOf(l, book), a, Always, Payments))
    && (ops != [] ==> AlwaysThroughout(Step(l, ops[0]), ops[1..], book, a))
  }

  lemma {:induction false} OnceThroughout(l: Ledger, ops: seq<Op>, book: Book, a: Allowance)
    requires a.per == Once
    ensures AlwaysThroughout(l, ops, book, a) <==> Throughout(l, ops, book, a)
    decreases |ops|
  {
    hide Within, Step, BookOf, Tally;
    OnceWithin(BookOf(l, book), a);
    if ops == [] {
    } else {
      OnceThroughout(Step(l, ops[0]), ops[1..], book, a);
    }
  }

  /** An allowance for `once` is one budget for all time: whatever the instants, its charges are
      within it all through a run, by the same condition. */
  lemma OnceNeverRenews(l: Ledger, ops: seq<Op>, book: Book, a: Allowance)
    requires a.per == Once
    requires Keyed(l.charges) && Keyed(l.store) && Fixed(l.live, a)
    requires Followed(l, ops, book) && forall op :: op in ops ==> KeepsTerms(op, a)
    requires Fits(a, Tally(BookOf(l, book), a, Always, Amounts), Tally(BookOf(l, book), a, Always, Payments))
    ensures AlwaysThroughout(l, ops, book, a) <==> RoomyRun(l, ops, book, a)
  {
    hide Within, Followed, Fixed, Tally, Throughout, AlwaysThroughout, RoomyRun;
    OnceWithin(BookOf(l, book), a);
    OnceThroughout(l, ops, book, a);
    BudgetHolds(l, ops, book, a);
  }
}
