/**
 All that was ever charged to an allowance, the charges the ledger forgot
 included: when it stays within the limits, step by step and over whole runs.
 */
module Histories {
  import opened Wrappers
  import opened Calendar
  import opened Allowances
  import opened Spending
  import opened Restarts
  import opened Budgets

  // --- what a step takes and forgets -----------------------------------------

  /** The step answers a charge as new. */
  ghost predicate Taken(l: Ledger, op: Op) {
    op.DoCharge? && ChargeStep(l, op.r, op.x402, op.reply).1.Ok? && ChargeStep(l, op.r, op.x402, op.reply).1.value.New?
  }

  lemma TakenIsWritten(l: Ledger, op: Op)
    ensures Taken(l, op) <==> op.DoCharge? && Written(l, op).Some? && op.reply == Kept
    ensures Taken(l, op) ==>
              var c := Written(l, op).value.0;
              op.r.id in l.live && c.allowance == l.live[op.r.id].id && c.currency == l.live[op.r.id].currency
              && c.amount == op.r.amount && c.at == op.r.now
  {
    hide Judge, Used;
  }

  /** The charges of a book a step forgets: those swept, and the one a new charge is written
      over. */
  ghost function Forgets(l: Ledger, op: Op, m: Charges): Charges {
    if op.DoSweep? then Among(m, Stale(l.charges, op.allowances, op.now) - op.refused)
    else if Taken(l, op) then Among(m, {ChargeId(op.r.company, op.r.operation)})
    else map[]
  }

  /** What the charge a step takes adds to a sum. */
  ghost function TakenAs(l: Ledger, op: Op, a: Allowance, scope: Scope, what: Measure): nat
    ensures Taken(l, op) ==> Written(l, op).Some?
  {
    TakenIsWritten(l, op);
    if Taken(l, op) then Weigh(Written(l, op).value.0, a, scope, what) else 0
  }

  /** What a step charges to the period of `t`, by what was asked and what was answered. */
  ghost function TakenIn(l: Ledger, op: Op, a: Allowance, t: nat, what: Measure): nat {
    if && Taken(l, op) && op.r.id in l.live
       && l.live[op.r.id].id == a.id && l.live[op.r.id].currency == a.currency && SamePeriod(a.per, op.r.now, t)
    then (if what == Amounts then op.r.amount else 1)
    else 0
  }

  lemma TakenInExactly(l: Ledger, op: Op, a: Allowance, t: nat, what: Measure)
    ensures TakenIn(l, op, a, t, what) == TakenAs(l, op, a, EverIn(t), what)
  {
    hide Taken, Written, SamePeriod;
    TakenIsWritten(l, op);
  }

  /** A book is followed from one step to the next: memory once it was read, the store while it
      mirrors memory and answers plainly. */
  ghost predicate Tracked(l: Ledger, op: Op, book: Book) {
    Sure(l, op, book) && (book == InMemory ==> l.read == Done && op != DoRestart)
  }

  lemma BygoneAppend(past: seq<Charges>, f: Charges, a: Allowance, scope: Scope, what: Measure)
    ensures Bygone(past + [f], a, scope, what) == Bygone(past, a, scope, what) + Tally(f, a, scope, what)
  {
    assert (past + [f])[..|past|] == past;
  }

  lemma NoCharges(a: Allowance, scope: Scope, what: Measure)
    ensures Tally(map[], a, scope, what) == 0
  {
  }

  lemma NothingTaken(l: Ledger, op: Op, m: Charges)
    requires !op.DoCharge?
    ensures !Taken(l, op) && (!op.DoSweep? ==> Forgets(l, op, m) == map[])
  {
  }

  lemma StandsStill(l: Ledger, op: Op, book: Book)
    requires (op.DoSet? || op.DoRestart?) && Tracked(l, op, book)
    ensures BookOf(Step(l, op), book) == BookOf(l, book)
  {
  }

  lemma SweepSplits(l: Ledger, op: Op, book: Book, a: Allowance, scope: Scope, what: Measure)
    requires op.DoSweep? && Sure(l, op, book)
    ensures var m := BookOf(l, book);
            Tally(m, a, scope, what) ==
            Tally(BookOf(Step(l, op), book), a, scope, what) + Tally(Forgets(l, op, m), a, scope, what)
  {
    hide Tally, Stale, Among, Mirrors;
    var stale := Stale(l.charges, op.allowances, op.now);
    if book == InStore {
      assert stale - (op.refused - op.gone) == stale - op.refused;
    }
    TallySplit(BookOf(l, book), stale - op.refused, a, scope, what);
  }

  lemma ChargeSplits(l: Ledger, op: Op, book: Book, a: Allowance, scope: Scope, what: Measure)
    requires op.DoCharge? && Sure(l, op, book)
    ensures var m := BookOf(l, book);
            Tally(BookOf(Step(l, op), book), a, scope, what) + Tally(Forgets(l, op, m), a, scope, what) ==
            Tally(m, a, scope, what) + TakenAs(l, op, a, scope, what)
  {
    hide Tally, Written, Weigh, Among, Step, Mirrors, Clean, Taken;
    var m := BookOf(l, book);
    NoCharges(a, scope, what);
    BookWrites(l, op, book);
    WrittenReply(l, op);
    TakenIsWritten(l, op);
    if Taken(l, op) {
      var c := Written(l, op).value.0;
      ChargeOverNothing(l, op);
      TallyPut(m, IdOf(c), c, a, scope, what);
      TallySplit(m, {IdOf(c)}, a, scope, what);
    }
  }

  // --- nothing that was charged escapes --------------------------------------

  lemma SettleConserves(l: Ledger, op: Op, book: Book, a: Allowance, t: nat, what: Measure)
    requires (op.DoSettle? || op.DoSettleFinal?) && Keyed(l.charges) && Sure(l, op, book)
    ensures Tally(BookOf(Step(l, op), book), a, EverIn(t), what) == Tally(BookOf(l, book), a, EverIn(t), what)
  {
    hide Tally, Written, Weigh, Step, Clean;
    var m := BookOf(l, book);
    BookWrites(l, op, book);
    if Written(l, op).Some? {
      var c := Written(l, op).value.0;
      SettleMoves(l, op);
      TallyPut(m, IdOf(c), c, a, EverIn(t), what);
      TallyDrop(m, IdOf(c), a, EverIn(t), what);
      SameWeight(m[IdOf(c)], c, a, t, what);
    }
  }

  lemma SameWeight(c: Charge, d: Charge, a: Allowance, t: nat, what: Measure)
    requires d == c.(state := d.state, ended := d.ended)
    ensures Weigh(c, a, EverIn(t), what) == Weigh(d, a, EverIn(t), what)
  {
  }

  /** Conservation: with the forgotten charges kept in mind, a step adds to the charges of a
      period exactly what it takes, whatever becomes of a charge. */
  lemma StepConserves(l: Ledger, op: Op, book: Book, past: seq<Charges>, a: Allowance, t: nat, what: Measure)
    requires Keyed(l.charges) && Tracked(l, op, book)
    ensures Booked(BookOf(Step(l, op), book), past + [Forgets(l, op, BookOf(l, book))], a, EverIn(t), what) ==
            Booked(BookOf(l, book), past, a, EverIn(t), what) + TakenIn(l, op, a, t, what)
  {
    hide Tally, Bygone, Written, Weigh, Used, Judge, Among, Taken, Forgets, Step, Mirrors, Clean;
    var m, f := BookOf(l, book), Forgets(l, op, BookOf(l, book));
    BygoneAppend(past, f, a, EverIn(t), what);
    TakenInExactly(l, op, a, t, what);
    if op.DoSweep? {
      SweepSplits(l, op, book, a, EverIn(t), what);
      NothingTaken(l, op, m);
    } else if op.DoCharge? {
      ChargeSplits(l, op, book, a, EverIn(t), what);
    } else {
      NothingTaken(l, op, m);
      NoCharges(a, EverIn(t), what);
      if op.DoSettle? || op.DoSettleFinal? {
        SettleConserves(l, op, book, a, t, what);
      } else {
        StandsStill(l, op, book);
      }
    }
  }

  ghost function PastAfter(l: Ledger, ops: seq<Op>, book: Book, past: seq<Charges>): seq<Charges>
    decreases |ops|
  {
    if ops == [] then past
    else PastAfter(Step(l, ops[0]), ops[1..], book, past + [Forgets(l, ops[0], BookOf(l, book))])
  }

  /** What a run charges to a period of `a`, by its answers. */
  ghost function TakenOver(l: Ledger, ops: seq<Op>, a: Allowance, t: nat, what: Measure): nat
    decreases |ops|
  {
    if ops == [] then 0
    else TakenIn(l, ops[0], a, t, what) + TakenOver(Step(l, ops[0]), ops[1..], a, t, what)
  }

  lemma TrackedStep(l: Ledger, ops: seq<Op>, book: Book)
    requires Followed(l, ops, book) && ops != [] && Keyed(l.charges)
    ensures Tracked(l, ops[0], book) && Followed(Step(l, ops[0]), ops[1..], book)
  {
    FollowedStep(l, ops, book);
  }

  lemma {:induction false} RunConserves(l: Ledger, ops: seq<Op>, book: Book, past: seq<Charges>,
                                        a: Allowance, t: nat, what: Measure)
    requires Keyed(l.charges) && Keyed(l.store) && Followed(l, ops, book)
    ensures Booked(BookOf(Run(l, ops), book), PastAfter(l, ops, book, past), a, EverIn(t), what) ==
            Booked(BookOf(l, book), past, a, EverIn(t), what) + TakenOver(l, ops, a, t, what)
    decreases |ops|
  {
    hide Step, Followed, BookOf, Tracked, Forgets, Booked, TakenIn;
    if ops == [] {
    } else {
      TrackedStep(l, ops, book);
      StepConserves(l, ops[0], book, past, a, t, what);
      StepKeepsKeyed(l, ops[0]);
      RunConserves(Step(l, ops[0]), ops[1..], book, past + [Forgets(l, ops[0], BookOf(l, book))], a, t, what);
    }
  }

  // --- when it all stays within the limits -----------------------------------

  /** What a step adds to what counts has room: the charge it takes, or the one it revives. */
  ghost predicate Suits(l: Ledger, op: Op, m: Charges, past: seq<Charges>, a: Allowance) {
    Roomy(l, op, m, past, a) && (Taken(l, op) ==> Written(l, op).Some? && HasRoom(m, past, Written(l, op).value.0, a))
  }

  lemma SameBooks(m: Charges, past: seq<Charges>, m': Charges, past': seq<Charges>, a: Allowance)
    requires forall t: nat, what ::
               Booked(m, past, a, InPeriod(t), what) == Booked(m', past', a, InPeriod(t), what)
    ensures Within(m, past, a) <==> Within(m', past', a)
  {
    hide Booked;
    assert forall t: nat :: PeriodFits(m, past, a, t) <==> PeriodFits(m', past', a, t);
  }

  /** Books that grew by one counting charge are within the limits exactly when it had room. */
  lemma GrownExactly(m: Charges, past: seq<Charges>, m': Charges, past': seq<Charges>, c: Charge, a: Allowance)
    requires Within(m, past, a) && c.state.Counts()
    requires forall t: nat, what ::
               Booked(m', past', a, InPeriod(t), what) ==
               Booked(m, past, a, InPeriod(t), what) + Weigh(c, a, InPeriod(t), what)
    ensures Within(m', past', a) <==> HasRoom(m, past, c, a)
  {
    hide Booked, SamePeriod;
    SameItself(a.per, c.at);
    if Within(m', past', a) {
      assert PeriodFits(m', past', a, c.at);
    }
    if HasRoom(m, past, c, a) {
      forall t: nat ensures PeriodFits(m', past', a, t) {
        assert PeriodFits(m, past, a, t);
        if SamePeriod(a.per, c.at, t) {
          BookedSamePeriod(m, past, a, c.at, t, Amounts);
          BookedSamePeriod(m, past, a, c.at, t, Payments);
        }
      }
    }
  }

  lemma ForgotNothing(m: Charges, past: seq<Charges>, a: Allowance)
    ensures Within(m, past + [map[]], a) <==> Within(m, past, a)
  {
    hide Tally, Bygone;
    var past' := past + [map[]];
    forall t: nat, what
      ensures Booked(m, past, a, InPeriod(t), what) == Booked(m, past', a, InPeriod(t), what)
    {
      BygoneAppend(past, map[], a, InPeriod(t), what);
      NoCharges(a, InPeriod(t), what);
    }
    SameBooks(m, past, m, past', a);
  }

  lemma SweepEver(l: Ledger, op: Op, book: Book, past: seq<Charges>, a: Allowance)
    requires op.DoSweep? && Sure(l, op, book)
    ensures Within(BookOf(Step(l, op), book), past + [Forgets(l, op, BookOf(l, book))], a)
            <==> Within(BookOf(l, book), past, a)
  {
    hide Tally, Bygone, Forgets, Step, Mirrors, Clean;
    var m, m', f := BookOf(l, book), BookOf(Step(l, op), book), Forgets(l, op, BookOf(l, book));
    forall t: nat, what
      ensures Booked(m, past, a, InPeriod(t), what) == Booked(m', past + [f], a, InPeriod(t), what)
    {
      BygoneAppend(past, f, a, InPeriod(t), what);
      SweepSplits(l, op, book, a, InPeriod(t), what);
    }
    SameBooks(m, past, m', past + [f], a);
  }

  lemma ChargeEver(l: Ledger, op: Op, book: Book, past: seq<Charges>, a: Allowance)
    requires op.DoCharge? && Sure(l, op, book) && Within(BookOf(l, book), past, a)
    ensures Within(BookOf(Step(l, op), book), past + [Forgets(l, op, BookOf(l, book))], a)
            <==> (Taken(l, op) ==> Written(l, op).Some? && HasRoom(BookOf(l, book), past, Written(l, op).value.0, a))
  {
    hide Tally, Bygone, Forgets, Step, Mirrors, Clean, Written, Weigh, Within, Taken;
    TakenIsWritten(l, op);
    var m, m', f := BookOf(l, book), BookOf(Step(l, op), book), Forgets(l, op, BookOf(l, book));
    forall t: nat, what
      ensures Booked(m', past + [f], a, InPeriod(t), what) ==
              Booked(m, past, a, InPeriod(t), what) + TakenAs(l, op, a, InPeriod(t), what)
    {
      BygoneAppend(past, f, a, InPeriod(t), what);
      ChargeSplits(l, op, book, a, InPeriod(t), what);
    }
    if Taken(l, op) {
      ChargeOverNothing(l, op);
      GrownExactly(m, past, m', past + [f], Written(l, op).value.0, a);
    } else {
      SameBooks(m, past, m', past + [f], a);
    }
  }

  /** Every step keeps what was ever charged within the limits exactly when what it adds has
      room, forgotten charges counted. */
  lemma StepEverExactly(l: Ledger, op: Op, book: Book, past: seq<Charges>, a: Allowance)
    requires Keyed(l.charges) && Tracked(l, op, book) && Within(BookOf(l, book), past, a)
    ensures Within(BookOf(Step(l, op), book), past + [Forgets(l, op, BookOf(l, book))], a)
            <==> Suits(l, op, BookOf(l, book), past, a)
  {
    hide Within, Forgets, Taken, HasRoom, Written, Step, Mirrors, Clean;
    var m := BookOf(l, book);
    if op.DoCharge? {
      ChargeEver(l, op, book, past, a);
    } else {
      NothingTaken(l, op, m);
      if op.DoSweep? {
        SweepEver(l, op, book, past, a);
      } else {
        ForgotNothing(BookOf(Step(l, op), book), past, a);
        if op.DoSettle? || op.DoSettleFinal? {
          SettleStepExactly(l, op, book, past, a);
        } else {
          StandsStill(l, op, book);
        }
      }
    }
  }

  ghost predicate EverThroughout(l: Ledger, ops: seq<Op>, book: Book, past: seq<Charges>, a: Allowance)
    decreases |ops|
  {
    && Within(BookOf(l, book), past, a)
    && (ops != [] ==> EverThroughout(Step(l, ops[0]), ops[1..], book, past + [Forgets(l, ops[0], BookOf(l, book))], a))
  }

  ghost predicate SuitsThroughout(l: Ledger, ops: seq<Op>, book: Book, past: seq<Charges>, a: Allowance)
    decreases |ops|
  {
    ops != [] ==>
      && Suits(l, ops[0], BookOf(l, book), past, a)
      && SuitsThroughout(Step(l, ops[0]), ops[1..], book, past + [Forgets(l, ops[0], BookOf(l, book))], a)
  }

  /** All that was ever charged in a calendar period and still counts, forgotten or not, stays
      within the limits all through a run exactly when every charge taken and every charge
      revived had room when it was. */
  lemma {:induction false} EverHolds(l: Ledger, ops: seq<Op>, book: Book, past: seq<Charges>, a: Allowance)
    requires Keyed(l.charges) && Keyed(l.store) && Followed(l, ops, book)
    requires Within(BookOf(l, book), past, a)
    ensures EverThroughout(l, ops, book, past, a) <==> SuitsThroughout(l, ops, book, past, a)
    decreases |ops|
  {
    hide Within, Step, Suits, Followed, BookOf, Tracked, Forgets;
    if ops == [] {
    } else {
      TrackedStep(l, ops, book);
      StepEverExactly(l, ops[0], book, past, a);
      var past' := past + [Forgets(l, ops[0], BookOf(l, book))];
      if Suits(l, ops[0], BookOf(l, book), past, a) {
        StepKeepsKeyed(l, ops[0]);
        EverHolds(Step(l, ops[0]), ops[1..], book, past', a);
      } else {
        assert !EverThroughout(Step(l, ops[0]), ops[1..], book, past', a);
      }
    }
  }

  // --- what the answers took -------------------------------------------------

  /** What was charged in a period and no longer counts: refused or credited. */
  ghost function Released(m: Charges, past: seq<Charges>, a: Allowance, t: nat, what: Measure): int {
    Booked(m, past, a, EverIn(t), what) - Booked(m, past, a, InPeriod(t), what)
  }

  /** What was in the book and what the run's answers took of a period, less what was refused
      or credited. */
  ghost function Answered(l: Ledger, ops: seq<Op>, book: Book, a: Allowance, t: nat, what: Measure): int {
    Tally(BookOf(l, book), a, EverIn(t), what) + TakenOver(l, ops, a, t, what)
    - Released(BookOf(Run(l, ops), book), PastAfter(l, ops, book, []), a, t, what)
  }

  ghost predicate AnswersFit(l: Ledger, ops: seq<Op>, book: Book, a: Allowance) {
    forall t: nat :: PeriodAnswersFit(l, ops, book, a, t)
  }

  ghost predicate PeriodAnswersFit(l: Ledger, ops: seq<Op>, book: Book, a: Allowance, t: nat) {
    Fits(a, Answered(l, ops, book, a, t, Amounts), Answered(l, ops, book, a, t, Payments))
  }

  lemma AnswersAreBooked(l: Ledger, ops: seq<Op>, book: Book, a: Allowance)
    requires Keyed(l.charges) && Keyed(l.store) && Followed(l, ops, book)
    ensures AnswersFit(l, ops, book, a) <==> Within(BookOf(Run(l, ops), book), PastAfter(l, ops, book, []), a)
  {
    hide Run, PastAfter, TakenOver, BookOf, Tally, Followed;
    var m, past := BookOf(Run(l, ops), book), PastAfter(l, ops, book, []);
    forall t: nat, what
      ensures Answered(l, ops, book, a, t, what) == Booked(m, past, a, InPeriod(t), what)
    {
      RunConserves(l, ops, book, [], a, t, what);
    }
    assert forall t: nat :: PeriodAnswersFit(l, ops, book, a, t) <==> PeriodFits(m, past, a, t);
  }

  lemma {:induction false} EverAtEach(l: Ledger, ops: seq<Op>, book: Book, past: seq<Charges>, a: Allowance)
    ensures EverThroughout(l, ops, book, past, a) <==>
            forall n: nat :: n <= |ops| ==> EverAt(l, ops, n, book, past, a)
    decreases |ops|
  {
    hide Within, Step, Forgets, BookOf;
    if ops == [] {
      assert ops[..0] == [];
      assert EverAt(l, ops, 0, book, past, a) <==> Within(BookOf(l, book), past, a);
    } else {
      var l', rest, past' := Step(l, ops[0]), ops[1..], past + [Forgets(l, ops[0], BookOf(l, book))];
      EverAtEach(l', rest, book, past', a);
      assert ops[..0] == [];
      forall n: nat | n < |ops| ensures EverAt(l, ops, n + 1, book, past, a) <==> EverAt(l', rest, n, book, past', a) {
        assert ops[..n + 1][1..] == rest[..n];
      }
      if forall n: nat :: n <= |ops| ==> EverAt(l, ops, n, book, past, a) {
        assert EverAt(l, ops, 0, book, past, a);
        forall n: nat | n <= |rest| ensures EverAt(l', rest, n, book, past', a) {
          assert EverAt(l, ops, n + 1, book, past, a);
        }
      }
      if EverThroughout(l, ops, book, past, a) {
        forall n: nat | n <= |ops| ensures EverAt(l, ops, n, book, past, a) {
          if n > 0 {
            assert EverAt(l', rest, n - 1, book, past', a);
          }
        }
      }
    }
  }

  /** All that was ever charged fits after the first `n` steps. */
  ghost predicate EverAt(l: Ledger, ops: seq<Op>, n: nat, book: Book, past: seq<Charges>, a: Allowance)
    requires n <= |ops|
  {
    Within(BookOf(Run(l, ops[..n]), book), PastAfter(l, ops[..n], book, past), a)
  }

  /** So, by the answers alone: whatever was charged in a calendar period, less what was refused
      or credited, fits the budget and the number of payments at every point of a run, exactly
      when every charge taken or revived had room. In memory this is so whatever the store
      answers; in the store it is so through restarts and failed reads while it answers plainly. */
  lemma TakenWithin(l: Ledger, ops: seq<Op>, book: Book, a: Allowance)
    requires Keyed(l.charges) && Keyed(l.store) && Followed(l, ops, book)
    requires Within(BookOf(l, book), [], a)
    ensures (forall n: nat :: n <= |ops| ==> AnswersFit(l, ops[..n], book, a))
            <==> SuitsThroughout(l, ops, book, [], a)
  {
    hide Within, AnswersFit, Followed, SuitsThroughout, EverThroughout, Run, PastAfter;
    EverHolds(l, ops, book, [], a);
    EverAtEach(l, ops, book, [], a);
    forall n: nat | n <= |ops| ensures AnswersFit(l, ops[..n], book, a) <==> EverAt(l, ops, n, book, [], a) {
      FollowedPrefix(l, ops, n, book);
      AnswersAreBooked(l, ops[..n], book, a);
    }
  }

  lemma FollowedPrefix(l: Ledger, ops: seq<Op>, n: nat, book: Book)
    requires Followed(l, ops, book) && n <= |ops|
    ensures Followed(l, ops[..n], book)
  {
  }

  // --- a condition that can be seen from the calls ---------------------------

  /** Nothing that was forgotten counts for a period from `floor` on. */
  ghost predicate PastBefore(past: seq<Charges>, a: Allowance, floor: nat) {
    forall t: nat, what :: Since(a.per, t) >= floor ==> Bygone(past, a, InPeriod(t), what) == 0
  }

  /** A sweep is told of `a`, and a charge to it is not for a period before `floor`. */
  predicate Orderly(op: Op, a: Allowance, floor: nat) {
    && (op.DoSweep? ==> a.id in op.allowances && op.allowances[a.id] == a)
    && (op.DoCharge? && op.r.id == a.id ==> Since(a.per, op.r.now) >= floor)
  }

  /** Nothing is charged for zero before the store was read. */
  predicate Careful(l: Ledger, op: Op) {
    op.DoCharge? && l.read != Done ==> op.r.amount > 0
  }

  /** The latest period a sweep so far was made in. */
  function Floor(op: Op, a: Allowance, floor: nat): nat {
    if op.DoSweep? && Since(a.per, op.now) > floor then Since(a.per, op.now) else floor
  }

  lemma SweptBefore(l: Ledger, op: Op, m: Charges, a: Allowance, t: nat, what: Measure)
    requires op.DoSweep? && Orderly(op, a, 0) && Submap(l.charges, m)
    requires Since(a.per, t) >= Since(a.per, op.now)
    ensures Tally(Forgets(l, op, m), a, InPeriod(t), what) == 0
  {
    hide Since, SamePeriod;
    var f := Forgets(l, op, m);
    forall k | k in f ensures Weigh(f[k], a, InPeriod(t), what) == 0 {
      SinceMonotone(a.per, f[k].at, f[k].at);
      SinceIsPeriod(a.per, f[k].at, t);
    }
    WeighsNothing(f, a, InPeriod(t), what);
  }

  lemma WeighsNothing(f: Charges, a: Allowance, scope: Scope, what: Measure)
    requires forall k :: k in f ==> Weigh(f[k], a, scope, what) == 0
    ensures Tally(f, a, scope, what) == 0
  {
    hide Weigh;
    TallyDropAll(f, f.Keys, a, scope, what);
    assert f - f.Keys == map[];
    NoCharges(a, scope, what);
  }

  lemma UnreadTakesNothing(l: Ledger, op: Op)
    requires l.read != Done && Careful(l, op)
    ensures !Taken(l, op)
  {
    hide Judge, Used;
    if Taken(l, op) {
      JudgedRoom(l, op.r, op.x402, l.live[op.r.id]);
    }
  }

  /** What a careful charge is written over counts for no period. */
  lemma OverwrittenWeighsNothing(l: Ledger, op: Op, book: Book, a: Allowance, t: nat, what: Measure)
    requires !op.DoSweep? && Tracked(l, op, book) && Careful(l, op)
    ensures Tally(Forgets(l, op, BookOf(l, book)), a, InPeriod(t), what) == 0
  {
    hide Tally, Written, Taken;
    var f := Forgets(l, op, BookOf(l, book));
    if Taken(l, op) {
      TakenIsWritten(l, op);
      ChargeOverNothing(l, op);
      if l.read != Done {
        UnreadTakesNothing(l, op);
      }
      assert forall k :: k in f ==> !f[k].state.Counts();
    }
    WeighsNothing(f, a, InPeriod(t), what);
  }

  /** Orderly, careful steps keep what was forgotten before the floor. */
  lemma PastStaysBefore(l: Ledger, op: Op, book: Book, past: seq<Charges>, a: Allowance, floor: nat)
    requires Tracked(l, op, book) && Careful(l, op) && Orderly(op, a, floor) && PastBefore(past, a, floor)
    ensures PastBefore(past + [Forgets(l, op, BookOf(l, book))], a, Floor(op, a, floor))
  {
    hide Tally, Bygone, Forgets, Tracked, Careful, Since, BookOf;
    var m := BookOf(l, book);
    forall t: nat, what | Since(a.per, t) >= Floor(op, a, floor)
      ensures Bygone(past + [Forgets(l, op, m)], a, InPeriod(t), what) == 0
    {
      BygoneAppend(past, Forgets(l, op, m), a, InPeriod(t), what);
      if op.DoSweep? {
        MirrorsBook(l, op, book);
        SweptBefore(l, op, m, a, t, what);
      } else {
        OverwrittenWeighsNothing(l, op, book, a, t, what);
      }
    }
  }

  lemma MirrorsBook(l: Ledger, op: Op, book: Book)
    requires Tracked(l, op, book)
    ensures Submap(l.charges, BookOf(l, book))
  {
  }

  /** What an orderly, careful step takes has room, because `judge` saw it. */
  lemma OrderlyHasRoom(l: Ledger, op: Op, book: Book, past: seq<Charges>, a: Allowance, floor: nat)
    requires Fixed(l.live, a) && Tracked(l, op, book) && Careful(l, op)
    requires Orderly(op, a, floor) && PastBefore(past, a, floor) && Within(BookOf(l, book), past, a)
    ensures Taken(l, op) ==> Written(l, op).Some? && HasRoom(BookOf(l, book), past, Written(l, op).value.0, a)
  {
    hide Within, HasRoom, Written, Since, Bygone, Taken;
    TakenIsWritten(l, op);
    if Taken(l, op) {
      if l.read == Done {
        ChargeHasRoom(l, op, BookOf(l, book), past, a);
      } else {
        UnreadTakesNothing(l, op);
      }
    }
  }

  ghost predicate OrderlyRun(l: Ledger, ops: seq<Op>, a: Allowance, floor: nat)
    decreases |ops|
  {
    ops != [] ==>
      && Orderly(ops[0], a, floor) && Careful(l, ops[0])
      && OrderlyRun(Step(l, ops[0]), ops[1..], a, Floor(ops[0], a, floor))
  }

  ghost predicate RoomyThroughout(l: Ledger, ops: seq<Op>, book: Book, past: seq<Charges>, a: Allowance)
    decreases |ops|
  {
    ops != [] ==>
      && Roomy(l, ops[0], BookOf(l, book), past, a)
      && RoomyThroughout(Step(l, ops[0]), ops[1..], book, past + [Forgets(l, ops[0], BookOf(l, book))], a)
  }

  /** A run that charges no period older than one it swept in, whose sweeps are told of the
      allowance, that changes no terms, and that charges nothing for zero before the store was
      read, takes only what has room: all that was ever charged stays within the limits exactly
      when every charge revived had room. */
  lemma {:induction false} OrderlyHolds(l: Ledger, ops: seq<Op>, book: Book, past: seq<Charges>, a: Allowance,
                                        floor: nat)
    requires Keyed(l.charges) && Keyed(l.store) && Fixed(l.live, a)
    requires Followed(l, ops, book) && forall op :: op in ops ==> KeepsTerms(op, a)
    requires Within(BookOf(l, book), past, a) && PastBefore(past, a, floor) && OrderlyRun(l, ops, a, floor)
    ensures EverThroughout(l, ops, book, past, a) <==> RoomyThroughout(l, ops, book, past, a)
    decreases |ops|
  {
    hide Within, Step, Roomy, Followed, Fixed, BookOf, Tracked, PastBefore, Orderly, Careful, Forgets, Taken,
         HasRoom, Written;
    if ops == [] {
    } else {
      TrackedStep(l, ops, book);
      StepEverExactly(l, ops[0], book, past, a);
      OrderlyHasRoom(l, ops[0], book, past, a, floor);
      PastStaysBefore(l, ops[0], book, past, a, floor);
      var past' := past + [Forgets(l, ops[0], BookOf(l, book))];
      if Roomy(l, ops[0], BookOf(l, book), past, a) {
        StepKeepsKeyed(l, ops[0]);
        StepKeepsFixed(l, ops[0], a);
        OrderlyHolds(Step(l, ops[0]), ops[1..], book, past', a, Floor(ops[0], a, floor));
      } else {
        assert !EverThroughout(Step(l, ops[0]), ops[1..], book, past', a);
      }
    }
  }
}
