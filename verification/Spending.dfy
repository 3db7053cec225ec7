/**
 The ledger of what an allowance was charged: charges in memory, the store
 beneath them, and the allowances in force. Each public operation is one
 atomic step; the class performs it on its fields, and every step is proved
 against a function on the ledger's value.
 */
module Spending {
  import opened Wrappers
  import opened Calendar
  import opened Allowances

  // --- charges ---------------------------------------------------------------

  datatype ChargeState = Sent | Confirmed | Unknown | Refused | Credited {
    predicate Counts() {
      Sent? || Confirmed? || Unknown?
    }
  }

  datatype Charge = Charge(
    company: string,
    operation: string,
    allowance: string,
    currency: string,
    amount: U128,
    state: ChargeState,
    at: nat,
    ended: Option<nat>)

  function ChargeId(company: string, operation: string): string {
    company + "." + operation
  }

  type Charges = map<string, Charge>

  /** Every charge is kept under its own id. */
  predicate Keyed(m: Charges) {
    forall k :: k in m ==> ChargeId(m[k].company, m[k].operation) == k
  }

  // --- tallies: what counts, summed over a map in any order ------------------

  /** Which charges of an allowance are summed: those at or after an instant, as the code
      counts them; those of the calendar period an instant lies in; those of that period or
      later; all, whenever they were made; and all that were ever charged in a period, whatever
      became of them. */
  datatype Scope = From(since: nat) | InPeriod(t: nat) | Current(t: nat) | Always | EverIn(t: nat)

  datatype Measure = Amounts | Payments

  predicate Counted(c: Charge, a: Allowance, scope: Scope) {
    && c.allowance == a.id
    && c.currency == a.currency
    && match scope
       case From(since) => c.state.Counts() && c.at >= since
       case InPeriod(t) => c.state.Counts() && SamePeriod(a.per, c.at, t)
       case Current(t) => c.state.Counts() && (SamePeriod(a.per, c.at, t) || c.at > t)
       case Always => c.state.Counts()
       case EverIn(t) => SamePeriod(a.per, c.at, t)
  }

  function Weigh(c: Charge, a: Allowance, scope: Scope, what: Measure): nat {
    if !Counted(c, a, scope) then 0 else if what == Amounts then c.amount else 1
  }

  ghost function Tally(m: Charges, a: Allowance, scope: Scope, what: Measure): nat {
    if m == map[] then 0
    else
      var k :| k in m;
      Weigh(m[k], a, scope, what) + Tally(m - {k}, a, scope, what)
  }

  /** The sum does not depend on the order charges are taken in. */
  lemma {:induction false} TallyTake(m: Charges, k: string, a: Allowance, scope: Scope, what: Measure)
    requires k in m
    ensures Tally(m, a, scope, what) == Weigh(m[k], a, scope, what) + Tally(m - {k}, a, scope, what)
  {
    hide Weigh;
    var j :| j in m && Tally(m, a, scope, what) == Weigh(m[j], a, scope, what) + Tally(m - {j}, a, scope, what);
    if j != k {
      TallyTake(m - {j}, k, a, scope, what);
      TallyTake(m - {k}, j, a, scope, what);
      assert m - {j} - {k} == m - {k} - {j};
    }
  }

  lemma TallyPut(m: Charges, k: string, c: Charge, a: Allowance, scope: Scope, what: Measure)
    ensures Tally(m[k := c], a, scope, what) == Weigh(c, a, scope, what) + Tally(m - {k}, a, scope, what)
  {
    hide Weigh;
    TallyTake(m[k := c], k, a, scope, what);
    assert m[k := c] - {k} == m - {k};
  }

  lemma TallyDrop(m: Charges, k: string, a: Allowance, scope: Scope, what: Measure)
    ensures Tally(m, a, scope, what) ==
            Tally(m - {k}, a, scope, what) + (if k in m then Weigh(m[k], a, scope, what) else 0)
  {
    hide Weigh;
    if k in m {
      TallyTake(m, k, a, scope, what);
    } else {
      assert m - {k} == m;
    }
  }

  /** Dropping charges takes their weights off the sum. */
  lemma {:induction false} TallyDropAll(m: Charges, gone: set<string>, a: Allowance, scope: Scope, what: Measure)
    ensures Tally(m - gone, a, scope, what) <= Tally(m, a, scope, what)
    ensures (forall k :: k in gone && k in m ==> Weigh(m[k], a, scope, what) == 0) ==>
              Tally(m - gone, a, scope, what) == Tally(m, a, scope, what)
  {
    hide Weigh;
    if gone == {} {
      assert m - gone == m;
    } else {
      var k :| k in gone;
      TallyDrop(m, k, a, scope, what);
      TallyDropAll(m - {k}, gone - {k}, a, scope, what);
      assert m - {k} - (gone - {k}) == m - gone;
    }
  }

  function Among(m: Charges, ks: set<string>): Charges {
    map k | k in m && k in ks :: m[k]
  }

  /** What is taken out of a map and what stays sum to what was there. */
  lemma {:induction false} TallySplit(m: Charges, gone: set<string>, a: Allowance, scope: Scope, what: Measure)
    ensures Tally(m, a, scope, what) == Tally(m - gone, a, scope, what) + Tally(Among(m, gone), a, scope, what)
  {
    hide Weigh;
    if m != map[] {
      var k :| k in m;
      TallyTake(m, k, a, scope, what);
      TallySplit(m - {k}, gone, a, scope, what);
      if k in gone {
        TallyTake(Among(m, gone), k, a, scope, what);
        assert Among(m, gone) - {k} == Among(m - {k}, gone) && m - {k} - gone == m - gone;
      } else {
        TallyTake(m - gone, k, a, scope, what);
        assert Among(m, gone) == Among(m - {k}, gone) && m - gone - {k} == m - {k} - gone;
      }
    } else {
      assert m - gone == m && Among(m, gone) == m;
    }
  }

  lemma SameWeights(c: Charge, a: Allowance, t: nat, u: nat, what: Measure)
    ensures SamePeriod(a.per, t, u) ==> Weigh(c, a, InPeriod(t), what) == Weigh(c, a, InPeriod(u), what)
    ensures Weigh(c, a, From(Since(a.per, t)), what) == Weigh(c, a, Current(t), what)
    ensures Weigh(c, a, InPeriod(t), what) <= Weigh(c, a, Current(t), what)
  {
    hide SamePeriod, Since;
    SinceIsPeriod(a.per, c.at, t);
    SinceIsPeriod(a.per, c.at, u);
    SinceIsPeriod(a.per, t, u);
    SinceExactly(a.per, c.at, t);
  }

  /** One period has one sum, whichever of its instants it is asked for. */
  lemma {:induction false} TallySamePeriod(m: Charges, a: Allowance, t: nat, u: nat, what: Measure)
    requires SamePeriod(a.per, t, u)
    ensures Tally(m, a, InPeriod(t), what) == Tally(m, a, InPeriod(u), what)
  {
    hide Weigh, SamePeriod;
    if m == map[] {
    } else {
      var k :| k in m;
      TallyTake(m, k, a, InPeriod(t), what);
      TallyTake(m, k, a, InPeriod(u), what);
      SameWeights(m[k], a, t, u, what);
      TallySamePeriod(m - {k}, a, t, u, what);
    }
  }

  /** What the code counts from `since` on is what lies in the current period or later. */
  lemma {:induction false} TallyCurrent(m: Charges, a: Allowance, now: nat, what: Measure)
    ensures Tally(m, a, From(Since(a.per, now)), what) == Tally(m, a, Current(now), what)
    ensures Tally(m, a, InPeriod(now), what) <= Tally(m, a, Current(now), what)
  {
    hide Weigh, Since;
    if m == map[] {
    } else {
      var k :| k in m;
      TallyTake(m, k, a, From(Since(a.per, now)), what);
      TallyTake(m, k, a, Current(now), what);
      TallyTake(m, k, a, InPeriod(now), what);
      SameWeights(m[k], a, now, now, what);
      TallyCurrent(m - {k}, a, now, what);
    }
  }

  // --- the ledger and its steps ----------------------------------------------

  /** How far the ledger got with reading the store. */
  datatype ReadState = NotYet | Failed | Done

  datatype Ledger = Ledger(charges: Charges, store: Charges, live: map<string, Allowance>, read: ReadState)

  /** What the store answered a put: kept; refused, without effect; or kept going while the
      store is degraded, written through or not. */
  datatype PutReply = Kept | NotKept | Degraded(written: bool)

  datatype Charged = New(above: bool) | Held

  datatype Refusal = ConfirmedAlready | NoAllowance | Past(limits: seq<Limit>) | StoreRefused

  ghost function Used(l: Ledger, a: Allowance, now: nat, except: set<string>, x402: Usage): Usage {
    if l.read != Done then Usage(U128_MAX, U32_MAX)
    else
      var m := l.charges - except;
      var since := Since(a.per, now);
      Usage(SaturatingAdd(0, Tally(m, a, From(since), Amounts) + x402.spent, U128_MAX),
            SaturatingAdd(0, Tally(m, a, From(since), Payments) + x402.payments, U32_MAX))
  }

  function Put(l: Ledger, c: Charge, reply: PutReply): Ledger {
    var id := ChargeId(c.company, c.operation);
    match reply
    case Kept => l.(charges := l.charges[id := c], store := l.store[id := c])
    case NotKept => l
    case Degraded(written) => if written then l.(store := l.store[id := c]) else l
  }

  datatype Request = Request(id: string, company: string, operation: string, amount: U128, now: nat)

  ghost function ChargeStep(l: Ledger, r: Request, x402: Usage, reply: PutReply): (Ledger, Result<Charged, Refusal>) {
    var key := ChargeId(r.company, r.operation);
    if key in l.charges && l.charges[key].state == Confirmed then (l, Err(ConfirmedAlready))
    else if key in l.charges && (l.charges[key].state == Sent || l.charges[key].state == Unknown) then (l, Ok(Held))
    else if r.id !in l.live then (l, Err(NoAllowance))
    else
      var a := l.live[r.id];
      match Judge(a, r.company, None, r.amount, Used(l, a, r.now, {}, x402), r.now)
      case Err(limits) => (l, Err(Past(limits)))
      case Ok(above) =>
        var c := Charge(r.company, r.operation, a.id, a.currency, r.amount, Sent, r.now, None);
        (Put(l, c, reply), if reply == Kept then Ok(New(above)) else Err(StoreRefused))
  }

  function SettleStep(l: Ledger, company: string, operation: string, state: ChargeState, now: nat,
                      reply: PutReply): Ledger {
    var key := ChargeId(company, operation);
    if key !in l.charges || l.charges[key].state == state || l.charges[key].state == Credited then l
    else
      var c := l.charges[key];
      Put(l, c.(state := state, ended := Some(now)), reply)
  }

  /** Where a final state of the operation moves its charge, if anywhere. */
  function FinalState(l: Ledger, company: string, operation: string, state: string,
                      confirmed: bool): Option<ChargeState> {
    var key := ChargeId(company, operation);
    if key !in l.charges then None
    else
      var c := l.charges[key];
      var to :=
        if state == "succeeded" then Confirmed
        else if state == "cancelled" then Credited
        else if confirmed || c.state == Confirmed then Confirmed
        else Refused;
      if c.state == to || c.state == Credited || c.state == Refused then None else Some(to)
  }

  function SettleFinalStep(l: Ledger, company: string, operation: string, state: string, confirmed: bool,
                           now: nat, reply: PutReply): Ledger {
    match FinalState(l, company, operation, state, confirmed)
    case None => l
    case Some(to) => SettleStep(l, company, operation, to, now, reply)
  }

  predicate Swept(c: Charge, allowances: map<string, Allowance>, now: nat) {
    && c.state != Sent
    && (c.allowance in allowances ==> c.at < Since(allowances[c.allowance].per, now))
  }

  function Stale(m: Charges, allowances: map<string, Allowance>, now: nat): (ids: set<string>)
    ensures ids <= m.Keys
  {
    set k | k in m && Swept(m[k], allowances, now)
  }

  /** `refused` are the ids whose delete reports an error, `gone` those whose record went all
      the same. */
  function SweepStep(l: Ledger, allowances: map<string, Allowance>, now: nat,
                     refused: set<string>, gone: set<string>): Ledger {
    var stale := Stale(l.charges, allowances, now);
    l.(charges := l.charges - (stale - refused), store := l.store - (stale - (refused - gone)))
  }

  function SetStep(l: Ledger, all: map<string, Allowance>, readable: bool): Ledger {
    var l' := l.(live := all);
    if all == map[] || l.read == Done then l'
    else if readable then l'.(charges := l.charges + l.store, read := Done)
    else l'.(read := Failed)
  }

  function Opened(store: Charges): Ledger {
    Ledger(map[], store, map[], NotYet)
  }

  // --- the end of an operation -----------------------------------------------

  /** What the end of an operation does to its charge. When the store keeps it, the charge
      counts afterwards exactly when it counted before, the operation was not cancelled, and the
      company is known to have taken it; when the store does not, it stays as it was. Nothing
      else of the charge changes but when it ended. */
  lemma SettleFinalCounts(l: Ledger, company: string, operation: string, state: string, confirmed: bool,
                          now: nat, reply: PutReply)
    requires Keyed(l.charges) && ChargeId(company, operation) in l.charges
    ensures var key := ChargeId(company, operation);
            var c, m := l.charges[key], SettleFinalStep(l, company, operation, state, confirmed, now, reply).charges;
            && key in m
            && m == l.charges[key := c.(state := m[key].state, ended := m[key].ended)]
            && (m[key].state.Counts() <==>
                  c.state.Counts() && (reply == Kept ==>
                      state != "cancelled" && (state == "succeeded" || confirmed || c.state == Confirmed)))
            && (reply != Kept ==> m == l.charges)
            && (reply == Kept && c.state.Counts() ==>
                  m[key].state == (if m[key].state.Counts() then Confirmed
                                   else if state == "cancelled" then Credited else Refused))
  {
    hide ChargeId;
    var key := ChargeId(company, operation);
    assert l.charges[key := l.charges[key]] == l.charges;
  }

  // --- what is let through ---------------------------------------------------

  /** What an allowance admits, said of the calendar and the sums: both rails' payments in the
      current period or later, and this one, are within the budget and the number of payments;
      the amount is within the greatest; the day is from the first on and before the last; the
      payee is one of those named; and nothing is asked that the company rail cannot hold. */
  ghost predicate Admits(m: Charges, a: Allowance, payee: string, amount: U128, now: nat, x402: Usage) {
    && (|| Tally(m, a, Current(now), Amounts) + x402.spent + amount <= a.budget
        || (amount == 0 && a.budget == U128_MAX))
    && (a.times.Some? ==> Tally(m, a, Current(now), Payments) + x402.payments + 1 <= a.times.value)
    && amount <= a.max
    && (a.from.Some? ==> a.from.value <= now)
    && (a.until.Some? ==> now < a.until.value)
    && (a.payees.Some? ==> exists p :: p in a.payees.value && p == payee)
    && a.categories == [] && a.hosts.None?
    && !(a.approverUnbound && a.approveAbove.Some? && amount > a.approveAbove.value)
  }

  /** Once the store was read, a payment is judged by exactly that. */
  lemma JudgedExactly(l: Ledger, a: Allowance, payee: string, amount: U128, now: nat, x402: Usage)
    requires l.read == Done
    ensures Judge(a, payee, None, amount, Used(l, a, now, {}, x402), now).Ok? <==>
            Admits(l.charges, a, payee, amount, now, x402)
  {
    hide Tally, Judge, Since;
    var used := Used(l, a, now, {}, x402);
    assert l.charges - {} == l.charges;
    TallyCurrent(l.charges, a, now, Amounts);
    TallyCurrent(l.charges, a, now, Payments);
    LimitsExactly(a, payee, amount, used, now);
  }

  lemma LimitsExactly(a: Allowance, payee: string, amount: U128, used: Usage, now: nat)
    ensures (forall limit :: !Exceeds(a, payee, None, amount, used, now, limit)) <==>
            && used.spent + amount <= a.budget && (a.times.Some? ==> used.payments < a.times.value)
            && amount <= a.max
            && (a.from.Some? ==> a.from.value <= now) && (a.until.Some? ==> now < a.until.value)
            && (a.payees.Some? ==> payee in a.payees.value) && a.categories == [] && a.hosts.None?
            && !(a.approverUnbound && a.approveAbove.Some? && amount > a.approveAbove.value)
  {
    if forall limit :: !Exceeds(a, payee, None, amount, used, now, limit) {
      assert !Exceeds(a, payee, None, amount, used, now, Budget) && !Exceeds(a, payee, None, amount, used, now, Times);
      assert !Exceeds(a, payee, None, amount, used, now, Max) && !Exceeds(a, payee, None, amount, used, now, Payee);
      assert !Exceeds(a, payee, None, amount, used, now, TooEarly);
      assert !Exceeds(a, payee, None, amount, used, now, TooLate);
      assert !Exceeds(a, payee, None, amount, used, now, Categories);
      assert !Exceeds(a, payee, None, amount, used, now, HostUnknown);
      assert !Exceeds(a, payee, None, amount, used, now, ApproverUnbound);
    }
  }

  /** Which charge of an operation that is held settles what is answered. */
  predicate Holds(m: Charges, company: string, operation: string, state: ChargeState) {
    ChargeId(company, operation) in m && m[ChargeId(company, operation)].state == state
  }

  /** Every answer, and when: an operation confirmed before is refused; one whose outcome is open
      is held as it is; any other is taken exactly when the allowance in force admits it and the
      store keeps it, and the answer says whether someone must approve it. */
  lemma AnswersExactly(l: Ledger, r: Request, x402: Usage, reply: PutReply)
    requires l.read == Done
    ensures var answer := ChargeStep(l, r, x402, reply).1;
            var open := Holds(l.charges, r.company, r.operation, Sent)
                        || Holds(l.charges, r.company, r.operation, Unknown);
            && (answer == Err(ConfirmedAlready) <==> Holds(l.charges, r.company, r.operation, Confirmed))
            && (answer == Ok(Held) <==> open)
            && (answer.Ok? && answer.value.New? <==>
                  && !open && !Holds(l.charges, r.company, r.operation, Confirmed) && reply == Kept
                  && r.id in l.live && Admits(l.charges, l.live[r.id], r.company, r.amount, r.now, x402))
            && (answer.Ok? && answer.value.New? ==>
                  var limit := l.live[r.id].approveAbove;
                  answer.value.above <==> limit.Some? && r.amount > limit.value)
  {
    hide Judge, Used, Admits, ChargeId;
    if r.id in l.live {
      JudgedExactly(l, l.live[r.id], r.company, r.amount, r.now, x402);
    }
  }

  // --- an unread ledger ------------------------------------------------------

  /** Before the first good read nothing is known to be left of any allowance: a charge passes
      exactly when it is of nothing, against a budget no amount can pass and no number of
      payments, and within the other limits. */
  lemma UnreadRefusesExactly(l: Ledger, a: Allowance, payee: string, amount: U128, now: nat, x402: Usage)
    requires l.read != Done
    ensures Judge(a, payee, None, amount, Used(l, a, now, {}, x402), now).Ok? <==>
              && amount == 0 && a.budget == U128_MAX && a.times.None?
              && forall limit :: limit != Budget && limit != Times ==>
                   !Exceeds(a, payee, None, amount, Usage(0, 0), now, limit)
  {
    hide Judge;
    var used := Used(l, a, now, {}, x402);
    assert forall limit :: limit != Budget && limit != Times ==>
             (Exceeds(a, payee, None, amount, used, now, limit) <==>
              Exceeds(a, payee, None, amount, Usage(0, 0), now, limit));
    assert Exceeds(a, payee, None, amount, used, now, Budget) <==> !(amount == 0 && a.budget == U128_MAX);
    assert Exceeds(a, payee, None, amount, used, now, Times) <==> a.times.Some?;
  }

  // --- the sweep -------------------------------------------------------------

  /** Sweeping forgets nothing that counts: the usage of every allowance it was told of is the
      same at that instant and at every later one. */
  lemma SweepKeepsUsage(l: Ledger, allowances: map<string, Allowance>, now: nat, later: nat, a: Allowance,
                        refused: set<string>, gone: set<string>, except: set<string>, x402: Usage)
    requires a.id in allowances && allowances[a.id] == a && now <= later
    ensures Used(SweepStep(l, allowances, now, refused, gone), a, later, except, x402) ==
            Used(l, a, later, except, x402)
  {
    hide Tally;
    var swept := Stale(l.charges, allowances, now) - refused;
    var m, since := l.charges - except, Since(a.per, later);
    SinceMonotone(a.per, now, later);
    assert l.charges - swept - except == m - swept;
    TallyDropAll(m, swept, a, From(since), Amounts);
    TallyDropAll(m, swept, a, From(since), Payments);
  }

  /** A charge on its way is never forgotten, and one whose delete failed stays. */
  lemma SweepKeepsSent(l: Ledger, allowances: map<string, Allowance>, now: nat,
                       refused: set<string>, gone: set<string>, k: string)
    requires k in l.charges && (l.charges[k].state == Sent || k in refused)
    ensures var l' := SweepStep(l, allowances, now, refused, gone);
            k in l'.charges && l'.charges[k] == l.charges[k]
  {
  }

  // --- the loops -------------------------------------------------------------

  /** Add up what counts from `since` on, charge by charge, leaving one charge out. */
  method Total(m: Charges, a: Allowance, since: nat, except: Option<string>) returns (spent: int, payments: int)
    requires Keyed(m)
    ensures var skip := if except.Some? then {except.value} else {};
            && spent == SaturatingAdd(0, Tally(m - skip, a, From(since), Amounts), U128_MAX)
            && payments == SaturatingAdd(0, Tally(m - skip, a, From(since), Payments), U32_MAX)
  {
    ghost var skip := if except.Some? then {except.value} else {};
    ghost var amounts, number := 0, 0;
    AddsUp(0, 0, U128_MAX);
    AddsUp(0, 0, U32_MAX);
    assert forall what :: Rest(m, skip, a, since, what) == Tally(m - skip, a, From(since), what);
    hide Rest, Keyed, SaturatingAdd, ChargeId;
    spent, payments := 0, 0;
    var todo := m;
    while todo != map[]
      invariant Keyed(todo)
      invariant amounts >= 0 && amounts + Rest(todo, skip, a, since, Amounts) == Rest(m, skip, a, since, Amounts)
      invariant number >= 0 && number + Rest(todo, skip, a, since, Payments) == Rest(m, skip, a, since, Payments)
      invariant spent == SaturatingAdd(0, amounts, U128_MAX) && payments == SaturatingAdd(0, number, U32_MAX)
      decreases |todo|
    {
      var k :| k in todo;
      var c := todo[k];
      KeyedLess(todo, k);
      OneLess(todo, skip, k, a, since);
      Forget(todo, k);
      if && c.allowance == a.id && c.currency == a.currency && c.state.Counts() && c.at >= since
         && except != Some(ChargeId(c.company, c.operation)) {
        AddsUp(amounts, c.amount, U128_MAX);
        AddsUp(number, 1, U32_MAX);
        spent := SaturatingAdd(spent, c.amount, U128_MAX);
        payments := SaturatingAdd(payments, 1, U32_MAX);
        amounts, number := amounts + c.amount, number + 1;
      }
      todo := todo - {k};
    }
    RestEmpty(skip, a, since);
  }

  /** What is still to be added up. */
  ghost function Rest(todo: Charges, skip: set<string>, a: Allowance, since: nat, what: Measure): nat {
    Tally(todo - skip, a, From(since), what)
  }

  lemma RestEmpty(skip: set<string>, a: Allowance, since: nat)
    ensures forall what :: Rest(map[], skip, a, since, what) == 0
  {
    var none: Charges := map[];
    assert none - skip == none;
  }

  lemma KeyedLess(m: Charges, k: string)
    requires Keyed(m) && k in m
    ensures ChargeId(m[k].company, m[k].operation) == k && Keyed(m - {k})
  {
  }

  /** Adding one by one saturates exactly where the sum does. */
  lemma AddsUp(sum: nat, more: nat, max: nat)
    ensures SaturatingAdd(SaturatingAdd(0, sum, max), more, max) == SaturatingAdd(0, sum + more, max)
    ensures SaturatingAdd(0, 0, max) == 0
  {
  }

  /** Delete the stale charges one by one: from memory those whose delete was reported done,
      from the store those whose record went. */
  method DeleteAll(m: Charges, kept: Charges, stale: set<string>, refused: set<string>, gone: set<string>)
    returns (m': Charges, kept': Charges, n: nat)
    requires stale <= m.Keys
    ensures m' == m - (stale - refused) && kept' == kept - (stale - (refused - gone))
    ensures n == |m| - |m'|
  {
    hide After;
    var todo := stale;
    m', kept', n := m, kept, 0;
    AfterEnds(m, stale, refused);
    AfterEnds(kept, stale, refused - gone);
    while todo != {}
      invariant todo <= stale
      invariant m' == After(m, stale, todo, refused)
      invariant kept' == After(kept, stale, todo, refused - gone)
      invariant n == |m| - |m'|
    {
      var id :| id in todo;
      AfterOne(m, stale, todo, refused, id);
      AfterOne(kept, stale, todo, refused - gone, id);
      todo := todo - {id};
      if id !in refused {
        kept' := kept' - {id};
        Forget(m', id);
        m' := m' - {id};
        n := n + 1;
      } else if id in gone {
        kept' := kept' - {id};
      }
    }
  }

  /** A map once every stale id was dealt with but those in `todo`; the ids in `spared` stay. */
  ghost function After(m: Charges, stale: set<string>, todo: set<string>, spared: set<string>): Charges {
    m - (stale - todo - spared)
  }

  lemma AfterEnds(m: Charges, stale: set<string>, spared: set<string>)
    ensures After(m, stale, stale, spared) == m
    ensures After(m, stale, {}, spared) == m - (stale - spared)
  {
    assert stale - stale - spared == {} && stale - {} - spared == stale - spared;
  }

  lemma AfterOne(m: Charges, stale: set<string>, todo: set<string>, spared: set<string>, id: string)
    requires id in todo && todo <= stale
    ensures After(m, stale, todo - {id}, spared) ==
            if id in spared then After(m, stale, todo, spared) else After(m, stale, todo, spared) - {id}
    ensures id in m ==> id in After(m, stale, todo, spared)
  {
    assert stale - (todo - {id}) - spared ==
        if id in spared then stale - todo - spared else (stale - todo - spared) + {id};
  }

  // --- the ledger as an object -----------------------------------------------

  class Spending {
    var charges: Charges
    var store: Charges
    var live: map<string, Allowance>
    var read: ReadState

    ghost function State(): Ledger
      reads this
    {
      Ledger(charges, store, live, read)
    }

    ghost predicate Valid()
      reads this
    {
      Keyed(charges) && Keyed(store)
    }

    constructor (kept: Charges)
      requires Keyed(kept)
      ensures Valid() && State() == Opened(kept)
    {
      charges, store, live, read := map[], kept, map[], NotYet;
    }

    /** What counts against `a`, summed charge by charge, leaving one out. */
    method UsageOf(a: Allowance, now: nat, except: Option<string>, x402: Usage) returns (u: Usage)
      requires Valid()
      ensures u == Used(State(), a, now, if except.Some? then {except.value} else {}, x402)
    {
      if read != Done {
        return Usage(U128_MAX, U32_MAX);
      }
      hide Tally;
      var since := Since(a.per, now);
      var spent, payments := Total(charges, a, since, except);
      u := Usage(SaturatingAdd(spent, x402.spent, U128_MAX), SaturatingAdd(payments, x402.payments, U32_MAX));
    }

    method PutCharge(c: Charge, reply: PutReply) returns (ok: bool)
      requires Valid()
      modifies this
      ensures Valid() && State() == Put(old(State()), c, reply) && ok == (reply == Kept)
    {
      var id := ChargeId(c.company, c.operation);
      match reply
      case NotKept => ok := false;
      case Degraded(written) =>
        if written {
          store := store[id := c];
        }
        ok := false;
      case Kept =>
        store := store[id := c];
        charges := charges[id := c];
        ok := true;
    }

    /** Charge an operation, if it is within the allowance in force. */
    method TakeCharge(r: Request, x402: Usage, reply: PutReply) returns (done: Result<Charged, Refusal>)
      requires Valid()
      modifies this
      ensures Valid() && (State(), done) == ChargeStep(old(State()), r, x402, reply)
    {
      hide Used, Judge;
      var key := ChargeId(r.company, r.operation);
      if key in charges {
        match charges[key].state
        case Confirmed => return Err(ConfirmedAlready);
        case Sent => return Ok(Held);
        case Unknown => return Ok(Held);
        case Refused =>
        case Credited =>
      }
      if r.id !in live {
        return Err(NoAllowance);
      }
      var a := live[r.id];
      var usage := UsageOf(a, r.now, None, x402);
      match Judge(a, r.company, None, r.amount, usage, r.now) {
        case Err(limits) => return Err(Past(limits));
        case Ok(above) =>
          var ok := PutCharge(Charge(r.company, r.operation, a.id, a.currency, r.amount, Sent, r.now, None), reply);
          return if ok then Ok(New(above)) else Err(StoreRefused);
      }
    }

    method Settle(company: string, operation: string, state: ChargeState, now: nat, reply: PutReply)
      requires Valid()
      modifies this
      ensures Valid() && State() == SettleStep(old(State()), company, operation, state, now, reply)
    {
      var key := ChargeId(company, operation);
      if key !in charges {
        return;
      }
      var c := charges[key];
      if c.state == state || c.state == Credited {
        return;
      }
      var _ := PutCharge(c.(state := state, ended := Some(now)), reply);
    }

    method SettleFinal(company: string, operation: string, state: string, confirmed: bool, now: nat, reply: PutReply)
      returns (moved: Option<ChargeState>)
      requires Valid()
      modifies this
      ensures Valid() && State() == SettleFinalStep(old(State()), company, operation, state, confirmed, now, reply)
      ensures moved == FinalState(old(State()), company, operation, state, confirmed)
    {
      moved := FinalState(Ledger(charges, store, live, read), company, operation, state, confirmed);
      if moved.Some? {
        Settle(company, operation, moved.value, now, reply);
      }
    }

    /** Drop what is stale, one delete at a time. */
    method Sweep(allowances: map<string, Allowance>, now: nat, refused: set<string>, gone: set<string>) returns (n: nat)
      requires Valid()
      modifies this
      ensures Valid() && State() == SweepStep(old(State()), allowances, now, refused, gone)
      ensures n == |old(charges)| - |charges|
    {
      hide Stale, ChargeId;
      var stale := Stale(charges, allowances, now);
      charges, store, n := DeleteAll(charges, store, stale, refused, gone);
    }

    /** Put these allowances in force, and read the store if that was not done and there are any. */
    method SetAllowances(all: map<string, Allowance>, readable: bool) returns (ok: bool)
      requires Valid()
      modifies this
      ensures Valid() && State() == SetStep(old(State()), all, readable)
      ensures ok <==> all == map[] || read == Done
    {
      live := all;
      if all == map[] {
        return true;
      }
      if read != Done {
        if readable {
          charges := charges + store;
          read := Done;
        } else {
          read := Failed;
        }
      }
      return read == Done;
    }
  }

  lemma TakeOne(m: Charges, skip: set<string>, k: string, a: Allowance, scope: Scope, what: Measure)
    requires k in m
    ensures Tally(m - skip, a, scope, what) ==
            Tally(m - {k} - skip, a, scope, what) + (if k in skip then 0 else Weigh(m[k], a, scope, what))
  {
    hide Weigh;
    TallyDrop(m - skip, k, a, scope, what);
    assert m - {k} - skip == m - skip - {k};
  }

  lemma WeighFrom(c: Charge, a: Allowance, since: nat)
    ensures var counts := c.allowance == a.id && c.currency == a.currency && c.state.Counts() && c.at >= since;
            && Weigh(c, a, From(since), Amounts) == (if counts then c.amount else 0)
            && Weigh(c, a, From(since), Payments) == (if counts then 1 else 0)
  {
  }

  lemma OneLess(m: Charges, skip: set<string>, k: string, a: Allowance, since: nat)
    requires k in m
    ensures var c := m[k];
            var counts := k !in skip && c.allowance == a.id && c.currency == a.currency && c.state.Counts()
                && c.at >= since;
            && Rest(m, skip, a, since, Amounts) ==
                Rest(m - {k}, skip, a, since, Amounts) + (if counts then c.amount else 0)
            && Rest(m, skip, a, since, Payments) == Rest(m - {k}, skip, a, since, Payments) + (if counts then 1 else 0)
  {
    hide Tally, Weigh;
    TakeOne(m, skip, k, a, From(since), Amounts);
    TakeOne(m, skip, k, a, From(since), Payments);
    WeighFrom(m[k], a, since);
  }

  lemma Forget(m: Charges, k: string)
    requires k in m
    ensures |m - {k}| == |m| - 1
  {
    assert m == (m - {k})[k := m[k]];
  }
}
