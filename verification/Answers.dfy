/**
 What a caller is told of an operation over time: a charge on its way is held, a
 confirmed one is refused for as long as it is kept, and a sweep, a final state
 and a read do to the ledger what they are called for.
 */
module Answers {
  import opened Wrappers
  import opened Calendar
  import opened Allowances
  import opened Spending
  import opened Restarts

  // --- one call after another ------------------------------------------------

  /** An operation answered as new is held from then on, whatever is asked for it. */
  lemma NewThenHeld(l: Ledger, r: Request, x402: Usage, reply: PutReply, r': Request, x402': Usage, reply': PutReply)
    requires ChargeStep(l, r, x402, reply).1.Ok? && ChargeStep(l, r, x402, reply).1.value.New?
    requires r'.company == r.company && r'.operation == r.operation
    ensures var l' := ChargeStep(l, r, x402, reply).0;
            ChargeStep(l', r', x402', reply') == (l', Ok(Held))
  {
    hide Judge, Used, ChargeId;
  }

  /** An operation settled as confirmed is refused from then on. */
  lemma ConfirmedThenRefused(l: Ledger, company: string, operation: string, now: nat,
                             r: Request, x402: Usage, reply: PutReply)
    requires Keyed(l.charges) && ChargeId(company, operation) in l.charges
    requires l.charges[ChargeId(company, operation)].state != Credited
    requires r.company == company && r.operation == operation
    ensures var l' := SettleStep(l, company, operation, Confirmed, now, Kept);
            ChargeStep(l', r, x402, reply) == (l', Err(ConfirmedAlready))
  {
    hide Judge, Used, ChargeId;
  }

  /** So is one whose counting charge the end of the operation leaves counting. */
  lemma SucceededThenRefused(l: Ledger, company: string, operation: string, state: string, confirmed: bool, now: nat,
                             r: Request, x402: Usage, reply: PutReply)
    requires Keyed(l.charges) && ChargeId(company, operation) in l.charges
    requires l.charges[ChargeId(company, operation)].state.Counts()
    requires state == "succeeded" || (state != "cancelled" && confirmed)
    requires r.company == company && r.operation == operation
    ensures var l' := SettleFinalStep(l, company, operation, state, confirmed, now, Kept);
            ChargeStep(l', r, x402, reply) == (l', Err(ConfirmedAlready))
  {
    hide Judge, Used, ChargeId;
  }

  // --- over whole runs -------------------------------------------------------

  predicate Asks(op: Op, company: string, operation: string) {
    op.DoCharge? && op.r.company == company && op.r.operation == operation
  }

  /** The step neither moves the charge `c` kept under `key` nor forgets it. */
  predicate Leaves(op: Op, key: string, c: Charge) {
    && (op.DoSettle? ==> ChargeId(op.company, op.operation) != key)
    && (op.DoSettleFinal? ==> ChargeId(op.company, op.operation) != key)
    && (op.DoSweep? ==> !Swept(c, op.allowances, op.now) || key in op.refused)
  }

  ghost predicate AnsweredThroughout(l: Ledger, ops: seq<Op>, company: string, operation: string,
                                     answer: Result<Charged, Refusal>)
    decreases |ops|
  {
    ops != [] ==>
      && (Asks(ops[0], company, operation) ==>
            ChargeStep(l, ops[0].r, ops[0].x402, ops[0].reply) == (l, answer))
      && AnsweredThroughout(Step(l, ops[0]), ops[1..], company, operation, answer)
  }

  /** How a charge that counts is answered for. */
  function AnswerFor(state: ChargeState): Result<Charged, Refusal> {
    if state == Confirmed then Err(ConfirmedAlready) else Ok(Held)
  }

  lemma LeftAlone(l: Ledger, op: Op, company: string, operation: string, c: Charge)
    requires Keyed(l.charges) && l.read == Done && op != DoRestart && c.state.Counts()
    requires var key := ChargeId(company, operation);
             key in l.charges && l.charges[key] == c && Leaves(op, key, c)
    ensures var key, l' := ChargeId(company, operation), Step(l, op);
            key in l'.charges && l'.charges[key] == c && l'.read == Done
    ensures Asks(op, company, operation) ==> ChargeStep(l, op.r, op.x402, op.reply) == (l, AnswerFor(c.state))
  {
    hide Judge, Used, Swept, ChargeId;
    if op.DoCharge? || op.DoSettle? || op.DoSettleFinal? {
      StepWrites(l, op);
    }
  }

  /** From the moment a charge counts until a step moves or forgets it, every charge of its
      operation gets the one answer its state calls for, and changes nothing: a confirmed
      operation is refused, one on its way is held. */
  lemma {:induction false} AnswersStand(l: Ledger, ops: seq<Op>, company: string, operation: string, c: Charge)
    requires Keyed(l.charges) && Keyed(l.store) && l.read == Done && c.state.Counts()
    requires ChargeId(company, operation) in l.charges && l.charges[ChargeId(company, operation)] == c
    requires DoRestart !in ops && forall op :: op in ops ==> Leaves(op, ChargeId(company, operation), c)
    ensures AnsweredThroughout(l, ops, company, operation, AnswerFor(c.state))
    decreases |ops|
  {
    hide Step, Leaves, ChargeId, AnswerFor;
    if ops == [] {
    } else {
      assert ops[0] in ops && DoRestart !in ops[1..];
      LeftAlone(l, ops[0], company, operation, c);
      StepKeepsKeyed(l, ops[0]);
      AnswersStand(Step(l, ops[0]), ops[1..], company, operation, c);
    }
  }

  // --- and across restarts ---------------------------------------------------

  ghost predicate RefusedThroughout(l: Ledger, ops: seq<Op>, company: string, operation: string)
    decreases |ops|
  {
    ops != [] ==>
      && (Asks(ops[0], company, operation) ==> ChargeStep(l, ops[0].r, ops[0].x402, ops[0].reply).1.Err?)
      && RefusedThroughout(Step(l, ops[0]), ops[1..], company, operation)
  }

  /** A confirmed charge in a store that answers plainly is refused at every step, in memory or
      not, and stays. */
  lemma KeptConfirmed(l: Ledger, op: Op, company: string, operation: string, c: Charge)
    requires Mirrors(l) && Clean(op) && Keyed(l.charges) && c.state == Confirmed
    requires var key := ChargeId(company, operation);
             key in l.store && l.store[key] == c && Leaves(op, key, c)
    requires op.DoCharge? ==> op.r.amount > 0
    ensures var key, l' := ChargeId(company, operation), Step(l, op);
            key in l'.store && l'.store[key] == c
    ensures Asks(op, company, operation) ==> ChargeStep(l, op.r, op.x402, op.reply).1.Err?
  {
    hide Judge, Used, Swept, ChargeId;
    var key := ChargeId(company, operation);
    if op.DoCharge? && op.r.id in l.live && key == ChargeId(op.r.company, op.r.operation) && key !in l.charges {
      UnreadRefusesExactly(l, l.live[op.r.id], op.r.company, op.r.amount, op.r.now, op.x402);
    }
    if op.DoCharge? || op.DoSettle? || op.DoSettleFinal? {
      StepWrites(l, op);
    }
  }

  /** No operation is confirmed twice: once its charge is confirmed and kept, and until a step
      moves or forgets it, no charge of it is let through, restarts and failed reads included. */
  lemma {:induction false} NeverTwice(l: Ledger, ops: seq<Op>, company: string, operation: string, c: Charge)
    requires Mirrors(l) && Keyed(l.charges) && Keyed(l.store) && c.state == Confirmed
    requires ChargeId(company, operation) in l.store && l.store[ChargeId(company, operation)] == c
    requires forall op :: op in ops ==> Clean(op) && Leaves(op, ChargeId(company, operation), c)
    requires forall op :: op in ops && op.DoCharge? ==> op.r.amount > 0
    ensures RefusedThroughout(l, ops, company, operation)
    decreases |ops|
  {
    hide Step, Leaves, ChargeId, Mirrors, Clean, Strays;
    if ops == [] {
    } else {
      KeptConfirmed(l, ops[0], company, operation, c);
      CleanNeverStrays(l, ops[0]);
      StepMirrorsExactly(l, ops[0]);
      StepKeepsKeyed(l, ops[0]);
      NeverTwice(Step(l, ops[0]), ops[1..], company, operation, c);
    }
  }

  // --- sweeps and reads ------------------------------------------------------

  /** What a sweep keeps, said of the calendar: a charge on its way, one whose delete failed, and
      one of an allowance it was told of that lies in the current period or later. */
  lemma SweepForgetsExactly(l: Ledger, allowances: map<string, Allowance>, now: nat,
                            refused: set<string>, gone: set<string>, k: string)
    requires k in l.charges
    ensures var c := l.charges[k];
            k in SweepStep(l, allowances, now, refused, gone).charges <==>
              || c.state == Sent
              || k in refused
              || (c.allowance in allowances
                  && (SamePeriod(allowances[c.allowance].per, c.at, now) || c.at > now))
  {
    hide Since, SamePeriod;
    var c := l.charges[k];
    if c.allowance in allowances {
      SinceExactly(allowances[c.allowance].per, c.at, now);
    }
  }

  /** Without an allowance the store is never read, and memory holds only what was charged. */
  lemma {:induction false} NoAllowanceNoRead(l: Ledger, ops: seq<Op>)
    requires l.read == NotYet && l.charges == map[] && l.live == map[]
    requires forall op :: op in ops && op.DoSet? ==> op.all == map[]
    ensures Run(l, ops).read == NotYet && Run(l, ops).charges == map[]
    decreases |ops|
  {
    if ops == [] {
    } else {
      NothingInForce(l, ops[0]);
      NoAllowanceNoRead(Step(l, ops[0]), ops[1..]);
    }
  }

  lemma NothingInForce(l: Ledger, op: Op)
    requires l.read == NotYet && l.charges == map[] && l.live == map[] && (op.DoSet? ==> op.all == map[])
    ensures var l' := Step(l, op);
            l'.read == NotYet && l'.charges == map[] && l'.live == map[]
  {
    hide Judge, Used, Swept;
  }

  /** With one, the store is read as soon as it can be, however often that failed before; until
      then an error is reported. */
  lemma ReadOnceThereIsOne(l: Ledger, all: map<string, Allowance>, readable: bool)
    requires all != map[]
    ensures var l' := SetStep(l, all, readable);
            && l'.live == all
            && (l'.read == Done <==> readable || l.read == Done)
            && (l.read != Done && readable ==> Submap(l.store, l'.charges))
            && (l.read == Done || !readable ==> l'.charges == l.charges)
  {
  }
}
