/**
 Whole runs of the ledger, and what a process that starts again makes of the
 store the one before it left.
 */
module Restarts {
  import opened Wrappers
  import opened Allowances
  import opened Spending

  // --- runs ------------------------------------------------------------------

  datatype Op =
    | DoCharge(r: Request, x402: Usage, reply: PutReply)
    | DoSettle(company: string, operation: string, state: ChargeState, now: nat, reply: PutReply)
    | DoSettleFinal(company: string, operation: string, final: string, confirmed: bool, now: nat, reply: PutReply)
    | DoSweep(allowances: map<string, Allowance>, now: nat, refused: set<string>, gone: set<string>)
    | DoSet(all: map<string, Allowance>, readable: bool)
    | DoRestart

  ghost function Step(l: Ledger, op: Op): Ledger {
    match op
    case DoCharge(r, x402, reply) => ChargeStep(l, r, x402, reply).0
    case DoSettle(company, operation, state, now, reply) => SettleStep(l, company, operation, state, now, reply)
    case DoSettleFinal(company, operation, final, confirmed, now, reply) =>
      SettleFinalStep(l, company, operation, final, confirmed, now, reply)
    case DoSweep(allowances, now, refused, gone) => SweepStep(l, allowances, now, refused, gone)
    case DoSet(all, readable) => SetStep(l, all, readable)
    case DoRestart => Opened(l.store)
  }

  ghost function Run(l: Ledger, ops: seq<Op>): Ledger
    decreases |ops|
  {
    if ops == [] then l else Run(Step(l, ops[0]), ops[1..])
  }

  // --- the charge a step writes ----------------------------------------------

  /** The charge a step asks the store to keep, if any, and the store's reply. */
  ghost function Written(l: Ledger, op: Op): Option<(Charge, PutReply)> {
    match op
    case DoCharge(r, x402, reply) =>
      if ChargeStep(l, r, x402, Kept).1.Ok? && ChargeStep(l, r, x402, Kept).1.value.New? then
        var a := l.live[r.id];
        Some((Charge(r.company, r.operation, a.id, a.currency, r.amount, Sent, r.now, None), reply))
      else None
    case DoSettle(company, operation, state, now, reply) => Settled(l, company, operation, Some(state), now, reply)
    case DoSettleFinal(company, operation, final, confirmed, now, reply) =>
      Settled(l, company, operation, FinalState(l, company, operation, final, confirmed), now, reply)
    case _ => None
  }

  ghost function Settled(l: Ledger, company: string, operation: string, to: Option<ChargeState>, now: nat,
                         reply: PutReply)
    : Option<(Charge, PutReply)>
  {
    var key := ChargeId(company, operation);
    if to.None? || key !in l.charges || l.charges[key].state == to.value || l.charges[key].state == Credited then None
    else Some((l.charges[key].(state := to.value, ended := Some(now)), reply))
  }

  /** A step that charges or settles writes that one charge, and nothing else. */
  lemma StepWrites(l: Ledger, op: Op)
    requires op.DoCharge? || op.DoSettle? || op.DoSettleFinal?
    ensures Step(l, op) == if Written(l, op).None? then l else Put(l, Written(l, op).value.0, Written(l, op).value.1)
  {
    hide Judge, Used;
  }

  function IdOf(c: Charge): string {
    ChargeId(c.company, c.operation)
  }

  /** The written charge never is the one already there. */
  lemma WrittenIsNew(l: Ledger, op: Op)
    requires Keyed(l.charges) && Written(l, op).Some?
    ensures var c := Written(l, op).value.0;
            IdOf(c) in l.charges ==> l.charges[IdOf(c)] != c
    ensures !op.DoCharge? ==> IdOf(Written(l, op).value.0) in l.charges
  {
    hide Judge, Used;
  }

  lemma StepKeepsKeyed(l: Ledger, op: Op)
    requires Keyed(l.charges) && Keyed(l.store)
    ensures Keyed(Step(l, op).charges) && Keyed(Step(l, op).store)
  {
    hide Written, ChargeId, Put, Stale;
    match op
    case DoSweep(_, _, _, _) =>
    case DoSet(_, _) =>
    case DoRestart =>
    case _ =>
      StepWrites(l, op);
      if Written(l, op).Some? {
        PutKeepsKeyed(l, Written(l, op).value.0, Written(l, op).value.1);
      }
  }

  lemma PutKeepsKeyed(l: Ledger, c: Charge, reply: PutReply)
    requires Keyed(l.charges) && Keyed(l.store)
    ensures Keyed(Put(l, c, reply).charges) && Keyed(Put(l, c, reply).store)
  {
    hide ChargeId;
  }

  // --- memory and store ------------------------------------------------------

  predicate Submap(m: Charges, n: Charges) {
    forall k :: k in m ==> k in n && n[k] == m[k]
  }

  /** Memory holds nothing the store does not, and all of it once it was read. */
  predicate Mirrors(l: Ledger) {
    Submap(l.charges, l.store) && (l.read == Done ==> l.charges == l.store)
  }

  /** The store says it did not keep what it kept: a charge written while it is degraded that
      memory holds otherwise, or a record gone whose delete reports an error. */
  ghost predicate Strays(l: Ledger, op: Op) {
    match op
    case DoSweep(allowances, now, refused, gone) => Stale(l.charges, allowances, now) * refused * gone != {}
    case _ =>
      && Written(l, op).Some?
      && Written(l, op).value.1 == Degraded(true)
      && (l.read == Done || IdOf(Written(l, op).value.0) in l.charges)
  }

  /** A step keeps memory and store together exactly when the store does not stray. */
  lemma StepMirrorsExactly(l: Ledger, op: Op)
    requires Mirrors(l) && Keyed(l.charges)
    ensures Mirrors(Step(l, op)) <==> !Strays(l, op)
  {
    hide Written, Stale;
    match op
    case DoSweep(allowances, now, refused, gone) => SweepMirrorsExactly(l, Stale(l.charges, allowances, now),
        refused, gone);
    case DoSet(all, readable) =>
      assert l.charges + l.store == l.store;
      NothingWritten(l, op);
    case DoRestart => NothingWritten(l, op);
    case _ =>
      StepWrites(l, op);
      if Written(l, op).Some? {
        WrittenIsNew(l, op);
        PutMirrorsExactly(l, Written(l, op).value.0, Written(l, op).value.1);
      }
  }

  lemma NothingWritten(l: Ledger, op: Op)
    requires op.DoSet? || op.DoRestart?
    ensures Written(l, op).None?
  {
  }

  lemma PutMirrorsExactly(l: Ledger, c: Charge, reply: PutReply)
    requires Mirrors(l) && (IdOf(c) in l.charges ==> l.charges[IdOf(c)] != c)
    ensures Mirrors(Put(l, c, reply)) <==> !(reply == Degraded(true) && (l.read == Done || IdOf(c) in l.charges))
  {
    hide ChargeId;
    var id := IdOf(c);
    assert l.store[id := c][id] == c;
  }

  lemma SweepMirrorsExactly(l: Ledger, stale: set<string>, refused: set<string>, gone: set<string>)
    requires Mirrors(l) && stale <= l.charges.Keys
    ensures Mirrors(l.(charges := l.charges - (stale - refused), store := l.store - (stale - (refused - gone))))
            <==> stale * refused * gone == {}
  {
    var m, n := l.charges - (stale - refused), l.store - (stale - (refused - gone));
    if k :| k in stale * refused * gone {
      assert k in m && k !in n;
    } else {
      assert stale - (refused - gone) == stale - refused by {
        forall k | k in stale ensures k in stale - (refused - gone) <==> k in stale - refused {
          assert k !in stale * refused * gone;
        }
      }
    }
  }

  ghost predicate NeverStrays(l: Ledger, ops: seq<Op>)
    decreases |ops|
  {
    ops != [] ==> !Strays(l, ops[0]) && NeverStrays(Step(l, ops[0]), ops[1..])
  }

  ghost predicate MirrorsThroughout(l: Ledger, ops: seq<Op>)
    decreases |ops|
  {
    Mirrors(l) && (ops != [] ==> MirrorsThroughout(Step(l, ops[0]), ops[1..]))
  }

  /** Memory and store stay together through a run exactly when the store never strays. */
  lemma {:induction false} MirrorsExactly(l: Ledger, ops: seq<Op>)
    requires Mirrors(l) && Keyed(l.charges) && Keyed(l.store)
    ensures MirrorsThroughout(l, ops) <==> NeverStrays(l, ops)
    ensures NeverStrays(l, ops) ==> Mirrors(Run(l, ops))
    decreases |ops|
  {
    hide Mirrors, Step, Strays;
    if ops == [] {
    } else {
      StepMirrorsExactly(l, ops[0]);
      StepKeepsKeyed(l, ops[0]);
      if !Strays(l, ops[0]) {
        MirrorsExactly(Step(l, ops[0]), ops[1..]);
      } else {
        assert !MirrorsThroughout(Step(l, ops[0]), ops[1..]);
      }
    }
  }

  /** After any run over a store that does not stray, a process that starts again and reads
      the store counts exactly what this one counted. */
  lemma RestartCountsTheSame(store: Charges, ops: seq<Op>, all: map<string, Allowance>,
                             a: Allowance, now: nat, except: set<string>, x402: Usage)
    requires Keyed(store) && NeverStrays(Opened(store), ops) && all != map[]
    ensures var l := Run(Opened(store), ops);
            l.read == Done ==>
              && l.charges == l.store
              && Used(SetStep(Opened(l.store), all, true), a, now, except, x402) == Used(l, a, now, except, x402)
  {
    hide Tally, Run, NeverStrays;
    MirrorsExactly(Opened(store), ops);
    var l := Run(Opened(store), ops);
    assert map[] + l.store == l.store;
  }

  /** A store that answers plainly: a write or a delete is done, or fails without effect. */
  predicate Clean(op: Op) {
    match op
    case DoCharge(_, _, reply) => reply != Degraded(true)
    case DoSettle(_, _, _, _, reply) => reply != Degraded(true)
    case DoSettleFinal(_, _, _, _, _, reply) => reply != Degraded(true)
    case DoSweep(_, _, refused, gone) => refused !! gone
    case DoSet(_, _) => true
    case DoRestart => true
  }

  lemma CleanNeverStrays(l: Ledger, op: Op)
    requires Clean(op)
    ensures !Strays(l, op)
  {
    hide Stale;
    if op.DoSweep? {
      assert op.refused * op.gone == {};
    }
  }
}
