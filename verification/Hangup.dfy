/**
 How any thread breaks off an exchange that another waits in: an atomic flag,
 and a lock around the socket of the connection in use. Any number
 of threads hang up while the exchange arms and disarms; every interleaving of
 their atomic steps is a run of the machine below.
 */
module Hangup {
  import opened Wrappers

  type Conn = nat
  type Thread = nat

  /** Where a `hang_up` call is. */
  datatype HangPc =
    | Flagged               // `closed` is stored
    | Locked                // the lock is held
    | Took(socket: Option<Conn>)  // the socket was taken and the lock let go
    | Returned

  /** Where the exchange is. */
  datatype ExchangePc =
    | Idle
    | ArmLocked(conn: Conn)    // `arm` holds the lock
    | ArmOpen(conn: Conn)      // it read `closed` as false
    | ArmRefused(conn: Conn)   // it read `closed` as true
    | DisarmLocked             // `disarm` holds the lock

  datatype Holder = Nobody | Exchange | Caller(t: Thread)

  /** `armed` is the connection `arm` last answered true for and nothing disarmed or replaced;
      `refused` are those it answered false for. Neither is in the program. */
  datatype State = State(
    closed: bool,
    socket: Option<Conn>,
    lock: Holder,
    hangs: map<Thread, HangPc>,
    exchange: ExchangePc,
    shut: set<Conn>,
    armed: Option<Conn>,
    refused: set<Conn>)

  datatype Action =
    | StartHangUp(t: Thread)
    | LockHangUp(t: Thread)
    | TakeSocket(t: Thread)
    | ShutSocket(t: Thread)
    | StartArm(conn: Conn)
    | LoadClosed
    | StoreSocket
    | Refuse
    | StartDisarm
    | DropSocket

  const START := State(false, None, Nobody, map[], Idle, {}, None, {})

  /** Whether a thread can take the step now. */
  predicate Enabled(s: State, a: Action) {
    match a
    case StartHangUp(t) => t !in s.hangs
    case LockHangUp(t) => t in s.hangs && s.hangs[t] == Flagged && s.lock == Nobody
    case TakeSocket(t) => t in s.hangs && s.hangs[t] == Locked && s.lock == Caller(t)
    case ShutSocket(t) => t in s.hangs && s.hangs[t].Took?
    case StartArm(conn) => s.exchange == Idle && s.lock == Nobody
    case LoadClosed => s.exchange.ArmLocked?
    case StoreSocket => s.exchange.ArmOpen?
    case Refuse => s.exchange.ArmRefused?
    case StartDisarm => s.exchange == Idle && s.lock == Nobody
    case DropSocket => s.exchange == DisarmLocked
  }

  function Step(s: State, a: Action): State
    requires Enabled(s, a)
  {
    match a
    case StartHangUp(t) => s.(closed := true, hangs := s.hangs[t := Flagged])
    case LockHangUp(t) => s.(lock := Caller(t), hangs := s.hangs[t := Locked])
    case TakeSocket(t) => s.(socket := None, lock := Nobody, hangs := s.hangs[t := Took(s.socket)])
    case ShutSocket(t) =>
      var took := s.hangs[t].socket;
      s.(shut := if took.Some? then s.shut + {took.value} else s.shut, hangs := s.hangs[t := Returned])
    case StartArm(conn) => s.(lock := Exchange, exchange := ArmLocked(conn))
    case LoadClosed =>
      s.(exchange := if s.closed then ArmRefused(s.exchange.conn) else ArmOpen(s.exchange.conn))
    case StoreSocket =>
      var conn := s.exchange.conn;
      s.(socket := Some(conn), lock := Nobody, exchange := Idle, armed := Some(conn))
    case Refuse =>
      var conn := s.exchange.conn;
      s.(shut := s.shut + {conn}, lock := Nobody, exchange := Idle, refused := s.refused + {conn})
    case StartDisarm => s.(lock := Exchange, exchange := DisarmLocked)
    case DropSocket => s.(socket := None, lock := Nobody, exchange := Idle, armed := None)
  }

  predicate IsRun(s: State, actions: seq<Action>)
    decreases |actions|
  {
    actions != [] ==> Enabled(s, actions[0]) && IsRun(Step(s, actions[0]), actions[1..])
  }

  function Run(s: State, actions: seq<Action>): State
    requires IsRun(s, actions)
    decreases |actions|
  {
    if actions == [] then s else Run(Step(s, actions[0]), actions[1..])
  }

  // --- the invariant ---------------------------------------------------------

  /** A hang-up that will still look at the socket. */
  ghost predicate Coming(s: State) {
    exists t :: t in s.hangs && (s.hangs[t] == Flagged || s.hangs[t] == Locked)
  }

  ghost predicate Shutting(s: State, conn: Conn) {
    exists t :: t in s.hangs && s.hangs[t] == Took(Some(conn))
  }

  ghost predicate LockInv(s: State) {
    && (s.lock == Exchange <==> s.exchange != Idle)
    && (s.lock.Caller? ==> s.lock.t in s.hangs && s.hangs[s.lock.t] == Locked)
    && (forall t :: t in s.hangs && s.hangs[t] == Locked ==> s.lock == Caller(t))
    && (s.closed <==> s.hangs != map[])
  }

  /** Whatever is armed is in the slot, being shut, or shut; and whenever the flag is up, a
      connection in the slot, or about to be, has a hang-up coming for it. */
  ghost predicate Inv(s: State) {
    && LockInv(s)
    && (s.armed.Some? ==> s.socket == s.armed || Shutting(s, s.armed.value) || s.armed.value in s.shut)
    && (s.socket.Some? && s.closed ==> Coming(s))
    && (s.exchange.ArmOpen? && s.closed ==> Coming(s))
    && (s.exchange.ArmRefused? ==> s.closed)
    && s.refused <= s.shut
    && (s.shut != {} ==> s.closed)
  }

  lemma StepKeepsInv(s: State, a: Action)
    requires Inv(s) && Enabled(s, a)
    ensures Inv(Step(s, a))
  {
    var s' := Step(s, a);
    KeepsComing(s, a);
    KeepsShutting(s, a);
    match a
    case StartHangUp(t) => assert s'.hangs[t] == Flagged;
    case LockHangUp(t) => assert s'.hangs[t] == Locked;
    case TakeSocket(t) => assert s'.hangs[t] == Took(s.socket);
    case _ =>
  }

  /** A coming hang-up stays one until it takes the socket. */
  lemma KeepsComing(s: State, a: Action)
    requires Inv(s) && Enabled(s, a)
    ensures Coming(s) && !a.TakeSocket? ==> Coming(Step(s, a))
  {
    if Coming(s) && !a.TakeSocket? {
      var t :| t in s.hangs && (s.hangs[t] == Flagged || s.hangs[t] == Locked);
      assert t in Step(s, a).hangs;
    }
  }

  lemma KeepsShutting(s: State, a: Action)
    requires Inv(s) && Enabled(s, a)
    ensures forall c :: Shutting(s, c) ==> Shutting(Step(s, a), c) || c in Step(s, a).shut
    ensures s.shut <= Step(s, a).shut
  {
    forall c | Shutting(s, c) ensures Shutting(Step(s, a), c) || c in Step(s, a).shut {
      var t :| t in s.hangs && s.hangs[t] == Took(Some(c));
      assert t in Step(s, a).hangs;
    }
  }

  lemma {:induction false} RunKeepsInv(s: State, actions: seq<Action>)
    requires Inv(s) && IsRun(s, actions)
    ensures Inv(Run(s, actions))
    decreases |actions|
  {
    hide Inv;
    if actions == [] {
    } else {
      StepKeepsInv(s, actions[0]);
      RunKeepsInv(Step(s, actions[0]), actions[1..]);
    }
  }

  /** In every interleaving: once all started hang-ups have returned, no connection is left in
      the slot, and one still armed has been shut down; and without a hang-up none is, however
      often the exchange arms and disarms. */
  lemma HangUpShutsArmed(actions: seq<Action>)
    requires IsRun(START, actions)
    ensures var s := Run(START, actions);
            s.hangs != map[] && (forall t :: t in s.hangs ==> s.hangs[t] == Returned) ==>
              s.socket.None? && !s.exchange.ArmOpen? && (s.armed.Some? ==> s.armed.value in s.shut)
    ensures Run(START, actions).hangs == map[] ==> Run(START, actions).shut == {}
  {
    assert Inv(START);
    RunKeepsInv(START, actions);
  }

  /** Once a hang-up has begun and no `arm` had read the flag before it, no later `arm`
      succeeds: each answers false, its connection shut down. */
  lemma {:induction false} LaterArmsRefused(s: State, actions: seq<Action>)
    requires Inv(s) && s.closed && !s.exchange.ArmOpen? && IsRun(s, actions)
    ensures var s' := Run(s, actions);
            && s'.closed && StoreSocket !in actions
            && (forall conn :: StartArm(conn) in actions ==>
                  conn in s'.refused || s'.exchange == ArmLocked(conn) || s'.exchange == ArmRefused(conn))
            && (forall conn :: s.exchange == ArmLocked(conn) || s.exchange == ArmRefused(conn) ==>
                  conn in s'.refused || s'.exchange == s.exchange || s'.exchange == ArmRefused(conn))
            && s.refused <= s'.refused <= s'.shut
    decreases |actions|
  {
    if actions != [] {
      var a := actions[0];
      StepKeepsInv(s, a);
      hide Inv;
      LaterArmsRefused(Step(s, a), actions[1..]);
      assert actions == [a] + actions[1..];
    } else {
      assert s.refused <= s.shut;
    }
  }

  /** Nothing waits for ever on the lock: while a call is under way, one can take a step. */
  lemma SomeCallCanStep(s: State)
    requires Inv(s) && (s.exchange != Idle || exists t :: t in s.hangs && s.hangs[t] != Returned)
    ensures exists a :: Enabled(s, a) && !a.StartHangUp? && !a.StartArm? && !a.StartDisarm?
  {
    if s.exchange != Idle {
      assert Enabled(s, LoadClosed) || Enabled(s, StoreSocket) || Enabled(s, Refuse) || Enabled(s, DropSocket);
    } else {
      var t :| t in s.hangs && s.hangs[t] != Returned;
      if s.lock.Caller? {
        assert Enabled(s, TakeSocket(s.lock.t));
      } else {
        assert Enabled(s, LockHangUp(t)) || Enabled(s, ShutSocket(t));
      }
    }
  }

  // --- calls left alone ------------------------------------------------------

  lemma RunCons(s: State, a: Action, rest: seq<Action>)
    requires Enabled(s, a) && IsRun(Step(s, a), rest)
    ensures IsRun(s, [a] + rest) && Run(s, [a] + rest) == Run(Step(s, a), rest)
  {
    assert ([a] + rest)[1..] == rest;
  }

  lemma HangUpAlone(s: State, t: Thread)
    requires t !in s.hangs && s.lock == Nobody
    ensures var steps := [StartHangUp(t), LockHangUp(t), TakeSocket(t), ShutSocket(t)];
            && IsRun(s, steps)
            && Run(s, steps) == s.(closed := true, socket := None, hangs := s.hangs[t := Returned],
                                   shut := if s.socket.Some? then s.shut + {s.socket.value} else s.shut)
  {
    var s1 := Step(s, StartHangUp(t));
    var s2 := Step(s1, LockHangUp(t));
    var s3 := Step(s2, TakeSocket(t));
    RunCons(s3, ShutSocket(t), []);
    RunCons(s2, TakeSocket(t), [ShutSocket(t)]);
    RunCons(s1, LockHangUp(t), [TakeSocket(t), ShutSocket(t)]);
    RunCons(s, StartHangUp(t), [LockHangUp(t), TakeSocket(t), ShutSocket(t)]);
  }

  lemma ArmAlone(s: State, conn: Conn)
    requires s.exchange == Idle && s.lock == Nobody
    ensures var steps := [StartArm(conn), LoadClosed, if s.closed then Refuse else StoreSocket];
            && IsRun(s, steps)
            && Run(s, steps) == if s.closed
                                then s.(shut := s.shut + {conn}, refused := s.refused + {conn})
                                else s.(socket := Some(conn), armed := Some(conn))
  {
    var last := if s.closed then Refuse else StoreSocket;
    var s1 := Step(s, StartArm(conn));
    var s2 := Step(s1, LoadClosed);
    RunCons(s2, last, []);
    RunCons(s1, LoadClosed, [last]);
    RunCons(s, StartArm(conn), [LoadClosed, last]);
  }

  // --- the handle as an object -----------------------------------------------

  /** The calls as the program writes them; each, left alone, is its steps in a row. */
  class Handle {
    var closed: bool
    var socket: Option<Conn>
    var shut: set<Conn>

    ghost predicate Is(s: State)
      reads this
    {
      closed == s.closed && socket == s.socket && shut == s.shut
    }

    method HangUp(ghost s: State, ghost t: Thread)
      requires Is(s) && t !in s.hangs && s.lock == Nobody
      modifies this
      ensures var steps := [StartHangUp(t), LockHangUp(t), TakeSocket(t), ShutSocket(t)];
              IsRun(s, steps) && Is(Run(s, steps))
    {
      HangUpAlone(s, t);
      closed := true;
      var taken := socket;
      socket := None;
      if taken.Some? {
        shut := shut + {taken.value};
      }
    }

    method Arm(conn: Conn, ghost s: State) returns (ok: bool)
      requires Is(s) && s.exchange == Idle && s.lock == Nobody
      modifies this
      ensures var steps := [StartArm(conn), LoadClosed, if ok then StoreSocket else Refuse];
              IsRun(s, steps) && Is(Run(s, steps))
      ensures ok <==> !old(closed)
    {
      ArmAlone(s, conn);
      if closed {
        shut := shut + {conn};
        return false;
      }
      socket := Some(conn);
      return true;
    }

    method Disarm(ghost s: State)
      requires Is(s) && s.exchange == Idle && s.lock == Nobody
      modifies this
      ensures IsRun(s, [StartDisarm, DropSocket]) && Is(Run(s, [StartDisarm, DropSocket]))
    {
      RunCons(Step(s, StartDisarm), DropSocket, []);
      RunCons(s, StartDisarm, [DropSocket]);
      socket := None;
    }
  }
}
