/**
 The schedule of re-dials: a wait that doubles with every failed
 attempt and with every session that died young. Times are milliseconds.
 */
module Redial {
  import opened Wrappers

  const REDIAL_MIN: nat := 1000
  const REDIAL_MAX: nat := 30_000

  /** `flaps` is how many sessions in a row lived for less than `REDIAL_MAX`. */
  datatype Schedule = Schedule(failures: nat, flaps: nat, dialed: Option<nat>, notBefore: Option<nat>)

  /** Two to the power of `n`, five at most. */
  function Doubled(n: nat): nat {
    if n == 0 then 1 else if n == 1 then 2 else if n == 2 then 4 else if n == 3 then 8 else if n == 4 then 16 else 32
  }

  function Backoff(n: nat): (wait: nat)
    ensures REDIAL_MIN <= wait <= REDIAL_MAX
  {
    var wait := REDIAL_MIN * Doubled(n);
    if wait < REDIAL_MAX then wait else REDIAL_MAX
  }

  predicate Due(s: Schedule, now: nat) {
    s.notBefore.None? || s.notBefore.value <= now
  }

  function Failed(s: Schedule, now: nat): Schedule {
    s.(failures := s.failures + 1, notBefore := Some(now + Backoff(s.failures + s.flaps)))
  }

  function Redialed(s: Schedule, now: nat): Schedule {
    var shortLived := s.dialed.Some? && now - s.dialed.value < REDIAL_MAX;
    var flaps := if shortLived then s.flaps + 1 else 0;
    Schedule(0, flaps, Some(now), if flaps > 0 then Some(now + Backoff(flaps - 1)) else None)
  }

  /** The schedule of a connection first made at `now`. */
  function Connected(now: nat): Schedule {
    Schedule(0, 0, Some(now), None)
  }

  // --- runs ------------------------------------------------------------------

  /** An attempt found due at `from` that ended at `at`, with a new session or without one. */
  datatype Attempt = Attempt(from: nat, at: nat, connected: bool)

  function After(s: Schedule, a: Attempt): Schedule {
    if a.connected then Redialed(s, a.at) else Failed(s, a.at)
  }

  /** Attempts are made one after the other, each when it is due. */
  predicate OnSchedule(s: Schedule, now: nat, attempts: seq<Attempt>)
    decreases |attempts|
  {
    attempts != [] ==>
      && now <= attempts[0].from <= attempts[0].at
      && Due(s, attempts[0].from)
      && OnSchedule(After(s, attempts[0]), attempts[0].at, attempts[1..])
  }

  function Run(s: Schedule, attempts: seq<Attempt>): Schedule
    decreases |attempts|
  {
    if attempts == [] then s else Run(After(s, attempts[0]), attempts[1..])
  }

  /** What keeps the flaps bounded: after `flaps` of them the next re-dial is held back. */
  predicate Held(s: Schedule, now: nat) {
    && s.dialed.Some? && s.dialed.value <= now
    && s.flaps <= 6
    && (s.flaps > 0 ==> s.notBefore.Some? && s.notBefore.value >= s.dialed.value + Backoff(s.flaps - 1))
  }

  lemma AttemptKeepsHeld(s: Schedule, now: nat, a: Attempt)
    requires Held(s, now) && now <= a.from <= a.at && Due(s, a.from)
    ensures Held(After(s, a), a.at)
  {
  }

  /** In every run made on schedule, `flaps` never exceeds six. */
  lemma {:induction false} FlapsBounded(s: Schedule, now: nat, attempts: seq<Attempt>)
    requires Held(s, now) && OnSchedule(s, now, attempts)
    ensures Run(s, attempts).flaps <= 6
    decreases |attempts|
  {
    if attempts == [] {
    } else {
      AttemptKeepsHeld(s, now, attempts[0]);
      FlapsBounded(After(s, attempts[0]), attempts[0].at, attempts[1..]);
    }
  }

  // --- how often sessions can be replaced ------------------------------------

  datatype Mark = Mark(at: nat, flaps: nat)

  function Live(s: Schedule): Mark {
    Mark(if s.dialed.Some? then s.dialed.value else 0, s.flaps)
  }

  /** When each session of a run was made, the live one first, and the flaps it left. */
  function Sessions(s: Schedule, attempts: seq<Attempt>): (marks: seq<Mark>)
    ensures |marks| > 0 && marks[0] == Live(s)
    decreases |attempts|
  {
    if attempts == [] then [Live(s)]
    else
      var rest := Sessions(After(s, attempts[0]), attempts[1..]);
      if attempts[0].connected then [Live(s)] + rest else rest
  }

  predicate Linked(a: Mark, b: Mark) {
    && a.at <= b.at
    && a.flaps <= 6 && b.flaps <= 6
    && b.flaps == if b.at - a.at < REDIAL_MAX then a.flaps + 1 else 0
  }

  predicate Chained(marks: seq<Mark>) {
    forall j, k :: 0 <= j < |marks| && j + 1 == k < |marks| ==> Linked(marks[j], marks[k])
  }

  lemma {:induction false} SessionsLinked(s: Schedule, now: nat, attempts: seq<Attempt>)
    requires Held(s, now) && OnSchedule(s, now, attempts)
    ensures Chained(Sessions(s, attempts))
    decreases |attempts|
  {
    hide Backoff;
    if attempts == [] {
    } else {
      var s' := After(s, attempts[0]);
      AttemptKeepsHeld(s, now, attempts[0]);
      SessionsLinked(s', attempts[0].at, attempts[1..]);
      var rest := Sessions(s', attempts[1..]);
      if attempts[0].connected {
        assert Linked(Live(s), rest[0]);
      }
    }
  }

  /** Any eight successive sessions, the first connection counted, span at least `REDIAL_MAX`. */
  lemma EightSessionsSpan(s: Schedule, now: nat, attempts: seq<Attempt>, i: nat)
    requires Held(s, now) && OnSchedule(s, now, attempts)
    requires i + 7 < |Sessions(s, attempts)|
    ensures Sessions(s, attempts)[i + 7].at - Sessions(s, attempts)[i].at >= REDIAL_MAX
  {
    var marks := Sessions(s, attempts);
    SessionsLinked(s, now, attempts);
    assert Linked(marks[i + 6], marks[i + 7]);
    LinksSpan(marks, i, 7);
  }

  /** So from the first connection on: the flaps stay at six or fewer, and no run on schedule
      makes an eighth session within `REDIAL_MAX` of the first of the eight. */
  lemma RedialsAreBounded(t: nat, attempts: seq<Attempt>)
    requires OnSchedule(Connected(t), t, attempts)
    ensures Run(Connected(t), attempts).flaps <= 6
    ensures var marks := Sessions(Connected(t), attempts);
            forall i, j :: 0 <= i && i + 7 <= j < |marks| ==> marks[j].at - marks[i].at >= REDIAL_MAX
  {
    var marks := Sessions(Connected(t), attempts);
    assert Held(Connected(t), t);
    FlapsBounded(Connected(t), t, attempts);
    SessionsLinked(Connected(t), t, attempts);
    forall i, j | 0 <= i && i + 7 <= j < |marks| ensures marks[j].at - marks[i].at >= REDIAL_MAX {
      EightSessionsSpan(Connected(t), t, attempts, i);
      if i + 7 < j {
        LinksSpan(marks, i + 7, j - i - 7);
      }
    }
  }

  lemma {:induction false} LinksSpan(marks: seq<Mark>, i: nat, n: nat)
    requires n > 0 && i + n < |marks| && Chained(marks)
    ensures marks[i].at <= marks[i + n].at
    ensures marks[i + n].at - marks[i].at >= REDIAL_MAX || marks[i + n].flaps == marks[i].flaps + n
  {
    assert Linked(marks[i + n - 1], marks[i + n]);
    if n > 1 {
      LinksSpan(marks, i, n - 1);
    }
  }

  // --- waits -----------------------------------------------------------------

  /** Waits within a streak of failures never shrink. */
  lemma WaitsNeverShrink(s: Schedule, first: nat, second: nat)
    ensures var s1 := Failed(s, first);
            var s2 := Failed(s1, second);
            REDIAL_MIN <= s1.notBefore.value - first <= s2.notBefore.value - second <= REDIAL_MAX
  {
    DoubledGrows(s.failures + s.flaps);
  }

  function AtMost(wait: nat): nat {
    if wait < REDIAL_MAX then wait else REDIAL_MAX
  }

  /** Each failure doubles the wait the one before it set, up to `REDIAL_MAX`, from when it
      failed; the first after a session that lasted waits `REDIAL_MIN`, and the first after one
      that died young doubles the wait that session had set. The next attempt is due exactly
      when the wait is over, and the session's own record stays. */
  lemma WaitsDouble(s: Schedule, first: nat, second: nat, t: nat)
    ensures var s1 := Failed(s, first);
            var s2 := Failed(s1, second);
            var wait := s1.notBefore.value - first;
            && s2.notBefore.value - second == AtMost(2 * wait)
            && (s.failures == 0 && s.flaps == 0 ==> wait == REDIAL_MIN)
            && (JustMade(s, first) && s.flaps > 0 ==> wait == AtMost(2 * (s.notBefore.value - first)))
            && (Due(s1, t) <==> t >= first + wait)
            && s1.dialed == s.dialed && s1.flaps == s.flaps
  {
  }

  /** A new session wipes out the failures before it. */
  lemma FailuresForgotten(s: Schedule, failures: nat, notBefore: Option<nat>, now: nat)
    ensures Redialed(s.(failures := failures, notBefore := notBefore), now) == Redialed(s, now)
    ensures Redialed(s, now).dialed == Some(now) && Redialed(s, now).failures == 0
  {
  }

  lemma DoubledGrows(n: nat)
    ensures Doubled(n) <= Doubled(n + 1)
  {
  }

  // --- the schedule does not settle ------------------------------------------

  /** A server that loses every session at once, re-dialed as soon as it is due. */
  function Eager(s: Schedule, now: nat): Schedule {
    Redialed(s, if s.notBefore.Some? && now < s.notBefore.value then s.notBefore.value else now)
  }

  function EagerRun(s: Schedule, now: nat, n: nat): Schedule
    decreases n
  {
    if n == 0 then s
    else
      var s' := Eager(s, now);
      EagerRun(s', s'.dialed.value, n - 1)
  }

  /** A schedule as a success at `now` leaves it. */
  predicate JustMade(s: Schedule, now: nat) {
    && s.failures == 0 && s.flaps <= 6 && s.dialed == Some(now)
    && s.notBefore == if s.flaps > 0 then Some(now + Backoff(s.flaps - 1)) else None
  }

  /** The gap to the next session, whatever the flaps before: it reaches `REDIAL_MAX` exactly
      after six flaps, and the count then starts over. */
  lemma GapExactly(s: Schedule, now: nat)
    requires JustMade(s, now)
    ensures var s' := Eager(s, now);
            && JustMade(s', s'.dialed.value)
            && s'.dialed.value - now == (if s.flaps > 0 then Backoff(s.flaps - 1) else 0)
            && (s'.dialed.value - now >= REDIAL_MAX <==> s.flaps == 6)
            && s'.flaps == (if s.flaps == 6 then 0 else s.flaps + 1)
  {
  }

  lemma {:induction false} EagerSplit(s: Schedule, now: nat, i: nat, j: nat)
    requires JustMade(s, now)
    ensures var s' := EagerRun(s, now, i);
            && s'.dialed.Some? && JustMade(s', s'.dialed.value)
            && EagerRun(s, now, i + j) == EagerRun(s', s'.dialed.value, j)
    decreases i
  {
    hide Backoff, Eager;
    if i == 0 {
    } else {
      GapExactly(s, now);
      var s' := Eager(s, now);
      EagerSplit(s', s'.dialed.value, i - 1, j);
    }
  }

  /** One round: seven re-dials in 61 seconds, and the schedule is back where it was. */
  lemma EagerRound(t: nat)
    ensures EagerRun(Connected(t), t, 7) == Connected(t + 61_000)
  {
    var s1 := Eager(Connected(t), t);
    assert s1 == Schedule(0, 1, Some(t), Some(t + 1000));
    var s2 := Eager(s1, t);
    assert s2 == Schedule(0, 2, Some(t + 1000), Some(t + 3000));
    var s3 := Eager(s2, t + 1000);
    assert s3 == Schedule(0, 3, Some(t + 3000), Some(t + 7000));
    var s4 := Eager(s3, t + 3000);
    assert s4 == Schedule(0, 4, Some(t + 7000), Some(t + 15_000));
    var s5 := Eager(s4, t + 7000);
    assert s5 == Schedule(0, 5, Some(t + 15_000), Some(t + 31_000));
    var s6 := Eager(s5, t + 15_000);
    assert s6 == Schedule(0, 6, Some(t + 31_000), Some(t + 61_000));
    assert EagerRun(s6, t + 31_000, 1) == Eager(s6, t + 31_000);
    assert EagerRun(s4, t + 7000, 3) == EagerRun(s5, t + 15_000, 2);
    assert EagerRun(s2, t + 1000, 5) == EagerRun(s3, t + 3000, 4);
  }

  /** Such a server is never held to one re-dial per `REDIAL_MAX`: however long it goes on, every
      61 seconds bring seven more, and the next is then due at once. */
  lemma {:induction false} NeverSettles(t: nat, k: nat)
    ensures EagerRun(Connected(t), t, 7 * k) == Connected(t + 61_000 * k)
    ensures Due(Connected(t + 61_000 * k), t + 61_000 * k)
  {
    hide Eager, Backoff;
    if k == 0 {
    } else {
      var u := t + 61_000 * (k - 1);
      NeverSettles(t, k - 1);
      EagerSplit(Connected(t), t, 7 * (k - 1), 7);
      EagerRound(u);
    }
  }

  /** In such a run the session after `n` re-dials is followed by a gap of `REDIAL_MAX` exactly
      when it is the seventh of its round. */
  lemma LongGapExactly(t: nat, n: nat)
    ensures var s := EagerRun(Connected(t), t, n);
            && s.dialed.Some?
            && (Eager(s, s.dialed.value).dialed.value - s.dialed.value >= REDIAL_MAX <==> n % 7 == 6)
  {
    hide Backoff;
    FlapsCycle(t, n);
    EagerSplit(Connected(t), t, n, 0);
    GapExactly(EagerRun(Connected(t), t, n), EagerRun(Connected(t), t, n).dialed.value);
  }

  lemma {:induction false} FlapsCycle(t: nat, n: nat)
    ensures EagerRun(Connected(t), t, n).flaps == n % 7
  {
    hide Backoff, Eager;
    if n == 0 {
    } else {
      FlapsCycle(t, n - 1);
      EagerSplit(Connected(t), t, n - 1, 1);
      var s := EagerRun(Connected(t), t, n - 1);
      assert EagerRun(s, s.dialed.value, 1) == Eager(s, s.dialed.value);
      GapExactly(s, s.dialed.value);
    }
  }

  // --- the schedule as an object ---------------------------------------------

  class Redialer {
    var failures: nat
    var flaps: nat
    var dialed: Option<nat>
    var notBefore: Option<nat>

    ghost function State(): Schedule
      reads this
    {
      Schedule(failures, flaps, dialed, notBefore)
    }

    constructor (now: nat)
      ensures State() == Connected(now)
    {
      failures, flaps, dialed, notBefore := 0, 0, Some(now), None;
    }

    /** One re-dial, its handshake ended at `now` with a session or without. */
    method RedialWithin(connected: bool, now: nat)
      modifies this
      ensures State() == if connected then Redialed(old(State()), now) else Failed(old(State()), now)
    {
      if !connected {
        var wait := Backoff(failures + flaps);
        failures := failures + 1;
        notBefore := Some(now + wait);
        return;
      }
      var shortLived := dialed.Some? && now - dialed.value < REDIAL_MAX;
      flaps := if shortLived then flaps + 1 else 0;
      failures := 0;
      dialed := Some(now);
      notBefore := if flaps > 0 then Some(now + Backoff(flaps - 1)) else None;
    }
  }
}
