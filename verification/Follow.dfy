/**
 Following a task on a connection: polls, a person asked for input, answers sent
 until the server acknowledges them, and the duty to cancel what is given up.

 Whatever the server, the person, the clocks and the caller's `stop` do is an
 arbitrary input, read one by one; what the follower does is written to a log.
 */
module Follow {
  import opened Wrappers
  import opened Tasks

  // --- what may happen -------------------------------------------------------

  datatype Code = InvalidParams | InternalError | OtherCode

  datatype GetReply = GotTask(task: Task) | GetRefused(code: Code) | GetUnsent
  datatype UpdateReply = Acknowledged | UpdateRefused(code: Code) | UpdateUnsent

  /** A person who answers after so many waits; `None` when nobody does. */
  datatype Person = Person(waits: nat, answer: Option<Answer>)

  /** Everything that is not the follower's doing, by the number of the reading. */
  datatype World = World(
    get: nat -> GetReply,
    update: nat -> UpdateReply,
    person: nat -> Person,
    delay: nat -> nat,
    unixMs: nat -> nat)

  // --- what the follower does ------------------------------------------------

  /** What a poll went by: the task as it was known, the keys answered, the number of the reading
      of the wall clock that was looked at, when the wait began, and how long it was. */
  datatype Look = Look(task: Task, answered: set<string>, at: nat, from: nat, waited: nat)

  datatype Event =
    | Asked(key: string, said: Option<Response>)
    | Declined(key: string, form: bool)
    | Got(bound: nat, reply: GetReply, look: Look)
    | Updated(responses: map<string, Response>, answer: UpdateReply)
    | CancelSent

  type Log = seq<Event>

  ghost function AskedKeys(log: Log): set<string> {
    set e | e in log && e.Asked? :: e.key
  }

  ghost function AckedKeys(log: Log): set<string> {
    if log == [] then {}
    else
      var last := log[|log| - 1];
      AckedKeys(log[..|log| - 1]) + (if last.Updated? && last.answer.Acknowledged? then last.responses.Keys else {})
  }

  ghost predicate AskedOnce(log: Log) {
    forall i, j :: 0 <= i < j < |log| && log[i].Asked? && log[j].Asked? ==> log[i].key != log[j].key
  }

  ghost function CancelCount(log: Log): nat {
    if log == [] then 0 else CancelCount(log[..|log| - 1]) + (if log[|log| - 1].CancelSent? then 1 else 0)
  }

  ghost predicate Bounded(log: Log) {
    forall e :: e in log && e.Got? ==> e.bound <= 30_000
  }

  /** The person was asked for no key twice and for none answered before; and every key asked
      for is answered now, unless the follower is about to stop (`dangling`). */
  ghost predicate Courteous(log: Log, before: set<string>, answered: set<string>, dangling: bool) {
    && AskedOnce(log)
    && AskedKeys(log) !! before
    && before <= answered
    && (!dangling ==> AskedKeys(log) <= answered)
  }

  /** What is answered is what was, what the server acknowledged, and what is still unsent. */
  ghost predicate Balanced(log: Log, before: set<string>, answered: set<string>, unsent: set<string>) {
    && answered == before + AckedKeys(log) + unsent
    && unsent !! before + AckedKeys(log)
  }

  /** Every response is what the person said when asked for it, or declines a request nobody
      was asked for. */
  ghost predicate Meant(log: Log, responses: map<string, Response>) {
    forall key :: key in responses ==>
      || Asked(key, Some(responses[key])) in log
      || (responses[key] == DeclineResponse && (Declined(key, true) in log || Declined(key, false) in log))
  }

  /** Nothing else was ever sent. */
  ghost predicate Truthful(log: Log) {
    forall e :: e in log && e.Updated? ==> Meant(log, e.responses)
  }

  /** The server's words that end a follow: it does not know the task, or fails the request. */
  datatype Word = Disowns | Fails

  ghost predicate Says(e: Event, w: Word) {
    match w
    case Disowns =>
      || (e.Got? && e.reply == GetRefused(InvalidParams))
      || (e.Updated? && e.answer == UpdateRefused(InvalidParams))
    case Fails => e.Got? && e.reply == GetRefused(OtherCode)
  }

  ghost predicate Heard(log: Log, w: Word) {
    exists e :: e in log && Says(e, w)
  }

  /** The last thing heard is an update the server refused for a task it does not know. */
  ghost predicate EndsDisowned(log: Log) {
    log != [] && log[|log| - 1].Updated? && log[|log| - 1].answer == UpdateRefused(InvalidParams)
  }

  lemma EndsHeard(log: Log)
    ensures EndsDisowned(log) ==> Heard(log, Disowns)
  {
    if EndsDisowned(log) {
      assert log[|log| - 1] in log;
    }
  }

  lemma LogAppend(log: Log, e: Event)
    ensures AskedKeys(log + [e]) == AskedKeys(log) + (if e.Asked? then {e.key} else {})
    ensures AckedKeys(log + [e]) ==
            AckedKeys(log) + (if e.Updated? && e.answer.Acknowledged? then e.responses.Keys else {})
    ensures CancelCount(log + [e]) == CancelCount(log) + (if e.CancelSent? then 1 else 0)
    ensures AskedOnce(log) && (e.Asked? ==> e.key !in AskedKeys(log)) ==> AskedOnce(log + [e])
    ensures Bounded(log) && (e.Got? ==> e.bound <= REQUEST_BOUND) ==> Bounded(log + [e])
    ensures forall w :: Heard(log + [e], w) <==> Heard(log, w) || Says(e, w)
    ensures forall m :: Meant(log, m) ==> Meant(log + [e], m)
    ensures Truthful(log) && (e.Updated? ==> Meant(log, e.responses)) ==> Truthful(log + [e])
  {
    var log' := log + [e];
    assert log'[..|log'| - 1] == log;
    if AskedOnce(log) && (e.Asked? ==> e.key !in AskedKeys(log)) {
      forall i, j | 0 <= i < j < |log'| && log'[i].Asked? && log'[j].Asked? ensures log'[i].key != log'[j].key {
        if j == |log| {
          assert log[i] in log;
        }
      }
    }
  }

  // --- outcomes --------------------------------------------------------------

  datatype Lost = Unknown | Expired | NotSupported(rpc: string) | FailedRequest

  /** `Unfinished` is a run looked at before its end. */
  datatype Followed = Ended | Open | GaveUp(lost: Lost) | Unfinished

  /** How many `tasks/cancel` a follow owes its end. */
  function CancelsOwed(f: Followed): nat {
    match f
    case GaveUp(Expired) => 1
    case GaveUp(FailedRequest) => 1
    case GaveUp(NotSupported(_)) => 1
    case _ => 0
  }

  /** The pause after `n` failed polls in a row, in milliseconds. */
  function PollBackoff(n: nat): nat
    requires n > 0
  {
    var seconds := Shifted(if n - 1 < 8 then n - 1 else 8);
    1000 * (if seconds < 300 then seconds else 300)
  }

  function Shifted(k: nat): nat {
    if k == 0 then 1 else 2 * Shifted(k - 1)
  }

  /** The pause doubles from one second with each failure and stays at 256 seconds: the bound
      of 300 seconds beside it is never reached. */
  lemma PollBackoffShape(n: nat)
    requires n > 0
    ensures 1000 <= PollBackoff(n) <= PollBackoff(n + 1) <= 256_000
    ensures PollBackoff(n + 1) == if n < 9 then 2 * PollBackoff(n) else 256_000
  {
    assert Shifted(8) == 256 by {
      assert Shifted(4) == 16;
    }
    ShiftedGrows(if n - 1 < 8 then n - 1 else 8, 8);
  }

  lemma {:induction false} ShiftedGrows(j: nat, k: nat)
    requires j <= k
    ensures 1 <= Shifted(j) <= Shifted(k)
    decreases k - j
  {
    if j < k {
      ShiftedGrows(j, k - 1);
    } else {
      ShiftedPositive(j);
    }
  }

  lemma {:induction false} ShiftedPositive(j: nat)
    ensures Shifted(j) >= 1
  {
    if j == 0 {
    } else {
      ShiftedPositive(j - 1);
    }
  }

  // --- the log and the tracker together --------------------------------------

  /** What holds of the log and the tracker's books throughout a follow. */
  ghost predicate Kept(log: Log, before: set<string>, clean: bool, answered: set<string>,
                       unsent: map<string, Response>, dangling: bool) {
    && Courteous(log, before, answered, dangling)
    && Bounded(log)
    && (clean ==> Balanced(log, before, answered, unsent.Keys) && Truthful(log) && Meant(log, unsent))
  }

  lemma KeptStart(before: set<string>, clean: bool, unsent: map<string, Response>)
    requires clean ==> unsent == map[]
    ensures Kept([], before, clean, before, unsent, false)
  {
  }

  lemma KeptQuiet(log: Log, e: Event, before: set<string>, clean: bool, answered: set<string>,
                  unsent: map<string, Response>, dangling: bool)
    requires Kept(log, before, clean, answered, unsent, dangling)
    requires || e.CancelSent?
             || (e.Got? && e.bound <= REQUEST_BOUND)
             || (e.Updated? && e.responses == unsent && !e.answer.Acknowledged?)
    ensures Kept(log + [e], before, clean, answered, unsent, dangling)
  {
    LogAppend(log, e);
  }

  /** The server took every unsent answer. */
  lemma KeptAcknowledged(log: Log, before: set<string>, clean: bool, answered: set<string>,
                         unsent: map<string, Response>, dangling: bool)
    requires Kept(log, before, clean, answered, unsent, dangling)
    ensures Kept(log + [Updated(unsent, Acknowledged)], before, clean, answered, map[], dangling)
  {
    LogAppend(log, Updated(unsent, Acknowledged));
  }

  lemma CourteousAsk(log: Log, e: Event, before: set<string>, answered: set<string>)
    requires Courteous(log, before, answered, false) && e.Asked? && e.key !in answered
    ensures Courteous(log + [e], before, answered, true)
    ensures Courteous(log + [e], before, answered + {e.key}, false)
  {
    hide AskedOnce, AskedKeys, AckedKeys, Bounded, Meant, Truthful;
    LogAppend(log, e);
  }

  lemma CourteousDecline(log: Log, e: Event, before: set<string>, answered: set<string>)
    requires Courteous(log, before, answered, false) && e.Declined?
    ensures Courteous(log + [e], before, answered + {e.key}, false)
  {
    hide AskedOnce, AskedKeys, AckedKeys, Bounded, Meant, Truthful;
    LogAppend(log, e);
  }

  /** An answer that is not sent yet keeps the balance. */
  lemma BalancedAnswer(log: Log, e: Event, before: set<string>, answered: set<string>, unsent: map<string, Response>,
                       r: Response)
    requires Balanced(log, before, answered, unsent.Keys) && (e.Asked? || e.Declined?) && e.key !in answered
    ensures Balanced(log + [e], before, answered, unsent.Keys)
    ensures Balanced(log + [e], before, answered + {e.key}, unsent[e.key := r].Keys)
  {
    AckedStill(log, e);
    OneMore(before + AckedKeys(log), answered, unsent.Keys, e.key);
    hide AckedKeys;
    assert unsent[e.key := r].Keys == unsent.Keys + {e.key};
  }

  lemma AckedStill(log: Log, e: Event)
    requires !e.Updated?
    ensures AckedKeys(log + [e]) == AckedKeys(log)
  {
    assert (log + [e])[..|log|] == log;
  }

  lemma OneMore(settled: set<string>, answered: set<string>, unsent: set<string>, key: string)
    requires answered == settled + unsent && unsent !! settled && key !in answered
    ensures answered + {key} == settled + (unsent + {key}) && unsent + {key} !! settled
  {
  }

  lemma TruthfulStill(log: Log, e: Event, unsent: map<string, Response>)
    requires Truthful(log) && Meant(log, unsent) && !e.Updated?
    ensures Truthful(log + [e]) && Meant(log + [e], unsent)
  {
    hide AskedOnce, AskedKeys, AckedKeys, Bounded, Meant, Truthful;
    LogAppend(log, e);
  }

  lemma BoundedStill(log: Log, e: Event)
    requires Bounded(log) && !e.Got?
    ensures Bounded(log + [e])
  {
  }

  /** The person was asked, and left to it. */
  lemma KeptLeft(log: Log, key: string, before: set<string>, clean: bool, answered: set<string>,
                 unsent: map<string, Response>)
    requires Kept(log, before, clean, answered, unsent, false) && key !in answered
    ensures Kept(log + [Asked(key, None)], before, clean, answered, unsent, true)
  {
    hide Meant, Truthful, Bounded, Courteous, Balanced;
    var e := Asked(key, None);
    CourteousAsk(log, e, before, answered);
    BoundedStill(log, e);
    if clean {
      BalancedAnswer(log, e, before, answered, unsent, DeclineResponse);
      TruthfulStill(log, e, unsent);
    }
  }

  lemma KeptAsked(log: Log, key: string, r: Response, before: set<string>, clean: bool, answered: set<string>,
                  unsent: map<string, Response>)
    requires Kept(log, before, clean, answered, unsent, false) && key !in answered
    ensures Kept(log + [Asked(key, Some(r))], before, clean, answered + {key}, unsent[key := r], false)
  {
    hide Meant, Truthful, Bounded, Courteous, Balanced;
    var e := Asked(key, Some(r));
    CourteousAsk(log, e, before, answered);
    BoundedStill(log, e);
    if clean {
      BalancedAnswer(log, e, before, answered, unsent, r);
      TruthfulStill(log, e, unsent);
      MeantAlso(log, e, unsent, key, r);
    }
  }

  lemma KeptDeclined(log: Log, key: string, form: bool, before: set<string>, clean: bool, answered: set<string>,
                     unsent: map<string, Response>)
    requires Kept(log, before, clean, answered, unsent, false) && key !in answered
    ensures Kept(log + [Declined(key, form)], before, clean, answered + {key}, unsent[key := DeclineResponse], false)
  {
    hide Meant, Truthful, Bounded, Courteous, Balanced;
    var e := Declined(key, form);
    CourteousDecline(log, e, before, answered);
    BoundedStill(log, e);
    if clean {
      BalancedAnswer(log, e, before, answered, unsent, DeclineResponse);
      TruthfulStill(log, e, unsent);
      MeantAlso(log, e, unsent, key, DeclineResponse);
    }
  }

  lemma MeantAlso(log: Log, e: Event, unsent: map<string, Response>, key: string, r: Response)
    requires || e == Asked(key, Some(r))
             || (r == DeclineResponse && (e == Declined(key, true) || e == Declined(key, false)))
    ensures Meant(log, unsent) ==> Meant(log + [e], unsent[key := r])
  {
  }

  lemma KeptDangling(log: Log, before: set<string>, clean: bool, answered: set<string>, unsent: map<string, Response>)
    requires Kept(log, before, clean, answered, unsent, false)
    ensures Kept(log, before, clean, answered, unsent, true)
  {
  }

  lemma KeptMeans(log: Log, before: set<string>, clean: bool, answered: set<string>, unsent: map<string, Response>)
    requires Kept(log, before, clean, answered, unsent, true)
    ensures AskedOnce(log) && AskedKeys(log) !! before && Bounded(log)
    ensures clean ==> Truthful(log) && answered - unsent.Keys == before + AckedKeys(log)
  {
    hide AskedOnce, Bounded, Truthful, Meant, AskedKeys, AckedKeys;
  }

  // --- what is known of the task, and what was done with it ------------------

  /** The last word of the log on the task, or the seed. */
  ghost function LatestTask(seed: Task, log: Log): Task {
    if log == [] then seed
    else
      var e := log[|log| - 1];
      if e.Got? && e.reply.GotTask? && e.reply.task.id == seed.id then e.reply.task
      else LatestTask(seed, log[..|log| - 1])
  }

  /** How many polls in a row, up to the end of the log, got no answer. */
  ghost function Failures(log: Log): nat {
    if log == [] then 0
    else
      var e := log[|log| - 1];
      if !e.Got? then Failures(log[..|log| - 1])
      else if e.reply == GetUnsent || e.reply == GetRefused(InternalError) then 1 + Failures(log[..|log| - 1])
      else 0
  }

  /** How long is waited for the next poll. */
  function WaitAfter(task: Task, failures: nat): nat {
    if failures > 0 then PollBackoff(failures) else if Lacks(task) then 250 else PollInterval(task)
  }

  /** Every request of the task is answered. */
  predicate Heeded(task: Task, answered: set<string>) {
    task.status == InputRequired && task.requests.Some? ==> forall e :: e in task.requests.value ==> e.key in answered
  }

  /** A poll that goes out in order: of the task as last heard of, not over and not past its
      time, none of its requests unanswered, after the wait that is due, by a news reading of
      the clock. */
  ghost predicate InOrderAt(world: World, log: Log, seed: Task, firstSeen: nat, i: nat)
    requires i < |log| && log[i].Got?
  {
    var look := log[i].look;
    && look.task == LatestTask(seed, log[..i])
    && !Over(look.task) && !Late(look.task, firstSeen, world.unixMs(look.at))
    && Heeded(look.task, look.answered)
    && look.waited == WaitAfter(look.task, Failures(log[..i]))
    && forall j :: 0 <= j < i && log[j].Got? ==> log[j].look.at < look.at
  }

  ghost predicate Patient(world: World, log: Log, seed: Task, firstSeen: nat) {
    forall i :: 0 <= i < |log| && log[i].Got? ==> InOrderAt(world, log, seed, firstSeen, i)
  }

  /** How long a request made at `now` may take. */
  function TimeFor(until: Option<nat>, now: nat): nat {
    if until.None? || now + 30_000 <= until.value then 30_000
    else if now < until.value then until.value - now else 0
  }

  /** A poll that goes out in time: before the deadline, with all the time that is left for it but
      no more than a request may take, its wait begun when that of the poll before was over. */
  ghost predicate InTimeAt(log: Log, until: Option<nat>, i: nat)
    requires i < |log| && log[i].Got?
  {
    var look := log[i].look;
    && log[i].bound == TimeFor(until, look.from + look.waited)
    && (until.Some? ==> look.from + look.waited < until.value)
    && forall j :: 0 <= j < i && log[j].Got? ==> log[j].look.from + log[j].look.waited <= look.from
  }

  /** So do all polls, the last before `now`. */
  ghost predicate Timely(log: Log, until: Option<nat>, now: nat) {
    forall i :: 0 <= i < |log| && log[i].Got? ==>
      InTimeAt(log, until, i) && log[i].look.from + log[i].look.waited <= now
  }

  lemma TimelyStarts(until: Option<nat>, now: nat)
    ensures Timely([], until, now)
  {
  }

  lemma TimelyQuiet(log: Log, log': Log, handler: bool, until: Option<nat>, now: nat, now': nat)
    requires Timely(log, until, now) && Quietly(log, log', handler) && now <= now'
    ensures Timely(log', until, now')
  {
    hide FairEvent;
    forall i | 0 <= i < |log'| && log'[i].Got?
      ensures InTimeAt(log', until, i) && log'[i].look.from + log'[i].look.waited <= now'
    {
      assert log'[i] == log[i] && InTimeAt(log, until, i);
    }
  }

  lemma TimelyLater(log: Log, until: Option<nat>, now: nat, now': nat)
    requires Timely(log, until, now) && now <= now'
    ensures Timely(log, until, now')
  {
  }

  lemma WithinBound(until: Option<nat>, now: nat)
    ensures TimeFor(until, now) <= REQUEST_BOUND
  {
  }

  lemma TimelyPoll(log: Log, e: Event, until: Option<nat>, now: nat, now': nat)
    requires Timely(log, until, now) && e.Got? && now <= e.look.from
    requires e.look.from + e.look.waited <= now' && e.bound == TimeFor(until, e.look.from + e.look.waited)
    requires until.Some? ==> e.look.from + e.look.waited < until.value
    ensures Timely(log + [e], until, now')
  {
    var log' := log + [e];
    forall i | 0 <= i < |log'| && log'[i].Got?
      ensures InTimeAt(log', until, i) && log'[i].look.from + log'[i].look.waited <= now'
    {
      if i < |log| {
        assert log'[i] == log[i] && InTimeAt(log, until, i);
      }
    }
  }

  /** Nobody is asked without a handler, and with one no form is declined unasked. */
  ghost predicate Fair(log: Log, handler: bool) {
    forall i :: 0 <= i < |log| ==> FairEvent(log[i], handler)
  }

  predicate FairEvent(e: Event, handler: bool) {
    (e.Asked? ==> handler) && (e.Declined? ==> !e.form || !handler)
  }

  /** The reading is later than those every poll of the log went by. */
  ghost predicate LaterThan(log: Log, at: nat) {
    forall i :: 0 <= i < |log| && log[i].Got? ==> log[i].look.at < at
  }

  /** The log grows by anything but polls, fairly. */
  ghost predicate Quietly(log: Log, log': Log, handler: bool) {
    && log <= log'
    && forall i :: |log| <= i < |log'| ==> !log'[i].Got? && FairEvent(log'[i], handler)
  }

  lemma QuietlyThen(a: Log, b: Log, c: Log, handler: bool)
    requires Quietly(a, b, handler) && Quietly(b, c, handler)
    ensures Quietly(a, c, handler)
  {
    hide FairEvent;
  }

  lemma {:induction false} QuietStory(world: World, log: Log, log': Log, handler: bool, seed: Task, firstSeen: nat)
    requires Quietly(log, log', handler)
    ensures LatestTask(seed, log') == LatestTask(seed, log) && Failures(log') == Failures(log)
    ensures Patient(world, log, seed, firstSeen) ==> Patient(world, log', seed, firstSeen)
    ensures Fair(log, handler) ==> Fair(log', handler)
    ensures forall at :: LaterThan(log, at) ==> LaterThan(log', at)
    decreases |log'| - |log|
  {
    hide FairEvent;
    if |log'| == |log| {
      assert log' == log;
    } else {
      var init := log'[..|log'| - 1];
      assert log <= init && log' == init + [log'[|log'| - 1]];
      QuietStory(world, log, init, handler, seed, firstSeen);
      OneQuiet(world, init, log'[|log'| - 1], seed, firstSeen);
    }
  }

  lemma OneQuiet(world: World, log: Log, e: Event, seed: Task, firstSeen: nat)
    requires !e.Got?
    ensures LatestTask(seed, log + [e]) == LatestTask(seed, log) && Failures(log + [e]) == Failures(log)
    ensures Patient(world, log, seed, firstSeen) ==> Patient(world, log + [e], seed, firstSeen)
    ensures forall at :: LaterThan(log, at) ==> LaterThan(log + [e], at)
  {
    assert (log + [e])[..|log|] == log;
    if Patient(world, log, seed, firstSeen) {
      forall i | 0 <= i < |log| && log[i].Got? ensures InOrderAt(world, log + [e], seed, firstSeen, i) {
        OrderStays(world, log, e, seed, firstSeen, i);
      }
    }
  }

  lemma OrderStays(world: World, log: Log, e: Event, seed: Task, firstSeen: nat, i: nat)
    requires i < |log| && log[i].Got? && InOrderAt(world, log, seed, firstSeen, i)
    ensures InOrderAt(world, log + [e], seed, firstSeen, i)
  {
    hide Over, Late, Heeded, WaitAfter;
    assert (log + [e])[..i] == log[..i] && (log + [e])[i] == log[i];
  }

  lemma OnePoll(world: World, log: Log, e: Event, seed: Task, firstSeen: nat)
    requires e.Got? && Patient(world, log, seed, firstSeen)
    requires e.look.task == LatestTask(seed, log) && LaterThan(log, e.look.at)
    requires !Over(e.look.task) && !Late(e.look.task, firstSeen, world.unixMs(e.look.at))
    requires Heeded(e.look.task, e.look.answered) && e.look.waited == WaitAfter(e.look.task, Failures(log))
    ensures Patient(world, log + [e], seed, firstSeen)
    ensures LatestTask(seed, log + [e]) ==
            if e.reply.GotTask? && e.reply.task.id == seed.id then e.reply.task else LatestTask(seed, log)
    ensures Failures(log + [e]) ==
            if e.reply == GetUnsent || e.reply == GetRefused(InternalError) then 1 + Failures(log) else 0
    ensures LaterThan(log + [e], e.look.at + 1)
  {
    hide Over, Late, Heeded, WaitAfter;
    assert (log + [e])[..|log|] == log && (log + [e])[|log|] == e;
    forall i | 0 <= i < |log + [e]| && (log + [e])[i].Got? ensures InOrderAt(world, log + [e], seed, firstSeen, i) {
      if i < |log| {
        assert log[i].Got?;
        OrderStays(world, log, e, seed, firstSeen, i);
      }
    }
  }

  lemma FairMore(log: Log, e: Event, handler: bool)
    requires Fair(log, handler) && FairEvent(e, handler)
    ensures Fair(log + [e], handler)
  {
  }

  lemma LaterStill(log: Log, at: nat, at': nat)
    requires LaterThan(log, at) && at <= at'
    ensures LaterThan(log, at')
  {
  }

  /** A task that was heard to be over is the last word on it, since no poll follows. */
  lemma OverIsLast(world: World, log: Log, seed: Task, firstSeen: nat, i: nat)
    requires Patient(world, log, seed, firstSeen) && i < |log|
    requires log[i].Got? && log[i].reply.GotTask? && log[i].reply.task.id == seed.id && Over(log[i].reply.task)
    ensures LatestTask(seed, log) == log[i].reply.task
  {
    hide Over, Late, Heeded, WaitAfter;
    NoPollAfter(world, log, seed, firstSeen, i, |log|);
    assert log[..|log|] == log;
  }

  lemma PolledPending(world: World, log: Log, seed: Task, firstSeen: nat, i: nat)
    requires Patient(world, log, seed, firstSeen) && i < |log| && log[i].Got?
    ensures !Over(LatestTask(seed, log[..i]))
  {
    hide Over, Late, Heeded, WaitAfter, Failures, LatestTask;
    assert InOrderAt(world, log, seed, firstSeen, i);
  }

  lemma {:induction false} NoPollAfter(world: World, log: Log, seed: Task, firstSeen: nat, i: nat, n: nat)
    requires Patient(world, log, seed, firstSeen) && i < n <= |log|
    requires log[i].Got? && log[i].reply.GotTask? && log[i].reply.task.id == seed.id && Over(log[i].reply.task)
    ensures LatestTask(seed, log[..n]) == log[i].reply.task
    decreases n
  {
    hide Over, Late, Heeded, WaitAfter, Failures;
    var init := log[..n - 1];
    assert log[..n][..n - 1] == init && log[..n][n - 1] == log[n - 1];
    if i == n - 1 {
    } else {
      NoPollAfter(world, log, seed, firstSeen, i, n - 1);
      if log[n - 1].Got? {
        PolledPending(world, log, seed, firstSeen, n - 1);
      }
    }
  }

  /** The task asks for something by a request the client never declared. */
  ghost predicate Undeclared(task: Task, rpc: string) {
    && task.status == InputRequired && task.requests.Some? && rpc != "elicitation/create"
    && exists j :: 0 <= j < |task.requests.value| && task.requests.value[j].request.rpc == rpc
  }

  /** Every unanswered request of the task is asked for, and nothing else is. */
  ghost predicate AsksOf(task: Task, answered: set<string>, asks: seq<Ask>) {
    && (task.status == InputRequired && task.requests.Some? ==>
          forall e :: e in task.requests.value ==>
            e.key in answered || exists i :: 0 <= i < |asks| && asks[i].key == e.key)
    && forall i :: 0 <= i < |asks| ==>
         task.status == InputRequired && task.requests.Some? && StemsFrom(task.requests.value, asks[i])
  }

  lemma AsksMean(task: Task, answered: set<string>, asks: seq<Ask>, news: bool)
    requires if news && task.status == InputRequired && task.requests.Some?
             then InOrder(task.requests.value, answered, asks) else asks == []
    requires !news ==> Heeded(task, answered)
    ensures AsksOf(task, answered, asks)
  {
    hide InOrder, StemsFrom;
    if news && task.status == InputRequired && task.requests.Some? {
      AllAsked(task.requests.value, answered, asks);
      AskedOf(task.requests.value, answered, asks);
    }
  }

  lemma HeededNow(task: Task, answered: set<string>, answered': set<string>, asks: seq<Ask>)
    requires AsksOf(task, answered, asks) && answered <= answered'
    requires forall i :: 0 <= i < |asks| ==> asks[i].key in answered'
    ensures Heeded(task, answered')
  {
    hide StemsFrom;
  }

  lemma UnsupportedAsk(task: Task, answered: set<string>, asks: seq<Ask>, lost: Lost)
    requires AsksOf(task, answered, asks)
    requires lost.NotSupported? ==> exists i :: 0 <= i < |asks| && asks[i] == Unsupported(asks[i].key, lost.rpc)
    ensures lost.NotSupported? ==> Undeclared(task, lost.rpc) && !Over(task)
  {
    if lost.NotSupported? {
      var i :| 0 <= i < |asks| && asks[i] == Unsupported(asks[i].key, lost.rpc);
      assert StemsFrom(task.requests.value, asks[i]);
    }
  }

  lemma NoAsks()
    ensures DistinctKeys([])
  {
  }

  lemma OverAsksNothing(task: Task)
    ensures Over(task) ==> task.status != InputRequired
  {
  }

  lemma StoryStarts(world: World, seed: Task, firstSeen: nat, handler: bool, tick: nat)
    ensures Patient(world, [], seed, firstSeen) && Fair([], handler) && LaterThan([], tick)
    ensures LatestTask(seed, []) == seed && Failures([]) == 0
  {
  }

  // --- the connection --------------------------------------------------------

  const STOP_CHECK: nat := 100

  class Client {
    const world: World
    const handler: bool
    /** How many readings of the world were made, and the monotonic clock. */
    var tick: nat
    var clock: nat
    ghost var log: Log
    /** The clock when the follower, done with the requests, last came to its wait. */
    ghost var ready: nat

    constructor (world: World, handler: bool)
      ensures this.world == world && this.handler == handler && log == []
    {
      this.world, this.handler := world, handler;
      tick, clock, log, ready := 0, 0, [], 0;
    }

    /** The caller's `stop` says so from the reading numbered `stop` on, and stays so. */
    ghost predicate Halted(until: Option<nat>, stop: Option<nat>)
      reads this
    {
      (stop.Some? && tick >= stop.value) || (until.Some? && clock >= until.value)
    }

    /** `stop` said so, or the deadline comes before a wait that begins at `from` is over. */
    ghost predicate NoTimeLeft(from: nat, wait: nat, until: Option<nat>, stop: Option<nat>)
      reads this
    {
      (stop.Some? && tick >= stop.value) || (until.Some? && from + wait >= until.value)
    }

    /** No time goes by but what is waited for. */
    ghost predicate Prompt() {
      forall k :: world.delay(k) == 0
    }

    method ReadStop(stop: Option<nat>) returns (stopped: bool)
      modifies this`tick
      ensures tick == old(tick) + 1
      ensures stopped <==> stop.Some? && old(tick) >= stop.value
    {
      stopped := stop.Some? && tick >= stop.value;
      tick := tick + 1;
    }

    /** The clock as it is read: some time may have passed. */
    method Now() returns (now: nat)
      modifies this`tick, this`clock
      ensures tick == old(tick) + 1 && now == clock == old(clock) + world.delay(old(tick))
    {
      clock := clock + world.delay(tick);
      tick := tick + 1;
      now := clock;
    }

    /** Let `d` go by, looking at `stop` in between; false when `stop` ended it. */
    method Pause(d: nat, stop: Option<nat>) returns (slept: bool)
      modifies this`tick, this`clock
      ensures tick > old(tick) && clock >= old(clock)
      ensures stop.Some? && old(tick) >= stop.value ==> !slept
      ensures !slept ==> stop.Some? && tick >= stop.value
      ensures slept ==> clock >= old(clock) + d
      ensures Prompt() && slept ==> clock == old(clock) + d
    {
      var now := Now();
      var end := now + d;
      while true
        invariant tick > old(tick) && clock >= now >= old(clock) && end == now + d
        invariant Prompt() ==> now == old(clock) && clock <= end
        decreases if clock < end then end - clock else 0
      {
        var stopped := ReadStop(stop);
        if stopped {
          return false;
        }
        var t := Now();
        if t >= end {
          return true;
        }
        var left := end - t;
        clock := clock + if left < STOP_CHECK then left else STOP_CHECK;
      }
    }

    /** Wait for the person; `None` when the deadline or `stop` came before their answer. */
    method WaitFor(p: Person, until: Option<nat>, stop: Option<nat>) returns (heard: Option<Option<Answer>>)
      modifies this`tick, this`clock
      ensures tick >= old(tick) && clock >= old(clock)
      ensures heard.None? ==> Halted(until, stop)
      ensures heard.Some? ==> heard.value == p.answer && clock >= old(clock) + p.waits * 100
      ensures heard.Some? && until.Some? ==> clock < until.value
      ensures Prompt() && until.Some? && old(clock) <= until.value ==> clock <= until.value
      ensures Prompt() && heard.Some? ==> clock == old(clock) + p.waits * 100
      ensures stop.Some? && old(tick) >= stop.value ==> heard.None?
    {
      for k := 0 to p.waits + 1
        invariant tick >= old(tick) && clock >= old(clock)
        invariant clock >= old(clock) + k * STOP_CHECK || (until.Some? && clock >= until.value)
        invariant Prompt() ==> clock == old(clock) + k * STOP_CHECK || (until.Some? && clock >= until.value)
        invariant Prompt() && until.Some? && old(clock) <= until.value ==> clock <= until.value
        invariant k <= p.waits
      {
        var stopped := ReadStop(stop);
        if stopped {
          return None;
        }
        var slice := STOP_CHECK;
        if until.Some? {
          var t := Now();
          if t >= until.value {
            return None;
          }
          slice := if until.value - t < STOP_CHECK then until.value - t else STOP_CHECK;
        }
        if k == p.waits {
          return Some(p.answer);
        }
        clock := clock + slice;
      }
      assert false;
    }

    method GetTask(bound: nat, ghost look: Look) returns (reply: GetReply)
      modifies this
      ensures log == old(log) + [Got(bound, reply, look)] && reply == world.get(old(tick))
      ensures tick > old(tick) && clock >= old(clock)
    {
      reply := world.get(tick);
      log := log + [Got(bound, reply, look)];
      var _ := Now();
    }

    method UpdateTask(responses: map<string, Response>) returns (reply: UpdateReply)
      modifies this
      ensures log == old(log) + [Updated(responses, reply)] && reply == world.update(old(tick))
      ensures tick >= old(tick) && clock >= old(clock) && ready == old(ready)
    {
      reply := world.update(tick);
      log := log + [Updated(responses, reply)];
      var _ := Now();
    }

    method CancelTask()
      modifies this
      ensures log == old(log) + [CancelSent] && tick >= old(tick) && clock >= old(clock) && ready == old(ready)
    {
      log := log + [CancelSent];
      var _ := Now();
    }

    /** One request with all the answers on their way. They stay there unless the server confirms
        them. */
    method SendAnswers(t: Tracker, ghost before: set<string>, ghost clean: bool, ghost dangling: bool)
      returns (lost: Option<Lost>, ghost answer: UpdateReply)
      requires Kept(log, before, clean, t.answered, t.unsent, dangling)
      modifies this, t`unsent
      ensures Kept(log, before, clean, t.answered, t.unsent, dangling)
      ensures lost.None? || lost == Some(Unknown)
      ensures lost.Some? <==> old(t.unsent) != map[] && answer == UpdateRefused(InvalidParams)
      ensures if old(t.unsent) == map[] then log == old(log) && lost.None?
              else log == old(log) + [Updated(old(t.unsent), answer)]
      ensures Heard(log, Disowns) <==> Heard(old(log), Disowns) || lost.Some?
      ensures Heard(log, Fails) <==> Heard(old(log), Fails)
      ensures t.unsent == map[] || t.unsent == old(t.unsent)
      ensures Quietly(old(log), log, handler)
      ensures CancelCount(log) == CancelCount(old(log)) && tick >= old(tick) && clock >= old(clock)
      ensures ready == old(ready) && (old(t.unsent) == map[] ==> clock == old(clock))
    {
      hide Kept, CancelCount, Heard;
      if t.unsent == map[] {
        return None, Acknowledged;
      }
      ghost var log0, unsent := log, t.unsent;
      var reply := UpdateTask(t.unsent);
      Appended(log0, Updated(unsent, reply));
      match reply {
        case Acknowledged =>
          KeptAcknowledged(log0, before, clean, t.answered, unsent, dangling);
          t.unsent := map[];
          return None, reply;
        case UpdateRefused(code) =>
          KeptQuiet(log0, Updated(unsent, reply), before, clean, t.answered, unsent, dangling);
          return if code == InvalidParams then Some(Unknown) else None, reply;
        case UpdateUnsent =>
          KeptQuiet(log0, Updated(unsent, reply), before, clean, t.answered, unsent, dangling);
          return None, reply;
      }
    }

    /** What to answer one request with: what the person says, or a decline when there is
        nobody to ask or the request is not a form; `None` when the person was left to it. */
    method Answer(ask: Ask, until: Option<nat>, stop: Option<nat>) returns (response: Option<Response>)
      requires !ask.Unsupported?
      modifies this
      ensures if ask.Decline? || !handler
              then log == old(log) + [Declined(ask.key, ask.Elicit?)] && response == Some(DeclineResponse)
              else log == old(log) + [Asked(ask.key, response)]
      ensures response.None? ==> Halted(until, stop)
      ensures ask.Elicit? && handler && response.Some? ==>
              response.value == ElicitResult(world.person(old(tick)).answer)
      ensures tick >= old(tick) && clock >= old(clock)
    {
      if ask.Decline? || !handler {
        log := log + [Declined(ask.key, ask.Elicit?)];
        return Some(DeclineResponse);
      }
      var heard := WaitFor(world.person(tick), until, stop);
      response := if heard.Some? then Some(ElicitResult(heard.value)) else None;
      log := log + [Asked(ask.key, response)];
    }

    /** Take the requests one by one, then send what was answered. A person the deadline or
        `stop` leaves no time to answer is left to it: that key is `dangling`, and the requests
        behind it wait. */
    method AnswerAsks(t: Tracker, asks: seq<Ask>, until: Option<nat>, stop: Option<nat>, ghost before: set<string>,
                      ghost clean: bool)
      returns (lost: Option<Lost>, ghost dangling: bool)
      requires Kept(log, before, clean, t.answered, t.unsent, false) && CancelCount(log) == 0
      requires !Heard(log, Disowns) && !Heard(log, Fails)
      requires DistinctKeys(asks) && forall ask :: ask in asks ==> ask.key !in t.answered
      modifies this, t`answered, t`unsent
      ensures Kept(log, before, clean, t.answered, t.unsent, dangling)
      ensures dangling && lost.None? ==> Halted(until, stop)
      ensures lost.Some? ==> lost.value == Unknown || lost.value.NotSupported?
      ensures (lost == Some(Unknown) <==> Heard(log, Disowns)) && !Heard(log, Fails)
      ensures CancelCount(log) == if lost.Some? && lost.value.NotSupported? then 1 else 0
      ensures Quietly(old(log), log, handler) && old(t.answered) <= t.answered
      ensures !dangling && lost.None? ==> forall i :: 0 <= i < |asks| ==> asks[i].key in t.answered
      ensures lost.Some? && lost.value.NotSupported? ==>
                exists i :: 0 <= i < |asks| && asks[i] == Unsupported(asks[i].key, lost.value.rpc)
      ensures tick >= old(tick) && clock >= old(clock)
      ensures asks == [] && old(t.unsent) == map[] ==> clock == old(clock)
    {
      hide Kept, CancelCount, Heard;
      dangling := false;
      for i := 0 to |asks|
        invariant Quietly(old(log), log, handler) && old(t.answered) <= t.answered
        invariant forall j :: 0 <= j < i ==> asks[j].key in t.answered
        invariant Kept(log, before, clean, t.answered, t.unsent, false) && CancelCount(log) == 0
        invariant !Heard(log, Disowns) && !Heard(log, Fails)
        invariant forall j :: i <= j < |asks| ==> asks[j].key !in t.answered
        invariant tick >= old(tick) && clock >= old(clock)
        invariant i == 0 ==> clock == old(clock) && t.unsent == old(t.unsent)
      {
        var ask := asks[i];
        ghost var log0, answered, unsent := log, t.answered, t.unsent;
        if ask.Unsupported? {
          CancelTask();
          Appended(log0, CancelSent);
          KeptQuiet(log0, CancelSent, before, clean, answered, unsent, false);
          QuietlyThen(old(log), log0, log, handler);
          return Some(NotSupported(ask.rpc)), false;
        }
        var response := Answer(ask, until, stop);
        Appended(log0, log[|log0|]);
        QuietlyThen(old(log), log0, log, handler);
        if response.None? {
          KeptLeft(log0, ask.key, before, clean, answered, unsent);
          dangling := true;
          break;
        }
        KeptAsked(log0, ask.key, response.value, before, clean, answered, unsent);
        KeptDeclined(log0, ask.key, ask.Elicit?, before, clean, answered, unsent);
        t.GiveAnswer(ask.key, response.value);
      }
      ghost var log1 := log;
      var sent, _ := SendAnswers(t, before, clean, dangling);
      QuietlyThen(old(log), log1, log, handler);
      lost := sent;
    }

    function NextWait(t: Tracker, failures: nat): (wait: nat)
      reads t
      ensures wait >= POLL_FLOOR && wait == WaitAfter(t.task, failures)
    {
      if failures == 0 then t.Interval()
      else
        PollBackoffShape(failures);
        PollBackoff(failures)
    }

    /** Wait for the next poll, and how long it may then take; `None` when the deadline or `stop`
        leaves no time for one. */
    method NextBound(t: Tracker, failures: nat, until: Option<nat>, stop: Option<nat>)
      returns (bound: Option<nat>, ghost from: nat)
      modifies this`tick, this`clock
      ensures from == old(clock) + if until.Some? then world.delay(old(tick)) else 0
      ensures old(Halted(until, stop)) ==> bound.None?
      ensures bound.None? ==> Halted(until, stop) && NoTimeLeft(from, NextWait(t, failures), until, stop)
      ensures bound.Some? ==> bound.value == TimeFor(until, from + NextWait(t, failures))
      ensures bound.Some? ==> clock >= from + NextWait(t, failures)
      ensures bound.Some? && until.Some? ==> from + NextWait(t, failures) < until.value
      ensures bound.Some? && Prompt() ==> clock == old(clock) + NextWait(t, failures)
      ensures tick > old(tick) && clock >= old(clock)
    {
      var wait := NextWait(t, failures);
      var most := REQUEST_BOUND;
      from := clock;
      if until.Some? {
        var now := Now();
        from := now;
        var left := if now < until.value then until.value - now else 0;
        if left <= wait {
          var _ := Pause(left, stop);
          return None, from;
        }
        most := left - wait;
      }
      var slept := Pause(wait, stop);
      if !slept {
        return None, from;
      }
      bound := Some(if most < REQUEST_BOUND then most else REQUEST_BOUND);
    }

    /** Whether the task is over, past its time, or to be polled again, and when. */
    method Decide(t: Tracker, failures: nat, until: Option<nat>, stop: Option<nat>)
      returns (bound: Option<nat>, r: Followed, ghost at: nat, ghost from: nat)
      modifies this`tick, this`clock
      ensures at == old(tick) <= tick && clock >= old(clock)
      ensures from == old(clock) + if until.Some? then world.delay(at) else 0
      ensures old(Halted(until, stop)) ==> bound.None?
      ensures bound.None? ==>
                if t.Ended() then r == Ended
                else if t.Expired(world.unixMs(at)) then r == GaveUp(Expired)
                else r == Open && Halted(until, stop) && NoTimeLeft(from, NextWait(t, failures), until, stop)
      ensures bound.Some? ==>
                && !t.Ended() && !t.Expired(world.unixMs(at)) && at < tick
                && bound.value == TimeFor(until, from + NextWait(t, failures))
                && clock >= from + NextWait(t, failures)
                && (until.Some? ==> from + NextWait(t, failures) < until.value)
    {
      hide Over, Late, WaitAfter, TimeFor;
      at, from := tick, clock + if until.Some? then world.delay(tick) else 0;
      if t.Ended() {
        return None, Followed.Ended, at, from;
      }
      if t.Expired(world.unixMs(tick)) {
        return None, GaveUp(Lost.Expired), at, from;
      }
      bound, from := NextBound(t, failures, until, stop);
      r := Open;
    }

    /** One `tasks/get`, and what the server's answer means for the follow. */
    method AskServer(t: Tracker, bound: nat, ghost at: nat, ghost from: nat, ghost failures: nat, ghost seed: Task,
                     ghost before: set<string>, ghost clean: bool)
      returns (reply: GetReply)
      requires Kept(log, before, clean, t.answered, t.unsent, false) && bound <= REQUEST_BOUND
      requires Patient(world, log, seed, t.firstSeen) && Fair(log, handler)
      requires t.task == LatestTask(seed, log) && failures == Failures(log)
      requires LaterThan(log, at) && at < tick
      requires !t.Ended() && !t.Expired(world.unixMs(at)) && Heeded(t.task, t.answered)
      modifies this
      ensures Kept(log, before, clean, t.answered, t.unsent, false) && CancelCount(log) == CancelCount(old(log))
      ensures Heard(log, Disowns) <==> Heard(old(log), Disowns) || reply == GetRefused(InvalidParams)
      ensures Heard(log, Fails) <==> Heard(old(log), Fails) || reply == GetRefused(OtherCode)
      ensures Patient(world, log, seed, t.firstSeen) && Fair(log, handler) && LaterThan(log, tick)
      ensures LatestTask(seed, log) == if reply.GotTask? && reply.task.id == seed.id then reply.task else t.task
      ensures Failures(log) == if reply == GetUnsent || reply == GetRefused(InternalError) then 1 + failures else 0
      ensures log == old(log) + [Got(bound, reply, Look(t.task, t.answered, at, from, NextWait(t, failures)))]
      ensures tick >= old(tick) && clock >= old(clock)
    {
      hide Kept, CancelCount, Heard, Patient, Fair, LatestTask, Failures, LaterThan, Over, Late, Heeded, WaitAfter;
      ghost var log0 := log;
      ghost var look := Look(t.task, t.answered, at, from, NextWait(t, failures));
      reply := GetTask(bound, look);
      ghost var e := Got(bound, reply, look);
      Appended(log0, e);
      KeptQuiet(log0, e, before, clean, t.answered, t.unsent, false);
      OnePoll(world, log0, e, seed, t.firstSeen);
      FairMore(log0, e, handler);
      LaterStill(log, at + 1, tick);
    }

    /** What is known of the task: the last word of the log, no poll out of order, and what is
        asked for among its requests. */
    ghost predicate Knows(t: Tracker, seed: Task, firstSeen: nat)
      reads this, t
    {
      && Patient(world, log, seed, firstSeen) && Fair(log, handler)
      && t.task == LatestTask(seed, log) && t.firstSeen == firstSeen && t.task.id == seed.id
    }

    /** A follow that goes on: the books are in order, nothing was cancelled, the server said
        nothing that ends it, and `asks` is what the task wants to know. */
    ghost predicate Going(t: Tracker, asks: seq<Ask>, failures: nat, seed: Task, firstSeen: nat,
                          before: set<string>, clean: bool)
      reads this, t
    {
      && Kept(log, before, clean, t.answered, t.unsent, false) && CancelCount(log) == 0
      && !Heard(log, Disowns) && !Heard(log, Fails)
      && Knows(t, seed, firstSeen) && failures == Failures(log) && LaterThan(log, tick)
      && DistinctKeys(asks) && (forall ask :: ask in asks ==> ask.key !in t.answered)
      && AsksOf(t.task, t.answered, asks)
    }

    /** The clock as the follower read it when it came to its wait. */
    ghost function Turned(at: nat, until: Option<nat>): nat
      reads this
    {
      ready + if until.Some? then world.delay(at) else 0
    }

    /** A follow that has come to an end, and what the end says. */
    ghost predicate Concluded(t: Tracker, r: Followed, at: nat, until: Option<nat>, stop: Option<nat>,
                              seed: Task, firstSeen: nat, before: set<string>, clean: bool)
      reads this, t
    {
      && Kept(log, before, clean, t.answered, t.unsent, true)
      && CancelCount(log) == (if r.GaveUp? && r.lost.NotSupported? then 1 else 0)
      && Knows(t, seed, firstSeen)
      && (r == Ended ==> t.Ended())
      && (t.Ended() ==> r == Ended || r == GaveUp(Unknown) || r == Unfinished)
      && (r == GaveUp(Unknown) <==> Heard(log, Disowns)) && (r == GaveUp(FailedRequest) <==> Heard(log, Fails))
      && (r == Open || r == GaveUp(Expired) ==> LaterThan(log, at) && at <= tick)
      && (r == Open ==> Halted(until, stop) && !t.Expired(world.unixMs(at)))
      && (r == Open ==> NoTimeLeft(Turned(at, until), WaitAfter(t.task, Failures(log)), until, stop))
      && (r == GaveUp(Expired) ==> t.Expired(world.unixMs(at)))
      && (r.GaveUp? && r.lost.NotSupported? ==> Undeclared(t.task, r.lost.rpc))
    }

    /** Poll once and take in what the server says. */
    method Learn(t: Tracker, bound: nat, failures: nat, until: Option<nat>, ghost at: nat, ghost from: nat,
                 ghost seed: Task, ghost before: set<string>, ghost clean: bool)
      returns (lost: Option<Lost>, asks: seq<Ask>, failures': nat)
      requires Kept(log, before, clean, t.answered, t.unsent, false) && CancelCount(log) == 0
      requires !Heard(log, Disowns) && !Heard(log, Fails) && bound == TimeFor(until, from + NextWait(t, failures))
      requires Timely(log, until, from) && from + NextWait(t, failures) <= clock
      requires until.Some? ==> from + NextWait(t, failures) < until.value
      requires Knows(t, seed, t.firstSeen) && failures == Failures(log) && LaterThan(log, at) && at < tick
      requires !t.Ended() && !t.Expired(world.unixMs(at)) && Heeded(t.task, t.answered)
      modifies this, t`task
      ensures lost.None? ==> Going(t, asks, failures', seed, t.firstSeen, before, clean)
      ensures lost.Some? ==>
                && Kept(log, before, clean, t.answered, t.unsent, true) && CancelCount(log) == 0
                && Knows(t, seed, t.firstSeen) && !t.Ended()
                && (lost.value == Unknown || lost.value == FailedRequest)
                && (lost.value == Unknown <==> Heard(log, Disowns))
                && (lost.value == FailedRequest <==> Heard(log, Fails))
      ensures Timely(log, until, clock) && clock >= old(clock)
    {
      hide Kept, CancelCount, Heard, Patient, Fair, LatestTask, Failures, LaterThan, Over, Late, Heeded, WaitAfter,
           AsksOf, InOrder, DistinctKeys, Timely;
      failures' := failures;
      ghost var log0 := log;
      WithinBound(until, from + NextWait(t, failures));
      var reply := AskServer(t, bound, at, from, failures, seed, before, clean);
      TimelyPoll(log0, log[|log0|], until, from, clock);
      lost, asks := None, [];
      AsksMean(t.task, t.answered, asks, false);
      NoAsks();
      match reply {
        case GotTask(task) =>
          failures' := 0;
          var moved;
          moved, asks := t.Observe(task);
          AsksMean(t.task, t.answered, asks, task.id == seed.id);
        case GetRefused(code) =>
          if code == InternalError {
            failures' := failures + 1;
          } else {
            KeptDangling(log, before, clean, t.answered, t.unsent);
            lost := Some(if code == InvalidParams then Unknown else FailedRequest);
          }
        case GetUnsent => failures' := failures + 1;
      }
    }

    /** Answer what the task asks for, and come to the wait. Unless the deadline or `stop` is
        there by then, no request is left unanswered. */
    method Attend(t: Tracker, asks: seq<Ask>, until: Option<nat>, stop: Option<nat>, ghost failures: nat,
                  ghost seed: Task, ghost before: set<string>, ghost clean: bool)
      returns (lost: Option<Lost>)
      requires Going(t, asks, failures, seed, t.firstSeen, before, clean) && Timely(log, until, clock)
      modifies this, t`answered, t`unsent
      ensures Kept(log, before, clean, t.answered, t.unsent, true) && Knows(t, seed, t.firstSeen)
      ensures lost.None? && !Halted(until, stop) ==>
                Kept(log, before, clean, t.answered, t.unsent, false) && Heeded(t.task, t.answered)
      ensures (lost == Some(Unknown) <==> Heard(log, Disowns)) && !Heard(log, Fails)
      ensures CancelCount(log) == if lost.Some? && lost.value.NotSupported? then 1 else 0
      ensures lost.Some? ==> lost.value == Unknown || lost.value.NotSupported?
      ensures lost.Some? && lost.value.NotSupported? ==> Undeclared(t.task, lost.value.rpc) && !t.Ended()
      ensures failures == Failures(log) && LaterThan(log, old(tick)) && Timely(log, until, clock)
      ensures tick >= old(tick) && ready == clock >= old(clock)
    {
      hide Kept, CancelCount, Heard, Patient, Fair, LatestTask, Failures, LaterThan, Over, Late, Heeded, WaitAfter,
           Undeclared, AsksOf, DistinctKeys, Timely, Quietly;
      ghost var log0, answered, clock0 := log, t.answered, clock;
      ghost var dangling: bool;
      lost, dangling := AnswerAsks(t, asks, until, stop, before, clean);
      QuietStory(world, log0, log, handler, seed, t.firstSeen);
      TimelyQuiet(log0, log, handler, until, clock0, clock);
      ready := clock;
      if !dangling {
        KeptDangling(log, before, clean, t.answered, t.unsent);
      }
      if lost.Some? {
        UnsupportedAsk(t.task, answered, asks, lost.value);
      } else if !dangling {
        HeededNow(t.task, answered, t.answered, asks);
      }
    }

    /** One round: the requests, a look at the task, the wait, and a poll. */
    method Round(t: Tracker, asks: seq<Ask>, failures: nat, until: Option<nat>, stop: Option<nat>,
                 ghost seed: Task, ghost before: set<string>, ghost clean: bool)
      returns (more: bool, r: Followed, asks': seq<Ask>, failures': nat, ghost at: nat)
      requires Going(t, asks, failures, seed, t.firstSeen, before, clean) && Timely(log, until, clock)
      modifies this, t
      ensures t.firstSeen == old(t.firstSeen) && Timely(log, until, clock)
      ensures more ==> Going(t, asks', failures', seed, t.firstSeen, before, clean)
      ensures more ==> clock >= old(clock) + POLL_FLOOR && (until.Some? ==> old(clock) < until.value)
      ensures !more ==> Concluded(t, r, at, until, stop, seed, t.firstSeen, before, clean) && r != Unfinished
    {
      hide Kept, CancelCount, Heard, Patient, Fair, LatestTask, Failures, LaterThan, Over, Late, Heeded, WaitAfter,
           Undeclared, AsksOf, DistinctKeys, Timely, TimeFor;
      more, r, asks', failures', at := false, Open, [], failures, tick;
      ghost var tick0 := tick;
      var lost := Attend(t, asks, until, stop, failures, seed, before, clean);
      if lost.Some? {
        r := GaveUp(lost.value);
        return;
      }
      var bound;
      ghost var from;
      bound, r, at, from := Decide(t, failures, until, stop);
      LaterStill(log, tick0, at);
      TimelyLater(log, until, ready, from);
      TimelyLater(log, until, ready, clock);
      if bound.None? {
        return;
      }
      lost, asks', failures' := Learn(t, bound.value, failures, until, at, from, seed, before, clean);
      if lost.Some? {
        r := GaveUp(lost.value);
        return;
      }
      more := true;
    }

    /** The loop of polls and answers, with one poll at most in every `POLL_FLOOR`, so that
        a bounded follow ends within a number of rounds its bound sets. */
    method Poll(t: Tracker, until: Option<nat>, stop: Option<nat>, rounds: nat, ghost before: set<string>,
                ghost clean: bool)
      returns (r: Followed, ghost at: nat)
      requires log == [] && before == t.answered && (clean ==> t.unsent == map[])
      modifies this, t
      ensures Concluded(t, r, at, until, stop, old(t.task), old(t.firstSeen), before, clean)
      ensures Timely(log, until, clock)
      ensures until.Some? && rounds > 0 && old(clock) + (rounds - 1) * POLL_FLOOR >= until.value ==> r != Unfinished
    {
      hide Kept, CancelCount, Heard, Patient, Fair, LatestTask, Failures, LaterThan, Over, Late, Heeded, WaitAfter,
           Undeclared, AsksOf, Timely;
      KeptStart(before, clean, t.unsent);
      TimelyStarts(until, clock);
      NoCancelYet();
      StoryStarts(world, t.task, t.firstSeen, handler, tick);
      ghost var seed := t.task;
      var failures := 0;
      OverAsksNothing(t.task);
      var moved, asks := t.Observe(t.task);
      AsksMean(t.task, t.answered, asks, true);
      for round := 0 to rounds
        invariant Going(t, asks, failures, seed, t.firstSeen, before, clean) && t.firstSeen == old(t.firstSeen)
        invariant clock >= old(clock) + round * POLL_FLOOR && Timely(log, until, clock)
        invariant until.Some? && round > 0 ==> old(clock) + (round - 1) * POLL_FLOOR < until.value
      {
        hide Going, Concluded;
        var more;
        more, r, asks, failures, at := Round(t, asks, failures, until, stop, seed, before, clean);
        if !more {
          return;
        }
      }
      KeptDangling(log, before, clean, t.answered, t.unsent);
      return Unfinished, tick;
    }

    /** Follow a task. Whatever the server, the person and the clocks do: the person is asked
        for no key twice and for none already answered; a task that is returned open leaves no
        answer behind, and its answered keys are those it had and those the server acknowledged; all
        the server was told is what the person said, or a decline of what nobody was asked; and
        a task given up is cancelled once, any other not at all. A task that is over is returned as
        ended, unless the server disowned it; one is returned open only once the deadline or `stop`
        came; every poll goes out in order. A follow with a deadline ends. */
    method FollowTask(t: Tracker, until: Option<nat>, stop: Option<nat>, rounds: nat)
      returns (r: Followed, ghost at: nat)
      modifies this, t
      ensures AskedOnce(log) && AskedKeys(log) !! old(t.answered)
      ensures r == Open ==> t.unsent == map[]
      ensures r == Open && old(t.unsent) == map[] ==> t.answered == old(t.answered) + AckedKeys(log)
      ensures old(t.unsent) == map[] ==> Truthful(log)
      ensures CancelCount(log) == CancelsOwed(r)
      ensures Bounded(log)
      ensures Knows(t, old(t.task), old(t.firstSeen))
      ensures r == Ended ==> t.Ended()
      ensures t.Ended() ==> r == Ended || r == GaveUp(Unknown) || r == Unfinished
      ensures r == GaveUp(Unknown) ==> Heard(log, Disowns)
      ensures Heard(log, Disowns) ==> r == GaveUp(Unknown) || r == Open
      ensures r == Open ==> (Heard(log, Disowns) <==> EndsDisowned(log))
      ensures r == GaveUp(FailedRequest) <==> Heard(log, Fails)
      ensures r == Open || r == GaveUp(Expired) ==> LaterThan(log, at) && at <= tick
      ensures r == Open ==> Halted(until, stop) && !t.Expired(world.unixMs(at))
      ensures r == Open ==> NoTimeLeft(Turned(at, until), WaitAfter(t.task, Failures(log)), until, stop)
      ensures Timely(log, until, clock)
      ensures r == GaveUp(Expired) ==> t.Expired(world.unixMs(at))
      ensures r.GaveUp? && r.lost.NotSupported? ==> Undeclared(t.task, r.lost.rpc)
      ensures until.Some? && rounds > 0 && old(clock) + (rounds - 1) * POLL_FLOOR >= until.value ==> r != Unfinished
    {
      hide Kept, CancelCount, Heard, AskedOnce, Bounded, Truthful, AskedKeys, AckedKeys, Patient, Fair, LatestTask,
           LaterThan, Over, Late, Undeclared, Failures, WaitAfter, Timely;
      log := [];
      ghost var before, clean := t.answered, t.unsent == map[];
      r, at := Poll(t, until, stop, rounds, before, clean);
      ghost var log0, clock0 := log, clock;
      if r == Open {
        var _, _ := SendAnswers(t, before, clean, true);
        EndsHeard(log);
        KeptMeans(log, before, clean, t.answered, t.unsent);
        t.ReleaseUnsent();
      } else if r == GaveUp(Lost.Expired) || r == GaveUp(FailedRequest) {
        Appended(log, CancelSent);
        KeptQuiet(log, CancelSent, before, clean, t.answered, t.unsent, true);
        CancelTask();
        KeptMeans(log, before, clean, t.answered, t.unsent);
      } else {
        KeptMeans(log, before, clean, t.answered, t.unsent);
      }
      QuietStory(world, log0, log, handler, old(t.task), old(t.firstSeen));
      TimelyQuiet(log0, log, handler, until, clock0, clock);
    }

    /** A bounded call that became a task: it ends, and what the whole call sends, cancels
        included, is one `tasks/cancel` unless the task ended or was given up as unknown. A task
        heard to be over is never cancelled. A task the server disowned is cancelled all the same
        in exactly one case: it was returned open, and only the last try to send its answers
        heard so. */
    method CallTask(task: Task, bound: nat) returns (r: Followed, ghost firstSeen: nat, ghost at: nat)
      modifies this
      ensures r != Unfinished
      ensures CancelCount(log) == if r == Ended || r == GaveUp(Unknown) then 0 else 1
      ensures r == Ended ==> Over(LatestTask(task, log))
      ensures Over(task) || HeardOver(log, task.id) ==>
                (r == Ended || r == GaveUp(Unknown)) && Over(LatestTask(task, log))
      ensures CancelCount(log) == 1 && Heard(log, Disowns) <==> r == Open && log != [] && EndsDisowned(log[..|log| - 1])
      ensures r == Open ==> clock >= old(clock) + bound
      ensures var until := Some(old(clock) + world.delay(old(tick)) + bound);
              && Timely(log, until, clock)
              && (r == Open ==>
                    NoTimeLeft(Turned(at, until), WaitAfter(LatestTask(task, log), Failures(log)), until, None))
      ensures AskedOnce(log) && Bounded(log) && Truthful(log)
      ensures Patient(world, log, task, firstSeen) && Fair(log, handler)
    {
      hide CancelCount, Heard, AskedOnce, Bounded, Truthful, AskedKeys, AckedKeys, Patient, Fair, LatestTask,
           LaterThan, Over, Late, Undeclared, HeardOver, Failures, WaitAfter, Timely;
      var started := Now();
      // The call itself takes its time before it becomes a task.
      var _ := Now();
      firstSeen := world.unixMs(tick);
      var t := new Tracker(task, world.unixMs(tick));
      r, at := FollowTask(t, Some(started + bound), None, bound / POLL_FLOOR + 2);
      HeardOverIsLast(world, log, task, firstSeen);
      if r == Open {
        ghost var log0, clock0 := log, clock;
        Appended(log, CancelSent);
        KeepsApart(log, CancelSent);
        CancelTask();
        assert log[..|log| - 1] == log0;
        QuietStory(world, log0, log, handler, task, firstSeen);
        TimelyQuiet(log0, log, handler, Some(started + bound), clock0, clock);
        HeardOverIsLast(world, log, task, firstSeen);
      }
    }
  }

  /** A reply of the log says that the task is over. */
  ghost predicate HeardOver(log: Log, id: string) {
    exists i :: 0 <= i < |log| && log[i].Got? && log[i].reply.GotTask? && log[i].reply.task.id == id
                && Over(log[i].reply.task)
  }

  lemma HeardOverIsLast(world: World, log: Log, seed: Task, firstSeen: nat)
    requires Patient(world, log, seed, firstSeen)
    ensures HeardOver(log, seed.id) || Over(seed) ==> Over(LatestTask(seed, log))
  {
    hide Over, Patient, Late, Heeded, WaitAfter, Failures;
    if i :| 0 <= i < |log| && log[i].Got? && log[i].reply.GotTask? && log[i].reply.task.id == seed.id
            && Over(log[i].reply.task) {
      OverIsLast(world, log, seed, firstSeen, i);
    } else if Over(seed) {
      NeverPolled(world, log, seed, firstSeen, |log|);
      assert log[..|log|] == log;
    }
  }

  lemma {:induction false} NeverPolled(world: World, log: Log, seed: Task, firstSeen: nat, n: nat)
    requires Patient(world, log, seed, firstSeen) && Over(seed) && n <= |log|
    ensures LatestTask(seed, log[..n]) == seed
  {
    hide Over, Late, Heeded, WaitAfter, Failures;
    if n == 0 {
    } else {
      var last := n - 1;
      NeverPolled(world, log, seed, firstSeen, last);
      assert log[..n][..last] == log[..last] && log[..n][last] == log[last];
      if log[last].Got? {
        PolledPending(world, log, seed, firstSeen, last);
      }
    }
  }

  lemma KeepsApart(log: Log, e: Event)
    requires e.CancelSent?
    ensures AskedOnce(log) ==> AskedOnce(log + [e])
    ensures Bounded(log) ==> Bounded(log + [e])
    ensures Truthful(log) ==> Truthful(log + [e])
  {
    LogAppend(log, e);
  }

  lemma Appended(log: Log, e: Event)
    ensures CancelCount(log + [e]) == CancelCount(log) + (if e.CancelSent? then 1 else 0)
    ensures Heard(log + [e], Disowns) <==> Heard(log, Disowns) || Says(e, Disowns)
    ensures Heard(log + [e], Fails) <==> Heard(log, Fails) || Says(e, Fails)
  {
    hide AskedOnce, Bounded, Meant, Truthful;
    LogAppend(log, e);
  }

  lemma NoCancelYet()
    ensures CancelCount([]) == 0 && forall w :: !Heard([], w)
  {
  }
}
