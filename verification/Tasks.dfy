/** The follower's own record of a task of the MCP Tasks extension. */
module Tasks {
  import opened Wrappers

  datatype Status = Working | InputRequired | Completed | Failed | Cancelled {
    predicate IsTerminal() {
      Completed? || Failed? || Cancelled?
    }
  }

  /** One entry of `inputRequests`: a method, and for an elicitation its mode. */
  datatype Request = Request(rpc: string, mode: Option<string>)

  datatype Entry = Entry(key: string, request: Request)

  /** The requests in the order the map gives them, each key once. */
  type Requests = es: seq<Entry> | forall i, j :: 0 <= i < j < |es| ==> es[i].key != es[j].key

  datatype Task = Task(
    id: string,
    status: Status,
    ttl: Option<nat>,
    pollInterval: Option<nat>,
    requests: Option<Requests>,
    hasResult: bool,
    hasError: bool)
  {
    /** Whether the member the status carries is missing, as it is in a seed. */
    predicate Missing() {
      match status
      case InputRequired => requests.None?
      case Completed => !hasResult
      case Failed => !hasError
      case _ => false
    }
  }

  /** A task that is over, its outcome in hand. */
  predicate Over(t: Task) {
    (t.status == Completed && t.hasResult) || (t.status == Failed && t.hasError) || t.status == Cancelled
  }

  /** A task that does not say what its status promises: the requests, the result, the error. */
  predicate Lacks(t: Task) {
    || (t.status == InputRequired && t.requests.None?)
    || (t.status == Completed && !t.hasResult)
    || (t.status == Failed && !t.hasError)
  }

  /** A task past the time it was to live, counted from when it was first seen. */
  predicate Late(t: Task, firstSeen: nat, now: nat) {
    var last := firstSeen + (if t.ttl.Some? then t.ttl.value else 0) + 30_000;
    t.ttl.Some? && now > (if last <= U64_MAX then last else U64_MAX)
  }

  // Milliseconds.
  const POLL_FLOOR: nat := 250
  const POLL_DEFAULT: nat := 2000
  const POLL_CEILING: nat := 600_000
  const TTL_GRACE: nat := 30_000
  const REQUEST_BOUND: nat := 30_000
  const U64_MAX: nat := 0xffff_ffff_ffff_ffff

  function PollInterval(t: Task): (wait: nat)
    ensures POLL_FLOOR <= wait <= POLL_CEILING
    ensures t.pollInterval.Some? && 250 <= t.pollInterval.value <= 600_000 ==> wait == t.pollInterval.value
    ensures t.pollInterval.None? ==> wait == 2000
    ensures t.pollInterval.Some? && t.pollInterval.value < 250 ==> wait == 250
    ensures t.pollInterval.Some? && t.pollInterval.value > 600_000 ==> wait == 600_000
  {
    var asked := if t.pollInterval.Some? then t.pollInterval.value else POLL_DEFAULT;
    if asked < POLL_FLOOR then POLL_FLOOR else if asked > POLL_CEILING then POLL_CEILING else asked
  }

  /** What becomes of an input request: a person, a refusal, or the end of the task. */
  datatype Ask = Elicit(key: string) | Decline(key: string) | Unsupported(key: string, rpc: string)

  function AskOf(key: string, r: Request): (ask: Ask)
    ensures ask.key == key
    ensures ask.Unsupported? <==> r.rpc != "elicitation/create"
    ensures ask.Unsupported? ==> ask.rpc == r.rpc
    ensures ask.Elicit? <==> r.rpc == "elicitation/create" && r.mode in {None, Some("form")}
  {
    if r.rpc != "elicitation/create" then Unsupported(key, r.rpc)
    else if r.mode.None? || r.mode == Some("form") then Elicit(key)
    else Ask.Decline(key)
  }

  datatype Answer = Accepts(content: string) | Declines | Cancels

  /** What the server is told of a request. */
  datatype Response = AcceptResponse(content: string) | DeclineResponse | CancelResponse

  function ElicitResult(answer: Option<Answer>): (r: Response)
    ensures forall content :: r == AcceptResponse(content) <==> answer == Some(Accepts(content))
    ensures r == DeclineResponse <==> answer == Some(Declines)
  {
    match answer
    case Some(Accepts(content)) => AcceptResponse(content)
    case Some(Declines) => DeclineResponse
    case _ => CancelResponse
  }

  predicate DistinctKeys(asks: seq<Ask>) {
    forall i, j :: 0 <= i < j < |asks| ==> asks[i].key != asks[j].key
  }

  class Tracker {
    var task: Task
    var firstSeen: nat
    /** The keys nobody is asked for any more. */
    var answered: set<string>
    /** Answers on their way: the server has confirmed none of them. */
    var unsent: map<string, Response>

    constructor (task: Task, now: nat)
      ensures this.task == task && firstSeen == now && answered == {} && unsent == map[]
    {
      this.task, firstSeen, answered, unsent := task, now, {}, map[];
    }

    predicate Ended()
      reads this
      ensures Ended() <==> Over(task)
    {
      task.status.IsTerminal() && !task.Missing()
    }

    predicate Expired(now: nat)
      reads this
      ensures Expired(now) <==> !Over(task) && Late(task, firstSeen, now)
    {
      !Ended() && task.ttl.Some?
          && now > SaturatingAdd(SaturatingAdd(firstSeen, task.ttl.value, U64_MAX), TTL_GRACE, U64_MAX)
    }

    function Interval(): (wait: nat)
      reads this
      ensures POLL_FLOOR <= wait <= POLL_CEILING
      ensures wait == if Lacks(task) then POLL_FLOOR else PollInterval(task)
    {
      if task.Missing() then POLL_FLOOR else PollInterval(task)
    }

    /** Settle a key with an answer that is now on its way. */
    method GiveAnswer(key: string, response: Response)
      modifies this`answered, this`unsent
      ensures answered == old(answered) + {key} && unsent == old(unsent)[key := response]
    {
      answered := answered + {key};
      unsent := unsent[key := response];
    }

    /** Mark a key dealt with. */
    method Answering(key: string)
      modifies this`answered
      ensures answered == old(answered) + {key}
    {
      answered := answered + {key};
    }

    /** Drop every answer on its way, and with it the claim that its key was answered. */
    method ReleaseUnsent()
      modifies this`answered, this`unsent
      ensures unsent == map[] && answered == old(answered) - old(unsent).Keys
    {
      var keys := unsent.Keys;
      unsent := map[];
      while keys != {}
        invariant keys <= old(unsent).Keys
        invariant answered == old(answered) - (old(unsent).Keys - keys)
        invariant unsent == map[]
      {
        var key :| key in keys;
        keys := keys - {key};
        answered := answered - {key};
      }
    }

    /** News of the task. What is about another task, or comes after the end, changes nothing;
        otherwise the new requests are exactly those whose key was not answered, each once and
        in their order. */
    method Observe(next: Task) returns (moved: Option<Status>, asks: seq<Ask>)
      modifies this`task
      ensures if next.id != old(task.id) || old(Ended())
              then task == old(task) && moved == None && asks == []
              else task == next && moved == (if next.status != old(task.status) then Some(old(task.status)) else None)
      ensures task.id == old(task.id)
      ensures old(Ended()) ==> Ended()
      ensures DistinctKeys(asks)
      ensures forall ask :: ask in asks ==> ask.key !in answered
      ensures next.id == old(task.id) && !old(Ended()) ==>
                if next.status == InputRequired && next.requests.Some?
                then InOrder(next.requests.value, answered, asks) else asks == []
    {
      if next.id != task.id || Ended() {
        return None, [];
      }
      moved := if next.status != task.status then Some(task.status) else None;
      asks := [];
      if next.status == InputRequired && next.requests.Some? {
        asks := NewAsks(next.requests.value, answered);
      }
      task := next;
    }
  }

  /** Each ask stands for a request that was not answered, in the order of the requests, and
      each such request has its ask. */
  ghost predicate InOrder(requests: seq<Entry>, answered: set<string>, asks: seq<Ask>) {
    exists at: seq<nat> :: Places(requests, answered, asks, at)
  }

  /** `at` are the places of the unanswered requests, from first to last. */
  ghost predicate Places(requests: seq<Entry>, answered: set<string>, asks: seq<Ask>, at: seq<nat>) {
    && |at| == |asks|
    && (forall k :: 0 <= k < |at| ==>
          && at[k] < |requests| && requests[at[k]].key !in answered
          && asks[k] == AskOf(requests[at[k]].key, requests[at[k]].request))
    && (forall j, k :: 0 <= j < k < |at| ==> at[j] < at[k])
    && (forall i: nat :: i < |requests| && requests[i].key !in answered ==> i in at)
  }

  method NewAsks(requests: Requests, answered: set<string>) returns (asks: seq<Ask>)
    ensures InOrder(requests, answered, asks)
    ensures DistinctKeys(asks)
    ensures forall ask :: ask in asks ==> ask.key !in answered
  {
    hide AskOf, Places;
    asks := [];
    ghost var at: seq<nat> := [];
    NoPlaces(requests, answered);
    for i := 0 to |requests|
      invariant Places(requests[..i], answered, asks, at)
    {
      var e := requests[i];
      NextPlace(requests, i, answered, asks, at);
      if e.key !in answered {
        asks := asks + [AskOf(e.key, e.request)];
        at := at + [i];
      }
    }
    assert requests[..|requests|] == requests;
    PlacesDistinct(requests, answered, asks, at);
  }

  lemma NoPlaces(requests: seq<Entry>, answered: set<string>)
    ensures Places(requests[..0], answered, [], [])
  {
  }

  lemma NextPlace(requests: seq<Entry>, i: nat, answered: set<string>, asks: seq<Ask>, at: seq<nat>)
    requires i < |requests| && Places(requests[..i], answered, asks, at)
    ensures var e := requests[i];
            if e.key !in answered then Places(requests[..i + 1], answered, asks + [AskOf(e.key, e.request)], at + [i])
            else Places(requests[..i + 1], answered, asks, at)
  {
    hide AskOf;
    var before, after := requests[..i], requests[..i + 1];
    assert after == before + [requests[i]];
    forall k | 0 <= k < |at| ensures after[at[k]] == before[at[k]] {
    }
    if requests[i].key !in answered {
      assert (at + [i])[|at|] == i;
      forall j: nat | j < |after| && after[j].key !in answered ensures j in at + [i] {
        if j < i {
          assert before[j] == after[j];
        }
      }
    }
  }

  lemma PlacesDistinct(requests: Requests, answered: set<string>, asks: seq<Ask>, at: seq<nat>)
    requires Places(requests, answered, asks, at)
    ensures DistinctKeys(asks) && forall ask :: ask in asks ==> ask.key !in answered
  {
    hide AskOf;
    forall j, k | 0 <= j < k < |asks| ensures asks[j].key != asks[k].key {
      assert at[j] < at[k];
    }
  }

  /** Every request is answered or asked for. */
  lemma AllAsked(requests: seq<Entry>, answered: set<string>, asks: seq<Ask>)
    requires InOrder(requests, answered, asks)
    ensures forall e :: e in requests ==> e.key in answered || exists i :: 0 <= i < |asks| && asks[i].key == e.key
  {
    var at :| Places(requests, answered, asks, at);
    forall e | e in requests && e.key !in answered ensures exists i :: 0 <= i < |asks| && asks[i].key == e.key {
      var j :| 0 <= j < |requests| && requests[j] == e;
      assert j in at;
      var i :| 0 <= i < |at| && at[i] == j;
      assert asks[i].key == e.key;
    }
  }

  /** The ask is a request of the task, read as it is to be treated. */
  ghost predicate StemsFrom(requests: seq<Entry>, ask: Ask) {
    exists j :: 0 <= j < |requests| && ask == AskOf(requests[j].key, requests[j].request)
  }

  lemma PlaceStems(requests: seq<Entry>, answered: set<string>, asks: seq<Ask>, at: seq<nat>, i: nat)
    requires Places(requests, answered, asks, at) && i < |asks|
    ensures StemsFrom(requests, asks[i])
  {
    hide AskOf;
    assert asks[i] == AskOf(requests[at[i]].key, requests[at[i]].request);
  }

  lemma AskedOf(requests: seq<Entry>, answered: set<string>, asks: seq<Ask>)
    requires InOrder(requests, answered, asks)
    ensures forall i :: 0 <= i < |asks| ==> StemsFrom(requests, asks[i])
  {
    hide Places, StemsFrom;
    var at :| Places(requests, answered, asks, at);
    forall i | 0 <= i < |asks| ensures StemsFrom(requests, asks[i]) {
      PlaceStems(requests, answered, asks, at, i);
    }
  }
}
