/**
 What a person allows, and how a single payment is measured by it: the limits they
 set, each refused with its own reason. Amounts are exact integers at 18
 decimals, held in 128 bits.
 */
module Allowances {
  import opened Wrappers
  import opened Calendar

  const U128_MAX: int := 0xffff_ffff_ffff_ffff_ffff_ffff_ffff_ffff
  const U32_MAX: int := 0xffff_ffff

  type U128 = n: int | 0 <= n <= U128_MAX
  type U32 = n: int | 0 <= n <= U32_MAX

  datatype Allowance = Allowance(
    id: string,
    currency: string,
    max: U128,
    budget: U128,
    per: Per,
    times: Option<U32>,
    payees: Option<seq<string>>,
    categories: seq<string>,
    from: Option<nat>,
    until: Option<nat>,
    approveAbove: Option<U128>,
    hosts: Option<seq<string>>,
    approverUnbound: bool)

  /** A sum and a number of payments, both saturating at their width. */
  datatype Usage = Usage(spent: U128, payments: U32)

  /** Which limit a charge is past. */
  datatype Limit =
    | Categories | TooEarly | TooLate | Payee | HostUnknown | Host
    | Max | Budget | Times | ApproverUnbound

  function Lower(s: string): string {
    if s == "" then ""
    else [if 'A' <= s[0] <= 'Z' then s[0] - 'A' + 'a' else s[0]] + Lower(s[1..])
  }

  predicate Named(list: seq<string>, host: string) {
    exists h :: h in list && Lower(h) == Lower(host)
  }

  /** Whether `limit` is one the charge is past. */
  predicate Exceeds(a: Allowance, payee: string, host: Option<string>, charge: U128, usage: Usage, now: nat,
                    limit: Limit) {
    match limit
    case Categories => a.categories != []
    case TooEarly => a.from.Some? && now < a.from.value
    case TooLate => a.until.Some? && a.until.value <= now
    case Payee => a.payees.Some? && payee !in a.payees.value
    case HostUnknown => a.hosts.Some? && host.None?
    case Host => a.hosts.Some? && host.Some? && !Named(a.hosts.value, host.value)
    case Max => a.max < charge
    case Budget => a.budget < usage.spent + charge
    case Times => a.times.Some? && a.times.value <= usage.payments
    case ApproverUnbound => a.approverUnbound && a.approveAbove.Some? && a.approveAbove.value < charge
  }

  /** The limits on when and to whom a payment is made, in the order they are checked. */
  function PurposeReasons(a: Allowance, payee: string, now: nat): (why: seq<Limit>)
    ensures forall limit :: limit in why <==>
              (limit.Categories? || limit.TooEarly? || limit.TooLate? || limit.Payee?)
              && Exceeds(a, payee, None, 0, Usage(0, 0), now, limit)
  {
    (if a.categories != [] then [Categories] else [])
    + (if a.from.Some? && now < a.from.value then [TooEarly] else [])
    + (if a.until.Some? && now >= a.until.value then [TooLate] else [])
    + (if a.payees.Some? && payee !in a.payees.value then [Payee] else [])
  }

  function HostReasons(a: Allowance, host: Option<string>): (why: seq<Limit>)
    ensures forall limit :: limit in why <==>
              (limit.HostUnknown? || limit.Host?) && Exceeds(a, "", host, 0, Usage(0, 0), 0, limit)
  {
    if a.hosts.None? then []
    else if host.None? then [HostUnknown]
    else if !Named(a.hosts.value, host.value) then [Host]
    else []
  }

  /** The limits on the amount. */
  function AmountReasons(a: Allowance, charge: U128, usage: Usage): (why: seq<Limit>)
    ensures forall limit :: limit in why <==>
              (limit.Max? || limit.Budget? || limit.Times? || limit.ApproverUnbound?)
              && Exceeds(a, "", None, charge, usage, 0, limit)
  {
    (if charge > a.max then [Max] else [])
    + (if usage.spent + charge > U128_MAX || usage.spent + charge > a.budget then [Budget] else [])
    + (if a.times.Some? && usage.payments >= a.times.value then [Times] else [])
    + (if a.approveAbove.Some? && charge > a.approveAbove.value && a.approverUnbound then [ApproverUnbound] else [])
  }

  /** Every limit a charge is past is among the reasons, and no other. */
  lemma ReasonsExact(a: Allowance, payee: string, host: Option<string>, charge: U128, usage: Usage, now: nat,
                     limit: Limit)
    ensures limit in PurposeReasons(a, payee, now) + HostReasons(a, host) + AmountReasons(a, charge, usage)
            <==> Exceeds(a, payee, host, charge, usage, now, limit)
  {
    hide PurposeReasons, HostReasons, AmountReasons;
  }

  /** A payment within every limit passes, with a flag when someone must approve it; any other
      is refused for each limit it breaks. */
  function Judge(a: Allowance, payee: string, host: Option<string>, charge: U128, usage: Usage, now: nat)
    : (r: Result<bool, seq<Limit>>)
    ensures r.Ok? <==> forall limit :: !Exceeds(a, payee, host, charge, usage, now, limit)
    ensures r.Ok? ==> (r.value <==> a.approveAbove.Some? && a.approveAbove.value < charge)
    ensures r.Err? ==> forall limit :: limit in r.error <==> Exceeds(a, payee, host, charge, usage, now, limit)
  {
    var why := PurposeReasons(a, payee, now) + HostReasons(a, host) + AmountReasons(a, charge, usage);
    assert forall limit :: limit in why <==> Exceeds(a, payee, host, charge, usage, now, limit) by {
      hide Exceeds, PurposeReasons, HostReasons, AmountReasons;
      forall limit ensures limit in why <==> Exceeds(a, payee, host, charge, usage, now, limit) {
        ReasonsExact(a, payee, host, charge, usage, now, limit);
      }
    }
    hide Exceeds, PurposeReasons, HostReasons, AmountReasons;
    if why == [] then Ok(a.approveAbove.Some? && charge > a.approveAbove.value)
    else
      assert why[0] in why;
      Err(why)
  }

  // --- hosts -----------------------------------------------------------------

  /** The same letter, in either case, or the same character. */
  predicate SameLetter(c: char, d: char) {
    c == d || ('A' <= c <= 'Z' && d == c - 'A' + 'a') || ('A' <= d <= 'Z' && c == d - 'A' + 'a')
  }

  lemma {:induction false} LowerAt(s: string)
    ensures |Lower(s)| == |s|
    ensures forall i :: 0 <= i < |s| ==> Lower(s)[i] == if 'A' <= s[i] <= 'Z' then s[i] - 'A' + 'a' else s[i]
  {
    if s == "" {
    } else {
      LowerAt(s[1..]);
    }
  }

  predicate SameHost(h: string, host: string) {
    |h| == |host| && forall i :: 0 <= i < |h| ==> SameLetter(h[i], host[i])
  }

  lemma LowerExactly(h: string, host: string)
    ensures Lower(h) == Lower(host) <==> SameHost(h, host)
  {
    LowerAt(h);
    LowerAt(host);
    hide Lower;
    if Lower(h) == Lower(host) {
      forall i | 0 <= i < |h| ensures SameLetter(h[i], host[i]) {
        assert Lower(h)[i] == Lower(host)[i];
      }
    }
  }

  /** Hosts are matched whatever the case of their letters, and otherwise to the letter. */
  lemma HostExactly(a: Allowance, payee: string, host: string, charge: U128, usage: Usage, now: nat)
    requires a.hosts.Some?
    ensures Exceeds(a, payee, Some(host), charge, usage, now, Host) <==>
            !exists h :: h in a.hosts.value && SameHost(h, host)
  {
    hide Lower, SameHost;
    forall h ensures Lower(h) == Lower(host) <==> SameHost(h, host) {
      LowerExactly(h, host);
    }
  }
}
