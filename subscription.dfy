/** The subscription slice of the frontend store: whether the user is on a
    paid plan, the plan's dates and the daily credit counters.  Each reducer
    updates the state in place; `Reduce` states the same transitions on
    values, and the lemmas about it say what the reducers promise. */
module Subscription {
  import opened Wrappers

  /** `dailyCreditsLimit`: a count, or `Infinity`. */
  datatype Limit = Finite(n: nat) | Unlimited

  /** The payload of `setSubscriptionStatus`; a field left out is `None`. */
  datatype Status = Status(
    isPro: bool,
    planType: Option<string>,
    subscriptionEnd: Option<string>,
    trialEnd: Option<string>,
    dailyCreditsUsed: Option<nat>,
    dailyCreditsLimit: Option<Limit>)

  /** A snapshot of the slice. */
  datatype Fields = Fields(
    isPro: bool,
    planType: Option<string>,
    subscriptionEnd: Option<string>,
    trialEnd: Option<string>,
    dailyCreditsUsed: nat,
    dailyCreditsLimit: Limit,
    isLoading: bool,
    error: Option<string>)

  /** The actions the slice handles. */
  datatype Action =
    | SetSubscriptionStatus(status: Status)
    | IncrementCreditsUsed
    | ResetDailyCredits
    | SetLoading(loading: bool)
    | SetError(err: Option<string>)

  /** The state before any action. */
  const Initial := Fields(false, None, None, None, 0, Finite(10), false, None)

  /** `dailyCreditsUsed || 0`. */
  function UsedOrZero(used: Option<nat>): nat
  {
    if used.Some? then used.value else 0
  }

  /** `dailyCreditsLimit || (isPro ? Infinity : 10)`: a limit of zero is
      falsy and falls back as an absent one does. */
  function LimitOrDefault(limit: Option<Limit>, isPro: bool): Limit
  {
    if limit.Some? && limit.value != Finite(0) then limit.value
    else if isPro then Unlimited
    else Finite(10)
  }

  /** The transition of one action. */
  function Reduce(s: Fields, a: Action): Fields
  {
    match a
    case SetSubscriptionStatus(p) =>
      s.(isPro := p.isPro, planType := p.planType, subscriptionEnd := p.subscriptionEnd,
         trialEnd := p.trialEnd, dailyCreditsUsed := UsedOrZero(p.dailyCreditsUsed),
         dailyCreditsLimit := LimitOrDefault(p.dailyCreditsLimit, p.isPro), error := None)
    case IncrementCreditsUsed =>
      if !s.isPro then s.(dailyCreditsUsed := s.dailyCreditsUsed + 1) else s
    case ResetDailyCredits => s.(dailyCreditsUsed := 0)
    case SetLoading(b) => s.(isLoading := b)
    case SetError(e) => s.(error := e)
  }

  /** The state after a series of actions. */
  function Run(s: Fields, actions: seq<Action>): Fields
    decreases |actions|
  {
    if actions == [] then s else Run(Reduce(s, actions[0]), actions[1..])
  }

  /** Only a reset and a new status can lower the credits used. */
  lemma UsedOnlyDropsOnResetOrStatus(s: Fields, a: Action)
    ensures Reduce(s, a).dailyCreditsUsed < s.dailyCreditsUsed ==>
      a.ResetDailyCredits? || a.SetSubscriptionStatus?
  {
  }

  /** The same over any series of actions without resets or new statuses:
      the credits used never go down. */
  lemma {:induction false} UsedMonotone(s: Fields, actions: seq<Action>)
    requires forall k :: 0 <= k < |actions| ==> !actions[k].ResetDailyCredits? && !actions[k].SetSubscriptionStatus?
    ensures Run(s, actions).dailyCreditsUsed >= s.dailyCreditsUsed
    decreases |actions|
  {
    if actions != [] {
      UsedOnlyDropsOnResetOrStatus(s, actions[0]);
      UsedMonotone(Reduce(s, actions[0]), actions[1..]);
    }
  }

  /** `n` increments.  */
  function Increments(n: nat): (r: seq<Action>)
    ensures |r| == n && forall k :: 0 <= k < n ==> r[k] == IncrementCreditsUsed
  {
    seq(n, k => IncrementCreditsUsed)
  }

  /** A free user's count goes up by one per increment with no cap at the
      limit; a paid user's state does not change at all. */
  lemma {:induction false} IncrementsUncapped(s: Fields, n: nat)
    ensures var t := Run(s, Increments(n));
      (!s.isPro ==> t == s.(dailyCreditsUsed := s.dailyCreditsUsed + n)) &&
      (s.isPro ==> t == s)
    decreases n
  {
    if n > 0 {
      var acts := Increments(n);
      assert acts[1..] == Increments(n - 1);
      IncrementsUncapped(Reduce(s, IncrementCreditsUsed), n - 1);
    }
  }

  /** A free user can go past the limit: eleven uses from the initial
      state leave eleven credits used against a limit of ten. */
  lemma PastTheLimit()
    ensures var t := Run(Initial, Increments(11));
      t.dailyCreditsUsed == 11 && t.dailyCreditsLimit == Finite(10)
  {
    IncrementsUncapped(Initial, 11);
  }

  /** The limit after a new status is unlimited exactly when the payload
      says so, or when it gives none (or zero) for a paid user; a free user
      without a limit gets ten. */
  lemma StatusLimit(s: Fields, p: Status)
    ensures var t := Reduce(s, SetSubscriptionStatus(p));
      var given := p.dailyCreditsLimit.Some? && p.dailyCreditsLimit.value != Finite(0);
      (t.dailyCreditsLimit == Unlimited <==> (given && p.dailyCreditsLimit.value == Unlimited) || (!given && p.isPro)) &&
      (!given && !p.isPro ==> t.dailyCreditsLimit == Finite(10)) &&
      (given ==> t.dailyCreditsLimit == p.dailyCreditsLimit.value)
  {
  }

  /** A new status clears the error, keeps the loading flag, and takes the
      plan fields and the count from the payload (an absent count is 0). */
  lemma StatusFields(s: Fields, p: Status)
    ensures var t := Reduce(s, SetSubscriptionStatus(p));
      t.error == None && t.isLoading == s.isLoading &&
      t.isPro == p.isPro && t.planType == p.planType &&
      t.subscriptionEnd == p.subscriptionEnd && t.trialEnd == p.trialEnd &&
      (p.dailyCreditsUsed.None? ==> t.dailyCreditsUsed == 0) &&
      (p.dailyCreditsUsed.Some? ==> t.dailyCreditsUsed == p.dailyCreditsUsed.value)
  {
  }

  /** Resetting, loading and error actions change their own field and no
      other; a second reset changes nothing. */
  lemma OwnFieldOnly(s: Fields, b: bool, e: Option<string>)
    ensures Reduce(s, ResetDailyCredits) == s.(dailyCreditsUsed := 0)
    ensures Reduce(Reduce(s, ResetDailyCredits), ResetDailyCredits) == Reduce(s, ResetDailyCredits)
    ensures Reduce(s, SetLoading(b)) == s.(isLoading := b)
    ensures Reduce(s, SetError(e)) == s.(error := e)
  {
  }

  /** The store's slice, updated in place by its reducers. */
  class SubscriptionState {
    var isPro: bool
    var planType: Option<string>
    var subscriptionEnd: Option<string>
    var trialEnd: Option<string>
    var dailyCreditsUsed: nat
    var dailyCreditsLimit: Limit
    var isLoading: bool
    var error: Option<string>

    function Snapshot(): Fields
      reads this
    {
      Fields(isPro, planType, subscriptionEnd, trialEnd, dailyCreditsUsed, dailyCreditsLimit, isLoading, error)
    }

    /** `initialState`. */
    constructor ()
      ensures Snapshot() == Initial
      ensures !isPro && dailyCreditsUsed == 0 && dailyCreditsLimit == Finite(10) && !isLoading && error == None
    {
      isPro := false;
      planType := None;
      subscriptionEnd := None;
      trialEnd := None;
      dailyCreditsUsed := 0;
      dailyCreditsLimit := Finite(10);
      isLoading := false;
      error := None;
    }

    method SetSubscriptionStatus(p: Status)
      modifies this
      ensures Snapshot() == Reduce(old(Snapshot()), Action.SetSubscriptionStatus(p))
    {
      isPro := p.isPro;
      planType := p.planType;
      subscriptionEnd := p.subscriptionEnd;
      trialEnd := p.trialEnd;
      dailyCreditsUsed := UsedOrZero(p.dailyCreditsUsed);
      dailyCreditsLimit := LimitOrDefault(p.dailyCreditsLimit, p.isPro);
      error := None;
    }

    method IncrementCreditsUsed()
      modifies this
      ensures Snapshot() == Reduce(old(Snapshot()), Action.IncrementCreditsUsed)
      ensures dailyCreditsUsed == if old(isPro) then old(dailyCreditsUsed) else old(dailyCreditsUsed) + 1
    {
      if !isPro {
        dailyCreditsUsed := dailyCreditsUsed + 1;
      }
    }

    method ResetDailyCredits()
      modifies this
      ensures Snapshot() == Reduce(old(Snapshot()), Action.ResetDailyCredits)
    {
      dailyCreditsUsed := 0;
    }

    method SetLoading(loading: bool)
      modifies this
      ensures Snapshot() == Reduce(old(Snapshot()), Action.SetLoading(loading))
    {
      isLoading := loading;
    }

    method SetError(err: Option<string>)
      modifies this
      ensures Snapshot() == Reduce(old(Snapshot()), Action.SetError(err))
    {
      error := err;
    }
  }
}
