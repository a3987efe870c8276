/** src/common/RateLimiter.h: the per-address sliding-window limiter. Times are nanoseconds
    of a steady clock, read by calls that follow one another. */
module RateLimiter {
  const SECOND := 1_000_000_000

  // --------------------------------------------------------------- one address

  /** The recorded times still inside the window that ends now. */
  function Recent(times: seq<int>, cutoff: int): (r: seq<int>) {
    if times != [] && times[0] < cutoff then Recent(times[1..], cutoff) else times
  }

  /** The record after a request at `now`, and whether it is granted. */
  function Admit(times: seq<int>, now: int, window: int, max: int): (seq<int>, bool) {
    var kept := Recent(times, now - window);
    if |kept| >= max then (kept, false) else (kept + [now], true)
  }

  /** The record left by requests at `arrivals`, and the times granted. */
  function Serve(arrivals: seq<int>, window: int, max: int): (seq<int>, seq<int>) {
    if arrivals == [] then ([], [])
    else
      var n := |arrivals| - 1;
      var (times, grants) := Serve(arrivals[..n], window, max);
      var (times', ok) := Admit(times, arrivals[n], window, max);
      (times', if ok then grants + [arrivals[n]] else grants)
  }

  function Grants(arrivals: seq<int>, window: int, max: int): seq<int> {
    Serve(arrivals, window, max).1
  }

  predicate Ascending(s: seq<int>) { forall i, j :: 0 <= i < j < |s| ==> s[i] <= s[j] }

  /** Of any `max + 1` consecutive accepted times the last is more than a window later. */
  predicate Spaced(accepted: seq<int>, window: int, max: nat) {
    forall i :: max <= i < |accepted| ==> accepted[i] - accepted[i - max] > window
  }

  lemma {:induction false} RecentIsSuffix(times: seq<int>, cutoff: int)
    requires Ascending(times)
    ensures var r := Recent(times, cutoff);
            && |r| <= |times| && r == times[|times| - |r|..]
            && (forall i :: 0 <= i < |times| - |r| ==> times[i] < cutoff)
            && (forall i :: |times| - |r| <= i < |times| ==> times[i] >= cutoff)
  {
    if times != [] && times[0] < cutoff {
      RecentIsSuffix(times[1..], cutoff);
      var r := Recent(times[1..], cutoff);
      assert times[1..][|times[1..]| - |r|..] == times[|times| - |r|..];
      forall i | 0 <= i < |times| - |r| ensures times[i] < cutoff {
        assert i > 0 ==> times[i] == times[1..][i - 1];
      }
      forall i | |times| - |r| <= i < |times| ensures times[i] >= cutoff {
        assert times[i] == times[1..][i - 1];
      }
    }
  }

  /** The record is the tail of the grants: what fell out is older than the window. */
  ghost predicate TailOf(times: seq<int>, grants: seq<int>, now: int, window: int) {
    && |times| <= |grants| && times == grants[|grants| - |times|..]
    && forall i :: 0 <= i < |grants| - |times| ==> grants[i] < now - window
  }

  /** What holds after requests up to `now`. */
  ghost predicate Invariant(times: seq<int>, grants: seq<int>, now: int, window: int, max: nat) {
    && Ascending(grants) && Spaced(grants, window, max) && |times| <= max
    && TailOf(times, grants, now, window)
    && (grants != [] ==> grants[|grants| - 1] <= now)
  }

  lemma KeptIsTail(times: seq<int>, grants: seq<int>, before: int, now: int, window: int)
    requires before <= now && Ascending(grants) && TailOf(times, grants, before, window)
    ensures var kept := Recent(times, now - window);
            && TailOf(kept, grants, now, window) && |kept| <= |times|
            && forall i :: 0 <= i < |kept| ==> kept[i] >= now - window
  {
    RecentIsSuffix(times, now - window);
    var kept := Recent(times, now - window);
    var g, k, t := |grants|, |kept|, |times|;
    assert grants[g - t..][t - k..] == grants[g - k..];
    assert times[t - k..] == grants[g - k..];
    forall i | 0 <= i < g - k ensures grants[i] < now - window {
      if i >= g - t { assert grants[i] == times[i - (g - t)]; }
    }
    forall i | 0 <= i < k ensures kept[i] >= now - window {
      assert kept[i] == times[t - k + i];
    }
  }

  lemma GrantKeeps(kept: seq<int>, grants: seq<int>, now: int, window: int, max: nat)
    requires Ascending(grants) && Spaced(grants, window, max) && |kept| < max
    requires TailOf(kept, grants, now, window) && (grants != [] ==> grants[|grants| - 1] <= now)
    ensures Invariant(kept + [now], grants + [now], now, window, max)
  {
    GrantIsSpaced(kept, grants, now, window, max);
    GrantIsLast(kept, grants, now, window);
    hide Spaced, TailOf, Ascending;
  }

  lemma GrantIsLast(kept: seq<int>, grants: seq<int>, now: int, window: int)
    requires Ascending(grants) && TailOf(kept, grants, now, window) && (grants != [] ==> grants[|grants| - 1] <= now)
    ensures Ascending(grants + [now]) && TailOf(kept + [now], grants + [now], now, window)
  {
    var g, k := |grants|, |kept|;
    assert (grants + [now])[g - k..] == grants[g - k..] + [now];
  }

  lemma GrantIsSpaced(kept: seq<int>, grants: seq<int>, now: int, window: int, max: nat)
    requires Spaced(grants, window, max) && |kept| < max && TailOf(kept, grants, now, window)
    ensures Spaced(grants + [now], window, max)
  {
    var g, all := |grants|, grants + [now];
    forall i | max <= i < |all| ensures all[i] - all[i - max] > window {
      if i == g { assert all[i - max] == grants[g - max] < now - window; }
    }
  }

  lemma AdmitKeeps(times: seq<int>, grants: seq<int>, before: int, now: int, window: int, max: nat)
    requires before <= now && Invariant(times, grants, before, window, max)
    ensures var (times', ok) := Admit(times, now, window, max);
            Invariant(times', if ok then grants + [now] else grants, now, window, max)
  {
    KeptIsTail(times, grants, before, now, window);
    var kept := Recent(times, now - window);
    if |kept| < max { GrantKeeps(kept, grants, now, window, max); }
  }

  lemma {:induction false} ServeInvariant(arrivals: seq<int>, window: int, max: nat)
    requires Ascending(arrivals) && arrivals != []
    ensures var (times, grants) := Serve(arrivals, window, max);
            Invariant(times, grants, arrivals[|arrivals| - 1], window, max)
    decreases |arrivals|
  {
    hide Invariant, Admit;
    var n := |arrivals| - 1;
    if n == 0 {
      EmptyInvariant(arrivals[0], window, max);
      AdmitKeeps([], [], arrivals[0], arrivals[0], window, max);
    } else {
      ServeInvariant(arrivals[..n], window, max);
      var (times, grants) := Serve(arrivals[..n], window, max);
      AdmitKeeps(times, grants, arrivals[n - 1], arrivals[n], window, max);
    }
  }

  lemma EmptyInvariant(now: int, window: int, max: nat)
    ensures Invariant([], [], now, window, max)
  {}

  /** Between resets, any grant is more than a window after the grant `max` places earlier. */
  lemma GrantsAreSpaced(arrivals: seq<int>, window: int, max: nat)
    requires Ascending(arrivals)
    ensures Spaced(Grants(arrivals, window, max), window, max)
    ensures Ascending(Grants(arrivals, window, max))
  {
    if arrivals != [] { ServeInvariant(arrivals, window, max); }
  }

  // ------------------------------------------------------------------ optimality

  /** The arrivals a policy accepts. */
  function Chosen(arrivals: seq<int>, choice: seq<bool>): (r: seq<int>)
    requires |choice| == |arrivals|
  {
    if arrivals == [] then []
    else
      var n := |arrivals| - 1;
      Chosen(arrivals[..n], choice[..n]) + if choice[n] then [arrivals[n]] else []
  }

  /** Grant by grant the limiter is never behind another policy. */
  ghost predicate Ahead(grants: seq<int>, other: seq<int>) {
    && |grants| >= |other|
    && forall i :: 0 <= i < |other| ==> grants[i] <= other[i]
  }

  lemma SpacedPrefix(accepted: seq<int>, more: seq<int>, window: int, max: nat)
    requires Spaced(accepted + more, window, max)
    ensures Spaced(accepted, window, max)
  {
    forall i | max <= i < |accepted| ensures accepted[i] - accepted[i - max] > window {
      assert (accepted + more)[i] == accepted[i];
      assert (accepted + more)[i - max] == accepted[i - max];
    }
  }

  /** A policy that is not behind and accepts what the limiter refuses breaks the spacing. */
  lemma RefusalIsForced(kept: seq<int>, grants: seq<int>, other: seq<int>, now: int, window: int, max: nat)
    requires 0 < max <= |kept| <= |grants| == |other| && kept == grants[|grants| - |kept|..]
    requires Ahead(grants, other) && forall i :: 0 <= i < |kept| ==> kept[i] >= now - window
    ensures !Spaced(other + [now], window, max)
  {
    var g, all := |grants|, other + [now];
    assert grants[g - max] == kept[|kept| - max];
    assert all[g] - all[g - max] == now - other[g - max] <= window;
  }

  /** One more request keeps the limiter ahead. */
  lemma AdmitStaysAhead(times: seq<int>, grants: seq<int>, other: seq<int>, take: bool,
                        before: int, now: int, window: int, max: nat)
    requires before <= now && max > 0 && Invariant(times, grants, before, window, max)
    requires Ahead(grants, other) && Spaced(other + if take then [now] else [], window, max)
    ensures var (_, ok) := Admit(times, now, window, max);
            Ahead(if ok then grants + [now] else grants, other + if take then [now] else [])
  {
    KeptIsTail(times, grants, before, now, window);
    var kept := Recent(times, now - window);
    if take && |kept| >= max && |other| == |grants| {
      RefusalIsForced(kept, grants, other, now, window, max);
    }
  }

  /** Among all ways of accepting the arrivals that keep the grants spaced, none has accepted
      more than the limiter, on any prefix of the arrivals. */
  lemma {:induction false} LimiterIsOptimal(arrivals: seq<int>, choice: seq<bool>, window: int, max: nat)
    requires |choice| == |arrivals| && Ascending(arrivals) && max > 0
    requires Spaced(Chosen(arrivals, choice), window, max)
    ensures Ahead(Grants(arrivals, window, max), Chosen(arrivals, choice))
    decreases |arrivals|
  {
    if arrivals != [] {
      hide Invariant, Admit, Spaced, Ahead;
      var n := |arrivals| - 1;
      var rest, other := arrivals[..n], Chosen(arrivals[..n], choice[..n]);
      SpacedPrefix(other, if choice[n] then [arrivals[n]] else [], window, max);
      LimiterIsOptimal(rest, choice[..n], window, max);
      var (times, grants) := Serve(rest, window, max);
      var before := if n > 0 then arrivals[n - 1] else arrivals[n];
      if n > 0 { ServeInvariant(rest, window, max); } else { EmptyInvariant(before, window, max); }
      AdmitStaysAhead(times, grants, other, choice[n], before, arrivals[n], window, max);
    } else {
      assert Chosen(arrivals, choice) == [];
    }
  }

  lemma {:induction false} ChosenPrefix(arrivals: seq<int>, choice: seq<bool>, k: nat)
    requires |choice| == |arrivals| && k <= |arrivals|
    ensures Chosen(arrivals[..k], choice[..k]) <= Chosen(arrivals, choice)
    decreases |arrivals|
  {
    if k == |arrivals| {
      assert arrivals[..k] == arrivals && choice[..k] == choice;
    } else {
      var n := |arrivals| - 1;
      ChosenPrefix(arrivals[..n], choice[..n], k);
      assert arrivals[..n][..k] == arrivals[..k] && choice[..n][..k] == choice[..k];
    }
  }

  lemma LimiterAcceptsMost(arrivals: seq<int>, choice: seq<bool>, window: int, max: nat, k: nat)
    requires |choice| == |arrivals| && Ascending(arrivals) && max > 0 && k <= |arrivals|
    requires Spaced(Chosen(arrivals, choice), window, max)
    ensures |Chosen(arrivals[..k], choice[..k])| <= |Grants(arrivals[..k], window, max)|
  {
    ChosenPrefix(arrivals, choice, k);
    var c, all := Chosen(arrivals[..k], choice[..k]), Chosen(arrivals, choice);
    assert all == c + all[|c|..];
    SpacedPrefix(c, all[|c|..], window, max);
    LimiterIsOptimal(arrivals[..k], choice[..k], window, max);
  }

  /** A limit of zero or less grants nothing. */
  lemma {:induction false} NoLimitNoGrants(arrivals: seq<int>, window: int, max: int)
    requires max <= 0
    ensures Grants(arrivals, window, max) == []
    decreases |arrivals|
  {
    if arrivals != [] { NoLimitNoGrants(arrivals[..|arrivals| - 1], window, max); }
  }

  // --------------------------------------------------------------- all addresses

  datatype Event = Request(ip: string, at: int) | Reset(ip: string)

  function TimesOf(records: map<string, seq<int>>, ip: string): seq<int> {
    if ip in records then records[ip] else []
  }

  /** The first `k` times are over; the next one is still in the window that starts at `cutoff`. */
  predicate ForgetsFirst(times: seq<int>, k: int, cutoff: int) {
    && 0 <= k <= |times| && (forall i :: 0 <= i < k ==> times[i] < cutoff)
    && (k < |times| ==> times[k] >= cutoff)
  }

  /** The class: one record per address. */
  class RateLimiter {
    var records: map<string, seq<int>>
    const maxRequests: int
    const windowSec: int

    constructor (maxRequests: int, windowSec: int)
      ensures records == map[] && this.maxRequests == maxRequests && this.windowSec == windowSec
    {
      this.maxRequests, this.windowSec := maxRequests, windowSec;
      records := map[];
    }

    method Allow(ip: string, now: int) returns (ok: bool)
      modifies this
      ensures var (times, granted) := Admit(TimesOf(old(records), ip), now, windowSec * SECOND, maxRequests);
              records == old(records)[ip := times] && ok == granted
      ensures exists k :: ForgetsFirst(TimesOf(old(records), ip), k, now - windowSec * 1_000_000_000)
                          && (ok <==> |TimesOf(old(records), ip)| - k < maxRequests)
                          && records == old(records)[ip := TimesOf(old(records), ip)[k..] + if ok then [now] else []]
    {
      var timestamps := if ip in records then records[ip] else [];
      var cutoff := now - windowSec * SECOND;
      ghost var before, k := timestamps, 0;
      while timestamps != [] && timestamps[0] < cutoff
        invariant Recent(before, cutoff) == Recent(timestamps, cutoff)
        invariant 0 <= k <= |before| && timestamps == before[k..] && forall i :: 0 <= i < k ==> before[i] < cutoff
        decreases |timestamps|
      {
        timestamps := timestamps[1..];
        k := k + 1;
      }
      assert ForgetsFirst(before, k, now - windowSec * 1_000_000_000);
      assert timestamps + [] == timestamps;
      ok := |timestamps| < maxRequests;
      if ok {
        timestamps := timestamps + [now];
      }
      records := records[ip := timestamps];
    }

    method ResetAddress(ip: string)
      modifies this
      ensures records == old(records) - {ip}
    {
      records := records - {ip};
    }
  }

  /** The records after a sequence of calls. */
  function Run(events: seq<Event>, window: int, max: int): map<string, seq<int>> {
    if events == [] then map[]
    else
      var n := |events| - 1;
      var records := Run(events[..n], window, max);
      match events[n]
      case Request(ip, at) => records[ip := Admit(TimesOf(records, ip), at, window, max).0]
      case Reset(ip) => records - {ip}
  }

  /** The times granted to `ip` since its last reset. */
  function Granted(events: seq<Event>, ip: string, window: int, max: int): seq<int> {
    if events == [] then []
    else
      var n := |events| - 1;
      var before := Granted(events[..n], ip, window, max);
      match events[n]
      case Request(who, at) =>
        if who == ip && Admit(TimesOf(Run(events[..n], window, max), ip), at, window, max).1 then before + [at]
        else before
      case Reset(who) => if who == ip then [] else before
  }

  /** The requests of `ip` since its last reset. */
  function Requests(events: seq<Event>, ip: string): seq<int> {
    if events == [] then []
    else
      var n := |events| - 1;
      var before := Requests(events[..n], ip);
      match events[n]
      case Request(who, at) => if who == ip then before + [at] else before
      case Reset(who) => if who == ip then [] else before
  }

  /** Addresses do not disturb each other, and a reset starts an address afresh. */
  lemma {:induction false} AddressesAreIndependent(events: seq<Event>, ip: string, window: int, max: int)
    ensures (TimesOf(Run(events, window, max), ip), Granted(events, ip, window, max))
            == Serve(Requests(events, ip), window, max)
    decreases |events|
  {
    if events != [] {
      var n := |events| - 1;
      AddressesAreIndependent(events[..n], ip, window, max);
      match events[n]
      case Request(who, at) =>
        if who == ip {
          var arrivals := Requests(events[..n], ip) + [at];
          assert arrivals[..|arrivals| - 1] == Requests(events[..n], ip);
        }
      case Reset(who) =>
    }
  }

  ghost predicate ClockMonotone(events: seq<Event>) {
    forall i, j :: 0 <= i < j < |events| && events[i].Request? && events[j].Request? ==> events[i].at <= events[j].at
  }

  lemma {:induction false} RequestsAscend(events: seq<Event>, ip: string)
    requires ClockMonotone(events)
    ensures Ascending(Requests(events, ip))
    ensures forall t :: t in Requests(events, ip) ==>
              exists i :: 0 <= i < |events| && events[i].Request? && events[i].at == t
    decreases |events|
  {
    if events != [] {
      var n := |events| - 1;
      RequestsAscend(events[..n], ip);
      var before := Requests(events[..n], ip);
      forall t | t in before
        ensures exists i :: 0 <= i < |events| && events[i].Request? && events[i].at == t
      {
        var i :| 0 <= i < n && events[..n][i].Request? && events[..n][i].at == t;
        assert events[i].at == t;
      }
      if events[n].Request? && events[n].ip == ip {
        forall i | 0 <= i < |before| ensures before[i] <= events[n].at {
          assert before[i] in before;
        }
      }
    }
  }

  /** Under a monotone clock, whatever the other addresses do: the grants of an address
      between resets are spaced, and no other spaced choice among its requests is larger. */
  lemma EveryAddressIsLimited(events: seq<Event>, ip: string, choice: seq<bool>, window: int, max: nat)
    requires ClockMonotone(events) && max > 0
    requires |choice| == |Requests(events, ip)|
    requires Spaced(Chosen(Requests(events, ip), choice), window, max)
    ensures Spaced(Granted(events, ip, window, max), window, max)
    ensures |Chosen(Requests(events, ip), choice)| <= |Granted(events, ip, window, max)|
  {
    AddressesAreIndependent(events, ip, window, max);
    RequestsAscend(events, ip);
    GrantsAreSpaced(Requests(events, ip), window, max);
    LimiterIsOptimal(Requests(events, ip), choice, window, max);
  }
}
