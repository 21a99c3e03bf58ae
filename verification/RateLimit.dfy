/** The per-client sliding-window rate limiter. Time is counted from the earliest
    instant the clock can represent and is an argument of every call. */
module RateLimit {

  /** An address; version 6 addresses have eight 16-bit segments. */
  datatype IpAddr = V4(address: nat) | V6(network: seq<nat>, host: seq<nat>)

  /** All hosts of one /64 network count as one client. */
  function Normalize(ip: IpAddr): IpAddr {
    match ip
    case V4(_) => ip
    case V6(network, _) => V6(network, [0, 0, 0, 0])
  }

  /** The same address, or two hosts of one version 6 network. */
  predicate SameClient(ip: IpAddr, other: IpAddr) {
    ip == other || (ip.V6? && other.V6? && ip.network == other.network)
  }

  lemma NormalizeIff(ip: IpAddr, other: IpAddr)
    ensures Normalize(ip) == Normalize(other) <==> SameClient(ip, other)
  {
  }

  /** `now.checked_sub(window).unwrap_or(now)`. */
  function Cutoff(now: nat, window: nat): nat {
    if now >= window then now - window else now
  }

  /** `retain`: the timestamps from the cutoff on. */
  function Prune(ts: seq<nat>, cutoff: nat): (r: seq<nat>)
    ensures |r| <= |ts|
  {
    if |ts| == 0 then []
    else if ts[0] >= cutoff then [ts[0]] + Prune(ts[1..], cutoff)
    else Prune(ts[1..], cutoff)
  }

  /** One request: is it let through, and what is remembered. */
  function Admit(entry: seq<nat>, now: nat, max: nat, window: nat): (r: (bool, seq<nat>))
    ensures r.0 ==> |r.1| <= max
  {
    var kept := Prune(entry, Cutoff(now, window));
    if |kept| >= max then (false, kept) else (true, kept + [now])
  }

  class RateLimitState {
    const maxRequests: nat
    const window: nat
    var clients: map<IpAddr, seq<nat>>

    constructor (maxRequests: nat, window: nat)
      ensures clients == map[] && this.maxRequests == maxRequests && this.window == window
    {
      this.maxRequests, this.window, clients := maxRequests, window, map[];
    }

    function Entry(ip: IpAddr): seq<nat>
      reads this
    {
      if Normalize(ip) in clients then clients[Normalize(ip)] else []
    }

    method CheckAndRecord(ip: IpAddr, now: nat) returns (ok: bool)
      modifies this
      ensures (ok, Entry(ip)) == Admit(old(Entry(ip)), now, maxRequests, window)
      ensures forall other :: Entry(other) == if SameClient(ip, other) then Entry(ip) else old(Entry(other))
    {
      var client := Normalize(ip);
      var entry := Entry(ip);
      entry := Prune(entry, Cutoff(now, window));
      if |entry| >= maxRequests {
        clients := clients[client := entry];
        return false;
      }
      entry := entry + [now];
      clients := clients[client := entry];
      return true;
    }
  }

  // ---- runs of one client ----

  /** The remembered timestamps and all accepted ones after the given arrivals. */
  function Process(arrivals: seq<nat>, max: nat, window: nat): (seq<nat>, seq<nat>) {
    if |arrivals| == 0 then ([], [])
    else
      var k := |arrivals| - 1;
      var (entry, accepted) := Process(arrivals[..k], max, window);
      var (ok, after) := Admit(entry, arrivals[k], max, window);
      (after, if ok then accepted + [arrivals[k]] else accepted)
  }

  ghost predicate Ordered(ts: seq<nat>) {
    forall i, j :: 0 <= i < j < |ts| ==> ts[i] <= ts[j]
  }

  /** Any max + 1 accepted requests in a row span more than the window. */
  ghost predicate Limited(accepted: seq<nat>, max: nat, window: nat) {
    forall i :: 0 <= i && i + max < |accepted| ==> accepted[i] + window < accepted[i + max]
  }

  /** What is remembered is a tail of what was accepted, and what was forgotten lies
      more than a window back. */
  ghost predicate Remembers(entry: seq<nat>, accepted: seq<nat>, now: nat, window: nat) {
    && |entry| <= |accepted|
    && entry == accepted[|accepted| - |entry|..]
    && Ordered(accepted)
    && (forall i :: 0 <= i < |accepted| ==> accepted[i] <= now)
    && (forall i :: 0 <= i < |accepted| - |entry| ==> accepted[i] + window < now)
  }

  /** Pruning an ordered list drops a prefix. */
  lemma {:induction false} PruneIsTail(ts: seq<nat>, cutoff: nat)
    requires Ordered(ts)
    ensures Prune(ts, cutoff) == ts[|ts| - |Prune(ts, cutoff)|..]
    ensures forall i :: 0 <= i < |ts| - |Prune(ts, cutoff)| ==> ts[i] < cutoff
    ensures forall i :: |ts| - |Prune(ts, cutoff)| <= i < |ts| ==> ts[i] >= cutoff
  {
    if |ts| > 0 {
      PruneIsTail(ts[1..], cutoff);
      if ts[0] >= cutoff {
        assert forall i :: 0 <= i < |ts| ==> ts[i] >= cutoff;
        PruneKeepsAll(ts, cutoff);
      } else {
        assert forall i :: 1 <= i < |ts| ==> ts[i] == ts[1..][i - 1];
      }
    }
  }

  lemma {:induction false} PruneKeepsAll(ts: seq<nat>, cutoff: nat)
    requires forall i :: 0 <= i < |ts| ==> ts[i] >= cutoff
    ensures Prune(ts, cutoff) == ts
  {
    if |ts| > 0 {
      PruneKeepsAll(ts[1..], cutoff);
    }
  }

  /** The limit leaves room for a request now. */
  ghost predicate HasRoom(accepted: seq<nat>, now: nat, max: nat, window: nat) {
    max > 0 && (|accepted| < max || accepted[|accepted| - max] + window < now)
  }

  /** The clock has run for a whole window, or does so with the first tick after the
      first request. */
  ghost predicate LongRunning(start: nat, window: nat) {
    start + 1 >= window
  }

  /** Once the clock is long running, the cutoff separates what is more than a window
      back from the rest. */
  lemma CutoffExact(t: nat, now: nat, window: nat, start: nat)
    requires start <= t <= now && LongRunning(start, window)
    ensures t < Cutoff(now, window) <==> t + window < now
  {
  }

  lemma TailOfTail(whole: seq<nat>, tail: seq<nat>, rest: seq<nat>)
    requires |rest| <= |tail| <= |whole|
    requires tail == whole[|whole| - |tail|..] && rest == tail[|tail| - |rest|..]
    ensures rest == whole[|whole| - |rest|..]
  {
  }

  lemma PruneSplits(entry: seq<nat>, accepted: seq<nat>, clock: nat, now: nat, window: nat, start: nat, i: nat)
    requires Remembers(entry, accepted, clock, window) && start <= clock <= now && LongRunning(start, window)
    requires i < |accepted| && accepted[i] >= start
    ensures i < |accepted| - |Prune(entry, Cutoff(now, window))| <==> accepted[i] + window < now
  {
    var shift := |accepted| - |entry|;
    if i >= shift {
      PruneIsTail(entry, Cutoff(now, window));
      assert accepted[i] == entry[i - shift];
      CutoffExact(accepted[i], now, window, start);
    }
  }

  lemma PruneKeepsTail(entry: seq<nat>, accepted: seq<nat>, clock: nat, now: nat, window: nat, start: nat)
    requires Remembers(entry, accepted, clock, window) && start <= clock <= now && LongRunning(start, window)
    requires forall i :: 0 <= i < |accepted| ==> accepted[i] >= start
    ensures Remembers(Prune(entry, Cutoff(now, window)), accepted, now, window)
    ensures var kept := Prune(entry, Cutoff(now, window));
            forall i :: |accepted| - |kept| <= i < |accepted| ==> accepted[i] + window >= now
  {
    var kept := Prune(entry, Cutoff(now, window));
    assert kept == accepted[|accepted| - |kept|..] by {
      PruneIsTail(entry, Cutoff(now, window));
      TailOfTail(accepted, entry, kept);
    }
    forall i: nat | i < |accepted|
      ensures i < |accepted| - |kept| <==> accepted[i] + window < now
    {
      PruneSplits(entry, accepted, clock, now, window, start, i);
    }
  }

  /** A request is let through exactly when the limit leaves room for it. */
  lemma AdmitIff(entry: seq<nat>, accepted: seq<nat>, clock: nat, now: nat, max: nat, window: nat, start: nat)
    requires Remembers(entry, accepted, clock, window) && start <= clock <= now && LongRunning(start, window)
    requires forall i :: 0 <= i < |accepted| ==> accepted[i] >= start
    ensures var (ok, after) := Admit(entry, now, max, window);
            && (ok <==> HasRoom(accepted, now, max, window))
            && Remembers(after, if ok then accepted + [now] else accepted, now, window)
  {
    PruneKeepsTail(entry, accepted, clock, now, window, start);
  }

  ghost predicate From(arrivals: seq<nat>, start: nat) {
    Ordered(arrivals) && forall i :: 0 <= i < |arrivals| ==> arrivals[i] >= start
  }

  lemma LimitedAppend(accepted: seq<nat>, now: nat, max: nat, window: nat)
    requires Limited(accepted, max, window) && HasRoom(accepted, now, max, window)
    ensures Limited(accepted + [now], max, window)
  {
  }

  ghost predicate InLimit(entry: seq<nat>, accepted: seq<nat>, clock: nat, max: nat, window: nat, start: nat) {
    && Remembers(entry, accepted, clock, window)
    && (forall i :: 0 <= i < |accepted| ==> accepted[i] >= start)
    && Limited(accepted, max, window)
  }

  lemma StepInLimit(entry: seq<nat>, accepted: seq<nat>, clock: nat, now: nat, max: nat, window: nat, start: nat)
    requires InLimit(entry, accepted, clock, max, window, start) && start <= clock <= now && LongRunning(start, window)
    ensures var (ok, after) := Admit(entry, now, max, window);
            InLimit(after, if ok then accepted + [now] else accepted, now, max, window, start)
  {
    AdmitIff(entry, accepted, clock, now, max, window, start);
    if HasRoom(accepted, now, max, window) {
      LimitedAppend(accepted, now, max, window);
    }
  }

  function Clock(arrivals: seq<nat>, start: nat): nat {
    if |arrivals| == 0 then start else arrivals[|arrivals| - 1]
  }

  lemma {:induction false} RunIsLimited(arrivals: seq<nat>, max: nat, window: nat, start: nat)
    requires From(arrivals, start) && LongRunning(start, window)
    ensures var (entry, accepted) := Process(arrivals, max, window);
            InLimit(entry, accepted, Clock(arrivals, start), max, window, start)
  {
    if |arrivals| > 0 {
      var k := |arrivals| - 1;
      var front := arrivals[..k];
      RunIsLimited(front, max, window, start);
      var (entry, accepted) := Process(front, max, window);
      StepInLimit(entry, accepted, Clock(front, start), arrivals[k], max, window, start);
    }
  }

  // ---- exactly when the limit can be relied on ----

  ghost predicate AlwaysLimited(max: nat, window: nat, start: nat) {
    forall arrivals :: From(arrivals, start) ==> Limited(Process(arrivals, max, window).1, max, window)
  }

  lemma {:induction false} PruneDropsAll(ts: seq<nat>, cutoff: nat)
    requires forall i :: 0 <= i < |ts| ==> ts[i] < cutoff
    ensures Prune(ts, cutoff) == []
  {
    if |ts| > 0 {
      PruneDropsAll(ts[1..], cutoff);
    }
  }

  function Burst(start: nat, k: nat): (b: seq<nat>)
    ensures |b| == k && forall i :: 0 <= i < k ==> b[i] == start
  {
    seq(k, _ => start)
  }

  lemma {:induction false} BurstAccepted(start: nat, k: nat, max: nat, window: nat)
    requires k <= max && start < window
    ensures Process(Burst(start, k), max, window) == (Burst(start, k), Burst(start, k))
  {
    if k > 0 {
      BurstAccepted(start, k - 1, max, window);
      assert Burst(start, k)[..k - 1] == Burst(start, k - 1);
      PruneKeepsAll(Burst(start, k - 1), start);
      assert Burst(start, k - 1) + [start] == Burst(start, k);
    }
  }

  /** A burst at the start, and one request more one tick later. */
  lemma EarlyBurstBreaksLimit(max: nat, window: nat, start: nat)
    requires max > 0 && !LongRunning(start, window)
    ensures var arrivals := Burst(start, max) + [start + 1];
            From(arrivals, start) && !Limited(Process(arrivals, max, window).1, max, window)
  {
    var burst := Burst(start, max);
    var arrivals := burst + [start + 1];
    BurstAccepted(start, max, max, window);
    assert arrivals[..max] == burst;
    PruneDropsAll(burst, start + 1);
    var accepted := Process(arrivals, max, window).1;
    assert accepted == burst + [start + 1];
    assert accepted[0] + window >= accepted[0 + max];
  }

  lemma {:induction false} ZeroAcceptsNothing(arrivals: seq<nat>, window: nat)
    ensures Process(arrivals, 0, window).1 == []
  {
    if |arrivals| > 0 {
      ZeroAcceptsNothing(arrivals[..|arrivals| - 1], window);
    }
  }

  /** A non-zero limit holds in every run of a client exactly when its first request
      comes no more than one tick before the clock has run for a whole window: earlier,
      the cutoff falls back to the present and everything before it is forgotten. */
  lemma LimitHoldsIff(max: nat, window: nat, start: nat)
    ensures AlwaysLimited(max, window, start) <==> max == 0 || LongRunning(start, window)
  {
    if max == 0 {
      forall arrivals | From(arrivals, start)
        ensures Limited(Process(arrivals, max, window).1, max, window)
      {
        ZeroAcceptsNothing(arrivals, window);
      }
    } else if LongRunning(start, window) {
      forall arrivals | From(arrivals, start)
        ensures Limited(Process(arrivals, max, window).1, max, window)
      {
        RunIsLimited(arrivals, max, window, start);
      }
    } else {
      EarlyBurstBreaksLimit(max, window, start);
    }
  }
}
