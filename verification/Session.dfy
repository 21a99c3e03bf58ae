/** A live session: access to the keys for trusted requests is gated by the replay
    strategy, and only a closure that succeeds commits its nonce. */
module Session {
  import opened Bytes
  import opened AeadNonce
  import opened ReplayGuard

  datatype ReplayStrategy = StrictMonotonic | SlidingWindow

  datatype Outcome =
    | Expired
    | NotAttested
    | ReplayRefused
    | Overflow
    | Ran(counter: nat, ok: bool)  // the closure ran with this counter

  /** The window that every session uses. */
  const WORDS: nat := 64

  ghost predicate Increasing(xs: seq<nat>) {
    forall i, j :: 0 <= i < j < |xs| ==> xs[i] < xs[j]
  }

  /** Does the replay check let the nonce through? */
  ghost predicate Passes(strategy: ReplayStrategy, committed: seq<nat>, lastSeen: nat, nonce: nat) {
    match strategy
    case SlidingWindow => Specified(committed, WORDS, nonce) == ReplayGuard.Ok
    case StrictMonotonic => nonce > lastSeen
  }

  /** What both strategies keep about the nonces whose closures succeeded. */
  ghost predicate Consistent(strategy: ReplayStrategy, committed: seq<nat>, lastSeen: nat) {
    match strategy
    case SlidingWindow => Disciplined(committed, WORDS)
    case StrictMonotonic => Increasing(committed) && forall i :: 0 <= i < |committed| ==> committed[i] <= lastSeen
  }

  lemma CommitKeepsConsistent(strategy: ReplayStrategy, committed: seq<nat>, lastSeen: nat, nonce: nat)
    requires Consistent(strategy, committed, lastSeen) && Passes(strategy, committed, lastSeen, nonce)
    ensures Consistent(strategy, committed + [nonce], if strategy.StrictMonotonic? then nonce else lastSeen)
  {
    if strategy.SlidingWindow? {
      DisciplineKept(committed, WORDS, nonce);
    }
  }

  /** In every run, under either strategy and whichever closures fail, no nonce is
      committed twice, and a committed nonce is refused from then on. */
  lemma CommittedOnce(strategy: ReplayStrategy, committed: seq<nat>, lastSeen: nat, i: nat)
    requires Consistent(strategy, committed, lastSeen) && i < |committed|
    ensures !Passes(strategy, committed, lastSeen, committed[i])
    ensures forall j :: i < j < |committed| ==> committed[j] != committed[i]
  {
    if strategy.SlidingWindow? {
      AcceptedIsRefused(committed, WORDS, i);
      forall j | i < j < |committed|
        ensures committed[j] != committed[i]
      {
        AcceptedOnce(committed, WORDS, i, j);
      }
    }
  }

  class AttestSession {
    const strategy: ReplayStrategy
    const guard: ReplayGuardInner
    var strictLastSeen: nat
    var clientCounter: nat
    var serverCounter: nat
    ghost var committed: seq<nat>
    ghost var clientUsed: seq<nat>  // counters of the calls that returned a successful result
    ghost var serverUsed: seq<nat>

    ghost predicate Valid()
      reads this, guard, guard.window
    {
      && guard.Valid() && guard.window.Length == WORDS
      && (strategy.SlidingWindow? ==> guard.history == committed)
      && Consistent(strategy, committed, strictLastSeen)
      && clientCounter == |clientUsed| + 1 <= U64_MAX && Counted(clientUsed)
      && serverCounter == |serverUsed| + 1 <= U64_MAX && Counted(serverUsed)
    }

    constructor (strategy: ReplayStrategy)
      ensures Valid() && fresh(guard) && fresh(guard.window) && this.strategy == strategy
      ensures committed == [] && strictLastSeen == 0 && clientCounter == serverCounter == 1
    {
      this.strategy := strategy;
      guard := new ReplayGuardInner(WORDS);
      strictLastSeen, clientCounter, serverCounter := 0, 1, 1;
      committed, clientUsed, serverUsed := [], [], [];
    }

    /** `with_keys_for_trr`. `alive` and `permitted` are the expiry and phase checks,
        `closureOk` is what the closure returns. */
    method WithKeysForTrr(alive: bool, permitted: bool, nonce: nat, closureOk: bool) returns (r: Outcome)
      requires Valid()
      modifies this, guard, guard.window
      ensures Valid() && guard.window == old(guard.window)
      ensures r == if !alive then Expired
                   else if !permitted then NotAttested
                   else if !old(Passes(strategy, committed, strictLastSeen, nonce)) then ReplayRefused
                   else if closureOk && old(clientCounter) == U64_MAX then Overflow
                   else Ran(old(clientCounter), closureOk)
      ensures var commits := r == Overflow || (r.Ran? && r.ok);
              && committed == (if commits then old(committed) + [nonce] else old(committed))
              && clientUsed == (if r.Ran? && r.ok then old(clientUsed) + [r.counter] else old(clientUsed))
              && strictLastSeen == (if strategy.SlidingWindow? || !(r.Ran? || r.Overflow?) then old(strictLastSeen)
                                    else if commits then nonce else nonce - 1)
      ensures serverCounter == old(serverCounter) && serverUsed == old(serverUsed)
    {
      if !alive {
        return Expired;
      }
      if !permitted {
        return NotAttested;
      }
      match strategy {
        case SlidingWindow =>
          var v := guard.Check(nonce);
          if !v.Ok? {
            return ReplayRefused;
          }
        case StrictMonotonic =>
          if nonce <= strictLastSeen {
            return ReplayRefused;
          }
      }
      var counter := clientCounter;
      if closureOk {
        CommitKeepsConsistent(strategy, committed, strictLastSeen, nonce);
        match strategy {
          case SlidingWindow => guard.Accept(nonce);
          case StrictMonotonic => strictLastSeen := nonce;
        }
        committed := committed + [nonce];
        if clientCounter == U64_MAX {
          return Overflow;
        }
        clientCounter := clientCounter + 1;
        clientUsed := clientUsed + [counter];
      } else if strategy.StrictMonotonic? {
        strictLastSeen := nonce - 1;
      }
      return Ran(counter, closureOk);
    }

    /** `with_keys_for_next_trr`: the same with the client counter as the nonce. */
    method WithKeysForNextTrr(alive: bool, permitted: bool, closureOk: bool) returns (r: Outcome)
      requires Valid()
      modifies this, guard, guard.window
      ensures Valid() && guard.window == old(guard.window)
      ensures r == if !alive then Expired
                   else if !permitted then NotAttested
                   else if !old(Passes(strategy, committed, strictLastSeen, clientCounter)) then ReplayRefused
                   else if closureOk && old(clientCounter) == U64_MAX then Overflow
                   else Ran(old(clientCounter), closureOk)
      ensures alive && permitted && r != Overflow ==>
              Position(committed, strictLastSeen, clientCounter) ==
              NextCall(strategy, old(Position(committed, strictLastSeen, clientCounter)), closureOk)
      ensures serverCounter == old(serverCounter) && serverUsed == old(serverUsed)
    {
      r := WithKeysForTrr(alive, permitted, clientCounter, closureOk);
    }

    /** `with_keys_for_trs`: every call that returns uses a counter of its own. */
    method WithKeysForTrs(alive: bool, closureOk: bool) returns (r: Outcome)
      requires Valid()
      modifies this
      ensures Valid()
      ensures r == if !alive then Expired
                   else if old(serverCounter) == U64_MAX then Overflow
                   else Ran(old(serverCounter), closureOk)
      ensures serverUsed == if r.Ran? then old(serverUsed) + [r.counter] else old(serverUsed)
      ensures committed == old(committed) && clientUsed == old(clientUsed) && strictLastSeen == old(strictLastSeen)
    {
      if !alive {
        return Expired;
      }
      var counter := serverCounter;
      if serverCounter == U64_MAX {
        return Overflow;
      }
      serverCounter := serverCounter + 1;
      serverUsed := serverUsed + [counter];
      return Ran(counter, closureOk);
    }
  }

  ghost predicate Counted(used: seq<nat>) {
    forall i :: 0 <= i < |used| ==> used[i] == i + 1
  }

  /** No two successful calls of a session seal under the same AEAD nonce. */
  lemma SealNoncesDistinct(used: seq<nat>, iv: Iv, i: nat, j: nat)
    requires Counted(used) && |used| < U64_MAX && i < j < |used|
    ensures Nonce(iv, used[i]) != Nonce(iv, used[j])
  {
    if Nonce(iv, used[i]) == Nonce(iv, used[j]) {
      NonceInjective(iv, used[i], used[j]);
    }
  }

  // ---- a failed closure ----

  /** What a call whose closure fails leaves in `strictLastSeen`. */
  function AfterFailure(strategy: ReplayStrategy, lastSeen: nat, nonce: nat): nat
    requires nonce > 0
  {
    if strategy.StrictMonotonic? then nonce - 1 else lastSeen
  }

  /** A failed call leaves every later answer of the replay check as it was exactly
      when the strategy is the sliding window or the nonce was the next one. */
  lemma FailureLeavesNoTraceIff(strategy: ReplayStrategy, committed: seq<nat>, lastSeen: nat, nonce: nat)
    requires Passes(strategy, committed, lastSeen, nonce)
    ensures nonce > 0
    ensures (forall n :: Passes(strategy, committed, AfterFailure(strategy, lastSeen, nonce), n) <==>
                         Passes(strategy, committed, lastSeen, n))
            <==> strategy.SlidingWindow? || nonce == lastSeen + 1
  {
    if strategy.StrictMonotonic? && nonce != lastSeen + 1 {
      assert Passes(strategy, committed, lastSeen, nonce - 1);
      assert !Passes(strategy, committed, nonce - 1, nonce - 1);
    }
  }

  // ---- the next counter as nonce ----

  /** What decides about next-counter calls. */
  datatype Position = Position(committed: seq<nat>, lastSeen: nat, counter: nat)

  /** `with_keys_for_next_trr` on a live session: a call that is refused changes nothing,
      one whose closure fails leaves the counter where it is. */
  ghost function NextCall(strategy: ReplayStrategy, g: Position, ok: bool): Position {
    if !NextPasses(strategy, g) then g
    else if ok then
      Position(g.committed + [g.counter], if strategy.StrictMonotonic? then g.counter else g.lastSeen, g.counter + 1)
    else g.(lastSeen := AfterFailure(strategy, g.lastSeen, g.counter))
  }

  ghost predicate NextPasses(strategy: ReplayStrategy, g: Position) {
    Passes(strategy, g.committed, g.lastSeen, g.counter)
  }

  ghost function NextCalls(strategy: ReplayStrategy, g: Position, oks: seq<bool>): Position {
    if |oks| == 0 then g else NextCall(strategy, NextCalls(strategy, g, oks[..|oks| - 1]), oks[|oks| - 1])
  }

  /** The state of a session between calls. */
  ghost predicate Reachable(strategy: ReplayStrategy, g: Position) {
    g.counter >= 1 && Consistent(strategy, g.committed, g.lastSeen)
  }

  /** One call passes exactly if its counter was not committed and lies in the window,
      or, under strict order, is above the mark. */
  lemma NextPassesIff(strategy: ReplayStrategy, g: Position)
    requires Reachable(strategy, g)
    ensures NextPasses(strategy, g) <==>
            if strategy.SlidingWindow? then g.counter !in g.committed && g.counter + 64 * WORDS > Highest(g.committed)
            else g.counter > g.lastSeen
  {
    if strategy.SlidingWindow? {
      ExactWhenDisciplined(g.committed, WORDS, g.counter);
    }
  }

  /** Everything committed and the strict mark are below the counter. */
  ghost predicate IsAhead(strategy: ReplayStrategy, g: Position) {
    if strategy.SlidingWindow? then Highest(g.committed) < g.counter else g.lastSeen < g.counter
  }

  /** Every sequence of next-counter calls, whichever closures fail, passes the check at
      each call, as long as the counter does not overflow. */
  ghost predicate AlwaysPasses(strategy: ReplayStrategy, g: Position) {
    forall oks :: g.counter + |oks| <= U64_MAX ==> NextPasses(strategy, NextCalls(strategy, g, oks))
  }

  lemma AheadPasses(strategy: ReplayStrategy, g: Position, ok: bool)
    requires g.counter >= 1 && IsAhead(strategy, g)
    ensures NextPasses(strategy, g)
    ensures NextCall(strategy, g, ok).counter >= 1 && IsAhead(strategy, NextCall(strategy, g, ok))
  {
    HighestAppend(g.committed, g.counter);
  }

  lemma {:induction false} StaysAhead(strategy: ReplayStrategy, g: Position, oks: seq<bool>)
    requires g.counter >= 1 && IsAhead(strategy, g)
    ensures NextCalls(strategy, g, oks).counter >= 1 && IsAhead(strategy, NextCalls(strategy, g, oks))
    ensures NextPasses(strategy, NextCalls(strategy, g, oks))
  {
    if |oks| > 0 {
      StaysAhead(strategy, g, oks[..|oks| - 1]);
      AheadPasses(strategy, NextCalls(strategy, g, oks[..|oks| - 1]), oks[|oks| - 1]);
    }
    AheadPasses(strategy, NextCalls(strategy, g, oks), true);
  }

  function Successes(k: nat): (oks: seq<bool>)
    ensures |oks| == k
  {
    seq(k, _ => true)
  }

  /** As long as successful calls pass, they count up and forget nothing. */
  lemma {:induction false} CountsUp(strategy: ReplayStrategy, g: Position, k: nat)
    requires AlwaysPasses(strategy, g) && g.counter + k <= U64_MAX
    ensures var r := NextCalls(strategy, g, Successes(k));
            r.counter == g.counter + k && g.committed <= r.committed
  {
    if k > 0 {
      CountsUp(strategy, g, k - 1);
      assert Successes(k)[..k - 1] == Successes(k - 1);
      assert NextPasses(strategy, NextCalls(strategy, g, Successes(k - 1)));
    }
  }

  /** A committed nonce not below the counter is reached by it, if it does not expire the
      counter before. */
  lemma NotAheadIsRefused(g: Position)
    requires g.counter >= 1 && Highest(g.committed) >= g.counter && Highest(g.committed) <= U64_MAX
    ensures !AlwaysPasses(SlidingWindow, g)
  {
    if AlwaysPasses(SlidingWindow, g) {
      var k := Highest(g.committed) - g.counter;
      CountsUp(SlidingWindow, g, k);
      var r := NextCalls(SlidingWindow, g, Successes(k));
      var i :| 0 <= i < |g.committed| && g.committed[i] == Highest(g.committed);
      assert r.committed[i] == r.counter;
      AcceptedIsRefused(r.committed, WORDS, i);
    }
  }

  /** The documentation promises that these calls always pass. They do exactly when
      nothing committed, or the strict mark, has reached the counter. */
  lemma AlwaysPassesIff(strategy: ReplayStrategy, g: Position)
    requires Reachable(strategy, g) && g.counter <= U64_MAX && Highest(g.committed) <= U64_MAX
    ensures AlwaysPasses(strategy, g) <==> IsAhead(strategy, g)
  {
    if IsAhead(strategy, g) {
      forall oks | g.counter + |oks| <= U64_MAX
        ensures NextPasses(strategy, NextCalls(strategy, g, oks))
      {
        StaysAhead(strategy, g, oks);
      }
    } else if strategy.SlidingWindow? {
      NotAheadIsRefused(g);
    } else {
      assert NextCalls(strategy, g, []) == g;
      assert !NextPasses(strategy, NextCalls(strategy, g, []));
    }
  }

  /** And once one call is refused, the counter never moves again. */
  lemma {:induction false} RefusedForever(strategy: ReplayStrategy, g: Position, oks: seq<bool>)
    requires !NextPasses(strategy, g)
    ensures NextCalls(strategy, g, oks) == g
  {
    if |oks| > 0 {
      RefusedForever(strategy, g, oks[..|oks| - 1]);
    }
  }

  /** Which of the calls are refused. */
  ghost function Refusals(strategy: ReplayStrategy, g: Position, oks: seq<bool>): seq<bool> {
    if |oks| == 0 then []
    else
      var front := oks[..|oks| - 1];
      Refusals(strategy, g, front) + [!NextPasses(strategy, NextCalls(strategy, g, front))]
  }

  ghost function PositionOf(session: AttestSession): Position
    reads session
  {
    Position(session.committed, session.strictLastSeen, session.clientCounter)
  }

  /** Next-counter calls on a live session, as a client makes them. */
  method NextRequests(session: AttestSession, oks: seq<bool>) returns (refused: seq<bool>)
    requires session.Valid() && session.clientCounter + |oks| <= U64_MAX
    modifies session, session.guard, session.guard.window
    ensures session.Valid()
    ensures PositionOf(session) == NextCalls(session.strategy, old(PositionOf(session)), oks)
    ensures refused == Refusals(session.strategy, old(PositionOf(session)), oks)
  {
    ghost var g := PositionOf(session);
    refused := [];
    for k := 0 to |oks|
      invariant session.Valid() && session.guard.window == old(session.guard.window)
      invariant session.clientCounter + |oks| - k <= U64_MAX
      invariant PositionOf(session) == NextCalls(session.strategy, g, oks[..k])
      invariant refused == Refusals(session.strategy, g, oks[..k])
    {
      assert oks[..k + 1][..k] == oks[..k];
      var outcome := session.WithKeysForNextTrr(true, true, oks[k]);
      refused := refused + [outcome == ReplayRefused];
    }
    assert oks[..|oks|] == oks;
  }

  lemma HighestOne(n: nat)
    ensures Highest([n]) == n
  {
    HighestAppend([], n);
    assert [] + [n] == [n];
  }

  /** It happens on a new session with the default strategy: one chunk of a stream, sent
      under the random nonce 5000, and the next request is refused. */
  method LeapThenNext() returns (chunk: Outcome, request: Outcome)
    ensures chunk == Ran(1, true) && request == ReplayRefused
  {
    var session := new AttestSession(SlidingWindow);
    assert Passes(SlidingWindow, [], 0, 5000);
    chunk := session.WithKeysForTrr(true, true, 5000, true);
    HighestOne(5000);
    assert session.committed == [5000];
    request := session.WithKeysForNextTrr(true, true, true);
  }
}
