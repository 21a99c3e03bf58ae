/** The nonce manager: a send counter advanced by `fetch_add`, received nonces validated
    by a compare-exchange loop, and a storage to which each call, when it is through,
    saves both counters at once: its own half as it left it, the other half as it read
    it some time before. A restart loads what was saved last. */
module NonceManager {
  import opened Bytes

  /** The two counters, what a restart would load, the threads inside a call, every
      received nonce in the order its exchange committed it, and the nonces for which
      a call of either kind returned Ok. */
  datatype State = State(
    nextSend: nat,
    lastSeen: nat,
    savedSend: nat,
    savedLast: nat,
    threads: map<nat, Pc>,
    committed: seq<nat>,
    accepted: set<nat>,
    sent: set<nat>)

  datatype Pc =
    | Fetched(nonce: nat)                // next_send_nonce, after fetch_add
    | SendSaving(nonce: nat, last: nat)  // and after reading last_seen
    | Loaded(nonce: nat, last: nat)      // validate_recv, before its exchange
    | Committed(nonce: nat)              // after it
    | RecvSaving(nonce: nat, next: nat)  // and after reading next_send

  datatype Step =
    | FetchAdd(thread: nat)
    | Load(thread: nat, nonce: nat)
    | Exchange(thread: nat)
    | ReadOther(thread: nat)
    | Save(thread: nat)
    | Fail(thread: nat)  // the save reports an error, or the thread dies
    | Crash

  function Init(next: nat, last: nat): State {
    State(next, last, next, last, map[], [], {}, {})
  }

  function Apply(s: State, step: Step): State {
    match step
    case FetchAdd(t) =>
      if t in s.threads then s
      else if s.nextSend == U64_MAX then s.(nextSend := 0)
      else s.(nextSend := s.nextSend + 1, threads := s.threads[t := Fetched(s.nextSend)])
    case Load(t, n) =>
      if t in s.threads || n <= s.lastSeen then s else s.(threads := s.threads[t := Loaded(n, s.lastSeen)])
    case Exchange(t) =>
      if t !in s.threads || !s.threads[t].Loaded? then s
      else
        var Loaded(n, l) := s.threads[t];
        if s.lastSeen != l then s.(threads := s.threads - {t})
        else s.(lastSeen := n, threads := s.threads[t := Committed(n)], committed := s.committed + [n])
    case ReadOther(t) =>
      if t !in s.threads then s
      else
        (match s.threads[t]
         case Fetched(n) => s.(threads := s.threads[t := SendSaving(n, s.lastSeen)])
         case Committed(n) => s.(threads := s.threads[t := RecvSaving(n, s.nextSend)])
         case _ => s)
    case Save(t) =>
      if t !in s.threads then s
      else
        (match s.threads[t]
         case SendSaving(n, last) =>
           s.(savedSend := n + 1, savedLast := last, threads := s.threads - {t}, sent := s.sent + {n})
         case RecvSaving(n, next) =>
           s.(savedSend := next, savedLast := n, threads := s.threads - {t}, accepted := s.accepted + {n})
         case _ => s)
    case Fail(t) => s.(threads := s.threads - {t})
    case Crash => s.(nextSend := s.savedSend, lastSeen := s.savedLast, threads := map[])
  }

  function Run(s: State, steps: seq<Step>): State {
    if |steps| == 0 then s else Apply(Run(s, steps[..|steps| - 1]), steps[|steps| - 1])
  }

  // ---- without a restart ----

  ghost predicate Increasing(xs: seq<nat>) {
    forall i, j :: 0 <= i < j < |xs| ==> xs[i] < xs[j]
  }

  ghost predicate Inv(s: State) {
    && Increasing(s.committed)
    && (forall i :: 0 <= i < |s.committed| ==> s.committed[i] <= s.lastSeen)
    && (forall t :: t in s.threads && s.threads[t].Loaded? ==> s.threads[t].last < s.threads[t].nonce)
  }

  /** Without a restart, the nonces accepted by any number of concurrent callers are
      strictly increasing in the order they commit, so none is accepted twice. */
  lemma {:induction false} CommittedIncrease(next: nat, last: nat, steps: seq<Step>)
    requires forall i :: 0 <= i < |steps| ==> steps[i] != Crash
    ensures Inv(Run(Init(next, last), steps))
  {
    if |steps| > 0 {
      CommittedIncrease(next, last, steps[..|steps| - 1]);
    }
  }

  // ---- after a restart ----

  lemma RunLast(s: State, steps: seq<Step>, last: Step)
    ensures Run(s, steps + [last]) == Apply(Run(s, steps), last)
  {
    assert (steps + [last])[..|steps|] == steps;
  }

  /** After a crash a nonce is accepted exactly when it is above the saved value; so an
      accepted one is accepted again exactly then. */
  lemma ReplayAfterCrashIff(s: State, n: nat, t: nat)
    ensures Run(s, [Crash] + [Load(t, n)] + [Exchange(t)]).committed ==
            s.committed + if n > s.savedLast then [n] else []
  {
    assert Run(s, []) == s && [Crash][..0] == [];
    assert Run(s, [Crash]) == Apply(s, Crash);
    RunLast(s, [Crash], Load(t, n));
    RunLast(s, [Crash] + [Load(t, n)], Exchange(t));
  }

  /** k calls of `next_send_nonce`, right after a crash. */
  function CrashAndSend(k: nat): seq<Step> {
    if k == 0 then [Crash] else CrashAndSend(k - 1) + [FetchAdd(k - 1)]
  }

  /** k senders are under way, with the nonces from `base` on. */
  ghost predicate CountedUp(s: State, base: nat, k: nat) {
    && s.nextSend == base + k
    && (forall t :: t in s.threads <==> 0 <= t < k)
    && (forall t :: t in s.threads ==> s.threads[t] == Fetched(base + t))
  }

  lemma FetchCountsUp(s: State, base: nat, k: nat)
    requires CountedUp(s, base, k) && base + k < U64_MAX
    ensures CountedUp(Apply(s, FetchAdd(k)), base, k + 1)
  {
  }

  lemma {:induction false} SendsCountUp(s: State, k: nat)
    requires s.savedSend + k <= U64_MAX
    ensures CountedUp(Run(s, CrashAndSend(k)), s.savedSend, k)
  {
    if k == 0 {
      assert [Crash][..0] == [] && Run(s, [Crash]) == Apply(Run(s, []), Crash);
    } else {
      SendsCountUp(s, k - 1);
      RunLast(s, CrashAndSend(k - 1), FetchAdd(k - 1));
      FetchCountsUp(Run(s, CrashAndSend(k - 1)), s.savedSend, k - 1);
    }
  }

  /** Some call after the crash, before the counter overflows, takes the nonce m. */
  ghost predicate Reissued(s: State, m: nat) {
    exists k: nat :: s.savedSend + k <= U64_MAX && Takes(s, k, m)
  }

  ghost predicate Takes(s: State, k: nat, m: nat) {
    exists t :: t in Run(s, CrashAndSend(k)).threads && Run(s, CrashAndSend(k)).threads[t] == Fetched(m)
  }

  /** After a crash a send nonce is taken exactly when it is not below the saved value;
      so one that was sent is sent again exactly then. */
  lemma ReissuedAfterCrashIff(s: State, m: nat)
    requires m < U64_MAX
    ensures Reissued(s, m) <==> m >= s.savedSend
  {
    if m >= s.savedSend {
      var t := m - s.savedSend;
      SendsCountUp(s, t + 1);
      assert Run(s, CrashAndSend(t + 1)).threads[t] == Fetched(m);
      assert Takes(s, t + 1, m);
    }
    if Reissued(s, m) {
      var k: nat :| s.savedSend + k <= U64_MAX && Takes(s, k, m);
      SendsCountUp(s, k);
    }
  }

  // ---- when restarts are harmless ----

  /** A save lowers neither half, and no send overflows. */
  ghost predicate Orderly(s: State, step: Step) {
    && (step.FetchAdd? ==> s.nextSend < U64_MAX)
    && (step.Save? ==> Apply(s, step).savedSend >= s.savedSend && Apply(s, step).savedLast >= s.savedLast)
  }

  ghost predicate AllOrderly(s: State, steps: seq<Step>) {
    forall i :: 0 <= i < |steps| ==> Orderly(Run(s, steps[..i]), steps[i])
  }

  ghost predicate Behind(pc: Pc, next: nat, last: nat) {
    match pc
    case Fetched(n) => n < next
    case SendSaving(n, l) => n < next && l <= last
    case Loaded(n, l) => l < n
    case Committed(n) => n <= last
    case RecvSaving(n, x) => n <= last && x <= next
  }

  /** What was returned is covered by what is saved, and that by the live counters. */
  ghost predicate Durable(s: State) {
    && s.savedSend <= s.nextSend && s.savedLast <= s.lastSeen
    && (forall n :: n in s.accepted ==> n <= s.savedLast)
    && (forall n :: n in s.sent ==> n < s.savedSend)
    && (forall t :: t in s.threads ==> Behind(s.threads[t], s.nextSend, s.lastSeen))
  }

  lemma StepKeepsDurable(s: State, step: Step)
    requires Durable(s) && Orderly(s, step)
    ensures Durable(Apply(s, step))
  {
  }

  /** If no save lowers either half and the send counter does not overflow, then in
      every run with any callers and with crashes at any point, a nonce that was accepted
      stays refused and one that was sent is not issued again. */
  lemma {:induction false} DurableWhenOrderly(next: nat, last: nat, steps: seq<Step>)
    requires AllOrderly(Init(next, last), steps)
    ensures var s := Run(Init(next, last), steps);
            && Durable(s)
            && (forall n, t :: n in s.accepted ==> Apply(s, Load(t, n)) == s)
            && s.nextSend !in s.sent
  {
    if |steps| > 0 {
      var k := |steps| - 1;
      var front := steps[..k];
      assert forall i :: 0 <= i < k ==> front[..i] == steps[..i];
      DurableWhenOrderly(next, last, front);
      StepKeepsDurable(Run(Init(next, last), front), steps[k]);
    }
  }

  /** A call starts only when no other is under way. */
  ghost predicate OneAtATime(s: State, steps: seq<Step>) {
    forall i :: 0 <= i < |steps| && (steps[i].FetchAdd? || steps[i].Load?) ==> Run(s, steps[..i]).threads == map[]
  }

  ghost predicate NoOverflow(s: State, steps: seq<Step>) {
    forall i :: 0 <= i < |steps| && steps[i].FetchAdd? ==> Run(s, steps[..i]).nextSend < U64_MAX
  }

  /** The one thread inside, if any, holds the live values of both counters. */
  ghost predicate Alone(s: State) {
    && s.savedSend <= s.nextSend && s.savedLast <= s.lastSeen
    && (forall t, u :: t in s.threads && u in s.threads ==> t == u)
    && (forall t :: t in s.threads ==> UpToDate(s.threads[t], s.nextSend, s.lastSeen))
  }

  ghost predicate UpToDate(pc: Pc, next: nat, last: nat) {
    match pc
    case Fetched(n) => n + 1 == next
    case SendSaving(n, l) => n + 1 == next && l == last
    case Loaded(n, l) => l == last < n
    case Committed(n) => n == last
    case RecvSaving(n, x) => n == last && x == next
  }

  lemma StepKeepsAlone(s: State, step: Step)
    requires Alone(s)
    requires step.FetchAdd? || step.Load? ==> s.threads == map[]
    requires step.FetchAdd? ==> s.nextSend < U64_MAX
    ensures Alone(Apply(s, step)) && Orderly(s, step)
  {
  }

  /** Calls made one at a time are orderly: then restarts are harmless. */
  lemma {:induction false} SequentialIsOrderly(next: nat, last: nat, steps: seq<Step>)
    requires OneAtATime(Init(next, last), steps) && NoOverflow(Init(next, last), steps)
    ensures Alone(Run(Init(next, last), steps)) && AllOrderly(Init(next, last), steps)
  {
    if |steps| > 0 {
      var k := |steps| - 1;
      var front := steps[..k];
      assert forall i :: 0 <= i < k ==> front[..i] == steps[..i];
      SequentialIsOrderly(next, last, front);
      StepKeepsAlone(Run(Init(next, last), front), steps[k]);
    }
  }

  // ---- and when they are not ----

  function SenderAndReceiver(): seq<Step> {
    [FetchAdd(1)] + [ReadOther(1)] + [Load(2, 5)] + [Exchange(2)] + [ReadOther(2)] + [Save(2)] + [Save(1)]
  }

  /** Seven steps, one after the other. */
  lemma RunSeven(s: State, a: Step, b: Step, c: Step, d: Step, e: Step, f: Step, g: Step)
    ensures Run(s, [a] + [b] + [c] + [d] + [e] + [f] + [g]) ==
            Apply(Apply(Apply(Apply(Apply(Apply(Apply(s, a), b), c), d), e), f), g)
  {
    assert [] + [a] == [a];
    RunLast(s, [], a);
    RunLast(s, [a], b);
    RunLast(s, [a] + [b], c);
    RunLast(s, [a] + [b] + [c], d);
    RunLast(s, [a] + [b] + [c] + [d], e);
    RunLast(s, [a] + [b] + [c] + [d] + [e], f);
    RunLast(s, [a] + [b] + [c] + [d] + [e] + [f], g);
  }

  /** One sender and one receiver: 5 is accepted and saved, the sender then saves the
      `last_seen` it read before, and after a restart 5 is accepted once more. */
  lemma LateSendReplays()
    ensures var s := Run(Init(1, 0), SenderAndReceiver());
            5 in s.accepted && Run(s, [Crash] + [Load(2, 5)] + [Exchange(2)]).committed == s.committed + [5]
  {
    var s0 := Init(1, 0);
    var s2 := s0.(nextSend := 2, threads := map[1 := SendSaving(1, 0)]);
    var s4 := s2.(lastSeen := 5, threads := map[1 := SendSaving(1, 0), 2 := Committed(5)], committed := [5]);
    RunSeven(s0, FetchAdd(1), ReadOther(1), Load(2, 5), Exchange(2), ReadOther(2), Save(2), Save(1));
    assert Apply(Apply(s0, FetchAdd(1)), ReadOther(1)) == s2;
    assert Apply(Apply(s2, Load(2, 5)), Exchange(2)) == s4;
    ReplayAfterCrashIff(Run(s0, SenderAndReceiver()), 5, 2);
  }

  function ReceiverAndSender(): seq<Step> {
    [Load(2, 5)] + [Exchange(2)] + [ReadOther(2)] + [FetchAdd(1)] + [ReadOther(1)] + [Save(1)] + [Save(2)]
  }

  /** The other way round: the send nonce 1 is returned, a receiver saves the counter it
      read before, and after a restart 1 is issued once more. */
  lemma LateReceiveRepeats()
    ensures var s := Run(Init(1, 0), ReceiverAndSender());
            1 in s.sent && Reissued(s, 1)
  {
    var s0 := Init(1, 0);
    var s2 := s0.(lastSeen := 5, threads := map[2 := Committed(5)], committed := [5]);
    var s4 := s2.(nextSend := 2, threads := map[2 := RecvSaving(5, 1), 1 := Fetched(1)]);
    RunSeven(s0, Load(2, 5), Exchange(2), ReadOther(2), FetchAdd(1), ReadOther(1), Save(1), Save(2));
    assert Apply(Apply(s0, Load(2, 5)), Exchange(2)) == s2;
    assert Apply(Apply(s2, ReadOther(2)), FetchAdd(1)) == s4;
    ReissuedAfterCrashIff(Run(s0, ReceiverAndSender()), 1);
  }

  // ---- the send counter ----

  /** `fetch_add` wraps, so call number k of `next_send_nonce` sees this value; it
      returns it, or an overflow error when it is the maximum. */
  function SendValue(start: nat, k: nat): nat {
    (start + k) % U64_SIZE
  }

  /** The calls of `next_send_nonce` that got as far as the counter. */
  function Fetches(s: State, steps: seq<Step>): nat {
    if |steps| == 0 then 0
    else
      var front, last := steps[..|steps| - 1], steps[|steps| - 1];
      Fetches(s, front) + if last.FetchAdd? && last.thread !in Run(s, front).threads then 1 else 0
  }

  lemma SendValueNext(start: nat, k: nat)
    ensures SendValue(start, k + 1) == if SendValue(start, k) == U64_MAX then 0 else SendValue(start, k) + 1
  {
  }

  /** In every run without a restart, call number k does see the value k after the start. */
  lemma {:induction false} SendCounter(next: nat, last: nat, steps: seq<Step>)
    requires next <= U64_MAX && forall i :: 0 <= i < |steps| ==> steps[i] != Crash
    ensures Run(Init(next, last), steps).nextSend == SendValue(next, Fetches(Init(next, last), steps))
  {
    if |steps| > 0 {
      var front := steps[..|steps| - 1];
      SendCounter(next, last, front);
      SendValueNext(next, Fetches(Init(next, last), front));
    }
  }

  /** It takes that value as its nonce, unless it is the maximum. */
  lemma SendTakes(next: nat, last: nat, steps: seq<Step>, t: nat)
    requires next <= U64_MAX && forall i :: 0 <= i < |steps| ==> steps[i] != Crash
    requires t !in Run(Init(next, last), steps).threads
    ensures var v := SendValue(next, Fetches(Init(next, last), steps));
            var after := Apply(Run(Init(next, last), steps), FetchAdd(t));
            if v == U64_MAX then t !in after.threads else t in after.threads && after.threads[t] == Fetched(v)
  {
    SendCounter(next, last, steps);
  }

  ghost predicate ReturnedDistinct(start: nat, calls: nat) {
    forall i, j :: 0 <= i < j < calls && SendValue(start, i) != U64_MAX ==> SendValue(start, i) != SendValue(start, j)
  }

  lemma SendRepeatsAfter(start: nat, i: nat, j: nat)
    requires i < j && SendValue(start, i) == SendValue(start, j)
    ensures j - i >= U64_SIZE
  {
    var q := (start + j) / U64_SIZE - (start + i) / U64_SIZE;
    assert j - i == U64_SIZE * q;
  }

  /** The calls of one manager return pairwise different nonces exactly as long as
      there are at most 2^64 of them: past its first overflow error the counter
      starts again. */
  lemma SendNoncesDistinctIff(start: nat, calls: nat)
    requires start < U64_MAX
    ensures ReturnedDistinct(start, calls) <==> calls <= U64_SIZE
  {
    if calls <= U64_SIZE {
      forall i, j | 0 <= i < j < calls && SendValue(start, i) == SendValue(start, j)
        ensures false
      {
        SendRepeatsAfter(start, i, j);
      }
    } else {
      assert SendValue(start, 0) == start == SendValue(start, U64_SIZE);
    }
  }
}
