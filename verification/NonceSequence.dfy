/** The in-memory nonce counter as an interleaving of atomic steps: any number of
    threads run the load / compare-exchange loop of `next_nonce`. */
module NonceSequence {
  import opened Bytes
  import opened AeadNonce

  /** The shared counter, the value each thread has loaded and not yet tried to
      exchange, the counts handed out in the order of their exchanges, and how many
      calls ended in an overflow error. */
  datatype State = State(counter: nat, loaded: map<nat, nat>, issued: seq<nat>, overflows: nat)

  datatype Step =
    | Load(thread: nat)
    | Exchange(thread: nat)

  function Init(start: nat): State {
    State(start, map[], [], 0)
  }

  /** One atomic step. An exchange that finds another value than the loaded one
      fails, and its thread has to load again. */
  function Apply(s: State, step: Step): State {
    match step
    case Load(t) =>
      if s.counter == U64_MAX then s.(loaded := s.loaded - {t}, overflows := s.overflows + 1)
      else s.(loaded := s.loaded[t := s.counter])
    case Exchange(t) =>
      if t !in s.loaded then s
      else if s.counter == s.loaded[t] then
        s.(counter := s.counter + 1, loaded := s.loaded - {t}, issued := s.issued + [s.loaded[t]])
      else s.(loaded := s.loaded - {t})
  }

  function Run(s: State, steps: seq<Step>): State {
    if |steps| == 0 then s else Apply(Run(s, steps[..|steps| - 1]), steps[|steps| - 1])
  }

  /** The issued counts are start, start + 1, ..., up to the counter, without a gap
      or a repetition; a loaded value is never ahead of the counter. */
  ghost predicate Inv(start: nat, s: State) {
    && start <= s.counter <= U64_MAX
    && |s.issued| == s.counter - start
    && (forall i :: 0 <= i < |s.issued| ==> s.issued[i] == start + i)
    && (forall t :: t in s.loaded ==> start <= s.loaded[t] <= s.counter && s.loaded[t] < U64_MAX)
  }

  lemma {:induction false} InvAlways(start: nat, steps: seq<Step>)
    requires start <= U64_MAX
    ensures Inv(start, Run(Init(start), steps))
  {
    if |steps| > 0 {
      InvAlways(start, steps[..|steps| - 1]);
    }
  }

  /** No two nonces of one sequence under one IV are equal, whatever the schedule. */
  lemma NoncesDistinct(start: nat, steps: seq<Step>, iv: Iv, i: nat, j: nat)
    requires start <= U64_MAX
    requires i < j < |Run(Init(start), steps).issued|
    ensures Nonce(iv, Run(Init(start), steps).issued[i]) != Nonce(iv, Run(Init(start), steps).issued[j])
  {
    InvAlways(start, steps);
    var issued := Run(Init(start), steps).issued;
    if Nonce(iv, issued[i]) == Nonce(iv, issued[j]) {
      NonceInjective(iv, issued[i], issued[j]);
    }
  }

  /** Once the counter is at its maximum it stays there: whatever threads do later,
      every load reports an overflow and nothing more is issued. */
  lemma {:induction false} ExhaustedForever(start: nat, s: State, steps: seq<Step>)
    requires Inv(start, s) && s.counter == U64_MAX
    ensures Run(s, steps).counter == U64_MAX && Run(s, steps).issued == s.issued
    ensures Inv(start, Run(s, steps))
    ensures forall t :: Apply(Run(s, steps), Load(t)).overflows == Run(s, steps).overflows + 1
  {
    if |steps| > 0 {
      ExhaustedForever(start, s, steps[..|steps| - 1]);
    }
  }

  /** After any run, an undisturbed call is issued the next count exactly as long as the
      maximum has not been reached; otherwise it reports an overflow. */
  lemma CallIssuesIff(start: nat, steps: seq<Step>, t: nat)
    requires start <= U64_MAX
    ensures var s := Run(Init(start), steps);
            var after := Apply(Apply(s, Load(t)), Exchange(t));
            if start + |s.issued| < U64_MAX
            then after.issued == s.issued + [start + |s.issued|] && after.overflows == s.overflows
            else after.issued == s.issued && after.overflows == s.overflows + 1
  {
    InvAlways(start, steps);
  }

  /** An exchange fails only because another thread was issued the loaded value:
      some call always makes progress. */
  lemma FailedExchangeWasIssued(start: nat, steps: seq<Step>, t: nat)
    requires start <= U64_MAX
    requires var s := Run(Init(start), steps);
             t in s.loaded && Apply(s, Exchange(t)).issued == s.issued
    ensures var s := Run(Init(start), steps);
            s.loaded[t] in s.issued
  {
    InvAlways(start, steps);
    var s := Run(Init(start), steps);
    assert s.issued[s.loaded[t] - start] == s.loaded[t];
  }
}
