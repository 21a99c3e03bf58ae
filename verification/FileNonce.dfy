/** The file-backed nonce counter. A caller belongs to one `FileNonceSequence`; several
    sequences, in one or more processes, may share a file. A call takes the mutex of its
    sequence, locks the file, reads it, rewrites it, unlocks it, and gives the mutex
    back as it returns. It can fail or crash between any two steps, or in the middle of
    the write. */
module FileNonce {
  import opened Bytes

  /** What `read_counter` makes of the file: a short file counts as 1. */
  function Value(file: bytes): nat {
    if |file| < 8 then 1 else FromBigEndian(file[..8])
  }

  /** The file after the first k bytes of the new counter reached it. */
  function Overwritten(file: bytes, counter: nat, k: nat): bytes
    requires k <= 8
  {
    BigEndian(counter, 8)[..k] + if |file| > k then file[k..] else []
  }

  datatype Caller = Caller(id: nat, sequence: nat)

  datatype Pc =
    | Entered
    | Locked
    | Read(count: nat)
    | Written(count: nat)
    | Unlocked(count: nat)

  /** A count that a call of the given sequence returned. */
  datatype Issued = Issued(sequence: nat, count: nat)

  datatype Lock = Free | HeldBy(caller: Caller)

  /** The file, the holder of its lock if any, the holders of the mutexes, the callers
      inside `next_nonce`, the counts in the order in which they were durably used up,
      and what calls returned, in order. */
  datatype State = State(
    file: bytes,
    lock: Lock,
    mutexes: map<nat, Caller>,
    callers: map<Caller, Pc>,
    granted: seq<nat>,
    returned: seq<Issued>)

  datatype Step =
    | TakeMutex(c: Caller)
    | TakeLock(c: Caller)
    | ReadCounter(c: Caller)
    | WriteCounter(c: Caller)
    | WriteTorn(c: Caller, k: nat)  // crash or I/O error after k bytes were written
    | ReleaseLock(c: Caller)
    | Return(c: Caller)
    | Crash(c: Caller)

  function Init(file: bytes): State {
    State(file, Free, map[], map[], [], [])
  }

  function Freed(lock: Lock, c: Caller): Lock {
    if lock == HeldBy(c) then Free else lock
  }

  /** The caller leaves `next_nonce`, by a return, an error or a crash: its locks go. */
  function Gone(s: State, c: Caller): State {
    if c !in s.callers then s
    else s.(callers := s.callers - {c}, mutexes := s.mutexes - {c.sequence},
            lock := Freed(s.lock, c))
  }

  predicate At(s: State, c: Caller, pc: Pc) {
    c in s.callers && s.callers[c] == pc
  }

  /** A step that is not enabled leaves the state as it is. */
  function Apply(s: State, step: Step): State {
    match step
    case TakeMutex(c) =>
      if c !in s.callers && c.sequence !in s.mutexes then
        s.(mutexes := s.mutexes[c.sequence := c], callers := s.callers[c := Entered])
      else s
    case TakeLock(c) =>
      if At(s, c, Entered) && s.lock == Free then s.(lock := HeldBy(c), callers := s.callers[c := Locked]) else s
    case ReadCounter(c) =>
      if At(s, c, Locked) then
        if Value(s.file) == U64_MAX then Gone(s, c)
        else s.(callers := s.callers[c := Read(Value(s.file))])
      else s
    case WriteCounter(c) =>
      if c in s.callers && s.callers[c].Read? then
        var count := s.callers[c].count;
        s.(file := Overwritten(s.file, count + 1, 8), callers := s.callers[c := Written(count)],
           granted := s.granted + [count])
      else s
    case WriteTorn(c, k) =>
      if c in s.callers && s.callers[c].Read? && k <= 8 then
        Gone(s.(file := Overwritten(s.file, s.callers[c].count + 1, k)), c)
      else s
    case ReleaseLock(c) =>
      if c in s.callers && s.callers[c].Written? then
        s.(lock := Free, callers := s.callers[c := Unlocked(s.callers[c].count)])
      else s
    case Return(c) =>
      if c in s.callers && s.callers[c].Unlocked? then
        Gone(s, c).(returned := s.returned + [Issued(c.sequence, s.callers[c].count)])
      else s
    case Crash(c) => Gone(s, c)
  }

  function Run(s: State, steps: seq<Step>): State {
    if |steps| == 0 then s else Apply(Run(s, steps[..|steps| - 1]), steps[|steps| - 1])
  }

  // ---- a torn write ----

  /** A big-endian increment that stops after any number of bytes never leaves a
      smaller value behind than was there before. */
  lemma {:induction false} TornNotBelow(prior: nat, next: nat, width: nat, k: nat)
    requires next == prior || next == prior + 1
    requires next < Pow256(width) && k <= width
    ensures FromBigEndian(BigEndian(next, width)[..k] + BigEndian(prior, width)[k..]) >= prior
  {
    var p, n := BigEndian(prior, width), BigEndian(next, width);
    var mixed := n[..k] + p[k..];
    if k == width {
      assert mixed == n;
      DecodeEncode(next, width);
    } else {
      TornNotBelow(prior / 256, next / 256, width - 1, k);
      var p', n' := BigEndian(prior / 256, width - 1), BigEndian(next / 256, width - 1);
      assert mixed[..|mixed| - 1] == n'[..k] + p'[k..];
      assert mixed[|mixed| - 1] == prior % 256;
    }
  }

  lemma OverwriteNotBelow(file: bytes, k: nat)
    requires k <= 8 && Value(file) < U64_MAX
    ensures Value(Overwritten(file, Value(file) + 1, k)) >= Value(file)
    ensures k == 8 ==> Value(Overwritten(file, Value(file) + 1, k)) == Value(file) + 1
  {
    var count := Value(file);
    var after := Overwritten(file, count + 1, k);
    WidthSizes();
    if k == 8 {
      assert after[..8] == BigEndian(count + 1, 8);
      DecodeEncode(count + 1, 8);
    } else if |file| >= 8 {
      EncodeDecode(file[..8]);
      assert after[..8] == BigEndian(count + 1, 8)[..k] + BigEndian(count, 8)[k..];
      TornNotBelow(count, count + 1, 8, k);
    }
  }

  // ---- every run: no count twice ----

  ghost predicate Outstanding(pc: Pc) {
    pc.Written? || pc.Unlocked?
  }

  ghost predicate BothOutstanding(callers: map<Caller, Pc>, c: Caller, d: Caller) {
    c in callers && d in callers && c != d && Outstanding(callers[c]) && Outstanding(callers[d])
  }

  ghost predicate HoldsLock(pc: Pc) {
    pc.Locked? || pc.Read? || pc.Written?
  }

  ghost predicate Inv(s: State) {
    Value(s.file) <= U64_MAX && InvAt(s.lock, s.callers, s.granted, s.returned, Value(s.file))
  }

  /** The invariant when the file holds v. */
  ghost predicate InvAt(lock: Lock, callers: map<Caller, Pc>, granted: seq<nat>, returned: seq<Issued>, v: nat) {
    && (forall i, j :: 0 <= i < j < |granted| ==> granted[i] < granted[j])
    && (forall i :: 0 <= i < |granted| ==> granted[i] < v)
    && (forall c :: c in callers && HoldsLock(callers[c]) ==> lock == HeldBy(c))
    && (forall c :: c in callers && callers[c].Read? ==> callers[c].count == v < U64_MAX)
    && (forall c :: c in callers && Outstanding(callers[c]) ==> callers[c].count < v)
    && (forall c, i :: c in callers && Outstanding(callers[c]) && 0 <= i < |returned| ==>
          callers[c].count != returned[i].count)
    && (forall c, d :: BothOutstanding(callers, c, d) ==> callers[c].count != callers[d].count)
    && (forall i :: 0 <= i < |returned| ==> returned[i].count < v)
    && (forall i, j :: 0 <= i < j < |returned| ==> returned[i].count != returned[j].count)
  }

  lemma ValueBound(file: bytes)
    ensures Value(file) <= U64_MAX
  {
    WidthSizes();
    if |file| >= 8 {
      FromBigEndianBound(file[..8]);
    }
  }

  lemma GoneKeepsInv(s: State, c: Caller, v: nat, v': nat)
    requires InvAt(s.lock, s.callers, s.granted, s.returned, v) && v <= v' && c in s.callers
    requires v == v' || s.callers[c].Read?
    ensures InvAt(Freed(s.lock, c), s.callers - {c}, s.granted, s.returned, v')
  {
  }

  lemma GrantKeepsInv(s: State, c: Caller, v: nat)
    requires InvAt(s.lock, s.callers, s.granted, s.returned, v) && At(s, c, Read(v))
    ensures InvAt(s.lock, s.callers[c := Written(v)], s.granted + [v], s.returned, v + 1)
  {
  }

  lemma ReturnKeepsInv(s: State, c: Caller, v: nat)
    requires InvAt(s.lock, s.callers, s.granted, s.returned, v) && c in s.callers && s.callers[c].Unlocked?
    ensures InvAt(Freed(s.lock, c), s.callers - {c}, s.granted,
                  s.returned + [Issued(c.sequence, s.callers[c].count)], v)
  {
  }

  lemma EnterKeepsInv(s: State, c: Caller)
    requires Inv(s)
    ensures Inv(Apply(s, TakeMutex(c)))
  {
  }

  lemma TakeKeepsInv(s: State, c: Caller)
    requires Inv(s)
    ensures Inv(Apply(s, TakeLock(c)))
  {
  }

  lemma ReadKeepsInv(s: State, c: Caller)
    requires Inv(s)
    ensures Inv(Apply(s, ReadCounter(c)))
  {
    if At(s, c, Locked) {
      GoneKeepsInv(s, c, Value(s.file), Value(s.file));
    }
  }

  lemma WriteKeepsInv(s: State, c: Caller)
    requires Inv(s)
    ensures Inv(Apply(s, WriteCounter(c)))
  {
    if c in s.callers && s.callers[c].Read? {
      OverwriteNotBelow(s.file, 8);
      GrantKeepsInv(s, c, Value(s.file));
    }
  }

  lemma TornKeepsInv(s: State, c: Caller, k: nat)
    requires Inv(s)
    ensures Inv(Apply(s, WriteTorn(c, k)))
  {
    if c in s.callers && s.callers[c].Read? && k <= 8 {
      var file := Overwritten(s.file, Value(s.file) + 1, k);
      ValueBound(file);
      OverwriteNotBelow(s.file, k);
      GoneKeepsInv(s, c, Value(s.file), Value(file));
    }
  }

  lemma ReleaseKeepsInv(s: State, c: Caller)
    requires Inv(s)
    ensures Inv(Apply(s, ReleaseLock(c)))
  {
  }

  lemma StepKeepsInv(s: State, step: Step)
    requires Inv(s)
    ensures Inv(Apply(s, step))
  {
    match step {
      case TakeMutex(c) => EnterKeepsInv(s, c);
      case TakeLock(c) => TakeKeepsInv(s, c);
      case ReadCounter(c) => ReadKeepsInv(s, c);
      case WriteCounter(c) => WriteKeepsInv(s, c);
      case WriteTorn(c, k) => TornKeepsInv(s, c, k);
      case ReleaseLock(c) => ReleaseKeepsInv(s, c);
      case Return(c) =>
        if c in s.callers && s.callers[c].Unlocked? {
          ReturnKeepsInv(s, c, Value(s.file));
        }
      case Crash(c) =>
        if c in s.callers {
          GoneKeepsInv(s, c, Value(s.file), Value(s.file));
        }
    }
  }

  lemma {:induction false} InvAlways(file: bytes, steps: seq<Step>)
    ensures Inv(Run(Init(file), steps))
  {
    if |steps| == 0 {
      ValueBound(file);
    } else {
      InvAlways(file, steps[..|steps| - 1]);
      StepKeepsInv(Run(Init(file), steps[..|steps| - 1]), steps[|steps| - 1]);
    }
  }

  /** In every history of mutex, lock, read, write, torn write, unlock, return and
      crash steps, no count is ever returned twice, and counts are used up in strictly
      increasing order. */
  lemma CountsNeverRepeat(file: bytes, steps: seq<Step>)
    ensures var s := Run(Init(file), steps);
            && (forall i, j :: 0 <= i < j < |s.returned| ==> s.returned[i].count != s.returned[j].count)
            && (forall i, j :: 0 <= i < j < |s.granted| ==> s.granted[i] < s.granted[j])
  {
    InvAlways(file, steps);
  }

  // ---- the order of the returns ----

  /** A sequence has at most one caller inside, the holder of its mutex. */
  ghost predicate Exclusive(s: State) {
    forall c :: c in s.callers ==> c.sequence in s.mutexes && s.mutexes[c.sequence] == c
  }

  ghost predicate Returned(s: State, i: nat, sequence: nat) {
    i < |s.returned| && s.returned[i].sequence == sequence
  }

  /** What one sequence returned is in order, and below what it is about to return. */
  ghost predicate OwnOrder(s: State) {
    && (forall c, i: nat :: c in s.callers && Outstanding(s.callers[c]) && Returned(s, i, c.sequence) ==>
          s.returned[i].count < s.callers[c].count)
    && (forall i, j :: 0 <= i < j < |s.returned| && s.returned[i].sequence == s.returned[j].sequence ==>
          s.returned[i].count < s.returned[j].count)
  }

  lemma StepKeepsExclusive(s: State, step: Step)
    requires Exclusive(s)
    ensures Exclusive(Apply(s, step))
  {
  }

  lemma ReturnKeepsOrder(s: State, c: Caller)
    requires Exclusive(s) && OwnOrder(s) && c in s.callers && s.callers[c].Unlocked?
    ensures OwnOrder(Apply(s, Return(c)))
  {
    var s' := Apply(s, Return(c));
    var k := |s.returned|;
    assert s'.returned[k] == Issued(c.sequence, s.callers[c].count);
    forall d | d in s'.callers
      ensures d.sequence != c.sequence && d in s.callers && s'.callers[d] == s.callers[d]
    {
    }
  }

  lemma WriteKeepsOrder(s: State, c: Caller)
    requires Inv(s) && OwnOrder(s)
    ensures OwnOrder(Apply(s, WriteCounter(c)))
  {
  }

  /** A step that returns nothing and leaves no new count outstanding. */
  lemma QuietKeepsOrder(s: State, s': State)
    requires OwnOrder(s) && s'.returned == s.returned
    requires forall c :: c in s'.callers && Outstanding(s'.callers[c]) ==>
               c in s.callers && Outstanding(s.callers[c]) && s.callers[c].count == s'.callers[c].count
    ensures OwnOrder(s')
  {
    forall c, i: nat | c in s'.callers && Outstanding(s'.callers[c]) && Returned(s', i, c.sequence)
      ensures s'.returned[i].count < s'.callers[c].count
    {
      assert Returned(s, i, c.sequence);
    }
  }

  lemma StepKeepsOrder(s: State, step: Step)
    requires Inv(s) && Exclusive(s) && OwnOrder(s)
    ensures OwnOrder(Apply(s, step))
  {
    match step {
      case WriteCounter(c) => WriteKeepsOrder(s, c);
      case Return(c) =>
        if c in s.callers && s.callers[c].Unlocked? {
          ReturnKeepsOrder(s, c);
        }
      case _ => QuietKeepsOrder(s, Apply(s, step));
    }
  }

  lemma {:induction false} OrderAlways(file: bytes, steps: seq<Step>)
    ensures Exclusive(Run(Init(file), steps)) && OwnOrder(Run(Init(file), steps))
  {
    if |steps| > 0 {
      var front := steps[..|steps| - 1];
      OrderAlways(file, front);
      InvAlways(file, front);
      StepKeepsExclusive(Run(Init(file), front), steps[|steps| - 1]);
      StepKeepsOrder(Run(Init(file), front), steps[|steps| - 1]);
    }
  }

  /** In every history the counts returned by one sequence are strictly increasing,
      whatever other sequences do to the file in between. */
  lemma SequenceIncreases(file: bytes, steps: seq<Step>, i: nat, j: nat)
    requires i < j < |Run(Init(file), steps).returned|
    requires Run(Init(file), steps).returned[i].sequence == Run(Init(file), steps).returned[j].sequence
    ensures Run(Init(file), steps).returned[i].count < Run(Init(file), steps).returned[j].count
  {
    OrderAlways(file, steps);
  }

  /** All steps are those of callers of the given sequences. */
  ghost predicate By(steps: seq<Step>, sequences: set<nat>) {
    forall i :: 0 <= i < |steps| ==> steps[i].c.sequence in sequences
  }

  ghost predicate From(s: State, sequences: set<nat>) {
    && (forall c :: c in s.callers ==> c.sequence in sequences)
    && (forall i :: 0 <= i < |s.returned| ==> s.returned[i].sequence in sequences)
  }

  lemma {:induction false} FromAlways(file: bytes, steps: seq<Step>, sequences: set<nat>)
    requires By(steps, sequences)
    ensures From(Run(Init(file), steps), sequences)
  {
    if |steps| > 0 {
      FromAlways(file, steps[..|steps| - 1], sequences);
    }
  }

  /** The file never falls below its first value, so neither do the counts. */
  ghost predicate Above(s: State, start: nat) {
    && start <= Value(s.file)
    && (forall c :: c in s.callers && (s.callers[c].Read? || Outstanding(s.callers[c])) ==> start <= s.callers[c].count)
    && (forall i :: 0 <= i < |s.returned| ==> start <= s.returned[i].count)
  }

  lemma StepKeepsAbove(s: State, step: Step, start: nat)
    requires Inv(s) && Above(s, start)
    ensures Above(Apply(s, step), start)
  {
    match step {
      case WriteCounter(c) =>
        if c in s.callers && s.callers[c].Read? {
          OverwriteNotBelow(s.file, 8);
        }
      case WriteTorn(c, k) =>
        if c in s.callers && s.callers[c].Read? && k <= 8 {
          OverwriteNotBelow(s.file, k);
        }
      case _ =>
    }
  }

  lemma {:induction false} AboveAlways(file: bytes, steps: seq<Step>)
    ensures Above(Run(Init(file), steps), Value(file))
  {
    if |steps| > 0 {
      var front := steps[..|steps| - 1];
      AboveAlways(file, front);
      InvAlways(file, front);
      StepKeepsAbove(Run(Init(file), front), steps[|steps| - 1], Value(file));
    }
  }

  ghost predicate InOrder(returned: seq<Issued>) {
    forall i, j :: 0 <= i < j < |returned| ==> returned[i].count < returned[j].count
  }

  /** In every history of these sequences over this file, counts are returned in
      increasing order. */
  ghost predicate AlwaysInOrder(file: bytes, sequences: set<nat>) {
    forall steps :: By(steps, sequences) ==> InOrder(Run(Init(file), steps).returned)
  }

  lemma RunStep(s: State, steps: seq<Step>, k: nat)
    requires k < |steps|
    ensures Run(s, steps[..k + 1]) == Apply(Run(s, steps[..k]), steps[k])
  {
    assert steps[..k + 1][..k] == steps[..k];
  }

  /** The steps of a call up to the release of the lock. */
  function Call(c: Caller): seq<Step> {
    [TakeMutex(c), TakeLock(c), ReadCounter(c), WriteCounter(c), ReleaseLock(c)]
  }

  lemma RunFive(s: State, steps: seq<Step>)
    requires |steps| == 5
    ensures Run(s, steps) == Apply(Apply(Apply(Apply(Apply(s, steps[0]), steps[1]), steps[2]), steps[3]), steps[4])
  {
    forall k | 0 <= k < 5
      ensures Run(s, steps[..k + 1]) == Apply(Run(s, steps[..k]), steps[k])
    {
      RunStep(s, steps, k);
    }
    assert steps[..5] == steps;
  }

  /** Neither the mutex nor the lock is taken. */
  ghost predicate Idle(s: State, c: Caller) {
    s.lock == Free && c !in s.callers && c.sequence !in s.mutexes
  }

  /** Run undisturbed, they take the value of the file and leave the next one. */
  lemma OneCall(s: State, c: Caller)
    requires Idle(s, c) && Value(s.file) < U64_MAX
    ensures var v := Value(s.file);
            Run(s, Call(c)) == State(Overwritten(s.file, v + 1, 8), Free, s.mutexes[c.sequence := c],
                                     s.callers[c := Unlocked(v)], s.granted + [v], s.returned)
    ensures Value(Run(s, Call(c)).file) == Value(s.file) + 1
  {
    RunFive(s, Call(c));
    OverwriteNotBelow(s.file, 8);
    FiveSteps(s, c, Value(s.file));
  }

  /** A file that is too short to hold a counter starts at 1. */
  lemma FirstCall(s: State, c: Caller)
    requires Idle(s, c) && |s.file| < 8
    ensures Run(s, Call(c)).granted == s.granted + [1] && Value(Run(s, Call(c)).file) == 2
  {
    OneCall(s, c);
  }

  lemma FiveSteps(s: State, c: Caller, v: nat)
    requires Idle(s, c) && v == Value(s.file) < U64_MAX
    ensures var locked := Apply(Apply(s, TakeMutex(c)), TakeLock(c));
            Apply(Apply(Apply(locked, ReadCounter(c)), WriteCounter(c)), ReleaseLock(c)) ==
            State(Overwritten(s.file, v + 1, 8), Free, s.mutexes[c.sequence := c], s.callers[c := Unlocked(v)],
                  s.granted + [v], s.returned)
  {
    var s3 := s.(lock := HeldBy(c), mutexes := s.mutexes[c.sequence := c], callers := s.callers[c := Read(v)]);
    assert Apply(Apply(Apply(s, TakeMutex(c)), TakeLock(c)), ReadCounter(c)) == s3;
    assert Apply(Apply(s3, WriteCounter(c)), ReleaseLock(c)).callers == s.callers[c := Unlocked(v)];
  }

  /** Two sequences are not ordered by a mutex: the lock on the file is released
      before the call returns, so the later count can be returned first. */
  lemma ReturnsCanOvertake(s: State, c: Caller, d: Caller)
    requires Idle(s, c) && Idle(s, d) && c.sequence != d.sequence && Value(s.file) < U64_MAX - 1
    ensures var v := Value(s.file);
            Run(s, Overtaking(c, d)).returned == s.returned + [Issued(d.sequence, v + 1), Issued(c.sequence, v)]
  {
    OneCall(s, c);
    var s1 := Run(s, Call(c));
    OneCall(s1, d);
    RunAppend(s, Call(c), Call(d));
    RunLast(s, Call(c) + Call(d), Return(d));
    RunLast(s, Call(c) + Call(d) + [Return(d)], Return(c));
    TwoReturns(Run(s1, Call(d)), c, d);
  }

  function Overtaking(c: Caller, d: Caller): seq<Step> {
    Call(c) + Call(d) + [Return(d)] + [Return(c)]
  }

  lemma TwoReturns(s: State, c: Caller, d: Caller)
    requires c in s.callers && d in s.callers && c != d && s.callers[c].Unlocked? && s.callers[d].Unlocked?
    ensures Apply(Apply(s, Return(d)), Return(c)).returned ==
            s.returned + [Issued(d.sequence, s.callers[d].count), Issued(c.sequence, s.callers[c].count)]
  {
  }

  lemma RunLast(s: State, steps: seq<Step>, last: Step)
    ensures Run(s, steps + [last]) == Apply(Run(s, steps), last)
  {
    assert (steps + [last])[..|steps|] == steps;
  }

  lemma {:induction false} RunAppend(s: State, a: seq<Step>, b: seq<Step>)
    ensures Run(s, a + b) == Run(Run(s, a), b)
  {
    if |b| == 0 {
      assert a + b == a;
    } else {
      var k := |b| - 1;
      RunAppend(s, a, b[..k]);
      assert (a + b)[..|a + b| - 1] == a + b[..k];
    }
  }

  lemma OneSequenceInOrder(file: bytes, sequences: set<nat>, steps: seq<Step>)
    requires (forall q, r :: q in sequences && r in sequences ==> q == r) && By(steps, sequences)
    ensures InOrder(Run(Init(file), steps).returned)
  {
    FromAlways(file, steps, sequences);
    OrderAlways(file, steps);
  }

  lemma LastCountInOrder(file: bytes, steps: seq<Step>)
    requires Value(file) >= U64_MAX - 1
    ensures InOrder(Run(Init(file), steps).returned)
  {
    InvAlways(file, steps);
    AboveAlways(file, steps);
  }

  lemma TwoSequencesOvertake(file: bytes, sequences: set<nat>, q: nat, r: nat)
    requires q in sequences && r in sequences && q != r && Value(file) < U64_MAX - 1
    ensures !AlwaysInOrder(file, sequences)
  {
    var c, d := Caller(0, q), Caller(0, r);
    ReturnsCanOvertake(Init(file), c, d);
    var returned := Run(Init(file), Overtaking(c, d)).returned;
    assert returned[0].count > returned[1].count;
    assert By(Overtaking(c, d), sequences);
  }

  /** Counts are returned in increasing order in all histories exactly when all callers
      share one sequence, or the file has fewer than two counts left. */
  lemma InOrderIff(file: bytes, sequences: set<nat>)
    ensures AlwaysInOrder(file, sequences) <==>
            (forall q, r :: q in sequences && r in sequences ==> q == r) || Value(file) >= U64_MAX - 1
  {
    if Value(file) >= U64_MAX - 1 {
      forall steps | By(steps, sequences)
        ensures InOrder(Run(Init(file), steps).returned)
      {
        LastCountInOrder(file, steps);
      }
    } else if q, r :| q in sequences && r in sequences && q != r {
      TwoSequencesOvertake(file, sequences, q, r);
    } else {
      forall steps | By(steps, sequences)
        ensures InOrder(Run(Init(file), steps).returned)
      {
        OneSequenceInOrder(file, sequences, steps);
      }
    }
  }
}
