/** The anti-replay window. What it answers is specified over the history of
    accepted nonces alone; the class keeps only the highest nonce and the ring. */
module ReplayGuard {
  import opened ReplayRing

  datatype Verdict = Ok | Replay(nonce: nat) | TooOld(nonce: nat)

  function Highest(history: seq<nat>): (h: nat)
    ensures forall i :: 0 <= i < |history| ==> history[i] <= h
    ensures h == 0 || h in history
  {
    if |history| == 0 then 0
    else
      var h := Highest(history[..|history| - 1]);
      var last := history[|history| - 1];
      if last > h then last else h
  }

  /** Some accepted nonce shared the place of n at a time when n was not above
      the highest nonce. */
  ghost predicate MarkedBy(history: seq<nat>, w: nat, n: nat)
    requires w > 0
  {
    exists i :: 0 <= i < |history| && Place(history[i], w) == Place(n, w) && n <= Highest(history[..i + 1])
  }

  /** The answer to a check of n after the nonces of `history` were accepted, in
      that order, by whatever calls. */
  ghost function Specified(history: seq<nat>, w: nat, n: nat): Verdict
    requires w > 0
  {
    if n == 0 || n + 64 * w <= Highest(history) then TooOld(n)
    else if n <= Highest(history) && MarkedBy(history, w, n) then Replay(n)
    else Ok
  }

  ghost predicate Represents(highest: nat, window: seq<bv64>, history: seq<nat>)
  {
    && |window| > 0
    && highest == Highest(history)
    && forall n: nat :: n <= highest < n + 64 * |window| ==> (Seen(window, n) <==> MarkedBy(history, |window|, n))
  }

  class ReplayGuardInner {
    var highest: nat
    var window: array<bv64>
    ghost var history: seq<nat>

    ghost predicate Valid()
      reads this, window
    {
      Represents(highest, window[..], history)
    }

    constructor (w: nat)
      requires w > 0
      ensures Valid() && fresh(window) && window.Length == w && history == []
    {
      highest := 0;
      window := new bv64[w](_ => 0);
      history := [];
      new;
      forall n: nat
        ensures !Seen(window[..], n)
      {
        EmptyUnseen(window[..], n);
      }
    }

    method Check(nonce: nat) returns (v: Verdict)
      requires Valid()
      ensures v == Specified(history, window.Length, nonce)
    {
      if nonce == 0 {
        return TooOld(nonce);
      }
      if nonce > highest {
        return Ok;
      }
      var diff := highest - nonce;
      if diff >= window.Length * 64 {
        return TooOld(nonce);
      }
      var slot := Slot(nonce, window.Length);
      var bit := Bit(nonce, window.Length);
      assert Seen(window[..], nonce) == TestBit(window[slot], bit);
      if TestBit(window[slot], bit) {
        return Replay(nonce);
      }
      return Ok;
    }

    method Accept(nonce: nat)
      requires Valid()
      modifies this, window
      ensures Valid() && window == old(window)
      ensures history == old(history) + [nonce]
    {
      ghost var before := window[..];
      if nonce > highest {
        MoveUp(nonce);
        EnterWindow(highest, before, history, nonce, window[..]);
        highest := nonce;
      } else {
        MarkInWindow(highest, before, history, nonce);
      }
      ghost var cleared := window[..];
      var slot := Slot(nonce, window.Length);
      window[slot] := WithBit(window[slot], Bit(nonce, window.Length));
      assert window[..] == SetBit(cleared, nonce);
      history := history + [nonce];
    }

    /** Frees the places of the nonces that enter the window: one by one, or all at once
        when none of the old ones stays. */
    method MoveUp(nonce: nat)
      requires window.Length > 0 && nonce > highest
      modifies window
      ensures forall n: nat :: n <= highest && nonce < n + 64 * window.Length ==>
                (Seen(window[..], n) <==> old(Seen(window[..], n)))
      ensures forall n: nat :: highest < n <= nonce < n + 64 * window.Length ==> !Seen(window[..], n)
    {
      var advance := nonce - highest;
      if advance >= window.Length * 64 {
        forall i | 0 <= i < window.Length {
          window[i] := 0;
        }
        forall n: nat
          ensures !Seen(window[..], n)
        {
          EmptyUnseen(window[..], n);
        }
      } else {
        Reclaim(advance);
      }
    }

    /** The loop of `accept`: clear the bit of every nonce that enters the window. */
    method Reclaim(advance: nat)
      requires window.Length > 0
      requires advance < window.Length * 64
      modifies window
      ensures forall n: nat :: n <= highest && highest + advance < n + 64 * window.Length ==>
                (Seen(window[..], n) <==> old(Seen(window[..], n)))
      ensures forall n: nat :: highest < n <= highest + advance ==> !Seen(window[..], n)
    {
      var w := window.Length;
      for step := 1 to advance + 1
        invariant forall n: nat :: n <= highest && highest + advance < n + 64 * w ==>
                    (Seen(window[..], n) <==> old(Seen(window[..], n)))
        invariant forall n: nat :: highest < n < highest + step ==> !Seen(window[..], n)
      {
        ghost var before := window[..];
        var reclaimed := highest + step;
        var slot := Slot(reclaimed, w);
        window[slot] := WithoutBit(window[slot], Bit(reclaimed, w));
        assert window[..] == ClearBit(before, reclaimed);
        forall n: nat
          ensures n <= highest && highest + advance < n + 64 * w ==> (Seen(window[..], n) <==> Seen(before, n))
          ensures highest < n < highest + step ==> !Seen(window[..], n)
          ensures n == reclaimed ==> !Seen(window[..], n)
        {
          ClearBitEffect(before, reclaimed, n);
          if n <= highest && highest + advance < n + 64 * w && Place(reclaimed, w) == Place(n, w) {
            PlacesDistinct(n, reclaimed, w);
          }
        }
      }
    }

    method CheckAndAccept(nonce: nat) returns (v: Verdict)
      requires Valid()
      modifies this, window
      ensures Valid() && window == old(window)
      ensures v == Specified(old(history), window.Length, nonce)
      ensures history == if v.Ok? then old(history) + [nonce] else old(history)
      ensures old(Disciplined(history, window.Length)) ==> Disciplined(history, window.Length)
    {
      v := Check(nonce);
      if v.Ok? {
        if Disciplined(history, window.Length) {
          DisciplineKept(history, window.Length, nonce);
        }
        Accept(nonce);
      }
    }

    method ExportState() returns (h: nat, words: seq<bv64>)
      requires Valid()
      ensures Represents(h, words, history) && |words| == window.Length
    {
      return highest, window[..];
    }

    /** A guard restored from an exported state answers as the exporting guard
        would, now and after any further calls. */
    method ImportState(h: nat, words: seq<bv64>, ghost past: seq<nat>)
      requires Represents(h, words, past) && |words| == window.Length
      modifies this, window
      ensures Valid() && window == old(window) && history == past
    {
      highest := h;
      forall i | 0 <= i < window.Length {
        window[i] := words[i];
      }
      history := past;
      assert window[..] == words;
    }
  }

  // ---- one accept, on values ----

  lemma HighestAppend(history: seq<nat>, m: nat)
    ensures Highest(history + [m]) == if m > Highest(history) then m else Highest(history)
  {
    assert (history + [m])[..|history|] == history;
  }

  lemma MarkedByAppend(history: seq<nat>, m: nat, w: nat, n: nat)
    requires w > 0
    ensures MarkedBy(history + [m], w, n) <==>
            MarkedBy(history, w, n) || (Place(m, w) == Place(n, w) && n <= Highest(history + [m]))
  {
    var longer := history + [m];
    assert longer[..|history| + 1] == longer;
    assert longer[|history|] == m;
    assert forall i :: 0 <= i < |history| ==> longer[i] == history[i] && longer[..i + 1] == history[..i + 1];
  }

  lemma MarkedBelowHighest(history: seq<nat>, w: nat, n: nat)
    requires w > 0 && MarkedBy(history, w, n)
    ensures n <= Highest(history)
  {
    var i :| 0 <= i < |history| && Place(history[i], w) == Place(n, w) && n <= Highest(history[..i + 1]);
    HighestMonotone(history, i + 1);
  }

  lemma HighestMonotone(history: seq<nat>, k: nat)
    requires k <= |history|
    ensures Highest(history[..k]) <= Highest(history)
  {
    var h := Highest(history[..k]);
    if h != 0 {
      assert h in history[..k];
    }
  }

  lemma MarkInWindow(highest: nat, window: seq<bv64>, history: seq<nat>, m: nat)
    requires Represents(highest, window, history)
    requires m <= highest
    ensures Represents(highest, SetBit(window, m), history + [m])
  {
    HighestAppend(history, m);
    forall n: nat | n <= highest < n + 64 * |window|
      ensures Seen(SetBit(window, m), n) <==> MarkedBy(history + [m], |window|, n)
    {
      SetBitEffect(window, m, n);
      MarkedByAppend(history, m, |window|, n);
    }
  }

  lemma EnterWindow(highest: nat, window: seq<bv64>, history: seq<nat>, m: nat, cleared: seq<bv64>)
    requires Represents(highest, window, history)
    requires m > highest && |cleared| == |window|
    requires forall n: nat :: n <= highest && m < n + 64 * |window| ==> (Seen(cleared, n) <==> Seen(window, n))
    requires forall n: nat :: highest < n <= m < n + 64 * |window| ==> !Seen(cleared, n)
    ensures Represents(m, SetBit(cleared, m), history + [m])
  {
    var w := |window|;
    HighestAppend(history, m);
    forall n: nat | n <= m < n + 64 * w
      ensures Seen(SetBit(cleared, m), n) <==> MarkedBy(history + [m], w, n)
    {
      SetBitEffect(cleared, m, n);
      MarkedByAppend(history, m, w, n);
      if Place(m, w) == Place(n, w) {
        PlacesDistinct(n, m, w);
      }
      if n > highest && MarkedBy(history, w, n) {
        MarkedBelowHighest(history, w, n);
      }
    }
  }

  // ---- what the specification promises, for every history ----

  /** However checks and accepts are interleaved, a nonce once accepted is
      refused by every later check. */
  lemma AcceptedIsRefused(history: seq<nat>, w: nat, i: nat)
    requires w > 0 && i < |history|
    ensures Specified(history, w, history[i]) != Ok
  {
    var n := history[i];
    assert history[..i + 1][i] == n;
    assert n <= Highest(history[..i + 1]);
  }

  /** Every nonce was accepted by a call that checked it first. */
  ghost predicate Disciplined(history: seq<nat>, w: nat)
    requires w > 0
  {
    forall i :: 0 <= i < |history| ==> Specified(history[..i], w, history[i]) == Ok
  }

  /** The mark of a nonce in the window that was not accepted itself comes from
      an accept of a nonce that had already left the window. */
  lemma MarkOrigin(history: seq<nat>, w: nat, n: nat, i: nat)
    requires w > 0 && i < |history|
    requires n <= Highest(history) < n + 64 * w
    requires Place(history[i], w) == Place(n, w) && n <= Highest(history[..i + 1])
    ensures history[i] == n || (history[i] + 64 * w <= Highest(history[..i]) && n <= Highest(history[..i]))
  {
    var m := history[i];
    assert history[..i + 1] == history[..i] + [m];
    HighestAppend(history[..i], m);
    HighestMonotone(history, i + 1);
    if m + 64 * w > Highest(history[..i + 1]) {
      if m <= n {
        PlacesDistinct(m, n, w);
      } else {
        PlacesDistinct(n, m, w);
      }
    }
  }

  /** From an empty guard driven by `check_and_accept` alone, the window refines
      the set of accepted nonces together with its maximum. */
  lemma ExactWhenDisciplined(history: seq<nat>, w: nat, n: nat)
    requires w > 0 && Disciplined(history, w)
    ensures Specified(history, w, n) == Ok <==> n >= 1 && n !in history && n + 64 * w > Highest(history)
    ensures Specified(history, w, n) == TooOld(n) <==> n == 0 || n + 64 * w <= Highest(history)
    ensures Specified(history, w, n) == Replay(n) <==> n in history && n + 64 * w > Highest(history)
  {
    if n in history {
      var i :| 0 <= i < |history| && history[i] == n;
      AcceptedIsRefused(history, w, i);
      assert Specified(history[..i], w, history[i]) == Ok;
    } else if n >= 1 && n <= Highest(history) < n + 64 * w && MarkedBy(history, w, n) {
      var i :| 0 <= i < |history| && Place(history[i], w) == Place(n, w) && n <= Highest(history[..i + 1]);
      assert Specified(history[..i], w, history[i]) == Ok;
      MarkOrigin(history, w, n, i);
      assert false;
    }
  }

  /** And then no nonce is accepted twice. */
  lemma AcceptedOnce(history: seq<nat>, w: nat, i: nat, j: nat)
    requires w > 0 && Disciplined(history, w)
    requires i < j < |history|
    ensures history[i] != history[j]
  {
    AcceptedIsRefused(history[..j], w, i);
    assert history[..j][i] == history[i];
  }

  /** With separate `check` and `accept` calls a nonce that was never accepted is
      reported as a replay exactly when some earlier accept took a nonce that had
      left the window and lies a whole number of windows below it. */
  lemma FalseReplayIff(history: seq<nat>, w: nat, n: nat)
    requires w > 0 && n !in history
    ensures Specified(history, w, n) == Replay(n) <==>
            && 1 <= n <= Highest(history) < n + 64 * w
            && exists i :: && 0 <= i < |history|
                           && history[i] + 64 * w <= Highest(history[..i])
                           && n <= Highest(history[..i])
                           && Place(history[i], w) == Place(n, w)
  {
    if Specified(history, w, n) == Replay(n) {
      var i :| 0 <= i < |history| && Place(history[i], w) == Place(n, w) && n <= Highest(history[..i + 1]);
      MarkOrigin(history, w, n, i);
    }
    forall i | 0 <= i < |history| && n <= Highest(history[..i])
      ensures n <= Highest(history[..i + 1])
    {
      assert history[..i + 1][..i] == history[..i];
      HighestMonotone(history[..i + 1], i);
    }
  }

  /** Such a refusal does happen: with one word, accepting 100 and then the
      expired 30 makes the fresh nonce 94 look replayed. */
  lemma FalseReplayExample()
    ensures Specified([100, 30], 1, 94) == Replay(94)
    ensures Specified([100], 1, 30) == TooOld(30)
  {
    var history: seq<nat> := [100, 30];
    assert history[..1] == [100];
    assert Highest([]) == 0 && Highest(history[..1]) == 100;
    HighestAppend([100], 30);
    assert history == [100] + [30];
    FalseReplayIff(history, 1, 94);
    assert Place(history[1], 1) == Place(94, 1);
  }

  // ---- refinement of the plain set-and-maximum model ----

  /** The simplest possible guard: every accepted nonce, and the largest. */
  datatype SetModel = SetModel(accepted: set<nat>, highest: nat) {
    function Answer(w: nat, n: nat): Verdict {
      if n == 0 || n + 64 * w <= highest then TooOld(n)
      else if n in accepted then Replay(n)
      else Ok
    }

    function After(w: nat, n: nat): SetModel {
      if Answer(w, n).Ok? then SetModel(accepted + {n}, if n > highest then n else highest) else this
    }
  }

  /** The model's answers to a sequence of nonces, and its state after them. */
  function Modelled(w: nat, nonces: seq<nat>): (r: (seq<Verdict>, SetModel))
    ensures |r.0| == |nonces|
  {
    if |nonces| == 0 then ([], SetModel({}, 0))
    else
      var (answers, m) := Modelled(w, nonces[..|nonces| - 1]);
      var n := nonces[|nonces| - 1];
      (answers + [m.Answer(w, n)], m.After(w, n))
  }

  lemma DisciplineKept(history: seq<nat>, w: nat, n: nat)
    requires w > 0 && Disciplined(history, w)
    requires Specified(history, w, n) == Ok
    ensures Disciplined(history + [n], w)
  {
    var longer := history + [n];
    forall i | 0 <= i < |longer|
      ensures Specified(longer[..i], w, longer[i]) == Ok
    {
      if i < |history| {
        assert longer[..i] == history[..i];
      } else {
        assert longer[..i] == history;
      }
    }
  }

  ghost predicate Matches(m: SetModel, history: seq<nat>)
  {
    m == SetModel((set n | n in history), Highest(history))
  }

  lemma AnswerMatches(m: SetModel, history: seq<nat>, w: nat, n: nat)
    requires w > 0 && Disciplined(history, w) && Matches(m, history)
    ensures m.Answer(w, n) == Specified(history, w, n)
  {
    ExactWhenDisciplined(history, w, n);
  }

  lemma AfterMatches(m: SetModel, history: seq<nat>, w: nat, n: nat)
    requires Matches(m, history)
    ensures Matches(m.After(w, n), if m.Answer(w, n).Ok? then history + [n] else history)
  {
    HighestAppend(history, n);
    assert (set k | k in history + [n]) == (set k | k in history) + {n};
  }

  /** A new guard fed any sequence of nonces through `check_and_accept` gives the
      answers of the set model. */
  method AnswerAll(w: nat, nonces: seq<nat>) returns (verdicts: seq<Verdict>)
    requires w > 0
    ensures verdicts == Modelled(w, nonces).0
  {
    var guard := new ReplayGuardInner(w);
    verdicts := [];
    ghost var model := SetModel({}, 0);
    for k := 0 to |nonces|
      invariant fresh(guard) && fresh(guard.window) && guard.Valid() && guard.window.Length == w
      invariant Disciplined(guard.history, w) && Matches(model, guard.history)
      invariant Modelled(w, nonces[..k]) == (verdicts, model)
    {
      var n := nonces[k];
      AnswerMatches(model, guard.history, w, n);
      AfterMatches(model, guard.history, w, n);
      var v := guard.CheckAndAccept(n);
      verdicts, model := verdicts + [v], model.After(w, n);
      assert nonces[..k + 1][..k] == nonces[..k];
    }
    assert nonces[..|nonces|] == nonces;
  }
}
