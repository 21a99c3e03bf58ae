/** Which answers the policy cache remembers: an entry is kept while fewer other keys than
    the capacity are used after it, and dropped once that many are stored. */
module CacheRecency {
  import opened Outcomes
  import opened PolicyCache

  function KeyOf(e: Event): string {
    CacheKey(e.r)
  }

  ghost predicate Distinct(cache: Cache) {
    forall i, j :: 0 <= i < j < |cache| ==> cache[i].0 != cache[j].0
  }

  /** The keys in front of a key. */
  ghost function Ahead(cache: Cache, key: string): set<string> {
    if |cache| == 0 || cache[0].0 == key then {} else {cache[0].0} + Ahead(cache[1..], key)
  }

  // ---- one step ----

  lemma {:induction false} AheadAreKeys(cache: Cache, key: string, k: string)
    requires k in Ahead(cache, key)
    ensures exists i :: 0 <= i < |cache| && cache[i].0 == k
  {
    if cache[0].0 != k {
      AheadAreKeys(cache[1..], key, k);
    }
  }

  /** Taking another key out leaves the rest in its order. */
  lemma {:induction false} WithoutOther(cache: Cache, other: string, key: string)
    requires other != key
    ensures Find(Without(cache, other), key) == Find(cache, key)
    ensures Ahead(Without(cache, other), key) == Ahead(cache, key) - {other}
  {
    if |cache| > 0 {
      WithoutOther(cache[1..], other, key);
    }
  }

  lemma {:induction false} WithoutDistinct(cache: Cache, key: string)
    requires Distinct(cache)
    ensures Distinct(Without(cache, key))
  {
    if |cache| > 0 {
      WithoutDistinct(cache[1..], key);
    }
  }

  /** A prefix of n entries holds exactly the keys with fewer than n others in front. */
  lemma {:induction false} CutOff(cache: Cache, n: nat, key: string)
    requires Distinct(cache) && n <= |cache|
    ensures Find(cache[..n], key) == if |Ahead(cache, key)| < n then Find(cache, key) else None
    ensures Find(cache[..n], key).Some? ==> Ahead(cache[..n], key) == Ahead(cache, key)
  {
    if |cache| > 0 && cache[0].0 != key {
      if cache[0].0 in Ahead(cache[1..], key) {
        AheadAreKeys(cache[1..], key, cache[0].0);
      }
      if n > 0 {
        CutOff(cache[1..], n - 1, key);
        assert cache[..n][1..] == cache[1..][..n - 1];
      }
    }
  }

  lemma {:induction false} FewAhead(cache: Cache, key: string)
    requires Find(cache, key).Some?
    ensures |Ahead(cache, key)| < |cache|
  {
    if cache[0].0 != key {
      FewAhead(cache[1..], key);
    }
  }

  /** The list before its end is cut off. */
  lemma InFront(cache: Cache, key: string, allowed: bool, longer: Cache)
    requires Distinct(cache) && longer == [(key, allowed)] + Without(cache, key)
    ensures Distinct(longer)
  {
    WithoutDistinct(cache, key);
  }

  lemma AheadInFront(cache: Cache, key: string, allowed: bool, longer: Cache, other: string)
    requires longer == [(key, allowed)] + Without(cache, key) && other != key
    ensures Find(longer, other) == Find(cache, other) && Ahead(longer, other) == {key} + Ahead(cache, other)
  {
    assert longer[1..] == Without(cache, key);
    WithoutOther(cache, key, other);
  }

  /** Storing or refreshing a key puts it in front. */
  lemma PutFrontFirst(capacity: nat, cache: Cache, key: string, allowed: bool)
    requires capacity > 0 && Distinct(cache)
    ensures var after := PutFront(capacity, cache, key, allowed);
            Distinct(after) && Find(after, key) == Some(allowed) && Ahead(after, key) == {}
  {
    InFront(cache, key, allowed, [(key, allowed)] + Without(cache, key));
  }

  /** Another key stays exactly when fewer than the capacity are then in front of it. */
  lemma PutFrontIff(capacity: nat, cache: Cache, key: string, allowed: bool, other: string)
    requires Distinct(cache) && other != key
    ensures var after := PutFront(capacity, cache, key, allowed);
            && Find(after, other) ==
               (if |{key} + Ahead(cache, other)| < capacity then Find(cache, other) else None)
            && (Find(after, other).Some? ==> Ahead(after, other) == {key} + Ahead(cache, other))
  {
    var longer := [(key, allowed)] + Without(cache, key);
    InFront(cache, key, allowed, longer);
    AheadInFront(cache, key, allowed, longer, other);
    if |longer| > capacity {
      CutOff(longer, capacity, other);
    } else if Find(longer, other).Some? {
      FewAhead(longer, other);
    }
  }

  // ---- runs ----

  lemma {:induction false} RunDistinct(lower: string -> string, config: AiqlConfig, capacity: nat, events: seq<Event>)
    requires capacity > 0
    ensures Distinct(Run(lower, config, capacity, events))
  {
    if |events| > 0 {
      var k := |events| - 1;
      RunDistinct(lower, config, capacity, events[..k]);
      StepDistinct(lower, config, capacity, Run(lower, config, capacity, events[..k]), events[k]);
    }
  }

  lemma StepDistinct(lower: string -> string, config: AiqlConfig, capacity: nat, cache: Cache, e: Event)
    requires capacity > 0 && Distinct(cache)
    ensures Distinct(Step(lower, config, capacity, cache, e))
  {
    var key := KeyOf(e);
    if e.Fill? {
      PutFrontFirst(capacity, cache, key, Allowed(lower, config, e.r));
    } else if Find(cache, key).Some? {
      PutFrontFirst(capacity, cache, key, Find(cache, key).value);
    }
  }

  /** What one event does to an entry. */
  lemma StepOn(lower: string -> string, config: AiqlConfig, capacity: nat, cache: Cache, e: Event, key: string)
    requires capacity > 0 && Distinct(cache)
    ensures var after := Step(lower, config, capacity, cache, e);
            var front := {KeyOf(e)} + Ahead(cache, key);
            && (KeyOf(e) == key ==>
                (e.Fill? || Find(cache, key).Some?) ==> Find(after, key).Some? && Ahead(after, key) == {})
            && (KeyOf(e) != key && Find(cache, key).Some? ==>
                && (|front| < capacity ==> Find(after, key) == Find(cache, key))
                && (Find(after, key).Some? ==>
                    Ahead(after, key) <= front && Ahead(cache, key) <= Ahead(after, key)
                    && (e.Fill? ==> KeyOf(e) in Ahead(after, key))))
            && (KeyOf(e) != key && Find(cache, key).None? ==> Find(after, key).None?)
  {
    var k := KeyOf(e);
    if e.Fill? || Find(cache, k).Some? {
      var allowed := if e.Fill? then Allowed(lower, config, e.r) else Find(cache, k).value;
      if k == key {
        PutFrontFirst(capacity, cache, k, allowed);
      } else {
        PutFrontIff(capacity, cache, k, allowed, key);
      }
    }
  }

  ghost function Keys(events: seq<Event>): set<string> {
    if |events| == 0 then {} else Keys(events[..|events| - 1]) + {KeyOf(events[|events| - 1])}
  }

  /** The keys that are stored. */
  ghost function Filled(events: seq<Event>): set<string> {
    if |events| == 0 then {}
    else
      var last := events[|events| - 1];
      Filled(events[..|events| - 1]) + if last.Fill? then {KeyOf(last)} else {}
  }

  lemma SubsetSize<T>(a: set<T>, b: set<T>)
    requires a <= b
    ensures |a| <= |b|
  {
    assert b == a + (b - a);
  }

  lemma StepKeeps(lower: string -> string, config: AiqlConfig, capacity: nat, cache: Cache, e: Event, key: string,
                  used: set<string>)
    requires Distinct(cache) && Find(cache, key).Some? && Ahead(cache, key) <= used
    requires |used + {KeyOf(e)} - {key}| < capacity && key !in used
    ensures var after := Step(lower, config, capacity, cache, e);
            Find(after, key).Some? && Ahead(after, key) <= used + {KeyOf(e)} - {key}
  {
    StepOn(lower, config, capacity, cache, e, key);
    if KeyOf(e) != key {
      SubsetSize({KeyOf(e)} + Ahead(cache, key), used + {KeyOf(e)} - {key});
    }
  }

  lemma RunSnoc(lower: string -> string, config: AiqlConfig, capacity: nat, past: seq<Event>, later: seq<Event>)
    requires |later| > 0
    ensures var k := |later| - 1;
            Run(lower, config, capacity, past + later) ==
            Step(lower, config, capacity, Run(lower, config, capacity, past + later[..k]), later[k])
  {
    assert (past + later)[..|past + later| - 1] == past + later[..|later| - 1];
  }

  lemma OneMore(later: seq<Event>, key: string)
    requires |later| > 0
    ensures var k := |later| - 1;
            var used := Keys(later[..k]) - {key};
            Keys(later) - {key} == used + {KeyOf(later[k])} - {key} && |used| <= |Keys(later) - {key}|
  {
    SubsetSize(Keys(later[..|later| - 1]) - {key}, Keys(later) - {key});
  }

  /** A key that is in front stays as long as few others are used. */
  lemma {:induction false} KeptFrom(lower: string -> string, config: AiqlConfig, capacity: nat, past: seq<Event>,
                                    key: string, later: seq<Event>)
    requires |Keys(later) - {key}| < capacity
    requires var cache := Run(lower, config, capacity, past); Find(cache, key).Some? && Ahead(cache, key) == {}
    ensures var cache := Run(lower, config, capacity, past + later);
            Find(cache, key).Some? && Ahead(cache, key) <= Keys(later) - {key}
  {
    if |later| == 0 {
      assert past + later == past;
    } else {
      var k := |later| - 1;
      OneMore(later, key);
      KeptFrom(lower, config, capacity, past, key, later[..k]);
      RunDistinct(lower, config, capacity, past + later[..k]);
      RunSnoc(lower, config, capacity, past, later);
      var before := Run(lower, config, capacity, past + later[..k]);
      StepKeeps(lower, config, capacity, before, later[k], key, Keys(later[..k]) - {key});
    }
  }

  /** In every run an answer that event e stored or found is still there if fewer than
      `capacity` other keys were looked up or stored after that. */
  lemma KeptWhileRecent(lower: string -> string, config: AiqlConfig, capacity: nat, past: seq<Event>, e: Event,
                        later: seq<Event>)
    requires e.Fill? || Find(Run(lower, config, capacity, past), KeyOf(e)).Some?
    requires |Keys(later) - {KeyOf(e)}| < capacity
    ensures Find(Run(lower, config, capacity, past + [e] + later), KeyOf(e)).Some?
  {
    RunDistinct(lower, config, capacity, past);
    StepOn(lower, config, capacity, Run(lower, config, capacity, past), e, KeyOf(e));
    assert [e][..0] == [] && past + [] == past;
    RunSnoc(lower, config, capacity, past, [e]);
    KeptFrom(lower, config, capacity, past + [e], KeyOf(e), later);
  }

  lemma {:induction false} FilledAreAhead(lower: string -> string, config: AiqlConfig, capacity: nat, past: seq<Event>,
                                          key: string, later: seq<Event>)
    requires capacity > 0 && key !in Keys(later)
    ensures var cache := Run(lower, config, capacity, past + later);
            Find(cache, key).Some? ==> Filled(later) <= Ahead(cache, key)
  {
    if |later| > 0 {
      var k := |later| - 1;
      FilledAreAhead(lower, config, capacity, past, key, later[..k]);
      RunDistinct(lower, config, capacity, past + later[..k]);
      RunSnoc(lower, config, capacity, past, later);
      StepOn(lower, config, capacity, Run(lower, config, capacity, past + later[..k]), later[k], key);
    }
  }

  /** And an answer is gone once `capacity` other keys were stored and it was not asked for
      meanwhile. */
  lemma DroppedWhenOld(lower: string -> string, config: AiqlConfig, capacity: nat, past: seq<Event>, key: string,
                       later: seq<Event>)
    requires capacity > 0 && key !in Keys(later) && |Filled(later)| >= capacity
    ensures Find(Run(lower, config, capacity, past + later), key).None?
  {
    var cache := Run(lower, config, capacity, past + later);
    FilledAreAhead(lower, config, capacity, past, key, later);
    RunBounded(lower, config, capacity, past + later);
    if Find(cache, key).Some? {
      SubsetSize(Filled(later), Ahead(cache, key));
      FewAhead(cache, key);
    }
  }

  lemma {:induction false} RunBounded(lower: string -> string, config: AiqlConfig, capacity: nat, events: seq<Event>)
    ensures |Run(lower, config, capacity, events)| <= capacity
  {
    if |events| > 0 {
      RunBounded(lower, config, capacity, events[..|events| - 1]);
    }
  }
}
