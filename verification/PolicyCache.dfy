/** The intent policy engine: a decision function behind an LRU cache whose key is
    the text "debug:namespace:action". */
module PolicyCache {
  import opened Outcomes
  import opened Texts

  datatype AiqlConfig = AiqlConfig(
    maliciousKeywords: seq<string>,
    restrictedNamespaces: seq<string>,
    strictDebugMode: bool)

  datatype IdentityMeasurement = IdentityMeasurement(mrenclave: string, mrsigner: string, isDebug: bool)

  datatype Request = Request(measurement: IdentityMeasurement, namespace: string, action: string)

  // ---- the decision ----

  datatype Reason =
    | Benign
    | StrictDebug(word: string)
    | RestrictedNamespace(namespace: string)
    | MaliciousKeyword(word: string)

  /** The first listed word that the text contains. */
  function FirstIncluded(words: seq<string>, text: string): Option<string> {
    if |words| == 0 then None
    else if Includes(text, words[0]) then Some(words[0])
    else FirstIncluded(words[1..], text)
  }

  const SENSITIVE: seq<string> := ["production", "override", "system_write"]

  /** `evaluate_intent`; `lower` is `to_lowercase`. */
  function EvaluateIntent(lower: string -> string, config: AiqlConfig, r: Request): Reason {
    var text := lower(r.action);
    var sensitive := if r.measurement.isDebug && config.strictDebugMode then FirstIncluded(SENSITIVE, text) else None;
    if sensitive.Some? then StrictDebug(sensitive.value)
    else if r.namespace in config.restrictedNamespaces && (Includes(text, "write") || Includes(text, "delete")) then
      RestrictedNamespace(r.namespace)
    else
      var keyword := FirstIncluded(config.maliciousKeywords, text);
      if keyword.Some? then MaliciousKeyword(keyword.value) else Benign
  }

  function Allowed(lower: string -> string, config: AiqlConfig, r: Request): bool {
    EvaluateIntent(lower, config, r).Benign?
  }

  lemma {:induction false} FirstIncludedIsFirst(words: seq<string>, text: string)
    ensures FirstIncluded(words, text).None? <==> forall w :: w in words ==> !Includes(text, w)
    ensures FirstIncluded(words, text).Some? ==>
              exists i :: 0 <= i < |words| && words[i] == FirstIncluded(words, text).value && Includes(text, words[i])
                          && forall j :: 0 <= j < i ==> !Includes(text, words[j])
  {
    if |words| > 0 && Includes(text, words[0]) {
      assert words[0] in words;
    } else if |words| > 0 {
      var rest := words[1..];
      FirstIncludedIsFirst(rest, text);
      assert forall w :: w in words <==> w == words[0] || w in rest;
      if FirstIncluded(rest, text).Some? {
        var i :| 0 <= i < |rest| && rest[i] == FirstIncluded(rest, text).value && Includes(text, rest[i])
                 && forall j :: 0 <= j < i ==> !Includes(text, rest[j]);
        assert words[i + 1] == rest[i];
        assert forall j :: 1 <= j < i + 1 ==> words[j] == rest[j - 1];
      }
    }
  }

  /** An action is allowed exactly when it contains no malicious keyword, does not
      write to or delete from a restricted namespace, and is not a sensitive action of
      a debug enclave under strict debug mode. */
  lemma AllowedIff(lower: string -> string, config: AiqlConfig, r: Request)
    ensures Allowed(lower, config, r) <==>
            var text := lower(r.action);
            && (forall w :: w in config.maliciousKeywords ==> !Includes(text, w))
            && (r.namespace in config.restrictedNamespaces ==> !Includes(text, "write") && !Includes(text, "delete"))
            && (r.measurement.isDebug && config.strictDebugMode ==>
                !Includes(text, "production") && !Includes(text, "override") && !Includes(text, "system_write"))
  {
    assert SENSITIVE[0] == "production" && SENSITIVE[1] == "override" && SENSITIVE[2] == "system_write";
    FirstIncludedIsFirst(config.maliciousKeywords, lower(r.action));
    FirstIncludedIsFirst(SENSITIVE, lower(r.action));
  }

  // ---- the cache key ----

  function CacheKey(r: Request): string {
    (if r.measurement.isDebug then "true" else "false") + ":" + r.namespace + ":" + r.action
  }

  /** Requests that the key cannot tell apart: they may differ in the enclave's
      identity only. */
  ghost predicate SameQuestion(r: Request, q: Request) {
    r.measurement.isDebug == q.measurement.isDebug && r.namespace == q.namespace && r.action == q.action
  }

  /** No namespace continues another one after a colon. */
  ghost predicate Unambiguous(names: set<string>) {
    forall m, n :: m in names && n in names && m != n ==> !(m + ":" <= n)
  }

  lemma KeyParts(r: Request, q: Request)
    ensures CacheKey(r) == CacheKey(q) <==>
            && r.measurement.isDebug == q.measurement.isDebug
            && r.namespace + ":" + r.action == q.namespace + ":" + q.action
  {
    var tr, tq := r.namespace + ":" + r.action, q.namespace + ":" + q.action;
    assert CacheKey(r) == (if r.measurement.isDebug then "true:" else "false:") + tr;
    assert CacheKey(q) == (if q.measurement.isDebug then "true:" else "false:") + tq;
    if CacheKey(r) == CacheKey(q) {
      assert CacheKey(r)[0] == if r.measurement.isDebug then 't' else 'f';
      assert CacheKey(q)[0] == if q.measurement.isDebug then 't' else 'f';
      var k := if r.measurement.isDebug then 5 else 6;
      assert tr == CacheKey(r)[k..] && tq == CacheKey(q)[k..];
    }
  }

  /** Two names are confused by some pair of actions exactly when one continues the
      other after a colon. */
  lemma ConfusedIff(m: string, n: string)
    requires m != n
    ensures (exists a, b :: m + ":" + a == n + ":" + b) <==> m + ":" <= n || n + ":" <= m
  {
    if a, b :| m + ":" + a == n + ":" + b {
      if |m| < |n| {
        ShorterContinues(m, a, n, b);
      } else if |n| < |m| {
        ShorterContinues(n, b, m, a);
      } else {
        SameLengthSame(m, a, n, b);
      }
    }
    if m + ":" <= n {
      assert m + ":" + (n[|m| + 1..] + ":") == n + ":" + "";
    }
    if n + ":" <= m {
      assert m + ":" + "" == n + ":" + (m[|n| + 1..] + ":");
    }
  }

  lemma SameLengthSame(m: string, a: string, n: string, b: string)
    requires |m| == |n| && m + ":" + a == n + ":" + b
    ensures m == n
  {
    assert m == (m + ":" + a)[..|m|] && n == (n + ":" + b)[..|n|];
  }

  lemma ShorterContinues(m: string, a: string, n: string, b: string)
    requires |m| < |n| && m + ":" + a == n + ":" + b
    ensures m + ":" <= n
  {
    var whole := m + ":" + a;
    assert m + ":" == whole[..|m| + 1] && n == (n + ":" + b)[..|n|] == whole[..|n|];
    assert whole[..|n|][..|m| + 1] == whole[..|m| + 1];
  }

  /** Over unambiguous namespaces the key identifies the question. */
  lemma KeyIdentifiesQuestion(names: set<string>, r: Request, q: Request)
    requires Unambiguous(names) && r.namespace in names && q.namespace in names
    requires CacheKey(r) == CacheKey(q)
    ensures SameQuestion(r, q)
  {
    KeyParts(r, q);
    if r.namespace != q.namespace {
      ConfusedIff(r.namespace, q.namespace);
    } else {
      var n := |r.namespace| + 1;
      assert r.action == (r.namespace + ":" + r.action)[n..];
      assert q.action == (q.namespace + ":" + q.action)[n..];
    }
  }

  lemma ColonFreeIsUnambiguous(names: set<string>)
    requires forall n :: n in names ==> ':' !in n
    ensures Unambiguous(names)
  {
    forall m, n | m in names && n in names
      ensures !(m + ":" <= n)
    {
      if m + ":" <= n {
        ContinuationHasColon(m, n);
      }
    }
  }

  lemma ContinuationHasColon(m: string, n: string)
    requires m + ":" <= n
    ensures ':' in n
  {
    assert n[|m|] == (m + ":")[|m|];
  }

  // ---- the LRU cache, most recently used first ----

  type Cache = seq<(string, bool)>

  function Find(cache: Cache, key: string): Option<bool> {
    if |cache| == 0 then None
    else if cache[0].0 == key then Some(cache[0].1)
    else Find(cache[1..], key)
  }

  function Without(cache: Cache, key: string): (r: Cache)
    ensures |r| <= |cache|
    ensures forall e :: e in r ==> e in cache && e.0 != key
  {
    if |cache| == 0 then []
    else if cache[0].0 == key then Without(cache[1..], key)
    else [cache[0]] + Without(cache[1..], key)
  }

  function PutFront(capacity: nat, cache: Cache, key: string, allowed: bool): (r: Cache)
    ensures |r| <= capacity
    ensures forall e :: e in r ==> e == (key, allowed) || e in cache
  {
    var longer := [(key, allowed)] + Without(cache, key);
    if |longer| <= capacity then longer else longer[..capacity]
  }

  lemma {:induction false} FindIsEntry(cache: Cache, key: string)
    requires Find(cache, key).Some?
    ensures (key, Find(cache, key).value) in cache
  {
    if cache[0].0 != key {
      FindIsEntry(cache[1..], key);
    }
  }

  // ---- runs ----

  /** A call looks the key up and, if it misses, decides and later stores the
      decision; between the two steps of one call others may run. */
  datatype Event =
    | LookUp(r: Request)
    | Fill(r: Request)

  function Step(lower: string -> string, config: AiqlConfig, capacity: nat, cache: Cache, e: Event): Cache {
    match e
    case LookUp(r) =>
      (match Find(cache, CacheKey(r))
       case None => cache
       case Some(allowed) => PutFront(capacity, cache, CacheKey(r), allowed))
    case Fill(r) => PutFront(capacity, cache, CacheKey(r), Allowed(lower, config, r))
  }

  function Run(lower: string -> string, config: AiqlConfig, capacity: nat, events: seq<Event>): Cache {
    if |events| == 0 then []
    else Step(lower, config, capacity, Run(lower, config, capacity, events[..|events| - 1]), events[|events| - 1])
  }

  /** What a call that looks up now answers. */
  function Answer(lower: string -> string, config: AiqlConfig, cache: Cache, r: Request): bool {
    match Find(cache, CacheKey(r))
    case Some(allowed) => allowed
    case None => Allowed(lower, config, r)
  }

  ghost predicate Over(names: set<string>, events: seq<Event>) {
    forall i :: 0 <= i < |events| ==> events[i].r.namespace in names
  }

  /** In every run over these namespaces every answer is the fresh decision. */
  ghost predicate Transparent(lower: string -> string, config: AiqlConfig, capacity: nat, names: set<string>) {
    forall events, r: Request :: Over(names, events) && r.namespace in names ==>
      Answer(lower, config, Run(lower, config, capacity, events), r) == Allowed(lower, config, r)
  }

  /** Requests with the same key get the same decision. */
  ghost predicate KeyRespectsDecision(lower: string -> string, config: AiqlConfig, names: set<string>) {
    forall r: Request, q: Request :: r.namespace in names && q.namespace in names && CacheKey(r) == CacheKey(q) ==>
      Allowed(lower, config, r) == Allowed(lower, config, q)
  }

  ghost predicate Coherent(lower: string -> string, config: AiqlConfig, names: set<string>, cache: Cache) {
    forall e, r: Request :: e in cache && r.namespace in names && CacheKey(r) == e.0 ==>
      e.1 == Allowed(lower, config, r)
  }

  lemma StepKeepsCoherent(lower: string -> string, config: AiqlConfig, capacity: nat, names: set<string>, cache: Cache,
                          e: Event)
    requires KeyRespectsDecision(lower, config, names) && e.r.namespace in names
    requires Coherent(lower, config, names, cache)
    ensures Coherent(lower, config, names, Step(lower, config, capacity, cache, e))
  {
    var key := CacheKey(e.r);
    if e.LookUp? && Find(cache, key).Some? {
      FindIsEntry(cache, key);
    }
  }

  lemma {:induction false} RunIsCoherent(lower: string -> string, config: AiqlConfig, capacity: nat, names: set<string>,
                                         events: seq<Event>)
    requires KeyRespectsDecision(lower, config, names) && Over(names, events)
    ensures Coherent(lower, config, names, Run(lower, config, capacity, events))
  {
    if |events| > 0 {
      var k := |events| - 1;
      RunIsCoherent(lower, config, capacity, names, events[..k]);
      StepKeepsCoherent(lower, config, capacity, names, Run(lower, config, capacity, events[..k]), events[k]);
    }
  }

  /** The cache is invisible in every run exactly when requests that share a key
      share their decision, whatever is evicted and however calls interleave. */
  lemma TransparentIff(lower: string -> string, config: AiqlConfig, capacity: nat, names: set<string>)
    requires capacity > 0
    ensures Transparent(lower, config, capacity, names) <==> KeyRespectsDecision(lower, config, names)
  {
    if KeyRespectsDecision(lower, config, names) {
      forall events, r: Request | Over(names, events) && r.namespace in names
        ensures Answer(lower, config, Run(lower, config, capacity, events), r) == Allowed(lower, config, r)
      {
        var cache := Run(lower, config, capacity, events);
        RunIsCoherent(lower, config, capacity, names, events);
        if Find(cache, CacheKey(r)).Some? {
          FindIsEntry(cache, CacheKey(r));
        }
      }
    }
    if Transparent(lower, config, capacity, names) {
      forall r: Request, q: Request | r.namespace in names && q.namespace in names && CacheKey(r) == CacheKey(q)
        ensures Allowed(lower, config, r) == Allowed(lower, config, q)
      {
        AnswerAfterFill(lower, config, capacity, r, q);
        assert Over(names, [Fill(r)]);
      }
    }
  }

  lemma AnswerAfterFill(lower: string -> string, config: AiqlConfig, capacity: nat, r: Request, q: Request)
    requires capacity > 0 && CacheKey(r) == CacheKey(q)
    ensures Answer(lower, config, Run(lower, config, capacity, [Fill(r)]), q) == Allowed(lower, config, r)
  {
    var events := [Fill(r)];
    assert events[..0] == [];
    assert Run(lower, config, capacity, events) == Step(lower, config, capacity, [], Fill(r));
  }

  /** The enclave's identity is not in the key, and does not matter. */
  lemma DecisionIgnoresIdentity(lower: string -> string, config: AiqlConfig, r: Request, q: Request)
    requires SameQuestion(r, q)
    ensures Allowed(lower, config, r) == Allowed(lower, config, q)
  {
  }

  /** Over unambiguous namespaces, in particular over ones without a colon, the
      cache is invisible for every configuration. */
  lemma TransparentWhenUnambiguous(lower: string -> string, config: AiqlConfig, capacity: nat, names: set<string>)
    requires capacity > 0 && Unambiguous(names)
    ensures Transparent(lower, config, capacity, names)
  {
    forall r: Request, q: Request | r.namespace in names && q.namespace in names && CacheKey(r) == CacheKey(q)
      ensures Allowed(lower, config, r) == Allowed(lower, config, q)
    {
      KeyIdentifiesQuestion(names, r, q);
      DecisionIgnoresIdentity(lower, config, r, q);
    }
    TransparentIff(lower, config, capacity, names);
  }

  /** Lower-casing leaves a trailing "write" in the text. */
  ghost predicate KeepsWrite(lower: string -> string) {
    forall text :: Includes(lower(text + "write"), "write")
  }

  /** Otherwise there is a configuration under which it is not: restrict the namespace m,
      and a write in its continuation n shares the key of a forbidden write in m. */
  lemma ContinuationBreaks(lower: string -> string, capacity: nat, names: set<string>, m: string, n: string)
    requires capacity > 0 && KeepsWrite(lower)
    requires m in names && n in names && m != n && m + ":" <= n
    ensures !Transparent(lower, AiqlConfig([], [m], false), capacity, names)
  {
    var config := AiqlConfig([], [m], false);
    var id := IdentityMeasurement("", "", false);
    var rest := n[|m| + 1..];
    var r, q := Request(id, n, "write"), Request(id, m, rest + ":" + "write");
    assert n == m + ":" + rest;
    assert n + ":" + "write" == m + ":" + (rest + ":" + "write");
    KeyParts(r, q);
    AllowedIff(lower, config, r);
    AllowedIff(lower, config, q);
    assert Allowed(lower, config, r) && !Allowed(lower, config, q);
    TransparentIff(lower, config, capacity, names);
  }

  /** The cache is invisible under all configurations exactly when no namespace continues
      another one after a colon. */
  lemma TransparentForAllIff(lower: string -> string, capacity: nat, names: set<string>)
    requires capacity > 0 && KeepsWrite(lower)
    ensures (forall config :: Transparent(lower, config, capacity, names)) <==> Unambiguous(names)
  {
    if Unambiguous(names) {
      forall config
        ensures Transparent(lower, config, capacity, names)
      {
        TransparentWhenUnambiguous(lower, config, capacity, names);
      }
    } else {
      var m, n :| m in names && n in names && m != n && m + ":" <= n;
      ContinuationBreaks(lower, capacity, names, m, n);
    }
  }

  /** For example "system" and "system:x", with only the first restricted. */
  lemma ColonBreaksTransparency(lower: string -> string, capacity: nat)
    requires capacity > 0 && KeepsWrite(lower)
    ensures !Transparent(lower, AiqlConfig([], ["system"], false), capacity, {"system", "system:x"})
  {
    assert "system" + ":" <= "system:x";
    ContinuationBreaks(lower, capacity, {"system", "system:x"}, "system", "system:x");
  }

  // ---- the engine ----

  class AiqlPolicyEngine {
    const lower: string -> string
    const config: AiqlConfig
    const capacity: nat
    var cache: Cache
    var evaluations: nat
    ghost var names: set<string>
    ghost var past: seq<Event>

    /** The cache is what the calls so far, over these namespaces, made of an empty one. */
    ghost predicate Valid()
      reads this
    {
      capacity > 0 && Over(names, past) && cache == Run(lower, config, capacity, past)
    }

    constructor (lower: string -> string, config: AiqlConfig)
      ensures Valid() && this.lower == lower && this.config == config && names == {}
    {
      this.lower, this.config, capacity := lower, config, 1000;
      cache, evaluations := [], 0;
      names, past := {}, [];
    }

    /** One call is a step of the run: a hit answers from the cache and refreshes the
        entry, a miss decides and stores. The answer is the fresh decision as long as
        the namespaces asked about so far do not continue each other after a colon. */
    method IsAuthorized(r: Request) returns (allowed: bool)
      requires Valid()
      modifies this
      ensures Valid() && evaluations == old(evaluations) + 1 && names == old(names) + {r.namespace}
      ensures allowed == Answer(lower, config, old(cache), r)
      ensures cache == Step(lower, config, capacity, old(cache),
                            if Find(old(cache), CacheKey(r)).Some? then LookUp(r) else Fill(r))
      ensures Unambiguous(names) ==> allowed == Allowed(lower, config, r)
    {
      evaluations := evaluations + 1;
      names := names + {r.namespace};
      var key := CacheKey(r);
      if Unambiguous(names) {
        TransparentWhenUnambiguous(lower, config, capacity, names);
        assert Answer(lower, config, cache, r) == Allowed(lower, config, r);
      }
      match Find(cache, key) {
        case Some(hit) =>
          cache := PutFront(capacity, cache, key, hit);
          Remember(LookUp(r));
          return hit;
        case None =>
          allowed := EvaluateIntent(lower, config, r).Benign?;
          cache := PutFront(capacity, cache, key, allowed);
          Remember(Fill(r));
      }
    }

    ghost method Remember(e: Event)
      requires capacity > 0 && Over(names, past) && e.r.namespace in names
      requires cache == Step(lower, config, capacity, Run(lower, config, capacity, past), e)
      modifies this`past
      ensures Valid()
    {
      var before := past;
      past := past + [e];
      assert past[..|before|] == before;
    }
  }
}
