/** The policy on client quote types: the configured requirement and its check
    against the quotes of one request. */
module QuotePolicy {

  datatype QuoteType =
    | Sgx | Tdx | SevSnp | TrustZone | Tpm | NvidiaGpu | AwsNitro | ZkCompressed | Mock
    | Unknown(name: string)

  ghost predicate NoDuplicates(ts: seq<QuoteType>) {
    forall i, j :: 0 <= i < j < |ts| ==> ts[i] != ts[j]
  }

  ghost predicate SameElements(xs: seq<QuoteType>, ys: seq<QuoteType>) {
    forall t :: t in xs <==> t in ys
  }

  // ---- configuration: sort by a key, then drop adjacent repetitions ----

  /** The sort order: `sort_by_key` compares the debug texts, which differ for different
      types. */
  type Order = (QuoteType, QuoteType) -> bool

  ghost predicate Total(le: Order) {
    && (forall s, t :: le(s, t) || le(t, s))
    && (forall s, t :: le(s, t) && le(t, s) ==> s == t)
    && (forall s, t, u :: le(s, t) && le(t, u) ==> le(s, u))
  }

  ghost predicate Ascending(le: Order, ts: seq<QuoteType>) {
    forall i, j :: 0 <= i < j < |ts| ==> le(ts[i], ts[j])
  }

  function InsertSorted(le: Order, t: QuoteType, ts: seq<QuoteType>): seq<QuoteType> {
    if |ts| == 0 || le(t, ts[0]) then [t] + ts else [ts[0]] + InsertSorted(le, t, ts[1..])
  }

  function SortByKey(le: Order, ts: seq<QuoteType>): seq<QuoteType> {
    if |ts| == 0 then [] else InsertSorted(le, ts[0], SortByKey(le, ts[1..]))
  }

  function Dedup(ts: seq<QuoteType>): seq<QuoteType> {
    if |ts| <= 1 then ts
    else if ts[0] == ts[1] then Dedup(ts[1..])
    else [ts[0]] + Dedup(ts[1..])
  }

  /** `with_required_client_quote_types`. */
  function Required(le: Order, types: seq<QuoteType>): seq<QuoteType> {
    Dedup(SortByKey(le, types))
  }

  lemma {:induction false} InsertSortedCorrect(le: Order, t: QuoteType, ts: seq<QuoteType>)
    requires Total(le) && Ascending(le, ts)
    ensures Ascending(le, InsertSorted(le, t, ts))
    ensures forall x :: x in InsertSorted(le, t, ts) <==> x == t || x in ts
  {
    if |ts| > 0 && !le(t, ts[0]) {
      InsertSortedCorrect(le, t, ts[1..]);
      var rest := InsertSorted(le, t, ts[1..]);
      assert forall x :: x in rest ==> le(ts[0], x);
      assert forall x :: x in ts <==> x == ts[0] || x in ts[1..];
    }
  }

  lemma {:induction false} SortByKeyCorrect(le: Order, ts: seq<QuoteType>)
    requires Total(le)
    ensures Ascending(le, SortByKey(le, ts)) && SameElements(SortByKey(le, ts), ts)
  {
    if |ts| > 0 {
      SortByKeyCorrect(le, ts[1..]);
      InsertSortedCorrect(le, ts[0], SortByKey(le, ts[1..]));
      assert forall x :: x in ts <==> x == ts[0] || x in ts[1..];
    }
  }

  lemma {:induction false} DedupSorted(le: Order, ts: seq<QuoteType>)
    requires Total(le) && Ascending(le, ts)
    ensures NoDuplicates(Dedup(ts)) && SameElements(Dedup(ts), ts)
    ensures |ts| > 0 ==> |Dedup(ts)| > 0 && Dedup(ts)[0] == ts[0]
  {
    if |ts| > 1 {
      DedupSorted(le, ts[1..]);
      assert forall x :: x in ts <==> x == ts[0] || x in ts[1..];
      if ts[0] != ts[1] {
        assert !le(ts[1], ts[0]);
        assert forall x :: x in ts[1..] ==> le(ts[1], x);
        assert ts[0] !in Dedup(ts[1..]);
      }
    }
  }

  /** The configured requirement lists every requested type exactly once. */
  lemma RequiredIsASet(le: Order, types: seq<QuoteType>)
    requires Total(le)
    ensures NoDuplicates(Required(le, types)) && SameElements(Required(le, types), types)
  {
    SortByKeyCorrect(le, types);
    DedupSorted(le, SortByKey(le, types));
  }

  // ---- the check ----

  datatype Verdict =
    | Pass
    | AttestationRequired
    | Unexpected(t: QuoteType)
    | Duplicate(t: QuoteType)
    | Missing(t: QuoteType)

  /** The first k quotes are of different required types. */
  ghost predicate Clean(required: seq<QuoteType>, quotes: seq<QuoteType>, k: nat) {
    k <= |quotes| && NoDuplicates(quotes[..k]) && forall t :: t in quotes[..k] ==> t in required
  }

  /** The type t is the first fault among the quotes: the ones before it are clean. */
  ghost predicate FaultAt(required: seq<QuoteType>, quotes: seq<QuoteType>, k: nat, t: QuoteType) {
    k < |quotes| && quotes[k] == t && Clean(required, quotes, k)
  }

  ghost predicate FirstMissing(required: seq<QuoteType>, quotes: seq<QuoteType>, k: nat, t: QuoteType) {
    k < |required| && required[k] == t && t !in quotes && forall i :: 0 <= i < k ==> required[i] in quotes
  }

  method CheckRequired(required: seq<QuoteType>, quotes: seq<QuoteType>) returns (v: Verdict)
    ensures v == Pass <==> required == [] || (NoDuplicates(quotes) && SameElements(quotes, required))
    ensures v == AttestationRequired <==> required != [] && quotes == []
    ensures v.Unexpected? ==> v.t !in required && exists k: nat :: FaultAt(required, quotes, k, v.t)
    ensures v.Duplicate? ==> v.t in required && exists k: nat :: FaultAt(required, quotes, k, v.t) && v.t in quotes[..k]
    ensures v.Missing? ==>
              Clean(required, quotes, |quotes|) && exists k: nat :: FirstMissing(required, quotes, k, v.t)
  {
    if required == [] {
      return Pass;
    }
    if quotes == [] {
      assert required[0] in required;
      return AttestationRequired;
    }
    var seen := [];
    for k := 0 to |quotes|
      invariant seen == quotes[..k]
      invariant NoDuplicates(seen)
      invariant forall t :: t in seen ==> t in required
    {
      var t := quotes[k];
      assert FaultAt(required, quotes, k, t);
      if t !in required {
        return Unexpected(t);
      }
      if t in seen {
        assert seen[..] == quotes[..k];
        return Duplicate(t);
      }
      seen := seen + [t];
    }
    assert seen == quotes;
    for k := 0 to |required|
      invariant forall i :: 0 <= i < k ==> required[i] in seen
    {
      if required[k] !in seen {
        assert quotes[..|quotes|] == quotes;
        assert FirstMissing(required, quotes, k, required[k]);
        return Missing(required[k]);
      }
    }
    return Pass;
  }

  lemma {:induction false} CountOfDistinct(ts: seq<QuoteType>, t: QuoteType)
    requires NoDuplicates(ts)
    ensures multiset(ts)[t] == if t in ts then 1 else 0
  {
    if |ts| > 0 {
      CountOfDistinct(ts[1..], t);
      assert ts == [ts[0]] + ts[1..];
      assert ts[0] !in ts[1..];
    }
  }

  /** With the configured requirement, a bundle passes exactly when nothing is
      required or its types are a permutation of the requested set. */
  lemma PassIsPermutation(le: Order, types: seq<QuoteType>, quotes: seq<QuoteType>)
    requires Total(le)
    ensures NoDuplicates(quotes) && SameElements(quotes, Required(le, types)) <==>
            multiset(quotes) == multiset(Required(le, types))
  {
    var required := Required(le, types);
    RequiredIsASet(le, types);
    if NoDuplicates(quotes) && SameElements(quotes, required) {
      SameSetsSameCounts(quotes, required);
    }
    if multiset(quotes) == multiset(required) {
      SameCountsSameSets(quotes, required);
    }
  }

  lemma SameSetsSameCounts(ts: seq<QuoteType>, us: seq<QuoteType>)
    requires NoDuplicates(ts) && NoDuplicates(us) && SameElements(ts, us)
    ensures multiset(ts) == multiset(us)
  {
    forall t
      ensures multiset(ts)[t] == multiset(us)[t]
    {
      CountOfDistinct(ts, t);
      CountOfDistinct(us, t);
    }
  }

  lemma SameCountsSameSets(ts: seq<QuoteType>, us: seq<QuoteType>)
    requires NoDuplicates(us) && multiset(ts) == multiset(us)
    ensures NoDuplicates(ts) && SameElements(ts, us)
  {
    forall t
      ensures multiset(ts)[t] <= 1 && (t in ts <==> t in us)
    {
      CountOfDistinct(us, t);
      assert t in ts <==> t in multiset(ts);
    }
    DistinctFromCounts(ts);
  }

  lemma DistinctFromCounts(ts: seq<QuoteType>)
    requires forall t :: multiset(ts)[t] <= 1
    ensures NoDuplicates(ts)
  {
    forall i, j | 0 <= i < j < |ts|
      ensures ts[i] != ts[j]
    {
      assert ts == ts[..j] + [ts[j]] + ts[j + 1..];
      assert ts[i] in ts[..j];
      assert multiset(ts)[ts[j]] >= multiset(ts[..j])[ts[j]] + 1;
    }
  }
}
