/** Evaluation of AIQL conditions, with errors for unknown fields, and the policy
    engine that runs a list of policies over a context. */
module AiqlEngine {
  import opened AiqlParser
  import opened Texts

  datatype Result<T> = Ok(value: T) | UnknownField(name: string)

  datatype Context = Context(callerDid: string, callerMrenclave: string, intent: string, namespace: string)

  function ResolveField(ctx: Context, field: string): Result<string> {
    match field
    case "caller.did" => Ok(ctx.callerDid)
    case "caller.mrenclave" => Ok(ctx.callerMrenclave)
    case "intent" => Ok(ctx.intent)
    case "namespace" => Ok(ctx.namespace)
    case _ => UnknownField(field)
  }

  function Test(r: Result<string>, p: string -> bool): Result<bool> {
    match r
    case Ok(text) => Ok(p(text))
    case UnknownField(name) => UnknownField(name)
  }

  function Evaluate(c: Condition, ctx: Context): Result<bool>
    decreases c, 0
  {
    match c
    case Equals(field, value) => Test(ResolveField(ctx, field), text => text == value)
    case Contains(field, value) => Test(ResolveField(ctx, field), text => Includes(text, value))
    case NotContains(field, value) => Test(ResolveField(ctx, field), text => !Includes(text, value))
    case And(conds) => EvaluateAll(conds, ctx)
    case Or(conds) => EvaluateAny(conds, ctx)
  }

  /** The first operand that is false or fails decides; the rest is not looked at. */
  function EvaluateAll(conds: seq<Condition>, ctx: Context): Result<bool>
    decreases conds, 0
  {
    if |conds| == 0 then Ok(true)
    else
      var first := Evaluate(conds[0], ctx);
      if first == Ok(true) then EvaluateAll(conds[1..], ctx) else first
  }

  function EvaluateAny(conds: seq<Condition>, ctx: Context): Result<bool>
    decreases conds, 0
  {
    if |conds| == 0 then Ok(false)
    else
      var first := Evaluate(conds[0], ctx);
      if first == Ok(false) then EvaluateAny(conds[1..], ctx) else first
  }

  // ---- plain boolean meaning ----

  predicate Known(field: string) {
    field in {"caller.did", "caller.mrenclave", "intent", "namespace"}
  }

  ghost predicate AllKnown(c: Condition) {
    match c
    case And(conds) => forall i :: 0 <= i < |conds| ==> AllKnown(conds[i])
    case Or(conds) => forall i :: 0 <= i < |conds| ==> AllKnown(conds[i])
    case _ => Known(c.field)
  }

  function Text(ctx: Context, field: string): string {
    match field
    case "caller.did" => ctx.callerDid
    case "caller.mrenclave" => ctx.callerMrenclave
    case "intent" => ctx.intent
    case _ => ctx.namespace
  }

  /** The meaning of a condition when order and errors do not matter. */
  ghost predicate Holds(c: Condition, ctx: Context) {
    match c
    case Equals(field, value) => Text(ctx, field) == value
    case Contains(field, value) => Includes(Text(ctx, field), value)
    case NotContains(field, value) => !Includes(Text(ctx, field), value)
    case And(conds) => forall i :: 0 <= i < |conds| ==> Holds(conds[i], ctx)
    case Or(conds) => exists i :: 0 <= i < |conds| && Holds(conds[i], ctx)
  }

  lemma FieldResolves(ctx: Context, field: string)
    ensures Known(field) ==> ResolveField(ctx, field) == Ok(Text(ctx, field))
    ensures !Known(field) ==> ResolveField(ctx, field) == UnknownField(field)
  {
  }

  // ---- errors ----

  /** The condition reports this unknown field. A test reports its own field. An And
      reports what an operand reports when all operands before it hold, and an Or when none
      of them does; the operands before it report nothing themselves. */
  ghost predicate Reports(c: Condition, ctx: Context, name: string)
    decreases c, 0
  {
    match c
    case And(conds) => AndReports(conds, ctx, name)
    case Or(conds) => OrReports(conds, ctx, name)
    case _ => !Known(c.field) && name == c.field
  }

  ghost predicate Silent(c: Condition, ctx: Context)
    decreases c, 1
  {
    forall name :: !Reports(c, ctx, name)
  }

  ghost predicate AndReports(conds: seq<Condition>, ctx: Context, name: string)
    decreases conds, 1
  {
    exists i: nat :: AndReportsAt(conds, ctx, name, i)
  }

  ghost predicate AndReportsAt(conds: seq<Condition>, ctx: Context, name: string, i: nat)
    decreases conds, 0
  {
    && i < |conds|
    && Reports(conds[i], ctx, name)
    && forall j :: 0 <= j < i ==> Silent(conds[j], ctx) && Holds(conds[j], ctx)
  }

  ghost predicate OrReports(conds: seq<Condition>, ctx: Context, name: string)
    decreases conds, 1
  {
    exists i: nat :: OrReportsAt(conds, ctx, name, i)
  }

  ghost predicate OrReportsAt(conds: seq<Condition>, ctx: Context, name: string, i: nat)
    decreases conds, 0
  {
    && i < |conds|
    && Reports(conds[i], ctx, name)
    && forall j :: 0 <= j < i ==> Silent(conds[j], ctx) && !Holds(conds[j], ctx)
  }

  /** An evaluation that succeeds gives the boolean meaning. */
  lemma {:induction false} EvaluateMeans(c: Condition, ctx: Context)
    ensures Evaluate(c, ctx).Ok? ==> Evaluate(c, ctx).value == Holds(c, ctx)
    decreases c, 0
  {
    match c {
      case And(conds) => AllMeans(conds, ctx);
      case Or(conds) => AnyMeans(conds, ctx);
      case _ => FieldResolves(ctx, c.field);
    }
  }

  lemma {:induction false} AllMeans(conds: seq<Condition>, ctx: Context)
    ensures EvaluateAll(conds, ctx).Ok? ==>
              (EvaluateAll(conds, ctx).value <==> forall i :: 0 <= i < |conds| ==> Holds(conds[i], ctx))
    decreases conds, 0
  {
    if |conds| > 0 {
      EvaluateMeans(conds[0], ctx);
      AllMeans(conds[1..], ctx);
      assert forall i :: 1 <= i < |conds| ==> conds[i] == conds[1..][i - 1];
    }
  }

  lemma {:induction false} AnyMeans(conds: seq<Condition>, ctx: Context)
    ensures EvaluateAny(conds, ctx).Ok? ==>
              (EvaluateAny(conds, ctx).value <==> exists i :: 0 <= i < |conds| && Holds(conds[i], ctx))
    decreases conds, 0
  {
    if |conds| > 0 {
      EvaluateMeans(conds[0], ctx);
      AnyMeans(conds[1..], ctx);
      assert forall i :: 1 <= i < |conds| ==> conds[i] == conds[1..][i - 1];
    }
  }

  /** Evaluation fails with a field exactly when the condition reports that field. */
  lemma {:induction false} EvaluateReports(c: Condition, ctx: Context)
    ensures forall name :: Evaluate(c, ctx) == UnknownField(name) <==> Reports(c, ctx, name)
    decreases c, 1
  {
    forall name
      ensures Evaluate(c, ctx) == UnknownField(name) <==> Reports(c, ctx, name)
    {
      EvaluateReportsField(c, ctx, name);
    }
  }

  lemma {:induction false} EvaluateReportsField(c: Condition, ctx: Context, name: string)
    ensures Evaluate(c, ctx) == UnknownField(name) <==> Reports(c, ctx, name)
    decreases c, 0
  {
    match c {
      case And(conds) => AllReports(conds, ctx, name);
      case Or(conds) => AnyReports(conds, ctx, name);
      case _ => FieldResolves(ctx, c.field);
    }
  }

  lemma {:induction false} AllReports(conds: seq<Condition>, ctx: Context, name: string)
    ensures EvaluateAll(conds, ctx) == UnknownField(name) <==> AndReports(conds, ctx, name)
    decreases conds, 0
  {
    if |conds| > 0 {
      EvaluateReports(conds[0], ctx);
      EvaluateMeans(conds[0], ctx);
      AllReports(conds[1..], ctx, name);
      AndReportsTail(conds, ctx, name);
      assert Silent(conds[0], ctx) <==> Evaluate(conds[0], ctx).Ok?;
    }
  }

  /** The first operand reports, or it lets the others report. */
  lemma AndReportsTail(conds: seq<Condition>, ctx: Context, name: string)
    requires |conds| > 0
    ensures AndReports(conds, ctx, name) <==>
            || Reports(conds[0], ctx, name)
            || (&& Silent(conds[0], ctx)
                && Holds(conds[0], ctx)
                && AndReports(conds[1..], ctx, name))
  {
    var rest := conds[1..];
    if i: nat :| AndReportsAt(conds, ctx, name, i) {
      if i > 0 {
        assert forall j :: 0 <= j < i - 1 ==> rest[j] == conds[j + 1];
        assert AndReportsAt(rest, ctx, name, i - 1);
      }
    }
    if Reports(conds[0], ctx, name) {
      assert AndReportsAt(conds, ctx, name, 0);
    }
    if i: nat :| Silent(conds[0], ctx) && Holds(conds[0], ctx) && AndReportsAt(rest, ctx, name, i) {
      assert forall j :: 1 <= j < i + 1 ==> conds[j] == rest[j - 1];
      assert AndReportsAt(conds, ctx, name, i + 1);
    }
  }

  lemma {:induction false} AnyReports(conds: seq<Condition>, ctx: Context, name: string)
    ensures EvaluateAny(conds, ctx) == UnknownField(name) <==> OrReports(conds, ctx, name)
    decreases conds, 0
  {
    if |conds| > 0 {
      EvaluateReports(conds[0], ctx);
      EvaluateMeans(conds[0], ctx);
      AnyReports(conds[1..], ctx, name);
      OrReportsTail(conds, ctx, name);
      assert Silent(conds[0], ctx) <==> Evaluate(conds[0], ctx).Ok?;
    }
  }

  lemma OrReportsTail(conds: seq<Condition>, ctx: Context, name: string)
    requires |conds| > 0
    ensures OrReports(conds, ctx, name) <==>
            || Reports(conds[0], ctx, name)
            || (&& Silent(conds[0], ctx)
                && !Holds(conds[0], ctx)
                && OrReports(conds[1..], ctx, name))
  {
    var rest := conds[1..];
    if i: nat :| OrReportsAt(conds, ctx, name, i) {
      if i > 0 {
        assert forall j :: 0 <= j < i - 1 ==> rest[j] == conds[j + 1];
        assert OrReportsAt(rest, ctx, name, i - 1);
      }
    }
    if Reports(conds[0], ctx, name) {
      assert OrReportsAt(conds, ctx, name, 0);
    }
    if i: nat :| Silent(conds[0], ctx) && !Holds(conds[0], ctx) && OrReportsAt(rest, ctx, name, i) {
      assert forall j :: 1 <= j < i + 1 ==> conds[j] == rest[j - 1];
      assert OrReportsAt(conds, ctx, name, i + 1);
    }
  }

  /** The exact rule of evaluation: the field that the condition reports, and its boolean
      meaning if it reports none. */
  lemma EvaluateIff(c: Condition, ctx: Context, r: Result<bool>)
    ensures Evaluate(c, ctx) == r <==>
            if r.Ok? then Silent(c, ctx) && r.value == Holds(c, ctx) else Reports(c, ctx, r.name)
  {
    EvaluateReports(c, ctx);
    EvaluateMeans(c, ctx);
    if Evaluate(c, ctx).UnknownField? {
      assert Reports(c, ctx, Evaluate(c, ctx).name);
    }
  }

  lemma {:induction false} KnownIsSilent(c: Condition, ctx: Context)
    requires AllKnown(c)
    ensures Silent(c, ctx)
  {
    if c.And? || c.Or? {
      forall i | 0 <= i < |c.conds|
        ensures Silent(c.conds[i], ctx)
      {
        KnownIsSilent(c.conds[i], ctx);
      }
      forall name
        ensures !Reports(c, ctx, name)
      {
        SilentOperands(c.conds, ctx, name);
      }
    }
  }

  lemma SilentOperands(conds: seq<Condition>, ctx: Context, name: string)
    requires forall i :: 0 <= i < |conds| ==> Silent(conds[i], ctx)
    ensures !AndReports(conds, ctx, name) && !OrReports(conds, ctx, name)
  {
    forall i: nat | i < |conds|
      ensures !Reports(conds[i], ctx, name)
    {
      assert Silent(conds[i], ctx);
    }
  }

  /** With known fields, short-circuit evaluation is boolean evaluation. */
  lemma EvaluateIsHolds(c: Condition, ctx: Context)
    requires AllKnown(c)
    ensures Evaluate(c, ctx) == Ok(Holds(c, ctx))
  {
    KnownIsSilent(c, ctx);
    EvaluateIff(c, ctx, Ok(Holds(c, ctx)));
  }

  // ---- flattening ----

  /** Splices the operands of a nested And into an And, and of a nested Or into an Or. */
  function Flatten(c: Condition): Condition
    decreases c, 0
  {
    match c
    case And(conds) => And(SpliceAnd(conds))
    case Or(conds) => Or(SpliceOr(conds))
    case _ => c
  }

  function SpliceAnd(conds: seq<Condition>): seq<Condition>
    decreases conds, 0
  {
    if |conds| == 0 then []
    else
      var first := Flatten(conds[0]);
      (if first.And? then first.conds else [first]) + SpliceAnd(conds[1..])
  }

  function SpliceOr(conds: seq<Condition>): seq<Condition>
    decreases conds, 0
  {
    if |conds| == 0 then []
    else
      var first := Flatten(conds[0]);
      (if first.Or? then first.conds else [first]) + SpliceOr(conds[1..])
  }

  lemma {:induction false} EvaluateAllAppend(xs: seq<Condition>, ys: seq<Condition>, ctx: Context)
    ensures EvaluateAll(xs + ys, ctx) ==
            if EvaluateAll(xs, ctx) == Ok(true) then EvaluateAll(ys, ctx) else EvaluateAll(xs, ctx)
  {
    if |xs| == 0 {
      assert xs + ys == ys;
    } else {
      EvaluateAllAppend(xs[1..], ys, ctx);
      assert (xs + ys)[1..] == xs[1..] + ys;
    }
  }

  lemma {:induction false} EvaluateAnyAppend(xs: seq<Condition>, ys: seq<Condition>, ctx: Context)
    ensures EvaluateAny(xs + ys, ctx) ==
            if EvaluateAny(xs, ctx) == Ok(false) then EvaluateAny(ys, ctx) else EvaluateAny(xs, ctx)
  {
    if |xs| == 0 {
      assert xs + ys == ys;
    } else {
      EvaluateAnyAppend(xs[1..], ys, ctx);
      assert (xs + ys)[1..] == xs[1..] + ys;
    }
  }

  /** Flattening changes no result, not even which unknown field is reported. */
  lemma {:induction false} FlattenPreserves(c: Condition, ctx: Context)
    ensures Evaluate(Flatten(c), ctx) == Evaluate(c, ctx)
    decreases c, 0
  {
    match c {
      case And(conds) => SpliceAndPreserves(conds, ctx);
      case Or(conds) => SpliceOrPreserves(conds, ctx);
      case _ =>
    }
  }

  lemma {:induction false} SpliceAndPreserves(conds: seq<Condition>, ctx: Context)
    ensures EvaluateAll(SpliceAnd(conds), ctx) == EvaluateAll(conds, ctx)
    decreases conds, 0
  {
    if |conds| > 0 {
      var first := Flatten(conds[0]);
      FlattenPreserves(conds[0], ctx);
      SpliceAndPreserves(conds[1..], ctx);
      SingletonAll(first, ctx);
      EvaluateAllAppend(if first.And? then first.conds else [first], SpliceAnd(conds[1..]), ctx);
    }
  }

  lemma {:induction false} SpliceOrPreserves(conds: seq<Condition>, ctx: Context)
    ensures EvaluateAny(SpliceOr(conds), ctx) == EvaluateAny(conds, ctx)
    decreases conds, 0
  {
    if |conds| > 0 {
      var first := Flatten(conds[0]);
      FlattenPreserves(conds[0], ctx);
      SpliceOrPreserves(conds[1..], ctx);
      SingletonAll(first, ctx);
      EvaluateAnyAppend(if first.Or? then first.conds else [first], SpliceOr(conds[1..]), ctx);
    }
  }

  lemma SingletonAll(c: Condition, ctx: Context)
    ensures EvaluateAll([c], ctx) == Evaluate(c, ctx) == EvaluateAny([c], ctx)
  {
    assert [c][1..] == [];
  }

  // ---- policies ----

  datatype PolicyAction = Allow | Deny | Quarantine

  datatype AiqlPolicy = AiqlPolicy(name: string, condition: Condition, action: PolicyAction)

  ghost predicate Errs(p: AiqlPolicy, ctx: Context) {
    !Silent(p.condition, ctx)
  }

  ghost predicate Matches(p: AiqlPolicy, ctx: Context) {
    Silent(p.condition, ctx) && Holds(p.condition, ctx)
  }

  /** A policy that fails, or matches and does not allow, settles the outcome. */
  ghost predicate Decisive(p: AiqlPolicy, ctx: Context) {
    Errs(p, ctx) || (Matches(p, ctx) && p.action != Allow)
  }

  /** What a decisive policy makes of the payload: the field that it reports, or its
      action. */
  ghost predicate Settles(p: AiqlPolicy, ctx: Context, r: Result<PolicyAction>) {
    if r.Ok? then Matches(p, ctx) && r.value == p.action else Reports(p.condition, ctx, r.name)
  }

  ghost predicate IsFirstDecisive(policies: seq<AiqlPolicy>, ctx: Context, i: nat) {
    i < |policies| && Decisive(policies[i], ctx) && forall j :: 0 <= j < i ==> !Decisive(policies[j], ctx)
  }

  ghost predicate NoneDecisive(policies: seq<AiqlPolicy>, ctx: Context) {
    forall i :: 0 <= i < |policies| ==> !Decisive(policies[i], ctx)
  }

  ghost predicate SomeMatches(policies: seq<AiqlPolicy>, ctx: Context) {
    exists i :: 0 <= i < |policies| && Matches(policies[i], ctx)
  }

  /** The first decisive policy decides; without one the answer is Allow if any
      policy matched, and the default otherwise. */
  ghost predicate IsOutcome(policies: seq<AiqlPolicy>, default: PolicyAction, ctx: Context, r: Result<PolicyAction>) {
    && (forall i: nat :: IsFirstDecisive(policies, ctx, i) ==> Settles(policies[i], ctx, r))
    && (NoneDecisive(policies, ctx) ==> r == if SomeMatches(policies, ctx) then Ok(Allow) else Ok(default))
  }

  class AiqlEngine {
    var policies: seq<AiqlPolicy>
    const defaultAction: PolicyAction

    constructor (default: PolicyAction)
      ensures policies == [] && defaultAction == default
    {
      policies := [];
      defaultAction := default;
    }

    method LoadPolicy(policy: AiqlPolicy)
      modifies this
      ensures policies == old(policies) + [policy]
    {
      policies := policies + [policy];
    }

    method EvaluatePayload(ctx: Context) returns (r: Result<PolicyAction>)
      ensures IsOutcome(policies, defaultAction, ctx, r)
    {
      var finalAction := defaultAction;
      for k := 0 to |policies|
        invariant forall i :: 0 <= i < k ==> !Decisive(policies[i], ctx)
        invariant finalAction == if exists i :: 0 <= i < k && Matches(policies[i], ctx) then Allow else defaultAction
      {
        var policy := policies[k];
        var result := Evaluate(policy.condition, ctx);
        EvaluateIff(policy.condition, ctx, result);
        match result {
          case UnknownField(name) =>
            FirstSettles(policies, defaultAction, ctx, k, UnknownField(name));
            return UnknownField(name);
          case Ok(matched) =>
            if matched {
              if policy.action != Allow {
                FirstSettles(policies, defaultAction, ctx, k, Ok(policy.action));
              }
              match policy.action {
                case Deny => return Ok(Deny);
                case Quarantine => return Ok(Quarantine);
                case Allow => finalAction := Allow;
              }
            }
        }
      }
      return Ok(finalAction);
    }
  }

  lemma FirstSettles(policies: seq<AiqlPolicy>, default: PolicyAction, ctx: Context, k: nat, r: Result<PolicyAction>)
    requires IsFirstDecisive(policies, ctx, k) && Settles(policies[k], ctx, r)
    ensures IsOutcome(policies, default, ctx, r)
  {
    forall i: nat | IsFirstDecisive(policies, ctx, i)
      ensures i == k
    {
    }
  }

  lemma FirstDecisive(policies: seq<AiqlPolicy>, ctx: Context, i: nat) returns (first: nat)
    requires i < |policies| && Decisive(policies[i], ctx)
    ensures IsFirstDecisive(policies, ctx, first)
  {
    first := 0;
    while !Decisive(policies[first], ctx)
      invariant first <= i
      invariant forall j :: 0 <= j < first ==> !Decisive(policies[j], ctx)
      decreases i - first
    {
      first := first + 1;
    }
  }

  /** The rule leaves no choice. */
  lemma OutcomeUnique(policies: seq<AiqlPolicy>, default: PolicyAction, ctx: Context, r: Result<PolicyAction>,
                      r': Result<PolicyAction>)
    requires IsOutcome(policies, default, ctx, r) && IsOutcome(policies, default, ctx, r')
    ensures r == r'
  {
    if i :| 0 <= i < |policies| && Decisive(policies[i], ctx) {
      var first := FirstDecisive(policies, ctx, i);
      SettlesOnce(policies[first], ctx, r, r');
    }
  }

  /** A condition reports at most one field, and none if it matches. */
  lemma SettlesOnce(p: AiqlPolicy, ctx: Context, r: Result<PolicyAction>, r': Result<PolicyAction>)
    requires Settles(p, ctx, r) && Settles(p, ctx, r')
    ensures r == r'
  {
    EvaluateReports(p.condition, ctx);
  }

  function Inserted(policies: seq<AiqlPolicy>, k: nat, p: AiqlPolicy): seq<AiqlPolicy>
    requires k <= |policies|
  {
    policies[..k] + [p] + policies[k..]
  }

  lemma InsertedAt(policies: seq<AiqlPolicy>, k: nat, p: AiqlPolicy, j: nat)
    requires k <= |policies| && j <= |policies|
    ensures Inserted(policies, k, p)[j] == if j < k then policies[j] else if j == k then p else policies[j - 1]
  {
  }

  lemma InsertedFirst(policies: seq<AiqlPolicy>, k: nat, p: AiqlPolicy, ctx: Context, first: nat)
    requires k <= |policies| && !Decisive(p, ctx) && IsFirstDecisive(policies, ctx, first)
    ensures var there := if first < k then first else first + 1;
            IsFirstDecisive(Inserted(policies, k, p), ctx, there) && Inserted(policies, k, p)[there] == policies[first]
  {
    var there := if first < k then first else first + 1;
    forall j | 0 <= j <= there
      ensures j < there ==> !Decisive(Inserted(policies, k, p)[j], ctx)
      ensures j == there ==> Inserted(policies, k, p)[j] == policies[first]
    {
      InsertedAt(policies, k, p, j);
    }
  }

  lemma InsertedNone(policies: seq<AiqlPolicy>, k: nat, p: AiqlPolicy, ctx: Context)
    requires k <= |policies| && !Decisive(p, ctx) && NoneDecisive(policies, ctx)
    ensures NoneDecisive(Inserted(policies, k, p), ctx)
  {
    forall j | 0 <= j < |Inserted(policies, k, p)|
      ensures !Decisive(Inserted(policies, k, p)[j], ctx)
    {
      InsertedAt(policies, k, p, j);
    }
  }

  lemma InsertedMatches(policies: seq<AiqlPolicy>, k: nat, p: AiqlPolicy, ctx: Context)
    requires k <= |policies|
    ensures SomeMatches(Inserted(policies, k, p), ctx) <==> SomeMatches(policies, ctx) || Matches(p, ctx)
  {
    var longer := Inserted(policies, k, p);
    if i :| 0 <= i < |policies| && Matches(policies[i], ctx) {
      InsertedAt(policies, k, p, if i < k then i else i + 1);
      assert Matches(longer[if i < k then i else i + 1], ctx);
    }
    InsertedAt(policies, k, p, k);
    assert longer[k] == p;
    if j :| 0 <= j < |longer| && Matches(longer[j], ctx) {
      InsertedAt(policies, k, p, j);
    }
  }

  /** Adding an Allow policy that does not fail, at any place, never changes a Deny,
      a Quarantine or an error; it can only turn the default into Allow. */
  lemma AllowNeverOverrides(policies: seq<AiqlPolicy>, k: nat, p: AiqlPolicy, default: PolicyAction, ctx: Context,
                            r: Result<PolicyAction>, r': Result<PolicyAction>)
    requires k <= |policies| && p.action == Allow && !Errs(p, ctx)
    requires IsOutcome(policies, default, ctx, r) && IsOutcome(Inserted(policies, k, p), default, ctx, r')
    ensures r' == if NoneDecisive(policies, ctx) && Matches(p, ctx) then Ok(Allow) else r
  {
    if NoneDecisive(policies, ctx) {
      InsertedNone(policies, k, p, ctx);
      InsertedMatches(policies, k, p, ctx);
    } else {
      var i :| 0 <= i < |policies| && Decisive(policies[i], ctx);
      var first := FirstDecisive(policies, ctx, i);
      InsertedFirst(policies, k, p, ctx, first);
      SettlesOnce(policies[first], ctx, r, r');
    }
  }

  /** A policy can be kept in flattened form. */
  lemma FlattenedPolicyDecidesSame(p: AiqlPolicy, ctx: Context)
    ensures var q := p.(condition := Flatten(p.condition));
            && Decisive(q, ctx) == Decisive(p, ctx)
            && Matches(q, ctx) == Matches(p, ctx)
            && forall r :: Settles(q, ctx, r) <==> Settles(p, ctx, r)
  {
    var q := p.(condition := Flatten(p.condition));
    FlattenPreserves(p.condition, ctx);
    EvaluateReports(p.condition, ctx);
    EvaluateReports(q.condition, ctx);
    SameMatches(p, q, ctx);
  }

  lemma SameMatches(p: AiqlPolicy, q: AiqlPolicy, ctx: Context)
    requires Evaluate(p.condition, ctx) == Evaluate(q.condition, ctx)
    ensures Matches(p, ctx) == Matches(q, ctx) && Errs(p, ctx) == Errs(q, ctx)
  {
    var r := Evaluate(p.condition, ctx);
    EvaluateIff(p.condition, ctx, r);
    EvaluateIff(q.condition, ctx, r);
  }
}
