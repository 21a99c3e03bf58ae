/** Version vectors and what the order of delivery can do to one stored entry. */
module Convergence {
  import opened Bytes
  import opened Outcomes

  type VersionVector = map<bytes, nat>

  function At(version: VersionVector, node: bytes): nat {
    if node in version then version[node] else 0
  }

  /** The first version has seen everything the second has. */
  predicate Dominates(existing: VersionVector, version: VersionVector) {
    forall node :: node in version ==> At(existing, node) >= version[node]
  }

  /** The version gives some node a larger count than the existing one does; a node that
      is missing there counts as 0. */
  ghost predicate Newer(version: VersionVector, existing: VersionVector) {
    exists node :: node in version && if node in existing then version[node] > existing[node] else version[node] > 0
  }

  lemma DominatesIff(existing: VersionVector, version: VersionVector)
    ensures Dominates(existing, version) <==> !Newer(version, existing)
  {
  }

  /** The loop of `put`, with its early exit. */
  method CheckDominates(existing: VersionVector, version: VersionVector) returns (dominates: bool)
    ensures dominates == Dominates(existing, version)
    ensures dominates <==> !Newer(version, existing)
  {
    dominates := true;
    var nodes := version.Keys;
    while nodes != {}
      invariant nodes <= version.Keys
      invariant forall node :: node in version && node !in nodes ==> At(existing, node) >= version[node]
      invariant dominates
      decreases |nodes|
    {
      var node :| node in nodes;
      if At(existing, node) < version[node] {
        dominates := false;
        break;
      }
      nodes := nodes - {node};
    }
  }

  lemma DominatesTransitive(a: VersionVector, b: VersionVector, c: VersionVector)
    requires Dominates(a, b) && Dominates(b, c)
    ensures Dominates(a, c)
  {
    forall node | node in c
      ensures At(a, node) >= c[node]
    {
      assert At(b, node) >= c[node];
    }
  }

  // ---- delivery ----

  datatype Update = Update(version: VersionVector, data: bytes)

  /** An update replaces what is stored unless the stored version dominates it. */
  function Deliver(stored: Option<Update>, u: Update): Option<Update> {
    if stored.Some? && Dominates(stored.value.version, u.version) then stored else Some(u)
  }

  /** A delivered update is stored exactly when it gives some node a larger count. */
  lemma DeliverIff(stored: Update, u: Update)
    ensures Deliver(None, u) == Some(u)
    ensures Deliver(Some(stored), u) == if Newer(u.version, stored.version) then Some(u) else Some(stored)
  {
    DominatesIff(stored.version, u.version);
  }

  /** No count of the first version is lost in the second. */
  ghost predicate CountsKept(version: VersionVector, later: VersionVector) {
    forall node :: node in version && version[node] > 0 ==> node in later && later[node] >= version[node]
  }

  /** A delivery lowers the stored count of some node exactly when each of the two versions
      gives some node a larger count than the other. */
  lemma GoesBackIff(stored: Update, u: Update)
    ensures !CountsKept(stored.version, Deliver(Some(stored), u).value.version) <==>
            Newer(u.version, stored.version) && Newer(stored.version, u.version)
  {
    DeliverIff(stored, u);
    KeptIff(stored.version, u.version);
    KeptIff(stored.version, stored.version);
  }

  lemma KeptIff(version: VersionVector, later: VersionVector)
    ensures CountsKept(version, later) <==> !Newer(version, later)
  {
    if !CountsKept(version, later) {
      var node :| node in version && version[node] > 0 && !(node in later && later[node] >= version[node]);
    }
  }

  function DeliverAll(stored: Option<Update>, order: seq<Update>): Option<Update> {
    if |order| == 0 then stored
    else Deliver(DeliverAll(stored, order[..|order| - 1]), order[|order| - 1])
  }

  /** Every update of `us` is delivered, in some order and any number of times. */
  ghost predicate Covers(order: seq<Update>, us: set<Update>) {
    forall u :: u in order <==> u in us
  }

  /** m dominates every update, and no other update has the same version. */
  ghost predicate IsGreatest(us: set<Update>, m: Update) {
    && m in us
    && forall u :: u in us ==>
         Dominates(m.version, u.version) && (Dominates(u.version, m.version) ==> u == m)
  }

  lemma DeliverAllAppend(stored: Option<Update>, order: seq<Update>, u: Update)
    ensures DeliverAll(stored, order + [u]) == Deliver(DeliverAll(stored, order), u)
  {
    assert (order + [u])[..|order|] == order;
  }

  /** What is stored in the end was delivered at some point. */
  lemma {:induction false} StoredWasDelivered(order: seq<Update>)
    requires |order| > 0
    ensures DeliverAll(None, order).Some? && DeliverAll(None, order).value in order
  {
    if |order| > 1 {
      StoredWasDelivered(order[..|order| - 1]);
    }
  }

  lemma {:induction false} GreatestWins(us: set<Update>, m: Update, order: seq<Update>)
    requires IsGreatest(us, m) && (forall u :: u in order ==> u in us)
    requires m in order
    ensures DeliverAll(None, order) == Some(m)
  {
    var front, last := order[..|order| - 1], order[|order| - 1];
    if m in front {
      GreatestWins(us, m, front);
    } else if |front| > 0 {
      StoredWasDelivered(front);
    }
  }

  /** A stored update that dominates everything to come stays. */
  lemma {:induction false} DominatorStays(u: Update, order: seq<Update>)
    requires forall x :: x in order ==> Dominates(u.version, x.version)
    ensures DeliverAll(Some(u), order) == Some(u)
  {
    if |order| > 0 {
      DominatorStays(u, order[..|order| - 1]);
    }
  }

  lemma {:induction false} DeliverFirst(u: Update, order: seq<Update>)
    ensures DeliverAll(None, [u] + order) == DeliverAll(Some(u), order)
  {
    if |order| == 0 {
      assert [u] + order == [u];
    } else {
      DeliverFirst(u, order[..|order| - 1]);
      assert ([u] + order)[..|order|] == [u] + order[..|order| - 1];
    }
  }

  lemma {:induction false} SomeOrder(us: set<Update>) returns (order: seq<Update>)
    ensures Covers(order, us)
    decreases |us|
  {
    if us == {} {
      order := [];
    } else {
      var u :| u in us;
      var rest := SomeOrder(us - {u});
      order := rest + [u];
    }
  }

  /** Every delivery order, with any repetitions, ends with the entry e. */
  ghost predicate ConvergesTo(us: set<Update>, e: Update) {
    forall order :: Covers(order, us) ==> DeliverAll(None, order) == Some(e)
  }

  lemma ConvergesToGreatest(us: set<Update>, e: Update)
    requires us != {} && ConvergesTo(us, e)
    ensures IsGreatest(us, e)
  {
    var order := SomeOrder(us);
    var any :| any in us;
    assert any in order;
    StoredWasDelivered(order);
    forall u | u in us
      ensures Dominates(e.version, u.version)
    {
      DeliverAllAppend(None, order, u);
      assert Covers(order + [u], us);
    }
    forall u | u in us && Dominates(u.version, e.version)
      ensures u == e
    {
      forall x | x in order
        ensures Dominates(u.version, x.version)
      {
        DominatesTransitive(u.version, e.version, x.version);
      }
      DominatorStays(u, order);
      DeliverFirst(u, order);
      assert Covers([u] + order, us);
    }
  }

  /** A set of updates reaches the same entry under every delivery order exactly
      when one of them dominates all others, and that one is then the entry. */
  lemma ConvergesIff(us: set<Update>, e: Update)
    requires us != {}
    ensures ConvergesTo(us, e) <==> IsGreatest(us, e)
  {
    if IsGreatest(us, e) {
      forall order | Covers(order, us)
        ensures DeliverAll(None, order) == Some(e)
      {
        assert e in order;
        GreatestWins(us, e, order);
      }
    }
    if ConvergesTo(us, e) {
      ConvergesToGreatest(us, e);
    }
  }

  /** Any two updates are comparable, and equal versions carry equal data. */
  ghost predicate Comparable(us: set<Update>) {
    forall u, v :: u in us && v in us && u != v ==>
      (Dominates(u.version, v.version) && !Dominates(v.version, u.version)) ||
      (Dominates(v.version, u.version) && !Dominates(u.version, v.version))
  }

  /** Comparable updates do have a greatest one. */
  lemma {:induction false} ComparableHasGreatest(us: set<Update>) returns (m: Update)
    requires us != {} && Comparable(us)
    ensures IsGreatest(us, m) && ConvergesTo(us, m)
    decreases |us|
  {
    var u :| u in us;
    m := u;
    var rest := us - {u};
    if rest != {} {
      var n := ComparableHasGreatest(rest);
      if Dominates(n.version, u.version) {
        m := n;
      }
      forall x | x in us && x != m
        ensures Dominates(m.version, x.version)
      {
        if m == u {
          DominatesTransitive(u.version, n.version, x.version);
        }
      }
    }
    assert Dominates(m.version, m.version);
    assert forall x :: x in us ==> x == m || x in rest || x == u;
    ConvergesIff(us, m);
  }

  /** And then no node's stored count ever decreases. */
  lemma NeverGoesBack(us: set<Update>, stored: Update, u: Update)
    requires Comparable(us) && stored in us && u in us
    ensures Deliver(Some(stored), u).Some?
    ensures var after := Deliver(Some(stored), u).value.version;
            forall node :: node in stored.version && stored.version[node] > 0 ==>
              node in after && after[node] >= stored.version[node]
  {
    DominatesIff(u.version, stored.version);
    GoesBackIff(stored, u);
  }
}
