/** The resumption-ticket store: time-limited, bounded, single use. Time is an
    argument of every call. */
module PskStore {
  import opened Bytes
  import opened Outcomes

  datatype PskEntry = PskEntry(psk: bytes, expiresAt: nat)

  type Tickets = map<bytes, PskEntry>

  /** `retain`: what has not expired. */
  function Retained(tickets: Tickets, now: nat): (r: Tickets)
    ensures forall id :: id in r <==> id in tickets && tickets[id].expiresAt > now
    ensures forall id :: id in r ==> r[id] == tickets[id]
  {
    map id | id in tickets && tickets[id].expiresAt > now :: tickets[id]
  }

  /** `after` keeps at most capacity - 1 tickets of `before`, dropping only as many
      as it must, and none that expires later than one it keeps. */
  ghost predicate EvictsEarliest(before: Tickets, capacity: nat, after: Tickets) {
    && after.Keys <= before.Keys
    && (forall id :: id in after ==> after[id] == before[id])
    && |after| == (if |before| < capacity then |before| else if capacity > 0 then capacity - 1 else 0)
    && (forall id, kept :: id in before && id !in after && kept in after ==>
          before[id].expiresAt <= after[kept].expiresAt)
  }

  ghost predicate Earliest(tickets: Tickets, ids: set<bytes>, least: bytes) {
    least in ids && forall id :: id in ids && id in tickets && least in tickets ==>
      tickets[least].expiresAt <= tickets[id].expiresAt
  }

  lemma {:induction false} EarliestExists(tickets: Tickets, ids: set<bytes>) returns (least: bytes)
    requires ids != {} && ids <= tickets.Keys
    ensures Earliest(tickets, ids, least)
    decreases |ids|
  {
    var first :| first in ids;
    var rest := ids - {first};
    assert forall id :: id in ids ==> id == first || id in rest;
    least := first;
    if rest != {} {
      var other := EarliestExists(tickets, rest);
      if tickets[other].expiresAt < tickets[first].expiresAt {
        least := other;
      }
    }
  }

  class PskStore {
    var tickets: Tickets
    const maxCapacity: nat
    const pskTtl: nat

    constructor (capacity: nat, ttl: nat)
      ensures tickets == map[] && maxCapacity == capacity && pskTtl == ttl
    {
      tickets := map[];
      maxCapacity, pskTtl := capacity, ttl;
    }

    method StorePsk(now: nat, ticketId: bytes, psk: bytes) returns (ok: bool, ghost kept: Tickets)
      modifies this
      ensures ok <==> maxCapacity > 0
      ensures ok ==> StoreStep(maxCapacity, pskTtl, old(tickets), now, ticketId, psk, kept, tickets)
      ensures !ok ==> tickets == map[]
      ensures |tickets| <= maxCapacity
    {
      tickets := Retained(tickets, now);
      ghost var before := tickets;
      while |tickets| >= maxCapacity
        invariant tickets.Keys <= before.Keys
        invariant forall id :: id in tickets ==> tickets[id] == before[id]
        invariant |tickets| == |before| || |tickets| + 1 >= maxCapacity
        invariant |before| < maxCapacity ==> |tickets| == |before|
        invariant forall id, kept :: id in before && id !in tickets && kept in tickets ==>
                    before[id].expiresAt <= tickets[kept].expiresAt
        decreases |tickets|
      {
        if |tickets| == 0 {
          break;
        }
        ghost var least := EarliestExists(tickets, tickets.Keys);
        assert forall id :: id in tickets ==> tickets[least].expiresAt <= tickets[id].expiresAt;
        var oldest :|
          oldest in tickets && forall id :: id in tickets ==> tickets[oldest].expiresAt <= tickets[id].expiresAt;
        assert (tickets - {oldest}).Keys == tickets.Keys - {oldest};
        tickets := tickets - {oldest};
      }
      kept := tickets;
      if |tickets| >= maxCapacity {
        return false, kept;
      }
      tickets := tickets[ticketId := PskEntry(psk, now + pskTtl)];
      assert tickets.Keys == kept.Keys + {ticketId};
      return true, kept;
    }

    method TakePsk(now: nat, ticketId: bytes) returns (r: Option<bytes>)
      modifies this
      ensures tickets == old(tickets) - {ticketId}
      ensures r == Taken(old(tickets), now, ticketId)
    {
      if ticketId in tickets {
        var entry := tickets[ticketId];
        tickets := tickets - {ticketId};
        if entry.expiresAt > now {
          return Some(entry.psk);
        }
        return None;
      }
      return None;
    }

    method PurgeExpired(now: nat)
      modifies this
      ensures tickets == Retained(old(tickets), now)
      ensures forall id :: id in tickets <==> id in old(tickets) && old(tickets)[id].expiresAt > now
      ensures forall id :: id in tickets ==> tickets[id] == old(tickets)[id]
    {
      tickets := Retained(tickets, now);
    }
  }

  function Taken(tickets: Tickets, now: nat, id: bytes): Option<bytes> {
    if id in tickets && tickets[id].expiresAt > now then Some(tickets[id].psk) else None
  }

  // ---- runs ----

  datatype Event =
    | Store(now: nat, id: bytes, psk: bytes)
    | Take(now: nat, id: bytes)
    | Purge(now: nat)

  ghost predicate StoreStep(capacity: nat, ttl: nat, s: Tickets, now: nat, id: bytes, psk: bytes, kept: Tickets,
                            s': Tickets)
  {
    EvictsEarliest(Retained(s, now), capacity, kept) && s' == kept[id := PskEntry(psk, now + ttl)]
  }

  /** One call, as the methods of the class promise it. */
  ghost predicate Next(capacity: nat, ttl: nat, s: Tickets, e: Event, s': Tickets) {
    match e
    case Store(now, id, psk) =>
      if capacity == 0 then s' == map[]
      else exists kept :: StoreStep(capacity, ttl, s, now, id, psk, kept, s')
    case Take(_, id) => s' == s - {id}
    case Purge(now) => s' == Retained(s, now)
  }

  /** A run from the empty store: the state before each call and after the last. */
  ghost predicate IsRun(capacity: nat, ttl: nat, states: seq<Tickets>, events: seq<Event>)
    decreases |events|
  {
    && |states| == |events| + 1
    && if |events| == 0 then states[0] == map[]
       else
         var k := |events| - 1;
         && IsRun(capacity, ttl, states[..|events|], events[..k])
         && Next(capacity, ttl, states[k], events[k], states[k + 1])
  }

  /** The last store of a ticket if it was not taken since: its PSK and its time. */
  function Latest(events: seq<Event>, id: bytes): Option<(bytes, nat)> {
    if |events| == 0 then None
    else
      match events[|events| - 1]
      case Store(now, i, psk) => if i == id then Some((psk, now)) else Latest(events[..|events| - 1], id)
      case Take(_, i) => if i == id then None else Latest(events[..|events| - 1], id)
      case Purge(_) => Latest(events[..|events| - 1], id)
  }

  /** How many stores there were since. */
  function StoresSince(events: seq<Event>, id: bytes): nat {
    if |events| == 0 then 0
    else
      var front := events[..|events| - 1];
      match events[|events| - 1]
      case Store(_, i, _) => if i == id then 0 else StoresSince(front, id) + 1
      case _ => StoresSince(front, id)
  }

  /** Every ticket in the store is the latest store of its id, not taken since. */
  lemma {:induction false} EntryIsLatest(capacity: nat, ttl: nat, states: seq<Tickets>, events: seq<Event>, id: bytes)
    requires IsRun(capacity, ttl, states, events)
    requires id in states[|events|]
    ensures Latest(events, id).Some?
    ensures var (psk, t) := Latest(events, id).value;
            states[|events|][id] == PskEntry(psk, t + ttl)
    decreases |events|
  {
    if |events| > 0 {
      var k := |events| - 1;
      if !(events[k].Store? && events[k].id == id) {
        EntryIsLatest(capacity, ttl, states[..|events|], events[..k], id);
      }
    }
  }

  /** A take gives a PSK only if it is that of the latest store of the ticket, the
      ticket was not taken since, and it has not expired. */
  lemma TakeSound(capacity: nat, ttl: nat, states: seq<Tickets>, events: seq<Event>, now: nat, id: bytes)
    requires IsRun(capacity, ttl, states, events)
    requires Taken(states[|events|], now, id).Some?
    ensures Latest(events, id).Some?
    ensures var (psk, t) := Latest(events, id).value;
            Taken(states[|events|], now, id) == Some(psk) && now < t + ttl
  {
    EntryIsLatest(capacity, ttl, states, events, id);
  }

  lemma StepWithinCapacity(capacity: nat, ttl: nat, s: Tickets, e: Event, s': Tickets)
    requires |s| <= capacity && Next(capacity, ttl, s, e, s')
    ensures |s'| <= capacity
  {
    match e {
      case Store(now, id, psk) =>
        if capacity > 0 {
          var kept :| StoreStep(capacity, ttl, s, now, id, psk, kept, s');
          assert s'.Keys == kept.Keys + {id};
        }
      case _ => Smaller(s'.Keys, s.Keys);
    }
  }

  /** The store never holds more tickets than its capacity. */
  lemma {:induction false} NeverOverCapacity(capacity: nat, ttl: nat, states: seq<Tickets>, events: seq<Event>)
    requires IsRun(capacity, ttl, states, events)
    ensures |states[|events|]| <= capacity
    decreases |events|
  {
    if |events| > 0 {
      var k := |events| - 1;
      NeverOverCapacity(capacity, ttl, states[..|events|], events[..k]);
      StepWithinCapacity(capacity, ttl, states[k], events[k], states[k + 1]);
    }
  }

  lemma {:induction false} Smaller<T>(a: set<T>, b: set<T>)
    requires a <= b
    ensures |a| <= |b|
  {
    if a != {} {
      var x :| x in a;
      Smaller(a - {x}, b - {x});
    }
  }

  // ---- which tickets an eviction keeps ----

  /** The other tickets that expire no earlier than this one. */
  function Rivals(tickets: Tickets, id: bytes): set<bytes>
    requires id in tickets
  {
    set other | other in tickets && other != id && tickets[other].expiresAt >= tickets[id].expiresAt
  }

  /** A ticket that loses its place leaves capacity - 1 rivals behind. */
  lemma EvictedHasRivals(before: Tickets, capacity: nat, kept: Tickets, id: bytes)
    requires EvictsEarliest(before, capacity, kept) && id in before && id !in kept && capacity > 0
    ensures |before| >= capacity && |Rivals(before, id)| >= capacity - 1
  {
    if |before| < capacity {
      SameSize(kept.Keys, before.Keys);
    }
    Smaller(kept.Keys, Rivals(before, id));
  }

  lemma SameSize<T>(a: set<T>, b: set<T>)
    requires a <= b && |a| == |b|
    ensures a == b
  {
    if x :| x in b && x !in a {
      Smaller(a, b - {x});
    }
  }

  /** The n that expire last. */
  lemma {:induction false} LastToExpire(tickets: Tickets, ids: set<bytes>, n: nat) returns (top: set<bytes>)
    requires ids <= tickets.Keys && n <= |ids|
    ensures top <= ids && |top| == n
    ensures forall x, y :: x in ids && x !in top && y in top ==> tickets[x].expiresAt <= tickets[y].expiresAt
    decreases |ids|
  {
    if n == |ids| {
      top := ids;
    } else {
      var least := EarliestExists(tickets, ids);
      top := LastToExpire(tickets, ids - {least}, n);
    }
  }

  /** With that many rivals the ticket can be lost. */
  lemma RivalsCanEvict(before: Tickets, capacity: nat, id: bytes) returns (kept: Tickets)
    requires capacity > 0 && id in before && |before| >= capacity && |Rivals(before, id)| >= capacity - 1
    ensures EvictsEarliest(before, capacity, kept) && id !in kept
  {
    var top := LastToExpire(before, Rivals(before, id), capacity - 1);
    kept := map x | x in top :: before[x];
    assert kept.Keys == top;
  }

  /** Every eviction that the code can make. */
  ghost predicate SurelyKept(before: Tickets, capacity: nat, id: bytes) {
    forall kept :: EvictsEarliest(before, capacity, kept) ==> id in kept
  }

  /** A ticket is kept, whichever of several earliest ones the map yields first, exactly
      when there is room or it has fewer than capacity - 1 rivals. */
  lemma SurelyKeptIff(before: Tickets, capacity: nat, id: bytes)
    requires capacity > 0 && id in before
    ensures SurelyKept(before, capacity, id) <==> |before| < capacity || |Rivals(before, id)| < capacity - 1
  {
    if |before| >= capacity && |Rivals(before, id)| >= capacity - 1 {
      var kept := RivalsCanEvict(before, capacity, id);
    } else {
      forall kept | EvictsEarliest(before, capacity, kept)
        ensures id in kept
      {
        if id !in kept {
          EvictedHasRivals(before, capacity, kept, id);
        }
      }
    }
  }

  // ---- how long a ticket survives ----

  lemma OneMoreRival(s: Tickets, kept: Tickets, other: bytes, entry: PskEntry, id: bytes)
    requires kept.Keys <= s.Keys && (forall k :: k in kept ==> kept[k] == s[k])
    requires id in kept && id != other
    ensures |Rivals(kept[other := entry], id)| <= |Rivals(s, id)| + 1
  {
    Smaller(Rivals(kept[other := entry], id), Rivals(s, id) + {other});
  }

  /** One store of another ticket adds at most one rival, and does not evict a ticket
      with fewer than capacity - 1 of them. */
  lemma SurvivesStore(capacity: nat, ttl: nat, s: Tickets, now: nat, other: bytes, psk: bytes, kept: Tickets,
                      s': Tickets, id: bytes)
    requires StoreStep(capacity, ttl, s, now, other, psk, kept, s')
    requires id in s && s[id].expiresAt > now && id != other && |Rivals(s, id)| + 1 < capacity
    ensures id in s' && s'[id] == s[id]
    ensures |Rivals(s', id)| <= |Rivals(s, id)| + 1
  {
    var r := Retained(s, now);
    Smaller(Rivals(r, id), Rivals(s, id));
    if id !in kept {
      EvictedHasRivals(r, capacity, kept, id);
    }
    OneMoreRival(s, kept, other, PskEntry(psk, now + ttl), id);
  }

  /** How many stores were made at the given instant or later. */
  function StoresFrom(events: seq<Event>, now: nat): nat {
    if |events| == 0 then 0
    else
      var last := events[|events| - 1];
      StoresFrom(events[..|events| - 1], now) + if last.Store? && last.now >= now then 1 else 0
  }

  /** The tickets that expire no earlier than the given time. */
  function NotBefore(tickets: Tickets, time: nat): set<bytes> {
    set id | id in tickets && tickets[id].expiresAt >= time
  }

  lemma StepNotBefore(capacity: nat, ttl: nat, s: Tickets, e: Event, s': Tickets, now: nat)
    requires Next(capacity, ttl, s, e, s')
    ensures |NotBefore(s', now + ttl)| <= |NotBefore(s, now + ttl)| + if e.Store? && e.now >= now then 1 else 0
  {
    if e.Store? && capacity > 0 {
      var kept :| StoreStep(capacity, ttl, s, e.now, e.id, e.psk, kept, s');
      var more := if e.now >= now then {e.id} else {};
      Smaller(NotBefore(s', now + ttl), NotBefore(s, now + ttl) + more);
    } else {
      Smaller(NotBefore(s', now + ttl), NotBefore(s, now + ttl));
    }
  }

  /** There are at most as many of those as stores were made in time for them. */
  lemma {:induction false} NotBeforeBound(capacity: nat, ttl: nat, states: seq<Tickets>, events: seq<Event>, now: nat)
    requires IsRun(capacity, ttl, states, events)
    ensures |NotBefore(states[|events|], now + ttl)| <= StoresFrom(events, now)
    decreases |events|
  {
    if |events| > 0 {
      var k := |events| - 1;
      NotBeforeBound(capacity, ttl, states[..|events|], events[..k], now);
      StepNotBefore(capacity, ttl, states[k], events[k], states[k + 1], now);
    }
  }

  /** How many stores can compete with the latest one of a ticket: those made since, and
      those made before it at the same instant or, if the clock went back, a later one. */
  function Competing(events: seq<Event>, id: bytes): nat {
    if |events| == 0 then 0
    else
      var front := events[..|events| - 1];
      match events[|events| - 1]
      case Store(now, i, _) => if i == id then StoresFrom(front, now) else Competing(front, id) + 1
      case _ => Competing(front, id)
  }

  lemma StoredRivals(capacity: nat, ttl: nat, s: Tickets, now: nat, id: bytes, psk: bytes, s': Tickets)
    requires capacity > 0 && Next(capacity, ttl, s, Store(now, id, psk), s')
    ensures id in s' && |Rivals(s', id)| <= |NotBefore(s, now + ttl)|
  {
    var kept :| StoreStep(capacity, ttl, s, now, id, psk, kept, s');
    Smaller(Rivals(s', id), NotBefore(s, now + ttl));
  }

  lemma NewTicketRivals(capacity: nat, ttl: nat, states: seq<Tickets>, events: seq<Event>)
    requires IsRun(capacity, ttl, states, events) && capacity > 0
    requires |events| > 0 && events[|events| - 1].Store?
    ensures var id := events[|events| - 1].id;
            id in states[|events|] && |Rivals(states[|events|], id)| <= Competing(events, id)
  {
    var k := |events| - 1;
    var e := events[k];
    NotBeforeBound(capacity, ttl, states[..|events|], events[..k], e.now);
    StoredRivals(capacity, ttl, states[k], e.now, e.id, e.psk, states[k + 1]);
  }

  function Adds(e: Event): nat {
    if e.Store? then 1 else 0
  }

  /** One step that neither stores nor takes the ticket. */
  lemma SurvivesStep(capacity: nat, ttl: nat, s: Tickets, e: Event, s': Tickets, id: bytes)
    requires Next(capacity, ttl, s, e, s') && id in s && s[id].expiresAt > e.now && (e.Purge? || e.id != id)
    requires |Rivals(s, id)| + Adds(e) < capacity
    ensures id in s' && |Rivals(s', id)| <= |Rivals(s, id)| + Adds(e)
  {
    match e {
      case Store(now, other, psk) =>
        var kept :| StoreStep(capacity, ttl, s, now, other, psk, kept, s');
        SurvivesStore(capacity, ttl, s, now, other, psk, kept, s', id);
      case _ =>
        Smaller(Rivals(s', id), Rivals(s, id));
    }
  }

  /** Whatever the clock does, a ticket that was stored, not taken and not expired is
      still there as long as fewer stores compete with it than the store has room for. */
  lemma {:induction false} SurvivesCompetition(capacity: nat, ttl: nat, states: seq<Tickets>, events: seq<Event>,
                                               id: bytes)
    requires IsRun(capacity, ttl, states, events)
    requires Latest(events, id).Some? && Competing(events, id) < capacity
    requires forall i :: 0 <= i < |events| ==> events[i].now < Latest(events, id).value.1 + ttl
    ensures id in states[|events|]
    ensures |Rivals(states[|events|], id)| <= Competing(events, id)
    decreases |events|
  {
    var k := |events| - 1;
    if events[k].Store? && events[k].id == id {
      NewTicketRivals(capacity, ttl, states, events);
    } else {
      SurvivesCompetition(capacity, ttl, states[..|events|], events[..k], id);
      EntryIsLatest(capacity, ttl, states[..|events|], events[..k], id);
      SurvivesStep(capacity, ttl, states[k], events[k], states[k + 1], id);
    }
  }

  /** The clock moves on between any two stores. */
  ghost predicate StoresApart(events: seq<Event>) {
    forall i, j :: 0 <= i < j < |events| && events[i].Store? && events[j].Store? ==> events[i].now < events[j].now
  }

  lemma {:induction false} NoStoreFrom(events: seq<Event>, now: nat)
    requires forall i :: 0 <= i < |events| && events[i].Store? ==> events[i].now < now
    ensures StoresFrom(events, now) == 0
  {
    if |events| > 0 {
      NoStoreFrom(events[..|events| - 1], now);
    }
  }

  lemma {:induction false} OnlyLaterCompete(events: seq<Event>, id: bytes)
    requires StoresApart(events) && Latest(events, id).Some?
    ensures Competing(events, id) == StoresSince(events, id)
  {
    var k := |events| - 1;
    if events[k].Store? && events[k].id == id {
      NoStoreFrom(events[..k], events[k].now);
    } else {
      OnlyLaterCompete(events[..k], id);
    }
  }

  /** With the clock moving on between stores only later stores compete: the ticket is
      still there until as many of them were made as the store has room for. */
  lemma SurvivesUntilCapacity(capacity: nat, ttl: nat, states: seq<Tickets>, events: seq<Event>, id: bytes)
    requires IsRun(capacity, ttl, states, events) && StoresApart(events)
    requires Latest(events, id).Some? && StoresSince(events, id) < capacity
    requires forall i :: 0 <= i < |events| ==> events[i].now < Latest(events, id).value.1 + ttl
    ensures id in states[|events|]
  {
    OnlyLaterCompete(events, id);
    SurvivesCompetition(capacity, ttl, states, events, id);
  }

  /** So a take within that time succeeds, and gives the PSK stored last. */
  lemma TakeComplete(capacity: nat, ttl: nat, states: seq<Tickets>, events: seq<Event>, now: nat, id: bytes)
    requires IsRun(capacity, ttl, states, events)
    requires Latest(events, id).Some? && Competing(events, id) < capacity
    requires forall i :: 0 <= i < |events| ==> events[i].now <= now
    requires now < Latest(events, id).value.1 + ttl
    ensures Taken(states[|events|], now, id) == Some(Latest(events, id).value.0)
  {
    SurvivesCompetition(capacity, ttl, states, events, id);
    EntryIsLatest(capacity, ttl, states, events, id);
  }

  // ---- a run in which the newer ticket goes first ----

  function TwoAtOnce(now: nat, psk: bytes, older: bytes, newer: bytes, third: bytes): seq<Event> {
    [] + [Store(now, older, psk)] + [Store(now, newer, psk)] + [Store(now + 1, third, psk)]
  }

  lemma StoreWithRoom(capacity: nat, ttl: nat, s: Tickets, now: nat, id: bytes, psk: bytes)
    requires |s| < capacity && Retained(s, now) == s
    ensures Next(capacity, ttl, s, Store(now, id, psk), s[id := PskEntry(psk, now + ttl)])
  {
    assert StoreStep(capacity, ttl, s, now, id, psk, s, s[id := PskEntry(psk, now + ttl)]);
  }

  lemma EvictNewer(ttl: nat, now: nat, psk: bytes, older: bytes, newer: bytes, third: bytes, e: PskEntry)
    returns (lost: Tickets)
    requires older != newer && older != third && newer != third && e.expiresAt > now
    ensures Next(2, ttl, map[older := e, newer := e], Store(now, third, psk), lost)
    ensures older in lost && newer !in lost
  {
    var both: Tickets := map[older := e, newer := e];
    var kept: Tickets := map[older := e];
    assert both.Keys == {older, newer} && Retained(both, now) == both;
    lost := kept[third := PskEntry(psk, now + ttl)];
    assert StoreStep(2, ttl, both, now, third, psk, kept, lost);
  }

  lemma StoreFirst(ttl: nat, now: nat, psk: bytes, older: bytes)
    ensures Next(2, ttl, map[], Store(now, older, psk), map[older := PskEntry(psk, now + ttl)])
  {
    StoreWithRoom(2, ttl, map[], now, older, psk);
    assert map[][older := PskEntry(psk, now + ttl)] == map[older := PskEntry(psk, now + ttl)];
  }

  lemma StoreSecond(ttl: nat, now: nat, psk: bytes, older: bytes, newer: bytes, e: PskEntry)
    requires older != newer && e == PskEntry(psk, now + ttl) && ttl > 0
    ensures Next(2, ttl, map[older := e], Store(now, newer, psk), map[older := e, newer := e])
  {
    var one: Tickets := map[older := e];
    StoreWithRoom(2, ttl, one, now, newer, psk);
    assert one[newer := e] == map[older := e, newer := e];
  }

  lemma RunOn(capacity: nat, ttl: nat, states: seq<Tickets>, events: seq<Event>, e: Event, s: Tickets)
    requires IsRun(capacity, ttl, states, events) && Next(capacity, ttl, states[|events|], e, s)
    ensures IsRun(capacity, ttl, states + [s], events + [e])
  {
    var longer, more := states + [s], events + [e];
    assert longer[..|more|] == states && more[..|events|] == events;
  }

  lemma ThreeSteps(capacity: nat, ttl: nat, e0: Event, s1: Tickets, e1: Event, s2: Tickets, e2: Event, s3: Tickets)
    returns (states: seq<Tickets>)
    requires Next(capacity, ttl, map[], e0, s1) && Next(capacity, ttl, s1, e1, s2) && Next(capacity, ttl, s2, e2, s3)
    ensures IsRun(capacity, ttl, states, [] + [e0] + [e1] + [e2]) && states[3] == s3
  {
    states := [map[]];
    RunOn(capacity, ttl, states, [], e0, s1);
    states := states + [s1];
    RunOn(capacity, ttl, states, [] + [e0], e1, s2);
    states := states + [s2];
    RunOn(capacity, ttl, states, [] + [e0] + [e1], e2, s3);
    states := states + [s3];
  }

  /** Two tickets stored at the same instant in a store for two: the next store may evict
      the newer one, with one store since. */
  lemma NewerCanBeLost(now: nat, ttl: nat, psk: bytes, older: bytes, newer: bytes, third: bytes)
    returns (states: seq<Tickets>)
    requires older != newer && older != third && newer != third && ttl > 1
    ensures IsRun(2, ttl, states, TwoAtOnce(now, psk, older, newer, third))
    ensures older in states[3] && newer !in states[3]
  {
    var e := PskEntry(psk, now + ttl);
    StoreFirst(ttl, now, psk, older);
    StoreSecond(ttl, now, psk, older, newer, e);
    var lost := EvictNewer(ttl, now + 1, psk, older, newer, third, e);
    states := ThreeSteps(2, ttl, Store(now, older, psk), map[older := e], Store(now, newer, psk),
                         map[older := e, newer := e], Store(now + 1, third, psk), lost);
  }
}
