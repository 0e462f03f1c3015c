/** The held-offer pool of internal/offerpool/pool.go as a timed state machine.

  Every operation reads the clock once, under the lock, so an execution is a sequence of atomic
  operations at non-decreasing times; the background sweeper is one more operation.
  */
module OfferPool {
  import opened Wrappers

  type Time = int

  datatype Offer = Offer(id: string, driver: string, priceCents: int, star: real, expiresAt: Time)

  type Offers = map<string, Offer>

  // ---------------------------------------------------------------- the state machine

  datatype Op = Hold(offer: Offer) | Held | Accept(id: string) | Cancel(id: string) | Sweep

  datatype Event = Event(op: Op, now: Time)

  predicate Active(o: Offer, now: Time) { now < o.expiresAt }

  function ActiveOnly(held: Offers, now: Time): Offers
  {
    map id | id in held && Active(held[id], now) :: held[id]
  }

  /** Sweeping keeps an offer through the very instant it expires; Held does not. */
  function Swept(held: Offers, now: Time): Offers
  {
    map id | id in held && now <= held[id].expiresAt :: held[id]
  }

  /** Does the pool accept the operation? A full pool refuses to hold, an unknown id cannot be accepted or cancelled. */
  predicate Succeeds(max: int, held: Offers, op: Op)
  {
    match op
    case Hold(_) => |held| < max
    case Accept(id) => id in held
    case Cancel(id) => id in held
    case Held => true
    case Sweep => true
  }

  /** What the pool stores after the operation. */
  function After(max: int, ttl: Time, held: Offers, e: Event): Offers
  {
    if !Succeeds(max, held, e.op) then held
    else
      match e.op
      case Hold(o) => held[o.id := o.(expiresAt := e.now + ttl)]
      case Accept(_) => map[]
      case Cancel(id) => held - {id}
      case Held => ActiveOnly(held, e.now)
      case Sweep => Swept(held, e.now)
  }

  /** What the rider negotiated: successful operations only, with no clean-up at all. */
  function Negotiated(ttl: Time, ledger: Offers, e: Event): Offers
  {
    match e.op
    case Hold(o) => ledger[o.id := o.(expiresAt := e.now + ttl)]
    case Accept(_) => map[]
    case Cancel(id) => ledger - {id}
    case Held => ledger
    case Sweep => ledger
  }

  /** The pool after a sequence of operations, starting empty. */
  function Run(max: int, ttl: Time, events: seq<Event>): Offers
  {
    if events == [] then map[] else After(max, ttl, Run(max, ttl, events[..|events| - 1]), events[|events| - 1])
  }

  /** The fold of the successful operations, the pool deciding which those are. */
  function Ledger(max: int, ttl: Time, events: seq<Event>): Offers
  {
    if events == [] then map[]
    else
      var init, e := events[..|events| - 1], events[|events| - 1];
      if Succeeds(max, Run(max, ttl, init), e.op) then Negotiated(ttl, Ledger(max, ttl, init), e)
      else Ledger(max, ttl, init)
  }

  predicate Monotone(events: seq<Event>)
  {
    forall i, j :: 0 <= i < j < |events| ==> events[i].now <= events[j].now
  }

  /** The pool holds part of the ledger, and what it no longer holds has expired by now. */
  ghost predicate Mirrors(held: Offers, ledger: Offers, now: Time)
  {
    && (forall id :: id in held ==> id in ledger && held[id] == ledger[id])
    && (forall id :: id in ledger && id !in held ==> !Active(ledger[id], now))
  }

  lemma StepMirrors(max: int, ttl: Time, held: Offers, ledger: Offers, before: Time, e: Event)
    requires Mirrors(held, ledger, before) && before <= e.now
    ensures Mirrors(After(max, ttl, held, e),
                    if Succeeds(max, held, e.op) then Negotiated(ttl, ledger, e) else ledger, e.now)
  {
  }

  lemma {:induction false} RunMirrorsLedger(max: int, ttl: Time, events: seq<Event>, now: Time)
    requires Monotone(events) && (events != [] ==> events[|events| - 1].now <= now)
    ensures Mirrors(Run(max, ttl, events), Ledger(max, ttl, events), now)
  {
    if events != [] {
      var init, e := events[..|events| - 1], events[|events| - 1];
      RunMirrorsLedger(max, ttl, init, e.now);
      StepMirrors(max, ttl, Run(max, ttl, init), Ledger(max, ttl, init), e.now, e);
    }
  }

  /** Whatever the interleaving of operations and sweeps, the active offers are those of the sweep-free ledger. */
  lemma ActiveOffersAreLedgers(max: int, ttl: Time, events: seq<Event>, now: Time)
    requires Monotone(events) && (events != [] ==> events[|events| - 1].now <= now)
    ensures ActiveOnly(Run(max, ttl, events), now) == ActiveOnly(Ledger(max, ttl, events), now)
  {
    RunMirrorsLedger(max, ttl, events, now);
  }

  lemma SubMapSize(a: Offers, b: Offers)
    requires a.Keys <= b.Keys
    ensures |a| <= |b|
  {
    SubsetSize(a.Keys, b.Keys);
  }

  /** The pool never exceeds its capacity. */
  lemma {:induction false} CapacityIsKept(max: int, ttl: Time, events: seq<Event>)
    ensures |Run(max, ttl, events)| <= if max < 0 then 0 else max
  {
    if events != [] {
      var held, e := Run(max, ttl, events[..|events| - 1]), events[|events| - 1];
      CapacityIsKept(max, ttl, events[..|events| - 1]);
      StepKeepsCapacity(max, ttl, held, e);
    }
  }

  lemma StepKeepsCapacity(max: int, ttl: Time, held: Offers, e: Event)
    requires |held| <= if max < 0 then 0 else max
    ensures |After(max, ttl, held, e)| <= if max < 0 then 0 else max
  {
    var after := After(max, ttl, held, e);
    match e.op
    case Hold(o) =>
      if Succeeds(max, held, e.op) {
        assert after.Keys == held.Keys + {o.id};
        SubsetSize(after.Keys, held.Keys + {o.id});
      }
    case _ => SubMapSize(after, held);
  }

  // ---------------------------------------------------------------- what exactly is stored

  /** The event removes offers that expire at t. */
  predicate Purges(e: Event, t: Time)
  {
    (e.op.Held? && t <= e.now) || (e.op.Sweep? && t < e.now)
  }

  predicate Purged(events: seq<Event>, t: Time)
  {
    exists i :: 0 <= i < |events| && Purges(events[i], t)
  }

  lemma PurgedSnoc(events: seq<Event>, e: Event, t: Time)
    ensures Purged(events + [e], t) <==> Purged(events, t) || Purges(e, t)
  {
    var all := events + [e];
    assert all[|events|] == e && forall i :: 0 <= i < |events| ==> all[i] == events[i];
    if i :| 0 <= i < |events| && Purges(events[i], t) {
      assert Purges(all[i], t);
    }
    if Purges(e, t) {
      assert Purges(all[|events|], t);
    }
  }

  /** The events after the last successful hold of an id; all of them when there was none. */
  function Since(max: int, ttl: Time, events: seq<Event>, id: string): seq<Event>
  {
    if events == [] then []
    else
      var init, e := events[..|events| - 1], events[|events| - 1];
      if e.op.Hold? && e.op.offer.id == id && Succeeds(max, Run(max, ttl, init), e.op) then []
      else Since(max, ttl, init, id) + [e]
  }

  /** The ledger without the offers that some read or sweep has removed since they were held. */
  function Stored(max: int, ttl: Time, events: seq<Event>): Offers
  {
    var ledger := Ledger(max, ttl, events);
    map id | id in ledger && !Purged(Since(max, ttl, events, id), ledger[id].expiresAt) :: ledger[id]
  }

  /** For every time to live, the pool holds exactly the ledger's offers that, since they were held, no read at or
    after their expiry and no sweep after it has removed.
    */
  lemma {:induction false} RunIsStored(max: int, ttl: Time, events: seq<Event>)
    ensures Run(max, ttl, events) == Stored(max, ttl, events)
  {
    if events != [] {
      var init, e := events[..|events| - 1], events[|events| - 1];
      RunIsStored(max, ttl, init);
      forall id
        ensures id in Run(max, ttl, events) <==> id in Stored(max, ttl, events)
        ensures id in Run(max, ttl, events) ==> Run(max, ttl, events)[id] == Stored(max, ttl, events)[id]
      {
        StepIsStored(max, ttl, init, e, id);
      }
    }
  }

  lemma StepIsStored(max: int, ttl: Time, init: seq<Event>, e: Event, id: string)
    requires Run(max, ttl, init) == Stored(max, ttl, init)
    ensures var events := init + [e];
            && (id in Run(max, ttl, events) <==> id in Stored(max, ttl, events))
            && (id in Run(max, ttl, events) ==> Run(max, ttl, events)[id] == Stored(max, ttl, events)[id])
  {
    hide Purged, Purges;
    RunSnoc(max, ttl, init, e, id);
    if id in Ledger(max, ttl, init + [e]) {
      LedgerSnoc(max, ttl, init, e, id);
      var t := Ledger(max, ttl, init + [e])[id].expiresAt;
      NothingPurged(t);
      PurgedSnoc(Since(max, ttl, init, id), e, t);
    }
  }

  /** A stored offer was just held, or was stored before and is neither released nor removed by the event. */
  lemma RunSnoc(max: int, ttl: Time, init: seq<Event>, e: Event, id: string)
    requires id in Run(max, ttl, init) ==>
               id in Ledger(max, ttl, init) && Run(max, ttl, init)[id] == Ledger(max, ttl, init)[id]
    ensures var events := init + [e];
            && (id in Run(max, ttl, events) <==>
                  id in Ledger(max, ttl, events)
                  && (Since(max, ttl, events, id) == []
                      || (id in Run(max, ttl, init) && !Purges(e, Run(max, ttl, init)[id].expiresAt))))
            && (id in Run(max, ttl, events) ==> Run(max, ttl, events)[id] == Ledger(max, ttl, events)[id])
  {
    assert (init + [e])[..|init|] == init;
  }

  lemma NothingPurged(t: Time)
    ensures !Purged([], t)
  {
  }

  /** With a positive time to live the whole history may be counted: nothing earlier was late enough. */
  lemma {:induction false} HistoryCounts(max: int, ttl: Time, events: seq<Event>, id: string)
    requires 0 < ttl && Monotone(events) && id in Ledger(max, ttl, events)
    ensures var t := Ledger(max, ttl, events)[id].expiresAt;
            Purged(Since(max, ttl, events, id), t) <==> Purged(events, t)
  {
    hide Purged, Purges;
    var init, e := events[..|events| - 1], events[|events| - 1];
    var t := Ledger(max, ttl, events)[id].expiresAt;
    assert events == init + [e];
    PurgedSnoc(init, e, t);
    LedgerSnoc(max, ttl, init, e, id);
    if Since(max, ttl, events, id) == [] {
      NotYetPurged(init, e, t);
      NothingPurged(t);
      HoldPurgesNothing(e, t);
    } else {
      HistoryCounts(max, ttl, init, id);
      PurgedSnoc(Since(max, ttl, init, id), e, t);
    }
  }

  lemma HoldPurgesNothing(e: Event, t: Time)
    ensures e.op.Hold? ==> !Purges(e, t)
  {
  }

  /** The last event either held the offer afresh or left its ledger entry alone. */
  lemma LedgerSnoc(max: int, ttl: Time, init: seq<Event>, e: Event, id: string)
    requires id in Ledger(max, ttl, init + [e])
    ensures var events := init + [e];
            if Since(max, ttl, events, id) == [] then
              e.op.Hold? && Ledger(max, ttl, events)[id].expiresAt == e.now + ttl
            else
              id in Ledger(max, ttl, init) && Ledger(max, ttl, events)[id] == Ledger(max, ttl, init)[id]
              && Since(max, ttl, events, id) == Since(max, ttl, init, id) + [e]
  {
    assert (init + [e])[..|init|] == init;
  }

  /** Nothing has removed an offer before it expires. */
  lemma NotYetPurged(events: seq<Event>, e: Event, t: Time)
    requires Monotone(events + [e]) && e.now < t
    ensures !Purged(events, t)
  {
    forall i | 0 <= i < |events|
      ensures !Purges(events[i], t)
    {
      assert (events + [e])[i].now <= (events + [e])[|events|].now;
    }
  }

  /** The time of the last read, and of the last sweep. */
  function LastRead(events: seq<Event>): Option<Time>
  {
    if events == [] then None
    else if events[|events| - 1].op.Held? then Some(events[|events| - 1].now)
    else LastRead(events[..|events| - 1])
  }

  function LastSweep(events: seq<Event>): Option<Time>
  {
    if events == [] then None
    else if events[|events| - 1].op.Sweep? then Some(events[|events| - 1].now)
    else LastSweep(events[..|events| - 1])
  }

  predicate UpTo(events: seq<Event>, now: Time)
  {
    Monotone(events) && (events != [] ==> events[|events| - 1].now <= now)
  }

  lemma {:induction false} LastIsPast(events: seq<Event>, now: Time)
    requires UpTo(events, now)
    ensures LastRead(events).Some? ==> LastRead(events).value <= now
    ensures LastSweep(events).Some? ==> LastSweep(events).value <= now
  {
    if events != [] {
      LastIsPast(events[..|events| - 1], now);
    }
  }

  /** The last read was at or after t, or the last sweep after t. */
  predicate LastPurges(events: seq<Event>, t: Time)
  {
    || (LastRead(events).Some? && t <= LastRead(events).value)
    || (LastSweep(events).Some? && t < LastSweep(events).value)
  }

  /** Only the last read and the last sweep matter. */
  lemma {:induction false} PurgedByLast(events: seq<Event>, t: Time)
    requires Monotone(events)
    ensures Purged(events, t) <==> LastPurges(events, t)
  {
    hide Purged, Purges, LastPurges;
    if events == [] {
      NothingPurged(t);
      NoLastPurge(t);
    } else {
      var init, e := events[..|events| - 1], events[|events| - 1];
      assert events == init + [e];
      PurgedByLast(init, t);
      PurgedSnoc(init, e, t);
      LastPurgesSnoc(init, e, t);
    }
  }

  lemma NoLastPurge(t: Time)
    ensures !LastPurges([], t)
  {
  }

  lemma LastPurgesSnoc(init: seq<Event>, e: Event, t: Time)
    requires UpTo(init, e.now)
    ensures LastPurges(init + [e], t) <==> LastPurges(init, t) || Purges(e, t)
  {
    assert (init + [e])[..|init|] == init;
    LastIsPast(init, e.now);
  }

  /** What followed the last hold is ordered in time and no later than now. */
  lemma {:induction false} SinceIsUpTo(max: int, ttl: Time, events: seq<Event>, id: string, now: Time)
    requires UpTo(events, now)
    ensures UpTo(Since(max, ttl, events, id), now)
  {
    if events != [] {
      var init, e := events[..|events| - 1], events[|events| - 1];
      SinceIsUpTo(max, ttl, init, id, e.now);
      OrderedSnoc(Since(max, ttl, init, id), e, now);
    }
  }

  lemma OrderedSnoc(events: seq<Event>, e: Event, now: Time)
    requires UpTo(events, e.now) && e.now <= now
    ensures UpTo(events + [e], now)
  {
    forall i | 0 <= i < |events|
      ensures events[i].now <= e.now
    {
      assert i < |events| - 1 ==> events[i].now <= events[|events| - 1].now;
    }
  }

  /** An offer expiring at t has expired by now, but neither the last read nor the last sweep was late enough
    to remove it.
    */
  predicate Lingers(events: seq<Event>, t: Time, now: Time)
  {
    t <= now && !LastPurges(events, t)
  }

  /** The ledger's offers that have expired but were missed by the last read and the last sweep since they were held. */
  function Lingering(max: int, ttl: Time, events: seq<Event>, now: Time): Offers
  {
    var ledger := Ledger(max, ttl, events);
    map id | id in ledger && Lingers(Since(max, ttl, events, id), ledger[id].expiresAt, now) :: ledger[id]
  }

  /** The pool is the active and the lingering offers of the ledger. */
  lemma RunIsActiveOrLingering(max: int, ttl: Time, events: seq<Event>, now: Time, id: string)
    requires UpTo(events, now)
    ensures var ledger := Ledger(max, ttl, events);
            id in Run(max, ttl, events) <==> id in ActiveOnly(ledger, now) || id in Lingering(max, ttl, events, now)
    ensures id in Run(max, ttl, events) ==>
              id in Ledger(max, ttl, events) && Run(max, ttl, events)[id] == Ledger(max, ttl, events)[id]
  {
    hide Purged;
    RunIsStored(max, ttl, events);
    var ledger, since := Ledger(max, ttl, events), Since(max, ttl, events, id);
    SinceIsUpTo(max, ttl, events, id, now);
    LastIsPast(since, now);
    if id in ledger {
      PurgedByLast(since, ledger[id].expiresAt);
    }
  }

  // ---------------------------------------------------------------- what can be accepted

  /** Event j takes away the offer with this id that expires at t: another offer or this one is accepted, this one is
    cancelled or held anew, or a read or a sweep finds it expired.
    */
  predicate TakesAway(max: int, ttl: Time, events: seq<Event>, j: nat, id: string, t: Time)
    requires j < |events|
  {
    var before := Run(max, ttl, events[..j]);
    match events[j].op
    case Hold(o) => o.id == id && |before| < max
    case Accept(x) => x in before
    case Cancel(x) => x == id
    case Held => t <= events[j].now
    case Sweep => t < events[j].now
  }

  /** Nothing after event h takes the offer away. */
  predicate Kept(max: int, ttl: Time, events: seq<Event>, id: string, h: nat, t: Time)
  {
    forall j: nat :: h < j < |events| ==> !TakesAway(max, ttl, events, j, id, t)
  }

  /** Event h found a free slot for an offer with this id. */
  predicate HeldAt(max: int, ttl: Time, events: seq<Event>, id: string, h: nat)
    requires h < |events|
  {
    events[h].op.Hold? && events[h].op.offer.id == id && |Run(max, ttl, events[..h])| < max
  }

  /** Event h found a free slot for an offer with this id, and nothing has taken it away since. */
  predicate HeldSince(max: int, ttl: Time, events: seq<Event>, id: string, h: nat)
  {
    h < |events| && HeldAt(max, ttl, events, id, h) && Kept(max, ttl, events, id, h, events[h].now + ttl)
  }

  /** After every run, an accept succeeds exactly when its id was held with a free slot and has since been neither
    accepted away, cancelled, held anew nor purged; and what is stored is that offer with its own expiry.
    */
  lemma {:induction false} AcceptSucceedsIff(max: int, ttl: Time, events: seq<Event>, id: string)
    ensures Succeeds(max, Run(max, ttl, events), Op.Accept(id))
       <==> exists h: nat :: HeldSince(max, ttl, events, id, h)
    ensures forall h: nat :: HeldSince(max, ttl, events, id, h) ==>
              id in Run(max, ttl, events)
              && Run(max, ttl, events)[id] == events[h].op.offer.(expiresAt := events[h].now + ttl)
  {
    hide HeldSince, HeldAt;
    if events == [] {
      NeverHeld(max, ttl, id);
    } else {
      var n := |events| - 1;
      var init, e := events[..n], events[n];
      assert events == init + [e];
      AcceptSucceedsIff(max, ttl, init, id);
      HeldLast(max, ttl, init, e, id);
      HeldBefore(max, ttl, init, id);
      HeldBefore(max, ttl, events, id);
      forall h: nat | h < n
        ensures HeldSince(max, ttl, events, id, h)
           <==> HeldSince(max, ttl, init, id, h) && !TakesAway(max, ttl, events, n, id, init[h].now + ttl)
      {
        HeldSinceSnoc(max, ttl, init, e, id, h);
      }
    }
  }

  lemma HeldBefore(max: int, ttl: Time, events: seq<Event>, id: string)
    ensures forall h: nat :: HeldSince(max, ttl, events, id, h) ==> h < |events|
  {
  }

  lemma NeverHeld(max: int, ttl: Time, id: string)
    ensures forall h: nat :: !HeldSince(max, ttl, [], id, h)
  {
  }

  lemma HeldLast(max: int, ttl: Time, init: seq<Event>, e: Event, id: string)
    ensures HeldSince(max, ttl, init + [e], id, |init|)
       <==> e.op.Hold? && e.op.offer.id == id && |Run(max, ttl, init)| < max
  {
    assert (init + [e])[..|init|] == init;
  }

  lemma HeldSinceSnoc(max: int, ttl: Time, init: seq<Event>, e: Event, id: string, h: nat)
    requires h < |init|
    ensures HeldSince(max, ttl, init + [e], id, h) <==>
              && HeldSince(max, ttl, init, id, h)
              && !TakesAway(max, ttl, init + [e], |init|, id, init[h].now + ttl)
  {
    var events := init + [e];
    assert forall j :: 0 <= j <= |init| ==> events[..j] == init[..j];
    var t := events[h].now + ttl;
    assert forall j: nat :: h < j < |init| ==>
             (TakesAway(max, ttl, events, j, id, t) <==> TakesAway(max, ttl, init, j, id, t));
  }

  // ---------------------------------------------------------------- full, and excluded

  /** Exactly when a hold is refused: the active and the lingering offers together fill the pool.

    With fewer than max active offers that is when the lingering ones take all the slots left.
    */
  lemma HoldIsRefusedIff(max: int, ttl: Time, events: seq<Event>, now: Time, o: Offer)
    requires UpTo(events, now)
    ensures var ledger := Ledger(max, ttl, events);
            !Succeeds(max, Run(max, ttl, events), Op.Hold(o)) <==>
              |ActiveOnly(ledger, now)| + |Lingering(max, ttl, events, now)| >= max
    ensures var active := |ActiveOnly(Ledger(max, ttl, events), now)|;
            !Succeeds(max, Run(max, ttl, events), Op.Hold(o)) && active < max <==>
              0 < max - active <= |Lingering(max, ttl, events, now)|
  {
    hide Lingers, Active;
    var ledger, run := Ledger(max, ttl, events), Run(max, ttl, events);
    var active, lingering := ActiveOnly(ledger, now), Lingering(max, ttl, events, now);
    forall id
      ensures id in run <==> id in active || id in lingering
      ensures !(id in active && id in lingering)
    {
      RunIsActiveOrLingering(max, ttl, events, now, id);
      if id in ledger {
        ActiveDoesNotLinger(Since(max, ttl, events, id), ledger[id], now);
      }
    }
    assert run.Keys == active.Keys + lingering.Keys && active.Keys !! lingering.Keys;
    assert |run| == |run.Keys| && |active| == |active.Keys| && |lingering| == |lingering.Keys|;
  }

  lemma ActiveDoesNotLinger(events: seq<Event>, o: Offer, now: Time)
    ensures !(Active(o, now) && Lingers(events, o.expiresAt, now))
  {
  }

  /** Reading the pool first makes a hold at the same instant count active offers only. */
  lemma ReadingFreesTheSlots(max: int, ttl: Time, events: seq<Event>, now: Time, o: Offer)
    requires UpTo(events, now)
    ensures var after := events + [Event(Op.Held, now)];
            !Succeeds(max, Run(max, ttl, after), Op.Hold(o)) <==> |ActiveOnly(Ledger(max, ttl, events), now)| >= max
  {
    var after := events + [Event(Op.Held, now)];
    assert after[..|events|] == events;
    assert UpTo(after, now);
    HoldIsRefusedIff(max, ttl, after, now, o);
    forall id | id in Ledger(max, ttl, after)
      ensures !Lingers(Since(max, ttl, after, id), Ledger(max, ttl, after)[id].expiresAt, now)
    {
      assert Since(max, ttl, after, id) == Since(max, ttl, events, id) + [Event(Op.Held, now)];
    }
    assert Lingering(max, ttl, after, now) == map[];
  }

  /** Some stored offer, expired or not, is the driver's. */
  predicate ExcludedBy(held: Offers, driver: string)
  {
    exists id :: id in held && held[id].driver == driver
  }

  /** Exactly when a driver is excluded: one of their offers is active or lingers. */
  lemma ExcludedIff(max: int, ttl: Time, events: seq<Event>, driver: string, now: Time)
    requires UpTo(events, now)
    ensures var ledger := Ledger(max, ttl, events);
            ExcludedBy(Run(max, ttl, events), driver) <==>
              ExcludedBy(ActiveOnly(ledger, now), driver) || ExcludedBy(Lingering(max, ttl, events, now), driver)
  {
    hide Lingers, Active;
    var ledger, run := Ledger(max, ttl, events), Run(max, ttl, events);
    var active, lingering := ActiveOnly(ledger, now), Lingering(max, ttl, events, now);
    forall id
      ensures id in run <==> id in active || id in lingering
      ensures id in run ==> run[id] == ledger[id]
    {
      RunIsActiveOrLingering(max, ttl, events, now, id);
    }
    if id :| id in active && active[id].driver == driver {
      assert id in run && run[id].driver == driver;
    }
    if id :| id in lingering && lingering[id].driver == driver {
      assert id in run && run[id].driver == driver;
    }
    if id :| id in run && run[id].driver == driver {
      assert id in active || id in lingering;
      assert id in active ==> active[id].driver == driver;
      assert id in lingering ==> lingering[id].driver == driver;
    }
  }

  /** Exactly when exclusion outlives the active offers: all of the driver's have expired, and one of them lingers. */
  lemma ExclusionOutlivesOffers(max: int, ttl: Time, events: seq<Event>, driver: string, now: Time)
    requires UpTo(events, now)
    ensures var ledger := Ledger(max, ttl, events);
            ExcludedBy(Run(max, ttl, events), driver) && !ExcludedBy(ActiveOnly(ledger, now), driver) <==>
              && (forall id :: id in ledger && ledger[id].driver == driver ==> ledger[id].expiresAt <= now)
              && ExcludedBy(Lingering(max, ttl, events, now), driver)
  {
    hide Lingers;
    ExcludedIff(max, ttl, events, driver, now);
    var ledger := Ledger(max, ttl, events);
    var active := ActiveOnly(ledger, now);
    forall id | id in ledger && ledger[id].driver == driver && now < ledger[id].expiresAt
      ensures ExcludedBy(active, driver)
    {
      assert id in active && active[id].driver == driver;
    }
  }

  /** A read and a sweep at the same instant leave the same pool exactly when no stored offer expires at that
    instant.
    */
  lemma ReadAndSweepAgreeIff(max: int, ttl: Time, held: Offers, now: Time)
    ensures After(max, ttl, held, Event(Op.Held, now)) == After(max, ttl, held, Event(Op.Sweep, now))
       <==> forall id :: id in held ==> held[id].expiresAt != now
  {
    var read, swept := ActiveOnly(held, now), Swept(held, now);
    if read == swept {
      forall id | id in held
        ensures held[id].expiresAt != now
      {
        assert id in read <==> id in swept;
      }
    }
  }

  /** One slot, offers valid for ten: at time ten the expired offer still fills the pool and excludes its driver,
    sweeping at that instant does not help, and reading does.
    */
  lemma ExpiredOfferBlocks(o: Offer, next: Offer)
    ensures var held := [Event(Op.Hold(o), 0)];
            var swept, read := held + [Event(Op.Sweep, 10)], held + [Event(Op.Held, 10)];
            && ActiveOnly(Ledger(1, 10, held), 10) == map[]
            && !Succeeds(1, Run(1, 10, held), Op.Hold(next)) && ExcludedBy(Run(1, 10, held), o.driver)
            && !Succeeds(1, Run(1, 10, swept), Op.Hold(next)) && ExcludedBy(Run(1, 10, swept), o.driver)
            && Succeeds(1, Run(1, 10, read), Op.Hold(next)) && !ExcludedBy(Run(1, 10, read), o.driver)
  {
    var held := [Event(Op.Hold(o), 0)];
    var swept, read := held + [Event(Op.Sweep, 10)], held + [Event(Op.Held, 10)];
    assert held[..0] == [] && swept[..1] == held && read[..1] == held;
    var stored := map[o.id := o.(expiresAt := 10)];
    assert Run(1, 10, held) == stored == Ledger(1, 10, held);
    assert o.id in stored && stored[o.id].driver == o.driver;
    assert Run(1, 10, swept) == stored && Run(1, 10, read) == map[];
  }

  // ---------------------------------------------------------------- the pool object

  class Pool {
    const max: int
    const ttl: Time
    var held: Offers
    /** Every operation so far, the refused ones included. */
    ghost var events: seq<Event>

    /** Offers are filed under their own id and the pool is what its history makes of the empty pool. */
    ghost predicate Valid()
      reads this
    {
      && (forall id :: id in held ==> held[id].id == id)
      && held == Run(max, ttl, events)
    }

    constructor (max: int, ttl: Time)
      ensures Valid() && this.max == max && this.ttl == ttl && held == map[] && events == []
    {
      this.max, this.ttl, held, events := max, ttl, map[], [];
    }

    method Hold(o: Offer, now: Time) returns (r: Result<()>)
      requires Valid()
      modifies this
      ensures Valid() && events == old(events) + [Event(Op.Hold(o), now)]
      ensures r.Ok? <==> |old(held)| < max
      ensures held == if r.Ok? then old(held)[o.id := o.(expiresAt := now + ttl)] else old(held)
    {
      assert (events + [Event(Op.Hold(o), now)])[..|events|] == events;
      events := events + [Event(Op.Hold(o), now)];
      if |held| >= max {
        return Err("offer pool full");
      }
      held := held[o.id := o.(expiresAt := now + ttl)];
      r := Ok(());
    }

    /** The active offers, each once, in any order; expired ones are dropped from the pool. */
    method Held(now: Time) returns (out: seq<Offer>)
      requires Valid()
      modifies this
      ensures Valid() && events == old(events) + [Event(Op.Held, now)]
      ensures forall o :: o in out <==> o.id in old(held) && old(held)[o.id] == o && now < o.expiresAt
      ensures held == map id | id in old(held) && now < old(held)[id].expiresAt :: old(held)[id]
      ensures forall i, j :: 0 <= i < j < |out| ==> out[i].id != out[j].id
    {
      ghost var start := held;
      assert (events + [Event(Op.Held, now)])[..|events|] == events;
      events := events + [Event(Op.Held, now)];
      out := [];
      var todo := held.Keys;
      while todo != {}
        invariant todo <= start.Keys && events == old(events) + [Event(Op.Held, now)]
        invariant held == map id | id in start && (id in todo || Active(start[id], now)) :: start[id]
        invariant forall o :: o in out <==> o.id in start && o.id !in todo && start[o.id] == o && Active(o, now)
        invariant forall i, j :: 0 <= i < j < |out| ==> out[i].id != out[j].id
        decreases todo
      {
        var id :| id in todo;
        var o := held[id];
        ghost var before := out;
        if Active(o, now) {
          out := out + [o];
        } else {
          held := held - {o.id};
        }
        todo := todo - {id};
        assert forall p :: p in out <==> p in before || (Active(o, now) && p == o);
      }
    }

    /** Accepting ends the negotiation: every held offer is released. */
    method Accept(id: string, now: Time) returns (r: Result<()>)
      requires Valid()
      modifies this
      ensures Valid() && events == old(events) + [Event(Op.Accept(id), now)]
      ensures r.Ok? <==> id in old(held)
      ensures held == if r.Ok? then map[] else old(held)
    {
      assert (events + [Event(Op.Accept(id), now)])[..|events|] == events;
      events := events + [Event(Op.Accept(id), now)];
      if id !in held {
        return Err("offer not found");
      }
      held := map[];
      r := Ok(());
    }

    method Cancel(id: string, now: Time) returns (r: Result<()>)
      requires Valid()
      modifies this
      ensures Valid() && events == old(events) + [Event(Op.Cancel(id), now)]
      ensures r.Ok? <==> id in old(held)
      ensures held == if r.Ok? then old(held) - {id} else old(held)
    {
      assert (events + [Event(Op.Cancel(id), now)])[..|events|] == events;
      events := events + [Event(Op.Cancel(id), now)];
      if id !in held {
        return Err("offer not found");
      }
      held := held - {id};
      r := Ok(());
    }

    /** Looks through all held offers, expired ones included. */
    method Excluded(driver: string) returns (r: bool)
      ensures r <==> exists id :: id in held && held[id].driver == driver
    {
      var todo := held.Keys;
      while todo != {}
        invariant todo <= held.Keys
        invariant forall id :: id in held && id !in todo ==> held[id].driver != driver
        decreases todo
      {
        var id :| id in todo;
        if held[id].driver == driver {
          return true;
        }
        todo := todo - {id};
      }
      return false;
    }

    method Sweep(now: Time)
      requires Valid()
      modifies this
      ensures Valid() && events == old(events) + [Event(Op.Sweep, now)]
      ensures held == map id | id in old(held) && now <= old(held)[id].expiresAt :: old(held)[id]
    {
      ghost var start := held;
      assert (events + [Event(Op.Sweep, now)])[..|events|] == events;
      events := events + [Event(Op.Sweep, now)];
      var todo := held.Keys;
      while todo != {}
        invariant todo <= start.Keys && events == old(events) + [Event(Op.Sweep, now)]
        invariant held == map id | id in start && (id in todo || now <= start[id].expiresAt) :: start[id]
        decreases todo
      {
        var id :| id in todo;
        if now > held[id].expiresAt {
          held := held - {id};
        }
        todo := todo - {id};
      }
    }
  }

  /** What Held returns at time now is exactly the ledger's active offers, after any history. */
  lemma HeldReturnsLedger(max: int, ttl: Time, events: seq<Event>, now: Time, held: Offers, out: seq<Offer>)
    requires Monotone(events) && (events != [] ==> events[|events| - 1].now <= now)
    requires held == Run(max, ttl, events)
    requires forall o :: o in out <==> o.id in held && held[o.id] == o && now < o.expiresAt
    ensures var ledger := Ledger(max, ttl, events);
            forall o :: o in out <==> o.id in ledger && ledger[o.id] == o && now < o.expiresAt
  {
    RunMirrorsLedger(max, ttl, events, now);
  }
}
