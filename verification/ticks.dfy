/** Ticked motion along a route against the route's timetable: internal/movement/engine.go and routing.

  The engine chooses a speed once per tick, from the segment the actor is on when the tick starts, and a tick
  that runs past the end of a segment goes on at the old segment's speed. The timetable is where the route's own
  edge times put the actor. This module proves exactly when ticked motion keeps to the timetable, and so takes the
  travel time that the search reports.
  */
module Ticks {
  import opened RealFacts
  import opened Movement

  // ---------------------------------------------------------------- ticked motion

  /** A route: segment lengths that count as distance, positive times, and a positive tick. */
  predicate Timed(lens: seq<real>, secs: seq<real>, dt: real)
  {
    && |lens| == |secs| && 0.0 < dt
    && (forall i :: 0 <= i < |lens| ==> DEGENERATE_M <= lens[i])
    && (forall i :: 0 <= i < |secs| ==> 0.0 < secs[i])
  }

  /** One speed for every segment. */
  predicate Driven(lens: seq<real>, speeds: seq<real>)
  {
    |speeds| == |lens| && forall i :: 0 <= i < |speeds| ==> 0.0 <= speeds[i]
  }

  /** One tick: the speed is that of the segment at the start of the tick. */
  ghost function Tick(lens: seq<real>, speeds: seq<real>, p: Place, dt: real): Place
    requires |speeds| == |lens|
  {
    if p.seg >= |lens| then p else End(lens, p, Times(dt, speeds[p.seg]))
  }

  ghost function After(lens: seq<real>, speeds: seq<real>, p: Place, dt: real, k: nat): Place
    requires |speeds| == |lens|
  {
    if k == 0 then p else Tick(lens, speeds, After(lens, speeds, p, dt, k - 1), dt)
  }

  // ---------------------------------------------------------------- the timetable

  function Total(secs: seq<real>): real
  {
    if secs == [] then 0.0 else Total(secs[..|secs| - 1]) + secs[|secs| - 1]
  }

  /** The time at which segment i starts. */
  function StartOf(secs: seq<real>, i: nat): real
    requires i <= |secs|
  {
    Total(secs[..i])
  }

  lemma StartOfNext(secs: seq<real>, i: nat)
    requires i < |secs|
    ensures StartOf(secs, i + 1) == StartOf(secs, i) + secs[i]
  {
    assert secs[..i + 1][..i] == secs[..i];
  }

  lemma {:induction false} StartsIncrease(secs: seq<real>, i: nat, j: nat)
    requires i <= j <= |secs| && forall k :: 0 <= k < |secs| ==> 0.0 < secs[k]
    ensures StartOf(secs, i) <= StartOf(secs, j) && (i < j ==> StartOf(secs, i) < StartOf(secs, j))
    decreases j
  {
    if i < j {
      StartsIncrease(secs, i, j - 1);
      StartOfNext(secs, j - 1);
    }
  }

  /** The last of the first n segments that has started at time t. */
  function Current(secs: seq<real>, t: real, n: nat): (i: nat)
    requires n <= |secs| && 0.0 <= t
    ensures i <= n && StartOf(secs, i) <= t && (i < n ==> t < StartOf(secs, i + 1))
  {
    if n == 0 || StartOf(secs, n) <= t then n else Current(secs, t, n - 1)
  }

  /** Where the segment times put the actor at time t. */
  function Timetable(secs: seq<real>, t: real): Place
    requires 0.0 <= t && forall k :: 0 <= k < |secs| ==> 0.0 < secs[k]
  {
    var i := Current(secs, t, |secs|);
    if i == |secs| then Place(i, 0.0) else Place(i, (t - StartOf(secs, i)) / secs[i])
  }

  /** During segment i the timetable is on segment i; from the total time on it is at the end. */
  lemma TimetableSegment(secs: seq<real>, t: real, i: nat)
    requires 0.0 <= t && forall k :: 0 <= k < |secs| ==> 0.0 < secs[k]
    requires i <= |secs| && StartOf(secs, i) <= t && (i < |secs| ==> t < StartOf(secs, i + 1))
    ensures Timetable(secs, t).seg == i
  {
    var c := Current(secs, t, |secs|);
    if c < i {
      StartsIncrease(secs, c + 1, i);
    } else if i < c {
      StartsIncrease(secs, i + 1, c);
    }
  }

  lemma TimetableOnTrack(lens: seq<real>, secs: seq<real>, dt: real, t: real)
    requires Timed(lens, secs, dt) && 0.0 <= t
    ensures OnTrack(lens, Timetable(secs, t))
    ensures Timetable(secs, t).seg >= |lens| <==> Total(secs) <= t
  {
    hide StartOf, Current;
    var i := Current(secs, t, |secs|);
    TotalIsLastStart(secs);
    if i < |secs| {
      StartOfNext(secs, i);
      StartsIncrease(secs, i + 1, |secs|);
      ProperFraction(t - StartOf(secs, i), secs[i]);
    }
  }

  lemma TotalIsLastStart(secs: seq<real>)
    ensures Total(secs) == StartOf(secs, |secs|)
  {
    assert secs[..|secs|] == secs;
  }

  lemma ProperFraction(x: real, sec: real)
    requires 0.0 <= x < sec
    ensures 0.0 <= x / sec < 1.0
  {
    var f := x / sec;
    assert f * sec == x;
    CancelFactor(sec, f, 1.0);
    if f < 0.0 {
      MulStrict(sec, f, 0.0);
    }
  }

  // ---------------------------------------------------------------- distance left

  lemma LeftHere(lens: seq<real>, p: Place)
    requires p.seg < |lens| && DEGENERATE_M <= lens[p.seg]
    ensures Left(lens, p) == Ahead(p.frac, lens[p.seg]) + Left(lens, Place(p.seg + 1, 0.0))
  {
  }

  lemma {:induction false} LaterHasLessLeft(lens: seq<real>, i: nat, j: nat)
    requires i <= j <= |lens| && forall k :: 0 <= k < |lens| ==> DEGENERATE_M <= lens[k]
    ensures Left(lens, Place(j, 0.0)) <= Left(lens, Place(i, 0.0))
    decreases j - i
  {
    if i < j {
      LaterHasLessLeft(lens, i + 1, j);
      LeftHere(lens, Place(i, 0.0));
    }
  }

  /** A place further on, within its own segment or beyond, has less distance left. */
  lemma FurtherHasLessLeft(lens: seq<real>, p: Place, q: Place)
    requires OnTrack(lens, p) && OnTrack(lens, q) && forall k :: 0 <= k < |lens| ==> DEGENERATE_M <= lens[k]
    requires p.seg < q.seg || (p.seg == q.seg && p.frac < q.frac)
    ensures Left(lens, q) < Left(lens, p)
  {
    hide Ahead, Left;
    LeftHere(lens, p);
    AheadIsPositive(p.frac, lens[p.seg]);
    if p.seg < q.seg {
      LaterHasLessLeft(lens, p.seg + 1, q.seg);
      if q.seg < |lens| {
        LeftHere(lens, q);
        LeftHere(lens, Place(q.seg, 0.0));
        AheadShrinks(0.0, q.frac, lens[q.seg]);
      }
    } else {
      LeftHere(lens, q);
      AheadShrinks(p.frac, q.frac, lens[p.seg]);
    }
  }

  lemma AheadIsPositive(f: real, len: real)
    requires f < 1.0 && 0.0 < len
    ensures 0.0 < Ahead(f, len)
  {
    MulPositive(1.0 - f, len);
  }

  lemma AheadShrinks(f: real, g: real, len: real)
    requires f <= g && 0.0 < len
    ensures Ahead(g, len) <= Ahead(f, len) && (f < g ==> Ahead(g, len) < Ahead(f, len))
  {
    assert Ahead(f, len) == Times(1.0 - f, len) && Ahead(g, len) == Times(1.0 - g, len);
    TimesIncreases(1.0 - g, 1.0 - f, len);
  }

  /** The distance left determines the place. */
  lemma LeftIsInjective(lens: seq<real>, p: Place, q: Place)
    requires OnTrack(lens, p) && OnTrack(lens, q) && forall k :: 0 <= k < |lens| ==> DEGENERATE_M <= lens[k]
    requires Left(lens, p) == Left(lens, q)
    ensures p == q
  {
    if p.seg < q.seg || (p.seg == q.seg && p.frac < q.frac) {
      FurtherHasLessLeft(lens, p, q);
    } else if q.seg < p.seg || q.frac < p.frac {
      FurtherHasLessLeft(lens, q, p);
    }
  }

  // ---------------------------------------------------------------- keeping to the timetable

  /** The timetable after j ticks. */
  function Due(secs: seq<real>, dt: real, j: nat): Place
    requires 0.0 < dt && forall k :: 0 <= k < |secs| ==> 0.0 < secs[k]
  {
    NonNegativeTime(j, dt);
    Timetable(secs, Times(j as real, dt))
  }

  lemma NonNegativeTime(j: nat, dt: real)
    requires 0.0 < dt
    ensures 0.0 <= Times(j as real, dt)
  {
    MulNonNegative(j as real, dt);
  }

  /** After every tick the actor is where the timetable puts it. */
  ghost predicate KeepsTime(lens: seq<real>, speeds: seq<real>, secs: seq<real>, dt: real)
    requires Timed(lens, secs, dt) && Driven(lens, speeds)
  {
    forall j: nat :: After(lens, speeds, Place(0, 0.0), dt, j) == Due(secs, dt, j)
  }

  /** Tick j, started on the timetable at one speed, covers the distance the timetable does; past the end more
    will do.
    */
  predicate CoversTick(lens: seq<real>, speeds: seq<real>, secs: seq<real>, dt: real, j: nat)
    requires Timed(lens, secs, dt) && Driven(lens, speeds)
  {
    var p, q := Due(secs, dt, j), Due(secs, dt, j + 1);
    p.seg < |lens| ==>
      var distance := Times(dt, speeds[p.seg]);
      if q.seg < |lens| then Left(lens, p) - Left(lens, q) == distance else Left(lens, p) <= distance
  }

  /** One tick from a place p leads to q exactly when it covers the distance between them. */
  lemma TickReachesIff(lens: seq<real>, speeds: seq<real>, dt: real, p: Place, q: Place)
    requires Driven(lens, speeds) && 0.0 < dt && forall k :: 0 <= k < |lens| ==> DEGENERATE_M <= lens[k]
    requires OnTrack(lens, p) && OnTrack(lens, q) && p.seg < |lens|
    ensures var distance := Times(dt, speeds[p.seg]);
            Tick(lens, speeds, p, dt) == q <==>
              if q.seg < |lens| then Left(lens, p) - Left(lens, q) == distance else Left(lens, p) <= distance
  {
    hide Left, Times;
    var distance := Times(dt, speeds[p.seg]);
    DistanceNonNegative(dt, speeds[p.seg]);
    MoveConserves(lens, p, distance);
    LeftNonNegative(lens, q);
    LeftNonNegative(lens, p);
    var end := Place(|lens|, 0.0);
    LeftAtEnd(lens);
    if q.seg < |lens| {
      FurtherHasLessLeft(lens, q, end);
    }
    var there := Tick(lens, speeds, p, dt);
    if Left(lens, there) == Left(lens, q) {
      LeftIsInjective(lens, there, q);
    }
  }

  lemma DistanceNonNegative(dt: real, v: real)
    requires 0.0 <= dt && 0.0 <= v
    ensures 0.0 <= Times(dt, v)
  {
    MulNonNegative(dt, v);
  }

  lemma LeftAtEnd(lens: seq<real>)
    ensures Left(lens, Place(|lens|, 0.0)) == 0.0
  {
  }

  /** Past the total time the timetable stays at the end. */
  lemma DueStaysAtEnd(lens: seq<real>, secs: seq<real>, dt: real, j: nat)
    requires Timed(lens, secs, dt)
    ensures OnTrack(lens, Due(secs, dt, j)) && OnTrack(lens, Due(secs, dt, j + 1))
    ensures Due(secs, dt, j).seg >= |lens| ==> Due(secs, dt, j + 1) == Due(secs, dt, j)
  {
    hide Timetable;
    NonNegativeTime(j, dt);
    NonNegativeTime(j + 1, dt);
    TimetableOnTrack(lens, secs, dt, Times(j as real, dt));
    TimetableOnTrack(lens, secs, dt, Times((j + 1) as real, dt));
    NextTime(j, dt);
  }

  lemma NextTime(j: nat, dt: real)
    ensures Times((j + 1) as real, dt) == Times(j as real, dt) + dt
  {
  }

  /** Ticked motion keeps to the timetable exactly when every tick covers the timetable's distance. */
  lemma KeepsTimeIff(lens: seq<real>, speeds: seq<real>, secs: seq<real>, dt: real)
    requires Timed(lens, secs, dt) && Driven(lens, speeds)
    ensures KeepsTime(lens, speeds, secs, dt) <==> forall j: nat :: CoversTick(lens, speeds, secs, dt, j)
  {
    hide CoversTick;
    if KeepsTime(lens, speeds, secs, dt) {
      forall j: nat
        ensures CoversTick(lens, speeds, secs, dt, j)
      {
        assert After(lens, speeds, Place(0, 0.0), dt, j) == Due(secs, dt, j);
        assert After(lens, speeds, Place(0, 0.0), dt, j + 1) == Due(secs, dt, j + 1);
        NextDueIff(lens, speeds, secs, dt, j);
      }
    }
    if forall j: nat :: CoversTick(lens, speeds, secs, dt, j) {
      forall j: nat
        ensures After(lens, speeds, Place(0, 0.0), dt, j) == Due(secs, dt, j)
      {
        CoveredTicksKeepTime(lens, speeds, secs, dt, j);
      }
    }
  }

  lemma NextDueIff(lens: seq<real>, speeds: seq<real>, secs: seq<real>, dt: real, j: nat)
    requires Timed(lens, secs, dt) && Driven(lens, speeds)
    ensures Tick(lens, speeds, Due(secs, dt, j), dt) == Due(secs, dt, j + 1) <==> CoversTick(lens, speeds, secs, dt, j)
  {
    hide Due, End, Times, Left;
    DueStaysAtEnd(lens, secs, dt, j);
    if Due(secs, dt, j).seg < |lens| {
      TickReachesIff(lens, speeds, dt, Due(secs, dt, j), Due(secs, dt, j + 1));
    }
  }

  lemma {:induction false} CoveredTicksKeepTime(lens: seq<real>, speeds: seq<real>, secs: seq<real>, dt: real, j: nat)
    requires Timed(lens, secs, dt) && Driven(lens, speeds)
    requires forall i: nat :: i < j ==> CoversTick(lens, speeds, secs, dt, i)
    ensures After(lens, speeds, Place(0, 0.0), dt, j) == Due(secs, dt, j)
  {
    hide CoversTick, Due, Tick;
    if j == 0 {
      DueAtStart(secs, dt);
    } else {
      CoveredTicksKeepTime(lens, speeds, secs, dt, j - 1);
      NextDueIff(lens, speeds, secs, dt, j - 1);
    }
  }

  lemma DueAtStart(secs: seq<real>, dt: real)
    requires 0.0 < dt && forall k :: 0 <= k < |secs| ==> 0.0 < secs[k]
    ensures Due(secs, dt, 0) == Place(0, 0.0)
  {
    TimesZero(dt);
    assert secs[..0] == [];
    if secs != [] {
      StartOfNext(secs, 0);
    }
    TimetableSegment(secs, 0.0, 0);
  }

  /** Ticked motion that keeps to the timetable has arrived after j ticks exactly when the route's time has passed. */
  lemma ArrivesOnTime(lens: seq<real>, speeds: seq<real>, secs: seq<real>, dt: real, j: nat)
    requires Timed(lens, secs, dt) && Driven(lens, speeds)
    requires forall i: nat :: i < j ==> CoversTick(lens, speeds, secs, dt, i)
    ensures After(lens, speeds, Place(0, 0.0), dt, j).seg >= |lens| <==> Total(secs) <= Times(j as real, dt)
  {
    hide CoversTick, Timetable;
    CoveredTicksKeepTime(lens, speeds, secs, dt, j);
    NonNegativeTime(j, dt);
    TimetableOnTrack(lens, secs, dt, Times(j as real, dt));
  }

  // ---------------------------------------------------------------- the route's own speeds

  function SpeedAt(lens: seq<real>, secs: seq<real>, i: nat): real
    requires i < |lens| == |secs| && 0.0 < secs[i]
  {
    lens[i] / secs[i]
  }

  /** Each segment driven at its length over its time. */
  function OwnSpeeds(lens: seq<real>, secs: seq<real>): (speeds: seq<real>)
    requires |lens| == |secs| && forall i :: 0 <= i < |secs| ==> 0.0 < secs[i] && DEGENERATE_M <= lens[i]
    ensures Driven(lens, speeds) && forall i :: 0 <= i < |lens| ==> speeds[i] == SpeedAt(lens, secs, i)
  {
    OwnSpeedsNonNegative(lens, secs);
    seq(|lens|, i requires 0 <= i < |lens| => SpeedAt(lens, secs, i))
  }

  lemma OwnSpeedsNonNegative(lens: seq<real>, secs: seq<real>)
    requires |lens| == |secs| && forall i :: 0 <= i < |secs| ==> 0.0 < secs[i] && DEGENERATE_M <= lens[i]
    ensures forall i :: 0 <= i < |lens| ==> 0.0 <= SpeedAt(lens, secs, i)
  {
    forall i | 0 <= i < |lens|
      ensures 0.0 <= SpeedAt(lens, secs, i)
    {
      SpeedIsPositive(lens, secs, 1.0, i);
    }
  }

  lemma SpeedIsPositive(lens: seq<real>, secs: seq<real>, dt: real, i: nat)
    requires Timed(lens, secs, dt) && i < |lens|
    ensures 0.0 < SpeedAt(lens, secs, i) && Times(SpeedAt(lens, secs, i), secs[i]) == lens[i]
    ensures 0.0 < Times(dt, SpeedAt(lens, secs, i))
  {
    var v := lens[i] / secs[i];
    assert v * secs[i] == lens[i];
    CancelFactor(secs[i], 0.0, v);
    MulPositive(dt, v);
  }

  /** Two speeds on a segment lead alike, from everywhere on it and for every tick, exactly when they are equal. */
  lemma SameTicksIff(lens: seq<real>, us: seq<real>, vs: seq<real>, i: nat)
    requires Driven(lens, us) && Driven(lens, vs) && i < |lens|
    requires forall k :: 0 <= k < |lens| ==> DEGENERATE_M <= lens[k]
    ensures us[i] == vs[i] <==>
              forall p: Place, dt: real :: p.seg == i && 0.0 < dt && OnTrack(lens, p) ==>
                Tick(lens, us, p, dt) == Tick(lens, vs, p, dt)
  {
    hide Times, End, Left;
    var p := Place(i, 0.0);
    var dt := ShortTick(us[i], vs[i], lens[i]);
    StartLeaves(lens, i);
    if Tick(lens, us, p, dt) == Tick(lens, vs, p, dt) {
      EndDetermines(lens, p, Times(dt, us[i]), Times(dt, vs[i]));
      SameProductIff(dt, us[i], vs[i]);
    }
  }

  /** A tick so short that neither speed leaves the segment. */
  lemma ShortTick(u: real, v: real, len: real) returns (dt: real)
    requires 0.0 <= u && 0.0 <= v && 0.0 < len
    ensures 0.0 < dt && 0.0 <= Times(dt, u) <= len && 0.0 <= Times(dt, v) <= len
  {
    var sum := u + v + 1.0;
    dt := len / sum;
    assert dt * sum == len;
    CancelFactor(sum, 0.0, dt);
    MulMonotone(dt, u, sum);
    MulMonotone(dt, v, sum);
    MulNonNegative(dt, u);
    MulNonNegative(dt, v);
  }

  lemma StartLeaves(lens: seq<real>, i: nat)
    requires i < |lens| && forall k :: 0 <= k < |lens| ==> DEGENERATE_M <= lens[k]
    ensures OnTrack(lens, Place(i, 0.0)) && lens[i] <= Left(lens, Place(i, 0.0))
  {
    LeftNonNegative(lens, Place(i + 1, 0.0));
    LeftHere(lens, Place(i, 0.0));
    assert Ahead(0.0, lens[i]) == lens[i];
  }

  /** Up to the distance left, different distances lead to different places. */
  lemma EndDetermines(lens: seq<real>, p: Place, x: real, y: real)
    requires OnTrack(lens, p) && 0.0 <= x <= Left(lens, p) && 0.0 <= y <= Left(lens, p)
    requires End(lens, p, x) == End(lens, p, y)
    ensures x == y
  {
    MoveConserves(lens, p, x);
    MoveConserves(lens, p, y);
  }

  // ---------------------------------------------------------------- a condition on the route alone

  predicate WholeTicks(x: real, dt: real, k: nat) { x == Times(k as real, dt) }

  ghost predicate Multiple(x: real, dt: real) { exists k: nat :: WholeTicks(x, dt, k) }

  /** Wherever a tick can run over the end of a segment, the next segment has the same speed. */
  ghost predicate Smooth(lens: seq<real>, secs: seq<real>, dt: real)
    requires Timed(lens, secs, dt)
  {
    forall i :: 0 <= i < |lens| - 1 ==>
      Multiple(StartOf(secs, i + 1), dt) || SpeedAt(lens, secs, i) == SpeedAt(lens, secs, i + 1)
  }

  /** The distance the timetable leaves during segment i, its end included. */
  lemma LeftByTimetable(lens: seq<real>, secs: seq<real>, dt: real, t: real, i: nat)
    requires Timed(lens, secs, dt) && 0.0 <= t && i < |lens|
    requires StartOf(secs, i) <= t <= StartOf(secs, i + 1)
    ensures Left(lens, Timetable(secs, t))
         == Times(StartOf(secs, i + 1) - t, SpeedAt(lens, secs, i)) + Left(lens, Place(i + 1, 0.0))
  {
    hide StartOf, Current, Left, Times, SpeedAt, Ahead;
    var e, v := StartOf(secs, i + 1), SpeedAt(lens, secs, i);
    StartOfNext(secs, i);
    if t < e {
      TimetableSegment(secs, t, i);
      LeftHere(lens, Place(i, (t - StartOf(secs, i)) / secs[i]));
      SpeedIsPositive(lens, secs, dt, i);
      AheadInTime(lens[i], secs[i], v, t - StartOf(secs, i), e - t);
    } else {
      TimesZero(v);
      TimetableAtStart(secs, t, i + 1);
    }
  }

  lemma AheadInTime(len: real, sec: real, v: real, done: real, rest: real)
    requires 0.0 < sec && Times(v, sec) == len && done + rest == sec
    ensures Ahead(done / sec, len) == Times(rest, v)
  {
    var f := done / sec;
    assert f * sec == done;
    assert (1.0 - f) * (v * sec) == v * (sec - f * sec);
  }

  /** At the start of a segment the timetable is at its start. */
  lemma TimetableAtStart(secs: seq<real>, t: real, i: nat)
    requires 0.0 <= t && forall k :: 0 <= k < |secs| ==> 0.0 < secs[k]
    requires i <= |secs| && t == StartOf(secs, i)
    ensures Timetable(secs, t) == Place(i, 0.0)
  {
    hide StartOf, Current;
    if i < |secs| {
      StartOfNext(secs, i);
      assert 0.0 / secs[i] == 0.0;
    }
    TimetableSegment(secs, t, i);
  }

  /** A tick from t within segment i to its end or before covers the timetable's distance. */
  lemma TickWithinSegment(lens: seq<real>, secs: seq<real>, dt: real, t: real, i: nat)
    requires Timed(lens, secs, dt) && 0.0 <= t && i < |lens|
    requires StartOf(secs, i) <= t && t + dt <= StartOf(secs, i + 1)
    ensures Left(lens, Timetable(secs, t)) - Left(lens, Timetable(secs, t + dt)) == Times(dt, SpeedAt(lens, secs, i))
  {
    hide StartOf, Timetable, Left, Times, SpeedAt;
    LeftByTimetable(lens, secs, dt, t, i);
    LeftByTimetable(lens, secs, dt, t + dt, i);
    var e, v := StartOf(secs, i + 1), SpeedAt(lens, secs, i);
    AddTimes(e - t - dt, dt, v);
  }

  /** A tick from t over the end of segment i into the next covers the timetable's distance exactly at equal speeds. */
  lemma TickOverBoundaryIff(lens: seq<real>, secs: seq<real>, dt: real, t: real, i: nat)
    requires Timed(lens, secs, dt) && 0.0 <= t && i + 1 < |lens|
    requires StartOf(secs, i) <= t <= StartOf(secs, i + 1) < t + dt <= StartOf(secs, i + 2)
    ensures Left(lens, Timetable(secs, t)) - Left(lens, Timetable(secs, t + dt)) == Times(dt, SpeedAt(lens, secs, i))
       <==> SpeedAt(lens, secs, i) == SpeedAt(lens, secs, i + 1)
  {
    hide StartOf, Timetable, Left, Times, SpeedAt;
    LeftByTimetable(lens, secs, dt, t, i);
    LeftByTimetable(lens, secs, dt, t + dt, i + 1);
    LeftByTimetable(lens, secs, dt, StartOf(secs, i + 1), i + 1);
    TimetableAtStart(secs, StartOf(secs, i + 1), i + 1);
    var e, v, u := StartOf(secs, i + 1), SpeedAt(lens, secs, i), SpeedAt(lens, secs, i + 1);
    var over := t + dt - e;
    AddTimes(StartOf(secs, i + 2) - t - dt, over, u);
    AddTimes(e - t, over, v);
    SameProductIff(over, v, u);
  }

  lemma SameProductIff(x: real, v: real, u: real)
    requires 0.0 < x
    ensures Times(x, v) == Times(x, u) <==> v == u
  {
    if v < u {
      MulStrict(x, v, u);
    } else if u < v {
      MulStrict(x, u, v);
    }
  }

  lemma AddTimes(a: real, b: real, k: real)
    ensures Times(a + b, k) == Times(a, k) + Times(b, k)
  {
  }

  lemma TimesIncreases(a: real, b: real, k: real)
    requires 0.0 < k
    ensures a < b <==> Times(a, k) < Times(b, k)
  {
    AddTimes(a, b - a, k);
    if a < b {
      MulPositive(b - a, k);
    } else {
      MulNonNegative(a - b, k);
      AddTimes(b - a, a - b, k);
      TimesZero(k);
    }
  }

  /** The tick during which a positive time passes that is no multiple of the tick. */
  lemma TickAround(e: real, dt: real) returns (j: nat)
    requires 0.0 < e && 0.0 < dt && !Multiple(e, dt)
    ensures Times(j as real, dt) < e < Times(j as real, dt) + dt
  {
    var x := e / dt;
    assert Times(x, dt) == e;
    hide Times;
    TimesZero(dt);
    TimesIncreases(0.0, x, dt);
    j := x.Floor;
    assert !WholeTicks(e, dt, j);
    TimesIncreases(j as real, x, dt);
    TimesIncreases(x, (j + 1) as real, dt);
    NextTime(j, dt);
  }

  /** A multiple of the tick does not fall strictly within a tick. */
  lemma MultipleIsBetweenTicks(e: real, dt: real, j: nat)
    requires 0.0 < dt && Multiple(e, dt)
    ensures !(Times(j as real, dt) < e < Times(j as real, dt) + dt)
  {
    hide Times;
    var k: nat :| WholeTicks(e, dt, k);
    TicksInOrder(j, k, dt);
  }

  lemma TicksInOrder(j: nat, k: nat, dt: real)
    requires 0.0 < dt
    ensures if k <= j then Times(k as real, dt) <= Times(j as real, dt)
            else Times(j as real, dt) + dt <= Times(k as real, dt)
  {
    hide Times;
    NextTime(j, dt);
    if k <= j {
      TimesIncreases(j as real, k as real, dt);
    } else {
      TimesIncreases(k as real, (j + 1) as real, dt);
    }
  }

  /** Smoothness covers every tick as soon as a segment that starts within a tick is no shorter than a tick. */
  lemma SmoothCoversTick(lens: seq<real>, secs: seq<real>, dt: real, j: nat)
    requires Timed(lens, secs, dt) && Smooth(lens, secs, dt)
    requires forall i :: 0 < i < |secs| ==> dt <= secs[i] || Multiple(StartOf(secs, i), dt)
    ensures CoversTick(lens, OwnSpeeds(lens, secs), secs, dt, j)
  {
    hide StartOf, Left, Times, SpeedAt, Multiple, Current;
    var t := Times(j as real, dt);
    NonNegativeTime(j, dt);
    NonNegativeTime(j + 1, dt);
    NextTime(j, dt);
    var i := Due(secs, dt, j).seg;
    if i < |lens| {
      CurrentSegment(secs, t);
      var e := StartOf(secs, i + 1);
      if t + dt <= e {
        TickWithinSegment(lens, secs, dt, t, i);
        EndHasNothingLeft(lens, secs, dt, t + dt);
      } else if i + 1 == |lens| {
        LastTick(lens, secs, dt, t, i);
      } else {
        StartOfNext(secs, i + 1);
        if Multiple(e, dt) {
          MultipleIsBetweenTicks(e, dt, j);
        }
        TickOverBoundaryIff(lens, secs, dt, t, i);
        EndHasNothingLeft(lens, secs, dt, t + dt);
      }
    }
  }

  lemma CurrentSegment(secs: seq<real>, t: real)
    requires 0.0 <= t && forall k :: 0 <= k < |secs| ==> 0.0 < secs[k]
    ensures var i := Timetable(secs, t).seg;
            i <= |secs| && StartOf(secs, i) <= t && (i < |secs| ==> t < StartOf(secs, i + 1))
  {
  }

  lemma EndHasNothingLeft(lens: seq<real>, secs: seq<real>, dt: real, t: real)
    requires Timed(lens, secs, dt) && 0.0 <= t
    ensures Timetable(secs, t).seg >= |lens| ==> Left(lens, Timetable(secs, t)) == 0.0
  {
    TimetableOnTrack(lens, secs, dt, t);
  }

  /** A tick that outlasts the last segment covers what is left of it. */
  lemma LastTick(lens: seq<real>, secs: seq<real>, dt: real, t: real, i: nat)
    requires Timed(lens, secs, dt) && 0.0 <= t && i + 1 == |lens|
    requires StartOf(secs, i) <= t < StartOf(secs, i + 1) < t + dt
    ensures Timetable(secs, t + dt).seg >= |lens|
    ensures Left(lens, Timetable(secs, t)) <= Times(dt, SpeedAt(lens, secs, i))
  {
    hide StartOf, Timetable, Times, SpeedAt;
    LeftByTimetable(lens, secs, dt, t, i);
    LeftAtEnd(lens);
    SpeedIsPositive(lens, secs, dt, i);
    TimesIncreases(StartOf(secs, i + 1) - t, dt, SpeedAt(lens, secs, i));
    TotalIsLastStart(secs);
    TimetableOnTrack(lens, secs, dt, t + dt);
  }

  /** With ticks no longer than any segment, motion keeps to the timetable exactly when the route is smooth. */
  lemma KeepsTimeIffSmooth(lens: seq<real>, secs: seq<real>, dt: real)
    requires Timed(lens, secs, dt) && forall i :: 0 <= i < |secs| ==> dt <= secs[i]
    ensures KeepsTime(lens, OwnSpeeds(lens, secs), secs, dt) <==> Smooth(lens, secs, dt)
  {
    hide CoversTick, StartOf, Multiple, SpeedAt;
    KeepsTimeIff(lens, OwnSpeeds(lens, secs), secs, dt);
    if Smooth(lens, secs, dt) {
      forall j: nat
        ensures CoversTick(lens, OwnSpeeds(lens, secs), secs, dt, j)
      {
        SmoothCoversTick(lens, secs, dt, j);
      }
    }
    if KeepsTime(lens, OwnSpeeds(lens, secs), secs, dt) {
      forall i | 0 <= i < |lens| - 1 && !Multiple(StartOf(secs, i + 1), dt)
        ensures SpeedAt(lens, secs, i) == SpeedAt(lens, secs, i + 1)
      {
        CoveredBoundary(lens, secs, dt, i);
      }
    }
  }

  lemma CoveredBoundary(lens: seq<real>, secs: seq<real>, dt: real, i: nat)
    requires Timed(lens, secs, dt) && forall k :: 0 <= k < |secs| ==> dt <= secs[k]
    requires i + 1 < |lens| && !Multiple(StartOf(secs, i + 1), dt)
    requires forall j: nat :: CoversTick(lens, OwnSpeeds(lens, secs), secs, dt, j)
    ensures SpeedAt(lens, secs, i) == SpeedAt(lens, secs, i + 1)
  {
    hide CoversTick, StartOf, Multiple, SpeedAt, Left, Times, Timetable;
    var e := StartOf(secs, i + 1);
    StartsIncrease(secs, 0, i + 1);
    StartIsZero(secs);
    var j := TickAround(e, dt);
    var t := Times(j as real, dt);
    NonNegativeTime(j, dt);
    StartOfNext(secs, i);
    StartOfNext(secs, i + 1);
    TimetableSegment(secs, t, i);
    TimetableSegment(secs, t + dt, i + 1);
    CoversHere(lens, secs, dt, j, t);
    TickOverBoundaryIff(lens, secs, dt, t, i);
  }

  lemma StartIsZero(secs: seq<real>)
    ensures StartOf(secs, 0) == 0.0
  {
  }

  lemma CoversHere(lens: seq<real>, secs: seq<real>, dt: real, j: nat, t: real)
    requires Timed(lens, secs, dt) && CoversTick(lens, OwnSpeeds(lens, secs), secs, dt, j)
    requires t == Times(j as real, dt) && 0.0 <= t
    ensures var p, q := Timetable(secs, t), Timetable(secs, t + dt);
            p.seg < |lens| && q.seg < |lens| ==>
              Left(lens, p) - Left(lens, q) == Times(dt, SpeedAt(lens, secs, p.seg))
  {
    NextTime(j, dt);
  }

  /** Whole ticks on every segment but the last keep time, whatever the last one takes. */
  lemma WholeTicksKeepTime(lens: seq<real>, secs: seq<real>, dt: real)
    requires Timed(lens, secs, dt) && forall i :: 0 <= i < |lens| - 1 ==> Multiple(secs[i], dt)
    ensures KeepsTime(lens, OwnSpeeds(lens, secs), secs, dt)
  {
    hide CoversTick, StartOf, Multiple, SpeedAt;
    KeepsTimeIff(lens, OwnSpeeds(lens, secs), secs, dt);
    forall i | 0 < i < |secs|
      ensures Multiple(StartOf(secs, i), dt)
    {
      StartsAreMultiples(lens, secs, dt, i);
    }
    assert Smooth(lens, secs, dt);
    forall j: nat
      ensures CoversTick(lens, OwnSpeeds(lens, secs), secs, dt, j)
    {
      SmoothCoversTick(lens, secs, dt, j);
    }
  }

  lemma {:induction false} StartsAreMultiples(lens: seq<real>, secs: seq<real>, dt: real, i: nat)
    requires Timed(lens, secs, dt) && i < |secs| && forall k :: 0 <= k < |lens| - 1 ==> Multiple(secs[k], dt)
    ensures Multiple(StartOf(secs, i), dt)
  {
    hide StartOf;
    if i == 0 {
      StartIsZero(secs);
      TimesZero(dt);
      assert WholeTicks(0.0, dt, 0);
    } else {
      StartsAreMultiples(lens, secs, dt, i - 1);
      StartOfNext(secs, i - 1);
      var a: nat :| WholeTicks(StartOf(secs, i - 1), dt, a);
      var b: nat :| WholeTicks(secs[i - 1], dt, b);
      AddTimes(a as real, b as real, dt);
      assert WholeTicks(StartOf(secs, i), dt, a + b);
    }
  }
}
