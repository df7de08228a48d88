/** When the retry loop can come back to a configuration it has already used, and when it need not end at all. */
module RetrySchedule {
  import opened Options
  import opened RoundRobinSlots
  import opened LoadBalancer

  /** The times of a call's iterations and the penalty each one sets if it goes on. */
  datatype Schedule = Schedule(clock: nat -> real, settled: nat -> real, penalty: nat -> real)

  ghost predicate Meaningful(s: Schedule) {
    forall i: nat :: s.penalty(i) == 60.0 || s.penalty(i) == 10.0
  }

  /** The world keeps to the schedule; its policy, its interference and its replies are its own. */
  ghost predicate Follows(w: World, configs: seq<Config>, s: Schedule) {
    && (forall i: nat :: w.clock(i) == s.clock(i))
    && (forall i: nat :: w.settled(i) == s.settled(i))
    && (forall i: nat, k: nat :: k < |configs| && Penalty(EventAt(w, configs, i, k)).Some? ==>
          Penalty(EventAt(w, configs, i, k)).value == s.penalty(i))
  }

  /** A call in progress or just ended: every event but the last made it go on. */
  predicate Proceeds(events: seq<Event>) {
    forall i :: 0 <= i < |events| - 1 ==> Penalty(events[i]).Some?
  }

  /** On this schedule no call over n configurations ever uses an id twice. */
  ghost predicate NeverReuses(s: Schedule, n: nat) {
    forall w, configs: seq<Config>, start, first, t ::
      (|configs| == n && configs != [] && Follows(w, configs, s) && Traced(w, configs, start, first, t)
       && Proceeds(t.events)) ==> DistinctIds(configs, t.events)
  }

  /** How many of n slots the counter can reach at all. */
  function Reach(n: nat): nat {
    if n < LIMIT then n else LIMIT - 1
  }

  /** Whenever iteration j begins, the penalties of all earlier iterations are still running, for as many iterations
      as there are slots. */
  ghost predicate Outlasting(s: Schedule, n: nat) {
    forall i: nat, j: nat :: i < j <= Reach(n) ==> s.clock(j) < s.settled(i) + s.penalty(i)
  }

  // ---------- Outlasting penalties prevent reuse ----------

  lemma SlotIsReachable(incr: nat, n: nat)
    requires incr >= 1 && n >= 1
    ensures Slot(incr, n) < Reach(n)
  {
    SlotIsCyclic(incr, n);
    if n >= LIMIT {
      ModUnique(Stored(incr) - 1, 0, Stored(incr) - 1, n);
    }
  }

  lemma FetchedIsReachable(w: World, i: nat, configs: seq<Config>, cooldown: map<string, real>, c: nat,
                           slot: nat, next: nat)
    requires configs != [] && Fetches(w, i, configs, cooldown, c, Some(slot), next)
    ensures slot < Reach(|configs|)
  {
    var probes: nat :| Fetched(c, |configs|, w.others(i), Blocked(w, i, configs, cooldown), Some(slot), probes);
    SlotIsReachable(Incr(c, w.others(i), probes - 1), |configs|);
  }

  /** Distinct numbers below m are at most m. */
  lemma {:induction false} Pigeonhole(slots: seq<nat>, m: nat)
    requires forall i :: 0 <= i < |slots| ==> slots[i] < m
    requires forall i, j :: 0 <= i < j < |slots| ==> slots[i] != slots[j]
    ensures |slots| <= m
  {
    if slots != [] {
      var k := if m - 1 in slots then Position(slots, m - 1) else |slots| - 1;
      var fewer := slots[..k] + slots[k + 1..];
      assert forall i :: 0 <= i < |fewer| ==> fewer[i] == slots[if i < k then i else i + 1];
      Pigeonhole(fewer, m - 1);
    }
  }

  function Position(slots: seq<nat>, m: nat): (k: nat)
    requires m in slots
    ensures k < |slots| && slots[k] == m
  {
    if slots[0] == m then 0 else 1 + Position(slots[1..], m)
  }

  /** A call that used no id twice has used at most as many as there are slots. */
  lemma DistinctIsShort(w: World, configs: seq<Config>, start: map<string, real>, first: nat, t: Trace)
    requires configs != [] && Traced(w, configs, start, first, t) && DistinctIds(configs, t.events)
    ensures |t.events| <= Reach(|configs|)
  {
    hide Fetches, CooldownAfter, Reach;
    var slots := seq(|t.events|, i requires 0 <= i < |t.events| => t.events[i].slot);
    forall i | 0 <= i < |slots| ensures slots[i] < Reach(|configs|) {
      assert Turned(w, configs, start, t, i);
      FetchedIsReachable(w, i, configs, CooldownAfter(w, configs, start, t.events[..i]), t.counters[i],
                         slots[i], t.counters[i + 1]);
    }
    Pigeonhole(slots, Reach(|configs|));
  }

  function Prefix(t: Trace, n: nat): Trace
    requires n <= |t.events| && |t.counters| == |t.events| + 1
  {
    Trace(t.events[..n], t.counters[..n + 1])
  }

  lemma PrefixIsTraced(w: World, configs: seq<Config>, start: map<string, real>, first: nat, t: Trace, n: nat)
    requires configs != [] && Traced(w, configs, start, first, t) && n <= |t.events|
    ensures Traced(w, configs, start, first, Prefix(t, n))
  {
    hide Fetches, CooldownAfter, EventAt;
    forall i | 0 <= i < n ensures Turned(w, configs, start, Prefix(t, n), i) {
      assert Turned(w, configs, start, t, i);
      assert t.events[..n][..i] == t.events[..i];
    }
  }

  lemma {:induction false} OutlastingIsDistinct(w: World, configs: seq<Config>, start: map<string, real>, first: nat,
                                                t: Trace, s: Schedule)
    requires configs != [] && Follows(w, configs, s) && Outlasting(s, |configs|)
    requires Traced(w, configs, start, first, t) && Proceeds(t.events)
    ensures DistinctIds(configs, t.events)
    decreases |t.events|
  {
    hide Fetches, CooldownAfter, EventAt, Follows, Outlasting, StillCooling, UsedIds, Penalty, Reach;
    if t.events != [] {
      var n := |t.events| - 1;
      var p, e := Prefix(t, n), t.events[n];
      PrefixIsTraced(w, configs, start, first, t, n);
      OutlastingIsDistinct(w, configs, start, first, p, s);
      DistinctIsShort(w, configs, start, first, p);
      assert Turned(w, configs, start, t, n);
      StillCoolingOnSchedule(w, configs, start, first, p, s);
      FreshWhenFetched(w, configs, start, p.events, t.counters[n], e.slot, t.counters[n + 1]);
      OneMoreUsed(configs, p.events, e);
      assert t.events == p.events + [e];
    }
  }

  lemma StillCoolingOnSchedule(w: World, configs: seq<Config>, start: map<string, real>, first: nat, t: Trace,
                               s: Schedule)
    requires configs != [] && Follows(w, configs, s) && Outlasting(s, |configs|)
    requires Traced(w, configs, start, first, t) && GoesOn(t.events) && |t.events| <= Reach(|configs|)
    ensures StillCooling(w, t.events)
  {
    hide Fetches, CooldownAfter, EventAt, Penalty, Reach;
    forall i | 0 <= i < |t.events| ensures w.clock(|t.events|) < w.settled(i) + Penalty(t.events[i]).value {
      assert Turned(w, configs, start, t, i);
      assert t.events[i] == EventAt(w, configs, i, t.events[i].slot);
    }
  }

  // ---------- Otherwise some call reuses an id ----------

  /** Distinct ids for any number of configurations. */
  function Tally(k: nat): (id: string)
    ensures |id| == k
  {
    if k == 0 then "" else Tally(k - 1) + "i"
  }

  function Configs(n: nat): (configs: seq<Config>)
    ensures |configs| == n
  {
    seq(n, k requires 0 <= k < n => Config(Tally(k), "own", "", ""))
  }

  function Failure(penalty: real): Outcome {
    if penalty == 60.0 then RateLimited("") else AuthOrConnection("")
  }

  /** Every attempt fails, and other processes leave the counter just before the wanted slot. */
  function FailingWorld(s: Schedule, wanted: nat -> nat): World {
    World(s.clock, s.settled, i => (p: nat) => if p == 0 then Some(wanted(i)) else None,
          (i: nat, id: string) => false, (i: nat, k: nat) => true, (i: nat, k: nat) => true,
          (i: nat, k: nat) => Failure(s.penalty(i)))
  }

  lemma FailingFollows(s: Schedule, wanted: nat -> nat, n: nat)
    requires Meaningful(s)
    ensures Follows(FailingWorld(s, wanted), Configs(n), s)
  {
  }

  /** The events and counters of a call that uses the wanted slots in turn. */
  function Wanted(s: Schedule, wanted: nat -> nat, m: nat): Trace {
    Trace(seq(m, i requires 0 <= i < m => Invoked(wanted(i), Failure(s.penalty(i)))),
          seq(m + 1, i requires 0 <= i <= m => if i == 0 then 0 else wanted(i - 1) + 1))
  }

  lemma WantedIsFetched(s: Schedule, wanted: nat -> nat, n: nat, i: nat, cooldown: map<string, real>, c: nat)
    requires wanted(i) < Reach(n) && !Cooling(cooldown, Tally(wanted(i)), s.clock(i))
    ensures Fetches(FailingWorld(s, wanted), i, Configs(n), cooldown, c, Some(wanted(i)), wanted(i) + 1)
  {
    var w, k := FailingWorld(s, wanted), wanted(i);
    SlotIsCyclic(k + 1, n);
    ModUnique(k, 0, k, n);
    NextIncr(c, w.others(i), 0);
    assert Probe(c, n, w.others(i), 0) == k;
    assert !Skips(w, i, Configs(n), cooldown, k);
    hide Incr, Slot;
    assert Fetched(c, n, w.others(i), Blocked(w, i, Configs(n), cooldown), Some(k), 1);
    assert CounterAfter(c, w.others(i), 1) == k + 1;
  }

  /** A cooldown in force was written by an event about that id. */
  lemma {:induction false} CooldownHasCause(w: World, configs: seq<Config>, events: seq<Event>, id: string)
    requires id in CooldownAfter(w, configs, map[], events)
    ensures exists i :: 0 <= i < |events| && events[i].slot < |configs| && configs[events[i].slot].id == id
                        && Penalty(events[i]).Some?
                        && CooldownAfter(w, configs, map[], events)[id] == w.settled(i) + Penalty(events[i]).value
  {
    var n := |events| - 1;
    var last := events[n];
    if last.slot < |configs| && Penalty(last).Some? && configs[last.slot].id == id {
      assert events[n] == last;
    } else {
      CooldownHasCause(w, configs, events[..n], id);
      var i :| 0 <= i < n && events[..n][i].slot < |configs| && configs[events[..n][i].slot].id == id
               && Penalty(events[..n][i]).Some?
               && CooldownAfter(w, configs, map[], events[..n])[id] == w.settled(i) + Penalty(events[..n][i]).value;
      assert events[i] == events[..n][i];
    }
  }

  /** Every earlier use of the slot wanted in iteration j has cooled off by then. */
  ghost predicate CooledOff(s: Schedule, wanted: nat -> nat, j: nat) {
    forall i: nat :: i < j && wanted(i) == wanted(j) ==> s.settled(i) + s.penalty(i) <= s.clock(j)
  }

  /** A call may use any slots in any order, as long as each has cooled off when it is wanted again. */
  lemma WantedIsTraced(s: Schedule, wanted: nat -> nat, n: nat, m: nat)
    requires Meaningful(s) && n >= 1
    requires forall i: nat :: i < m ==> wanted(i) < Reach(n) && CooledOff(s, wanted, i)
    ensures Traced(FailingWorld(s, wanted), Configs(n), map[], 0, Wanted(s, wanted, m))
    ensures GoesOn(Wanted(s, wanted, m).events)
  {
    hide Turned, Reach;
    forall i: nat | i < m ensures Turned(FailingWorld(s, wanted), Configs(n), map[], Wanted(s, wanted, m), i) {
      WantedTurn(s, wanted, n, m, i);
    }
  }

  lemma WantedTurn(s: Schedule, wanted: nat -> nat, n: nat, m: nat, i: nat)
    requires Meaningful(s) && n >= 1 && i < m && wanted(i) < Reach(n) && CooledOff(s, wanted, i)
    ensures Turned(FailingWorld(s, wanted), Configs(n), map[], Wanted(s, wanted, m), i)
  {
    var w, configs, t := FailingWorld(s, wanted), Configs(n), Wanted(s, wanted, m);
    NotCooling(s, wanted, n, m, i);
    ReachIsBelow(n);
    assert t.events[i] == EventAt(w, configs, i, wanted(i));
    assert t.events[i].slot == wanted(i) && t.counters[i + 1] == wanted(i) + 1;
    hide Fetches, CooldownAfter, Reach, EventAt, FailingWorld, Configs, Wanted, Cooling, CooledOff;
    WantedIsFetched(s, wanted, n, i, CooldownAfter(w, configs, map[], t.events[..i]), t.counters[i]);
  }

  lemma ReachIsBelow(n: nat)
    ensures Reach(n) <= n
  {
  }

  lemma NotCooling(s: Schedule, wanted: nat -> nat, n: nat, m: nat, i: nat)
    requires Meaningful(s) && i < m && CooledOff(s, wanted, i)
    ensures !Cooling(CooldownAfter(FailingWorld(s, wanted), Configs(n), map[], Wanted(s, wanted, m).events[..i]),
                     Tally(wanted(i)), s.clock(i))
  {
    var w, configs, before := FailingWorld(s, wanted), Configs(n), Wanted(s, wanted, m).events[..i];
    assert forall h :: 0 <= h < i ==> before[h] == Invoked(wanted(h), Failure(s.penalty(h)));
    assert forall k: nat :: k < n ==> configs[k].id == Tally(k);
    assert w.settled == s.settled;
    hide CooldownAfter, FailingWorld, Configs, Wanted, Failure, Penalty;
    var cooldown, id := CooldownAfter(w, configs, map[], before), Tally(wanted(i));
    if id in cooldown {
      CooldownHasCause(w, configs, before, id);
      var h :| 0 <= h < i && before[h].slot < n && configs[before[h].slot].id == id && Penalty(before[h]).Some?
               && cooldown[id] == w.settled(h) + Penalty(before[h]).value;
      assert |Tally(wanted(h))| == |Tally(wanted(i))|;
      FailurePenalty(s, wanted(h), h);
    }
  }

  lemma FailurePenalty(s: Schedule, slot: nat, i: nat)
    requires Meaningful(s)
    ensures Penalty(Invoked(slot, Failure(s.penalty(i)))) == Some(s.penalty(i))
  {
  }

  /** Iterations 0 to j - 1 use slots of their own, and iteration j comes back to the slot of iteration i. */
  function ComingBack(i: nat, j: nat): nat -> nat {
    m => if m < j then m else i
  }

  lemma ComingBackCools(s: Schedule, n: nat, i: nat, j: nat, k: nat)
    requires i < j <= Reach(n) && s.settled(i) + s.penalty(i) <= s.clock(j) && k <= j
    ensures ComingBack(i, j)(k) < Reach(n) && CooledOff(s, ComingBack(i, j), k)
  {
    hide Reach;
  }

  lemma ComingBackIsTraced(s: Schedule, n: nat, i: nat, j: nat)
    requires Meaningful(s) && n >= 1 && i < j <= Reach(n) && s.settled(i) + s.penalty(i) <= s.clock(j)
    ensures Traced(FailingWorld(s, ComingBack(i, j)), Configs(n), map[], 0, Wanted(s, ComingBack(i, j), j + 1))
    ensures GoesOn(Wanted(s, ComingBack(i, j), j + 1).events)
  {
    hide *;
    var wanted := ComingBack(i, j);
    forall k: nat | k < j + 1 ensures wanted(k) < Reach(n) && CooledOff(s, wanted, k) {
      ComingBackCools(s, n, i, j, k);
    }
    WantedIsTraced(s, wanted, n, j + 1);
  }

  lemma GoingOnProceeds(events: seq<Event>)
    requires GoesOn(events)
    ensures Proceeds(events)
  {
  }

  lemma ComingBackReuses(s: Schedule, n: nat, i: nat, j: nat)
    requires i < j && i < n
    ensures !DistinctIds(Configs(n), Wanted(s, ComingBack(i, j), j + 1).events)
  {
    var events := Wanted(s, ComingBack(i, j), j + 1).events;
    assert events[i].slot == i && events[j].slot == i;
  }

  lemma ReuseRefutes(s: Schedule, n: nat, w: World, configs: seq<Config>, start: map<string, real>, first: nat,
                     t: Trace)
    requires |configs| == n && configs != [] && Follows(w, configs, s) && Traced(w, configs, start, first, t)
    requires Proceeds(t.events) && !DistinctIds(configs, t.events)
    ensures !NeverReuses(s, n)
  {
    hide Follows, Traced, Proceeds, DistinctIds;
  }

  lemma ExpiryIsReused(s: Schedule, n: nat, i: nat, j: nat)
    requires Meaningful(s) && n >= 1 && i < j <= Reach(n) && s.settled(i) + s.penalty(i) <= s.clock(j)
    ensures !NeverReuses(s, n)
  {
    hide *;
    ReachIsBelow(n);
    ComingBackIsTraced(s, n, i, j);
    FailingFollows(s, ComingBack(i, j), n);
    ComingBackReuses(s, n, i, j);
    GoingOnProceeds(Wanted(s, ComingBack(i, j), j + 1).events);
    ReuseRefutes(s, n, FailingWorld(s, ComingBack(i, j)), Configs(n), map[], 0, Wanted(s, ComingBack(i, j), j + 1));
  }

  /** No call over n configurations uses an id twice, whatever the policy, the interference and the replies, exactly
      when on its schedule every penalty outlasts the iterations that can follow. */
  lemma NeverReusesExactlyWhenOutlasting(s: Schedule, n: nat)
    requires Meaningful(s) && n >= 1
    ensures NeverReuses(s, n) <==> Outlasting(s, n)
  {
    hide Reach;
    if Outlasting(s, n) {
      forall w, configs: seq<Config>, start, first, t | |configs| == n && configs != [] && Follows(w, configs, s)
          && Traced(w, configs, start, first, t) && Proceeds(t.events)
        ensures DistinctIds(configs, t.events)
      {
        OutlastingIsDistinct(w, configs, start, first, t, s);
      }
    } else {
      var i: nat, j: nat :| i < j <= Reach(n) && s.clock(j) >= s.settled(i) + s.penalty(i);
      ExpiryIsReused(s, n, i, j);
    }
  }

  // ---------- A call that need not end ----------

  /** Attempts fail after 15 s each with a penalty of 10 s. */
  const SLOW := Schedule((i: nat) => 15.0 * i as real, (i: nat) => 15.0 * i as real + 15.0, (i: nat) => 10.0)

  /** No other process touches the counter. */
  const SLOW_WORLD := World(SLOW.clock, SLOW.settled, (i: nat) => UNDISTURBED, (i: nat, id: string) => false,
                            (i: nat, k: nat) => true, (i: nat, k: nat) => true,
                            (i: nat, k: nat) => AuthOrConnection(""))

  /** The counter of the i-th iteration, and its slot among three. */
  lemma {:induction false} ThreeInTurn(i: nat)
    ensures After(0, i) < LIMIT && Mod(After(0, i), 3) == Mod(i, 3)
  {
    if i > 0 {
      ThreeInTurn(i - 1);
      var before := After(0, i - 1);
      assert before + 1 >= LIMIT ==> Mod(before, 3) == Mod(0, 3);
      hide Mod;
      ModAdd(before, i - 1, 3);
      if before + 1 >= LIMIT { ModAdd(i - 1, 0, 3); }
    }
  }

  function SlowTrace(m: nat): Trace {
    Trace(seq(m, i requires 0 <= i < m => Invoked(i % 3, AuthOrConnection(""))),
          seq(m + 1, i requires 0 <= i <= m => After(0, i)))
  }

  lemma SlowFetch(i: nat, cooldown: map<string, real>)
    requires !Cooling(cooldown, Tally(i % 3), SLOW.clock(i))
    ensures Fetches(SLOW_WORLD, i, Configs(3), cooldown, After(0, i), Some(i % 3), After(0, i + 1))
  {
    var w, c := SLOW_WORLD, After(0, i);
    ThreeInTurn(i);
    ThreeInTurn(i + 1);
    NextIncr(c, UNDISTURBED, 0);
    assert Incr(c, UNDISTURBED, 0) == c + 1;
    SlotIsCyclic(c + 1, 3);
    PreviousSlot(i);
    assert Probe(c, 3, UNDISTURBED, 0) == i % 3;
    assert !Skips(w, i, Configs(3), cooldown, i % 3);
    assert CounterAfter(c, UNDISTURBED, 1) == Stored(c + 1) == After(0, i + 1);
    hide Incr, Slot;
    assert Fetched(c, 3, w.others(i), Blocked(w, i, Configs(3), cooldown), Some(i % 3), 1);
  }

  lemma PreviousSlot(i: nat)
    ensures Mod(Stored(After(0, i) + 1) - 1, 3) == i % 3
  {
    ThreeInTurn(i);
    ThreeInTurn(i + 1);
    assert Stored(After(0, i) + 1) == After(0, i + 1);
    ModPredecessor(After(0, i + 1), 3);
    ModPredecessor(i + 1, 3);
  }

  lemma AgainInThree(h: nat, i: nat)
    requires h < i && h % 3 == i % 3
    ensures 15.0 * h as real + 25.0 <= 15.0 * i as real
  {
    assert h <= i - 3;
  }

  lemma SlowIsCooledOff(m: nat, i: nat)
    requires i < m
    ensures !Cooling(CooldownAfter(SLOW_WORLD, Configs(3), map[], SlowTrace(m).events[..i]), Tally(i % 3),
                     SLOW.clock(i))
  {
    hide CooldownAfter;
    var configs, before := Configs(3), SlowTrace(m).events[..i];
    var cooldown, id := CooldownAfter(SLOW_WORLD, configs, map[], before), Tally(i % 3);
    if id in cooldown {
      CooldownHasCause(SLOW_WORLD, configs, before, id);
      var h :| 0 <= h < i && before[h].slot < 3 && configs[before[h].slot].id == id && Penalty(before[h]).Some?
               && cooldown[id] == SLOW.settled(h) + Penalty(before[h]).value;
      assert before[h].slot == h % 3;
      assert |Tally(h % 3)| == |Tally(i % 3)|;
      AgainInThree(h, i);
    }
  }

  /** Three configurations whose attempts fail slowly: for every m the undisturbed loop gets through m iterations
      without a result, so it never ends. */
  lemma SlowFailuresNeverEnd(m: nat)
    ensures Traced(SLOW_WORLD, Configs(3), map[], 0, SlowTrace(m))
    ensures GoesOn(SlowTrace(m).events) && |SlowTrace(m).events| == m
  {
    hide Fetches, CooldownAfter;
    var t := SlowTrace(m);
    forall i: nat | i < m ensures Turned(SLOW_WORLD, Configs(3), map[], t, i) {
      SlowIsCooledOff(m, i);
      SlowFetch(i, CooldownAfter(SLOW_WORLD, Configs(3), map[], t.events[..i]));
    }
  }
}
