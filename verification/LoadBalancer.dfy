/** Which configuration a shared counter value selects, and how evenly consecutive values spread. */
module RoundRobinSlots {

  /** The counter is put back to 1 when an INCR reaches this value. */
  const LIMIT: nat := 10_000_000

  /** The counter stored after an INCR returned `incr`. */
  function Stored(incr: nat): nat {
    if incr >= LIMIT then 1 else incr
  }

  /** The Python list index computed from the counter; -1 means the last entry. */
  function ListIndex(incr: nat, n: nat): int
    requires n >= 1
  {
    var current := Stored(incr);
    var wrapped := if current > n then current % n else current;
    var index := wrapped - 1;
    if index > n then 0 else index
  }

  function Slot(incr: nat, n: nat): (slot: nat)
    requires incr >= 1 && n >= 1
    ensures slot < n
  {
    var index := ListIndex(incr, n);
    if index < 0 then n + index else index
  }

  lemma ModPredecessor(x: nat, n: nat)
    requires x >= 1 && n >= 1
    ensures (x - 1) % n == if x % n == 0 then n - 1 else x % n - 1
  {
    var q := x / n;
    if x % n == 0 {
      assert x - 1 == (q - 1) * n + (n - 1);
      ModUnique(x - 1, q - 1, n - 1, n);
    } else {
      assert x - 1 == q * n + (x % n - 1);
      ModUnique(x - 1, q, x % n - 1, n);
    }
  }

  lemma ModUnique(x: int, q: int, r: int, n: int)
    requires n >= 1 && x == q * n + r && 0 <= r < n
    ensures x % n == r && x / n == q
  {
    var q', r' := x / n, x % n;
    assert x == q' * n + r';
    MultiplesAreFar(q - q', n);
  }

  /** Every multiple of n but 0 is at least n away from it. */
  lemma MultiplesAreFar(d: int, n: int)
    requires n >= 1
    ensures d >= 1 ==> d * n >= n
    ensures d <= -1 ==> d * n <= -n
  {
    if d >= 1 {
      assert (d - 1) * n >= 0;
    } else if d <= -1 {
      assert (-d - 1) * n >= 0;
    }
  }

  /** Named so that proofs about counting can treat it as opaque. */
  function Mod(x: int, n: nat): int
    requires n >= 1
  {
    x % n
  }

  function Div(x: int, n: nat): int
    requires n >= 1
  {
    x / n
  }

  /** Despite the special cases, the slot is the predecessor of the stored counter, cyclically. */
  lemma SlotIsCyclic(incr: nat, n: nat)
    requires incr >= 1 && n >= 1
    ensures Slot(incr, n) == Mod(Stored(incr) - 1, n)
    ensures Slot(incr, n) == if incr >= 10_000_000 then 0 else (incr - 1) % n
  {
    var current := Stored(incr);
    if current > n {
      ModPredecessor(current, n);
    } else {
      ModUnique(current - 1, 0, current - 1, n);
    }
    ModUnique(0, 0, 0, n);
  }

  // ---------- Runs of the counter ----------

  /** The counter stored after `i` undisturbed probes from stored value `c`. */
  function After(c: nat, i: nat): nat {
    if i == 0 then c else Stored(After(c, i - 1) + 1)
  }

  /** How often `m` consecutive probes from counter `c` pick slot `k`. */
  function Picks(c: nat, m: nat, n: nat, k: nat): nat
    requires n >= 1
  {
    if m == 0 then 0 else Picks(c, m - 1, n, k) + if Slot(After(c, m - 1) + 1, n) == k then 1 else 0
  }

  function Resets(c: nat, m: nat): nat {
    if m == 0 then 0 else Resets(c, m - 1) + if After(c, m - 1) + 1 >= LIMIT then 1 else 0
  }

  /** Integers in [a, a + m) congruent to k. */
  function Hits(a: nat, m: nat, n: nat, k: nat): nat
    requires n >= 1
  {
    if m == 0 then 0 else Hits(a, m - 1, n, k) + if Mod(a + m - 1, n) == k then 1 else 0
  }

  lemma ModShift(a: nat, j: nat, n: nat, k: nat)
    requires n >= 1 && j < n && k < n
    ensures Mod(a + j, n) == k <==> Mod(k - a, n) == j
  {
    var q, r := a / n, a % n;
    if r + j < n {
      assert a + j == q * n + (r + j);
      ModUnique(a + j, q, r + j, n);
    } else {
      assert a + j == (q + 1) * n + (r + j - n);
      ModUnique(a + j, q + 1, r + j - n, n);
    }
    if r <= k {
      assert k - a == (-q) * n + (k - r);
      ModUnique(k - a, -q, k - r, n);
    } else {
      assert k - a == (-q - 1) * n + (k - r + n);
      ModUnique(k - a, -q - 1, k - r + n, n);
    }
  }

  lemma {:induction false} HitsInOneRound(a: nat, m: nat, n: nat, k: nat)
    requires 1 <= n && m <= n && k < n
    ensures Hits(a, m, n, k) == if Mod(k - a, n) < m then 1 else 0
    ensures m == n ==> Hits(a, m, n, k) == 1
  {
    assert Mod(k - a, n) < n;
    hide Mod;
    if m > 0 {
      HitsInOneRound(a, m - 1, n, k);
      ModShift(a, m - 1, n, k);
    }
  }

  lemma {:induction false} HitsSplit(a: nat, l: nat, m: nat, n: nat, k: nat)
    requires n >= 1
    ensures Hits(a, l + m, n, k) == Hits(a, l, n, k) + Hits(a + l, m, n, k)
  {
    if m > 0 {
      HitsSplit(a, l, m - 1, n, k);
    }
  }

  lemma SmallDiv(m: nat, n: nat)
    requires m < n
    ensures Div(m, n) == 0 && Mod(m, n) == m
  {
    ModUnique(m, 0, m, n);
  }

  lemma DivStepDown(m: nat, n: nat)
    requires 1 <= n <= m
    ensures Div(m, n) == Div(m - n, n) + 1 && Mod(m, n) == Mod(m - n, n)
  {
    var q, r := (m - n) / n, (m - n) % n;
    assert m == (q + 1) * n + r;
    ModUnique(m, q + 1, r, n);
  }

  lemma {:induction false} HitsAreEven(a: nat, m: nat, n: nat, k: nat)
    requires 1 <= n && k < n
    ensures Div(m, n) <= Hits(a, m, n, k) <= Div(m, n) + if Mod(m, n) == 0 then 0 else 1
  {
    hide Mod;
    hide Div;
    if m < n {
      SmallDiv(m, n);
      HitsInOneRound(a, m, n, k);
    } else {
      HitsAreEven(a, m - n, n, k);
      HitsSplit(a, m - n, n, n, k);
      HitsInOneRound(a + (m - n), n, n, k);
      DivStepDown(m, n);
    }
  }

  lemma HitsAreBalanced(a: nat, m: nat, n: nat, k: nat, k': nat)
    requires 1 <= n && k < n && k' < n
    ensures Hits(a, m, n, k) <= Hits(a, m, n, k') + 1
  {
    hide Mod;
    hide Div;
    HitsAreEven(a, m, n, k);
    HitsAreEven(a, m, n, k');
  }

  lemma ModAdd(x: nat, y: nat, n: nat)
    requires n >= 1 && Mod(x, n) == Mod(y, n)
    ensures Mod(x + 1, n) == Mod(y + 1, n)
  {
    ModPredecessor(x + 1, n);
    ModPredecessor(y + 1, n);
  }

  lemma {:induction false} PicksWithoutReset(c: nat, m: nat, n: nat, k: nat)
    requires n >= 1 && c + m < LIMIT
    ensures After(c, m) == c + m && Picks(c, m, n, k) == Hits(c, m, n, k) && Resets(c, m) == 0
  {
    hide Mod;
    hide Slot;
    if m > 0 {
      PicksWithoutReset(c, m - 1, n, k);
      SlotIsCyclic(c + m, n);
    }
  }

  /** Without a reset, m probes pick every configuration floor(m/n) or ceil(m/n) times. */
  lemma FairWithoutReset(c: nat, m: nat, n: nat, k: nat)
    requires n >= 1 && k < n && c + m < LIMIT
    ensures m / n <= Picks(c, m, n, k) <= m / n + if m % n == 0 then 0 else 1
  {
    PicksWithoutReset(c, m, n, k);
    HitsAreEven(c, m, n, k);
  }

  /** The imbalance between two slots is an accumulated debt of at most one per reset,
      plus the imbalance of the reset-free stretch that is still running. */
  lemma {:induction false} ImbalanceOfRun(c: nat, m: nat, n: nat, k: nat, k': nat)
    returns (start: nat, length: nat, debt: int)
    requires n >= 1 && k < n && k' < n
    ensures 0 <= debt + Resets(c, m) && debt <= Resets(c, m)
    ensures Picks(c, m, n, k) - Picks(c, m, n, k') == debt + Hits(start, length, n, k) - Hits(start, length, n, k')
    ensures Mod(After(c, m), n) == Mod(start + length, n)
  {
    hide Mod;
    hide Slot;
    if m == 0 {
      start, length, debt := c, 0, 0;
    } else {
      start, length, debt := ImbalanceOfRun(c, m - 1, n, k, k');
      var incr := After(c, m - 1) + 1;
      SlotIsCyclic(incr, n);
      if incr >= LIMIT {
        HitsAreBalanced(start, length, n, k, k');
        HitsAreBalanced(start, length, n, k', k);
        debt := Picks(c, m - 1, n, k) - Picks(c, m - 1, n, k');
        start, length := 0, 1;
      } else {
        ModAdd(After(c, m - 1), start + length, n);
        length := length + 1;
      }
    }
  }

  /** Over any window, however many resets it crosses, two configurations differ by at most resets + 1. */
  lemma FairAcrossResets(c: nat, m: nat, n: nat, k: nat, k': nat)
    requires n >= 1 && k < n && k' < n
    ensures Picks(c, m, n, k) <= Picks(c, m, n, k') + Resets(c, m) + 1
  {
    var start, length, debt := ImbalanceOfRun(c, m, n, k, k');
    HitsAreBalanced(start, length, n, k, k');
  }

  /** The bound is reached: with two configurations, the probes on both sides of a reset pick the same one. */
  lemma ResetImbalanceIsTight()
    ensures Resets(LIMIT - 2, 2) == 1
    ensures Picks(LIMIT - 2, 2, 2, 0) == 2 && Picks(LIMIT - 2, 2, 2, 1) == 0
  {
    var c := LIMIT - 2;
    assert After(c, 0) == c && After(c, 1) == c + 1 == LIMIT - 1 && After(c, 2) == 1;
    assert Resets(c, 1) == 0;
    assert Picks(c, 1, 2, 0) == 1 && Picks(c, 1, 2, 1) == 0;
  }
}

/** Fetching the next usable configuration, and the retry loop around it. */
module LoadBalancer {
  import opened Options
  import opened RoundRobinSlots

  // ---------- fetch_next ----------

  /** What other processes leave in the shared counter just before this call's i-th INCR, if anything. */
  type Interference = nat -> Option<nat>

  const UNDISTURBED: Interference := _ => None

  /** The value the i-th INCR of this call returns, when the counter held `c` at its start. */
  function Incr(c: nat, others: Interference, i: nat): (incr: nat)
    ensures incr >= 1
  {
    var before := match others(i)
                  case Some(v) => v
                  case None => if i == 0 then c else Stored(Incr(c, others, i - 1));
    before + 1
  }

  function Probe(c: nat, n: nat, others: Interference, i: nat): (slot: nat)
    requires n >= 1
    ensures slot < n
  {
    Slot(Incr(c, others, i), n)
  }

  /** The outcome of one fetch: the slot of the first probe that is not blocked, or None after n blocked probes.
      `blocked(i, k)` says that at probe i slot k is in cooldown or fails the policy check. */
  ghost predicate Fetched(c: nat, n: nat, others: Interference, blocked: (nat, nat) -> bool,
                          slot: Option<nat>, probes: nat)
    requires n >= 1
  {
    && 1 <= probes <= n
    && (slot.Some? ==>
          && slot.value == Probe(c, n, others, probes - 1)
          && !blocked(probes - 1, slot.value)
          && forall i: nat :: i < probes - 1 ==> blocked(i, Probe(c, n, others, i)))
    && (slot.None? ==> probes == n && forall i: nat :: i < n ==> blocked(i, Probe(c, n, others, i)))
  }

  /** The first `probes` probes all met a blocked slot. */
  ghost predicate BlockedSoFar(c: nat, n: nat, others: Interference, blocked: (nat, nat) -> bool, probes: nat)
    requires n >= 1
  {
    forall i: nat :: i < probes ==> blocked(i, Probe(c, n, others, i))
  }

  /** The counter after `probes` probes. */
  function CounterAfter(c: nat, others: Interference, probes: nat): nat {
    if probes == 0 then c else Stored(Incr(c, others, probes - 1))
  }

  lemma NextIncr(c: nat, others: Interference, probes: nat)
    ensures Incr(c, others, probes)
         == 1 + match others(probes) case Some(v) => v case None => CounterAfter(c, others, probes)
  {
  }

  /** One call of `fetch_next`; at most n probes, whatever the other processes do. */
  method FetchNext(c: nat, n: nat, others: Interference, blocked: (nat, nat) -> bool)
    returns (slot: Option<nat>, probes: nat, counter: nat)
    requires n >= 1
    ensures Fetched(c, n, others, blocked, slot, probes)
    ensures counter == CounterAfter(c, others, probes)
  {
    hide Incr, Slot, Stored;
    probes, counter := 0, c;
    var cooling: seq<nat> := [];
    while true
      invariant |cooling| == probes < n
      invariant counter == CounterAfter(c, others, probes)
      invariant BlockedSoFar(c, n, others, blocked, probes)
      decreases n - probes
    {
      NextIncr(c, others, probes);
      match others(probes) {
        case Some(v) => counter := v;
        case None =>
      }
      var current := counter + 1;
      counter := current;
      if current >= LIMIT {
        counter := 1;
      }
      assert counter == Stored(current) by { StoredCounter(current); }
      var config := Slot(current, n);
      probes := probes + 1;
      if blocked(probes - 1, config) {
        cooling := cooling + [config];
        if |cooling| >= n {
          return None, probes, counter;
        }
      } else {
        return Some(config), probes, counter;
      }
    }
  }

  /** One undisturbed probe moves the counter on by one, or back to 1 when it would reach ten million. */
  lemma CounterMovesOn(c: nat)
    ensures CounterAfter(c, UNDISTURBED, 1) == if c + 1 >= 10_000_000 then 1 else c + 1
  {
    NextIncr(c, UNDISTURBED, 0);
  }

  lemma StoredCounter(current: nat)
    ensures Stored(current) == if current >= LIMIT then 1 else current
  {
  }

  lemma {:induction false} UndisturbedIncr(c: nat, i: nat)
    ensures Incr(c, UNDISTURBED, i) == After(c, i) + 1
  {
    if i > 0 {
      UndisturbedIncr(c, i - 1);
    }
  }

  /** The stored counter after i probes, when the run crosses at most one reset. */
  lemma {:induction false} AfterIsExplicit(c: nat, i: nat)
    requires 1 <= i <= LIMIT - 1
    ensures After(c, i) == if c >= LIMIT - 1 then i else if c + i <= LIMIT - 1 then c + i else c + i - (LIMIT - 1)
  {
    if i > 1 {
      AfterIsExplicit(c, i - 1);
    }
  }

  lemma ProbeIsExplicit(c: nat, n: nat, i: nat)
    requires n >= 1 && i < LIMIT - 1
    ensures Probe(c, n, UNDISTURBED, i)
         == Mod(if c >= LIMIT - 1 then i else if c + i < LIMIT - 1 then c + i else c + i - (LIMIT - 1), n)
  {
    UndisturbedIncr(c, i);
    SlotIsCyclic(Incr(c, UNDISTURBED, i), n);
    AfterIsExplicit(c, i + 1);
  }

  /** An undisturbed fetch while the same slots stay blocked throughout. */
  ghost predicate FetchedAlone(c: nat, n: nat, blocked: set<nat>, slot: Option<nat>, probes: nat)
    requires n >= 1
  {
    Fetched(c, n, UNDISTURBED, (i: nat, k: nat) => k in blocked, slot, probes)
  }

  /** The slot d places after the counter's own, cyclically. */
  function Ahead(c: nat, d: nat, n: nat): int
    requires n >= 1
  {
    Mod(c + d, n)
  }

  predicate AllBlocked(n: nat, blocked: set<nat>) {
    forall k: nat :: k < n ==> k in blocked
  }

  /** With no interference and no reset, the fetch searches cyclically from the counter and
      gives up exactly when every configuration is blocked. */
  lemma FetchIsCyclicSearch(c: nat, n: nat, blocked: set<nat>, slot: Option<nat>, probes: nat)
    requires n >= 1 && c + n < LIMIT
    requires FetchedAlone(c, n, blocked, slot, probes)
    ensures slot.None? <==> AllBlocked(n, blocked)
    ensures slot.Some? ==>
              && slot.value == Ahead(c, probes - 1, n) && slot.value !in blocked
              && forall d: nat :: d < probes - 1 ==> Ahead(c, d, n) in blocked
  {
    hide Slot, Mod;
    forall i: nat | i < n ensures Probe(c, n, UNDISTURBED, i) == Ahead(c, i, n) {
      ProbeIsExplicit(c, n, i);
    }
    if slot.None? {
      forall k: nat | k < n ensures k in blocked {
        HarmlessVisits(c, n, k);
      }
    }
  }

  // ---------- When giving up means that nothing was usable ----------

  /** No reset during the call, or one at its first probe, or one that falls on a full round. */
  predicate ResetIsHarmless(c: nat, n: nat)
    requires n >= 1
  {
    c + n < LIMIT || (c + 1 >= LIMIT && n < LIMIT) || (LIMIT - 1) % n == 0
  }

  ghost predicate Visits(c: nat, n: nat, k: nat)
    requires n >= 1
  {
    exists i: nat :: i < n && Probe(c, n, UNDISTURBED, i) == k
  }

  lemma ModDropsMultiple(x: nat, m: nat, n: nat)
    requires n >= 1 && m <= x && m % n == 0
    ensures Mod(x - m, n) == Mod(x, n)
  {
    var q, r := (x - m) / n, (x - m) % n;
    assert x == (q + m / n) * n + r;
    ModUnique(x, q + m / n, r, n);
  }

  lemma HarmlessVisits(c: nat, n: nat, k: nat)
    requires 1 <= n && k < n && ResetIsHarmless(c, n)
    ensures Visits(c, n, k)
  {
    if n >= LIMIT {
      ModUnique(LIMIT - 1, 0, LIMIT - 1, n);
      assert false;
    } else if c + 1 >= LIMIT {
      ProbeIsExplicit(c, n, k);
      ModUnique(k, 0, k, n);
      assert Probe(c, n, UNDISTURBED, k) == k;
    } else {
      var i := Mod(k - c, n);
      ModShift(c, i, n, k);
      ProbeIsExplicit(c, n, i);
      if c + i >= LIMIT - 1 {
        ModDropsMultiple(c + i, LIMIT - 1, n);
      }
      assert Probe(c, n, UNDISTURBED, i) == k;
    }
  }

  /** A reset in mid-round skips a slot: after j probes it jumps to slot 0 from a slot that is not the last one. */
  lemma HarmfulSkips(c: nat, n: nat) returns (k: nat)
    requires n >= 1 && !ResetIsHarmless(c, n)
    ensures k < n && !Visits(c, n, k)
  {
    if n >= LIMIT {
      k := n - 1;
      forall i: nat | i < n ensures Probe(c, n, UNDISTURBED, i) != k {
        UndisturbedIncr(c, i);
        var incr := Incr(c, UNDISTURBED, i);
        SlotIsCyclic(incr, n);
        ModUnique(Stored(incr) - 1, 0, Stored(incr) - 1, n);
      }
    } else {
      var m := LIMIT - 1;
      var j, r := m - c, m % n;
      k := if j < r then n - 1 else r - 1 - j + n;
      forall i: nat | i < n ensures Probe(c, n, UNDISTURBED, i) != k {
        ProbeIsExplicit(c, n, i);
        if i < j {
          EarlyProbe(c, n, i);
        } else {
          ModUnique(i - j, 0, i - j, n);
        }
      }
    }
  }

  /** Before the reset, probe i is t = j - i steps short of the limit. */
  lemma EarlyProbe(c: nat, n: nat, i: nat)
    requires 1 <= n && c + i < LIMIT - 1 && i < n && LIMIT <= c + n
    ensures var j, r := LIMIT - 1 - c, (LIMIT - 1) % n;
            Mod(c + i, n) == if j - i <= r then r - (j - i) else r - (j - i) + n
  {
    var j, q, r := LIMIT - 1 - c, (LIMIT - 1) / n, (LIMIT - 1) % n;
    assert LIMIT - 1 == q * n + r;
    if j - i <= r {
      assert c + i == q * n + (r - (j - i));
      ModUnique(c + i, q, r - (j - i), n);
    } else {
      assert c + i == (q - 1) * n + (r - (j - i) + n);
      ModUnique(c + i, q - 1, r - (j - i) + n, n);
    }
  }

  function SlotsBelow(n: nat): (slots: set<nat>)
    ensures forall k: nat :: k in slots <==> k < n
  {
    if n == 0 then {} else SlotsBelow(n - 1) + {n - 1}
  }

  /** For undisturbed calls, "None exactly when every configuration is blocked" holds for every set of
      blocked configurations if and only if the counter reset is harmless. */
  lemma NoneMeansNothingUsable(c: nat, n: nat)
    requires n >= 1
    ensures (forall blocked, slot, probes | FetchedAlone(c, n, blocked, slot, probes)
               :: slot.None? <==> AllBlocked(n, blocked))
            <==> ResetIsHarmless(c, n)
  {
    hide Slot, Mod;
    if ResetIsHarmless(c, n) {
      forall blocked, slot, probes | FetchedAlone(c, n, blocked, slot, probes)
        ensures slot.None? <==> AllBlocked(n, blocked)
      {
        if slot.None? {
          forall k: nat | k < n ensures k in blocked {
            HarmlessVisits(c, n, k);
          }
        }
      }
    } else {
      var skipped := HarmfulSkips(c, n);
      var blocked := SlotsBelow(n) - {skipped};
      assert FetchedAlone(c, n, blocked, None, n);
      assert skipped !in blocked;
    }
  }

  // ---------- _round_robin_invoke ----------

  datatype Config = Config(id: string, name: string, credentialId: string, credentials: string)

  datatype Outcome =
    | Succeeded(reply: string)
    | RateLimited(error: string)
    | AuthOrConnection(error: string)
    | OtherError(error: string)

  /** Everything the loop cannot decide itself, indexed by iteration: the time of its fetch and the time at which
      its attempt has failed, the counter writes and cooldowns of other processes, the policy checks, and the
      outcome of invoking a configuration. */
  datatype World = World(
    clock: nat -> real,
    settled: nat -> real,
    others: nat -> Interference,
    cooledElsewhere: (nat, string) -> bool,
    compliant: (nat, nat) -> bool,
    stillCompliant: (nat, nat) -> bool,
    invoke: (nat, nat) -> Outcome)

  /** What happened to the configuration fetched in one iteration. */
  datatype Event = Rejected(slot: nat) | Invoked(slot: nat, outcome: Outcome)

  datatype Result = Replied(reply: string) | Raised(error: string) | NotInitialized

  /** What iteration i does with slot k when it fetches it. */
  function EventAt(w: World, configs: seq<Config>, i: nat, k: nat): Event
    requires k < |configs|
  {
    if configs[k].credentialId != "" && !w.stillCompliant(i, k) then Rejected(k) else Invoked(k, w.invoke(i, k))
  }

  predicate Cooling(cooldown: map<string, real>, id: string, now: real) {
    id in cooldown && now < cooldown[id]
  }

  /** Whether `fetch_next` skips slot k in iteration j. */
  predicate Skips(w: World, j: nat, configs: seq<Config>, cooldown: map<string, real>, k: nat) {
    k < |configs| &&
    (Cooling(cooldown, configs[k].id, w.clock(j)) || w.cooledElsewhere(j, configs[k].id)
     || (configs[k].credentialId != "" && !w.compliant(j, k)))
  }

  function Blocked(w: World, j: nat, configs: seq<Config>, cooldown: map<string, real>): (nat, nat) -> bool {
    (i: nat, k: nat) => Skips(w, j, configs, cooldown, k)
  }

  /** Seconds of cooldown an event causes; none after a reply or a final error. */
  function Penalty(e: Event): Option<real> {
    match e
    case Rejected(_) => Some(60.0)
    case Invoked(_, RateLimited(_)) => Some(60.0)
    case Invoked(_, AuthOrConnection(_)) => Some(10.0)
    case Invoked(_, _) => None
  }

  /** The error remembered after an event. */
  function ErrorOf(e: Event, before: Option<string>): Option<string> {
    match e
    case Invoked(_, RateLimited(error)) => Some(error)
    case Invoked(_, AuthOrConnection(error)) => Some(error)
    case _ => before
  }

  /** The error of the last attempt, if any configuration was invoked at all. */
  function LastError(events: seq<Event>): Option<string> {
    if events == [] then None else ErrorOf(events[|events| - 1], LastError(events[..|events| - 1]))
  }

  predicate DistinctIds(configs: seq<Config>, events: seq<Event>) {
    && (forall i :: 0 <= i < |events| ==> events[i].slot < |configs|)
    && forall i, j :: 0 <= i < j < |events| ==> configs[events[i].slot].id != configs[events[j].slot].id
  }

  /** What the caller sees of the attempt that ended the call. */
  function Conclusion(outcome: Outcome): Result {
    match outcome
    case Succeeded(reply) => Replied(reply)
    case RateLimited(e) => Raised(e)
    case AuthOrConnection(e) => Raised(e)
    case OtherError(e) => Raised(e)
  }

  /** The cooldown keys this call has written after its first iterations. */
  function CooldownAfter(w: World, configs: seq<Config>, cooldown: map<string, real>, events: seq<Event>)
    : map<string, real>
  {
    if events == [] then cooldown
    else
      var i := |events| - 1;
      var before := CooldownAfter(w, configs, cooldown, events[..i]);
      if events[i].slot < |configs| && Penalty(events[i]).Some?
      then before[configs[events[i].slot].id := w.settled(i) + Penalty(events[i]).value] else before
  }

  /** The fetch of iteration i, from counter c, gives this slot and leaves the counter at next. */
  ghost predicate Fetches(w: World, i: nat, configs: seq<Config>, cooldown: map<string, real>, c: nat,
                          slot: Option<nat>, next: nat)
    requires configs != []
  {
    exists probes ::
      && Fetched(c, |configs|, w.others(i), Blocked(w, i, configs, cooldown), slot, probes)
      && next == CounterAfter(c, w.others(i), probes)
  }

  /** What one call went through: its events, and the counter before each iteration and after the last. */
  datatype Trace = Trace(events: seq<Event>, counters: seq<nat>)

  /** Iteration i fetched its slot from the counter and cooldowns left by the iterations before it, and did with it
      what the loop must do. */
  ghost predicate Turned(w: World, configs: seq<Config>, cooldown: map<string, real>, t: Trace, i: nat)
    requires configs != [] && i < |t.events| && |t.counters| == |t.events| + 1
  {
    var e := t.events[i];
    && e.slot < |configs| && e == EventAt(w, configs, i, e.slot)
    && Fetches(w, i, configs, CooldownAfter(w, configs, cooldown, t.events[..i]), t.counters[i], Some(e.slot),
               t.counters[i + 1])
  }

  /** A call that began with this cooldown and counter. */
  ghost predicate Traced(w: World, configs: seq<Config>, cooldown: map<string, real>, counter: nat, t: Trace)
    requires configs != []
  {
    && |t.counters| == |t.events| + 1 && t.counters[0] == counter
    && forall i :: 0 <= i < |t.events| ==> Turned(w, configs, cooldown, t, i)
  }

  /** Every event so far put its configuration into cooldown. */
  predicate GoesOn(events: seq<Event>) {
    forall i :: 0 <= i < |events| ==> Penalty(events[i]).Some?
  }

  /** No cooldown set during the call expires during the call: however far it has come, when the next iteration
      begins the cooldowns of all events so far are still running. */
  ghost predicate Brief(w: World, configs: seq<Config>, start: map<string, real>, first: nat)
    requires configs != []
  {
    forall t :: Traced(w, configs, start, first, t) && GoesOn(t.events) ==> StillCooling(w, t.events)
  }

  predicate StillCooling(w: World, events: seq<Event>)
    requires GoesOn(events)
  {
    forall i :: 0 <= i < |events| ==> w.clock(|events|) < w.settled(i) + Penalty(events[i]).value
  }

  /** A call that has come this far without a result, and what its loop holds. */
  ghost predicate Underway(w: World, configs: seq<Config>, start: map<string, real>, first: nat, t: Trace,
                           cooldown: map<string, real>, counter: nat, lastException: Option<string>)
    requires configs != []
  {
    && Traced(w, configs, start, first, t) && GoesOn(t.events) && DistinctIds(configs, t.events)
    && cooldown == CooldownAfter(w, configs, start, t.events) && counter == t.counters[|t.events|]
    && lastException == LastError(t.events)
  }

  /** A turn either ends the call or leaves it underway with one more id used up. */
  ghost predicate TurnDone(w: World, configs: seq<Config>, start: map<string, real>, first: nat, t: Trace, t': Trace,
                           cooldown: map<string, real>, counter: nat, result: Option<Result>, lastError: Option<string>)
    requires configs != []
  {
    match result
    case Some(r) =>
      && Traced(w, configs, start, first, t') && DistinctIds(configs, t'.events)
      && cooldown == CooldownAfter(w, configs, start, t'.events)
      && Ended(w, configs, start, t', counter, r)
    case None =>
      && Underway(w, configs, start, first, t', cooldown, counter, lastError)
      && Ids(configs) - UsedIds(configs, t'.events) < Ids(configs) - UsedIds(configs, t.events)
  }

  /** The cooldowns after an event about the configuration with this id. */
  function Penalized(cooldown: map<string, real>, e: Event, id: string, now: real): map<string, real> {
    match Penalty(e)
    case None => cooldown
    case Some(p) => cooldown[id := now + p]
  }

  /** The result an event gives the call, if any. */
  function ResultOf(e: Event): Option<Result> {
    if Penalty(e).None? then Some(Conclusion(e.outcome)) else None
  }

  /** The result of a call that finds nothing to use. */
  function Exhaustion(lastException: Option<string>): Result {
    match lastException
    case Some(e) => Raised(e)
    case None => NotInitialized
  }

  /** How a finished call ends: at the first reply or final error, or when a fetch finds nothing. */
  ghost predicate Ended(w: World, configs: seq<Config>, cooldown: map<string, real>, t: Trace, counter: nat, r: Result)
    requires configs != [] && |t.counters| == |t.events| + 1
  {
    var n := |t.events|;
    if n > 0 && Penalty(t.events[n - 1]).None? then
      GoesOn(t.events[..n - 1]) && r == Conclusion(t.events[n - 1].outcome) && counter == t.counters[n]
    else
      && GoesOn(t.events)
      && r == Exhaustion(LastError(t.events))
      && Fetches(w, n, configs, CooldownAfter(w, configs, cooldown, t.events), t.counters[n], None, counter)
  }

  function Ids(configs: seq<Config>): set<string> {
    set i | 0 <= i < |configs| :: configs[i].id
  }

  function UsedIds(configs: seq<Config>, events: seq<Event>): set<string> {
    set i | 0 <= i < |events| && events[i].slot < |configs| :: configs[events[i].slot].id
  }

  class RoundRobin {
    const configs: seq<Config>
    var counter: nat
    var cooldown: map<string, real>

    constructor (configs: seq<Config>)
      ensures this.configs == configs && counter == 0 && cooldown == map[]
    {
      this.configs := configs;
      counter, cooldown := 0, map[];
    }

    method Cooldown(id: string, expire: real, now: real)
      modifies this`cooldown
      ensures cooldown == old(cooldown)[id := now + expire]
    {
      cooldown := cooldown[id := now + expire];
    }

    method Fetch(w: World, j: nat) returns (slot: Option<nat>)
      requires configs != []
      modifies this`counter
      ensures Fetches(w, j, configs, cooldown, old(counter), slot, counter)
    {
      var probes;
      slot, probes, counter := FetchNext(counter, |configs|, w.others(j), Blocked(w, j, configs, cooldown));
    }

    /** One turn of the retry loop: a result ends the call, no result means another id is cooling down. */
    method Turn(w: World, t: Trace, lastException: Option<string>, ghost start: map<string, real>, ghost first: nat)
      returns (result: Option<Result>, t': Trace, lastError: Option<string>)
      requires configs != [] && Brief(w, configs, start, first)
      requires Underway(w, configs, start, first, t, cooldown, counter, lastException)
      modifies this
      ensures TurnDone(w, configs, start, first, t, t', cooldown, counter, result, lastError)
    {
      hide *;
      var j := |t.events|;
      var slot := Fetch(w, j);
      if slot.None? {
        Exhausts(w, configs, start, first, t, cooldown, old(counter), counter, lastException);
        return Some(Exhaustion(lastException)), t, lastException;
      }
      FetchedIsUsable(w, j, configs, cooldown, old(counter), slot.value, counter);
      var e := Try(w, j, slot.value);
      t' := Trace(t.events + [e], t.counters + [counter]);
      OneMoreTurn(w, configs, start, first, t, cooldown, old(counter), lastException, e, counter);
      result, lastError := Settle(e, configs[slot.value].id, lastException, w.settled(j));
    }

    /** The policy check and the attempt itself. */
    method Try(w: World, j: nat, slot: nat) returns (e: Event)
      requires slot < |configs|
      ensures e == EventAt(w, configs, j, slot) && e.slot == slot
    {
      if configs[slot].credentialId != "" && !w.stillCompliant(j, slot) {
        return Rejected(slot);
      }
      return Invoked(slot, w.invoke(j, slot));
    }

    /** What a turn does about its event: a cooldown of its penalty, or the result of the call. */
    method Settle(e: Event, id: string, lastException: Option<string>, now: real)
      returns (result: Option<Result>, lastError: Option<string>)
      modifies this`cooldown
      ensures cooldown == Penalized(old(cooldown), e, id, now)
      ensures result == ResultOf(e)
      ensures lastError == ErrorOf(e, lastException)
    {
      lastError := lastException;
      match e {
        case Rejected(_) =>
          Cooldown(id, 60.0, now);
          return None, lastError;
        case Invoked(_, Succeeded(reply)) =>
          return Some(Replied(reply)), lastError;
        case Invoked(_, RateLimited(error)) =>
          Cooldown(id, 60.0, now);
          return None, Some(error);
        case Invoked(_, AuthOrConnection(error)) =>
          Cooldown(id, 10.0, now);
          return None, Some(error);
        case Invoked(_, OtherError(error)) =>
          return Some(Raised(error)), lastError;
      }
    }

    /** The retry loop. It terminates because every turn that goes on puts one more id into cooldown. */
    method Invoke(w: World) returns (r: Result, t: Trace)
      requires configs != [] && Brief(w, configs, cooldown, counter)
      modifies this
      ensures Traced(w, configs, old(cooldown), old(counter), t) && DistinctIds(configs, t.events)
      ensures cooldown == CooldownAfter(w, configs, old(cooldown), t.events)
      ensures Ended(w, configs, old(cooldown), t, counter, r)
    {
      t := Trace([], [counter]);
      var lastException: Option<string> := None;
      while true
        invariant Underway(w, configs, old(cooldown), old(counter), t, cooldown, counter, lastException)
        decreases Ids(configs) - UsedIds(configs, t.events)
      {
        var result;
        result, t, lastException := Turn(w, t, lastException, old(cooldown), old(counter));
        if result.Some? {
          return result.value, t;
        }
      }
    }
  }

  /** A cooldown written by an event is still the one in force after later events, which are about other ids. */
  lemma {:induction false} StillPenalized(w: World, configs: seq<Config>, cooldown: map<string, real>,
                                          events: seq<Event>, i: nat)
    requires DistinctIds(configs, events) && i < |events| && Penalty(events[i]).Some?
    ensures var after, id := CooldownAfter(w, configs, cooldown, events), configs[events[i].slot].id;
            id in after && after[id] == w.settled(i) + Penalty(events[i]).value
  {
    var n := |events| - 1;
    if i < n {
      assert events[..n][i] == events[i];
      StillPenalized(w, configs, cooldown, events[..n], i);
    }
  }

  /** A fetched configuration was not used before in the same call, if the cooldowns so far are still running. */
  lemma FreshWhenFetched(w: World, configs: seq<Config>, cooldown: map<string, real>, events: seq<Event>,
                         c: nat, slot: nat, next: nat)
    requires configs != [] && GoesOn(events) && DistinctIds(configs, events) && StillCooling(w, events)
    requires Fetches(w, |events|, configs, CooldownAfter(w, configs, cooldown, events), c, Some(slot), next)
    ensures slot < |configs| && configs[slot].id !in UsedIds(configs, events)
  {
    var j, after := |events|, CooldownAfter(w, configs, cooldown, events);
    FetchedIsUsable(w, j, configs, after, c, slot, next);
    hide Fetches, CooldownAfter;
    forall i | 0 <= i < j ensures configs[events[i].slot].id != configs[slot].id {
      StillPenalized(w, configs, cooldown, events, i);
    }
  }

  lemma FetchedIsUsable(w: World, j: nat, configs: seq<Config>, cooldown: map<string, real>, c: nat,
                        slot: nat, next: nat)
    requires configs != [] && Fetches(w, j, configs, cooldown, c, Some(slot), next)
    ensures slot < |configs| && !Skips(w, j, configs, cooldown, slot)
    ensures !Unusable(w, j, configs[slot], slot, cooldown)
  {
    hide Incr;
  }

  /** The configuration is in cooldown, by this call or another, or refused by the policy. */
  predicate Unusable(w: World, j: nat, config: Config, slot: nat, cooldown: map<string, real>) {
    || (config.id in cooldown && w.clock(j) < cooldown[config.id])
    || w.cooledElsewhere(j, config.id)
    || (config.credentialId != "" && !w.compliant(j, slot))
  }

  /** A turn's event extends the trace. */
  lemma TraceGrows(w: World, configs: seq<Config>, start: map<string, real>, first: nat, t: Trace, e: Event, next: nat)
    requires configs != [] && Traced(w, configs, start, first, t)
    requires e.slot < |configs| && e == EventAt(w, configs, |t.events|, e.slot)
    requires Fetches(w, |t.events|, configs, CooldownAfter(w, configs, start, t.events), t.counters[|t.events|],
                     Some(e.slot), next)
    ensures Traced(w, configs, start, first, Trace(t.events + [e], t.counters + [next]))
  {
    hide Fetches, EventAt, CooldownAfter;
    var t' := Trace(t.events + [e], t.counters + [next]);
    forall i | 0 <= i < |t'.events| ensures Turned(w, configs, start, t', i) {
      if i < |t.events| {
        assert Turned(w, configs, start, t, i);
        assert t'.events[..i] == t.events[..i];
      } else {
        assert t'.events[..i] == t.events;
      }
    }
  }

  /** What the last event adds to the cooldowns and the remembered error. */
  lemma LastEvent(w: World, configs: seq<Config>, start: map<string, real>, events: seq<Event>, e: Event)
    requires e.slot < |configs|
    ensures CooldownAfter(w, configs, start, events + [e])
         == Penalized(CooldownAfter(w, configs, start, events), e, configs[e.slot].id, w.settled(|events|))
    ensures LastError(events + [e]) == ErrorOf(e, LastError(events))
    ensures GoesOn(events) ==> GoesOn((events + [e])[..|events|]) && (Penalty(e).Some? ==> GoesOn(events + [e]))
  {
    assert (events + [e])[..|events|] == events;
  }

  lemma OneMoreTurn(w: World, configs: seq<Config>, start: map<string, real>, first: nat, t: Trace,
                    cooldown: map<string, real>, counter: nat, lastException: Option<string>, e: Event, next: nat)
    requires configs != [] && Brief(w, configs, start, first)
    requires Underway(w, configs, start, first, t, cooldown, counter, lastException)
    requires e.slot < |configs| && e == EventAt(w, configs, |t.events|, e.slot)
    requires Fetches(w, |t.events|, configs, cooldown, counter, Some(e.slot), next)
    ensures TurnDone(w, configs, start, first, t, Trace(t.events + [e], t.counters + [next]),
                     Penalized(cooldown, e, configs[e.slot].id, w.settled(|t.events|)),
                     next, ResultOf(e), ErrorOf(e, lastException))
  {
    assert |t.counters| == |t.events| + 1;
    FreshWhenFetched(w, configs, start, t.events, counter, e.slot, next);
    hide Brief, Traced, CooldownAfter, Fetches, EventAt, ErrorOf, LastError, Penalty, Conclusion, GoesOn, UsedIds, Ids,
         DistinctIds, Penalized;
    OneMoreUsed(configs, t.events, e);
    TraceGrows(w, configs, start, first, t, e, next);
    LastEvent(w, configs, start, t.events, e);
    assert (t.events + [e])[|t.events|] == e && (t.counters + [next])[|t.events| + 1] == next;
  }

  lemma Exhausts(w: World, configs: seq<Config>, start: map<string, real>, first: nat, t: Trace,
                 cooldown: map<string, real>, counter: nat, next: nat, lastException: Option<string>)
    requires configs != [] && Underway(w, configs, start, first, t, cooldown, counter, lastException)
    requires Fetches(w, |t.events|, configs, cooldown, counter, None, next)
    ensures TurnDone(w, configs, start, first, t, t, cooldown, next, Some(Exhaustion(lastException)), lastException)
  {
    hide Fetches, Traced, Turned, CooldownAfter;
    assert |t.counters| == |t.events| + 1 by { TraceLength(w, configs, start, first, t); }
  }

  lemma TraceLength(w: World, configs: seq<Config>, start: map<string, real>, first: nat, t: Trace)
    requires configs != [] && Traced(w, configs, start, first, t)
    ensures |t.counters| == |t.events| + 1
  {
  }

  lemma {:induction false} OneMoreUsed(configs: seq<Config>, events: seq<Event>, e: Event)
    requires DistinctIds(configs, events) && e.slot < |configs|
    requires configs[e.slot].id !in UsedIds(configs, events)
    ensures DistinctIds(configs, events + [e])
    ensures Ids(configs) - UsedIds(configs, events + [e]) < Ids(configs) - UsedIds(configs, events)
  {
    var id := configs[e.slot].id;
    assert id in Ids(configs);
    assert (events + [e])[|events|] == e;
    assert id in UsedIds(configs, events + [e]);
    assert UsedIds(configs, events) <= UsedIds(configs, events + [e]) by {
      forall x | x in UsedIds(configs, events) ensures x in UsedIds(configs, events + [e]) {
        var i :| 0 <= i < |events| && configs[events[i].slot].id == x;
        assert (events + [e])[i] == events[i];
      }
    }
  }

  /** A condition on the world alone under which every call is brief: each penalty an iteration could set outlasts
      every later iteration. */
  lemma LongPenaltiesAreBrief(w: World, configs: seq<Config>, start: map<string, real>, first: nat)
    requires configs != []
    requires forall i: nat, j: nat, k: nat :: i < j && k < |configs| && Penalty(EventAt(w, configs, i, k)).Some? ==>
               w.clock(j) < w.settled(i) + Penalty(EventAt(w, configs, i, k)).value
    ensures Brief(w, configs, start, first)
  {
    hide Fetches;
    forall t | Traced(w, configs, start, first, t) && GoesOn(t.events) ensures StillCooling(w, t.events) {
      forall i | 0 <= i < |t.events| ensures w.clock(|t.events|) < w.settled(i) + Penalty(t.events[i]).value {
        assert Turned(w, configs, start, t, i);
        assert Penalty(EventAt(w, configs, i, t.events[i].slot)).Some?;
      }
    }
  }

  // ---------- What a finished call has done, read off its events ----------

  /** The event that the attempts of iteration i on its slot must be. */
  predicate EventIs(w: World, configs: seq<Config>, i: nat, e: Event) {
    && e.slot < |configs|
    && (e.Rejected? <==> configs[e.slot].credentialId != "" && !w.stillCompliant(i, e.slot))
    && (e.Invoked? ==> e.outcome == w.invoke(i, e.slot))
  }

  predicate Fails(e: Event) {
    e.Rejected? || e.outcome.RateLimited? || e.outcome.AuthOrConnection?
  }

  lemma PenaltyExactly(e: Event)
    ensures Penalty(e) == if !Fails(e) then None
                          else if e.Invoked? && e.outcome.AuthOrConnection? then Some(10.0) else Some(60.0)
  {
  }

  /** The last attempt, if there was one. */
  lemma {:induction false} LastErrorExactly(events: seq<Event>)
    requires forall i :: 0 <= i < |events| ==> Fails(events[i])
    ensures LastError(events) == None <==> forall i :: 0 <= i < |events| ==> events[i].Rejected?
    ensures forall k :: 0 <= k < |events| && Fails(events[k]) && events[k].Invoked?
                        && (forall i :: k < i < |events| ==> events[i].Rejected?) ==>
              LastError(events) == Some(events[k].outcome.error)
  {
    if events != [] {
      var n := |events| - 1;
      LastErrorExactly(events[..n]);
      assert forall i :: 0 <= i < n ==> events[..n][i] == events[i];
    }
  }

  /** The call went through its iterations one by one; all but the last failed. */
  lemma CallProceeds(w: World, configs: seq<Config>, start: map<string, real>, first: nat, t: Trace, counter: nat,
                     r: Result)
    requires configs != [] && Traced(w, configs, start, first, t) && Ended(w, configs, start, t, counter, r)
    ensures forall i :: 0 <= i < |t.events| ==> EventIs(w, configs, i, t.events[i])
    ensures forall i :: 0 <= i < |t.events| - 1 ==> Fails(t.events[i])
  {
    hide Fetches, CooldownAfter;
    forall i | 0 <= i < |t.events| ensures EventIs(w, configs, i, t.events[i]) {
      assert Turned(w, configs, start, t, i);
    }
    forall i | 0 <= i < |t.events| - 1 ensures Fails(t.events[i]) {
      var n := |t.events|;
      PenaltyExactly(t.events[i]);
      assert t.events[..n - 1][i] == t.events[i];
    }
  }

  /** How the call ends: with the reply or final error of its last attempt; or, when all attempts failed, with the
      error of the last one; or "not initialized", exactly when every configuration was rejected before an attempt. */
  lemma CallEndsExactly(w: World, configs: seq<Config>, start: map<string, real>, first: nat, t: Trace, counter: nat,
                        r: Result)
    requires configs != [] && Traced(w, configs, start, first, t) && Ended(w, configs, start, t, counter, r)
    ensures var n := |t.events|;
            if n > 0 && !Fails(t.events[n - 1]) then
              r == if t.events[n - 1].outcome.Succeeded? then Replied(t.events[n - 1].outcome.reply)
                   else Raised(t.events[n - 1].outcome.error)
            else
              && (r == NotInitialized <==> forall i :: 0 <= i < n ==> t.events[i].Rejected?)
              && (forall k :: 0 <= k < n && t.events[k].Invoked?
                              && (forall i :: k < i < n ==> t.events[i].Rejected?) ==>
                    r == Raised(t.events[k].outcome.error))
  {
    CallProceeds(w, configs, start, first, t, counter, r);
    hide Fetches, CooldownAfter, Traced, LastError, EventIs;
    var n := |t.events|;
    if n > 0 { PenaltyExactly(t.events[n - 1]); }
    if n == 0 || Fails(t.events[n - 1]) { LastErrorExactly(t.events); }
  }

  /** What the call leaves in cooldown: every configuration that failed, for 60 or 10 s from its failure, and nothing
      else new. */
  lemma CallCools(w: World, configs: seq<Config>, start: map<string, real>, events: seq<Event>, id: string)
    requires DistinctIds(configs, events)
    ensures var after := CooldownAfter(w, configs, start, events);
            && (forall i :: 0 <= i < |events| && configs[events[i].slot].id == id && Fails(events[i]) ==>
                  id in after && after[id] == w.settled(i)
                    + if events[i].Invoked? && events[i].outcome.AuthOrConnection? then 10.0 else 60.0)
            && ((forall i :: 0 <= i < |events| && configs[events[i].slot].id == id ==> !Fails(events[i])) ==>
                  (id in after <==> id in start) && (id in start ==> after[id] == start[id]))
  {
    forall i | 0 <= i < |events| && configs[events[i].slot].id == id && Fails(events[i])
      ensures var after := CooldownAfter(w, configs, start, events);
              id in after && after[id] == w.settled(i)
                + if events[i].Invoked? && events[i].outcome.AuthOrConnection? then 10.0 else 60.0
    {
      PenaltyExactly(events[i]);
      StillPenalized(w, configs, start, events, i);
    }
    if forall i :: 0 <= i < |events| && configs[events[i].slot].id == id ==> !Fails(events[i]) {
      Untouched(w, configs, start, events, id);
    }
  }

  lemma {:induction false} Untouched(w: World, configs: seq<Config>, start: map<string, real>, events: seq<Event>,
                                     id: string)
    requires forall i :: 0 <= i < |events| ==> events[i].slot < |configs|
    requires forall i :: 0 <= i < |events| && configs[events[i].slot].id == id ==> !Fails(events[i])
    ensures var after := CooldownAfter(w, configs, start, events);
            (id in after <==> id in start) && (id in start ==> after[id] == start[id])
  {
    if events != [] {
      var n := |events| - 1;
      assert forall i :: 0 <= i < n ==> events[..n][i] == events[i];
      Untouched(w, configs, start, events[..n], id);
      PenaltyExactly(events[n]);
    }
  }

  // ---------- What exhaustion means ----------

  ghost predicate Undisturbed(others: Interference) {
    forall i: nat :: others(i) == None
  }

  lemma {:induction false} SameIncr(c: nat, others: Interference, i: nat)
    requires Undisturbed(others)
    ensures Incr(c, others, i) == Incr(c, UNDISTURBED, i)
  {
    if i > 0 {
      SameIncr(c, others, i - 1);
    }
  }

  /** When no other process touched the counter during the last fetch and its reset was harmless, a call that ends
      without a usable configuration ends because every configuration is cooling down or refused. */
  lemma ExhaustedMeansNothingUsable(w: World, j: nat, configs: seq<Config>, cooldown: map<string, real>, c: nat,
                                    next: nat, k: nat)
    requires configs != [] && Fetches(w, j, configs, cooldown, c, None, next)
    requires Undisturbed(w.others(j)) && ResetIsHarmless(c, |configs|) && k < |configs|
    ensures Unusable(w, j, configs[k], k, cooldown)
  {
    HarmlessVisits(c, |configs|, k);
    var i: nat :| i < |configs| && Probe(c, |configs|, UNDISTURBED, i) == k;
    SameIncr(c, w.others(j), i);
    hide Incr, Slot;
    assert Blocked(w, j, configs, cooldown)(i, Probe(c, |configs|, w.others(j), i));
  }
}

/** The list of configurations that all managers of one model share and prune in place. */
module SharedConfigs {
  import opened Options
  import opened Selection
  import opened LoadBalancer

  const INHERIT := "__inherit__"

  /** A load-balancing row of the database; `readable` says that its stored credentials could be parsed. */
  datatype Row = Row(id: string, name: string, model: string, modelType: string, enabled: bool,
                     hasConfig: bool, readable: bool, credentialId: string, credentials: string)

  predicate Listed(row: Row, model: string, modelType: string) {
    && row.model == model && row.modelType == modelType && row.enabled
    && if row.hasConfig then row.readable else row.name == INHERIT
  }

  function ToConfig(row: Row): Config {
    if row.hasConfig then Config(row.id, row.name, row.credentialId, row.credentials)
    else Config(row.id, row.name, "", "")
  }

  function ListedConfigs(rows: seq<Row>, model: string, modelType: string): seq<Config> {
    if rows == [] then []
    else
      var last := rows[|rows| - 1];
      ListedConfigs(rows[..|rows| - 1], model, modelType)
      + if Listed(last, model, modelType) then [ToConfig(last)] else []
  }

  /** The load-balancing part of `_to_model_settings` for one model: a single configuration is no list at all. */
  method BuildConfigs(rows: seq<Row>, model: string, modelType: string, balancing: bool)
    returns (configs: seq<Config>)
    ensures |configs| != 1
    ensures var listed := ListedConfigs(rows, model, modelType);
            configs == if balancing && |listed| > 1 then listed else []
  {
    configs := [];
    if balancing {
      for i := 0 to |rows|
        invariant configs == ListedConfigs(rows[..i], model, modelType)
      {
        var row := rows[i];
        assert rows[..i + 1][..i] == rows[..i];
        if row.model == model && row.modelType == modelType {
          if !row.enabled { continue; }
          if !row.hasConfig {
            if row.name == INHERIT {
              configs := configs + [Config(row.id, row.name, "", "")];
            }
            continue;
          }
          if !row.readable { continue; }
          configs := configs + [Config(row.id, row.name, row.credentialId, row.credentials)];
        }
      }
      assert rows[..|rows|] == rows;
    }
    configs := if |configs| > 1 then configs else [];
  }

  /** A row is listed when it is enabled, for this model, and either has readable credentials or inherits them. */
  predicate IsListed(row: Row, model: string, modelType: string) {
    && row.model == model && row.modelType == modelType && row.enabled
    && (if row.hasConfig then row.readable else row.name == "__inherit__")
  }

  /** The entry made from a row; an inheriting row brings no credentials. */
  predicate MadeFrom(config: Config, row: Row) {
    config == Config(row.id, row.name, if row.hasConfig then row.credentialId else "",
                     if row.hasConfig then row.credentials else "")
  }

  function ListedAt(rows: seq<Row>, model: string, modelType: string): nat -> bool {
    (i: nat) => i < |rows| && IsListed(rows[i], model, modelType)
  }

  function AllConfigs(rows: seq<Row>): seq<Config> {
    seq(|rows|, i requires 0 <= i < |rows| => ToConfig(rows[i]))
  }

  lemma {:induction false} ListedSelects(rows: seq<Row>, model: string, modelType: string)
    ensures Selects(Kept(|rows|, ListedAt(rows, model, modelType)), AllConfigs(rows),
                    ListedConfigs(rows, model, modelType))
  {
    if rows != [] {
      var n := |rows| - 1;
      ListedSelects(rows[..n], model, modelType);
      KeptAgrees(n, ListedAt(rows, model, modelType), ListedAt(rows[..n], model, modelType));
      var before, keep := Kept(n, ListedAt(rows, model, modelType)), ListedAt(rows, model, modelType)(n);
      assert keep == Listed(rows[n], model, modelType) by { SameListing(rows[n], model, modelType); }
      assert AllConfigs(rows)[..n] == AllConfigs(rows[..n]) && AllConfigs(rows)[n] == ToConfig(rows[n]);
      hide AllConfigs, ListedAt, Listed, ToConfig, Selects;
      SelectOneMore(before, AllConfigs(rows), ListedConfigs(rows[..n], model, modelType), keep);
    }
  }

  /** The built list is made of exactly the listed rows, each once and in the order of the rows. */
  lemma ListedExactly(rows: seq<Row>, model: string, modelType: string)
    ensures var kept, list := Kept(|rows|, ListedAt(rows, model, modelType)), ListedConfigs(rows, model, modelType);
            && Positions(kept, |rows|, ListedAt(rows, model, modelType))
            && |kept| == |list| && forall j :: 0 <= j < |kept| ==> MadeFrom(list[j], rows[kept[j]])
  {
    KeptPositions(|rows|, ListedAt(rows, model, modelType));
    ListedSelects(rows, model, modelType);
    hide Kept, ListedConfigs, ListedAt;
  }

  lemma SameListing(row: Row, model: string, modelType: string)
    ensures IsListed(row, model, modelType) == Listed(row, model, modelType) && MadeFrom(ToConfig(row), row)
  {
  }

  // ---------- The constructor's in-place pruning ----------

  /** What becomes of one entry: an inherited one is dropped, or takes over the managed credentials. */
  function Handled(config: Config, managed: Option<string>): seq<Config> {
    if config.name != INHERIT then [config]
    else match managed
         case None => []
         case Some(credentials) => [config.(credentials := credentials)]
  }

  /** The list after the constructor: entry by entry, in order. */
  function Constructed(configs: seq<Config>, managed: Option<string>): (r: seq<Config>)
    ensures managed.Some? ==> |r| == |configs|
  {
    if configs == [] then []
    else Constructed(configs[..|configs| - 1], managed) + Handled(configs[|configs| - 1], managed)
  }

  /** Python's list.remove: drops the first equal element. */
  function RemoveFirst(s: seq<Config>, x: Config): seq<Config>
    requires x in s
  {
    if s[0] == x then s[1..] else [s[0]] + RemoveFirst(s[1..], x)
  }

  lemma {:induction false} RemoveAfter(kept: seq<Config>, x: Config, rest: seq<Config>)
    requires x !in kept
    ensures RemoveFirst(kept + [x] + rest, x) == kept + rest
  {
    var s := kept + [x] + rest;
    if kept == [] {
      assert s[0] == x && s[1..] == rest;
    } else {
      RemoveAfter(kept[1..], x, rest);
      assert s[1..] == kept[1..] + [x] + rest;
      assert s[0] == kept[0] && kept == [kept[0]] + kept[1..];
    }
  }

  lemma {:induction false} PrunedMembers(configs: seq<Config>)
    ensures forall c :: c in Constructed(configs, None) <==> c in configs && c.name != INHERIT
  {
    if configs != [] {
      var n := |configs| - 1;
      PrunedMembers(configs[..n]);
      assert configs == configs[..n] + [configs[n]];
    }
  }

  function OwnAt(configs: seq<Config>): nat -> bool {
    (i: nat) => i < |configs| && configs[i].name != "__inherit__"
  }

  /** Without managed credentials the list keeps exactly the other entries, each once and at its place in the order. */
  lemma {:induction false} PruningKeepsTheRest(configs: seq<Config>)
    ensures var kept, list := Kept(|configs|, OwnAt(configs)), Constructed(configs, None);
            && Positions(kept, |configs|, OwnAt(configs))
            && Selects(kept, configs, list)
  {
    KeptPositions(|configs|, OwnAt(configs));
    if configs != [] {
      var n := |configs| - 1;
      PruningKeepsTheRest(configs[..n]);
      KeptAgrees(n, OwnAt(configs), OwnAt(configs[..n]));
      var before, keep := Kept(n, OwnAt(configs)), OwnAt(configs)(n);
      assert Handled(configs[n], None) == if keep then [configs[n]] else [];
      hide Positions, Handled, OwnAt, Selects;
      SelectOneMore(before, configs, Constructed(configs[..n], None), keep);
    }
  }

  /** With managed credentials every entry keeps its place, and exactly the inheriting ones take them over. */
  lemma {:induction false} FillingKeepsPlaces(configs: seq<Config>, credentials: string, i: nat)
    requires i < |configs|
    ensures |Constructed(configs, Some(credentials))| == |configs|
    ensures Constructed(configs, Some(credentials))[i]
         == if configs[i].name == "__inherit__" then configs[i].(credentials := credentials) else configs[i]
  {
    var n := |configs| - 1;
    if i < n {
      FillingKeepsPlaces(configs[..n], credentials, i);
    }
  }

  /** The list when the first i entries of the copy have been visited. */
  function Visited(copy: seq<Config>, i: nat, managed: Option<string>): seq<Config>
    requires i <= |copy|
  {
    Constructed(copy[..i], managed) + copy[i..]
  }

  lemma Unvisited(copy: seq<Config>, managed: Option<string>)
    ensures Visited(copy, 0, managed) == copy && Visited(copy, |copy|, managed) == Constructed(copy, managed)
  {
    assert copy[..|copy|] == copy && copy[0..] == copy;
  }

  /** Visiting entry i of the copy moves it from the untouched tail to the handled front. */
  lemma {:induction false} VisitedEntry(copy: seq<Config>, i: nat, managed: Option<string>)
    requires i < |copy|
    ensures var list, next := Visited(copy, i, managed), Visited(copy, i + 1, managed);
            && copy[i] in list
            && (copy[i].name != INHERIT ==> next == list)
            && (copy[i].name == INHERIT && managed.None? ==> next == RemoveFirst(list, copy[i]))
            && (copy[i].name == INHERIT && managed.Some? ==>
                  i < |list| && next == list[i := copy[i].(credentials := managed.value)])
  {
    hide RemoveFirst, Constructed;
    VisitSplits(copy, i, managed);
    var config, done, rest := copy[i], Constructed(copy[..i], managed), copy[i + 1..];
    assert (done + [config] + rest)[|done|] == config;
    if config.name == INHERIT {
      match managed
      case None =>
        PrunedMembers(copy[..i]);
        RemoveAfter(done, config, rest);
        assert done + [] + rest == done + rest;
      case Some(credentials) =>
        var filled := config.(credentials := credentials);
        assert (done + [config] + rest)[|done| := filled] == done + [filled] + rest;
    }
  }

  lemma {:induction false} VisitSplits(copy: seq<Config>, i: nat, managed: Option<string>)
    requires i < |copy|
    ensures var done, rest := Constructed(copy[..i], managed), copy[i + 1..];
            && done + copy[i..] == done + [copy[i]] + rest
            && Constructed(copy[..i + 1], managed) + rest == done + Handled(copy[i], managed) + rest
            && (managed.Some? ==> |done| == i)
  {
    assert copy[..i + 1][..i] == copy[..i];
    assert copy[i..] == [copy[i]] + copy[i + 1..];
  }

  class ModelSetting {
    var configs: seq<Config>

    constructor (configs: seq<Config>)
      ensures this.configs == configs
    { this.configs := configs; }

    /** `_get_load_balancing_manager`: a manager is made only for a non-empty list, and its constructor prunes
        that same list, or fills the inherited credentials in. */
    method NewManager(managed: Option<string>) returns (made: bool)
      modifies this
      ensures made <==> old(configs) != []
      ensures configs == Constructed(old(configs), managed)
    {
      if configs == [] {
        return false;
      }
      Handle(managed);
      return true;
    }

    /** The constructor's loop over a copy of the list it changes. */
    method Handle(managed: Option<string>)
      modifies this
      ensures configs == Constructed(old(configs), managed)
    {
      hide *;
      var copy := configs;
      Unvisited(copy, managed);
      for i := 0 to |copy|
        invariant configs == Visited(copy, i, managed)
      {
        var config := copy[i];
        VisitedEntry(copy, i, managed);
        if config.name == INHERIT {
          match managed {
            case None => configs := RemoveFirst(configs, config);
            case Some(credentials) => configs := configs[i := config.(credentials := credentials)];
          }
        }
      }
    }
  }

  // ---------- No manager ever works on an empty list ----------

  /** The shared list after a sequence of constructions. */
  function AfterAll(configs: seq<Config>, uses: seq<Option<string>>): seq<Config> {
    if uses == [] then configs else Constructed(AfterAll(configs, uses[..|uses| - 1]), uses[|uses| - 1])
  }

  /** No construction leaves its manager an empty list, on which `fetch_next` would divide by zero. */
  ghost predicate NeverStranded(configs: seq<Config>) {
    forall uses: seq<Option<string>> :: configs != [] ==> AfterAll(configs, uses) != []
  }

  predicate HasOwn(configs: seq<Config>) {
    exists i :: 0 <= i < |configs| && configs[i].name != INHERIT
  }

  lemma {:induction false} ConstructedKeepsOwn(configs: seq<Config>, managed: Option<string>)
    requires HasOwn(configs)
    ensures HasOwn(Constructed(configs, managed))
  {
    var i :| 0 <= i < |configs| && configs[i].name != INHERIT;
    var n := |configs| - 1;
    if i == n {
      assert Constructed(configs, managed)[|Constructed(configs[..n], managed)|] == configs[n];
    } else {
      assert configs[..n][i] == configs[i];
      ConstructedKeepsOwn(configs[..n], managed);
      var k :| 0 <= k < |Constructed(configs[..n], managed)| && Constructed(configs[..n], managed)[k].name != INHERIT;
      assert Constructed(configs, managed)[k] == Constructed(configs[..n], managed)[k];
    }
  }

  lemma {:induction false} AfterAllKeepsOwn(configs: seq<Config>, uses: seq<Option<string>>)
    requires HasOwn(configs)
    ensures HasOwn(AfterAll(configs, uses))
  {
    if uses != [] {
      AfterAllKeepsOwn(configs, uses[..|uses| - 1]);
      ConstructedKeepsOwn(AfterAll(configs, uses[..|uses| - 1]), uses[|uses| - 1]);
    }
  }

  lemma NonEmptyHasMember(configs: seq<Config>)
    ensures configs != [] ==> exists c :: c in configs
  {
    if configs != [] {
      assert configs[0] in configs;
    }
  }

  /** Managers are never stranded exactly when the list is empty from the start or names one configuration of its
      own. */
  lemma NeverStrandedExactlyWithOwn(configs: seq<Config>)
    ensures NeverStranded(configs) <==> configs == [] || HasOwn(configs)
  {
    if HasOwn(configs) {
      forall uses: seq<Option<string>> ensures AfterAll(configs, uses) != [] {
        AfterAllKeepsOwn(configs, uses);
      }
    } else if configs != [] {
      PrunedMembers(configs);
      NonEmptyHasMember(Constructed(configs, None));
      var once: seq<Option<string>> := [None];
      assert once[..0] == [];
      assert AfterAll(configs, once) == Constructed(configs, None) == [];
    }
  }

  /** A list of two or more with at most one `__inherit__` entry, which is all `_to_model_settings` can
      produce from a single inherited row, never strands a manager. */
  lemma OneInheritIsSafe(configs: seq<Config>)
    requires |configs| != 1
    requires forall i, j :: 0 <= i < j < |configs| && configs[i].name == INHERIT ==> configs[j].name != INHERIT
    ensures NeverStranded(configs)
  {
    NeverStrandedExactlyWithOwn(configs);
    if |configs| > 1 {
      assert configs[0].name != INHERIT || configs[1].name != INHERIT;
    }
  }
}
