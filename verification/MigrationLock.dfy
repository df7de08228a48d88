/**
 The auto-renewing migration lock: any number of processes, each with a heartbeat
 thread, over one Redis key holding a token and an expiry.

 redis-py's contract is taken as given: acquire is SET NX with a fresh token,
 reacquire and release act only when the stored token is the caller's.
 Time is real-valued, in seconds.
 */
module MigrationLockProtocol {

  /** `delay` bounds the hand-off from acquire to the heartbeat, and each renewal call. */
  datatype Config = Config(ttl: real, interval: real, delay: real)

  datatype Key = Free | Held(token: nat, expires: real)

  datatype Beat =
    | HandOff(since: real)
    | Waiting(until: real)
    | Calling(since: real, reached: bool)
    | Stopped

  /** `renewed` is the time of the last write that set the TTL, `failures` the renewals that failed since. */
  datatype Process =
    | Inside(token: nat, beat: Beat, renewed: real, failures: nat)
    | Leaving(token: nat)

  /** `strays` are tokens whose heartbeat thread may have survived a timed-out join. */
  datatype State = State(now: real, key: Key, processes: map<nat, Process>, nextToken: nat, strays: set<nat>)

  datatype Action =
    | Tick(elapsed: real)
    | Acquire(p: nat)
    | StartBeat(p: nat)
    | BeginRenew(p: nat)
    | ReachRedis(p: nat)
    | EndRenew(p: nat)
    | Leave(p: nat)
    | Release(p: nat)
    | ReleaseFails(p: nat)
    | StrayRenew(token: nat)

  const INITIAL := State(0.0, Free, map[], 0, {})

  predicate Live(s: State) {
    s.key.Held? && s.now < s.key.expires
  }

  predicate Owns(s: State, token: nat) {
    Live(s) && s.key.token == token
  }

  function SetProcess(s: State, p: nat, process: Process): State {
    s.(processes := s.processes[p := process])
  }

  /** One step of the system; an action that is not enabled changes nothing. */
  function Step(s: State, a: Action, c: Config): State {
    match a
    case Tick(elapsed) => if elapsed >= 0.0 then s.(now := s.now + elapsed) else s
    case Acquire(p) =>
      if p in s.processes || Live(s) then s
      else
        State(s.now, Held(s.nextToken, s.now + c.ttl),
              s.processes[p := Inside(s.nextToken, HandOff(s.now), s.now, 0)], s.nextToken + 1, s.strays)
    case StrayRenew(token) =>
      if token in s.strays && Owns(s, token) then s.(key := Held(token, s.now + c.ttl)) else s
    case _ => if a.p in s.processes then ProcessStep(s, a, s.processes[a.p], c) else s
  }

  function ProcessStep(s: State, a: Action, process: Process, c: Config): State
    requires !a.Tick? && !a.Acquire? && !a.StrayRenew?
  {
    if process.Inside? then
      if a.StartBeat? && process.beat.HandOff? then
        SetProcess(s, a.p, process.(beat := Waiting(s.now + c.interval)))
      else if a.BeginRenew? && process.beat.Waiting? && process.beat.until <= s.now then
        SetProcess(s, a.p, process.(beat := Calling(s.now, false)))
      else if a.ReachRedis? && process.beat.Calling? && !process.beat.reached then
        if Owns(s, process.token) then
          SetProcess(s.(key := Held(process.token, s.now + c.ttl)), a.p,
                     Inside(process.token, Calling(process.beat.since, true), s.now, 0))
        else
          // LockNotOwnedError ends the heartbeat loop
          SetProcess(s, a.p, process.(beat := Stopped))
      else if a.EndRenew? && process.beat.Calling? then
        // a call that never reached Redis raised, and the loop goes on waiting
        SetProcess(s, a.p, process.(beat := Waiting(s.now + c.interval),
                                    failures := if process.beat.reached then 0 else process.failures + 1))
      else if a.Leave? then
        SetProcess(s, a.p, Leaving(process.token)).(strays := s.strays + {process.token})
      else s
    else if a.Release? then
      s.(processes := s.processes - {a.p}, key := if Owns(s, process.token) then Free else s.key)
    else if a.ReleaseFails? then
      s.(processes := s.processes - {a.p})
    else s
  }

  function Run(actions: seq<Action>, c: Config): State {
    if actions == [] then INITIAL else Step(Run(actions[..|actions| - 1], c), actions[|actions| - 1], c)
  }

  // ---------- Timing hypotheses and safety ----------

  predicate TimelyProcess(now: real, process: Process, c: Config) {
    process.Inside? ==>
      && process.failures <= 1
      && match process.beat
         case HandOff(since) => now < since + c.delay
         case Waiting(until) => now <= until
         case Calling(since, _) => now < since + c.delay
         case Stopped => true
  }

  predicate Timely(s: State, c: Config) {
    forall p :: p in s.processes ==> TimelyProcess(s.now, s.processes[p], c)
  }

  ghost predicate TimelyRun(actions: seq<Action>, c: Config) {
    forall i :: 0 <= i <= |actions| ==> Timely(Run(actions[..i], c), c)
  }

  /** The key never expires under a process inside the migration. */
  predicate KeyIsHeld(s: State) {
    forall p :: p in s.processes && s.processes[p].Inside? ==> Owns(s, s.processes[p].token)
  }

  predicate Exclusive(s: State) {
    forall p, q :: p in s.processes && q in s.processes && s.processes[p].Inside? && s.processes[q].Inside? ==> p == q
  }

  ghost predicate AllRunsExclusive(c: Config) {
    forall actions :: TimelyRun(actions, c) ==> Exclusive(Run(actions, c))
  }

  ghost predicate AllRunsHoldKey(c: Config) {
    forall actions :: TimelyRun(actions, c) ==> KeyIsHeld(Run(actions, c))
  }

  predicate Meaningful(c: Config) {
    c.ttl > 0.0 && c.interval >= 0.0 && c.delay > 0.0
  }

  /** Two waits and three bounded delays fit in one TTL. */
  predicate Renewable(c: Config) {
    2.0 * c.interval + 3.0 * c.delay <= c.ttl
  }

  // ---------- Tokens identify sessions (no timing needed) ----------

  ghost predicate DistinctTokens(processes: map<nat, Process>) {
    forall p, q :: p in processes && q in processes && processes[p].token == processes[q].token ==> p == q
  }

  ghost predicate SameTokens(before: map<nat, Process>, after: map<nat, Process>) {
    forall p :: p in after ==> p in before && after[p].token == before[p].token
  }

  lemma SameTokensStayDistinct(before: map<nat, Process>, after: map<nat, Process>)
    requires DistinctTokens(before) && SameTokens(before, after)
    ensures DistinctTokens(after)
  {
  }

  ghost predicate TokenInv(s: State) {
    && (s.key.Held? ==> s.key.token < s.nextToken)
    && (forall p :: p in s.processes ==> s.processes[p].token < s.nextToken)
    && (forall t :: t in s.strays ==> t < s.nextToken)
    && DistinctTokens(s.processes)
    && (forall p :: p in s.processes && s.processes[p].Inside? ==> s.processes[p].token !in s.strays)
  }

  lemma ProcessStepKeepsTokenInv(s: State, a: Action, c: Config)
    requires TokenInv(s)
    requires !a.Tick? && !a.Acquire? && !a.StrayRenew? && a.p in s.processes
    ensures TokenInv(ProcessStep(s, a, s.processes[a.p], c))
  {
    var t := ProcessStep(s, a, s.processes[a.p], c);
    ProcessStepKeepsTokens(s, a, c);
    SameTokensStayDistinct(s.processes, t.processes);
    hide DistinctTokens, ProcessStep;
  }

  /** What a process's step does to tokens: none is new, and only a process that leaves becomes a stray. */
  lemma ProcessStepKeepsTokens(s: State, a: Action, c: Config)
    requires !a.Tick? && !a.Acquire? && !a.StrayRenew? && a.p in s.processes
    ensures var t := ProcessStep(s, a, s.processes[a.p], c);
            && SameTokens(s.processes, t.processes) && t.nextToken == s.nextToken
            && (t.key.Held? ==> t.key.token == s.processes[a.p].token || (s.key.Held? && t.key.token == s.key.token))
            && (forall p :: p in t.processes && t.processes[p].Inside? ==> s.processes[p].Inside?)
            && (t.strays == s.strays
                || (t.strays == s.strays + {s.processes[a.p].token}
                    && a.p in t.processes && !t.processes[a.p].Inside?))
  {
  }

  lemma StepKeepsTokenInv(s: State, a: Action, c: Config)
    requires TokenInv(s)
    ensures TokenInv(Step(s, a, c))
  {
    if !a.Tick? && !a.Acquire? && !a.StrayRenew? && a.p in s.processes {
      ProcessStepKeepsTokenInv(s, a, c);
    }
  }

  lemma {:induction false} RunsKeepTokenInv(actions: seq<Action>, c: Config)
    ensures TokenInv(Run(actions, c))
  {
    if actions != [] {
      RunsKeepTokenInv(actions[..|actions| - 1], c);
      StepKeepsTokenInv(Run(actions[..|actions| - 1], c), actions[|actions| - 1], c);
    }
  }

  /** A heartbeat left over from an earlier session never touches the key of a session in progress. */
  lemma StrayNeverRenewsLaterSession(actions: seq<Action>, c: Config, p: nat, stray: nat)
    requires p in Run(actions, c).processes && Run(actions, c).processes[p].Inside?
    requires Owns(Run(actions, c), Run(actions, c).processes[p].token)
    ensures Step(Run(actions, c), StrayRenew(stray), c) == Run(actions, c)
  {
    RunsKeepTokenInv(actions, c);
  }

  // ---------- Acquiring and releasing do what they are for ----------

  /** A free or expired lock is granted at once, for the whole TTL and under a token of its own. */
  lemma FreeLockIsGranted(s: State, q: nat, c: Config)
    requires q !in s.processes && !(s.key.Held? && s.now < s.key.expires)
    ensures var t := Step(s, Acquire(q), c);
            && q in t.processes && t.processes[q].Inside? && t.processes[q].token == s.nextToken
            && t.key == Held(s.nextToken, s.now + c.ttl) && t.nextToken > s.nextToken
  {
  }

  /** A lock that is held and has not expired is refused. */
  lemma HeldLockIsRefused(s: State, q: nat, c: Config)
    requires s.key.Held? && s.now < s.key.expires
    ensures Step(s, Acquire(q), c) == s
  {
  }

  /** A release by the owner frees the lock: any other process gets it at once. */
  lemma ReleaseFreesTheLock(s: State, p: nat, q: nat, c: Config)
    requires p in s.processes && s.processes[p].Leaving? && q !in s.processes
    requires s.key.Held? && s.now < s.key.expires && s.key.token == s.processes[p].token
    ensures var t := Step(Step(s, Release(p), c), Acquire(q), c);
            p !in t.processes && q in t.processes && t.processes[q].Inside? && t.key == Held(s.nextToken, s.now + c.ttl)
  {
  }

  /** A release by a process that no longer owns the lock, and a release that fails, leave the key alone. */
  lemma ForeignReleaseIsHarmless(s: State, p: nat, c: Config)
    requires p in s.processes && s.processes[p].Leaving?
    ensures !(s.key.Held? && s.now < s.key.expires && s.key.token == s.processes[p].token) ==>
              Step(s, Release(p), c) == s.(processes := s.processes - {p})
    ensures Step(s, ReleaseFails(p), c) == s.(processes := s.processes - {p})
  {
  }

  /** A renewal that reaches Redis gives the owner the whole TTL again; for anyone else it changes nothing in Redis
      and ends the heartbeat. */
  lemma RenewalExtends(s: State, p: nat, since: real, c: Config)
    requires p in s.processes && s.processes[p].Inside? && s.processes[p].beat == Calling(since, false)
    ensures var t := Step(s, ReachRedis(p), c);
            if s.key.Held? && s.now < s.key.expires && s.key.token == s.processes[p].token then
              t.key == Held(s.key.token, s.now + c.ttl)
            else
              t.key == s.key && p in t.processes && t.processes[p].Inside? && t.processes[p].beat == Stopped
  {
  }

  ghost predicate KeyHasOwner(s: State) {
    Live(s) ==> exists p :: p in s.processes && s.processes[p].token == s.key.token
  }

  /** In every run in which no release call fails, a live key belongs to a process that is inside or leaving. */
  lemma {:induction false} NoKeyIsOrphaned(actions: seq<Action>, c: Config)
    requires forall i :: 0 <= i < |actions| ==> !actions[i].ReleaseFails?
    ensures KeyHasOwner(Run(actions, c))
  {
    if actions != [] {
      var n := |actions| - 1;
      NoKeyIsOrphaned(actions[..n], c);
      StepKeepsOwner(Run(actions[..n], c), actions[n], c);
    }
  }

  lemma StepKeepsOwner(s: State, a: Action, c: Config)
    requires KeyHasOwner(s) && !a.ReleaseFails?
    ensures KeyHasOwner(Step(s, a, c))
  {
    var t := Step(s, a, c);
    if Live(t) {
      if a.Acquire? && t != s {
        assert t.processes[a.p].token == t.key.token;
      } else {
        OwnerStays(s, a, c);
      }
    }
  }

  lemma OwnerStays(s: State, a: Action, c: Config)
    requires KeyHasOwner(s) && !a.ReleaseFails? && Live(Step(s, a, c)) && (a.Acquire? ==> Step(s, a, c) == s)
    ensures KeyHasOwner(Step(s, a, c))
  {
    var t := Step(s, a, c);
    assert Live(s) && t.key.token == s.key.token;
    var p :| p in s.processes && s.processes[p].token == s.key.token;
    assert p in t.processes && t.processes[p].token == t.key.token;
  }

  /** So once all of them are gone, whoever comes next gets the lock at once. */
  lemma LockIsFreeOnceAllAreGone(actions: seq<Action>, q: nat, c: Config)
    requires forall i :: 0 <= i < |actions| ==> !actions[i].ReleaseFails?
    requires Run(actions, c).processes == map[]
    ensures var t := Step(Run(actions, c), Acquire(q), c);
            q in t.processes && t.processes[q].Inside?
  {
    NoKeyIsOrphaned(actions, c);
    FreeLockIsGranted(Run(actions, c), q, c);
  }

  // ---------- The renewal invariant ----------

  /** The latest time the current wait or call can have begun, from the last renewal. */
  function Horizon(process: Process, c: Config): real
    requires process.Inside?
  {
    process.renewed + if process.failures == 0 then c.delay + c.interval else 2.0 * c.delay + 2.0 * c.interval
  }

  ghost predicate ProcessInv(s: State, process: Process, c: Config) {
    process.Inside? ==>
      && s.key == Held(process.token, process.renewed + c.ttl)
      && process.renewed <= s.now
      && match process.beat
         case HandOff(since) => since == process.renewed && process.failures == 0
         case Waiting(until) => process.failures <= 1 ==> until < Horizon(process, c)
         case Calling(since, reached) =>
           && since <= s.now
           && (if reached then since <= process.renewed && process.failures == 0
               else process.failures <= 1 ==> since < Horizon(process, c))
         case Stopped => false
  }

  ghost predicate Inv(s: State, c: Config) {
    && TokenInv(s)
    && forall p :: p in s.processes ==> ProcessInv(s, s.processes[p], c)
  }

  lemma InvMeansHeld(s: State, c: Config)
    requires Inv(s, c) && Timely(s, c) && Meaningful(c) && Renewable(c)
    ensures KeyIsHeld(s) && Exclusive(s)
  {
    forall p | p in s.processes && s.processes[p].Inside? ensures Owns(s, s.processes[p].token) {
      assert ProcessInv(s, s.processes[p], c) && TimelyProcess(s.now, s.processes[p], c);
    }
  }

  /** A step that changes one process, and the key only if no other process is inside. */
  ghost predicate ChangesOnly(s: State, t: State, p: nat) {
    && t.now == s.now
    && (forall q :: q in t.processes && q != p ==> q in s.processes && t.processes[q] == s.processes[q])
    && (t.key == s.key || forall q :: q in s.processes && q != p ==> !s.processes[q].Inside?)
  }

  lemma OneProcessKeepsInv(s: State, t: State, p: nat, c: Config)
    requires Inv(s, c) && TokenInv(t) && ChangesOnly(s, t, p)
    requires p in t.processes ==> ProcessInv(t, t.processes[p], c)
    ensures Inv(t, c)
  {
    hide TokenInv;
    forall q | q in t.processes ensures ProcessInv(t, t.processes[q], c) {
      if q != p { assert ProcessInv(s, s.processes[q], c); }
    }
  }

  lemma ReachKeepsProcessInv(s: State, p: nat, c: Config)
    requires Inv(s, c) && KeyIsHeld(s) && Exclusive(s) && p in s.processes
    ensures var t := ProcessStep(s, ReachRedis(p), s.processes[p], c);
            ChangesOnly(s, t, p) && p in t.processes && ProcessInv(t, t.processes[p], c)
  {
    hide TokenInv;
    assert ProcessInv(s, s.processes[p], c);
  }

  lemma BeatKeepsProcessInv(s: State, a: Action, c: Config)
    requires Inv(s, c) && Timely(s, c) && Meaningful(c)
    requires (a.StartBeat? || a.BeginRenew? || a.EndRenew?) && a.p in s.processes
    ensures var t := ProcessStep(s, a, s.processes[a.p], c);
            ChangesOnly(s, t, a.p) && a.p in t.processes && ProcessInv(t, t.processes[a.p], c)
  {
    hide TokenInv;
    var process := s.processes[a.p];
    assert ProcessInv(s, process, c) && TimelyProcess(s.now, process, c);
  }

  lemma LeaveKeepsProcessInv(s: State, a: Action, c: Config)
    requires Inv(s, c) && KeyIsHeld(s) && Exclusive(s)
    requires (a.Leave? || a.Release? || a.ReleaseFails?) && a.p in s.processes
    ensures var t := ProcessStep(s, a, s.processes[a.p], c);
            ChangesOnly(s, t, a.p) && (a.p in t.processes ==> ProcessInv(t, t.processes[a.p], c))
  {
    var t := ProcessStep(s, a, s.processes[a.p], c);
    assert ProcessInv(s, s.processes[a.p], c);
    if t.key != s.key {
      forall q | q in s.processes && q != a.p ensures !s.processes[q].Inside? {
        assert s.processes[q].token != s.processes[a.p].token;
      }
    }
  }

  lemma ProcessStepKeepsInv(s: State, a: Action, c: Config)
    requires Inv(s, c) && Timely(s, c) && Meaningful(c) && Renewable(c)
    requires !a.Tick? && !a.Acquire? && !a.StrayRenew? && a.p in s.processes
    ensures Inv(ProcessStep(s, a, s.processes[a.p], c), c)
  {
    ProcessStepKeepsTokenInv(s, a, c);
    InvMeansHeld(s, c);
    hide TokenInv, Timely, Exclusive, ProcessInv, ChangesOnly, ProcessStep;
    var t := ProcessStep(s, a, s.processes[a.p], c);
    if a.ReachRedis? {
      ReachKeepsProcessInv(s, a.p, c);
    } else if a.StartBeat? || a.BeginRenew? || a.EndRenew? {
      BeatKeepsProcessInv(s, a, c);
    } else {
      LeaveKeepsProcessInv(s, a, c);
    }
    OneProcessKeepsInv(s, t, a.p, c);
  }

  lemma StepKeepsInv(s: State, a: Action, c: Config)
    requires Inv(s, c) && Timely(s, c) && Meaningful(c) && Renewable(c)
    ensures Inv(Step(s, a, c), c)
  {
    if !a.Tick? && !a.Acquire? && !a.StrayRenew? && a.p in s.processes {
      ProcessStepKeepsInv(s, a, c);
    } else {
      StepKeepsTokenInv(s, a, c);
      InvMeansHeld(s, c);
    }
  }

  lemma {:induction false} TimelyRunsKeepInv(actions: seq<Action>, c: Config)
    requires TimelyRun(actions, c) && Meaningful(c) && Renewable(c)
    ensures Inv(Run(actions, c), c)
  {
    if actions != [] {
      var n := |actions| - 1;
      var prior := actions[..n];
      forall i | 0 <= i <= n ensures Timely(Run(prior[..i], c), c) {
        assert prior[..i] == actions[..i];
      }
      TimelyRunsKeepInv(prior, c);
      assert prior[..n] == prior;
      StepKeepsInv(Run(prior, c), actions[n], c);
    }
  }

  // ---------- The bound is exact ----------

  ghost predicate TimelyReach(s: State, c: Config) {
    exists actions :: TimelyRun(actions, c) && Run(actions, c) == s
  }

  lemma Begin(c: Config)
    ensures TimelyReach(INITIAL, c)
  {
    assert Run([], c) == INITIAL && TimelyRun([], c);
  }

  lemma Advance(s: State, a: Action, t: State, c: Config)
    requires TimelyReach(s, c)
    requires Step(s, a, c) == t && Timely(t, c)
    ensures TimelyReach(t, c)
  {
    var actions :| TimelyRun(actions, c) && Run(actions, c) == s;
    var longer := actions + [a];
    assert longer[..|actions|] == actions;
    forall i | 0 <= i <= |longer| ensures Timely(Run(longer[..i], c), c) {
      if i <= |actions| {
        assert longer[..i] == actions[..i];
      } else {
        assert longer[..i] == longer;
      }
    }
    assert TimelyRun(longer, c) && Run(longer, c) == t;
  }

  function Alone(now: real, beat: Beat, failures: nat, c: Config): State {
    State(now, Held(0, c.ttl), map[0 := Inside(0, beat, 0.0, failures)], 1, {})
  }

  /** When the budget does not fit, one lost renewal lets the key lapse under a process that is still inside. */
  lemma LapseAdmitsSecond(c: Config)
    requires Meaningful(c) && !Renewable(c)
    ensures !AllRunsExclusive(c) && !AllRunsHoldKey(c)
  {
    hide TimelyReach;
    var d := if c.ttl <= 2.0 * c.interval then 0.0 else (c.ttl - 2.0 * c.interval) / 3.0;
    assert 0.0 <= d < c.delay && c.ttl <= 2.0 * c.interval + 3.0 * d;
    var i := c.interval;
    Begin(c);
    var s1 := Alone(0.0, HandOff(0.0), 0, c);
    assert TimelyReach(s1, c) by { Advance(INITIAL, Acquire(0), s1, c); }
    var s2 := Alone(d, HandOff(0.0), 0, c);
    assert TimelyReach(s2, c) by { Advance(s1, Tick(d), s2, c); }
    var s3 := Alone(d, Waiting(d + i), 0, c);
    assert TimelyReach(s3, c) by { Advance(s2, StartBeat(0), s3, c); }
    var s4 := Alone(d + i, Waiting(d + i), 0, c);
    assert TimelyReach(s4, c) by { Advance(s3, Tick(i), s4, c); }
    var s5 := Alone(d + i, Calling(d + i, false), 0, c);
    assert TimelyReach(s5, c) by { Advance(s4, BeginRenew(0), s5, c); }
    var s6 := Alone(d + i + d, Calling(d + i, false), 0, c);
    assert TimelyReach(s6, c) by { Advance(s5, Tick(d), s6, c); }
    LapseAdmitsSecondTail(c, d, s6);
  }

  lemma LapseAdmitsSecondTail(c: Config, d: real, s6: State)
    requires Meaningful(c) && 0.0 <= d < c.delay && c.ttl <= 2.0 * c.interval + 3.0 * d
    requires s6 == Alone(d + c.interval + d, Calling(d + c.interval, false), 0, c)
    requires TimelyReach(s6, c)
    ensures !AllRunsExclusive(c) && !AllRunsHoldKey(c)
  {
    hide TimelyReach;
    var i := c.interval;
    var t := d + i + d + i;
    var s7 := Alone(d + i + d, Waiting(t), 1, c);
    assert TimelyReach(s7, c) by { Advance(s6, EndRenew(0), s7, c); }
    var s8 := Alone(t, Waiting(t), 1, c);
    assert TimelyReach(s8, c) by { Advance(s7, Tick(i), s8, c); }
    var s9 := Alone(t, Calling(t, false), 1, c);
    assert TimelyReach(s9, c) by { Advance(s8, BeginRenew(0), s9, c); }
    var s10 := Alone(t + d, Calling(t, false), 1, c);
    assert TimelyReach(s10, c) by { Advance(s9, Tick(d), s10, c); }
    ReachedLapse(s10, c);
  }

  lemma ReachedLapse(s: State, c: Config)
    requires TimelyReach(s, c) && Timely(s, c) && Meaningful(c)
    requires s.processes.Keys == {0} && s.processes[0].Inside? && !Live(s)
    ensures !AllRunsExclusive(c) && !AllRunsHoldKey(c)
  {
    var t := Step(s, Acquire(1), c);
    assert TimelyReach(t, c) by { Advance(s, Acquire(1), t, c); }
    assert !KeyIsHeld(s);
    assert !Exclusive(t) by { assert t.processes[0].Inside? && t.processes[1].Inside?; }
  }

  /** No two processes are ever inside the migration together, and the key never lapses under one that is,
      in every timely run with no two consecutive failed renewals: exactly when 2*interval + 3*delay <= ttl. */
  lemma ExclusiveExactlyWhenRenewable(c: Config)
    requires Meaningful(c)
    ensures AllRunsExclusive(c) <==> Renewable(c)
    ensures AllRunsHoldKey(c) <==> Renewable(c)
  {
    if Renewable(c) {
      forall actions | TimelyRun(actions, c)
        ensures Exclusive(Run(actions, c)) && KeyIsHeld(Run(actions, c))
      {
        TimelyRunsKeepInv(actions, c);
        assert actions[..|actions|] == actions;
        InvMeansHeld(Run(actions, c), c);
      }
    } else {
      LapseAdmitsSecond(c);
    }
  }

  const MIN_RENEW_INTERVAL: real := 0.1
  const DEFAULT_RENEW_INTERVAL_DIVISOR: real := 3.0

  /** The renewal interval chosen by the constructor when none is given. */
  function DefaultInterval(ttl: real): real {
    var third := ttl / DEFAULT_RENEW_INTERVAL_DIVISOR;
    if MIN_RENEW_INTERVAL < third then third else MIN_RENEW_INTERVAL
  }

  /** The default interval leaves room for one lost renewal and delays under ttl/9 exactly from 0.3 s up. */
  lemma DefaultIntervalIsSafe(ttl: real)
    requires ttl > 0.0
    ensures AllRunsExclusive(Config(ttl, DefaultInterval(ttl), ttl / 9.0)) <==> 0.3 <= ttl
    ensures AllRunsHoldKey(Config(ttl, DefaultInterval(ttl), ttl / 9.0)) <==> 0.3 <= ttl
  {
    ExclusiveExactlyWhenRenewable(Config(ttl, DefaultInterval(ttl), ttl / 9.0));
  }
}

/** The lock object itself: four fields, and a heartbeat thread handed its own lock and stop event. */
module MigrationLock {
  import opened Options

  /** The key in Redis: the token stored in it, if any. */
  class RedisKey {
    var holder: Option<nat>
    constructor ()
      ensures holder == None
    { holder := None; }
  }

  /** redis-py's Lock; a granted acquire stores a new token in it, and reacquire and release use that token. */
  class RedisLock {
    var token: Option<nat>
    constructor ()
      ensures token == None
    { token := None; }

    /** Deletes the key if it still holds this lock's token; raises otherwise. */
    method Release(redis: RedisKey) returns (deleted: bool)
      modifies redis
      ensures deleted <==> token.Some? && old(redis.holder) == token
      ensures redis.holder == if deleted then None else old(redis.holder)
    {
      deleted := token.Some? && redis.holder == token;
      if deleted { redis.holder := None; }
    }
  }

  class StopEvent {
    var isSet: bool
    constructor ()
      ensures !isSet
    { isSet := false; }
  }

  class HeartbeatThread {
    const lock: RedisLock
    const stop: StopEvent
    constructor (lock: RedisLock, stop: StopEvent)
      ensures this.lock == lock && this.stop == stop
    { this.lock := lock; this.stop := stop; }
  }

  datatype AcquireOutcome = Granted(token: nat) | Refused | AcquireRaised
  datatype AcquireResult = Returned(acquired: bool) | AlreadyAcquired | Raised
  datatype Call = AcquireCall(granted: AcquireOutcome) | ReleaseCall(reachesRedis: bool)

  class DbMigrationAutoRenewLock {
    const redis: RedisKey
    var lock: RedisLock?
    var stopEvent: StopEvent?
    var thread: HeartbeatThread?
    var acquired: bool

    /** The heartbeats of earlier sessions, any of which may have survived its join. */
    ghost var retired: set<HeartbeatThread>

    /** What holds between calls: acquired exactly when a stop event exists, and then an unstopped heartbeat
        runs on this very lock; every earlier heartbeat was told to stop and holds another lock. */
    ghost predicate Valid()
      reads this, stopEvent, set t | t in retired :: t.stop
    {
      && (acquired <==> stopEvent != null)
      && (acquired <==> thread != null)
      && (acquired ==>
            && lock != null && thread.lock == lock && thread.stop == stopEvent
            && !stopEvent.isSet)
      && forall t :: t in retired ==> t.lock != lock && t.stop != stopEvent && t.stop.isSet
    }

    ghost predicate Initial()
      reads this
    {
      lock == null && stopEvent == null && thread == null && !acquired
    }

    constructor (redis: RedisKey)
      ensures Valid() && Initial() && retired == {} && this.redis == redis
    {
      this.redis := redis;
      lock, stopEvent, thread, acquired := null, null, null, false;
      retired := {};
    }

    method Acquire(outcome: AcquireOutcome) returns (r: AcquireResult)
      requires Valid()
      modifies this, lock, redis
      ensures Valid() && retired == old(retired)
      ensures forall t :: t in retired ==> t.lock.token == old(t.lock.token)
      ensures old(acquired) ==> r == AlreadyAcquired && unchanged(this) && unchanged(lock) && unchanged(redis)
      ensures !old(acquired) ==>
                && r == (if outcome.AcquireRaised? then Raised else Returned(outcome.Granted?))
                && acquired == outcome.Granted?
                && lock != null
                && (if old(lock) == null then fresh(lock) else lock == old(lock))
                && (acquired ==> lock.token == Some(outcome.token) && fresh(stopEvent) && fresh(thread))
                && redis.holder == if acquired then Some(outcome.token) else old(redis.holder)
    {
      if acquired {
        return AlreadyAcquired;
      }
      if lock == null {
        lock := new RedisLock();
      }
      if outcome.AcquireRaised? {
        return Raised;
      }
      acquired := outcome.Granted?;
      if acquired {
        lock.token, redis.holder := Some(outcome.token), Some(outcome.token);
        StartHeartbeat();
      }
      return Returned(acquired);
    }

    /** Nothing without a lock or beside a running heartbeat; otherwise a new heartbeat on the current lock. */
    method StartHeartbeat()
      modifies this`stopEvent, this`thread
      ensures old(lock == null || stopEvent != null) ==> unchanged(this)
      ensures old(lock != null && stopEvent == null) ==>
                && stopEvent != null && thread != null && fresh(stopEvent) && fresh(thread)
                && !stopEvent.isSet && thread.lock == lock && thread.stop == stopEvent
    {
      if lock == null {
        return;
      }
      if stopEvent != null {
        return;
      }
      var event := new StopEvent();
      stopEvent := event;
      thread := new HeartbeatThread(lock, event);
    }

    method StopHeartbeat()
      modifies this`stopEvent, this`thread, stopEvent
      ensures stopEvent == null
      ensures old(stopEvent) == null ==> unchanged(this)
      ensures old(stopEvent) != null ==> thread == null && old(stopEvent).isSet
    {
      if stopEvent == null {
        return;
      }
      stopEvent.isSet := true;
      // join with a timeout: the thread may survive, so nothing is learned from it
      stopEvent := null;
      thread := null;
    }

    /** Whatever the release call does, the object is back in its initial state and its heartbeat is retired. When the
        call reaches Redis, the key is deleted exactly if it still holds this session's token. */
    method ReleaseSafely(reachesRedis: bool)
      requires Valid()
      modifies this, stopEvent, redis
      ensures Valid() && Initial()
      ensures old(stopEvent) != null ==> old(stopEvent).isSet
      ensures retired == old(retired) + if old(thread) == null then {} else {old(thread)}
      ensures redis.holder
           == if reachesRedis && old(lock) != null && old(lock.token).Some? && old(redis.holder) == old(lock.token)
              then None else old(redis.holder)
    {
      if lock == null {
        return;
      }
      if thread != null {
        retired := retired + {thread};
      }
      StopHeartbeat();
      // every error of the call is at most logged
      if reachesRedis {
        var _ := lock.Release(redis);
      }
      acquired := false;
      lock := null;
    }

    /** Over any sequence of calls with any outcomes: a heartbeat that outlives its session keeps a set stop event,
        another lock than the session in progress, and the token it had, so it can renew no later session. */
    method RunCalls(calls: seq<Call>)
      requires Valid()
      modifies this, lock, stopEvent, redis
      ensures Valid() && old(retired) <= retired
      ensures forall t :: t in old(retired) ==> t.lock.token == old(t.lock.token)
      ensures old(acquired) && (exists i :: 0 <= i < |calls| && calls[i].ReleaseCall?) ==>
                && old(thread) in retired
                && old(thread).lock.token == old(thread.lock.token)
    {
      for i := 0 to |calls|
        invariant Valid() && old(retired) <= retired
        invariant forall t :: t in old(retired) ==> t.lock.token == old(t.lock.token)
        invariant lock == null || lock == old(lock) || fresh(lock)
        invariant stopEvent == null || stopEvent == old(stopEvent) || fresh(stopEvent)
        invariant old(acquired) ==> old(thread).lock.token == old(thread.lock.token)
        invariant old(acquired) ==>
          if exists j :: 0 <= j < i && calls[j].ReleaseCall? then old(thread) in retired
          else acquired && thread == old(thread)
      {
        match calls[i] {
          case AcquireCall(outcome) => var _ := Acquire(outcome);
          case ReleaseCall(reachesRedis) => ReleaseSafely(reachesRedis);
        }
      }
    }
  }
}
