/**
 The versioned Redis cache of provider configuration rows.

 One (tenant, source) pair is modelled: its version key, its data keys (one per
 version) and the database rows behind it. Keys of different pairs are disjoint,
 so a run over many pairs is a family of runs like these.

 Redis calls may fail at every point where the code swallows the failure. A failed or unreadable
 GET of a data key is a miss, and a failure while storing loses the entry. A reader whose first
 version read fails goes on without a version and stores its rows unchecked.

 Rows are identified by the database version they were read at, so "no older
 than" is a comparison of naturals. Time is real-valued and measured in seconds.
 Every Redis call is one step, except that `_get_version` and one source's
 invalidation are each taken atomically; all other calls interleave freely.
 */
module ProviderCache {
  import opened Options

  const DATA_TTL: real := 300.0
  const VERSION_TTL: real := 360.0

  datatype VersionKey = Missing | VersionKey(value: nat, expires: real)

  datatype Entry = Entry(rows: nat, expires: real)

  /** Progress of one `_get_cached_or_load_records` call. `floor` is what the reader is owed:
      the database version at the latest invalidation that finished before the call began. */
  datatype Reader =
    | Started(floor: nat)
    | Versioned(floor: nat, version: nat, readAt: real)
    | Missed(floor: nat, version: nat, readAt: real)
    | Loaded(floor: nat, version: nat, readAt: real, rows: nat)
    | Checked(floor: nat, version: nat, readAt: real, rows: nat, checkedAt: real)
    | Blind(floor: nat)
    | BlindLoaded(floor: nat, rows: nat)
    | Returned(floor: nat, rows: nat)

  /** `established` records, for every version of the current version key's lifetime,
      the invalidated database version it stands for; `blind` records whether a reader's version
      read has failed. The code stores neither. */
  datatype State = State(
    now: real,
    db: nat,
    invalidated: nat,
    version: VersionKey,
    data: map<nat, Entry>,
    readers: map<nat, Reader>,
    established: map<nat, nat>,
    blind: bool)

  datatype Action =
    | Tick(elapsed: real)
    | Commit
    | Invalidate
    | Start(r: nat)
    | GetVersion(r: nat)
    | VersionFails(r: nat)
    | GetData(r: nat)
    | ReadFails(r: nat)
    | Load(r: nat)
    | Check(r: nat)
    | Write(r: nat)
    | StoreFails(r: nat)

  const INITIAL := State(0.0, 0, 0, Missing, map[], map[], map[], false)

  predicate VersionLive(s: State) {
    s.version.VersionKey? && s.now < s.version.expires
  }

  predicate EntryLive(s: State, v: nat) {
    v in s.data && s.now < s.data[v].expires
  }

  /** `_get_version`: a missing key restarts at 0, a live one has its TTL refreshed. */
  function Touch(s: State): State {
    s.(version := VersionKey(if VersionLive(s) then s.version.value else 0, s.now + VERSION_TTL),
       established := if VersionLive(s) then s.established else map[0 := s.invalidated])
  }

  /** INCR (1 on a missing key) followed by EXPIRE. */
  function Bump(s: State): State {
    var value := if VersionLive(s) then s.version.value + 1 else 1;
    s.(version := VersionKey(value, s.now + VERSION_TTL),
       invalidated := s.db,
       established := if VersionLive(s) then s.established[value := s.db] else map[value := s.db])
  }

  function SetReader(s: State, r: nat, reader: Reader): State {
    s.(readers := s.readers[r := reader])
  }

  /** One step of the system; an action that is not enabled changes nothing. */
  function Step(s: State, a: Action): State {
    match a
    case Tick(elapsed) => if elapsed >= 0.0 then s.(now := s.now + elapsed) else s
    case Commit => s.(db := s.db + 1)
    case Invalidate => Bump(s)
    case Start(r) => if r in s.readers then s else SetReader(s, r, Started(s.invalidated))
    case _ =>
      if a.r !in s.readers then s else ReaderStep(s, a, s.readers[a.r])
  }

  function ReaderStep(s: State, a: Action, reader: Reader): State
    requires !a.Tick? && !a.Commit? && !a.Invalidate? && !a.Start?
  {
    if a.GetVersion? && reader.Started? then
      var t := Touch(s);
      SetReader(t, a.r, Versioned(reader.floor, t.version.value, s.now))
    else if a.VersionFails? && reader.Started? then
      SetReader(s, a.r, Blind(reader.floor)).(blind := true)
    else if a.GetData? && reader.Versioned? then
      if EntryLive(s, reader.version) then
        SetReader(s, a.r, Returned(reader.floor, s.data[reader.version].rows))
      else
        SetReader(s, a.r, Missed(reader.floor, reader.version, reader.readAt))
    else if a.ReadFails? && reader.Versioned? then
      SetReader(s, a.r, Missed(reader.floor, reader.version, reader.readAt))
    else if a.Load? && reader.Missed? then
      SetReader(s, a.r, Loaded(reader.floor, reader.version, reader.readAt, s.db))
    else if a.Load? && reader.Blind? then
      SetReader(s, a.r, BlindLoaded(reader.floor, s.db))
    else if a.Check? && reader.Loaded? then
      var t := Touch(s);
      if t.version.value == reader.version then
        SetReader(t, a.r, Checked(reader.floor, reader.version, reader.readAt, reader.rows, s.now))
      else
        SetReader(t, a.r, Returned(reader.floor, reader.rows))
    else if a.Check? && reader.BlindLoaded? then
      var t := Touch(s);
      SetReader(t, a.r, Checked(reader.floor, t.version.value, s.now, reader.rows, s.now))
    else if a.Write? && reader.Checked? then
      var t := s.(data := s.data[reader.version := Entry(reader.rows, s.now + DATA_TTL)]);
      SetReader(t, a.r, Returned(reader.floor, reader.rows))
    else if a.StoreFails? && (reader.Loaded? || reader.BlindLoaded? || reader.Checked?) then
      SetReader(s, a.r, Returned(reader.floor, reader.rows))
    else
      s
  }

  function Run(actions: seq<Action>): State {
    if actions == [] then INITIAL else Step(Run(actions[..|actions| - 1]), actions[|actions| - 1])
  }

  // ---------- Timing hypotheses and the freshness property ----------

  predicate HoldsVersion(reader: Reader) {
    !reader.Started? && !reader.Returned? && !reader.Blind? && !reader.BlindLoaded?
  }

  /** `life` bounds the time from a reader's version read to its last Redis call,
      `gap` the time from its version check to its SETEX. */
  predicate Timely(s: State, gap: real, life: real) {
    forall r :: r in s.readers ==>
      && (HoldsVersion(s.readers[r]) ==> s.now < s.readers[r].readAt + life)
      && (s.readers[r].Checked? ==> s.now <= s.readers[r].checkedAt + gap)
  }

  ghost predicate TimelyRun(actions: seq<Action>, gap: real, life: real) {
    forall i :: 0 <= i <= |actions| ==> Timely(Run(actions[..i]), gap, life)
  }

  predicate Fresh(s: State) {
    forall r :: r in s.readers && s.readers[r].Returned? ==> s.readers[r].floor <= s.readers[r].rows
  }

  /** Every timely run in which no version read fails is fresh. */
  ghost predicate AllRunsFresh(gap: real, life: real) {
    forall actions :: TimelyRun(actions, gap, life) && !Run(actions).blind ==> Fresh(Run(actions))
  }

  /** What the two TTLs of the code tolerate. */
  predicate Tolerated(gap: real, life: real) {
    life <= VERSION_TTL && (gap <= VERSION_TTL - DATA_TTL || life <= VERSION_TTL - DATA_TTL)
  }

  // ---------- The inductive invariant ----------

  ghost predicate VersionInv(s: State) {
    && s.invalidated <= s.db
    && (s.version.VersionKey? ==> s.version.expires <= s.now + VERSION_TTL)
    && (VersionLive(s) ==>
          && s.version.value in s.established
          && s.invalidated <= s.established[s.version.value])
    && (VersionLive(s) ==> forall v :: v in s.established ==> v <= s.version.value && s.established[v] <= s.db)
  }

  /** Every live data entry is outlived by the version key and stands for a version of its lifetime. */
  ghost predicate DataInv(s: State) {
    forall v :: EntryLive(s, v) ==>
      && VersionLive(s)
      && s.data[v].expires <= s.version.expires
      && v in s.established
      && s.established[v] <= s.data[v].rows
  }

  ghost predicate ReaderInv(s: State, reader: Reader) {
    match reader
    case Started(floor) => floor <= s.invalidated
    case Returned(floor, rows) => floor <= rows
    case Blind(_) => false
    case BlindLoaded(_, _) => false
    case _ =>
      && s.version.VersionKey?
      && reader.readAt <= s.now
      && reader.readAt + VERSION_TTL <= s.version.expires
      && reader.version in s.established
      && reader.floor <= s.established[reader.version]
      && (reader.Loaded? || reader.Checked? ==> s.established[reader.version] <= reader.rows)
      && (reader.Checked? ==>
            && reader.readAt <= reader.checkedAt <= s.now
            && reader.checkedAt + VERSION_TTL <= s.version.expires)
  }

  ghost predicate Inv(s: State) {
    && !s.blind
    && VersionInv(s)
    && DataInv(s)
    && forall r :: r in s.readers ==> ReaderInv(s, s.readers[r])
  }

  /** A timely reader holding a version keeps the version key alive. */
  lemma HolderKeepsKeyAlive(s: State, gap: real, life: real, r: nat)
    requires Inv(s) && Timely(s, gap, life) && life <= VERSION_TTL
    requires r in s.readers && HoldsVersion(s.readers[r])
    ensures VersionLive(s)
  {
  }

  lemma TouchKeepsInv(s: State, gap: real, life: real)
    requires Inv(s) && Timely(s, gap, life) && life <= VERSION_TTL
    ensures Inv(Touch(s)) && VersionLive(Touch(s))
    ensures s.invalidated <= Touch(s).established[Touch(s).version.value]
  {
  }

  lemma BumpKeepsInv(s: State, gap: real, life: real)
    requires Inv(s) && Timely(s, gap, life) && life <= VERSION_TTL
    ensures Inv(Bump(s))
  {
  }

  lemma SetReaderKeepsInv(s: State, r: nat, reader: Reader)
    requires Inv(s) && ReaderInv(s, reader)
    ensures Inv(SetReader(s, r, reader))
  {
  }

  /** The SETEX lands inside the lifetime of the version key: the step the two TTLs were chosen for. */
  lemma WriteKeepsInv(s: State, gap: real, life: real, r: nat)
    requires Inv(s) && Timely(s, gap, life) && Tolerated(gap, life)
    requires r in s.readers && s.readers[r].Checked?
    ensures Inv(s.(data := s.data[s.readers[r].version := Entry(s.readers[r].rows, s.now + DATA_TTL)]))
  {
  }

  lemma TickKeepsInv(s: State, elapsed: real)
    requires Inv(s) && elapsed >= 0.0
    ensures Inv(s.(now := s.now + elapsed))
  {
  }

  lemma CommitKeepsInv(s: State)
    requires Inv(s)
    ensures Inv(s.(db := s.db + 1))
  {
  }

  lemma StepKeepsInv(s: State, a: Action, gap: real, life: real)
    requires Inv(s) && Timely(s, gap, life) && Tolerated(gap, life)
    requires !Step(s, a).blind
    ensures Inv(Step(s, a))
  {
    hide Inv, Timely;
    match a
    case Tick(elapsed) => if elapsed >= 0.0 { TickKeepsInv(s, elapsed); }
    case Commit => CommitKeepsInv(s);
    case Invalidate => BumpKeepsInv(s, gap, life);
    case Start(r) => if r !in s.readers { StartKeepsInv(s, r); }
    case GetVersion(r) => if r in s.readers { GetVersionKeepsInv(s, r, gap, life); }
    case VersionFails(r) =>
    case Check(r) => if r in s.readers { CheckKeepsInv(s, r, gap, life); }
    case Load(r) => if r in s.readers { LoadKeepsInv(s, r, gap, life); }
    case Write(r) => if r in s.readers && s.readers[r].Checked? { StoreKeepsInv(s, r, gap, life); }
    case _ => if a.r in s.readers { LookupKeepsInv(s, a); }
  }

  lemma StartKeepsInv(s: State, r: nat)
    requires Inv(s)
    ensures Inv(SetReader(s, r, Started(s.invalidated)))
  {
    SetReaderKeepsInv(s, r, Started(s.invalidated));
  }

  lemma GetVersionKeepsInv(s: State, r: nat, gap: real, life: real)
    requires Inv(s) && Timely(s, gap, life) && life <= VERSION_TTL && r in s.readers
    ensures Inv(ReaderStep(s, GetVersion(r), s.readers[r]))
  {
    var reader := s.readers[r];
    assert ReaderInv(s, reader);
    if reader.Started? {
      TouchKeepsInv(s, gap, life);
      SetReaderKeepsInv(Touch(s), r, Versioned(reader.floor, Touch(s).version.value, s.now));
    }
  }

  lemma LoadKeepsInv(s: State, r: nat, gap: real, life: real)
    requires Inv(s) && Timely(s, gap, life) && life <= VERSION_TTL && r in s.readers
    ensures Inv(ReaderStep(s, Load(r), s.readers[r]))
  {
    var reader := s.readers[r];
    assert ReaderInv(s, reader);
    if reader.Missed? {
      HolderKeepsKeyAlive(s, gap, life, r);
      SetReaderKeepsInv(s, r, Loaded(reader.floor, reader.version, reader.readAt, s.db));
    }
  }

  lemma CheckKeepsInv(s: State, r: nat, gap: real, life: real)
    requires Inv(s) && Timely(s, gap, life) && life <= VERSION_TTL && r in s.readers
    ensures Inv(ReaderStep(s, Check(r), s.readers[r]))
  {
    var t, reader := Touch(s), s.readers[r];
    assert ReaderInv(s, reader);
    if reader.Loaded? {
      TouchKeepsInv(s, gap, life);
      assert ReaderInv(t, t.readers[r]);
      if t.version.value == reader.version {
        SetReaderKeepsInv(t, r, Checked(reader.floor, reader.version, reader.readAt, reader.rows, s.now));
      } else {
        SetReaderKeepsInv(t, r, Returned(reader.floor, reader.rows));
      }
    }
  }

  lemma StoreKeepsInv(s: State, r: nat, gap: real, life: real)
    requires Inv(s) && Timely(s, gap, life) && Tolerated(gap, life)
    requires r in s.readers && s.readers[r].Checked?
    ensures Inv(ReaderStep(s, Write(r), s.readers[r]))
  {
    var reader := s.readers[r];
    var t := s.(data := s.data[reader.version := Entry(reader.rows, s.now + DATA_TTL)]);
    assert ReaderInv(t, Returned(reader.floor, reader.rows)) by { assert ReaderInv(s, reader); }
    hide Inv, Timely, ReaderInv;
    WriteKeepsInv(s, gap, life, r);
    SetReaderKeepsInv(t, r, Returned(reader.floor, reader.rows));
  }

  /** A lookup, or a failed call, changes only the reader. */
  lemma LookupKeepsInv(s: State, a: Action)
    requires Inv(s) && (a.GetData? || a.ReadFails? || a.StoreFails?) && a.r in s.readers
    ensures Inv(ReaderStep(s, a, s.readers[a.r]))
  {
    var reader := s.readers[a.r];
    assert ReaderInv(s, reader);
    if a.StoreFails? && (reader.Loaded? || reader.Checked?) {
      SetReaderKeepsInv(s, a.r, Returned(reader.floor, reader.rows));
    } else if a.GetData? && reader.Versioned? && EntryLive(s, reader.version) {
      SetReaderKeepsInv(s, a.r, Returned(reader.floor, s.data[reader.version].rows));
    } else if !a.StoreFails? && reader.Versioned? {
      SetReaderKeepsInv(s, a.r, Missed(reader.floor, reader.version, reader.readAt));
    }
  }

  lemma BlindnessStays(s: State, a: Action)
    ensures s.blind ==> Step(s, a).blind
  {
  }

  lemma {:induction false} TimelyRunsKeepInv(actions: seq<Action>, gap: real, life: real)
    requires TimelyRun(actions, gap, life) && Tolerated(gap, life) && !Run(actions).blind
    ensures Inv(Run(actions))
  {
    if actions != [] {
      var n := |actions| - 1;
      var prior := actions[..n];
      forall i | 0 <= i <= n ensures Timely(Run(prior[..i]), gap, life) {
        assert prior[..i] == actions[..i];
      }
      BlindnessStays(Run(prior), actions[n]);
      TimelyRunsKeepInv(prior, gap, life);
      assert prior == prior[..n];
      StepKeepsInv(Run(prior), actions[n], gap, life);
    }
  }

  // ---------- Main theorems ----------

  /** No live entry can outlive the version key, and none carries a version above the current one,
      so a version key that expires and restarts at 0 never re-exposes an old entry. */
  lemma EntriesAreOutlivedByTheirVersion(actions: seq<Action>, gap: real, life: real, v: nat)
    requires TimelyRun(actions, gap, life) && Tolerated(gap, life) && !Run(actions).blind
    requires EntryLive(Run(actions), v)
    ensures VersionLive(Run(actions))
    ensures Run(actions).data[v].expires <= Run(actions).version.expires
    ensures v <= Run(actions).version.value
  {
    TimelyRunsKeepInv(actions, gap, life);
  }

  lemma StepIsMonotone(s: State, a: Action)
    requires s.invalidated <= s.db
    ensures s.invalidated <= Step(s, a).invalidated <= Step(s, a).db
    ensures a.Invalidate? ==> Step(s, a).invalidated == s.db
  {
  }

  /** A step adds no reader but the one it starts, which is owed the latest invalidation; floors never change. */
  lemma StepKeepsFloors(s: State, a: Action, r: nat)
    requires r in Step(s, a).readers
    ensures if r in s.readers then Step(s, a).readers[r].floor == s.readers[r].floor
            else Step(s, a).readers[r].floor == s.invalidated
  {
  }

  lemma {:induction false} InvalidationsAreMonotone(actions: seq<Action>, j: nat)
    requires j <= |actions|
    ensures Run(actions[..j]).invalidated <= Run(actions).invalidated <= Run(actions).db
  {
    var n := |actions| - 1;
    if j == |actions| {
      assert actions[..j] == actions;
      if actions != [] {
        InvalidationsAreMonotone(actions[..n], n);
        StepIsMonotone(Run(actions[..n]), actions[n]);
      }
    } else {
      assert actions[..n][..j] == actions[..j];
      InvalidationsAreMonotone(actions[..n], j);
      StepIsMonotone(Run(actions[..n]), actions[n]);
    }
  }

  lemma {:induction false} LateReaderIsOwedEarlierInvalidations(actions: seq<Action>, j: nat, r: nat)
    requires j <= |actions|
    requires r !in Run(actions[..j]).readers && r in Run(actions).readers
    ensures Run(actions[..j]).invalidated <= Run(actions).readers[r].floor
  {
    var n := |actions| - 1;
    assert actions[..|actions|] == actions;
    if j < |actions| {
      var prior := actions[..n];
      assert prior[..j] == actions[..j];
      StepKeepsFloors(Run(prior), actions[n], r);
      if r in Run(prior).readers {
        LateReaderIsOwedEarlierInvalidations(prior, j, r);
      } else {
        InvalidationsAreMonotone(prior, j);
      }
    }
  }

  lemma InvalidationIsRemembered(actions: seq<Action>, i: nat, j: nat)
    requires i < j <= |actions| && actions[i].Invalidate?
    ensures Run(actions[..i]).db <= Run(actions[..j]).invalidated
  {
    var upTo := actions[..i + 1];
    assert upTo[..i] == actions[..i];
    InvalidationsAreMonotone(actions[..i], i);
    StepIsMonotone(Run(actions[..i]), actions[i]);
    assert actions[..j][..i + 1] == upTo;
    InvalidationsAreMonotone(actions[..j], i + 1);
  }

  /** A read that begins after an invalidation finished returns rows at least as new as
      the database was at that invalidation, however the other steps interleave. */
  lemma ReadAfterInvalidationIsFresh(actions: seq<Action>, gap: real, life: real, i: nat, j: nat, r: nat)
    requires TimelyRun(actions, gap, life) && Tolerated(gap, life) && !Run(actions).blind
    requires i < j <= |actions| && actions[i].Invalidate?
    requires r !in Run(actions[..j]).readers
    requires r in Run(actions).readers && Run(actions).readers[r].Returned?
    ensures Run(actions[..i]).db <= Run(actions).readers[r].rows
  {
    var s := Run(actions);
    assert ReaderInv(s, s.readers[r]) by { TimelyRunsKeepInv(actions, gap, life); }
    LateReaderIsOwedEarlierInvalidations(actions, j, r);
    InvalidationIsRemembered(actions, i, j);
  }

  // ---------- The tolerated bounds are exact ----------

  ghost predicate TimelyReach(s: State, gap: real, life: real) {
    exists actions :: TimelyRun(actions, gap, life) && Run(actions) == s
  }

  lemma Begin(gap: real, life: real)
    ensures TimelyReach(INITIAL, gap, life)
  {
    assert Run([]) == INITIAL && TimelyRun([], gap, life);
  }

  lemma Advance(s: State, a: Action, t: State, gap: real, life: real)
    requires TimelyReach(s, gap, life)
    requires Step(s, a) == t && Timely(t, gap, life)
    ensures TimelyReach(t, gap, life)
  {
    var actions :| TimelyRun(actions, gap, life) && Run(actions) == s;
    var longer := actions + [a];
    assert longer[..|actions|] == actions;
    forall i | 0 <= i <= |longer| ensures Timely(Run(longer[..i]), gap, life) {
      if i <= |actions| {
        assert longer[..i] == actions[..i];
      } else {
        assert longer[..i] == longer;
      }
    }
    assert TimelyRun(longer, gap, life) && Run(longer) == t;
  }

  /** Reader 0 has loaded the initial rows and nothing else has happened. */
  const LOADED :=
    State(0.0, 0, 0, VersionKey(0, VERSION_TTL), map[], map[0 := Loaded(0, 0, 0.0, 0)], map[0 := 0], false)

  lemma ReachLoaded(gap: real, life: real)
    requires life > 0.0
    ensures TimelyReach(LOADED, gap, life)
  {
    hide TimelyReach;
    Begin(gap, life);
    var s1 := INITIAL.(readers := map[0 := Started(0)]);
    assert TimelyReach(s1, gap, life) by { Advance(INITIAL, Start(0), s1, gap, life); }
    var s2 := LOADED.(readers := map[0 := Versioned(0, 0, 0.0)]);
    assert TimelyReach(s2, gap, life) by { Advance(s1, GetVersion(0), s2, gap, life); }
    var s3 := LOADED.(readers := map[0 := Missed(0, 0, 0.0)]);
    assert TimelyReach(s3, gap, life) by { Advance(s2, GetData(0), s3, gap, life); }
    assert TimelyReach(LOADED, gap, life) by { Advance(s3, Load(0), LOADED, gap, life); }
  }

  /** An invalidation overtakes reader 0. */
  function Overtaken(reader: Reader): State {
    State(0.0, 1, 1, VersionKey(1, VERSION_TTL), map[], map[0 := reader], map[0 := 0, 1 := 1], false)
  }

  lemma ReachOvertaken(s: State, gap: real, life: real)
    requires TimelyReach(s, gap, life) && Timely(s, gap, life)
    requires 0 in s.readers && s == LOADED.(readers := map[0 := s.readers[0]])
    ensures TimelyReach(Overtaken(s.readers[0]), gap, life)
  {
    hide TimelyReach;
    var s1 := s.(db := 1);
    assert TimelyReach(s1, gap, life) by { Advance(s, Commit, s1, gap, life); }
    assert TimelyReach(Overtaken(s.readers[0]), gap, life) by {
      Advance(s1, Invalidate, Overtaken(s.readers[0]), gap, life);
    }
  }

  lemma ReachedStale(s: State, r: nat, gap: real, life: real)
    requires TimelyReach(s, gap, life)
    requires r in s.readers && s.readers[r].Returned? && s.readers[r].rows < s.readers[r].floor && !s.blind
    ensures !AllRunsFresh(gap, life)
  {
  }

  /** A late reader that meets, under version 0, a live entry from before the invalidation returns stale rows. */
  lemma LateReaderIsStale(s: State, gap: real, life: real)
    requires TimelyReach(s, gap, life) && life > 0.0
    requires s.readers == map[0 := Returned(0, 0)] && s.invalidated == 1 && !s.blind
    requires EntryLive(s, 0) && s.data[0].rows == 0
    requires VersionLive(s) ==> s.version.value == 0
    ensures !AllRunsFresh(gap, life)
  {
    hide TimelyReach;
    var s1 := s.(readers := map[0 := Returned(0, 0), 1 := Started(1)]);
    assert TimelyReach(s1, gap, life) by { Advance(s, Start(1), s1, gap, life); }
    var s2 := Touch(s).(readers := map[0 := Returned(0, 0), 1 := Versioned(1, 0, s.now)]);
    assert TimelyReach(s2, gap, life) by { Advance(s1, GetVersion(1), s2, gap, life); }
    var s3 := Touch(s).(readers := map[0 := Returned(0, 0), 1 := Returned(1, 0)]);
    assert EntryLive(s2, 0);
    assert TimelyReach(s3, gap, life) by { Advance(s2, GetData(1), s3, gap, life); }
    ReachedStale(s3, 1, gap, life);
  }

  /** With more than 60 s between check and SETEX the entry outlives the version key,
      which restarts at 0 and exposes rows from before the invalidation. */
  lemma SlowWriteIsStale(gap: real, life: real)
    requires gap > VERSION_TTL - DATA_TTL && life > VERSION_TTL - DATA_TTL
    ensures !AllRunsFresh(gap, life)
  {
    hide TimelyReach;
    var pause := if gap < life then gap else (life + 60.0) / 2.0;
    var rest := if pause < VERSION_TTL then VERSION_TTL - pause else 0.0;
    ReachLoaded(gap, life);
    var s1 := LOADED.(readers := map[0 := Checked(0, 0, 0.0, 0, 0.0)]);
    assert TimelyReach(s1, gap, life) by { Advance(LOADED, Check(0), s1, gap, life); }
    ReachOvertaken(s1, gap, life);
    var s2 := Overtaken(s1.readers[0]);
    var s3 := s2.(now := pause);
    assert TimelyReach(s3, gap, life) by { Advance(s2, Tick(pause), s3, gap, life); }
    var s4 := s3.(data := map[0 := Entry(0, pause + DATA_TTL)], readers := map[0 := Returned(0, 0)]);
    assert TimelyReach(s4, gap, life) by { Advance(s3, Write(0), s4, gap, life); }
    var s5 := s4.(now := pause + rest);
    assert TimelyReach(s5, gap, life) by { Advance(s4, Tick(rest), s5, gap, life); }
    LateReaderIsStale(s5, gap, life);
  }

  /** A reader that lives longer than the version key finds a restarted 0 equal to the one it remembers. */
  lemma LongReaderIsStale(gap: real, life: real)
    requires gap >= 0.0 && life > VERSION_TTL
    ensures !AllRunsFresh(gap, life)
  {
    hide TimelyReach;
    ReachLoaded(gap, life);
    ReachOvertaken(LOADED, gap, life);
    var s1 := Overtaken(LOADED.readers[0]);
    var s2 := s1.(now := VERSION_TTL);
    assert TimelyReach(s2, gap, life) by { Advance(s1, Tick(VERSION_TTL), s2, gap, life); }
    var s3 := s2.(version := VersionKey(0, 2.0 * VERSION_TTL), established := map[0 := 1],
                  readers := map[0 := Checked(0, 0, 0.0, 0, VERSION_TTL)]);
    assert TimelyReach(s3, gap, life) by { Advance(s2, Check(0), s3, gap, life); }
    var s4 := s3.(data := map[0 := Entry(0, VERSION_TTL + DATA_TTL)], readers := map[0 := Returned(0, 0)]);
    assert TimelyReach(s4, gap, life) by { Advance(s3, Write(0), s4, gap, life); }
    LateReaderIsStale(s4, gap, life);
  }

  /** Reads are fresh in every timely run exactly for the bounds the two TTLs tolerate:
      readers within 360 s, and at most 60 s between version check and SETEX. */
  lemma FreshExactlyWhenTolerated(gap: real, life: real)
    requires gap >= 0.0
    ensures AllRunsFresh(gap, life) <==> life <= 360.0 && (gap <= 60.0 || life <= 60.0)
  {
    if Tolerated(gap, life) {
      forall actions | TimelyRun(actions, gap, life) && !Run(actions).blind ensures Fresh(Run(actions)) {
        TimelyRunsKeepInv(actions, gap, life);
        var s := Run(actions);
        assert forall r :: r in s.readers ==> ReaderInv(s, s.readers[r]);
      }
    } else if life > VERSION_TTL {
      LongReaderIsStale(gap, life);
    } else {
      SlowWriteIsStale(gap, life);
    }
  }

  /** The state in which reader 0, blind, has stored the old rows under the version of the invalidation. */
  function BlindlyStored(readers: map<nat, Reader>): State {
    State(0.0, 1, 1, VersionKey(1, VERSION_TTL), map[1 := Entry(0, DATA_TTL)], readers, map[1 := 1], true)
  }

  /** Why a failed version read is outside the theorem: the unchecked write puts rows from before an invalidation
      under the version after it, however quick everyone is. */
  lemma BlindWriteIsStale(gap: real, life: real)
    requires gap >= 0.0 && life > 0.0
    ensures exists actions :: TimelyRun(actions, gap, life) && !Fresh(Run(actions))
  {
    hide TimelyReach;
    Begin(gap, life);
    var s1 := INITIAL.(readers := map[0 := Started(0)]);
    assert TimelyReach(s1, gap, life) by { Advance(INITIAL, Start(0), s1, gap, life); }
    var s2 := INITIAL.(readers := map[0 := Blind(0)], blind := true);
    assert TimelyReach(s2, gap, life) by { Advance(s1, VersionFails(0), s2, gap, life); }
    var s3 := s2.(readers := map[0 := BlindLoaded(0, 0)]);
    assert TimelyReach(s3, gap, life) by { Advance(s2, Load(0), s3, gap, life); }
    var s4 := s3.(db := 1);
    assert TimelyReach(s4, gap, life) by { Advance(s3, Commit, s4, gap, life); }
    var s5 := BlindlyStored(map[0 := BlindLoaded(0, 0)]).(data := map[]);
    assert TimelyReach(s5, gap, life) by { Advance(s4, Invalidate, s5, gap, life); }
    var s6 := s5.(readers := map[0 := Checked(0, 1, 0.0, 0, 0.0)]);
    assert TimelyReach(s6, gap, life) by { Advance(s5, Check(0), s6, gap, life); }
    BlindWriteIsStaleTail(gap, life, s6);
  }

  lemma BlindWriteIsStaleTail(gap: real, life: real, s6: State)
    requires gap >= 0.0 && life > 0.0 && TimelyReach(s6, gap, life)
    requires s6 == BlindlyStored(map[0 := Checked(0, 1, 0.0, 0, 0.0)]).(data := map[])
    ensures exists actions :: TimelyRun(actions, gap, life) && !Fresh(Run(actions))
  {
    hide TimelyReach;
    var s7 := BlindlyStored(map[0 := Returned(0, 0)]);
    assert TimelyReach(s7, gap, life) by { Advance(s6, Write(0), s7, gap, life); }
    var s8 := BlindlyStored(map[0 := Returned(0, 0), 1 := Started(1)]);
    assert TimelyReach(s8, gap, life) by { Advance(s7, Start(1), s8, gap, life); }
    var s9 := BlindlyStored(map[0 := Returned(0, 0), 1 := Versioned(1, 1, 0.0)]);
    assert TimelyReach(s9, gap, life) by { Advance(s8, GetVersion(1), s9, gap, life); }
    var s10 := BlindlyStored(map[0 := Returned(0, 0), 1 := Returned(1, 0)]);
    assert EntryLive(s9, 1) && s9.data[1].rows == 0;
    assert s10.readers == s9.readers[1 := Returned(1, 0)];
    assert TimelyReach(s10, gap, life) by { Advance(s9, GetData(1), s10, gap, life); }
    assert !Fresh(s10) by { assert s10.readers[1] == Returned(1, 0); }
    ReachedUnfresh(s10, gap, life);
  }

  lemma ReachedUnfresh(s: State, gap: real, life: real)
    requires TimelyReach(s, gap, life) && !Fresh(s)
    ensures exists actions :: TimelyRun(actions, gap, life) && !Fresh(Run(actions))
  {
  }

  // ---------- Stored rows are found again ----------

  /** Rows stored under a version are hit under that version for 300 s, and no longer. */
  lemma StoredRowsAreHit(s: State, r: nat, q: nat, floor: nat, readAt: real, elapsed: real)
    requires r in s.readers && s.readers[r].Checked? && q != r && q in s.readers && elapsed >= 0.0
    requires s.readers[q] == Versioned(floor, s.readers[r].version, readAt)
    ensures var t := Step(Step(Step(s, Write(r)), Tick(elapsed)), GetData(q));
            && r in t.readers && t.readers[r] == Returned(s.readers[r].floor, s.readers[r].rows)
            && q in t.readers
            && t.readers[q] == if elapsed < 300.0 then Returned(floor, s.readers[r].rows)
                               else Missed(floor, s.readers[r].version, readAt)
  {
    var v := s.readers[r].version;
    var s1 := Step(s, Write(r));
    assert s1.data[v] == Entry(s.readers[r].rows, s.now + 300.0) && s1.readers[q] == s.readers[q];
    var s2 := Step(s1, Tick(elapsed));
    assert s2.data == s1.data && s2.readers == s1.readers && s2.now == s.now + elapsed;
  }

  /** A reader that missed loads what the database holds then, and stores it unless the version moved on. */
  lemma MissedRowsAreLoaded(s: State, r: nat)
    requires r in s.readers && s.readers[r].Missed?
    ensures var t := Step(s, Load(r));
            && r in t.readers
            && t.readers[r] == Loaded(s.readers[r].floor, s.readers[r].version, s.readers[r].readAt, s.db)
  {
  }

  // ---------- The cache's own calls ----------

  /** Where a call to Redis fails inside `get_records` or `set_records`, if anywhere; an unreadable value counts
      as a failure to read the data. */
  datatype Fault = NoFault | AtVersion | AtData

  function Lookup(s: State, r: nat, fault: Fault): State {
    var started := Step(s, Start(r));
    match fault
    case NoFault => Step(Step(started, GetVersion(r)), GetData(r))
    case AtData => Step(Step(started, GetVersion(r)), ReadFails(r))
    case AtVersion => Step(started, VersionFails(r))
  }

  function Store(s: State, r: nat, fault: Fault): State {
    match fault
    case NoFault => Step(Step(s, Check(r)), Write(r))
    case AtData => Step(Step(s, Check(r)), StoreFails(r))
    case AtVersion => Step(s, StoreFails(r))
  }

  /** The steps of one reader with nothing in between. */
  function Uninterrupted(s: State, r: nat, get: Fault, put: Fault): State {
    Store(Step(Lookup(s, r, get), Load(r)), r, put)
  }

  /** The state and reader after a lookup with nothing in between. */
  function LookedUp(s: State, fault: Fault): (State, Reader) {
    var t := Touch(s);
    var v := t.version.value;
    match fault
    case AtVersion => (s.(blind := true), Blind(s.invalidated))
    case NoFault =>
      if EntryLive(t, v) then (t, Returned(s.invalidated, s.data[v].rows)) else (t, Missed(s.invalidated, v, s.now))
    case AtData => (t, Missed(s.invalidated, v, s.now))
  }

  lemma SetReaderTwice(s: State, r: nat, before: Reader, after: Reader)
    ensures SetReader(SetReader(s, r, before), r, after) == SetReader(s, r, after)
    ensures Touch(SetReader(s, r, before)) == SetReader(Touch(s), r, before)
    ensures SetReader(s, r, before).readers[r] == before
  {
  }

  /** The steps of a lookup, one by one. */
  lemma LookupSteps(s: State, r: nat, floor: nat)
    ensures Step(SetReader(s, r, Started(floor)), GetVersion(r))
         == SetReader(Touch(s), r, Versioned(floor, Touch(s).version.value, s.now))
    ensures Step(SetReader(s, r, Started(floor)), VersionFails(r)) == SetReader(s, r, Blind(floor)).(blind := true)
  {
    hide Touch;
    TouchKeepsTime(s);
    SetReaderTwice(s, r, Started(floor), Blind(floor));
    SetReaderTwice(Touch(s), r, Started(floor), Versioned(floor, Touch(s).version.value, s.now));
  }

  lemma TouchKeepsTime(s: State)
    ensures Touch(s).now == s.now && Touch(s).db == s.db && Touch(s).data == s.data && Touch(s).readers == s.readers
    ensures Touch(s).invalidated == s.invalidated && Touch(s).version.VersionKey?
    ensures Touch(Touch(s)) == Touch(s)
  {
  }

  lemma DataSteps(s: State, r: nat, floor: nat, v: nat, readAt: real)
    ensures var t := SetReader(s, r, Versioned(floor, v, readAt));
            && Step(t, GetData(r)) == SetReader(s, r, if EntryLive(s, v) then Returned(floor, s.data[v].rows)
                                                      else Missed(floor, v, readAt))
            && Step(t, ReadFails(r)) == SetReader(s, r, Missed(floor, v, readAt))
  {
    SetReaderTwice(s, r, Versioned(floor, v, readAt), Missed(floor, v, readAt));
    if EntryLive(s, v) {
      SetReaderTwice(s, r, Versioned(floor, v, readAt), Returned(floor, s.data[v].rows));
    }
  }

  lemma LoadStep(s: State, r: nat, reader: Reader)
    requires reader.Missed? || reader.Blind?
    ensures Step(SetReader(s, r, reader), Load(r))
         == SetReader(s, r, if reader.Missed? then Loaded(reader.floor, reader.version, reader.readAt, s.db)
                            else BlindLoaded(reader.floor, s.db))
  {
    SetReaderTwice(s, r, reader, BlindLoaded(reader.floor, s.db));
    if reader.Missed? { SetReaderTwice(s, r, reader, Loaded(reader.floor, reader.version, reader.readAt, s.db)); }
  }

  lemma CheckStep(s: State, r: nat, reader: Reader)
    requires reader.BlindLoaded?
             || (reader.Loaded? && reader.version == Touch(s).version.value && reader.readAt == s.now)
    ensures Step(SetReader(s, r, reader), Check(r))
         == SetReader(Touch(s), r, Checked(reader.floor, Touch(s).version.value, s.now, reader.rows, s.now))
    ensures Step(SetReader(s, r, reader), StoreFails(r)) == SetReader(s, r, Returned(reader.floor, reader.rows))
  {
    hide Touch;
    var t := Touch(s);
    TouchKeepsTime(s);
    SetReaderTwice(s, r, reader, Returned(reader.floor, reader.rows));
    SetReaderTwice(t, r, reader, Checked(reader.floor, t.version.value, s.now, reader.rows, s.now));
  }

  lemma WriteSteps(s: State, r: nat, floor: nat, v: nat, rows: nat)
    ensures var t := SetReader(s, r, Checked(floor, v, s.now, rows, s.now));
            && Step(t, Write(r))
               == SetReader(s.(data := s.data[v := Entry(rows, s.now + DATA_TTL)]), r, Returned(floor, rows))
            && Step(t, StoreFails(r)) == SetReader(s, r, Returned(floor, rows))
  {
    SetReaderTwice(s, r, Checked(floor, v, s.now, rows, s.now), Returned(floor, rows));
    SetReaderTwice(s.(data := s.data[v := Entry(rows, s.now + DATA_TTL)]), r, Checked(floor, v, s.now, rows, s.now),
                   Returned(floor, rows));
  }

  lemma StartStep(s: State, r: nat)
    requires r !in s.readers
    ensures Step(s, Start(r)) == SetReader(s, r, Started(s.invalidated))
  {
  }

  lemma UninterruptedLookup(s: State, r: nat, fault: Fault)
    requires r !in s.readers
    ensures Lookup(s, r, fault) == SetReader(LookedUp(s, fault).0, r, LookedUp(s, fault).1)
  {
    hide Step, Touch, SetReader, EntryLive;
    TouchKeepsTime(s);
    StartStep(s, r);
    LookupSteps(s, r, s.invalidated);
    DataSteps(Touch(s), r, s.invalidated, Touch(s).version.value, s.now);
    BlindCommutes(s, r);
  }

  lemma BlindCommutes(s: State, r: nat)
    ensures SetReader(s, r, Blind(s.invalidated)).(blind := true)
         == SetReader(s.(blind := true), r, Blind(s.invalidated))
  {
  }

  /** What storing leaves of a state in which a reader missed, or is blind. */
  function Stored(s: State, fault: Fault): State {
    if fault == AtVersion then s
    else
      var t := Touch(s);
      if fault == AtData then t else t.(data := s.data[t.version.value := Entry(s.db, s.now + DATA_TTL)])
  }

  lemma UninterruptedStore(s: State, r: nat, reader: Reader, fault: Fault)
    requires reader.Blind? || (reader.Missed? && reader.version == Touch(s).version.value && reader.readAt == s.now)
    ensures Store(Step(SetReader(s, r, reader), Load(r)), r, fault)
         == SetReader(Stored(s, fault), r, Returned(reader.floor, s.db))
  {
    hide Step, Touch, SetReader;
    var loaded := if reader.Blind? then BlindLoaded(reader.floor, s.db)
                  else Loaded(reader.floor, reader.version, reader.readAt, s.db);
    TouchKeepsTime(s);
    LoadStep(s, r, reader);
    CheckStep(s, r, loaded);
    WriteSteps(Touch(s), r, reader.floor, Touch(s).version.value, s.db);
  }

  lemma ReturnedStaysPut(t: State, r: nat, fault: Fault)
    requires r in t.readers && t.readers[r].Returned?
    ensures Store(Step(t, Load(r)), r, fault) == t
  {
  }

  /** The state a reader left alone leaves behind, and the rows it returns. */
  function LeftBehind(s: State, get: Fault, put: Fault): (State, nat) {
    var (t, reader) := LookedUp(s, get);
    if reader.Returned? then (t, reader.rows) else (Stored(t, put), s.db)
  }

  lemma UninterruptedReader(s: State, r: nat, get: Fault, put: Fault)
    requires r !in s.readers
    ensures var (t, rows) := LeftBehind(s, get, put);
            Uninterrupted(s, r, get, put) == SetReader(t, r, Returned(s.invalidated, rows)) && t.readers == s.readers
  {
    var (t, reader) := LookedUp(s, get);
    UninterruptedLookup(s, r, get);
    TouchKeepsTime(s);
    if reader.Returned? {
      hide Step, Lookup, Store, Touch;
      ReturnedStaysPut(SetReader(t, r, reader), r, put);
    } else {
      hide Step, Lookup, Store, SetReader, Touch;
      UninterruptedStore(t, r, reader, put);
    }
  }

  /** The Redis keys of one tenant and source, the clock and the database behind them. */
  class SourceCache {
    var now: real
    var db: nat
    var version: VersionKey
    var data: map<nat, Entry>

    constructor ()
      ensures Matches(INITIAL)
    {
      now, db, version, data := 0.0, 0, Missing, map[];
    }

    ghost predicate Matches(s: State)
      reads this
    {
      s.now == now && s.db == db && s.version == version && s.data == data
    }

    /** `_get_version`: GET, then SET "0" or EXPIRE. */
    method GetVersion(ghost s: State) returns (current: nat)
      requires Matches(s)
      modifies this`version
      ensures Matches(Touch(s)) && Touch(s).version.value == current
      ensures current == if old(version).VersionKey? && now < old(version).expires then old(version).value else 0
      ensures version == VersionKey(current, now + 360.0)
    {
      if version.Missing? || now >= version.expires {
        version := VersionKey(0, now + VERSION_TTL);
        return 0;
      }
      current := version.value;
      version := version.(expires := now + VERSION_TTL);
    }

    /** One source of `invalidate_tenant`. */
    method Invalidate(ghost s: State)
      requires Matches(s)
      modifies this`version
      ensures Matches(Bump(s))
      ensures version == VersionKey(if old(version).VersionKey? && now < old(version).expires
                                    then old(version).value + 1 else 1, now + 360.0)
    {
      var value := if version.Missing? || now >= version.expires then 1 else version.value + 1;
      version := VersionKey(value, now + VERSION_TTL);
    }

    /** A hit, a miss with the version to store under, or a miss without one when the version read failed. */
    method GetRecords(fault: Fault, ghost s: State) returns (rows: Option<nat>, current: Option<nat>)
      requires Matches(s)
      modifies this`version
      ensures fault == AtVersion ==> Matches(s) && rows == None && current == None
      ensures fault != AtVersion ==> Matches(Touch(s)) && current == Some(Touch(s).version.value)
      ensures rows == if fault == NoFault && current.Some? && current.value in data && now < data[current.value].expires
                      then Some(data[current.value].rows) else None
    {
      if fault == AtVersion {
        return None, None;
      }
      var v := GetVersion(s);
      current := Some(v);
      rows := if fault == NoFault && v in data && now < data[v].expires then Some(data[v].rows) else None;
    }

    /** Nothing is stored when the version moved on from the expected one; without an expected version nothing is
        checked. */
    method SetRecords(fault: Fault, rows: nat, expected: Option<nat>, ghost s: State)
      requires Matches(s)
      modifies this`version, this`data
      ensures fault == AtVersion ==> Matches(s)
      ensures fault != AtVersion ==>
                var t, v := Touch(s), Touch(s).version.value;
                Matches(if fault == AtData || (expected.Some? && expected.value != v) then t
                        else t.(data := s.data[v := Entry(rows, s.now + 300.0)]))
    {
      if fault == AtVersion {
        return;
      }
      var current := GetVersion(s);
      if expected.Some? && current != expected.value {
        return;
      }
      if fault == NoFault {
        data := data[current := Entry(rows, now + DATA_TTL)];
      }
    }

    /** `_get_cached_or_load_records`, left alone, is the reader of the protocol, whichever calls fail: same keys
        afterwards, same rows. */
    method GetCachedOrLoad(get: Fault, put: Fault, ghost s: State, ghost r: nat) returns (rows: nat)
      requires Matches(s) && r !in s.readers
      modifies this`version, this`data
      ensures Matches(Uninterrupted(s, r, get, put))
      ensures Uninterrupted(s, r, get, put).readers == s.readers[r := Returned(s.invalidated, rows)]
    {
      rows := Read(get, put, s);
      hide LeftBehind;
      UninterruptedReader(s, r, get, put);
    }

    method Read(get: Fault, put: Fault, ghost s: State) returns (rows: nat)
      requires Matches(s)
      modifies this`version, this`data
      ensures Matches(LeftBehind(s, get, put).0) && rows == LeftBehind(s, get, put).1
    {
      TouchKeepsTime(s);
      var cached, current := GetRecords(get, s);
      if cached.Some? {
        return cached.value;
      }
      rows := db;
      TouchKeepsTime(LookedUp(s, get).0);
      hide Touch;
      SetRecords(put, rows, current, LookedUp(s, get).0);
    }
  }
}
