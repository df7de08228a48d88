/** How `_load` splits documents into groups by content hash and adds up their tokens. */
module DocumentGroups {
  import opened Selection

  const WORKERS: nat := 10

  datatype Document = Document(nodeId: string, content: string, tokens: nat)

  /** `int(hash, 16) % max_workers`, for any hash of the content. */
  function Bucket(hash: string -> nat, content: string): (g: nat)
    ensures g < WORKERS
  {
    hash(content) % WORKERS
  }

  /** The documents of one group, in their original order. */
  function InGroup(documents: seq<Document>, hash: string -> nat, g: nat): seq<Document> {
    if documents == [] then []
    else
      var last := documents[|documents| - 1];
      InGroup(documents[..|documents| - 1], hash, g) + if Bucket(hash, last.content) == g then [last] else []
  }

  method GroupDocuments(documents: seq<Document>, hash: string -> nat) returns (groups: seq<seq<Document>>)
    ensures |groups| == 10
    ensures forall g :: 0 <= g < 10 ==> groups[g] == InGroup(documents, hash, g)
  {
    groups := seq(WORKERS, _ => []);
    for i := 0 to |documents|
      invariant |groups| == WORKERS
      invariant forall g :: 0 <= g < WORKERS ==> groups[g] == InGroup(documents[..i], hash, g)
    {
      assert documents[..i + 1][..i] == documents[..i];
      var g := Bucket(hash, documents[i].content);
      groups := groups[g := groups[g] + [documents[i]]];
    }
    assert documents[..|documents|] == documents;
  }

  /** All members of groups 0 to n - 1. */
  function Members(documents: seq<Document>, hash: string -> nat, n: nat): multiset<Document> {
    if n == 0 then multiset{} else Members(documents, hash, n - 1) + multiset(InGroup(documents, hash, n - 1))
  }

  lemma InGroupOfAppend(documents: seq<Document>, d: Document, hash: string -> nat, g: nat)
    ensures InGroup(documents + [d], hash, g)
         == InGroup(documents, hash, g) + if Bucket(hash, d.content) == g then [d] else []
  {
    assert (documents + [d])[..|documents|] == documents;
  }

  lemma {:induction false} MembersOfAppend(documents: seq<Document>, d: Document, hash: string -> nat, n: nat)
    ensures Members(documents + [d], hash, n)
         == Members(documents, hash, n) + if Bucket(hash, d.content) < n then multiset{d} else multiset{}
  {
    hide InGroup, Bucket, Members;
    if n == 0 {
      MembersUnfold(documents, hash, 0);
      MembersUnfold(documents + [d], hash, 0);
    } else {
      MembersOfAppend(documents, d, hash, n - 1);
      GroupOfAppend(documents, d, hash, n - 1);
      MembersUnfold(documents, hash, n);
      MembersUnfold(documents + [d], hash, n);
      assert multiset{} + multiset{d} == multiset{d};
    }
  }

  lemma MembersUnfold(documents: seq<Document>, hash: string -> nat, n: nat)
    ensures Members(documents, hash, n)
         == if n == 0 then multiset{} else Members(documents, hash, n - 1) + multiset(InGroup(documents, hash, n - 1))
  {
  }

  lemma GroupOfAppend(documents: seq<Document>, d: Document, hash: string -> nat, g: nat)
    ensures multiset(InGroup(documents + [d], hash, g))
         == multiset(InGroup(documents, hash, g)) + if Bucket(hash, d.content) == g then multiset{d} else multiset{}
  {
    hide InGroup, Bucket;
    InGroupOfAppend(documents, d, hash, g);
    assert InGroup(documents, hash, g) + [] == InGroup(documents, hash, g);
  }

  lemma {:induction false} NoMembers(hash: string -> nat, n: nat)
    ensures Members([], hash, n) == multiset{}
  {
    if n > 0 {
      NoMembers(hash, n - 1);
    }
  }

  /** The groups partition the documents: each one lands in exactly one of the first ten. */
  lemma {:induction false} GroupsPartition(documents: seq<Document>, hash: string -> nat, n: nat)
    requires n >= WORKERS
    ensures Members(documents, hash, n) == multiset(documents)
  {
    hide Members;
    if documents == [] {
      NoMembers(hash, n);
    } else {
      var k := |documents| - 1;
      GroupsPartition(documents[..k], hash, n);
      MembersOfAppend(documents[..k], documents[k], hash, n);
      assert documents == documents[..k] + [documents[k]];
    }
  }

  /** Equal content never reaches two workers. */
  lemma {:induction false} EqualContentTogether(documents: seq<Document>, hash: string -> nat, g: nat, d: Document)
    ensures d in InGroup(documents, hash, g) <==> d in documents && hash(d.content) % 10 == g
  {
    if documents != [] {
      var n := |documents| - 1;
      EqualContentTogether(documents[..n], hash, g, d);
      assert documents == documents[..n] + [documents[n]];
    }
  }

  function InBucket(documents: seq<Document>, hash: string -> nat, g: nat): nat -> bool {
    (i: nat) => i < |documents| && hash(documents[i].content) % 10 == g
  }

  /** A group holds the documents whose hash leaves its number modulo ten, each once and in their order. */
  lemma {:induction false} GroupExactly(documents: seq<Document>, hash: string -> nat, g: nat)
    ensures var kept, group := Kept(|documents|, InBucket(documents, hash, g)), InGroup(documents, hash, g);
            && Positions(kept, |documents|, InBucket(documents, hash, g))
            && Selects(kept, documents, group)
  {
    KeptPositions(|documents|, InBucket(documents, hash, g));
    if documents != [] {
      var n := |documents| - 1;
      GroupExactly(documents[..n], hash, g);
      KeptAgrees(n, InBucket(documents, hash, g), InBucket(documents[..n], hash, g));
      var before, keep := Kept(n, InBucket(documents, hash, g)), InBucket(documents, hash, g)(n);
      assert keep == (Bucket(hash, documents[n].content) == g);
      hide Positions, InBucket, Bucket, Selects;
      SelectOneMore(before, documents, InGroup(documents[..n], hash, g), keep);
    }
  }

  function TokenSum(documents: seq<Document>): nat {
    if documents == [] then 0 else TokenSum(documents[..|documents| - 1]) + documents[|documents| - 1].tokens
  }

  /** Tokens reported by the workers of groups 0 to n - 1. */
  function GroupTokens(documents: seq<Document>, hash: string -> nat, n: nat): nat {
    if n == 0 then 0 else GroupTokens(documents, hash, n - 1) + TokenSum(InGroup(documents, hash, n - 1))
  }

  lemma {:induction false} GroupTokensOfAppend(documents: seq<Document>, d: Document, hash: string -> nat, n: nat)
    ensures GroupTokens(documents + [d], hash, n)
         == GroupTokens(documents, hash, n) + if Bucket(hash, d.content) < n then d.tokens else 0
  {
    hide Bucket, InGroup;
    if n > 0 {
      GroupTokensOfAppend(documents, d, hash, n - 1);
      InGroupOfAppend(documents, d, hash, n - 1);
      var group := InGroup(documents, hash, n - 1);
      assert (group + [d])[..|group|] == group && group + [] == group;
    }
  }

  lemma {:induction false} NoGroupTokens(hash: string -> nat, n: nat)
    ensures GroupTokens([], hash, n) == 0
  {
    if n > 0 {
      NoGroupTokens(hash, n - 1);
    }
  }

  /** The total over the groups is the total over the documents. */
  lemma {:induction false} TokensAreConserved(documents: seq<Document>, hash: string -> nat, n: nat)
    requires n >= WORKERS
    ensures GroupTokens(documents, hash, n) == TokenSum(documents)
  {
    hide GroupTokens;
    if documents == [] {
      NoGroupTokens(hash, n);
    } else {
      var k := |documents| - 1;
      TokensAreConserved(documents[..k], hash, n);
      GroupTokensOfAppend(documents[..k], documents[k], hash, n);
      assert documents == documents[..k] + [documents[k]];
    }
  }

  lemma NextGroupTokens(documents: seq<Document>, hash: string -> nat, g: nat)
    ensures GroupTokens(documents, hash, g + 1)
         == GroupTokens(documents, hash, g) + TokenSum(InGroup(documents, hash, g))
  {
  }

  /** Grouping, skipping empty groups and summing the workers' results counts every document's tokens once. */
  method CountTokens(documents: seq<Document>, hash: string -> nat) returns (tokens: nat)
    ensures tokens == TokenSum(documents)
  {
    assert TokenSum([]) == 0 && GroupTokens(documents, hash, 0) == 0;
    hide TokenSum, GroupTokens, InGroup;
    var groups := GroupDocuments(documents, hash);
    var g := 0;
    tokens := 0;
    while g < |groups|
      invariant 0 <= g <= |groups|
      invariant tokens == GroupTokens(documents, hash, g)
    {
      NextGroupTokens(documents, hash, g);
      if |groups[g]| != 0 {
        tokens := tokens + TokenSum(groups[g]);
      }
      g := g + 1;
    }
    TokensAreConserved(documents, hash, g);
  }
}

/**
 The document and segment state machine under pauses and resumes, in high-quality mode with
 distinct node ids and no failures other than pauses.

 `bucket` gives the group of a segment's content. A run holds one worker per group; a worker
 checks the pause flag once, loads its group into the index, then commits its segments, and a
 run ends only when all its workers have. Steps of different workers, runs and of the pause and
 recover calls interleave freely.
 */
module IndexingPipeline {
  import opened DocumentGroups

  datatype SegmentStatus = SegmentIndexing | SegmentCompleted
  datatype DocumentStatus = Indexing | Completed
  datatype Phase = Waiting | Checked | Loaded | Done | Aborted

  datatype Run = Run(docs: set<string>, phases: seq<Phase>)

  /** `loads` counts how often each segment went into the index. */
  datatype State = State(
    segments: map<string, SegmentStatus>,
    loads: map<string, nat>,
    dbPaused: bool,
    flagPaused: bool,
    document: DocumentStatus,
    runs: seq<Run>)

  datatype Action =
    | MarkPaused
    | FlagPaused
    | ClearPaused
    | UnflagPaused
    | StartRun
    | Check(r: nat, g: nat)
    | LoadIndex(r: nat, g: nat)
    | Commit(r: nat, g: nat)
    | Finish(r: nat)

  type Buckets = string -> nat

  /** After `_load_segments`: every segment is INDEXING, nothing is in the index, and the run that saved the
      segments is about to load all of them. */
  function Initial(nodes: set<string>, bucket: Buckets): State {
    State(map n | n in nodes :: SegmentIndexing, map n | n in nodes :: 0, false, false, Indexing,
          [NewRun(nodes, bucket)])
  }

  function Pending(s: State): set<string> {
    set n | n in s.segments && s.segments[n] != SegmentCompleted
  }

  function Group(docs: set<string>, bucket: Buckets, g: nat): set<string> {
    set n | n in docs && bucket(n) == g
  }

  /** A worker per non-empty group. */
  function NewRun(docs: set<string>, bucket: Buckets): Run {
    Run(docs, seq(WORKERS, g requires 0 <= g < WORKERS => if Group(docs, bucket, g) == {} then Done else Waiting))
  }

  function SetPhase(s: State, r: nat, g: nat, phase: Phase): State
    requires r < |s.runs| && g < |s.runs[r].phases|
  {
    s.(runs := s.runs[r := s.runs[r].(phases := s.runs[r].phases[g := phase])])
  }

  predicate InPhase(s: State, r: nat, g: nat, phase: Phase) {
    r < |s.runs| && g < |s.runs[r].phases| && s.runs[r].phases[g] == phase
  }

  predicate AllDone(run: Run) {
    forall g :: 0 <= g < |run.phases| ==> run.phases[g] == Done
  }

  /** One step of the system; an action that is not enabled changes nothing. */
  function Step(s: State, a: Action, bucket: Buckets): State {
    match a
    case MarkPaused => if s.document == Indexing then s.(dbPaused := true) else s
    case FlagPaused => s.(flagPaused := true)
    case ClearPaused => s.(dbPaused := false)
    case UnflagPaused => s.(flagPaused := false)
    case StartRun =>
      if s.document == Indexing then s.(runs := s.runs + [NewRun(Pending(s), bucket)]) else s
    case Check(r, g) =>
      if InPhase(s, r, g, Waiting) then SetPhase(s, r, g, if s.flagPaused then Aborted else Checked) else s
    case LoadIndex(r, g) =>
      if InPhase(s, r, g, Checked) then
        var group := Group(s.runs[r].docs, bucket, g);
        SetPhase(s, r, g, Loaded).(loads := Loading(s.loads, group))
      else s
    case Commit(r, g) =>
      if InPhase(s, r, g, Loaded) then
        var group := Group(s.runs[r].docs, bucket, g);
        SetPhase(s, r, g, Done).(segments := Completing(s.segments, group))
      else s
    case Finish(r) =>
      // an aborted worker's exception, or the pause mark in the database, keeps the document INDEXING
      if r < |s.runs| && AllDone(s.runs[r]) && !s.dbPaused then s.(document := Completed) else s
  }

  /** The index after loading a group once. */
  function Loading(loads: map<string, nat>, group: set<string>): map<string, nat> {
    map n | n in loads :: if n in group then loads[n] + 1 else loads[n]
  }

  /** The worker's UPDATE: only segments still INDEXING become COMPLETED. */
  function Completing(segments: map<string, SegmentStatus>, group: set<string>): map<string, SegmentStatus> {
    map n | n in segments :: if n in group && segments[n] == SegmentIndexing then SegmentCompleted else segments[n]
  }

  function Exec(s: State, actions: seq<Action>, bucket: Buckets): State {
    if actions == [] then s else Step(Exec(s, actions[..|actions| - 1], bucket), actions[|actions| - 1], bucket)
  }

  // ---------- Discipline and safety ----------

  predicate Settled(phase: Phase) {
    phase == Done || phase == Aborted
  }

  /** No worker of any earlier run is still at work. */
  predicate Quiet(s: State) {
    forall r, g :: 0 <= r < |s.runs| && 0 <= g < |s.runs[r].phases| ==> Settled(s.runs[r].phases[g])
  }

  /** Runs are started only in quiet states. */
  ghost predicate Disciplined(s: State, actions: seq<Action>, bucket: Buckets) {
    forall i :: 0 <= i < |actions| && actions[i].StartRun? ==> Quiet(Exec(s, actions[..i], bucket))
  }

  predicate AtMostOnce(s: State) {
    forall n :: n in s.loads ==> s.loads[n] <= 1
  }

  predicate FullyIndexed(s: State) {
    s.segments.Keys == s.loads.Keys &&
    forall n :: n in s.segments ==> s.segments[n] == SegmentCompleted && s.loads[n] == 1
  }

  // ---------- The invariant ----------

  predicate WellFormedRun(run: Run, bucket: Buckets) {
    && |run.phases| == WORKERS
    && forall g :: 0 <= g < WORKERS && !Settled(run.phases[g]) ==> Group(run.docs, bucket, g) != {}
  }

  /** What the latest run's phases say about one segment. */
  ghost predicate SegmentInv(s: State, bucket: Buckets, n: string)
    requires n in s.segments && n in s.loads
    requires s.runs != [] && |s.runs[|s.runs| - 1].phases| == WORKERS
  {
    var run := s.runs[|s.runs| - 1];
    if n !in run.docs then s.segments[n] == SegmentCompleted && s.loads[n] == 1
    else
      bucket(n) < WORKERS &&
      match run.phases[bucket(n)]
      case Done => s.segments[n] == SegmentCompleted && s.loads[n] == 1
      case Loaded => s.segments[n] == SegmentIndexing && s.loads[n] == 1
      case _ => s.segments[n] == SegmentIndexing && s.loads[n] == 0
  }

  /** Only the latest run can have workers at work. */
  ghost predicate RunsInv(s: State, bucket: Buckets) {
    && s.runs != []
    && s.segments.Keys == s.loads.Keys
    && (forall n :: n in s.segments ==> bucket(n) < WORKERS)
    && (forall r :: 0 <= r < |s.runs| ==> WellFormedRun(s.runs[r], bucket) && s.runs[r].docs <= s.segments.Keys)
    && (forall r, g :: 0 <= r < |s.runs| - 1 && 0 <= g < WORKERS ==> Settled(s.runs[r].phases[g]))
  }

  ghost predicate Inv(s: State, bucket: Buckets) {
    && RunsInv(s, bucket)
    && (forall n :: n in s.segments ==> SegmentInv(s, bucket, n))
    && (forall r :: 0 <= r < |s.runs| && AllDone(s.runs[r]) ==> Pending(s) == {})
    && (s.document == Completed ==> Pending(s) == {})
  }

  lemma StartKeepsInv(s: State, bucket: Buckets)
    requires Inv(s, bucket) && Quiet(s) && s.document == Indexing
    ensures Inv(Step(s, StartRun, bucket), bucket)
  {
    var t := Step(s, StartRun, bucket);
    var run := t.runs[|s.runs|];
    assert run == NewRun(Pending(s), bucket);
    forall n | n in t.segments ensures SegmentInv(t, bucket, n) {
      assert SegmentInv(s, bucket, n);
      if n in run.docs {
        assert n in Group(run.docs, bucket, bucket(n));
      }
    }
    forall n | n in Pending(s) ensures !AllDone(run) {
      assert n in Group(run.docs, bucket, bucket(n));
      assert run.phases[bucket(n)] == Waiting;
    }
  }

  /** A worker that moves on belongs to the latest run, and leaves the runs as they must be. */
  lemma WorkerKeepsRunsInv(s: State, t: State, r: nat, g: nat, phase: Phase, bucket: Buckets)
    requires RunsInv(s, bucket) && r < |s.runs| && g < |s.runs[r].phases| && !Settled(s.runs[r].phases[g])
    requires t.runs == SetPhase(s, r, g, phase).runs
    requires t.segments.Keys == s.segments.Keys && t.loads.Keys == s.loads.Keys
    ensures RunsInv(t, bucket) && r == |s.runs| - 1 && |t.runs| == |s.runs|
    ensures t.runs[r] == s.runs[r].(phases := s.runs[r].phases[g := phase])
    ensures forall q :: 0 <= q < r ==> t.runs[q] == s.runs[q]
  {
    hide Group;
  }

  lemma CheckKeepsInv(s: State, r: nat, g: nat, bucket: Buckets)
    requires Inv(s, bucket) && InPhase(s, r, g, Waiting)
    ensures Inv(Step(s, Check(r, g), bucket), bucket)
  {
    var t := Step(s, Check(r, g), bucket);
    WorkerKeepsRunsInv(s, t, r, g, t.runs[r].phases[g], bucket);
    hide Step, RunsInv;
    forall n | n in t.segments ensures SegmentInv(t, bucket, n) { assert SegmentInv(s, bucket, n); }
    assert Pending(t) == Pending(s);
    assert !AllDone(t.runs[r]) by { assert t.runs[r].phases[g] != Done; }
  }

  lemma LoadKeepsInv(s: State, r: nat, g: nat, bucket: Buckets)
    requires Inv(s, bucket) && InPhase(s, r, g, Checked)
    ensures Inv(Step(s, LoadIndex(r, g), bucket), bucket)
  {
    var t := Step(s, LoadIndex(r, g), bucket);
    WorkerKeepsRunsInv(s, t, r, g, Loaded, bucket);
    hide Step, RunsInv;
    forall n | n in t.segments ensures SegmentInv(t, bucket, n) { assert SegmentInv(s, bucket, n); }
    assert Pending(t) == Pending(s);
    assert !AllDone(t.runs[r]) by { assert t.runs[r].phases[g] != Done; }
  }

  lemma CommitKeepsInv(s: State, r: nat, g: nat, bucket: Buckets)
    requires Inv(s, bucket) && InPhase(s, r, g, Loaded)
    ensures Inv(Step(s, Commit(r, g), bucket), bucket)
  {
    var t := Step(s, Commit(r, g), bucket);
    WorkerKeepsRunsInv(s, t, r, g, Done, bucket);
    CommitKeepsSegments(s, r, g, bucket);
    hide Step, RunsInv, SegmentInv, Completing;
    if AllDone(t.runs[r]) {
      forall n | n in t.segments ensures n !in Pending(t) { DoneIsCompleted(t, bucket, n); }
    }
  }

  lemma CommitKeepsSegments(s: State, r: nat, g: nat, bucket: Buckets)
    requires Inv(s, bucket) && InPhase(s, r, g, Loaded) && r == |s.runs| - 1
    ensures var t := Step(s, Commit(r, g), bucket);
            && t.segments.Keys == t.loads.Keys && |t.runs| == |s.runs| && |t.runs[r].phases| == WORKERS
            && Pending(t) <= Pending(s)
            && forall n :: n in t.segments ==> SegmentInv(t, bucket, n)
  {
    hide WellFormedRun;
    var t := Step(s, Commit(r, g), bucket);
    assert |s.runs[r].phases| == WORKERS by {
      assert WellFormedRun(s.runs[r], bucket);
      PhasesPerWorker(s.runs[r], bucket);
    }
    forall n | n in t.segments ensures SegmentInv(t, bucket, n) { assert SegmentInv(s, bucket, n); }
  }

  lemma PhasesPerWorker(run: Run, bucket: Buckets)
    requires WellFormedRun(run, bucket)
    ensures |run.phases| == WORKERS
  {
  }

  lemma DoneIsCompleted(t: State, bucket: Buckets, n: string)
    requires n in t.segments && n in t.loads && t.runs != []
    requires AllDone(t.runs[|t.runs| - 1]) && |t.runs[|t.runs| - 1].phases| == WORKERS && SegmentInv(t, bucket, n)
    ensures t.segments[n] == SegmentCompleted
  {
  }

  lemma StepKeepsInv(s: State, a: Action, bucket: Buckets)
    requires Inv(s, bucket) && (a.StartRun? ==> Quiet(s))
    ensures Inv(Step(s, a, bucket), bucket)
  {
    match a
    case StartRun => if s.document == Indexing { StartKeepsInv(s, bucket); }
    case Check(r, g) => if InPhase(s, r, g, Waiting) { CheckKeepsInv(s, r, g, bucket); }
    case LoadIndex(r, g) => if InPhase(s, r, g, Checked) { LoadKeepsInv(s, r, g, bucket); }
    case Commit(r, g) => if InPhase(s, r, g, Loaded) { CommitKeepsInv(s, r, g, bucket); }
    case _ => FlagsKeepInv(s, a, bucket);
  }

  lemma FlagsKeepInv(s: State, a: Action, bucket: Buckets)
    requires Inv(s, bucket) && !a.StartRun? && !a.Check? && !a.LoadIndex? && !a.Commit?
    ensures Inv(Step(s, a, bucket), bucket)
  {
    var t := Step(s, a, bucket);
    assert t.segments == s.segments && t.loads == s.loads && t.runs == s.runs;
    assert t.document == Completed ==> Pending(s) == {};
    hide Step;
    StatusKeepsInv(s, t, bucket);
  }

  /** The invariant does not look at the flags, and at the document only once it is COMPLETED. */
  lemma StatusKeepsInv(s: State, t: State, bucket: Buckets)
    requires Inv(s, bucket)
    requires t.segments == s.segments && t.loads == s.loads && t.runs == s.runs
    requires t.document == Completed ==> Pending(s) == {}
    ensures Inv(t, bucket)
  {
    assert Pending(t) == Pending(s);
    forall n | n in t.segments ensures SegmentInv(t, bucket, n) { assert SegmentInv(s, bucket, n); }
  }

  lemma {:induction false} DisciplinedKeepsInv(s: State, actions: seq<Action>, bucket: Buckets)
    requires Inv(s, bucket) && Disciplined(s, actions, bucket)
    ensures Inv(Exec(s, actions, bucket), bucket)
  {
    if actions != [] {
      var n := |actions| - 1;
      var prior := actions[..n];
      forall i | 0 <= i < n && prior[i].StartRun? ensures Quiet(Exec(s, prior[..i], bucket)) {
        assert prior[..i] == actions[..i];
      }
      DisciplinedKeepsInv(s, prior, bucket);
      StepKeepsInv(Exec(s, prior, bucket), actions[n], bucket);
    }
  }

  lemma InitialInv(nodes: set<string>, bucket: Buckets)
    requires forall n :: n in nodes ==> bucket(n) < WORKERS
    ensures Inv(Initial(nodes, bucket), bucket)
  {
    var s := Initial(nodes, bucket);
    var run := s.runs[0];
    forall n | n in nodes ensures run.phases[bucket(n)] == Waiting {
      assert n in Group(nodes, bucket, bucket(n));
    }
    forall n | n in s.segments ensures SegmentInv(s, bucket, n) { }
  }

  lemma InvIsSafe(s: State, bucket: Buckets)
    requires Inv(s, bucket)
    ensures AtMostOnce(s)
    ensures s.document == Completed ==> FullyIndexed(s)
  {
    forall n | n in s.loads ensures s.loads[n] <= 1 && (n !in Pending(s) ==> s.loads[n] == 1) {
      assert SegmentInv(s, bucket, n);
    }
  }

  // ---------- Main theorems ----------

  /** Through any number of pauses and resumes every segment is loaded at most once, and a COMPLETED
      document has every segment loaded exactly once and COMPLETED, as long as no run is started
      while workers of an earlier one are still at work. */
  lemma PausesAreSafe(nodes: set<string>, actions: seq<Action>, bucket: Buckets)
    requires forall n :: n in nodes ==> bucket(n) < WORKERS
    requires Disciplined(Initial(nodes, bucket), actions, bucket)
    ensures var s := Exec(Initial(nodes, bucket), actions, bucket);
            AtMostOnce(s) && (s.document == Completed ==> FullyIndexed(s))
  {
    InitialInv(nodes, bucket);
    DisciplinedKeepsInv(Initial(nodes, bucket), actions, bucket);
    InvIsSafe(Exec(Initial(nodes, bucket), actions, bucket), bucket);
  }

  // ---------- What the steps achieve ----------

  /** Pausing marks a document that is being indexed and sets its flag; recovering clears both. */
  lemma PauseAndRecover(s: State, bucket: Buckets)
    requires s.document == Indexing
    ensures Step(Step(s, MarkPaused, bucket), FlagPaused, bucket) == s.(dbPaused := true, flagPaused := true)
    ensures Step(Step(s, ClearPaused, bucket), UnflagPaused, bucket) == s.(dbPaused := false, flagPaused := false)
  {
  }

  /** A set pause flag stops a worker that has not started, before it changes anything. */
  lemma FlagStopsWaiting(s: State, r: nat, g: nat, bucket: Buckets)
    requires s.flagPaused && InPhase(s, r, g, Waiting)
    ensures var t := Step(s, Check(r, g), bucket);
            InPhase(t, r, g, Aborted) && t.loads == s.loads && t.segments == s.segments
  {
  }

  /** A stopped worker stays stopped, whatever happens later. */
  lemma {:induction false} StoppedForGood(s: State, r: nat, g: nat, actions: seq<Action>, bucket: Buckets)
    requires InPhase(s, r, g, Aborted)
    ensures InPhase(Exec(s, actions, bucket), r, g, Aborted)
  {
    if actions != [] {
      StoppedForGood(s, r, g, actions[..|actions| - 1], bucket);
      StoppedStep(Exec(s, actions[..|actions| - 1], bucket), r, g, actions[|actions| - 1], bucket);
    }
  }

  lemma StoppedStep(s: State, r: nat, g: nat, a: Action, bucket: Buckets)
    requires InPhase(s, r, g, Aborted)
    ensures InPhase(Step(s, a, bucket), r, g, Aborted)
  {
  }

  /** A run whose workers are all done completes the document, unless the database marks it as paused; a run with an
      unfinished or stopped worker never does. */
  lemma FinishExactly(s: State, r: nat, bucket: Buckets)
    requires r < |s.runs|
    ensures Step(s, Finish(r), bucket)
         == if (forall g :: 0 <= g < |s.runs[r].phases| ==> s.runs[r].phases[g] == Done) && !s.dbPaused
            then s.(document := Completed) else s
  {
  }

  lemma SetPhaseTwice(s: State, r: nat, g: nat, first: Phase, second: Phase)
    requires r < |s.runs| && g < |s.runs[r].phases|
    ensures var t := SetPhase(s, r, g, first);
            && InPhase(t, r, g, first) && t.runs[r].docs == s.runs[r].docs
            && SetPhase(t, r, g, second).runs == SetPhase(s, r, g, second).runs
  {
    assert s.runs[r].phases[g := first][g := second] == s.runs[r].phases[g := second];
  }

  /** The three steps of one worker. */
  function WorkerSteps(r: nat, g: nat): seq<Action> {
    [Check(r, g), LoadIndex(r, g), Commit(r, g)]
  }

  /** Left alone with the flag clear, a worker loads its group once and completes its segments, as one call of
      ProcessChunk does. */
  lemma WorkerCompletes(s: State, r: nat, g: nat, bucket: Buckets)
    requires !s.flagPaused && InPhase(s, r, g, Waiting)
    ensures var t, group := Exec(s, WorkerSteps(r, g), bucket), Group(s.runs[r].docs, bucket, g);
            t == SetPhase(s, r, g, Done).(loads := Loading(s.loads, group), segments := Completing(s.segments, group))
  {
    hide Group, Loading, Completing;
    SetPhaseTwice(s, r, g, Checked, Loaded);
    SetPhaseTwice(s, r, g, Loaded, Done);
    var group := Group(s.runs[r].docs, bucket, g);
    var s1 := SetPhase(s, r, g, Checked);
    assert Step(s, Check(r, g), bucket) == s1;
    var s2 := SetPhase(s, r, g, Loaded).(loads := Loading(s.loads, group));
    assert Step(s1, LoadIndex(r, g), bucket) == s2;
    var s3 := SetPhase(s, r, g, Done).(loads := Loading(s.loads, group), segments := Completing(s.segments, group));
    assert Step(s2, Commit(r, g), bucket) == s3;
    hide Step;
    ThreeSteps(s, Check(r, g), LoadIndex(r, g), Commit(r, g), bucket);
  }

  lemma ThreeSteps(s: State, a: Action, b: Action, c: Action, bucket: Buckets)
    ensures Exec(s, [a, b, c], bucket) == Step(Step(Step(s, a, bucket), b, bucket), c, bucket)
  {
    hide Step;
    ExecOfAppend(s, [], a, bucket);
    ExecOfAppend(s, [a], b, bucket);
    ExecOfAppend(s, [a, b], c, bucket);
    assert [] + [a] == [a] && [a] + [b] == [a, b] && [a, b] + [c] == [a, b, c];
  }

  /** The steps of the workers from g on, one worker after the other. */
  function AllSteps(r: nat, g: nat): seq<Action>
    decreases 10 - g
  {
    if g >= 10 then [] else WorkerSteps(r, g) + AllSteps(r, g + 1)
  }

  /** Every worker of the run that has not finished is waiting, from worker g on; the earlier ones are done. */
  ghost predicate UpTo(s: State, r: nat, g: nat) {
    && !s.flagPaused && r < |s.runs| && |s.runs[r].phases| == 10
    && forall h :: 0 <= h < 10 ==>
         s.runs[r].phases[h] == Done || (h >= g && s.runs[r].phases[h] == Waiting)
  }

  lemma {:induction false} WorkersComplete(s: State, r: nat, g: nat, bucket: Buckets)
    requires UpTo(s, r, g)
    ensures var t := Exec(s, AllSteps(r, g), bucket);
            r < |t.runs| && AllDone(t.runs[r]) && t.dbPaused == s.dbPaused && t.document == s.document
    decreases 10 - g
  {
    if g < 10 {
      ExecOfConcat(s, WorkerSteps(r, g), AllSteps(r, g + 1), bucket);
      var t := Exec(s, WorkerSteps(r, g), bucket);
      OneWorkerOn(s, r, g, bucket);
      hide Exec, Step;
      WorkersComplete(t, r, g + 1, bucket);
    }
  }

  lemma OneWorkerOn(s: State, r: nat, g: nat, bucket: Buckets)
    requires UpTo(s, r, g) && g < 10
    ensures var t := Exec(s, WorkerSteps(r, g), bucket);
            UpTo(t, r, g + 1) && t.dbPaused == s.dbPaused && t.document == s.document
  {
    if s.runs[r].phases[g] == Waiting {
      WorkerCompletes(s, r, g, bucket);
      hide Exec, Step;
    } else {
      ThreeSteps(s, Check(r, g), LoadIndex(r, g), Commit(r, g), bucket);
      hide Exec;
    }
  }

  /** A run started in a quiet state with no pause, and left alone, completes the document; by then every segment has
      been loaded exactly once. */
  lemma UndisturbedRunCompletes(s: State, bucket: Buckets)
    requires Inv(s, bucket) && Quiet(s) && s.document == Indexing && !s.dbPaused && !s.flagPaused
    ensures var t := Exec(s, [StartRun] + AllSteps(|s.runs|, 0) + [Finish(|s.runs|)], bucket);
            t.document == Completed && FullyIndexed(t)
  {
    var r := |s.runs|;
    var steps := AllSteps(r, 0);
    var s1 := Step(s, StartRun, bucket);
    assert s1.runs[r] == NewRun(Pending(s), bucket);
    StartKeepsInv(s, bucket);
    assert UpTo(s1, r, 0) && s1.document == Indexing && !s1.dbPaused;
    WorkersComplete(s1, r, 0, bucket);
    NoStartsAmong(r, 0);
    StartingNothingIsDisciplined(s1, steps, bucket);
    DisciplinedKeepsInv(s1, steps, bucket);
    var s2 := Exec(s1, steps, bucket);
    hide *;
    var t := Step(s2, Finish(r), bucket);
    FinishExactly(s2, r, bucket);
    StepKeepsInv(s2, Finish(r), bucket);
    InvIsSafe(t, bucket);
    assert Exec(s, [StartRun] + steps + [Finish(r)], bucket) == t by {
      ExecOfAppend(s, [StartRun] + steps, Finish(r), bucket);
      ExecOfConcat(s, [StartRun], steps, bucket);
      ExecOfAppend(s, [], StartRun, bucket);
      NothingExecuted(s, bucket);
      assert [] + [StartRun] == [StartRun];
    }
    CompletedRun(s2, r);
  }

  lemma CompletedRun(s: State, r: nat)
    requires r < |s.runs| && AllDone(s.runs[r])
    ensures forall g :: 0 <= g < |s.runs[r].phases| ==> s.runs[r].phases[g] == Done
  {
  }

  lemma {:induction false} NoStartsAmong(r: nat, g: nat)
    ensures forall i :: 0 <= i < |AllSteps(r, g)| ==> !AllSteps(r, g)[i].StartRun?
    decreases 10 - g
  {
    if g < 10 { NoStartsAmong(r, g + 1); }
  }

  // ---------- Overlapping runs ----------

  lemma ExecOfAppend(s: State, actions: seq<Action>, a: Action, bucket: Buckets)
    ensures Exec(s, actions + [a], bucket) == Step(Exec(s, actions, bucket), a, bucket)
  {
    hide Step;
    assert (actions + [a])[..|actions|] == actions;
  }

  /** Some continuation that starts no further run too early loads a segment twice. */
  ghost predicate CanDoubleLoad(s: State, bucket: Buckets) {
    exists rest :: Disciplined(s, rest, bucket) && !AtMostOnce(Exec(s, rest, bucket))
  }

  /** Pausing and recovering clears the flag and changes nothing else the workers see. */
  lemma Recovered(s: State, bucket: Buckets)
    requires s.document == Indexing
    ensures Exec(s, [MarkPaused, ClearPaused, UnflagPaused], bucket) == s.(dbPaused := false, flagPaused := false)
  {
    ExecOfAppend(s, [], MarkPaused, bucket);
    ExecOfAppend(s, [MarkPaused], ClearPaused, bucket);
    ExecOfAppend(s, [MarkPaused, ClearPaused], UnflagPaused, bucket);
    assert [] + [MarkPaused] == [MarkPaused] && [MarkPaused] + [ClearPaused] == [MarkPaused, ClearPaused];
    assert [MarkPaused, ClearPaused] + [UnflagPaused] == [MarkPaused, ClearPaused, UnflagPaused];
  }

  /** With the flag clear, a worker that has not loaded yet can go on to load every segment of its group. */
  lemma WorkerLoads(s: State, r: nat, g: nat, bucket: Buckets, n: string) returns (rest: seq<Action>)
    requires !s.flagPaused && (InPhase(s, r, g, Waiting) || InPhase(s, r, g, Checked))
    requires n in s.loads && n in Group(s.runs[r].docs, bucket, g)
    ensures forall i :: 0 <= i < |rest| ==> !rest[i].StartRun?
    ensures var t := Exec(s, rest, bucket);
            n in t.loads && t.loads[n] == s.loads[n] + 1 && !t.flagPaused
            && |t.runs| == |s.runs| && forall q :: 0 <= q < |s.runs| && q != r ==> t.runs[q] == s.runs[q]
  {
    hide Step, Exec, Group;
    NothingExecuted(s, bucket);
    ExecOfAppend(s, [], if InPhase(s, r, g, Waiting) then Check(r, g) else LoadIndex(r, g), bucket);
    if InPhase(s, r, g, Waiting) {
      rest := [Check(r, g), LoadIndex(r, g)];
      assert [] + [Check(r, g)] == [Check(r, g)] && [Check(r, g)] + [LoadIndex(r, g)] == rest;
      ExecOfAppend(s, [Check(r, g)], LoadIndex(r, g), bucket);
      CheckPasses(s, r, g, bucket);
      LoadCounts(Step(s, Check(r, g), bucket), r, g, bucket, n);
    } else {
      rest := [LoadIndex(r, g)];
      assert [] + [LoadIndex(r, g)] == rest;
      LoadCounts(s, r, g, bucket, n);
    }
  }

  /** The steps of one worker leave the flag and the other runs alone. */
  ghost predicate OnlyRun(s: State, t: State, r: nat) {
    t.flagPaused == s.flagPaused && |t.runs| == |s.runs|
    && forall q :: 0 <= q < |s.runs| && q != r ==> t.runs[q] == s.runs[q]
  }

  lemma CheckPasses(s: State, r: nat, g: nat, bucket: Buckets)
    requires !s.flagPaused && InPhase(s, r, g, Waiting)
    ensures var t := Step(s, Check(r, g), bucket);
            InPhase(t, r, g, Checked) && t.runs[r].docs == s.runs[r].docs && t.loads == s.loads && OnlyRun(s, t, r)
  {
  }

  lemma LoadCounts(s: State, r: nat, g: nat, bucket: Buckets, n: string)
    requires InPhase(s, r, g, Checked) && n in s.loads && n in Group(s.runs[r].docs, bucket, g)
    ensures var t := Step(s, LoadIndex(r, g), bucket);
            n in t.loads && t.loads[n] == s.loads[n] + 1 && OnlyRun(s, t, r)
  {
    hide Group;
  }

  lemma {:induction false} ExecOfConcat(s: State, a: seq<Action>, b: seq<Action>, bucket: Buckets)
    ensures Exec(s, a + b, bucket) == Exec(Exec(s, a, bucket), b, bucket)
  {
    hide *;
    if b == [] {
      assert a + b == a;
      NothingExecuted(Exec(s, a, bucket), bucket);
    } else {
      var n := |b| - 1;
      ExecOfConcat(s, a, b[..n], bucket);
      ExecOfAppend(s, a + b[..n], b[n], bucket);
      ExecOfAppend(Exec(s, a, bucket), b[..n], b[n], bucket);
      assert b == b[..n] + [b[n]] && a + b == a + b[..n] + [b[n]];
    }
  }

  lemma NothingExecuted(s: State, bucket: Buckets)
    ensures Exec(s, [], bucket) == s
  {
  }

  lemma StartingNothingIsDisciplined(s: State, actions: seq<Action>, bucket: Buckets)
    requires forall i :: 0 <= i < |actions| ==> !actions[i].StartRun?
    ensures Disciplined(s, actions, bucket)
  {
  }

  /** Two workers of different runs that hold the same segment can both load it. */
  lemma BothLoad(t: State, bucket: Buckets, r: nat, q: nat, g: nat, n: string)
    requires r != q && q < |t.runs| && t.document == Indexing && n in t.loads
    requires InPhase(t, q, g, Waiting) && n in Group(t.runs[q].docs, bucket, g)
    requires t.loads[n] >= 1 || ((InPhase(t, r, g, Waiting) || InPhase(t, r, g, Checked))
                                 && n in Group(t.runs[r].docs, bucket, g))
    ensures CanDoubleLoad(t, bucket)
  {
    hide Step, Group, Exec, Disciplined;
    Recovered(t, bucket);
    var resume := [MarkPaused, ClearPaused, UnflagPaused];
    var t0 := t.(dbPaused := false, flagPaused := false);
    var first: seq<Action> := [];
    if t.loads[n] == 0 {
      first := WorkerLoads(t0, r, g, bucket, n);
    }
    var t1 := Exec(t0, first, bucket);
    assert first == [] ==> t1 == t0 by { NothingExecuted(t0, bucket); }
    assert t1.loads[n] >= 1 && t1.runs[q] == t.runs[q] && !t1.flagPaused;
    var second := WorkerLoads(t1, q, g, bucket, n);
    ExecOfConcat(t, resume, first, bucket);
    ExecOfConcat(t, resume + first, second, bucket);
    var rest := resume + first + second;
    assert forall i :: 0 <= i < |rest| ==> !rest[i].StartRun?;
    StartingNothingIsDisciplined(t, rest, bucket);
    assert Exec(t, rest, bucket).loads[n] >= 2;
  }

  /** A run started while a worker is at work takes over that worker's segments, and both load them. */
  lemma OverlapDoubleLoads(s: State, bucket: Buckets)
    requires Inv(s, bucket) && s.document == Indexing && !Quiet(s)
    ensures CanDoubleLoad(Step(s, StartRun, bucket), bucket)
  {
    var r, g :| 0 <= r < |s.runs| && 0 <= g < |s.runs[r].phases| && !Settled(s.runs[r].phases[g]);
    assert WellFormedRun(s.runs[r], bucket) && r == |s.runs| - 1;
    var n :| n in Group(s.runs[r].docs, bucket, g);
    assert SegmentInv(s, bucket, n);
    NewRunTakesOver(s, bucket, r, g, n);
    hide *;
    BothLoad(Step(s, StartRun, bucket), bucket, r, |s.runs|, g, n);
  }

  lemma NewRunTakesOver(s: State, bucket: Buckets, r: nat, g: nat, n: string)
    requires s.document == Indexing && n in s.segments && n in s.loads && s.segments[n] == SegmentIndexing
    requires r < |s.runs| && g < WORKERS && g < |s.runs[r].phases| && n in Group(s.runs[r].docs, bucket, g)
    requires s.loads[n] >= 1 || s.runs[r].phases[g] == Waiting || s.runs[r].phases[g] == Checked
    ensures var t, q := Step(s, StartRun, bucket), |s.runs|;
            && t.document == Indexing && n in t.loads && q < |t.runs| && r < |t.runs|
            && InPhase(t, q, g, Waiting) && n in Group(t.runs[q].docs, bucket, g)
            && (t.loads[n] >= 1 || ((InPhase(t, r, g, Waiting) || InPhase(t, r, g, Checked))
                                    && n in Group(t.runs[r].docs, bucket, g)))
  {
    var t, q := Step(s, StartRun, bucket), |s.runs|;
    assert t.runs[r] == s.runs[r] && t.runs[q] == NewRun(Pending(s), bucket);
    assert n in Group(t.runs[q].docs, bucket, g);
  }

  /** Starting a run lets some later step load a segment twice exactly when a worker is still at work. */
  lemma DoubleLoadExactlyOnOverlap(nodes: set<string>, actions: seq<Action>, bucket: Buckets)
    requires forall n :: n in nodes ==> bucket(n) < WORKERS
    requires Disciplined(Initial(nodes, bucket), actions, bucket)
    requires Exec(Initial(nodes, bucket), actions, bucket).document == Indexing
    ensures var s := Exec(Initial(nodes, bucket), actions, bucket);
            CanDoubleLoad(Step(s, StartRun, bucket), bucket) <==> !Quiet(s)
  {
    var s := Exec(Initial(nodes, bucket), actions, bucket);
    InitialInv(nodes, bucket);
    DisciplinedKeepsInv(Initial(nodes, bucket), actions, bucket);
    if Quiet(s) {
      StartKeepsInv(s, bucket);
      var t := Step(s, StartRun, bucket);
      forall rest | Disciplined(t, rest, bucket) ensures AtMostOnce(Exec(t, rest, bucket)) {
        DisciplinedKeepsInv(t, rest, bucket);
        InvIsSafe(Exec(t, rest, bucket), bucket);
      }
    } else {
      OverlapDoubleLoads(s, bucket);
    }
  }

  // ---------- The order of the workers ----------

  /** Segment statuses after the workers of these groups have committed, in this order. */
  function CommitAll(segments: map<string, SegmentStatus>, docs: set<string>, bucket: Buckets, order: seq<nat>)
    : map<string, SegmentStatus>
  {
    if order == [] then segments
    else Completing(CommitAll(segments, docs, bucket, order[..|order| - 1]), Group(docs, bucket, order[|order| - 1]))
  }

  lemma {:induction false} CommitAllByGroup(segments: map<string, SegmentStatus>, docs: set<string>, bucket: Buckets,
                                            order: seq<nat>)
    ensures CommitAll(segments, docs, bucket, order)
         == map n | n in segments ::
              if n in docs && bucket(n) in order && segments[n] == SegmentIndexing then SegmentCompleted
              else segments[n]
  {
    if order != [] {
      var k := |order| - 1;
      CommitAllByGroup(segments, docs, bucket, order[..k]);
      assert order == order[..k] + [order[k]];
    }
  }

  /** Final statuses are the same for every order in which the group workers commit. */
  lemma CommitOrderIsIrrelevant(segments: map<string, SegmentStatus>, docs: set<string>, bucket: Buckets,
                                order: seq<nat>, other: seq<nat>)
    requires multiset(order) == multiset(other)
    ensures CommitAll(segments, docs, bucket, order) == CommitAll(segments, docs, bucket, other)
  {
    CommitAllByGroup(segments, docs, bucket, order);
    CommitAllByGroup(segments, docs, bucket, other);
    forall g ensures g in order <==> g in other {
      assert g in multiset(order) <==> g in multiset(other);
    }
  }

  // ---------- A run left alone ----------

  /** Two disjoint groups one after the other are one group. */
  lemma GroupsAddUp(segments: map<string, SegmentStatus>, loads: map<string, nat>, a: set<string>, b: set<string>)
    ensures Completing(segments, {}) == segments && Loading(loads, {}) == loads
    ensures Completing(Completing(segments, a), b) == Completing(segments, a + b)
    ensures a !! b ==> Loading(Loading(loads, a), b) == Loading(loads, a + b)
  {
  }

  lemma NextGroups(docs: set<string>, bucket: Buckets, g: nat)
    ensures Below(docs, bucket, 0) == {}
    ensures Below(docs, bucket, g + 1) == Below(docs, bucket, g) + Group(docs, bucket, g)
    ensures Below(docs, bucket, g) !! Group(docs, bucket, g)
  {
  }

  lemma AllOf(segments: map<string, SegmentStatus>, loads: map<string, nat>, docs: set<string>)
    requires segments.Keys == loads.Keys && docs == set n | n in segments && segments[n] != SegmentCompleted
    ensures var after, loaded := Completing(segments, docs), Loading(loads, docs);
            && after.Keys == segments.Keys && loaded.Keys == loads.Keys
            && forall n :: n in after ==>
                 && after[n] == SegmentCompleted
                 && loaded[n] == loads[n] + if segments[n] == SegmentCompleted then 0 else 1
  {
  }

  /** The documents of the groups before g. */
  function Below(docs: set<string>, bucket: Buckets, g: nat): set<string> {
    set n | n in docs && bucket(n) < g
  }

  /** One document's rows and flags, changed in place. */
  class IndexedDocument {
    var segments: map<string, SegmentStatus>
    var loads: map<string, nat>
    var dbPaused: bool
    var flagPaused: bool
    var document: DocumentStatus

    constructor (nodes: set<string>)
      ensures segments == (map n | n in nodes :: SegmentIndexing) && loads == (map n | n in nodes :: 0)
      ensures !dbPaused && !flagPaused && document == Indexing
    {
      segments := map n | n in nodes :: SegmentIndexing;
      loads := map n | n in nodes :: 0;
      dbPaused, flagPaused, document := false, false, Indexing;
    }

    /** `_process_chunk`: all of a group or, when the flag is set, none of it. */
    method ProcessChunk(group: set<string>) returns (paused: bool)
      modifies this`segments, this`loads
      ensures paused == flagPaused
      ensures segments == if paused then old(segments) else Completing(old(segments), group)
      ensures loads == if paused then old(loads) else Loading(old(loads), group)
    {
      if flagPaused { return true; }
      loads := map n | n in loads :: if n in group then loads[n] + 1 else loads[n];
      segments := map n | n in segments ::
        if n in group && segments[n] == SegmentIndexing then SegmentCompleted else segments[n];
      return false;
    }

    /** `_load`: the groups one after the other, then the document's status. */
    method Load(docs: set<string>, bucket: Buckets) returns (paused: bool)
      requires forall n :: n in docs ==> bucket(n) < WORKERS
      modifies this`segments, this`loads, this`document
      ensures segments == if flagPaused then old(segments) else Completing(old(segments), docs)
      ensures loads == if flagPaused then old(loads) else Loading(old(loads), docs)
      ensures paused <==> dbPaused || (flagPaused && docs != {})
      ensures document == if paused then old(document) else Completed
    {
      assert Below(docs, bucket, WORKERS) == docs;
      hide Below, Group, Completing, Loading;
      NextGroups(docs, bucket, 0);
      GroupsAddUp(segments, loads, {}, {});
      var stopped := false;
      for g := 0 to WORKERS
        invariant segments == if flagPaused then old(segments) else Completing(old(segments), Below(docs, bucket, g))
        invariant loads == if flagPaused then old(loads) else Loading(old(loads), Below(docs, bucket, g))
        invariant document == old(document)
        invariant stopped <==> flagPaused && Below(docs, bucket, g) != {}
      {
        NextGroups(docs, bucket, g);
        GroupsAddUp(old(segments), old(loads), Below(docs, bucket, g), Group(docs, bucket, g));
        if Group(docs, bucket, g) != {} {
          var raised := ProcessChunk(Group(docs, bucket, g));
          stopped := stopped || raised;
        }
      }
      if stopped || dbPaused { return true; }
      document := Completed;
      return false;
    }

    /** `run_in_indexing_status` with nothing in between. A set flag stops it before it changes anything;
        otherwise it loads exactly the segments that were not COMPLETED, once each, and completes them all.
        The document follows unless it is paused. */
    method RunInIndexingStatus(bucket: Buckets) returns (paused: bool)
      requires segments.Keys == loads.Keys && forall n :: n in segments ==> bucket(n) < WORKERS
      modifies this`segments, this`loads, this`document
      ensures segments.Keys == old(segments.Keys) && loads.Keys == old(loads.Keys)
      ensures paused <==>
                dbPaused || (flagPaused && exists n :: n in old(segments) && old(segments)[n] != SegmentCompleted)
      ensures document == if paused then old(document) else Completed
      ensures flagPaused ==> segments == old(segments) && loads == old(loads)
      ensures !flagPaused ==> forall n :: n in segments ==>
                && segments[n] == SegmentCompleted
                && loads[n] == old(loads)[n] + if old(segments)[n] == SegmentCompleted then 0 else 1
    {
      hide Completing, Loading;
      var docs := set n | n in segments && segments[n] != SegmentCompleted;
      assert forall n :: n in segments && segments[n] != SegmentCompleted ==> n in docs;
      AllOf(segments, loads, docs);
      paused := Load(docs, bucket);
    }
  }
}
