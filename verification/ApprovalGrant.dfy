/**
 Approval grants of the device flow: minted with an expiry, verified by any number of
 verifiers whose clocks disagree, and consumed through a nonce key in Redis.

 `now` is the Redis server's clock. A minter or verifier reads `now + offset` with an
 offset between 0 and `skew`, so any two clocks differ by at most `skew`. Verification
 follows the `exp` rule of section 4.1.4 of RFC 7519: the reading must be before `exp`.
 JWT encodes `exp` in whole seconds, rounding down.
 */
module ApprovalGrant {

  const COOKIE_TTL: real := 300.0
  const NONCE_TTL: real := 600.0

  datatype Pending = Pending(nonce: string, verifiedAt: real)

  /** `uses` counts successful consumptions of each nonce. */
  datatype State = State(
    now: real,
    grants: map<string, real>,
    nonceKeys: map<string, real>,
    pending: map<nat, Pending>,
    uses: map<string, nat>)

  datatype Action =
    | Tick(elapsed: real)
    | Mint(nonce: string, offset: real)
    | Verify(v: nat, nonce: string, offset: real)
    | Consume(v: nat)

  const INITIAL := State(0.0, map[], map[], map[], map[])

  /** `exp` of a grant minted at a clock reading. */
  function Expiry(reading: real): real {
    (reading + COOKIE_TTL).Floor as real
  }

  predicate KeyLive(keys: map<string, real>, nonce: string, now: real) {
    nonce in keys && now < keys[nonce]
  }

  /** SET NX EX on the nonce key, refused outright for an empty nonce. */
  predicate CanConsume(keys: map<string, real>, nonce: string, now: real) {
    nonce != "" && !KeyLive(keys, nonce, now)
  }

  function Uses(s: State, nonce: string): nat {
    if nonce in s.uses then s.uses[nonce] else 0
  }

  /** One step of the system; an action that is not enabled changes nothing. */
  function Step(s: State, a: Action): State {
    match a
    case Tick(elapsed) => if elapsed >= 0.0 then s.(now := s.now + elapsed) else s
    case Mint(nonce, offset) =>
      // the nonce is random and never repeats
      if nonce == "" || nonce in s.grants then s
      else s.(grants := s.grants[nonce := Expiry(s.now + offset)])
    case Verify(v, nonce, offset) =>
      if v !in s.pending && nonce in s.grants && s.now + offset < s.grants[nonce]
      then s.(pending := s.pending[v := Pending(nonce, s.now)]) else s
    case Consume(v) =>
      if v !in s.pending then s
      else
        var nonce := s.pending[v].nonce;
        var rest := s.(pending := s.pending - {v});
        if CanConsume(s.nonceKeys, nonce, s.now) then
          rest.(nonceKeys := s.nonceKeys[nonce := s.now + NONCE_TTL], uses := s.uses[nonce := Uses(s, nonce) + 1])
        else rest
  }

  function Run(actions: seq<Action>): State {
    if actions == [] then INITIAL else Step(Run(actions[..|actions| - 1]), actions[|actions| - 1])
  }

  // ---------- Hypotheses and the property ----------

  predicate Skewed(a: Action, skew: real) {
    a.Mint? || a.Verify? ==> 0.0 <= a.offset <= skew
  }

  /** `delay` bounds the time from a successful verification to its consumption. */
  predicate Timely(s: State, delay: real) {
    forall v :: v in s.pending ==> s.now <= s.pending[v].verifiedAt + delay
  }

  ghost predicate Admissible(actions: seq<Action>, skew: real, delay: real) {
    && (forall i :: 0 <= i < |actions| ==> Skewed(actions[i], skew))
    && (forall i :: 0 <= i <= |actions| ==> Timely(Run(actions[..i]), delay))
  }

  predicate SingleUse(s: State) {
    forall nonce :: nonce in s.uses ==> s.uses[nonce] <= 1
  }

  ghost predicate AllRunsSingleUse(skew: real, delay: real) {
    forall actions :: Admissible(actions, skew, delay) ==> SingleUse(Run(actions))
  }

  // ---------- The invariant ----------

  ghost predicate Inv(s: State, skew: real) {
    && (forall n :: n in s.grants ==> n != "" && s.grants[n] <= s.now + skew + COOKIE_TTL)
    && (forall v :: v in s.pending ==>
          s.pending[v].nonce in s.grants && s.pending[v].verifiedAt < s.grants[s.pending[v].nonce])
    && s.nonceKeys.Keys == s.uses.Keys
    && (forall n :: n in s.uses ==>
          && n in s.grants
          && s.uses[n] == 1
          && s.grants[n] + NONCE_TTL - COOKIE_TTL - skew <= s.nonceKeys[n])
  }

  lemma StepKeepsInv(s: State, a: Action, skew: real, delay: real)
    requires Inv(s, skew) && Skewed(a, skew) && Timely(s, delay)
    requires skew + delay <= NONCE_TTL - COOKIE_TTL
    ensures Inv(Step(s, a), skew)
  {
    if a.Consume? && a.v in s.pending {
      // a nonce used before is still in Redis when a second verifier comes to consume it
      var nonce := s.pending[a.v].nonce;
      assert nonce in s.uses ==> KeyLive(s.nonceKeys, nonce, s.now);
    }
  }

  lemma {:induction false} AdmissibleRunsKeepInv(actions: seq<Action>, skew: real, delay: real)
    requires Admissible(actions, skew, delay) && skew + delay <= NONCE_TTL - COOKIE_TTL
    ensures Inv(Run(actions), skew)
  {
    if actions != [] {
      var n := |actions| - 1;
      var prior := actions[..n];
      forall i | 0 <= i <= n ensures Timely(Run(prior[..i]), delay) {
        assert prior[..i] == actions[..i];
      }
      AdmissibleRunsKeepInv(prior, skew, delay);
      assert prior[..n] == prior;
      StepKeepsInv(Run(prior), actions[n], skew, delay);
    }
  }

  /** What holds in every run, whatever the clocks and delays: a nonce has a key once it was used, and not before. */
  ghost predicate NonceInv(s: State) {
    && s.nonceKeys.Keys == s.uses.Keys
    && (forall n :: n in s.uses ==> s.uses[n] >= 1)
    && "" !in s.grants
    && forall v :: v in s.pending ==> s.pending[v].nonce in s.grants
  }

  lemma {:induction false} RunsKeepNonceInv(actions: seq<Action>)
    ensures NonceInv(Run(actions))
  {
    if actions != [] {
      RunsKeepNonceInv(actions[..|actions| - 1]);
    }
  }

  /** In every run, the first verifier to consume a grant is never refused. */
  lemma FirstConsumerWins(actions: seq<Action>, v: nat)
    requires v in Run(actions).pending && Uses(Run(actions), Run(actions).pending[v].nonce) == 0
    ensures Uses(Step(Run(actions), Consume(v)), Run(actions).pending[v].nonce) == 1
  {
    RunsKeepNonceInv(actions);
  }

  /** A grant is accepted by a verifier whose clock shows less than its expiry, 300 s after the minter's clock in whole
      seconds, and by no other. */
  lemma VerifiesExactlyBeforeExpiry(s: State, nonce: string, minted: real, elapsed: real, v: nat, read: real)
    requires nonce != "" && nonce !in s.grants && v !in s.pending && elapsed >= 0.0
    ensures var t := Step(Step(Step(s, Mint(nonce, minted)), Tick(elapsed)), Verify(v, nonce, read));
            && nonce in t.grants && t.grants[nonce] == (s.now + minted + 300.0).Floor as real
            && (v in t.pending <==> s.now + elapsed + read < (s.now + minted + 300.0).Floor as real)
            && (v in t.pending ==> t.pending[v].nonce == nonce)
  {
  }

  /** A consumption counts exactly when the nonce has no live key, and then writes one that lives for 600 s. */
  lemma ConsumesExactly(s: State, v: nat)
    requires v in s.pending && s.pending[v].nonce != ""
    ensures var t, nonce := Step(s, Consume(v)), s.pending[v].nonce;
            && v !in t.pending
            && (if nonce in s.nonceKeys && s.now < s.nonceKeys[nonce] then
                  t.nonceKeys == s.nonceKeys && t.uses == s.uses
                else
                  t.nonceKeys == s.nonceKeys[nonce := s.now + 600.0] && Uses(t, nonce) == Uses(s, nonce) + 1)
  {
  }

  // ---------- The bound is exact ----------

  ghost predicate Reach(s: State, skew: real, delay: real) {
    exists actions :: Admissible(actions, skew, delay) && Run(actions) == s
  }

  lemma Begin(skew: real, delay: real)
    ensures Reach(INITIAL, skew, delay)
  {
    assert Run([]) == INITIAL && Admissible([], skew, delay);
  }

  lemma Advance(s: State, a: Action, t: State, skew: real, delay: real)
    requires Reach(s, skew, delay)
    requires Skewed(a, skew) && Step(s, a) == t && Timely(t, delay)
    ensures Reach(t, skew, delay)
  {
    var actions :| Admissible(actions, skew, delay) && Run(actions) == s;
    var longer := actions + [a];
    assert longer[..|actions|] == actions;
    forall i | 0 <= i <= |longer| ensures Timely(Run(longer[..i]), delay) {
      if i <= |actions| {
        assert longer[..i] == actions[..i];
      } else {
        assert longer[..i] == longer;
      }
    }
    assert Admissible(longer, skew, delay) && Run(longer) == t;
  }

  lemma ReachedTwice(s: State, nonce: string, skew: real, delay: real)
    requires Reach(s, skew, delay) && nonce in s.uses && s.uses[nonce] == 2
    ensures !AllRunsSingleUse(skew, delay)
  {
  }

  /** A grant minted on the fastest clock, verified at the last moment on the slowest and
      consumed after the full delay, meets an expired nonce key. */
  lemma LateReplaySucceeds(skew: real, delay: real)
    requires skew >= 0.0 && delay >= 0.0 && skew + delay > NONCE_TTL - COOKIE_TTL
    ensures !AllRunsSingleUse(skew, delay)
  {
    hide Reach;
    // mint at a whole second of the fast clock, so that rounding costs nothing
    var m := (skew.Floor + 1) as real - skew;
    var exp := m + skew + COOKIE_TTL;
    assert exp == (skew.Floor + 301) as real;
    var late := exp - if delay <= 600.0 then skew + delay - 300.0 else skew + 300.0;
    assert m <= late < exp && m + NONCE_TTL <= late + delay;
    Begin(skew, delay);
    var s1 := INITIAL.(now := m);
    assert Reach(s1, skew, delay) by { Advance(INITIAL, Tick(m), s1, skew, delay); }
    var s2 := s1.(grants := map["n" := exp]);
    assert Reach(s2, skew, delay) by { Advance(s1, Mint("n", skew), s2, skew, delay); }
    var s3 := s2.(pending := map[0 := Pending("n", m)]);
    assert Reach(s3, skew, delay) by { Advance(s2, Verify(0, "n", 0.0), s3, skew, delay); }
    var s4 := s2.(nonceKeys := map["n" := m + NONCE_TTL], uses := map["n" := 1]);
    assert Reach(s4, skew, delay) by { Advance(s3, Consume(0), s4, skew, delay); }
    LateReplayTail(skew, delay, m, exp, late, s4);
  }

  lemma LateReplayTail(skew: real, delay: real, m: real, exp: real, late: real, s4: State)
    requires skew >= 0.0 && delay >= 0.0 && m <= late < exp && m + NONCE_TTL <= late + delay && Reach(s4, skew, delay)
    requires s4 == State(m, map["n" := exp], map["n" := m + NONCE_TTL], map[], map["n" := 1])
    ensures !AllRunsSingleUse(skew, delay)
  {
    hide Reach;
    var s5 := s4.(now := late);
    assert Reach(s5, skew, delay) by { Advance(s4, Tick(late - m), s5, skew, delay); }
    var s6 := s5.(pending := map[1 := Pending("n", late)]);
    assert Reach(s6, skew, delay) by { Advance(s5, Verify(1, "n", 0.0), s6, skew, delay); }
    var s7 := s6.(now := late + delay);
    assert Reach(s7, skew, delay) by { Advance(s6, Tick(delay), s7, skew, delay); }
    var s8 := State(late + delay, s4.grants, map["n" := late + delay + NONCE_TTL], map[], map["n" := 2]);
    assert Reach(s8, skew, delay) by { Advance(s7, Consume(1), s8, skew, delay); }
    ReachedTwice(s8, "n", skew, delay);
  }

  /** Every grant passes verify-then-consume at most once, for any number of verifiers,
      exactly when clock skew plus verify-to-consume delay is at most 300 s. */
  lemma SingleUseExactlyWithinMargin(skew: real, delay: real)
    requires skew >= 0.0 && delay >= 0.0
    ensures AllRunsSingleUse(skew, delay) <==> skew + delay <= 300.0
  {
    if skew + delay <= 300.0 {
      forall actions | Admissible(actions, skew, delay) ensures SingleUse(Run(actions)) {
        AdmissibleRunsKeepInv(actions, skew, delay);
      }
    } else {
      LateReplaySucceeds(skew, delay);
    }
  }

  /** The nonce keys as the code sees them: a shared store changed in place. */
  class NonceStore {
    var keys: map<string, real>

    constructor ()
      ensures keys == map[]
    { keys := map[]; }

    /** `consume_approval_grant_nonce` at server time `now`. */
    method ConsumeNonce(nonce: string, now: real) returns (accepted: bool)
      modifies this
      ensures accepted <==> nonce != "" && !(nonce in old(keys) && now < old(keys)[nonce])
      ensures accepted ==> nonce in keys && keys[nonce] == now + 600.0
      ensures keys - {nonce} == old(keys) - {nonce}
      ensures !accepted ==> keys == old(keys)
    {
      if nonce == "" {
        return false;
      }
      if nonce in keys && now < keys[nonce] {
        return false;
      }
      keys := keys[nonce := now + NONCE_TTL];
      return true;
    }
  }
}
