/**
 Which trees can complete normally, so that a method with such a body can end without a return.
 The answer is read off the tree; it is exact for the runs of the fragment.
 */
module LintEndings {
  import opened Options
  import opened LintSyntax
  import opened LintAnalysis
  import opened LintRuntime

  /** Completing normally, or breaking out of the enclosing loop. */
  datatype Exit = Completing | Breaking

  predicate Is(flow: Flow, e: Exit) {
    if e.Completing? then flow.Next? else flow.Broke?
  }

  // ---------- What the tree allows ----------

  /** The exit of the node's own effect, if it has one of these two. */
  function Own(tag: Tag): Option<Exit> {
    match tag
    case Return(_) => None
    case Raise => None
    case Continue => None
    case Break => Some(Breaking)
    case _ => Some(Completing)
  }

  predicate Can(n: Node, e: Exit)
    decreases n, 3, 0
  {
    match n.tag
    case Scope(_) => e.Completing?
    case NoneConst => e.Completing?
    case EmptyConst => e.Completing?
    case OtherConst => e.Completing?
    case VariableDump(_) => CanInOrder(n, 0, e)
    case ModelCall(_) => CanInOrder(n, 0, e)
    case DumpResponse(_) => CanInOrder(n, 0, e)
    case Block => CanInOrder(n, 0, e)
    case Handler(_) => CanInOrder(n, 0, e)
    case Branch =>
      After(CanAt(n, 0, Completing), CanAt(n, 0, Breaking), e,
            if |n.kids| <= 1 then e.Completing? else exists i :: 1 <= i < |n.kids| && Can(n.kids[i], e))
    case Loop(_, endless) =>
      After(CanAt(n, 0, Completing), CanAt(n, 0, Breaking), e,
            (!endless && CanAt(n, 2, e)) || (e.Completing? && CanAt(n, 1, Breaking)))
    case Try =>
      || After(CanAt(n, 0, Completing), CanAt(n, 0, Breaking), e,
               if |n.kids| <= 1 then e.Completing? else CanAt(n, |n.kids| - 1, e))
      || (n.kids != [] && CanDispatch(n, 1, e))
    case Finally => (CanAt(n, 0, e) && CanAt(n, 1, Completing)) || (n.kids != [] && e.Breaking? && CanAt(n, 1, e))
    case With(_, swallows) =>
      After(CanAt(n, 0, Completing), CanAt(n, 0, Breaking), e,
            CanInOrder(n, 1, e) || (swallows && |n.kids| > 1 && e.Completing?))
    case Control => CanStep(n, e)
    case Dict => CanStep(n, e)
    case List => CanStep(n, e)
    case _ => (CanInOrder(n, 0, Completing) && Own(n.tag) == Some(e)) || (e.Breaking? && CanInOrder(n, 0, Breaking))
  }

  /** A first part, then the rest: the rest exits so, or the first part already breaks. */
  predicate After(completes: bool, breaks: bool, e: Exit, rest: bool) {
    (completes && rest) || (e.Breaking? && breaks)
  }

  predicate CanAt(n: Node, i: nat, e: Exit)
    decreases n, 0, 0
  {
    if i < |n.kids| then Can(n.kids[i], e) else e.Completing?
  }

  predicate CanInOrder(n: Node, i: nat, e: Exit)
    decreases n, 0, if i < |n.kids| then |n.kids| - i else 0
  {
    if i >= |n.kids| then e.Completing?
    else After(Can(n.kids[i], Completing), Can(n.kids[i], Breaking), e, CanInOrder(n, i + 1, e))
  }

  predicate CanDispatch(n: Node, j: nat, e: Exit)
    decreases n, 1, if j < |n.kids| then |n.kids| - j else 0
  {
    j + 1 < |n.kids| &&
    if !n.kids[j].tag.Handler? then CanDispatch(n, j + 1, e)
    else After(CanAt(n.kids[j], 0, Completing), CanAt(n.kids[j], 0, Breaking), e,
               CanInOrder(n.kids[j], 1, e) || CanDispatch(n, j + 1, e))
  }

  predicate CanStep(n: Node, e: Exit)
    decreases n, 2, 0
  {
    e.Completing? || exists i :: 0 <= i < |n.kids| && Can(n.kids[i], e)
  }

  // ---------- No run exits otherwise ----------

  /** A flow that is one of the two exits is one the predicate allows. */
  predicate Allowed(flow: Flow, completing: bool, breaking: bool) {
    (flow.Next? ==> completing) && (flow.Broke? ==> breaking)
  }

  lemma {:induction false} ExitIsForeseen(n: Node, env: Env, c: Choice)
    ensures Allowed(Exec(n, env, c).flow, Can(n, Completing), Can(n, Breaking))
    decreases n, 3, 0
  {
    hide Operate, Choose, Iterate, Attempt, Finish, Manage, InOrder, Steps, Forget, Rebind;
    hide CanAt, CanInOrder, CanDispatch, CanStep;
    if c.pick != RAISE {
      match n.tag
      case Scope(_) =>
      case NoneConst =>
      case EmptyConst =>
      case OtherConst =>
      case VariableDump(_) => OrderIsForeseen(n, 0, env, c);
      case ModelCall(_) => OrderIsForeseen(n, 0, env, c);
      case DumpResponse(_) => OrderIsForeseen(n, 0, env, c);
      case Block => OrderIsForeseen(n, 0, env, c);
      case Handler(_) => OrderIsForeseen(n, 0, Rebind(n, env), c);
      case Branch => ChoiceIsForeseen(n, env, c);
      case Loop(_, _) => LoopIsForeseen(n, env, c.subs);
      case Try => TryIsForeseen(n, env, c);
      case Finally => FinallyIsForeseen(n, env, c);
      case With(_, _) => WithIsForeseen(n, env, c);
      case Control => StepsAreForeseen(n, env, c.subs);
      case Dict => StepsAreForeseen(n, env, c.subs);
      case List => StepsAreForeseen(n, env, c.subs);
      case _ => OperationIsForeseen(n, env, c);
    }
  }

  lemma {:induction false} KidIsForeseen(n: Node, i: nat, env: Env, c: Choice)
    ensures Allowed(At(n, i, env, c).flow, CanAt(n, i, Completing), CanAt(n, i, Breaking))
    decreases n, 0, 0
  {
    hide Exec, Can;
    if i < |n.kids| { ExitIsForeseen(n.kids[i], env, c); }
  }

  lemma {:induction false} OrderIsForeseen(n: Node, i: nat, env: Env, c: Choice)
    ensures Allowed(InOrder(n, i, env, c).flow, CanInOrder(n, i, Completing), CanInOrder(n, i, Breaking))
    decreases n, 0, if i < |n.kids| then |n.kids| - i else 0
  {
    hide Exec, Can;
    if i < |n.kids| {
      ExitIsForeseen(n.kids[i], env, Sub(c, i));
      OrderIsForeseen(n, i + 1, Exec(n.kids[i], env, Sub(c, i)).env, c);
    }
  }

  lemma {:induction false} OperationIsForeseen(n: Node, env: Env, c: Choice)
    requires Operates(n.tag)
    ensures Allowed(Operate(n, env, c).flow, Can(n, Completing), Can(n, Breaking))
    decreases n, 2, 0
  {
    OwnExit(n);
    var v := OperateFollowsOrder(n, env, c);
    hide Operate, InOrder, CanInOrder;
    OrderIsForeseen(n, 0, env, c);
  }

  lemma OwnExit(n: Node)
    requires Operates(n.tag)
    ensures forall v: Value, env: Env, e: Exit :: Is(Complete(n, v, env).flow, e) ==> Own(n.tag) == Some(e)
  {
  }

  /** The node's own effect follows the run of its children. */
  lemma OperateFollowsOrder(n: Node, env: Env, c: Choice) returns (v: Value)
    ensures Operate(n, env, c) == var o := InOrder(n, 0, env, c);
                                  if o.flow.Next? then Complete(n, v, o.env) else o
  {
    hide Exec, Complete;
    var first := At(n, 0, env, Sub(c, 0));
    v := first.value;
    if n.kids == [] {
      assert InOrder(n, 0, env, c) == Plainly(env) && InOrder(n, 1, env, c) == Plainly(env);
    } else {
      assert first == Exec(n.kids[0], env, Sub(c, 0));
      assert first.flow.Next? ==> InOrder(n, 0, env, c) == InOrder(n, 1, first.env, c);
    }
  }

  lemma {:induction false} ChoiceIsForeseen(n: Node, env: Env, c: Choice)
    requires n.tag.Branch?
    ensures Allowed(Choose(n, env, c).flow, Can(n, Completing), Can(n, Breaking))
    decreases n, 2, 0
  {
    hide Exec, At, CanAt;
    KidIsForeseen(n, 0, env, Sub(c, 0));
    var test := At(n, 0, env, Sub(c, 0));
    if test.flow.Next? && |n.kids| > 1 {
      ExitIsForeseen(n.kids[1 + Sub(c, 1).pick % (|n.kids| - 1)], test.env, Sub(c, 2));
    }
  }

  lemma {:induction false} LoopIsForeseen(n: Node, env: Env, cs: seq<Choice>)
    requires n.tag.Loop?
    ensures Allowed(Iterate(n, env, cs).flow, Can(n, Completing), Can(n, Breaking))
    decreases n, 2, |cs|
  {
    hide At, CanAt, Rebind;
    if cs != [] {
      KidIsForeseen(n, 0, env, Sub(cs[0], 0));
      var test := At(n, 0, env, Sub(cs[0], 0));
      KidIsForeseen(n, 2, test.env, Sub(cs[0], 1));
      KidIsForeseen(n, 1, Rebind(n, test.env), Sub(cs[0], 1));
      LoopIsForeseen(n, At(n, 1, Rebind(n, test.env), Sub(cs[0], 1)).env, cs[1..]);
    }
  }

  lemma {:induction false} TryIsForeseen(n: Node, env: Env, c: Choice)
    requires n.tag.Try?
    ensures Allowed(Attempt(n, env, c).flow, Can(n, Completing), Can(n, Breaking))
    decreases n, 2, 0
  {
    assert n.kids == [] ==> At(n, 0, env, Sub(c, 0)) == Plainly(env);
    hide At, CanAt, Dispatch, CanDispatch;
    KidIsForeseen(n, 0, env, Sub(c, 0));
    var body := At(n, 0, env, Sub(c, 0));
    DispatchIsForeseen(n, 1, body.env, Sub(c, 1));
    if |n.kids| > 1 { KidIsForeseen(n, |n.kids| - 1, body.env, Sub(c, 2)); }
  }

  lemma {:induction false} DispatchIsForeseen(n: Node, j: nat, env: Env, c: Choice)
    ensures Allowed(Dispatch(n, j, env, c).flow, CanDispatch(n, j, Completing), CanDispatch(n, j, Breaking))
    decreases n, 1, if j < |n.kids| then |n.kids| - j else 0
  {
    hide At, CanAt, InOrder, CanInOrder, Rebind;
    if j + 1 < |n.kids| {
      var h := n.kids[j];
      if !h.tag.Handler? {
        DispatchIsForeseen(n, j + 1, env, c);
      } else {
        KidIsForeseen(h, 0, env, Sub(Sub(c, j), 0));
        var kind := At(h, 0, env, Sub(Sub(c, j), 0));
        OrderIsForeseen(h, 1, Rebind(h, kind.env), Sub(Sub(c, j), 1));
        DispatchIsForeseen(n, j + 1, kind.env, c);
      }
    }
  }

  lemma {:induction false} FinallyIsForeseen(n: Node, env: Env, c: Choice)
    requires n.tag.Finally?
    ensures Allowed(Finish(n, env, c).flow, Can(n, Completing), Can(n, Breaking))
    decreases n, 2, 0
  {
    assert n.kids == [] ==> forall e: Env, d: Choice :: At(n, 1, e, d) == Plainly(e);
    hide At, CanAt;
    KidIsForeseen(n, 0, env, Sub(c, 0));
    KidIsForeseen(n, 1, At(n, 0, env, Sub(c, 0)).env, Sub(c, 1));
  }

  lemma {:induction false} WithIsForeseen(n: Node, env: Env, c: Choice)
    requires n.tag.With?
    ensures Allowed(Manage(n, env, c).flow, Can(n, Completing), Can(n, Breaking))
    decreases n, 2, 0
  {
    assert |n.kids| <= 1 ==> forall e: Env :: InOrder(n, 1, e, c) == Plainly(e);
    hide At, CanAt, InOrder, CanInOrder, Rebind;
    KidIsForeseen(n, 0, env, Sub(c, 0));
    var manager := At(n, 0, env, Sub(c, 0));
    OrderIsForeseen(n, 1, Rebind(n, manager.env), c);
  }

  lemma {:induction false} StepsAreForeseen(n: Node, env: Env, cs: seq<Choice>)
    ensures Allowed(Steps(n, env, cs).flow, CanStep(n, Completing), CanStep(n, Breaking))
    decreases n, 2, |cs|
  {
    hide Exec, Can;
    if cs != [] && n.kids != [] {
      var i := cs[0].pick % |n.kids|;
      ExitIsForeseen(n.kids[i], env, Sub(cs[0], 0));
      StepsAreForeseen(n, Exec(n.kids[i], env, Sub(cs[0], 0)).env, cs[1..]);
    }
  }

  // ---------- Every allowed exit is taken by some run ----------

  /** The names a node dumps; a dump of an unbound name raises. */
  ghost function Needs(n: Node): set<string> {
    (if n.tag.VariableDump? then {n.tag.x} else {})
    + set i, x | 0 <= i < |n.kids| && x in Needs(n.kids[i]) :: x
  }

  /** The outcome exits so and unbinds nothing. */
  predicate Exits(o: Outcome, e: Exit, env: Env) {
    Is(o.flow, e) && env.Keys <= o.env.Keys
  }

  lemma KidNeeds(n: Node, i: nat, env: Env)
    requires i < |n.kids| && Needs(n) <= env.Keys
    ensures Needs(n.kids[i]) <= env.Keys
  {
    assert Needs(n.kids[i]) <= Needs(n);
  }

  lemma RebindBinds(n: Node, env: Env)
    ensures env.Keys <= Rebind(n, env).Keys
  {
  }

  lemma CompleteBinds(n: Node, v: Value, env: Env)
    requires Operates(n.tag) && Own(n.tag).Some?
    ensures Exits(Complete(n, v, env), Own(n.tag).value, env)
  {
    if n.tag.Assign? {
      forall x | x in env ensures x in BindAll(n.tag.targets, v, env) { BoundValue(n.tag.targets, v, env, x); }
    }
  }

  lemma {:induction false} ExitHappens(n: Node, e: Exit, env: Env) returns (c: Choice)
    requires Can(n, e) && Needs(n) <= env.Keys
    ensures Exits(Exec(n, env, c), e, env)
    decreases n, 3, 0
  {
    if n.tag.Branch? {
      c := ChoiceHappens(n, e, env);
    } else if n.tag.Loop? {
      c := LoopHappens(n, e, env);
    } else if n.tag.Try? {
      c := TryHappens(n, e, env);
    } else if n.tag.Finally? {
      c := FinallyHappens(n, e, env);
    } else if n.tag.With? {
      c := WithHappens(n, e, env);
    } else if n.tag.Control? || n.tag.Dict? || n.tag.List? {
      c := StepHappens(n, e, env);
    } else if Operates(n.tag) {
      c := OperationHappens(n, e, env);
    } else if n.tag.Scope? || n.tag.NoneConst? || n.tag.EmptyConst? || n.tag.OtherConst? {
      c := Choice(0, []);
    } else {
      c := SequenceHappens(n, e, env);
    }
  }

  lemma {:induction false} SequenceHappens(n: Node, e: Exit, env: Env) returns (c: Choice)
    requires Can(n, e) && Needs(n) <= env.Keys
    requires n.tag.VariableDump? || n.tag.ModelCall? || n.tag.DumpResponse? || n.tag.Block? || n.tag.Handler?
    ensures Exits(Exec(n, env, c), e, env)
    decreases n, 2, 0
  {
    assert n.tag.VariableDump? ==> n.tag.x in env;
    var start := if n.tag.Handler? then Rebind(n, env) else env;
    RebindBinds(n, env);
    assert CanInOrder(n, 0, e);
    hide Can, CanInOrder, InOrder, Rebind;
    c := OrderHappens(n, 0, e, start, []);
  }

  /** The children from i on, with the choices for the earlier ones given. */
  lemma {:induction false} OrderHappens(n: Node, i: nat, e: Exit, env: Env, prefix: seq<Choice>) returns (c: Choice)
    requires CanInOrder(n, i, e) && Needs(n) <= env.Keys && |prefix| == i
    ensures c.pick == 0 && i <= |c.subs| && c.subs[..i] == prefix
    ensures Exits(InOrder(n, i, env, c), e, env)
    decreases n, 1, if i < |n.kids| then |n.kids| - i else 0
  {
    hide Exec, Can, Needs;
    if i >= |n.kids| {
      c := Choice(0, prefix);
    } else {
      KidNeeds(n, i, env);
      if e.Breaking? && Can(n.kids[i], Breaking) {
        var first := ExitHappens(n.kids[i], Breaking, env);
        c := Choice(0, prefix + [first]);
        assert Sub(c, i) == first;
      } else {
        var first := ExitHappens(n.kids[i], Completing, env);
        var o := Exec(n.kids[i], env, first);
        c := OrderHappens(n, i + 1, e, o.env, prefix + [first]);
        assert Sub(c, i) == c.subs[..i + 1][i] == first;
        assert c.subs[..i] == c.subs[..i + 1][..i];
      }
    }
  }

  /** The i-th child, as a part of the node. */
  lemma {:induction false} KidHappens(n: Node, i: nat, e: Exit, env: Env) returns (c: Choice)
    requires CanAt(n, i, e) && Needs(n) <= env.Keys
    ensures Exits(At(n, i, env, c), e, env)
    decreases n, 0, 0
  {
    hide Exec, Can, Needs;
    if i < |n.kids| {
      KidNeeds(n, i, env);
      c := ExitHappens(n.kids[i], e, env);
    } else {
      c := Choice(0, []);
    }
  }

  lemma {:induction false} OperationHappens(n: Node, e: Exit, env: Env) returns (c: Choice)
    requires Can(n, e) && Needs(n) <= env.Keys && Operates(n.tag)
    ensures Exits(Exec(n, env, c), e, env)
    decreases n, 2, 0
  {
    hide CanInOrder, InOrder, Operate, Complete;
    if e.Breaking? && CanInOrder(n, 0, Breaking) {
      c := OrderHappens(n, 0, Breaking, env, []);
      var _ := OperateFollowsOrder(n, env, c);
    } else {
      c := OrderHappens(n, 0, Completing, env, []);
      var v := OperateFollowsOrder(n, env, c);
      CompleteBinds(n, v, InOrder(n, 0, env, c).env);
    }
  }

  lemma SmallModulus(k: nat, m: nat)
    requires k < m
    ensures k % m == k
  {
  }

  /** Taking alternative i. */
  lemma ChooseTakes(n: Node, i: nat, env: Env, test: Choice, taken: Choice)
    requires 1 <= i < |n.kids| && At(n, 0, env, test).flow.Next?
    ensures Choose(n, env, Choice(0, [test, Choice(i - 1, []), taken]))
         == Exec(n.kids[i], At(n, 0, env, test).env, taken)
  {
    hide Exec, At;
    var c := Choice(0, [test, Choice(i - 1, []), taken]);
    assert Sub(c, 0) == test && Sub(c, 1).pick == i - 1 && Sub(c, 2) == taken;
    SmallModulus(i - 1, |n.kids| - 1);
  }

  lemma {:induction false} ChoiceHappens(n: Node, e: Exit, env: Env) returns (c: Choice)
    requires Can(n, e) && Needs(n) <= env.Keys && n.tag.Branch?
    ensures Exits(Exec(n, env, c), e, env)
    decreases n, 2, 0
  {
    hide At, CanAt, Choose, Needs;
    if e.Breaking? && CanAt(n, 0, Breaking) {
      var test := KidHappens(n, 0, Breaking, env);
      c := Choice(0, [test]);
      ChooseStops(n, env, test);
    } else {
      var test := KidHappens(n, 0, Completing, env);
      if |n.kids| <= 1 {
        c := Choice(0, [test]);
        ChooseStops(n, env, test);
      } else {
        var i :| 1 <= i < |n.kids| && Can(n.kids[i], e);
        var o := At(n, 0, env, test);
        KidNeeds(n, i, o.env);
        var taken := ExitHappens(n.kids[i], e, o.env);
        c := Choice(0, [test, Choice(i - 1, []), taken]);
        ChooseTakes(n, i, env, test, taken);
      }
    }
  }

  lemma ChooseStops(n: Node, env: Env, test: Choice)
    requires !At(n, 0, env, test).flow.Next? || |n.kids| <= 1
    ensures Choose(n, env, Choice(0, [test])) == At(n, 0, env, test)
  {
    hide At;
    assert Sub(Choice(0, [test]), 0) == test;
  }

  /** One pass through the loop: the test, then the else clause or a break. */
  lemma IterateOnce(n: Node, env: Env, pick: nat, test: Choice, taken: Choice)
    requires n.tag.Loop?
    ensures var o := At(n, 0, env, test);
            var cs := [Choice(pick, [test, taken])];
            && (!o.flow.Next? ==> Iterate(n, env, cs) == o)
            && (o.flow.Next? && pick == 0 && !n.tag.endless ==> Iterate(n, env, cs) == At(n, 2, o.env, taken))
            && (o.flow.Next? && pick > 0 && At(n, 1, Rebind(n, o.env), taken).flow.Broke? ==>
                  Iterate(n, env, cs) == At(n, 1, Rebind(n, o.env), taken).(flow := Next))
  {
    hide At, Rebind;
    var c := Choice(pick, [test, taken]);
    assert Sub(c, 0) == test && Sub(c, 1) == taken;
  }

  lemma {:induction false} LoopHappens(n: Node, e: Exit, env: Env) returns (c: Choice)
    requires Can(n, e) && Needs(n) <= env.Keys && n.tag.Loop?
    ensures Exits(Exec(n, env, c), e, env)
    decreases n, 2, 0
  {
    hide At, CanAt, Iterate, Needs, Rebind;
    var test, taken, pick := Choice(0, []), Choice(0, []), 0;
    if e.Breaking? && CanAt(n, 0, Breaking) {
      test := KidHappens(n, 0, Breaking, env);
    } else {
      test := KidHappens(n, 0, Completing, env);
      var o := At(n, 0, env, test);
      if !n.tag.endless && CanAt(n, 2, e) {
        taken := KidHappens(n, 2, e, o.env);
      } else {
        RebindBinds(n, o.env);
        pick := 2;
        taken := KidHappens(n, 1, Breaking, Rebind(n, o.env));
      }
    }
    IterateOnce(n, env, pick, test, taken);
    c := Choice(0, [Choice(pick, [test, taken])]);
  }

  const RAISING := Choice(RAISE, [])

  lemma RaisingRaises(n: Node, env: Env)
    requires n.kids != []
    ensures At(n, 0, env, RAISING) == Outcome(env, Raised, Opaque)
  {
  }

  lemma {:induction false} TryHappens(n: Node, e: Exit, env: Env) returns (c: Choice)
    requires Can(n, e) && Needs(n) <= env.Keys && n.tag.Try?
    ensures Exits(Exec(n, env, c), e, env)
    decreases n, 2, 0
  {
    hide At, CanAt, Dispatch, CanDispatch, Needs;
    if n.kids != [] && CanDispatch(n, 1, e) {
      var handled := DispatchHappens(n, 1, e, env, [Choice(0, [])]);
      c := Choice(0, [RAISING, handled]);
      RaisingRaises(n, env);
      assert Sub(c, 0) == RAISING && Sub(c, 1) == handled;
    } else if e.Breaking? && CanAt(n, 0, Breaking) {
      var body := KidHappens(n, 0, Breaking, env);
      c := Choice(0, [body]);
      assert Sub(c, 0) == body;
    } else {
      var body := KidHappens(n, 0, Completing, env);
      var o := At(n, 0, env, body);
      var after := Choice(0, []);
      if |n.kids| > 1 { after := KidHappens(n, |n.kids| - 1, e, o.env); }
      c := Choice(0, [body, Choice(0, []), after]);
      assert Sub(c, 0) == body && Sub(c, 2) == after;
    }
  }

  /** The handlers from j on, with the choices for the earlier ones given. */
  lemma {:induction false} DispatchHappens(n: Node, j: nat, e: Exit, env: Env, prefix: seq<Choice>) returns (c: Choice)
    requires CanDispatch(n, j, e) && Needs(n) <= env.Keys && |prefix| == j
    ensures j <= |c.subs| && c.subs[..j] == prefix
    ensures Exits(Dispatch(n, j, env, c), e, env)
    decreases n, 1, if j < |n.kids| then |n.kids| - j else 0
  {
    hide At, CanAt, InOrder, CanInOrder, Needs, Rebind;
    var h := n.kids[j];
    if !h.tag.Handler? {
      c := DispatchHappens(n, j + 1, e, env, prefix + [Choice(0, [])]);
      assert c.subs[..j] == c.subs[..j + 1][..j];
    } else {
      KidNeeds(n, j, env);
      if e.Breaking? && CanAt(h, 0, Breaking) {
        var kind := KidHappens(h, 0, Breaking, env);
        c := Choice(0, prefix + [Choice(0, [kind])]);
        assert Sub(Sub(c, j), 0) == kind;
      } else {
        var kind := KidHappens(h, 0, Completing, env);
        var o := At(h, 0, env, kind);
        if CanInOrder(h, 1, e) {
          RebindBinds(h, o.env);
          var body := OrderHappens(h, 1, e, Rebind(h, o.env), [Choice(0, [])]);
          c := Choice(0, prefix + [Choice(0, [kind, body])]);
          assert Sub(Sub(c, j), 0) == kind && Sub(Sub(c, j), 1) == body;
        } else {
          c := DispatchHappens(n, j + 1, e, o.env, prefix + [Choice(2, [kind])]);
          assert Sub(c, j) == c.subs[..j + 1][j] == Choice(2, [kind]);
          assert c.subs[..j] == c.subs[..j + 1][..j];
        }
      }
    }
  }

  lemma {:induction false} FinallyHappens(n: Node, e: Exit, env: Env) returns (c: Choice)
    requires Can(n, e) && Needs(n) <= env.Keys && n.tag.Finally?
    ensures Exits(Exec(n, env, c), e, env)
    decreases n, 2, 0
  {
    hide At, CanAt, Needs;
    var tried, final := RAISING, RAISING;
    if CanAt(n, 0, e) && CanAt(n, 1, Completing) {
      tried := KidHappens(n, 0, e, env);
      final := KidHappens(n, 1, Completing, At(n, 0, env, tried).env);
    } else {
      RaisingRaises(n, env);
      final := KidHappens(n, 1, Breaking, env);
    }
    c := Choice(0, [tried, final]);
    assert Sub(c, 0) == tried && Sub(c, 1) == final;
  }

  lemma {:induction false} WithHappens(n: Node, e: Exit, env: Env) returns (c: Choice)
    requires Can(n, e) && Needs(n) <= env.Keys && n.tag.With?
    ensures Exits(Exec(n, env, c), e, env)
    decreases n, 2, 0
  {
    hide At, CanAt, InOrder, CanInOrder, Needs, Rebind;
    if e.Breaking? && CanAt(n, 0, Breaking) {
      var manager := KidHappens(n, 0, Breaking, env);
      c := Choice(0, [manager]);
      assert Sub(c, 0) == manager;
    } else {
      var manager := KidHappens(n, 0, Completing, env);
      var o := At(n, 0, env, manager);
      RebindBinds(n, o.env);
      if CanInOrder(n, 1, e) {
        c := OrderHappens(n, 1, e, Rebind(n, o.env), [manager]);
        assert Sub(c, 0) == c.subs[..1][0] == manager;
      } else {
        c := Choice(2, [manager, RAISING]);
        assert Sub(c, 0) == manager;
        BodyRaises(n, Rebind(n, o.env), c);
      }
    }
  }

  lemma BodyRaises(n: Node, env: Env, c: Choice)
    requires |n.kids| > 1 && Sub(c, 1) == RAISING
    ensures InOrder(n, 1, env, c) == Outcome(env, Raised, Opaque)
  {
  }

  lemma {:induction false} StepHappens(n: Node, e: Exit, env: Env) returns (c: Choice)
    requires CanStep(n, e) && Needs(n) <= env.Keys && (n.tag.Control? || n.tag.Dict? || n.tag.List?)
    ensures Exits(Exec(n, env, c), e, env)
    decreases n, 2, 0
  {
    hide Can, Needs, Steps;
    if e.Completing? {
      c := Choice(0, []);
      NoSteps(n, env);
    } else {
      var i :| 0 <= i < |n.kids| && Can(n.kids[i], e);
      KidNeeds(n, i, env);
      var taken := ExitHappens(n.kids[i], e, env);
      c := Choice(0, [Choice(i, [taken])]);
      OneStep(n, i, env, taken);
    }
  }

  lemma NoSteps(n: Node, env: Env)
    ensures Steps(n, env, []) == Plainly(env)
  {
  }

  lemma OneStep(n: Node, i: nat, env: Env, taken: Choice)
    requires i < |n.kids| && !Exec(n.kids[i], env, taken).flow.Next?
    ensures Steps(n, env, [Choice(i, [taken])]) == Exec(n.kids[i], env, taken)
  {
    hide Exec;
    SmallModulus(i, |n.kids|);
    assert Sub(Choice(i, [taken]), 0) == taken;
  }

  // ---------- The exact condition ----------

  /** This run of the node completes normally. */
  predicate Ends(n: Node, env: Env, c: Choice) {
    Exec(n, env, c).flow.Next?
  }

  /** Some run completes normally, from some environment, exactly when the tree allows it. */
  lemma EndsExactlyWhenAllowed(n: Node)
    ensures (exists env, c :: Ends(n, env, c)) <==> Can(n, Completing)
  {
    hide Exec, Can, Needs;
    if Can(n, Completing) {
      var env: Env := map x | x in Needs(n) :: Opaque;
      var c := ExitHappens(n, Completing, env);
      assert Ends(n, env, c);
    } else {
      forall env, c ensures !Ends(n, env, c) { ExitIsForeseen(n, env, c); }
    }
  }
}
