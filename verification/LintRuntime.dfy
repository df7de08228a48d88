/**
 How the fragment runs. A choice tree resolves what the tree of the program leaves open: which
 alternative is taken, how often a loop iterates, which handler matches, and where an exception is
 raised, since every node may raise. A statement about all choice trees is a statement about all
 runs that end. Expressions evaluate any finite sequence of their parts.
 */
module LintRuntime {
  import opened Options
  import opened LintSyntax
  import opened LintAnalysis

  datatype Value = Instance(made: ModelValue) | DumpOf(model: string) | NoneValue | EmptyText | Opaque

  type Env = map<string, Value>

  datatype Choice = Choice(pick: nat, subs: seq<Choice>)

  const RAISE: nat := 1

  function Sub(c: Choice, i: nat): Choice {
    if i < |c.subs| then c.subs[i] else Choice(0, [])
  }

  datatype Flow = Next | Raised | Broke | Continued | Returned(at: Node, value: Value)

  datatype Outcome = Outcome(env: Env, flow: Flow, value: Value)

  function Plainly(env: Env): Outcome {
    Outcome(env, Next, Opaque)
  }

  // ---------- Binding names ----------

  /** The names a target binds, recorded or not. */
  function Bound(t: Target): seq<string>
    decreases t, 0
  {
    match t
    case Name(x) => [x]
    case Destructured(parts) => BoundAll(parts)
    case Starred(inner) => Bound(inner)
    case Elsewhere => []
  }

  function BoundAll(targets: seq<Target>): seq<string>
    decreases targets, 1
  {
    if targets == [] then [] else Bound(targets[0]) + BoundAll(targets[1..])
  }

  function Forget(names: seq<string>, env: Env): Env {
    env + map x | x in names :: Opaque
  }

  /** Unpacking a value binds the names to its parts, about which nothing is known. */
  function Bind(t: Target, v: Value, env: Env): Env {
    if t.Name? then env[t.x := v] else Forget(Bound(t), env)
  }

  function BindAll(targets: seq<Target>, v: Value, env: Env): Env {
    if targets == [] then env else BindAll(targets[1..], v, Bind(targets[0], v, env))
  }

  function Dumped(v: Value): Value {
    if v.Instance? then DumpOf(v.made.model) else Opaque
  }

  /** The targets a node assigns. */
  function Targets(n: Node): seq<Target> {
    match n.tag
    case Assign(targets) => targets
    case AnnAssign(target) => if n.kids == [] then [] else [target]
    case AugAssign(target) => [target]
    case Loop(Some(target), _) => [target]
    case With(Some(target), _) => [target]
    case Handler(Some(name)) => [Name(name)]
    case Walrus(x) => [Name(x)]
    case _ => []
  }

  /** The names a node binds other than by assigning a target. */
  function Hidden(n: Node): seq<string> {
    match n.tag
    case Unrecorded(names) => names
    case Scope(outer) => outer
    case _ => []
  }

  // ---------- Running ----------

  /** The names a loop, handler or manager binds before its body runs. */
  function Rebind(n: Node, env: Env): Env {
    if n.tag.Loop? || n.tag.With? || n.tag.Handler? then Forget(BoundAll(Targets(n)), env) else env
  }

  /** What a node does once its children have been evaluated, the first of them to v. */
  function Complete(n: Node, v: Value, env: Env): Outcome {
    match n.tag
    case Assign(targets) => Plainly(BindAll(targets, v, env))
    case AnnAssign(target) => Plainly(if n.kids == [] then env else Bind(target, v, env))
    case AugAssign(target) => Plainly(Forget(Bound(target), env))
    case Walrus(x) => Outcome(env[x := v], Next, v)
    case Unrecorded(names) => Plainly(Forget(names, env))
    case ModelDump => Outcome(env, Next, Dumped(v))
    case Return(_) => Outcome(env, Returned(n, if n.kids == [] then NoneValue else v), Opaque)
    case Raise => Outcome(env, Raised, Opaque)
    case Break => Outcome(env, Broke, Opaque)
    case Continue => Outcome(env, Continued, Opaque)
    case _ => Plainly(env)
  }

  function Exec(n: Node, env: Env, c: Choice): Outcome
    decreases n, 3, 0
  {
    if c.pick == RAISE then Outcome(env, Raised, Opaque)
    else
      match n.tag
      case Scope(outer) => Plainly(Forget(outer, env))
      case NoneConst => Outcome(env, Next, NoneValue)
      case EmptyConst => Outcome(env, Next, EmptyText)
      case OtherConst => Plainly(env)
      case VariableDump(x) =>
        if x !in env then Outcome(env, Raised, Opaque) else Valued(InOrder(n, 0, env, c), Dumped(env[x]))
      case ModelCall(made) => Valued(InOrder(n, 0, env, c), Instance(made))
      case DumpResponse(model) => Valued(InOrder(n, 0, env, c), DumpOf(model))
      case Block => InOrder(n, 0, env, c)
      case Handler(_) => InOrder(n, 0, Rebind(n, env), c)
      case Branch => Choose(n, env, c)
      case Loop(_, _) => Iterate(n, env, c.subs)
      case Try => Attempt(n, env, c)
      case Finally => Finish(n, env, c)
      case With(_, _) => Manage(n, env, c)
      case Control => Steps(n, env, c.subs)
      case Dict => Steps(n, env, c.subs)
      case List => Steps(n, env, c.subs)
      case _ => Operate(n, env, c)
  }

  function Valued(o: Outcome, v: Value): Outcome {
    if o.flow.Next? then o.(value := v) else o
  }

  /** The i-th child, or nothing if there is none. */
  function At(n: Node, i: nat, env: Env, c: Choice): Outcome
    decreases n, 0, 0
  {
    if i < |n.kids| then Exec(n.kids[i], env, c) else Plainly(env)
  }

  /** The children from i on, one after the other, until one does not complete normally. */
  function InOrder(n: Node, i: nat, env: Env, c: Choice): Outcome
    decreases n, 0, if i < |n.kids| then |n.kids| - i else 0
  {
    if i >= |n.kids| then Plainly(env)
    else
      var o := Exec(n.kids[i], env, Sub(c, i));
      if o.flow.Next? then InOrder(n, i + 1, o.env, c) else o
  }

  /** The children in order, then the node's own effect. */
  function Operate(n: Node, env: Env, c: Choice): Outcome
    decreases n, 2, 0
  {
    var first := At(n, 0, env, Sub(c, 0));
    if !first.flow.Next? then first
    else
      var others := InOrder(n, 1, first.env, c);
      if others.flow.Next? then Complete(n, first.value, others.env) else others
  }

  /** The test, then exactly one of the alternatives. */
  function Choose(n: Node, env: Env, c: Choice): Outcome
    decreases n, 2, 0
  {
    var test := At(n, 0, env, Sub(c, 0));
    if !test.flow.Next? || |n.kids| <= 1 then test
    else Exec(n.kids[1 + Sub(c, 1).pick % (|n.kids| - 1)], test.env, Sub(c, 2))
  }

  /** The test, then either the else clause or the body and the loop again; an endless loop never gets to its
      else clause. A run has finitely many iterations. */
  function Iterate(n: Node, env: Env, cs: seq<Choice>): Outcome
    requires n.tag.Loop?
    decreases n, 2, |cs|
  {
    if cs == [] then Outcome(env, Raised, Opaque)
    else
      var test := At(n, 0, env, Sub(cs[0], 0));
      if !test.flow.Next? then test
      else if cs[0].pick == 0 && !n.tag.endless then At(n, 2, test.env, Sub(cs[0], 1))
      else
        var body := At(n, 1, Rebind(n, test.env), Sub(cs[0], 1));
        if body.flow.Broke? then body.(flow := Next)
        else if body.flow.Next? || body.flow.Continued? then Iterate(n, body.env, cs[1..]) else body
  }

  /** The body; then the else clause, or the handlers if it raised. */
  function Attempt(n: Node, env: Env, c: Choice): Outcome
    decreases n, 2, 0
  {
    var body := At(n, 0, env, Sub(c, 0));
    if body.flow.Raised? then Dispatch(n, 1, body.env, Sub(c, 1))
    else if body.flow.Next? && |n.kids| > 1 then At(n, |n.kids| - 1, body.env, Sub(c, 2)) else body
  }

  /** The handlers from j on: their types are evaluated in turn until one matches; the exception escapes if none
      does. */
  function Dispatch(n: Node, j: nat, env: Env, c: Choice): Outcome
    decreases n, 1, if j < |n.kids| then |n.kids| - j else 0
  {
    if j + 1 >= |n.kids| then Outcome(env, Raised, Opaque)
    else if !n.kids[j].tag.Handler? then Dispatch(n, j + 1, env, c)
    else
      var kind := At(n.kids[j], 0, env, Sub(Sub(c, j), 0));
      if !kind.flow.Next? then kind
      else if Sub(c, j).pick == 0 then InOrder(n.kids[j], 1, Rebind(n.kids[j], kind.env), Sub(Sub(c, j), 1))
      else Dispatch(n, j + 1, kind.env, c)
  }

  /** What is tried, then the finally clause; what the first part raised, returned or jumped to stands unless the
      second does so itself. */
  function Finish(n: Node, env: Env, c: Choice): Outcome
    decreases n, 2, 0
  {
    var tried := At(n, 0, env, Sub(c, 0));
    var final := At(n, 1, tried.env, Sub(c, 1));
    if final.flow.Next? then final.(flow := tried.flow) else final
  }

  /** The manager, then the body; some managers may swallow what the body raises. */
  function Manage(n: Node, env: Env, c: Choice): Outcome
    requires n.tag.With?
    decreases n, 2, 0
  {
    var manager := At(n, 0, env, Sub(c, 0));
    if !manager.flow.Next? then manager
    else
      var body := InOrder(n, 1, Rebind(n, manager.env), c);
      if body.flow.Raised? && n.tag.swallows && c.pick > RAISE then body.(flow := Next) else body
  }

  /** One child per choice. */
  function Steps(n: Node, env: Env, cs: seq<Choice>): Outcome
    decreases n, 2, |cs|
  {
    if cs == [] || n.kids == [] then Plainly(env)
    else
      var o := Exec(n.kids[cs[0].pick % |n.kids|], env, Sub(cs[0], 0));
      if o.flow.Next? then Steps(n, o.env, cs[1..]) else o
  }

  // ---------- Soundness of the inference ----------

  /** A value the inference describes. */
  predicate Fits(v: Value, inferred: ModelValue) {
    v.Instance? && v.made.model == inferred.model
    && (inferred.source == Constructor ==> v.made.source == Constructor)
  }

  ghost predicate EnvFits(env: Env, inferred: Inference) {
    forall x :: x in env && x in inferred ==> Fits(env[x], inferred[x])
  }

  /** The last of the targets that bind x, if any, is the plain name. */
  predicate PlainLast(targets: seq<Target>, x: string) {
    targets == []
    || if x in BoundAll(targets[1..]) then PlainLast(targets[1..], x) else x in Bound(targets[0]) ==> targets[0].Name?
  }

  /** The node binds x, if at all, last as a plain name: not by unpacking, by a star or behind the linter's back. */
  predicate PlainName(n: Node, x: string) {
    PlainLast(Targets(n), x) && x !in Hidden(n)
  }

  ghost predicate Consistent(n: Node, inferred: Inference) {
    && (forall x :: x in inferred ==> PlainName(n, x))
    && forall b :: b in Bindings(n) && b.name in inferred ==> Agrees(b, b.name, inferred[b.name])
  }

  /** Every node of the pruned tree is plain for, and agrees with, the inference. */
  ghost predicate Covered(n: Node, inferred: Inference) {
    Consistent(n, inferred) && (!n.tag.Scope? ==> forall i :: 0 <= i < |n.kids| ==> Covered(n.kids[i], inferred))
  }

  /** What the linter may assume of a value from the expression it came from. */
  predicate ValueFits(n: Node, v: Value, inferred: Inference) {
    match n.tag
    case ModelCall(made) => v == Instance(made)
    case DumpResponse(model) => v == DumpOf(model)
    case ModelDump => n.kids != [] && MadeBy(n.kids[0]).Some? ==> v == DumpOf(MadeBy(n.kids[0]).value.model)
    case VariableDump(x) => x in inferred ==> v == DumpOf(inferred[x].model)
    case NoneConst => v == NoneValue
    case EmptyConst => v == EmptyText
    case OtherConst => v == Opaque
    case Dict => v == Opaque
    case List => v == Opaque
    case _ => true
  }

  predicate ReturnFits(ret: Node, v: Value, inferred: Inference) {
    ret.tag.Return? && if ret.kids == [] then v == NoneValue else ValueFits(ret.kids[0], v, inferred)
  }

  ghost predicate Sound(n: Node, o: Outcome, inferred: Inference) {
    SoundFlow(n, o, inferred) && (o.flow.Next? ==> ValueFits(n, o.value, inferred))
  }

  /** Sound but for the value, which the node itself decides. */
  ghost predicate SoundFlow(n: Node, o: Outcome, inferred: Inference) {
    && EnvFits(o.env, inferred)
    && (o.flow.Returned? ==> ReturnFits(o.flow.at, o.flow.value, inferred) && o.flow.at in Preorder(n))
  }

  lemma ForgetFits(names: seq<string>, env: Env, inferred: Inference)
    requires EnvFits(env, inferred) && forall x :: x in names ==> x !in inferred
    ensures EnvFits(Forget(names, env), inferred)
  {
  }

  /** What a name holds after an assignment. */
  lemma {:induction false} BoundValue(targets: seq<Target>, v: Value, env: Env, x: string)
    ensures x in BindAll(targets, v, env) <==> x in env || x in BoundAll(targets)
    ensures x in BindAll(targets, v, env) ==>
              BindAll(targets, v, env)[x] == if x !in BoundAll(targets) then env[x]
                                             else if PlainLast(targets, x) then v else Opaque
  {
    if targets != [] {
      BoundValue(targets[1..], v, Bind(targets[0], v, env), x);
    }
  }

  lemma BindAllFits(targets: seq<Target>, v: Value, env: Env, inferred: Inference)
    requires EnvFits(env, inferred)
    requires forall x :: x in BoundAll(targets) && x in inferred ==> PlainLast(targets, x) && Fits(v, inferred[x])
    ensures EnvFits(BindAll(targets, v, env), inferred)
  {
    hide BindAll, BoundAll, PlainLast;
    forall x | x in BindAll(targets, v, env) && x in inferred ensures Fits(BindAll(targets, v, env)[x], inferred[x]) {
      BoundValue(targets, v, env, x);
    }
  }

  /** A name last bound plainly is one the linter records. */
  lemma {:induction false} PlainIsRecorded(targets: seq<Target>, x: string)
    requires x in BoundAll(targets) && PlainLast(targets, x)
    ensures x in NamesAll(targets)
  {
    if x in BoundAll(targets[1..]) {
      PlainIsRecorded(targets[1..], x);
    }
  }

  lemma RecordedAreTargets(n: Node)
    ensures Recorded(n).0 == NamesAll(Targets(n))
    ensures !n.tag.Assign? ==> |Targets(n)| <= 1
  {
    var targets := Targets(n);
    if |targets| == 1 {
      assert NamesAll(targets[1..]) == [];
      assert NamesAll(targets) == Names(targets[0]) + NamesAll(targets[1..]);
    }
  }

  /** A name that a node binds and the inference keeps was recorded with a fitting model value. */
  lemma RecordedFits(n: Node, inferred: Inference, x: string)
    requires Consistent(n, inferred) && x in BoundAll(Targets(n)) && x in inferred
    ensures Recorded(n).1.Some? && Fits(Instance(Recorded(n).1.value), inferred[x])
    ensures PlainLast(Targets(n), x)
  {
    assert PlainName(n, x);
    PlainIsRecorded(Targets(n), x);
    RecordedAreTargets(n);
    var (names, made) := Recorded(n);
    var i :| 0 <= i < |names| && names[i] == x;
    assert Bindings(n)[i] == Binding(x, made);
  }

  /** A node that records no model binds no name the inference keeps. */
  lemma UnknownBindsNothing(n: Node, inferred: Inference)
    requires Consistent(n, inferred) && Recorded(n).1.None?
    ensures forall x :: x in BoundAll(Targets(n)) ==> x !in inferred
  {
    hide Consistent, BoundAll;
    forall x | x in BoundAll(Targets(n)) ensures x !in inferred {
      if x in inferred { RecordedFits(n, inferred, x); }
    }
  }

  lemma OneTarget(t: Target)
    ensures BoundAll([t]) == Bound(t)
    ensures forall v: Value, env: Env :: BindAll([t], v, env) == Bind(t, v, env)
  {
    assert BoundAll([t]) == Bound(t) + BoundAll([t][1..]);
    assert [t][1..] == [];
  }

  /** Binding v to the targets of a node that recorded a model, and so got v from it, keeps the environment fitting. */
  lemma AssignedFits(n: Node, v: Value, env: Env, inferred: Inference)
    requires Consistent(n, inferred) && EnvFits(env, inferred)
    requires Recorded(n).1.Some? ==> v == Instance(Recorded(n).1.value)
    ensures EnvFits(BindAll(Targets(n), v, env), inferred)
  {
    hide Consistent, BindAll, BoundAll, PlainLast, Recorded, EnvFits;
    forall x | x in BoundAll(Targets(n)) && x in inferred ensures PlainLast(Targets(n), x) && Fits(v, inferred[x]) {
      RecordedFits(n, inferred, x);
    }
    BindAllFits(Targets(n), v, env, inferred);
  }

  /** The node's own effect keeps the environment fitting. */
  lemma EffectFits(n: Node, v: Value, env: Env, inferred: Inference)
    requires Consistent(n, inferred) && EnvFits(env, inferred) && Operates(n.tag)
    requires if n.kids == [] then v == Opaque else ValueFits(n.kids[0], v, inferred)
    ensures EnvFits(Complete(n, v, env).env, inferred)
  {
    hide Consistent, BindAll, BoundAll, PlainLast, EnvFits, Fits;
    match n.tag
    case Assign(targets) => AssignedFits(n, v, env, inferred);
    case AnnAssign(target) =>
      if n.kids != [] {
        OneTarget(target);
        AssignedFits(n, v, env, inferred);
      }
    case AugAssign(target) =>
      UnknownBindsNothing(n, inferred);
      OneTarget(target);
      ForgetFits(Bound(target), env, inferred);
    case Walrus(x) =>
      OneTarget(Name(x));
      AssignedFits(n, v, env, inferred);
    case Unrecorded(names) =>
      PlainNames(n, inferred);
      ForgetFits(names, env, inferred);
    case _ =>
  }

  lemma PlainNames(n: Node, inferred: Inference)
    requires Consistent(n, inferred)
    ensures forall x :: x in inferred ==> PlainName(n, x)
  {
  }

  lemma CompleteIsSound(n: Node, v: Value, env: Env, inferred: Inference)
    requires Consistent(n, inferred) && EnvFits(env, inferred) && Operates(n.tag)
    requires if n.kids == [] then v == Opaque else ValueFits(n.kids[0], v, inferred)
    ensures Sound(n, Complete(n, v, env), inferred)
  {
    EffectFits(n, v, env, inferred);
    hide Consistent, EnvFits;
  }

  lemma RebindFits(n: Node, env: Env, inferred: Inference)
    requires Consistent(n, inferred) && EnvFits(env, inferred)
    ensures EnvFits(Rebind(n, env), inferred)
  {
    if n.tag.Loop? || n.tag.With? || n.tag.Handler? {
      UnknownBindsNothing(n, inferred);
      ForgetFits(BoundAll(Targets(n)), env, inferred);
    }
  }

  lemma ScopeFits(n: Node, env: Env, inferred: Inference)
    requires Consistent(n, inferred) && EnvFits(env, inferred)
    ensures EnvFits(Forget(Hidden(n), env), inferred)
  {
    PlainNames(n, inferred);
  }

  /** A node with an effect of its own on names or control. */
  predicate Operates(tag: Tag) {
    || tag.Assign? || tag.AnnAssign? || tag.AugAssign? || tag.Walrus? || tag.Unrecorded? || tag.ModelDump?
    || tag.Return? || tag.Raise? || tag.Break? || tag.Continue?
  }

  // ---------- Soundness of every run, construct by construct ----------

  lemma {:induction false} ExecIsSound(n: Node, env: Env, c: Choice, inferred: Inference)
    requires Covered(n, inferred) && EnvFits(env, inferred)
    ensures Sound(n, Exec(n, env, c), inferred)
    decreases n, 3, 0
  {
    hide Operate, Choose, Iterate, Attempt, Finish, Manage, InOrder, Steps, PreorderAll, Consistent, Forget, Rebind;
    assert Consistent(n, inferred);
    if c.pick != RAISE {
      match n.tag
      case Scope(_) => ScopeFits(n, env, inferred);
      case NoneConst =>
      case EmptyConst =>
      case OtherConst =>
      case VariableDump(_) => InOrderIsSound(n, 0, env, c, inferred);
      case ModelCall(_) => InOrderIsSound(n, 0, env, c, inferred);
      case DumpResponse(_) => InOrderIsSound(n, 0, env, c, inferred);
      case Block => InOrderIsSound(n, 0, env, c, inferred);
      case Handler(_) => RebindFits(n, env, inferred); InOrderIsSound(n, 0, Rebind(n, env), c, inferred);
      case Branch => ChooseIsSound(n, env, c, inferred);
      case Loop(_, _) => IterateIsSound(n, env, c.subs, inferred);
      case Try => AttemptIsSound(n, env, c, inferred);
      case Finally => FinishIsSound(n, env, c, inferred);
      case With(_, _) => ManageIsSound(n, env, c, inferred);
      case Control => StepsAreSound(n, env, c.subs, inferred);
      case Dict => StepsAreSound(n, env, c.subs, inferred);
      case List => StepsAreSound(n, env, c.subs, inferred);
      case _ => OperateIsSound(n, env, c, inferred);
    }
  }

  /** A child's outcome, seen from the node. */
  lemma {:induction false} KidIsSound(n: Node, i: nat, env: Env, c: Choice, inferred: Inference)
    requires i < |n.kids| && Covered(n, inferred) && !n.tag.Scope? && EnvFits(env, inferred)
    ensures SoundFlow(n, Exec(n.kids[i], env, c), inferred)
    ensures Exec(n.kids[i], env, c).flow.Next? ==> ValueFits(n.kids[i], Exec(n.kids[i], env, c).value, inferred)
    decreases n, 0, 0
  {
    hide Exec, PreorderAll, Consistent, EnvFits, ValueFits, ReturnFits;
    ExecIsSound(n.kids[i], env, c, inferred);
    var o := Exec(n.kids[i], env, c);
    if o.flow.Returned? { KidIsWalked(n.kids, i, o.flow.at); }
  }

  lemma {:induction false} AtIsSound(n: Node, i: nat, env: Env, c: Choice, inferred: Inference)
    requires Covered(n, inferred) && !n.tag.Scope? && EnvFits(env, inferred)
    ensures SoundFlow(n, At(n, i, env, c), inferred)
    decreases n, 1, 0
  {
    hide Exec, Covered, EnvFits, ReturnFits;
    if i < |n.kids| { KidIsSound(n, i, env, c, inferred); }
  }

  lemma {:induction false} InOrderIsSound(n: Node, i: nat, env: Env, c: Choice, inferred: Inference)
    requires Covered(n, inferred) && !n.tag.Scope? && EnvFits(env, inferred)
    ensures SoundFlow(n, InOrder(n, i, env, c), inferred)
    decreases n, 1, if i < |n.kids| then |n.kids| - i else 0
  {
    hide Exec, Covered, EnvFits, ReturnFits;
    if i < |n.kids| {
      KidIsSound(n, i, env, Sub(c, i), inferred);
      var o := Exec(n.kids[i], env, Sub(c, i));
      if o.flow.Next? {
        InOrderIsSound(n, i + 1, o.env, c, inferred);
      }
    }
  }

  lemma {:induction false} OperateIsSound(n: Node, env: Env, c: Choice, inferred: Inference)
    requires Covered(n, inferred) && Operates(n.tag) && EnvFits(env, inferred)
    ensures Sound(n, Operate(n, env, c), inferred)
    decreases n, 2, 0
  {
    hide Complete, Exec, InOrder, PreorderAll, Consistent, EnvFits, ReturnFits;
    if n.kids != [] { KidIsSound(n, 0, env, Sub(c, 0), inferred); }
    var first := At(n, 0, env, Sub(c, 0));
    if first.flow.Next? {
      InOrderIsSound(n, 1, first.env, c, inferred);
      var others := InOrder(n, 1, first.env, c);
      if others.flow.Next? { CompleteIsSound(n, first.value, others.env, inferred); }
    }
  }

  lemma {:induction false} ChooseIsSound(n: Node, env: Env, c: Choice, inferred: Inference)
    requires Covered(n, inferred) && !n.tag.Scope? && EnvFits(env, inferred)
    ensures SoundFlow(n, Choose(n, env, c), inferred)
    decreases n, 2, 0
  {
    hide Exec, At, Covered, EnvFits, ReturnFits;
    AtIsSound(n, 0, env, Sub(c, 0), inferred);
    var test := At(n, 0, env, Sub(c, 0));
    if test.flow.Next? && |n.kids| > 1 {
      KidIsSound(n, 1 + Sub(c, 1).pick % (|n.kids| - 1), test.env, Sub(c, 2), inferred);
    }
  }

  lemma {:induction false} IterateIsSound(n: Node, env: Env, cs: seq<Choice>, inferred: Inference)
    requires Covered(n, inferred) && Consistent(n, inferred) && n.tag.Loop? && EnvFits(env, inferred)
    ensures SoundFlow(n, Iterate(n, env, cs), inferred)
    decreases n, 2, |cs|
  {
    hide At, Covered, EnvFits, ReturnFits, Rebind, Consistent;
    if cs != [] {
      AtIsSound(n, 0, env, Sub(cs[0], 0), inferred);
      var test := At(n, 0, env, Sub(cs[0], 0));
      if test.flow.Next? {
        RebindFits(n, test.env, inferred);
        AtIsSound(n, 2, test.env, Sub(cs[0], 1), inferred);
        AtIsSound(n, 1, Rebind(n, test.env), Sub(cs[0], 1), inferred);
        IterateIsSound(n, At(n, 1, Rebind(n, test.env), Sub(cs[0], 1)).env, cs[1..], inferred);
      }
    }
  }

  lemma {:induction false} AttemptIsSound(n: Node, env: Env, c: Choice, inferred: Inference)
    requires Covered(n, inferred) && !n.tag.Scope? && EnvFits(env, inferred)
    ensures SoundFlow(n, Attempt(n, env, c), inferred)
    decreases n, 2, 0
  {
    hide At, Dispatch, Covered, EnvFits, ReturnFits;
    AtIsSound(n, 0, env, Sub(c, 0), inferred);
    var body := At(n, 0, env, Sub(c, 0));
    DispatchIsSound(n, 1, body.env, Sub(c, 1), inferred);
    if |n.kids| > 1 { AtIsSound(n, |n.kids| - 1, body.env, Sub(c, 2), inferred); }
  }

  lemma {:induction false} DispatchIsSound(n: Node, j: nat, env: Env, c: Choice, inferred: Inference)
    requires Covered(n, inferred) && !n.tag.Scope? && EnvFits(env, inferred)
    ensures SoundFlow(n, Dispatch(n, j, env, c), inferred)
    decreases n, 1, if j < |n.kids| then |n.kids| - j else 0
  {
    hide At, InOrder, PreorderAll, EnvFits, ReturnFits, Consistent, Rebind;
    if j + 1 < |n.kids| {
      var h := n.kids[j];
      if !h.tag.Handler? {
        DispatchIsSound(n, j + 1, env, c, inferred);
      } else {
        AtIsSound(h, 0, env, Sub(Sub(c, j), 0), inferred);
        var kind := At(h, 0, env, Sub(Sub(c, j), 0));
        RebindFits(h, kind.env, inferred);
        InOrderIsSound(h, 1, Rebind(h, kind.env), Sub(Sub(c, j), 1), inferred);
        GrandchildIsSound(n, j, kind, inferred);
        GrandchildIsSound(n, j, InOrder(h, 1, Rebind(h, kind.env), Sub(Sub(c, j), 1)), inferred);
        DispatchIsSound(n, j + 1, kind.env, c, inferred);
      }
    }
  }

  lemma GrandchildIsSound(n: Node, j: nat, o: Outcome, inferred: Inference)
    requires j < |n.kids| && !n.tag.Scope? && SoundFlow(n.kids[j], o, inferred)
    ensures SoundFlow(n, o, inferred)
  {
    hide PreorderAll, EnvFits, ReturnFits;
    if o.flow.Returned? { KidIsWalked(n.kids, j, o.flow.at); }
  }

  lemma {:induction false} FinishIsSound(n: Node, env: Env, c: Choice, inferred: Inference)
    requires Covered(n, inferred) && !n.tag.Scope? && EnvFits(env, inferred)
    ensures SoundFlow(n, Finish(n, env, c), inferred)
    decreases n, 2, 0
  {
    hide At, Covered, EnvFits, ReturnFits;
    AtIsSound(n, 0, env, Sub(c, 0), inferred);
    AtIsSound(n, 1, At(n, 0, env, Sub(c, 0)).env, Sub(c, 1), inferred);
  }

  lemma {:induction false} ManageIsSound(n: Node, env: Env, c: Choice, inferred: Inference)
    requires Covered(n, inferred) && Consistent(n, inferred) && n.tag.With? && EnvFits(env, inferred)
    ensures SoundFlow(n, Manage(n, env, c), inferred)
    decreases n, 2, 0
  {
    hide At, InOrder, Covered, EnvFits, ReturnFits, Rebind, Consistent;
    AtIsSound(n, 0, env, Sub(c, 0), inferred);
    var manager := At(n, 0, env, Sub(c, 0));
    RebindFits(n, manager.env, inferred);
    InOrderIsSound(n, 1, Rebind(n, manager.env), c, inferred);
  }

  lemma {:induction false} StepsAreSound(n: Node, env: Env, cs: seq<Choice>, inferred: Inference)
    requires Covered(n, inferred) && !n.tag.Scope? && EnvFits(env, inferred)
    ensures SoundFlow(n, Steps(n, env, cs), inferred)
    ensures Steps(n, env, cs).flow.Next? ==> Steps(n, env, cs).value == Opaque
    decreases n, 2, |cs|
  {
    hide Exec, Covered, EnvFits, ReturnFits;
    if cs != [] && n.kids != [] {
      var i := cs[0].pick % |n.kids|;
      KidIsSound(n, i, env, Sub(cs[0], 0), inferred);
      StepsAreSound(n, Exec(n.kids[i], env, Sub(cs[0], 0)).env, cs[1..], inferred);
    }
  }
}
