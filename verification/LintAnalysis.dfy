/**
 The fragment of Python the response linter understands, as one tree type.

 A node carries what the linter extracts from it and its children in source order; statement lists
 are wrapped in a Block. An `if` without `else`, and a `match` without a wildcard, has an empty
 Block as its last alternative; the patterns and guards of a `match` belong to its test. A `with`
 of several items is a nest of them. Names that a node binds without the linter recording them are
 part of the tree as well.
 */
module LintSyntax {
  import opened Options

  /** How a value of a response model was made: Model(...) or Model.model_validate(...). */
  datatype Source = Constructor | ModelValidate

  datatype ModelValue = ModelValue(model: string, source: Source)

  /** An assignment target; attributes and subscripts bind no name. */
  datatype Target = Name(x: string) | Destructured(parts: seq<Target>) | Starred(inner: Target) | Elsewhere

  datatype Status = Default200 | Literal(code: int) | Dynamic

  datatype Tag =
    | Block                                          // statements
    | Branch                                         // if, match: a test, then the alternatives
    | Loop(binding: Option<Target>, endless: bool)   // for, while: iterable or test, body, else; `while True`
    | Try                                            // body, handlers, else
    | Finally                                        // what is tried, the finally clause
    | Handler(name: Option<string>)                  // type, then the body
    | With(binding: Option<Target>, swallows: bool)  // manager, then the body; whether exceptions may be swallowed
    | Raise
    | Break
    | Continue
    | Control                                        // comprehensions, boolean operators and other expressions
    | Scope(outer: seq<string>)                      // nested function, lambda, class: the names it binds outside
    | Unrecorded(names: seq<string>)                 // import, match capture, call that rebinds names through nonlocal
    | Assign(targets: seq<Target>)
    | AnnAssign(target: Target)
    | AugAssign(target: Target)
    | Walrus(x: string)
    | Return(status: Status)
    | ModelCall(made: ModelValue)
    | DumpResponse(model: string)      // dump_response(Model, ...)
    | ModelDump                        // value.model_dump()
    | VariableDump(x: string)          // x.model_dump()
    | NoneConst
    | EmptyConst
    | OtherConst
    | Dict
    | List

  datatype Node = Node(tag: Tag, kids: seq<Node>)

  // ---------- The walk ----------

  /** Source order, not entering nested scopes. */
  function Preorder(n: Node): seq<Node>
    decreases n, 0
  {
    [n] + if n.tag.Scope? then [] else PreorderAll(n.kids)
  }

  function PreorderAll(nodes: seq<Node>): seq<Node>
    decreases nodes, 1
  {
    if nodes == [] then [] else Preorder(nodes[0]) + PreorderAll(nodes[1..])
  }

  function Size(n: Node): nat
    decreases n, 0
  {
    1 + SizeAll(n.kids)
  }

  function SizeAll(nodes: seq<Node>): nat
    decreases nodes, 1
  {
    if nodes == [] then 0 else Size(nodes[0]) + SizeAll(nodes[1..])
  }

  function Reversed(nodes: seq<Node>): (r: seq<Node>)
    ensures |r| == |nodes|
  {
    if nodes == [] then [] else Reversed(nodes[1..]) + [nodes[0]]
  }

  lemma {:induction false} ReversedTwice(a: seq<Node>, b: seq<Node>)
    ensures Reversed(a + b) == Reversed(b) + Reversed(a)
    ensures Reversed(Reversed(a)) == a
  {
    if a == [] {
      assert a + b == b;
    } else {
      ReversedTwice(a[1..], b);
      assert (a + b)[1..] == a[1..] + b;
      ReversedOfAppend(Reversed(a[1..]), a[0]);
      assert a == [a[0]] + a[1..];
    }
  }

  lemma {:induction false} ReversedOfAppend(a: seq<Node>, n: Node)
    ensures Reversed(a + [n]) == [n] + Reversed(a)
  {
    if a != [] {
      ReversedOfAppend(a[1..], n);
      assert (a + [n])[1..] == a[1..] + [n];
    }
  }

  lemma {:induction false} AllOfConcat(a: seq<Node>, b: seq<Node>)
    ensures PreorderAll(a + b) == PreorderAll(a) + PreorderAll(b)
    ensures SizeAll(a + b) == SizeAll(a) + SizeAll(b)
  {
    hide *;
    if a == [] {
      assert a + b == b;
      assert PreorderAll(a) == [] && SizeAll(a) == 0 by { EmptyWalk(); }
    } else {
      AllOfConcat(a[1..], b);
      assert (a + b)[0] == a[0] && (a + b)[1..] == a[1..] + b;
      WalkOfFirst(a);
      WalkOfFirst(a + b);
    }
  }

  lemma EmptyWalk()
    ensures PreorderAll([]) == [] && SizeAll([]) == 0
  {
  }

  lemma WalkOfFirst(nodes: seq<Node>)
    requires nodes != []
    ensures PreorderAll(nodes) == Preorder(nodes[0]) + PreorderAll(nodes[1..])
    ensures SizeAll(nodes) == Size(nodes[0]) + SizeAll(nodes[1..])
  {
  }

  /** What popping the top of a non-empty stack leaves to be visited. */
  lemma PoppedStack(stack: seq<Node>)
    requires stack != []
    ensures var top, rest := stack[|stack| - 1], stack[..|stack| - 1];
            && PreorderAll(Reversed(stack)) == Preorder(top) + PreorderAll(Reversed(rest))
            && SizeAll(Reversed(stack)) == Size(top) + SizeAll(Reversed(rest))
  {
    var top, rest := stack[|stack| - 1], stack[..|stack| - 1];
    assert stack == rest + [top];
    ReversedOfAppend(rest, top);
    assert ([top] + Reversed(rest))[1..] == Reversed(rest);
  }

  lemma PushedStack(rest: seq<Node>, kids: seq<Node>)
    ensures var stack := rest + Reversed(kids);
            && PreorderAll(Reversed(stack)) == PreorderAll(kids) + PreorderAll(Reversed(rest))
            && SizeAll(Reversed(stack)) == SizeAll(kids) + SizeAll(Reversed(rest))
  {
    ReversedTwice(rest, Reversed(kids));
    ReversedTwice(kids, []);
    AllOfConcat(kids, Reversed(rest));
  }

  /** The explicit-stack walk visits exactly the preorder pruned below nested scopes. */
  method IterMethodNodes(body: seq<Node>) returns (visited: seq<Node>)
    ensures visited == PreorderAll(body)
  {
    visited := [];
    var stack := Reversed(body);
    ReversedTwice(body, []);
    hide PreorderAll, SizeAll, Reversed;
    while stack != []
      invariant visited + PreorderAll(Reversed(stack)) == PreorderAll(body)
      decreases SizeAll(Reversed(stack))
    {
      PoppedStack(stack);
      var node := stack[|stack| - 1];
      stack := stack[..|stack| - 1];
      visited := visited + [node];
      if node.tag.Scope? { continue; }
      PushedStack(stack, node.kids);
      stack := stack + Reversed(node.kids);
    }
    EmptyStack();
  }

  lemma EmptyStack()
    ensures PreorderAll(Reversed([])) == []
  {
  }

  /** m is n or lies below it, with no nested scope in between. */
  predicate Within(m: Node, n: Node)
    decreases n
  {
    m == n || (!n.tag.Scope? && exists i :: 0 <= i < |n.kids| && Within(m, n.kids[i]))
  }

  /** The walk visits exactly the nodes of the body that no nested scope hides. */
  lemma {:induction false} WalkExactly(nodes: seq<Node>, m: Node)
    ensures m in PreorderAll(nodes) <==> exists i :: 0 <= i < |nodes| && Within(m, nodes[i])
    decreases nodes
  {
    if nodes != [] {
      var rest := nodes[1..];
      NodeExactly(nodes[0], m);
      WalkExactly(rest, m);
      assert forall i :: 0 <= i < |rest| ==> rest[i] == nodes[i + 1];
      if i :| 0 <= i < |nodes| && Within(m, nodes[i]) {
        assert i == 0 || Within(m, rest[i - 1]);
      }
    }
  }

  lemma {:induction false} NodeExactly(n: Node, m: Node)
    ensures m in Preorder(n) <==> Within(m, n)
    decreases n
  {
    if !n.tag.Scope? { WalkExactly(n.kids, m); }
  }

  lemma {:induction false} KidIsWalked(nodes: seq<Node>, i: nat, n: Node)
    requires i < |nodes| && n in Preorder(nodes[i])
    ensures n in PreorderAll(nodes)
  {
    if i > 0 {
      KidIsWalked(nodes[1..], i - 1, n);
    }
  }
}

/** Which local names are unambiguously assigned one response model. */
module LintAnalysis {
  import opened Options
  import opened LintSyntax

  /** One recorded assignment: a known model value, or None for anything else. */
  datatype Binding = Binding(name: string, made: Option<ModelValue>)

  /** The names the linter records for a target. */
  function Names(t: Target): seq<string>
    decreases t, 0
  {
    match t
    case Name(x) => [x]
    case Destructured(parts) => NamesAll(parts)
    case Starred(_) => []
    case Elsewhere => []
  }

  function NamesAll(targets: seq<Target>): seq<string>
    decreases targets, 1
  {
    if targets == [] then [] else Names(targets[0]) + NamesAll(targets[1..])
  }

  function MadeBy(n: Node): Option<ModelValue> {
    if n.tag.ModelCall? then Some(n.tag.made) else None
  }

  /** The names a node assigns and the model value recorded for all of them. */
  function Recorded(n: Node): (seq<string>, Option<ModelValue>) {
    var made := if n.kids == [] then None else MadeBy(n.kids[0]);
    match n.tag
    case Assign(targets) => (NamesAll(targets), made)
    case AnnAssign(target) => if n.kids == [] then ([], None) else (Names(target), made)
    case AugAssign(target) => (Names(target), None)
    case Loop(binding, _) => (if binding.Some? then Names(binding.value) else [], None)
    case With(binding, _) => (if binding.Some? then Names(binding.value) else [], None)
    case Handler(name) => (if name.Some? then [name.value] else [], None)
    case Walrus(x) => ([x], made)
    case _ => ([], None)
  }

  function Bindings(n: Node): seq<Binding> {
    var (names, made) := Recorded(n);
    seq(|names|, i requires 0 <= i < |names| => Binding(names[i], made))
  }

  function BindingsAll(nodes: seq<Node>): seq<Binding> {
    if nodes == [] then [] else BindingsAll(nodes[..|nodes| - 1]) + Bindings(nodes[|nodes| - 1])
  }

  // ---------- VariableAssignmentSummary ----------

  datatype Summary = Summary(models: set<string>, sources: set<Source>, unknown: bool)

  const EMPTY := Summary({}, {}, false)

  function Added(s: Summary, made: Option<ModelValue>): Summary {
    match made
    case None => s.(unknown := true)
    case Some(v) => s.(models := s.models + {v.model}, sources := s.sources + {v.source})
  }

  function Summarized(bindings: seq<Binding>, name: string): Summary {
    if bindings == [] then EMPTY
    else
      var before := Summarized(bindings[..|bindings| - 1], name);
      var last := bindings[|bindings| - 1];
      if last.name == name then Added(before, last.made) else before
  }

  /** `single_known_model` */
  predicate Single(s: Summary, v: ModelValue) {
    && !s.unknown && s.models == {v.model}
    && v.source == if s.sources == {Constructor} then Constructor else ModelValidate
  }

  function SummaryOf(assignments: map<string, Summary>, name: string): Summary {
    if name in assignments then assignments[name] else EMPTY
  }

  type Inference = map<string, ModelValue>

  /** What the analysis concludes from a list of recorded assignments. */
  ghost predicate Infers(bindings: seq<Binding>, inferred: Inference) {
    forall name, v :: name in inferred && inferred[name] == v <==> Single(Summarized(bindings, name), v)
  }

  method RecordAssignment(assignments: map<string, Summary>, names: seq<string>, made: Option<ModelValue>,
                          ghost before: seq<Binding>)
    returns (after: map<string, Summary>)
    requires forall name :: SummaryOf(assignments, name) == Summarized(before, name)
    ensures forall name :: SummaryOf(after, name)
                        == Summarized(before + seq(|names|, i requires 0 <= i < |names| => Binding(names[i], made)),
                                      name)
  {
    after := assignments;
    ghost var bindings := seq(|names|, i requires 0 <= i < |names| => Binding(names[i], made));
    assert before + bindings[..0] == before;
    for i := 0 to |names|
      invariant forall name :: SummaryOf(after, name) == Summarized(before + bindings[..i], name)
    {
      ghost var prior := before + bindings[..i];
      ghost var next := before + bindings[..i + 1];
      assert next[..|next| - 1] == prior && next[|next| - 1] == Binding(names[i], made);
      after := after[names[i] := Added(SummaryOf(after, names[i]), made)];
    }
    assert bindings[..|names|] == bindings;
  }

  lemma NextBindings(nodes: seq<Node>, i: nat)
    requires i < |nodes|
    ensures BindingsAll(nodes[..i + 1]) == BindingsAll(nodes[..i]) + Bindings(nodes[i])
  {
    assert nodes[..i + 1][..i] == nodes[..i];
  }

  /** `variable_model_assignments_for_method` over the walked nodes. */
  method VariableModels(nodes: seq<Node>) returns (inferred: Inference)
    ensures Infers(BindingsAll(nodes), inferred)
  {
    var assignments: map<string, Summary> := map[];
    for i := 0 to |nodes|
      invariant forall name :: SummaryOf(assignments, name) == Summarized(BindingsAll(nodes[..i]), name)
    {
      var (names, made) := Recorded(nodes[i]);
      NextBindings(nodes, i);
      assignments := RecordAssignment(assignments, names, made, BindingsAll(nodes[..i]));
    }
    assert nodes[..|nodes|] == nodes;
    inferred := SingleModels(assignments);
    forall name, v
      ensures name in inferred && inferred[name] == v <==> Single(Summarized(BindingsAll(nodes), name), v)
    {
      assert SummaryOf(assignments, name) == Summarized(BindingsAll(nodes), name);
    }
  }

  /** The final dict comprehension. */
  method SingleModels(assignments: map<string, Summary>) returns (inferred: Inference)
    ensures forall name, v :: name in inferred && inferred[name] == v <==> Single(SummaryOf(assignments, name), v)
  {
    inferred := map[];
    var todo := assignments.Keys;
    while todo != {}
      invariant todo <= assignments.Keys && inferred.Keys <= assignments.Keys - todo
      invariant forall name, v :: name !in todo ==>
        (name in inferred && inferred[name] == v <==> Single(SummaryOf(assignments, name), v))
      decreases todo
    {
      var name :| name in todo;
      todo := todo - {name};
      var summary := assignments[name];
      if !summary.unknown && |summary.models| == 1 {
        var model :| model in summary.models;
        OnlyMember(summary.models, model);
        var source := if summary.sources == {Constructor} then Constructor else ModelValidate;
        inferred := inferred[name := ModelValue(model, source)];
      } else {
        assert forall v: ModelValue :: |{v.model}| == 1;
      }
    }
  }

  lemma OnlyMember(models: set<string>, model: string)
    requires model in models && |models| == 1
    ensures models == {model}
  {
    assert |models - {model}| == 0;
  }

  // ---------- What a conclusion means ----------

  /** Every assignment of the name made this model, and the source is constructor only if all of them were. */
  predicate Agrees(b: Binding, name: string, v: ModelValue) {
    b.name == name ==> b.made.Some? && b.made.value.model == v.model
                       && (v.source == Constructor ==> b.made.value.source == Constructor)
  }

  lemma {:induction false} SummaryBounds(bindings: seq<Binding>, i: nat, name: string)
    requires i < |bindings| && bindings[i].name == name
    ensures var s := Summarized(bindings, name);
            && (bindings[i].made.None? ==> s.unknown)
            && (bindings[i].made.Some? ==> bindings[i].made.value.model in s.models
                                           && bindings[i].made.value.source in s.sources)
  {
    if i < |bindings| - 1 {
      SummaryBounds(bindings[..|bindings| - 1], i, name);
    }
  }

  lemma {:induction false} SummaryWitness(bindings: seq<Binding>, name: string)
    ensures var s := Summarized(bindings, name);
            && (s.unknown ==> exists i :: 0 <= i < |bindings| && bindings[i].name == name && bindings[i].made.None?)
            && (forall m :: m in s.models ==>
                  exists i :: 0 <= i < |bindings| && bindings[i].name == name
                              && bindings[i].made.Some? && bindings[i].made.value.model == m)
            && (forall c :: c in s.sources ==>
                  exists i :: 0 <= i < |bindings| && bindings[i].name == name
                              && bindings[i].made.Some? && bindings[i].made.value.source == c)
            && (s.models == {} <==> s.sources == {})
  {
    if bindings != [] {
      var n := |bindings| - 1;
      SummaryWitness(bindings[..n], name);
      assert forall i :: 0 <= i < n ==> bindings[..n][i] == bindings[i];
      if bindings[n].name == name && bindings[n].made.Some? {
        assert bindings[n].made.value.source in Summarized(bindings, name).sources;
      }
    }
  }

  /** Some assignment of the name exists, all agree, and a "model_validate" verdict has a witness. */
  ghost predicate Unanimous(bindings: seq<Binding>, name: string, v: ModelValue) {
    && (exists i :: 0 <= i < |bindings| && bindings[i].name == name)
    && (forall i :: 0 <= i < |bindings| ==> Agrees(bindings[i], name, v))
    && (v.source == ModelValidate ==>
          exists i :: 0 <= i < |bindings| && bindings[i].name == name
                      && bindings[i].made.Some? && bindings[i].made.value.source == ModelValidate)
  }

  lemma SingleIsUnanimous(bindings: seq<Binding>, name: string, v: ModelValue)
    requires Single(Summarized(bindings, name), v)
    ensures Unanimous(bindings, name, v)
  {
    var s := Summarized(bindings, name);
    SummaryWitness(bindings, name);
    hide Summarized;
    assert v.model in s.models;
    var k :| 0 <= k < |bindings| && bindings[k].name == name
             && bindings[k].made.Some? && bindings[k].made.value.model == v.model;
    forall i | 0 <= i < |bindings| ensures Agrees(bindings[i], name, v) {
      if bindings[i].name == name { SummaryBounds(bindings, i, name); }
    }
    if v.source == ModelValidate {
      assert s.sources != {Constructor} && s.sources != {};
      assert ModelValidate in s.sources;
    }
  }

  lemma UnanimousIsSingle(bindings: seq<Binding>, name: string, v: ModelValue)
    requires Unanimous(bindings, name, v)
    ensures Single(Summarized(bindings, name), v)
  {
    var s := Summarized(bindings, name);
    SummaryWitness(bindings, name);
    hide Summarized;
    assert !s.unknown;
    var k :| 0 <= k < |bindings| && bindings[k].name == name;
    assert Agrees(bindings[k], name, v);
    SummaryBounds(bindings, k, name);
    forall m | m in s.models ensures m == v.model {
      var i :| 0 <= i < |bindings| && bindings[i].name == name
               && bindings[i].made.Some? && bindings[i].made.value.model == m;
      assert Agrees(bindings[i], name, v);
    }
    if v.source == Constructor {
      forall c | c in s.sources ensures c == Constructor {
        var i :| 0 <= i < |bindings| && bindings[i].name == name
                 && bindings[i].made.Some? && bindings[i].made.value.source == c;
        assert Agrees(bindings[i], name, v);
      }
      assert s.sources == {Constructor};
    } else {
      var i :| 0 <= i < |bindings| && bindings[i].name == name
               && bindings[i].made.Some? && bindings[i].made.value.source == ModelValidate;
      SummaryBounds(bindings, i, name);
    }
  }

  /** The analysis maps a name to a model exactly when the name is assigned somewhere and every
      assignment of it agrees; the source is "constructor" exactly when all of them are. */
  lemma InferredMeans(bindings: seq<Binding>, name: string, v: ModelValue)
    ensures Single(Summarized(bindings, name), v) <==> Unanimous(bindings, name, v)
  {
    hide Summarized, Single, Unanimous;
    if Single(Summarized(bindings, name), v) {
      SingleIsUnanimous(bindings, name, v);
    }
    if Unanimous(bindings, name, v) {
      UnanimousIsSingle(bindings, name, v);
    }
  }

  /** A conclusion covers every node that was walked. */
  lemma {:induction false} CoversWalked(nodes: seq<Node>, inferred: Inference, n: Node, b: Binding)
    requires Infers(BindingsAll(nodes), inferred) && n in nodes && b in Bindings(n) && b.name in inferred
    ensures Agrees(b, b.name, inferred[b.name])
  {
    BindingIsCollected(nodes, n, b);
    InferredMeans(BindingsAll(nodes), b.name, inferred[b.name]);
  }

  lemma {:induction false} BindingIsCollected(nodes: seq<Node>, n: Node, b: Binding)
    requires n in nodes && b in Bindings(n)
    ensures b in BindingsAll(nodes)
  {
    var k := |nodes| - 1;
    if nodes[k] != n {
      assert nodes == nodes[..k] + [nodes[k]];
      BindingIsCollected(nodes[..k], n, b);
    }
  }

  lemma {:induction false} CollectedIsBound(nodes: seq<Node>, b: Binding) returns (n: Node)
    requires b in BindingsAll(nodes)
    ensures n in nodes && b in Bindings(n)
  {
    var k := |nodes| - 1;
    if b in Bindings(nodes[k]) {
      n := nodes[k];
    } else {
      n := CollectedIsBound(nodes[..k], b);
    }
  }

  lemma BindsRecorded(n: Node, x: string)
    requires x in Recorded(n).0
    ensures Binding(x, Recorded(n).1) in Bindings(n)
  {
    var (names, made) := Recorded(n);
    var i :| 0 <= i < |names| && names[i] == x;
    assert Bindings(n)[i] == Binding(x, made);
  }

  // ---------- Exactly which names are inferred, read off the tree ----------

  /** The target is the name, or a tuple or list with the name in it, at any depth. */
  predicate NamedBy(t: Target, x: string) {
    t == Name(x) || (t.Destructured? && exists i :: 0 <= i < |t.parts| && NamedBy(t.parts[i], x))
  }

  lemma {:induction false} NamesExactly(t: Target, x: string)
    ensures x in Names(t) <==> NamedBy(t, x)
    decreases t, 0
  {
    if t.Destructured? { NamesAllExactly(t.parts, x); }
  }

  lemma {:induction false} NamesAllExactly(targets: seq<Target>, x: string)
    ensures x in NamesAll(targets) <==> exists i :: 0 <= i < |targets| && NamedBy(targets[i], x)
    decreases targets, 1
  {
    if targets != [] {
      var rest := targets[1..];
      NamesExactly(targets[0], x);
      NamesAllExactly(rest, x);
      assert forall i :: 0 <= i < |rest| ==> rest[i] == targets[i + 1];
      if i :| 0 <= i < |targets| && NamedBy(targets[i], x) {
        assert i == 0 || NamedBy(rest[i - 1], x);
      }
    }
  }

  /** The node assigns the name, in any of the ways the linter looks at. */
  predicate Assigns(n: Node, x: string) {
    match n.tag
    case Assign(targets) => exists i :: 0 <= i < |targets| && NamedBy(targets[i], x)
    case AnnAssign(target) => n.kids != [] && NamedBy(target, x)
    case AugAssign(target) => NamedBy(target, x)
    case Loop(Some(target), _) => NamedBy(target, x)
    case With(Some(target), _) => NamedBy(target, x)
    case Handler(Some(name)) => name == x
    case Walrus(name) => name == x
    case _ => false
  }

  /** The node assigns a model call: by `=`, by an annotated `=` or by `:=`. */
  predicate AssignsCall(n: Node, made: ModelValue) {
    (n.tag.Assign? || n.tag.AnnAssign? || n.tag.Walrus?) && n.kids != [] && n.kids[0].tag == ModelCall(made)
  }

  lemma RecordedExactly(n: Node, x: string)
    ensures x in Recorded(n).0 <==> Assigns(n, x)
    ensures forall made :: Assigns(n, x) ==> (Recorded(n).1 == Some(made) <==> AssignsCall(n, made))
  {
    hide NamedBy, Names, NamesAll;
    match n.tag
    case Assign(targets) => NamesAllExactly(targets, x);
    case AnnAssign(target) => NamesExactly(target, x);
    case AugAssign(target) => NamesExactly(target, x);
    case Loop(Some(target), _) => NamesExactly(target, x);
    case With(Some(target), _) => NamesExactly(target, x);
    case _ =>
  }

  /** A node assigns the name exactly when a binding of it is collected from the node. */
  lemma CollectedExactly(nodes: seq<Node>, x: string, made: Option<ModelValue>)
    ensures Binding(x, made) in BindingsAll(nodes)
       <==> exists n :: n in nodes && Assigns(n, x) && Recorded(n).1 == made
  {
    hide Assigns, Recorded, BindingsAll;
    if Binding(x, made) in BindingsAll(nodes) {
      var n := CollectedIsBound(nodes, Binding(x, made));
      RecordedExactly(n, x);
    }
    if n :| n in nodes && Assigns(n, x) && Recorded(n).1 == made {
      RecordedExactly(n, x);
      BindsRecorded(n, x);
      BindingIsCollected(nodes, n, Binding(x, made));
    }
  }

  /** The node assigns the name to a model call of this model. */
  ghost predicate AssignsModel(n: Node, model: string) {
    exists source :: AssignsCall(n, ModelValue(model, source))
  }

  /** The name is assigned somewhere, and every node that assigns it assigns a call of the model; the source is
      "constructor" exactly when all of these are constructor calls. */
  ghost predicate OnlyModel(nodes: seq<Node>, x: string, v: ModelValue) {
    && (exists n :: n in nodes && Assigns(n, x))
    && (forall n :: n in nodes && Assigns(n, x) ==> AssignsModel(n, v.model))
    && (v.source == Constructor <==>
          forall n :: n in nodes && Assigns(n, x) ==> AssignsCall(n, ModelValue(v.model, Constructor)))
  }

  lemma InferredExactly(nodes: seq<Node>, inferred: Inference, x: string, v: ModelValue)
    requires Infers(BindingsAll(nodes), inferred)
    ensures x in inferred && inferred[x] == v <==> OnlyModel(nodes, x, v)
  {
    var bindings := BindingsAll(nodes);
    InferredMeans(bindings, x, v);
    forall made
      ensures Binding(x, made) in bindings <==> exists n :: n in nodes && Assigns(n, x) && Recorded(n).1 == made
    {
      CollectedExactly(nodes, x, made);
    }
    forall n | n in nodes && Assigns(n, x)
      ensures Binding(x, Recorded(n).1) in bindings
      ensures forall made :: Recorded(n).1 == Some(made) <==> AssignsCall(n, made)
    {
      RecordedExactly(n, x);
    }
    hide BindingsAll, Recorded, Assigns, AssignsCall, Summarized, Single;
    UnanimousExactly(nodes, bindings, x, v);
  }

  lemma IsBound(nodes: seq<Node>, bindings: seq<Binding>, x: string, n: Node)
    requires forall made :: Binding(x, made) in bindings <==>
               exists n :: n in nodes && Assigns(n, x) && Recorded(n).1 == made
    requires n in nodes && Assigns(n, x)
    ensures exists i :: 0 <= i < |bindings| && bindings[i].name == x && bindings[i].made == Recorded(n).1
  {
    assert Binding(x, Recorded(n).1) in bindings;
  }

  lemma UnanimousExactly(nodes: seq<Node>, bindings: seq<Binding>, x: string, v: ModelValue)
    requires forall made :: Binding(x, made) in bindings <==>
               exists n :: n in nodes && Assigns(n, x) && Recorded(n).1 == made
    requires forall n :: n in nodes && Assigns(n, x) ==>
               forall made :: Recorded(n).1 == Some(made) <==> AssignsCall(n, made)
    ensures Unanimous(bindings, x, v) <==> OnlyModel(nodes, x, v)
  {
    hide Recorded, Assigns, AssignsCall;
    if Unanimous(bindings, x, v) {
      forall n | n in nodes && Assigns(n, x)
        ensures Recorded(n).1.Some? && Recorded(n).1.value.model == v.model
        ensures v.source == Constructor ==> Recorded(n).1.value.source == Constructor
      {
        var i :| 0 <= i < |bindings| && bindings[i] == Binding(x, Recorded(n).1);
        assert Agrees(bindings[i], x, v);
      }
      forall n | n in nodes && Assigns(n, x) ensures AssignsModel(n, v.model) {
        assert AssignsCall(n, Recorded(n).1.value);
        assert Recorded(n).1.value == ModelValue(v.model, Recorded(n).1.value.source);
      }
    }
    if OnlyModel(nodes, x, v) {
      forall i | 0 <= i < |bindings| ensures Agrees(bindings[i], x, v) {
        if bindings[i].name == x {
          assert Binding(x, bindings[i].made) == bindings[i];
          var n :| n in nodes && Assigns(n, x) && Recorded(n).1 == bindings[i].made;
          var source :| AssignsCall(n, ModelValue(v.model, source));
        }
      }
      var some :| some in nodes && Assigns(some, x);
      IsBound(nodes, bindings, x, some);
      if v.source == ModelValidate {
        var n :| n in nodes && Assigns(n, x) && !AssignsCall(n, ModelValue(v.model, Constructor));
        var source :| AssignsCall(n, ModelValue(v.model, source));
        IsBound(nodes, bindings, x, n);
      }
    }
  }
}
