/** From the returns of a method to a verdict on its documented responses, and what the verdict promises. */
module LintVerdict {
  import opened Options
  import opened LintSyntax
  import opened LintAnalysis
  import opened LintRuntime
  import opened LintEndings

  datatype Kind = EmptyBody | ModelBody | VariableBody | NoneBody | RawDict | RawList | RawValue | UnknownBody

  datatype Actual = Actual(status: Option<int>, kind: Kind, model: Option<string>)

  /** The documented 2xx responses, with the schema model if one is named. */
  type Docs = map<int, Option<string>>

  datatype Verdict = Valid | Mismatch | Unknown | Refactorable

  const NO_BODY: set<int> := {204, 205, 304}

  function KindOf(expr: Node, inferred: Inference): (Kind, Option<string>) {
    match expr.tag
    case DumpResponse(model) => (ModelBody, Some(model))
    case VariableDump(x) =>
      if x !in inferred then (UnknownBody, None)
      else (if inferred[x].source == Constructor then ModelBody else VariableBody, Some(inferred[x].model))
    case ModelDump =>
      if expr.kids != [] && MadeBy(expr.kids[0]).Some? then (ModelBody, Some(MadeBy(expr.kids[0]).value.model))
      else (UnknownBody, None)
    case NoneConst => (NoneBody, None)
    case EmptyConst => (EmptyBody, None)
    case OtherConst => (RawValue, None)
    case Dict => (RawDict, None)
    case List => (RawList, None)
    case _ => (UnknownBody, None)
  }

  function StatusOf(status: Status): Option<int> {
    match status
    case Default200 => Some(200)
    case Literal(code) => Some(code)
    case Dynamic => None
  }

  function ActualOf(ret: Node, inferred: Inference): Actual
    requires ret.tag.Return?
  {
    var (kind, model) := if ret.kids == [] then (NoneBody, None) else KindOf(ret.kids[0], inferred);
    Actual(StatusOf(ret.tag.status), kind, model)
  }

  predicate Successful(status: Option<int>) {
    status.None? || 200 <= status.value < 300
  }

  /** Exactly the successful or undecided returns among the nodes. */
  ghost predicate VisibleReturns(nodes: seq<Node>, inferred: Inference, actuals: seq<Actual>) {
    forall a :: a in actuals <==>
      Successful(a.status) && exists n :: n in nodes && n.tag.Return? && ActualOf(n, inferred) == a
  }

  /** `actual_responses_for_method` */
  method ActualResponses(body: seq<Node>) returns (actuals: seq<Actual>, inferred: Inference)
    ensures Infers(BindingsAll(PreorderAll(body)), inferred)
    ensures VisibleReturns(PreorderAll(body), inferred, actuals)
  {
    var nodes := IterMethodNodes(body);
    inferred := VariableModels(nodes);
    var responses := [];
    for i := 0 to |nodes|
      invariant forall a :: a in responses <==>
        exists n :: n in nodes[..i] && n.tag.Return? && ActualOf(n, inferred) == a
    {
      assert nodes[..i + 1] == nodes[..i] + [nodes[i]];
      if nodes[i].tag.Return? {
        responses := responses + [ActualOf(nodes[i], inferred)];
      }
    }
    assert nodes[..|nodes|] == nodes;
    actuals := [];
    for i := 0 to |responses|
      invariant forall a :: a in actuals <==> a in responses[..i] && Successful(a.status)
    {
      assert responses[..i + 1] == responses[..i] + [responses[i]];
      if Successful(responses[i].status) { actuals := actuals + [responses[i]]; }
    }
    assert responses[..|responses|] == responses;
  }

  // ---------- The verdict ----------

  function Documented(docs: Docs, status: int): Option<string> {
    if status in docs then docs[status] else None
  }

  /** A return that cannot meet the documentation. */
  predicate Wrong(a: Actual, docs: Docs) {
    a.status.Some? &&
    var doc := Documented(docs, a.status.value);
    if a.status.value in NO_BODY then doc.Some? || a.kind !in {NoneBody, EmptyBody, UnknownBody}
    else doc.Some? && a.kind in {ModelBody, VariableBody} && a.model.Some? && a.model != doc
  }

  /** A return that surely meets the documentation. */
  predicate Right(a: Actual, docs: Docs) {
    a.status.Some? &&
    var doc := Documented(docs, a.status.value);
    if a.status.value in NO_BODY then doc.None? && a.kind in {NoneBody, EmptyBody}
    else doc.Some? && a.kind in {ModelBody, VariableBody} && a.model == doc
  }

  /** A right return that goes through a validated variable instead of dump_response. */
  predicate Indirect(a: Actual, docs: Docs) {
    Right(a, docs) && a.kind == VariableBody
  }

  /** The verdict as a function of the set of returns: mismatch, then unknown, then refactorable, then valid. */
  ghost function Overall(actuals: set<Actual>, docs: Docs): Verdict {
    if actuals == {} then Unknown
    else if exists a :: a in actuals && Wrong(a, docs) then Mismatch
    else if exists a :: a in actuals && !Right(a, docs) then Unknown
    else if exists a :: a in actuals && Indirect(a, docs) then Refactorable
    else Valid
  }

  ghost function Members(actuals: seq<Actual>): set<Actual> {
    set a | a in actuals
  }

  lemma WrongDecides(actuals: seq<Actual>, i: nat, docs: Docs)
    requires i < |actuals|
    ensures Wrong(actuals[i], docs) ==> Overall(Members(actuals), docs) == Mismatch
  {
    assert actuals[i] in Members(actuals);
  }

  /**
   The loop of `classify_method`, with the returns it reports. The verdict depends only on the set
   of returns; a mismatch reports the first wrong return alone.
   */
  method ClassifyMethod(actuals: seq<Actual>, docs: Docs) returns (verdict: Verdict, reported: seq<Actual>)
    ensures verdict == Overall(Members(actuals), docs)
    ensures verdict != Mismatch ==> reported == actuals
    ensures verdict == Mismatch ==>
              exists i :: 0 <= i < |actuals| && Wrong(actuals[i], docs) && reported == [actuals[i]]
                          && forall j :: 0 <= j < i ==> !Wrong(actuals[j], docs)
  {
    if actuals == [] { return Unknown, []; }
    assert actuals[0] in Members(actuals);
    var unknowns: seq<Actual> := [];
    var refactorables: seq<Actual> := [];
    for i := 0 to |actuals|
      invariant forall j :: 0 <= j < i ==> !Wrong(actuals[j], docs)
      invariant unknowns == [] <==> forall j :: 0 <= j < i ==> Right(actuals[j], docs)
      invariant forall j :: 0 <= j < i && Indirect(actuals[j], docs) ==> refactorables != []
      invariant refactorables != [] ==> exists j :: 0 <= j < i && Indirect(actuals[j], docs)
      invariant unknowns != [] ==> exists j :: 0 <= j < i && !Right(actuals[j], docs)
    {
      var actual := actuals[i];
      WrongDecides(actuals, i, docs);
      if actual.status.None? {
        unknowns := unknowns + [actual];
        continue;
      }
      var status := actual.status.value;
      var documented := if status in docs then Some(docs[status]) else None;
      if status in NO_BODY {
        if documented.Some? && documented.value.Some? { return Mismatch, [actual]; }
        if actual.kind in {ModelBody, VariableBody, RawDict, RawList, RawValue} {
          return Mismatch, [actual];
        }
        if actual.kind == UnknownBody { unknowns := unknowns + [actual]; }
        continue;
      }
      if documented.None? || documented.value.None? {
        unknowns := unknowns + [actual];
        continue;
      }
      if actual.kind == VariableBody && actual.model.Some? {
        if documented.value != actual.model { return Mismatch, [actual]; }
        refactorables := refactorables + [actual];
        continue;
      }
      if actual.kind != ModelBody || actual.model.None? {
        unknowns := unknowns + [actual];
        continue;
      }
      if documented.value != actual.model { return Mismatch, [actual]; }
    }
    reported := actuals;
    verdict := if unknowns != [] then Unknown else if refactorables != [] then Refactorable else Valid;
  }

  // ---------- Exactly which methods get which verdict ----------

  /** The literal status of a return. */
  predicate HasCode(ret: Node, code: int) {
    ret.tag.Return? && ((ret.tag.status == Default200 && code == 200) || ret.tag.status == Literal(code))
  }

  /** A return the comparison looks at: its status is dynamic or a success. */
  ghost predicate Compared(ret: Node) {
    ret.tag.Return? && (ret.tag.status == Dynamic || exists code :: HasCode(ret, code) && 200 <= code < 300)
  }

  /** The expression is seen to give a dump of the model. */
  predicate Gives(expr: Node, model: string, inferred: Inference) {
    || expr.tag == DumpResponse(model)
    || (expr.tag == ModelDump && expr.kids != [] && expr.kids[0].tag.ModelCall? && expr.kids[0].tag.made.model == model)
    || (expr.tag.VariableDump? && expr.tag.x in inferred && inferred[expr.tag.x].model == model)
  }

  /** The expression is seen to be a response body. */
  ghost predicate CarriesBody(expr: Node, inferred: Inference) {
    expr.tag == Dict || expr.tag == List || expr.tag == OtherConst || exists model :: Gives(expr, model, inferred)
  }

  predicate DocumentsModel(docs: Docs, code: int, model: string) {
    code in docs && docs[code] == Some(model)
  }

  /** A success return that is seen to break the documentation: another model than the documented one, or a model or a
      body where the status allows none. */
  ghost predicate Contradicts(ret: Node, code: int, inferred: Inference, docs: Docs) {
    HasCode(ret, code) && 200 <= code < 300 &&
    if code == 204 || code == 205 then
      (exists model :: DocumentsModel(docs, code, model)) || (ret.kids != [] && CarriesBody(ret.kids[0], inferred))
    else
      exists model, other :: DocumentsModel(docs, code, model) && ret.kids != [] && Gives(ret.kids[0], other, inferred)
                             && other != model
  }

  /** A success return that is seen to keep to it: the documented model, or nothing where the status allows none. */
  ghost predicate Fulfils(ret: Node, code: int, inferred: Inference, docs: Docs) {
    HasCode(ret, code) && 200 <= code < 300 &&
    if code == 204 || code == 205 then
      (forall model :: !DocumentsModel(docs, code, model))
      && (ret.kids == [] || ret.kids[0].tag == NoneConst || ret.kids[0].tag == EmptyConst)
    else
      exists model :: DocumentsModel(docs, code, model) && ret.kids != [] && Gives(ret.kids[0], model, inferred)
  }

  /** The dump of a variable that some assignment made by model_validate. */
  predicate DumpsValidated(ret: Node, inferred: Inference) {
    ret.kids != [] && ret.kids[0].tag.VariableDump? && ret.kids[0].tag.x in inferred
    && inferred[ret.kids[0].tag.x].source == ModelValidate
  }

  /** What each return is judged, read off the tree and the documentation alone. */
  lemma JudgedExactly(ret: Node, inferred: Inference, docs: Docs)
    requires ret.tag.Return?
    ensures var a := ActualOf(ret, inferred);
            && (Successful(a.status) <==> Compared(ret))
            && (Compared(ret) ==>
                  && (Wrong(a, docs) <==> exists code :: Contradicts(ret, code, inferred, docs))
                  && (Right(a, docs) <==> exists code :: Fulfils(ret, code, inferred, docs))
                  && (Right(a, docs) ==> (Indirect(a, docs) <==> DumpsValidated(ret, inferred))))
  {
    var a := ActualOf(ret, inferred);
    if ret.tag.status != Dynamic {
      var code := if ret.tag.status == Default200 then 200 else ret.tag.status.code;
      assert HasCode(ret, code) && a.status == Some(code);
      if 200 <= code < 300 { CodeIsJudged(ret, code, inferred, docs); }
    }
  }

  lemma CodeIsJudged(ret: Node, code: int, inferred: Inference, docs: Docs)
    requires HasCode(ret, code) && 200 <= code < 300
    ensures var a := ActualOf(ret, inferred);
            && (Wrong(a, docs) <==> Contradicts(ret, code, inferred, docs))
            && (Right(a, docs) <==> Fulfils(ret, code, inferred, docs))
            && (Right(a, docs) ==> (Indirect(a, docs) <==> DumpsValidated(ret, inferred)))
  {
    assert forall model :: DocumentsModel(docs, code, model) <==> Documented(docs, code) == Some(model);
    if ret.kids != [] {
      GivesExactly(ret.kids[0], inferred);
    }
  }

  /** The kinds the linter tells apart, in terms of the tree. */
  lemma GivesExactly(expr: Node, inferred: Inference)
    ensures var (kind, model) := KindOf(expr, inferred);
            && (forall m :: Gives(expr, m, inferred) <==> kind in {ModelBody, VariableBody} && model == Some(m))
            && (kind in {ModelBody, VariableBody} ==> model.Some?)
            && (kind == VariableBody <==>
                  expr.tag.VariableDump? && expr.tag.x in inferred && inferred[expr.tag.x].source == ModelValidate)
            && (kind in {RawDict, RawList, RawValue} <==>
                  expr.tag == Dict || expr.tag == List || expr.tag == OtherConst)
            && (kind in {NoneBody, EmptyBody} <==> expr.tag == NoneConst || expr.tag == EmptyConst)
  {
  }

  /** Every return the comparison looks at keeps to the documentation, and there is one. */
  ghost predicate AllFulfil(nodes: seq<Node>, inferred: Inference, docs: Docs) {
    && (exists ret :: ret in nodes && Compared(ret))
    && forall ret :: ret in nodes && Compared(ret) ==> exists code :: Fulfils(ret, code, inferred, docs)
  }

  /**
   The verdict, read off the tree and the documentation. It is a mismatch exactly when some return contradicts the
   documentation, whatever the others are; it passes exactly when there is a return to look at and all of them keep
   to it; and a pass is refactorable exactly when one of them dumps a validated variable. All else is unknown.
   */
  lemma VerdictExactly(nodes: seq<Node>, inferred: Inference, actuals: seq<Actual>, docs: Docs)
    requires VisibleReturns(nodes, inferred, actuals)
    ensures var verdict := Overall(Members(actuals), docs);
            && (verdict == Mismatch <==> exists ret, code :: ret in nodes && Contradicts(ret, code, inferred, docs))
            && (verdict == Valid || verdict == Refactorable <==> AllFulfil(nodes, inferred, docs))
            && (verdict == Refactorable <==>
                  AllFulfil(nodes, inferred, docs)
                  && exists ret :: ret in nodes && Compared(ret) && DumpsValidated(ret, inferred))
  {
    SomeWrong(nodes, inferred, actuals, docs);
    AllRight(nodes, inferred, actuals, docs);
    SomeIndirect(nodes, inferred, actuals, docs);
    hide VisibleReturns, Wrong, Right, Indirect, Contradicts, AllFulfil, DumpsValidated, Compared;
    RightIsNotWrong(docs);
  }

  lemma RightIsNotWrong(docs: Docs)
    ensures forall a :: Right(a, docs) ==> !Wrong(a, docs)
  {
  }

  /** A return and what the linter makes of it. */
  lemma ReturnOf(nodes: seq<Node>, inferred: Inference, actuals: seq<Actual>, a: Actual) returns (ret: Node)
    requires VisibleReturns(nodes, inferred, actuals) && a in Members(actuals)
    ensures ret in nodes && Compared(ret) && ActualOf(ret, inferred) == a
  {
    assert a in actuals;
    ret :| ret in nodes && ret.tag.Return? && ActualOf(ret, inferred) == a;
    JudgedExactly(ret, inferred, map[]);
  }

  lemma ReturnIsMember(nodes: seq<Node>, inferred: Inference, actuals: seq<Actual>, ret: Node)
    requires VisibleReturns(nodes, inferred, actuals) && ret in nodes && Compared(ret)
    ensures ActualOf(ret, inferred) in Members(actuals)
  {
    JudgedExactly(ret, inferred, map[]);
    assert ActualOf(ret, inferred) in actuals;
  }

  lemma SomeWrong(nodes: seq<Node>, inferred: Inference, actuals: seq<Actual>, docs: Docs)
    requires VisibleReturns(nodes, inferred, actuals)
    ensures (exists a :: a in Members(actuals) && Wrong(a, docs))
       <==> exists ret, code :: ret in nodes && Contradicts(ret, code, inferred, docs)
  {
    hide VisibleReturns, Members, Wrong;
    if a :| a in Members(actuals) && Wrong(a, docs) {
      var ret := ReturnOf(nodes, inferred, actuals, a);
      JudgedExactly(ret, inferred, docs);
      var code :| Contradicts(ret, code, inferred, docs);
    }
    if ret, code :| ret in nodes && Contradicts(ret, code, inferred, docs) {
      assert Compared(ret);
      JudgedExactly(ret, inferred, docs);
      ReturnIsMember(nodes, inferred, actuals, ret);
    }
  }

  lemma AllRight(nodes: seq<Node>, inferred: Inference, actuals: seq<Actual>, docs: Docs)
    requires VisibleReturns(nodes, inferred, actuals)
    ensures Members(actuals) != {} && (forall a :: a in Members(actuals) ==> Right(a, docs))
       <==> AllFulfil(nodes, inferred, docs)
  {
    hide VisibleReturns, Members, Right, Fulfils, Compared, Wrong, Indirect;
    if Members(actuals) != {} && forall a :: a in Members(actuals) ==> Right(a, docs) {
      var a :| a in Members(actuals);
      var ret := ReturnOf(nodes, inferred, actuals, a);
      forall ret | ret in nodes && Compared(ret) ensures exists code :: Fulfils(ret, code, inferred, docs) {
        ComparedReturns(ret);
        ReturnIsMember(nodes, inferred, actuals, ret);
        JudgedExactly(ret, inferred, docs);
      }
    }
    if AllFulfil(nodes, inferred, docs) {
      var ret :| ret in nodes && Compared(ret);
      ReturnIsMember(nodes, inferred, actuals, ret);
      forall a | a in Members(actuals) ensures Right(a, docs) {
        var ret := ReturnOf(nodes, inferred, actuals, a);
        ComparedReturns(ret);
        JudgedExactly(ret, inferred, docs);
      }
    }
  }

  lemma ComparedReturns(ret: Node)
    requires Compared(ret)
    ensures ret.tag.Return?
  {
  }

  lemma SomeIndirect(nodes: seq<Node>, inferred: Inference, actuals: seq<Actual>, docs: Docs)
    requires VisibleReturns(nodes, inferred, actuals)
    ensures (forall a :: a in Members(actuals) ==> Right(a, docs)) ==>
              ((exists a :: a in Members(actuals) && Indirect(a, docs))
               <==> exists ret :: ret in nodes && Compared(ret) && DumpsValidated(ret, inferred))
  {
    hide VisibleReturns, Members, Right, Fulfils, Contradicts, Compared, Wrong, Indirect, DumpsValidated;
    if forall a :: a in Members(actuals) ==> Right(a, docs) {
      if a :| a in Members(actuals) && Indirect(a, docs) {
        var ret := ReturnOf(nodes, inferred, actuals, a);
        ComparedReturns(ret);
        JudgedExactly(ret, inferred, docs);
      }
      if ret :| ret in nodes && Compared(ret) && DumpsValidated(ret, inferred) {
        ComparedReturns(ret);
        ReturnIsMember(nodes, inferred, actuals, ret);
        JudgedExactly(ret, inferred, docs);
      }
    }
  }

  // ---------- What the verdict promises about runs ----------

  /** The response meets the documentation: the documented model's dump, or nothing for a no-body status. */
  predicate Conforms(docs: Docs, status: int, v: Value) {
    var doc := Documented(docs, status);
    if status in NO_BODY then doc.None? && (v == NoneValue || v == EmptyText)
    else doc.Some? && v == DumpOf(doc.value)
  }

  lemma ReturnIsJudged(ret: Node, v: Value, inferred: Inference, docs: Docs)
    requires ReturnFits(ret, v, inferred)
    ensures var a := ActualOf(ret, inferred);
            && (Right(a, docs) ==> Conforms(docs, a.status.value, v))
            && (Wrong(a, docs) ==> !Conforms(docs, a.status.value, v))
  {
  }

  function RunBody(body: seq<Node>, env: Env, c: Choice): Outcome {
    Exec(Node(Block, body), env, c)
  }

  /** A success return that dumps x. */
  predicate Dumps(ret: Node, x: string) {
    ret.tag.Return? && Successful(StatusOf(ret.tag.status)) && ret.kids != [] && ret.kids[0].tag == VariableDump(x)
  }

  /** The inferred names whose dump is the body of some success return: all that the verdict relies on. */
  ghost function Trusted(body: seq<Node>, inferred: Inference): Inference {
    map x | x in inferred && (exists ret :: ret in PreorderAll(body) && Dumps(ret, x)) :: inferred[x]
  }

  /** Every node of the walk binds x, if at all, last as a plain name. */
  ghost predicate PlainThroughout(body: seq<Node>, x: string) {
    forall n :: n in PreorderAll(body) ==> PlainName(n, x)
  }

  ghost predicate AllPlain(body: seq<Node>, inferred: Inference) {
    forall x :: x in Trusted(body, inferred) ==> PlainThroughout(body, x)
  }

  /** None of these names is bound on entry, as a parameter or a global. */
  predicate Entry(env: Env, inferred: Inference) {
    forall x :: x in env ==> x !in inferred
  }

  lemma {:induction false} WalkedIsCovered(n: Node, inferred: Inference)
    requires forall m :: m in Preorder(n) ==> Consistent(m, inferred)
    ensures Covered(n, inferred)
  {
    hide Consistent;
    if !n.tag.Scope? {
      forall i | 0 <= i < |n.kids| ensures Covered(n.kids[i], inferred) {
        forall m | m in Preorder(n.kids[i]) ensures Consistent(m, inferred) {
          KidIsWalked(n.kids, i, m);
        }
        WalkedIsCovered(n.kids[i], inferred);
      }
    }
  }

  /** A part of an inference. */
  ghost predicate PartOf(part: Inference, inferred: Inference) {
    forall x :: x in part ==> x in inferred && part[x] == inferred[x]
  }

  lemma BodyIsCovered(body: seq<Node>, inferred: Inference, part: Inference)
    requires Infers(BindingsAll(PreorderAll(body)), inferred) && PartOf(part, inferred)
    requires forall x :: x in part ==> PlainThroughout(body, x)
    ensures Covered(Node(Block, body), part)
  {
    hide Covered, Infers, BindingsAll, PreorderAll, PlainName;
    var root := Node(Block, body);
    forall m | m in Preorder(root) ensures Consistent(m, part) {
      if m != root {
        forall b | b in Bindings(m) && b.name in part ensures Agrees(b, b.name, part[b.name]) {
          CoversWalked(PreorderAll(body), inferred, m, b);
        }
      } else {
        BlockBindsNothing(body);
      }
    }
    WalkedIsCovered(root, part);
  }

  lemma BlockBindsNothing(body: seq<Node>)
    ensures Bindings(Node(Block, body)) == [] && forall x :: PlainName(Node(Block, body), x)
  {
  }

  /**
   In every run, whenever the method returns, raises or ends, a bound name the analysis maps to a
   model holds an instance of that model, and "constructor" means it was made by a constructor call:
   for every name that is not bound on entry and that no node binds but as a plain name.
   */
  lemma InferenceIsSound(body: seq<Node>, inferred: Inference, env: Env, c: Choice, x: string)
    requires Infers(BindingsAll(PreorderAll(body)), inferred)
    requires x in inferred && PlainThroughout(body, x) && x !in env
    requires x in RunBody(body, env, c).env
    ensures Fits(RunBody(body, env, c).env[x], inferred[x])
  {
    hide Exec, Covered, PreorderAll, BindingsAll, Infers, PlainThroughout;
    var part := map[x := inferred[x]];
    BodyIsCovered(body, inferred, part);
    ExecIsSound(Node(Block, body), env, c, part);
  }

  /** A run that returns does so at a walked return node, with a value the linter's reading of it fits. */
  lemma ReturnIsWalked(body: seq<Node>, inferred: Inference, env: Env, c: Choice)
    requires Infers(BindingsAll(PreorderAll(body)), inferred) && AllPlain(body, inferred)
    requires Entry(env, Trusted(body, inferred)) && RunBody(body, env, c).flow.Returned?
    ensures var flow := RunBody(body, env, c).flow;
            && flow.at in PreorderAll(body) && flow.at.tag.Return?
            && (Successful(StatusOf(flow.at.tag.status)) ==> ReturnFits(flow.at, flow.value, inferred))
  {
    var part := Trusted(body, inferred);
    assert PartOf(part, inferred);
    hide Exec, Covered, PreorderAll, BindingsAll, Infers, EnvFits, ReturnFits, Trusted;
    EntryFits(env, part);
    BodyIsCovered(body, inferred, part);
    ExecIsSound(Node(Block, body), env, c, part);
    var flow := RunBody(body, env, c).flow;
    ReturnIsNoBlock(body, flow, part);
    if Successful(StatusOf(flow.at.tag.status)) {
      TrustSuffices(body, flow.at, flow.value, inferred);
    }
  }

  lemma EntryFits(env: Env, inferred: Inference)
    requires Entry(env, inferred)
    ensures EnvFits(env, inferred)
  {
  }

  lemma ReturnIsNoBlock(body: seq<Node>, flow: Flow, inferred: Inference)
    requires flow.Returned? && ReturnFits(flow.at, flow.value, inferred)
    ensures flow.at != Node(Block, body) && flow.at.tag.Return?
  {
  }

  lemma TrustSuffices(body: seq<Node>, ret: Node, v: Value, inferred: Inference)
    requires ret in PreorderAll(body) && ret.tag.Return? && Successful(StatusOf(ret.tag.status))
    requires ReturnFits(ret, v, Trusted(body, inferred))
    ensures ReturnFits(ret, v, inferred)
  {
    hide PreorderAll;
    if ret.kids != [] && ret.kids[0].tag.VariableDump? {
      assert Dumps(ret, ret.kids[0].tag.x);
    }
  }

  /** Every response of every run has a literal status and, when that is a success, conforms. */
  ghost predicate Guarantees(body: seq<Node>, inferred: Inference, docs: Docs) {
    forall env, c :: Entry(env, Trusted(body, inferred)) && RunBody(body, env, c).flow.Returned? ==>
      Conforming(RunBody(body, env, c).flow, docs)
  }

  predicate Conforming(flow: Flow, docs: Docs) {
    flow.Returned? && flow.at.tag.Return? &&
    var status := StatusOf(flow.at.tag.status);
    status.Some? && (Successful(status) ==> Conforms(docs, status.value, flow.value))
  }

  /** No response given at this return ever conforms. */
  ghost predicate Violates(ret: Node, body: seq<Node>, inferred: Inference, docs: Docs) {
    ret in PreorderAll(body) && ret.tag.Return? && ret.tag.status != Dynamic &&
    forall env, c :: Entry(env, Trusted(body, inferred)) && RunBody(body, env, c).flow.Returned?
                     && RunBody(body, env, c).flow.at == ret ==>
      !Conforms(docs, StatusOf(ret.tag.status).value, RunBody(body, env, c).flow.value)
  }

  lemma PassedIsRight(nodes: seq<Node>, ret: Node, inferred: Inference, actuals: seq<Actual>, docs: Docs)
    requires VisibleReturns(nodes, inferred, actuals) && ret in nodes && ret.tag.Return?
    requires Overall(Members(actuals), docs) in {Valid, Refactorable}
    ensures var status := StatusOf(ret.tag.status);
            status.Some? && (Successful(status) ==> Right(ActualOf(ret, inferred), docs))
  {
    var a := ActualOf(ret, inferred);
    if Successful(a.status) {
      assert a in actuals;
      assert a in Members(actuals);
    }
  }

  /** A valid or refactorable verdict is a guarantee over all runs. */
  lemma PassedIsGuaranteed(body: seq<Node>, inferred: Inference, actuals: seq<Actual>, docs: Docs)
    requires Infers(BindingsAll(PreorderAll(body)), inferred) && AllPlain(body, inferred)
    requires VisibleReturns(PreorderAll(body), inferred, actuals)
    requires Overall(Members(actuals), docs) in {Valid, Refactorable}
    ensures Guarantees(body, inferred, docs)
  {
    hide RunBody, VisibleReturns, Overall, Members, AllPlain, Infers, BindingsAll, PreorderAll, Entry, Trusted,
         ReturnFits;
    forall env, c | Entry(env, Trusted(body, inferred)) && RunBody(body, env, c).flow.Returned?
      ensures Conforming(RunBody(body, env, c).flow, docs)
    {
      ReturnIsWalked(body, inferred, env, c);
      var flow := RunBody(body, env, c).flow;
      PassedIsRight(PreorderAll(body), flow.at, inferred, actuals, docs);
      if Successful(StatusOf(flow.at.tag.status)) {
        ReturnIsJudged(flow.at, flow.value, inferred, docs);
      }
    }
  }

  /** A mismatch verdict names a return that no run can use without violating the documentation. */
  lemma MismatchIsReal(body: seq<Node>, inferred: Inference, actuals: seq<Actual>, docs: Docs)
    requires Infers(BindingsAll(PreorderAll(body)), inferred) && AllPlain(body, inferred)
    requires VisibleReturns(PreorderAll(body), inferred, actuals)
    requires Overall(Members(actuals), docs) == Mismatch
    ensures exists ret :: Violates(ret, body, inferred, docs)
  {
    hide RunBody, AllPlain, Infers, BindingsAll, PreorderAll, Entry, KindOf, Conforms, ReturnFits, Trusted;
    var a :| a in Members(actuals) && Wrong(a, docs);
    assert a in actuals;
    var ret :| ret in PreorderAll(body) && ret.tag.Return? && ActualOf(ret, inferred) == a;
    forall env, c | Entry(env, Trusted(body, inferred)) && RunBody(body, env, c).flow.Returned?
                    && RunBody(body, env, c).flow.at == ret
      ensures !Conforms(docs, StatusOf(ret.tag.status).value, RunBody(body, env, c).flow.value)
    {
      ReturnIsWalked(body, inferred, env, c);
      ReturnIsJudged(ret, RunBody(body, env, c).flow.value, inferred, docs);
    }
    assert Violates(ret, body, inferred, docs);
  }

  /** Every run of the body, from any environment, raises or returns. */
  ghost predicate AlwaysAnswers(body: seq<Node>) {
    forall env, c :: !RunBody(body, env, c).flow.Next?
  }

  /** The verdict does not look at runs that end without a return; there are none exactly when the tree does not let
      the body complete normally. */
  lemma AnswersExactlyWhenStuck(body: seq<Node>)
    ensures AlwaysAnswers(body) <==> !Can(Node(Block, body), Completing)
  {
    hide Exec, Can;
    var root := Node(Block, body);
    EndsExactlyWhenAllowed(root);
    if Can(root, Completing) {
      var env, c :| Ends(root, env, c);
      assert RunBody(body, env, c).flow.Next?;
    } else {
      forall env, c ensures !RunBody(body, env, c).flow.Next? { assert !Ends(root, env, c); }
    }
  }

  function Last(nodes: seq<Node>): Node
    requires nodes != []
  {
    nodes[|nodes| - 1]
  }

  /** A method that ends in a `try` whose body ends in a return and whose handlers all end in `raise` answers in every
      run, whatever its other statements are. */
  lemma GuardedReturnAnswers(before: seq<Node>, body: seq<Node>, handlers: seq<Node>)
    requires body != [] && Last(body).tag.Return?
    requires forall h :: h in handlers ==> h.tag.Handler? && |h.kids| > 1 && Last(h.kids).tag.Raise?
    ensures AlwaysAnswers(before + [Node(Try, [Node(Block, body)] + handlers + [Node(Block, [])])])
  {
    var tried := Node(Block, body);
    var n := Node(Try, [tried] + handlers + [Node(Block, [])]);
    assert !Can(tried, Completing) by { LastIsStuck(tried, 0); }
    assert n.kids[0] == tried && !CanAt(n, 0, Completing);
    assert !CanDispatch(n, 1, Completing) by { NoHandlerCompletes(n, 1); }
    assert !Can(n, Completing);
    var root := Node(Block, before + [n]);
    LastIsStuck(root, 0);
    AnswersExactlyWhenStuck(before + [n]);
  }

  lemma {:induction false} NoHandlerCompletes(n: Node, j: nat)
    requires forall i :: j <= i < |n.kids| - 1 ==>
               n.kids[i].tag.Handler? && |n.kids[i].kids| > 1 && Last(n.kids[i].kids).tag.Raise?
    ensures !CanDispatch(n, j, Completing)
    decreases |n.kids| - j
  {
    if j + 1 < |n.kids| {
      NoHandlerCompletes(n, j + 1);
      LastIsStuck(n.kids[j], 1);
    }
  }

  lemma {:induction false} LastIsStuck(n: Node, i: nat)
    requires i < |n.kids| && !Can(Last(n.kids), Completing)
    ensures !CanInOrder(n, i, Completing)
    decreases |n.kids| - i
  {
    hide Can;
    if i < |n.kids| - 1 {
      LastIsStuck(n, i + 1);
    }
  }

  /** The linter on one method, end to end. */
  method LintMethod(body: seq<Node>, docs: Docs) returns (verdict: Verdict, inferred: Inference)
    ensures Infers(BindingsAll(PreorderAll(body)), inferred)
    ensures exists actuals :: VisibleReturns(PreorderAll(body), inferred, actuals)
                              && verdict == Overall(Members(actuals), docs)
    ensures AllPlain(body, inferred) && verdict in {Valid, Refactorable} ==> Guarantees(body, inferred, docs)
    ensures AllPlain(body, inferred) && verdict == Mismatch ==> exists ret :: Violates(ret, body, inferred, docs)
  {
    hide AllPlain, Infers, BindingsAll, PreorderAll, VisibleReturns, Overall, Members, Guarantees, Violates;
    var actuals;
    actuals, inferred := ActualResponses(body);
    var reported;
    verdict, reported := ClassifyMethod(actuals, docs);
    if AllPlain(body, inferred) && verdict in {Valid, Refactorable} {
      PassedIsGuaranteed(body, inferred, actuals, docs);
    }
    if AllPlain(body, inferred) && verdict == Mismatch { MismatchIsReal(body, inferred, actuals, docs); }
  }

  // ---------- Bindings the linter does not see ----------

  /** An assignment of a model call keeps every name as inferred exactly when each inferred name it binds is last
      bound as a plain name, given that the recorded names agree. */
  lemma AssignmentIsSoundExactlyWhenPlain(targets: seq<Target>, made: ModelValue, env: Env, inferred: Inference)
    requires EnvFits(env, inferred)
    requires forall x :: x in NamesAll(targets) && x in inferred ==> Fits(Instance(made), inferred[x])
    ensures EnvFits(BindAll(targets, Instance(made), env), inferred)
       <==> forall x :: x in inferred && x in BoundAll(targets) ==> PlainLast(targets, x)
  {
    hide NamesAll, BoundAll, BindAll, PlainLast;
    var after := BindAll(targets, Instance(made), env);
    forall x | x in inferred && x in BoundAll(targets) && PlainLast(targets, x) ensures x in NamesAll(targets) {
      PlainIsRecorded(targets, x);
    }
    forall x ensures x in after <==> x in env || x in BoundAll(targets)
      ensures x in after ==>
                after[x] == if x !in BoundAll(targets) then env[x]
                            else if PlainLast(targets, x) then Instance(made) else Opaque
    {
      BoundValue(targets, Instance(made), env, x);
    }
    if EnvFits(after, inferred) {
      forall x | x in inferred && x in BoundAll(targets) ensures PlainLast(targets, x) {
        assert Fits(after[x], inferred[x]);
      }
    }
  }

  /** `x = M()` */
  function Making(x: string, made: ModelValue): Node {
    Node(Assign([Name(x)]), [Node(ModelCall(made), [])])
  }

  /** `return x.model_dump()` */
  function Dumping(x: string): Node {
    Node(Return(Default200), [Node(VariableDump(x), [])])
  }

  /** A statement that binds names: an assignment of a model call or of something else, a nested scope, or another
      unrecorded binding. */
  predicate Binder(n: Node) {
    || n.tag.Scope?
    || (n.tag.Unrecorded? && n.kids == [])
    || (n.tag.Assign? && |n.kids| == 1 && n.kids[0].kids == []
        && (n.kids[0].tag.ModelCall? || n.kids[0].tag.OtherConst?))
  }

  /** `x = M(); n; return x.model_dump()`, or the same without the first statement. */
  function Rebinding(first: bool, n: Node, x: string, made: ModelValue): seq<Node> {
    (if first then [Making(x, made)] else []) + [n, Dumping(x)]
  }

  lemma OneKidWalk(n: Node, kid: Node)
    requires n.kids == [kid] && kid.kids == [] && !n.tag.Scope?
    ensures Preorder(n) == [n, kid]
  {
    assert PreorderAll(kid.kids) == [] && PreorderAll(n.kids[1..]) == [];
    assert PreorderAll(n.kids) == Preorder(kid) + PreorderAll(n.kids[1..]);
  }

  /** The children of a binder that are walked. */
  function Walked(n: Node): seq<Node> {
    if n.tag.Scope? then [] else n.kids
  }

  /** The walk of that method. */
  lemma RebindingPreorder(first: bool, n: Node, x: string, made: ModelValue)
    requires Binder(n)
    ensures PreorderAll(Rebinding(first, n, x, made))
         == (if first then [Making(x, made), Making(x, made).kids[0]] else [])
            + ([n] + Walked(n)) + [Dumping(x), Dumping(x).kids[0]]
  {
    var make, ret := Making(x, made), Dumping(x);
    OneKidWalk(make, make.kids[0]);
    OneKidWalk(ret, ret.kids[0]);
    assert Preorder(n) == [n] + Walked(n) by {
      if !n.tag.Scope? && n.kids != [] { OneKidWalk(n, n.kids[0]); }
    }
    EmptyWalk();
    hide *;
    WalkOfFirst([ret]);
    WalkOfFirst([n, ret]);
    WalkOfFirst([make, n, ret]);
    assert [ret][1..] == [] && [n, ret][1..] == [ret] && [make, n, ret][1..] == [n, ret];
    assert Rebinding(first, n, x, made) == if first then [make, n, ret] else [n, ret] by {
      RebindingIs(first, n, x, made);
    }
  }

  lemma RebindingIs(first: bool, n: Node, x: string, made: ModelValue)
    ensures Rebinding(first, n, x, made) == if first then [Making(x, made), n, Dumping(x)] else [n, Dumping(x)]
  {
  }

  lemma MemberOfParts(m: Node, a: seq<Node>, b: seq<Node>, c: seq<Node>)
    ensures m in a + b + c <==> m in a || m in b || m in c
  {
  }

  /** The nodes of the walk that matter: the binders and the return. */
  lemma RebindingMember(first: bool, n: Node, x: string, made: ModelValue, m: Node)
    requires Binder(n)
    ensures var walk := PreorderAll(Rebinding(first, n, x, made));
            && (m == n || m == Dumping(x) || (first && m == Making(x, made)) ==> m in walk)
            && (m in walk ==> m == n || m == Dumping(x) || (first && m == Making(x, made)) || Inert(m))
  {
    RebindingPreorder(first, n, x, made);
    var make, ret := Making(x, made), Dumping(x);
    assert Inert(make.kids[0]) && Inert(ret.kids[0]) && forall kid :: kid in Walked(n) ==> Inert(kid);
    hide *;
    var a, b, c := if first then [make, make.kids[0]] else [], [n] + Walked(n), [ret, ret.kids[0]];
    MemberOfParts(m, a, b, c);
  }

  lemma RebindingWalk(first: bool, n: Node, x: string, made: ModelValue)
    requires Binder(n)
    ensures var walk := PreorderAll(Rebinding(first, n, x, made));
            && n in walk && Dumping(x) in walk && (first ==> Making(x, made) in walk)
            && forall m :: m in walk ==>
                 m == n || m == Dumping(x) || (first && m == Making(x, made)) || Inert(m)
  {
    hide *;
    var walk := PreorderAll(Rebinding(first, n, x, made));
    RebindingMember(first, n, x, made, n);
    RebindingMember(first, n, x, made, Dumping(x));
    RebindingMember(first, n, x, made, Making(x, made));
    forall m | m in walk ensures m == n || m == Dumping(x) || (first && m == Making(x, made)) || Inert(m) {
      RebindingMember(first, n, x, made, m);
    }
  }

  /** A node that binds and returns nothing. */
  predicate Inert(m: Node) {
    m.tag.ModelCall? || m.tag.OtherConst? || m.tag.VariableDump?
  }

  lemma InertBindsNothing(m: Node, x: string)
    requires Inert(m) || m.tag.Return?
    ensures Bindings(m) == [] && PlainName(m, x)
  {
  }

  lemma MakingBinds(x: string, made: ModelValue)
    ensures Bindings(Making(x, made)) == [Binding(x, Some(made))] && forall y :: PlainName(Making(x, made), y)
  {
    assert NamesAll([Name(x)]) == [x] by {
      assert [Name(x)][1..] == [];
      assert NamesAll([Name(x)]) == Names(Name(x)) + NamesAll([Name(x)][1..]);
    }
    forall y ensures PlainLast([Name(x)], y) { assert BoundAll([Name(x)][1..]) == []; }
  }

  /** The analysis maps x to the model. */
  lemma RebindingInference(first: bool, n: Node, x: string, made: ModelValue, inferred: Inference)
    requires Binder(n) && (x in Recorded(n).0 ==> Recorded(n).1 == Some(made)) && (first || x in Recorded(n).0)
    requires Infers(BindingsAll(PreorderAll(Rebinding(first, n, x, made))), inferred)
    ensures x in inferred && inferred[x] == made
  {
    hide PreorderAll, Summarized, Single, BindingsAll, Rebinding, Binder;
    var walk := PreorderAll(Rebinding(first, n, x, made));
    var bindings := BindingsAll(walk);
    RebindingWalk(first, n, x, made);
    MakingBinds(x, made);
    forall b | b in bindings && b.name == x ensures b.made == Some(made) {
      var m := CollectedIsBound(walk, b);
      if Inert(m) || m == Dumping(x) { InertBindsNothing(m, x); }
    }
    var source := if first then Making(x, made) else n;
    var own := Binding(x, Some(made));
    assert own in Bindings(source) by { if !first { BindsRecorded(n, x); } }
    BindingIsCollected(walk, source, own);
    var i :| 0 <= i < |bindings| && bindings[i] == own;
    assert Unanimous(bindings, x, made);
    InferredMeans(bindings, x, made);
  }

  lemma Operating(n: Node, env: Env)
    requires Operates(n.tag)
    ensures Exec(n, env, Choice(0, [])) == Operate(n, env, Choice(0, []))
  {
    hide Operate;
  }

  lemma OneKidRun(n: Node, kid: Node, env: Env, o: Outcome)
    requires n.kids == [kid] && Operates(n.tag) && o.flow.Next? && Exec(kid, env, Choice(0, [])) == o
    ensures Exec(n, env, Choice(0, [])) == Complete(n, o.value, o.env)
  {
    Operating(n, env);
    hide Exec, Complete;
    var c := Choice(0, []);
    assert Sub(c, 0) == c && At(n, 0, env, c) == o && InOrder(n, 1, o.env, c) == Plainly(o.env);
  }

  lemma NoKidRun(n: Node, env: Env)
    requires n.kids == [] && Operates(n.tag)
    ensures Exec(n, env, Choice(0, [])) == Complete(n, Opaque, env)
  {
    Operating(n, env);
    hide Exec, Complete;
    var c := Choice(0, []);
    assert Sub(c, 0) == c && At(n, 0, env, c) == Plainly(env) && InOrder(n, 1, env, c) == Plainly(env);
  }

  /** A binder that hides x leaves it holding something else. */
  lemma HiddenRun(n: Node, env: Env, x: string)
    requires Binder(n) && !PlainName(n, x)
    ensures var o := Exec(n, env, Choice(0, []));
            o == Plainly(o.env) && x in o.env && o.env[x] == Opaque
  {
    if n.tag.Assign? {
      var kid := n.kids[0];
      var v := if kid.tag.ModelCall? then Instance(kid.tag.made) else Opaque;
      LeafRun(kid, env, v);
      hide Exec;
      OneKidRun(n, kid, env, Outcome(env, Next, v));
      NotPlainIsBound(n.tag.targets, x);
      BoundValue(n.tag.targets, v, env, x);
    } else if n.tag.Unrecorded? {
      hide Exec;
      NoKidRun(n, env);
    }
  }

  lemma LeafRun(kid: Node, env: Env, v: Value)
    requires kid.kids == [] && (kid.tag.ModelCall? || kid.tag.OtherConst?)
    requires v == if kid.tag.ModelCall? then Instance(kid.tag.made) else Opaque
    ensures Exec(kid, env, Choice(0, [])) == Outcome(env, Next, v)
  {
    assert InOrder(kid, 0, env, Choice(0, [])) == Plainly(env);
  }

  lemma {:induction false} NotPlainIsBound(targets: seq<Target>, x: string)
    requires !PlainLast(targets, x)
    ensures x in BoundAll(targets)
  {
  }

  lemma MakingRun(x: string, made: ModelValue)
    ensures Exec(Making(x, made), map[], Choice(0, [])) == Outcome(map[x := Instance(made)], Next, Opaque)
  {
    var make := Making(x, made);
    LeafRun(make.kids[0], map[], Instance(made));
    OneKidRun(make, make.kids[0], map[], Outcome(map[], Next, Instance(made)));
    OneTarget(Name(x));
  }

  lemma DumpingRun(env: Env, x: string)
    requires x in env && env[x] == Opaque
    ensures Exec(Dumping(x), env, Choice(0, [])).flow == Returned(Dumping(x), Opaque)
  {
    var kid := Dumping(x).kids[0];
    assert InOrder(kid, 0, env, Choice(0, [])) == Plainly(env);
    assert Exec(kid, env, Choice(0, [])) == Outcome(env, Next, Opaque);
    OneKidRun(Dumping(x), kid, env, Outcome(env, Next, Opaque));
  }

  lemma NextStatement(n: Node, i: nat, env: Env, after: Env)
    requires i < |n.kids| && Exec(n.kids[i], env, Choice(0, [])) == Outcome(after, Next, Opaque)
    ensures InOrder(n, i, env, Choice(0, [])) == InOrder(n, i + 1, after, Choice(0, []))
  {
    hide Exec;
    assert Sub(Choice(0, []), i) == Choice(0, []);
  }

  lemma LastStatement(n: Node, i: nat, env: Env)
    requires i < |n.kids| && Exec(n.kids[i], env, Choice(0, [])).flow.Returned?
    ensures InOrder(n, i, env, Choice(0, [])).flow == Exec(n.kids[i], env, Choice(0, [])).flow
  {
    hide Exec;
    assert Sub(Choice(0, []), i) == Choice(0, []);
  }

  lemma RebindingRun(first: bool, n: Node, x: string, made: ModelValue)
    requires Binder(n) && !PlainName(n, x)
    ensures RunBody(Rebinding(first, n, x, made), map[], Choice(0, [])).flow == Returned(Dumping(x), Opaque)
  {
    var body, c := Rebinding(first, n, x, made), Choice(0, []);
    var root := Node(Block, body);
    OrderedBlock(body);
    hide Exec, InOrder, PlainName, Binder;
    var k := if first then 1 else 0;
    var env: Env := if first then map[x := Instance(made)] else map[];
    if first {
      MakingRun(x, made);
      NextStatement(root, 0, map[], env);
    }
    assert root.kids[k] == n && root.kids[k + 1] == Dumping(x);
    HiddenRun(n, env, x);
    var after := Exec(n, env, c).env;
    NextStatement(root, k, env, after);
    DumpingRun(after, x);
    LastStatement(root, k + 1, after);
  }

  lemma OrderedBlock(body: seq<Node>)
    ensures RunBody(body, map[], Choice(0, [])) == InOrder(Node(Block, body), 0, map[], Choice(0, []))
  {
  }

  /**
   The method `x = M(); n; return x.model_dump()`, or without its first statement when n records x, passes
   whenever every recorded assignment of x makes the documented model. The pass is a guarantee exactly when
   n binds x, if at all, last as a plain name. It is none after `a, x = M()`, after `head, *x = rows`, after
   `f = lambda a=(x := rows): a`, after an import or match capture of x, and after a call that rebinds x
   through nonlocal.
   */
  lemma PassIsSoundExactlyWhenPlain(first: bool, n: Node, x: string, made: ModelValue, inferred: Inference,
                                    actuals: seq<Actual>)
    requires Binder(n) && (x in Recorded(n).0 ==> Recorded(n).1 == Some(made)) && (first || x in Recorded(n).0)
    requires Infers(BindingsAll(PreorderAll(Rebinding(first, n, x, made))), inferred)
    requires VisibleReturns(PreorderAll(Rebinding(first, n, x, made)), inferred, actuals)
    ensures var body, docs := Rebinding(first, n, x, made), map[200 := Some(made.model)];
            && Overall(Members(actuals), docs) == (if made.source == Constructor then Valid else Refactorable)
            && (Guarantees(body, inferred, docs) <==> PlainName(n, x))
  {
    RebindingInference(first, n, x, made, inferred);
    RebindingVerdict(first, n, x, made, inferred, actuals);
    hide *;
    if PlainName(n, x) {
      RebindingHolds(first, n, x, made, inferred, actuals);
    } else {
      RebindingFails(first, n, x, made, inferred);
    }
  }

  lemma RebindingHolds(first: bool, n: Node, x: string, made: ModelValue, inferred: Inference, actuals: seq<Actual>)
    requires Binder(n) && PlainName(n, x)
    requires Infers(BindingsAll(PreorderAll(Rebinding(first, n, x, made))), inferred)
    requires VisibleReturns(PreorderAll(Rebinding(first, n, x, made)), inferred, actuals)
    requires Overall(Members(actuals), map[200 := Some(made.model)]) in {Valid, Refactorable}
    ensures Guarantees(Rebinding(first, n, x, made), inferred, map[200 := Some(made.model)])
  {
    hide *;
    RebindingIsPlain(first, n, x, made, inferred);
    PassedIsGuaranteed(Rebinding(first, n, x, made), inferred, actuals, map[200 := Some(made.model)]);
  }

  lemma RebindingFails(first: bool, n: Node, x: string, made: ModelValue, inferred: Inference)
    requires Binder(n) && !PlainName(n, x)
    ensures !Guarantees(Rebinding(first, n, x, made), inferred, map[200 := Some(made.model)])
  {
    var docs := map[200 := Some(made.model)];
    assert !Conforming(Returned(Dumping(x), Opaque), docs);
    RebindingRun(first, n, x, made);
    hide Rebinding, RunBody, Conforming, Trusted, PlainName, Binder;
    var env: Env := map[];
    assert Entry(env, Trusted(Rebinding(first, n, x, made), inferred));
    assert RunBody(Rebinding(first, n, x, made), env, Choice(0, [])).flow == Returned(Dumping(x), Opaque);
  }

  lemma RebindingIsPlain(first: bool, n: Node, x: string, made: ModelValue, inferred: Inference)
    requires Binder(n) && PlainName(n, x)
    ensures AllPlain(Rebinding(first, n, x, made), inferred)
  {
    var body := Rebinding(first, n, x, made);
    forall y | y in Trusted(body, inferred) ensures PlainThroughout(body, y) {
      RebindingTrusts(first, n, x, made, inferred, y);
      hide PreorderAll, PlainName, Rebinding, Binder;
      RebindingWalk(first, n, x, made);
      MakingBinds(x, made);
      forall m | m in PreorderAll(body) ensures PlainName(m, x) {
        if Inert(m) || m == Dumping(x) { InertBindsNothing(m, x); }
      }
    }
  }

  lemma RebindingTrusts(first: bool, n: Node, x: string, made: ModelValue, inferred: Inference, y: string)
    requires Binder(n) && y in Trusted(Rebinding(first, n, x, made), inferred)
    ensures y == x
  {
    hide PreorderAll, Rebinding;
    RebindingWalk(first, n, x, made);
    var ret :| ret in PreorderAll(Rebinding(first, n, x, made)) && Dumps(ret, y);
    assert ret == Dumping(x);
  }

  /** What the linter makes of `return x.model_dump()` when x is inferred to hold the made value. */
  function DumpedActual(made: ModelValue): Actual {
    Actual(Some(200), if made.source == Constructor then ModelBody else VariableBody, Some(made.model))
  }

  lemma RebindingVerdict(first: bool, n: Node, x: string, made: ModelValue, inferred: Inference, actuals: seq<Actual>)
    requires Binder(n) && x in inferred && inferred[x] == made
    requires VisibleReturns(PreorderAll(Rebinding(first, n, x, made)), inferred, actuals)
    ensures Overall(Members(actuals), map[200 := Some(made.model)])
         == if made.source == Constructor then Valid else Refactorable
  {
    RebindingReturns(first, n, x, made, inferred, actuals);
    DumpedVerdict(made);
    hide *;
  }

  lemma DumpedVerdict(made: ModelValue)
    ensures Overall({DumpedActual(made)}, map[200 := Some(made.model)])
         == if made.source == Constructor then Valid else Refactorable
  {
    var only := DumpedActual(made);
    assert only in {only};
  }

  lemma RebindingReturns(first: bool, n: Node, x: string, made: ModelValue, inferred: Inference, actuals: seq<Actual>)
    requires Binder(n) && x in inferred && inferred[x] == made
    requires VisibleReturns(PreorderAll(Rebinding(first, n, x, made)), inferred, actuals)
    ensures Members(actuals) == {DumpedActual(made)}
  {
    var walk := PreorderAll(Rebinding(first, n, x, made));
    RebindingWalk(first, n, x, made);
    assert ActualOf(Dumping(x), inferred) == DumpedActual(made);
    assert !n.tag.Return?;
    hide PreorderAll, Rebinding, Binder, KindOf, DumpedActual;
    assert forall m :: m in walk && m.tag.Return? ==> m == Dumping(x);
  }
}
