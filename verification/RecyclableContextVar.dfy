/**
 Context variables that survive thread recycling. One counter per thread counts the
 requests it has served; each variable counts its own updates. Comparing the two counters
 must make every variable behave like an optional slot that the start of a request clears.

 A lookup that raises LookupError, or returns the caller's default, is the result None.
 */
module RecyclableContextVar {

  import opened Options

  /** One wrapped variable as seen by one thread: its update counter and its ContextVar. */
  datatype Cell<T> = Cell(updates: nat, stored: Option<T>)

  /** `_thread_recycles.get(0)` */
  function Recycles(counter: Option<nat>): nat {
    if counter.Some? then counter.value else 0
  }

  function Incremented(counter: Option<nat>): Option<nat> {
    if counter.Some? then Some(counter.value + 1) else Some(0)
  }

  function CaughtUp<T>(c: Cell<T>, recycles: nat): Cell<T> {
    if recycles > c.updates then c.(updates := recycles) else c
  }

  function Visible<T>(c: Cell<T>, recycles: nat): Option<T> {
    if recycles < c.updates then c.stored else None
  }

  function AfterSet<T>(c: Cell<T>, recycles: nat, value: T): Cell<T> {
    var caughtUp := CaughtUp(c, recycles);
    Cell(if caughtUp.updates == recycles then recycles + 1 else caughtUp.updates, Some(value))
  }

  // ---------- The objects ----------

  /** The class-level counter, shared by all wrappers. */
  class ThreadRecycles {
    var counter: Option<nat>

    constructor ()
      ensures counter == None
    { counter := None; }

    method Increment()
      modifies this
      ensures counter == Incremented(old(counter))
    {
      if counter.Some? {
        counter := Some(counter.value + 1);
      } else {
        counter := Some(0);
      }
    }
  }

  class Wrapper<T> {
    const thread: ThreadRecycles
    var updates: nat
    var contextVar: Option<T>

    ghost predicate Valid()
      reads this, thread
    {
      && updates <= Recycles(thread.counter) + 1
      && (Recycles(thread.counter) < updates ==> contextVar.Some?)
    }

    /** What this variable holds in the current request. */
    ghost function Slot(): Option<T>
      reads this, thread
    {
      Visible(Cell(updates, contextVar), Recycles(thread.counter))
    }

    constructor (thread: ThreadRecycles)
      ensures this.thread == thread && Valid() && Slot() == None
      ensures updates == 0 && contextVar == None
    {
      this.thread := thread;
      updates := 0;
      contextVar := None;
    }

    method Get() returns (r: Option<T>)
      requires Valid()
      modifies this
      ensures Valid() && r == old(Slot()) == Slot()
      ensures Cell(updates, contextVar) == CaughtUp(old(Cell(updates, contextVar)), Recycles(thread.counter))
    {
      var recycles := Recycles(thread.counter);
      var selfUpdates := updates;
      if recycles > selfUpdates {
        updates := recycles;
      }
      if recycles < selfUpdates {
        return contextVar;
      } else {
        return None;
      }
    }

    method Set(value: T)
      requires Valid()
      modifies this
      ensures Valid() && Slot() == Some(value)
      ensures Cell(updates, contextVar) == AfterSet(old(Cell(updates, contextVar)), Recycles(thread.counter), value)
    {
      var recycles := Recycles(thread.counter);
      if recycles > updates {
        updates := recycles;
      }
      if updates == recycles {
        updates := updates + 1;
      }
      contextVar := Some(value);
    }
  }

  // ---------- Runs over any number of variables ----------

  datatype Op = Increment | Get(name: string) | Set(name: string, value: int)

  datatype State = State(counter: Option<nat>, cells: map<string, Cell<int>>)

  const INITIAL := State(None, map[])

  function CellOf(s: State, name: string): Cell<int> {
    if name in s.cells then s.cells[name] else Cell(0, None)
  }

  function Step(s: State, op: Op): State {
    match op
    case Increment => s.(counter := Incremented(s.counter))
    case Get(name) => s.(cells := s.cells[name := CaughtUp(CellOf(s, name), Recycles(s.counter))])
    case Set(name, value) => s.(cells := s.cells[name := AfterSet(CellOf(s, name), Recycles(s.counter), value)])
  }

  function Run(ops: seq<Op>): State {
    if ops == [] then INITIAL else Step(Run(ops[..|ops| - 1]), ops[|ops| - 1])
  }

  function Lookup(s: State, name: string): Option<int> {
    Visible(CellOf(s, name), Recycles(s.counter))
  }

  /** The specification: a map of slots, emptied at the start of each request. */
  function Slots(ops: seq<Op>): map<string, int> {
    if ops == [] then map[]
    else
      var before := Slots(ops[..|ops| - 1]);
      match ops[|ops| - 1]
      case Increment => map[]
      case Get(_) => before
      case Set(name, value) => before[name := value]
  }

  function SlotOf(slots: map<string, int>, name: string): Option<int> {
    if name in slots then Some(slots[name]) else None
  }

  /** After these operations a lookup of any variable returns exactly what its slot holds. */
  ghost predicate Agrees(ops: seq<Op>) {
    forall name :: Lookup(Run(ops), name) == SlotOf(Slots(ops), name)
  }

  predicate Increments(ops: seq<Op>) {
    exists i :: 0 <= i < |ops| && ops[i].Increment?
  }

  predicate Sets(ops: seq<Op>) {
    exists i :: 0 <= i < |ops| && ops[i].Set?
  }

  ghost predicate CellsInv(s: State) {
    forall name :: CellOf(s, name).updates <= Recycles(s.counter) + 1
                   && (Recycles(s.counter) < CellOf(s, name).updates ==> CellOf(s, name).stored.Some?)
  }

  lemma StepKeepsCellsInv(s: State, op: Op)
    requires CellsInv(s)
    ensures CellsInv(Step(s, op))
  {
    var t := Step(s, op);
    forall name ensures CellOf(t, name).updates <= Recycles(t.counter) + 1
                        && (Recycles(t.counter) < CellOf(t, name).updates ==> CellOf(t, name).stored.Some?) {
      assert CellOf(s, name).updates <= Recycles(s.counter) + 1;
    }
  }

  /** Once the counter exists every step keeps a lookup equal to its slot; before that only Increment can break it. */
  lemma StepAgrees(ops: seq<Op>, op: Op)
    requires Agrees(ops) && CellsInv(Run(ops))
    requires op.Increment? ==> Run(ops).counter.Some? || Slots(ops) == map[]
    ensures Agrees(ops + [op])
  {
    assert (ops + [op])[..|ops|] == ops;
    var s, t := Run(ops), Run(ops + [op]);
    forall name ensures Lookup(t, name) == SlotOf(Slots(ops + [op]), name) {
      assert Lookup(s, name) == SlotOf(Slots(ops), name);
      assert CellOf(s, name).updates <= Recycles(s.counter) + 1;
    }
  }

  lemma {:induction false} BeforeIncrement(ops: seq<Op>)
    requires !Increments(ops)
    ensures Run(ops).counter == None && CellsInv(Run(ops)) && Agrees(ops)
    ensures Slots(ops) == map[] <==> !Sets(ops)
  {
    if ops != [] {
      var n := |ops| - 1;
      var prior := ops[..n];
      assert forall i :: 0 <= i < n ==> prior[i] == ops[i];
      BeforeIncrement(prior);
      StepKeepsCellsInv(Run(prior), ops[n]);
      assert ops == prior + [ops[n]];
      StepAgrees(prior, ops[n]);
      assert Sets(ops) <==> Sets(prior) || ops[n].Set?;
      assert ops[n].Set? ==> ops[n].name in Slots(ops);
    }
  }

  lemma {:induction false} AfterIncrement(before: seq<Op>, rest: seq<Op>)
    requires !Increments(before) && !Sets(before)
    ensures var ops := before + [Increment] + rest;
            Run(ops).counter.Some? && CellsInv(Run(ops)) && Agrees(ops)
  {
    var ops := before + [Increment] + rest;
    var n := |ops| - 1;
    if rest == [] {
      assert ops == before + [Increment] && ops[..n] == before;
      BeforeIncrement(before);
      StepKeepsCellsInv(Run(before), Increment);
      StepAgrees(before, Increment);
    } else {
      var shorter := rest[..|rest| - 1];
      var prior := before + [Increment] + shorter;
      assert ops == prior + [rest[|rest| - 1]] && ops[..n] == prior;
      AfterIncrement(before, shorter);
      StepKeepsCellsInv(Run(prior), ops[n]);
      StepAgrees(prior, ops[n]);
    }
  }

  /** In a run that begins with `increment_thread_recycles`, every variable behaves at every point
      like a slot that increment clears. */
  lemma WrapperRefinesSlot(rest: seq<Op>)
    ensures Agrees([Increment] + rest)
  {
    AfterIncrement([], rest);
    assert [] + [Increment] + rest == [Increment] + rest;
  }

  lemma SetThenIncrementIsVisible(before: seq<Op>)
    requires !Increments(before) && Sets(before)
    ensures !Agrees(before + [Increment])
  {
    BeforeIncrement(before);
    var ops := before + [Increment];
    assert ops[..|before|] == before;
    var name :| name in Slots(before);
    assert Lookup(Run(before), name) == Some(Slots(before)[name]);
    assert Lookup(Run(ops), name) == Some(Slots(before)[name]);
  }

  /** Why the wrapper must be incremented before requests: values set before the first increment survive it,
      and that is the only way a run can deviate from the slots. */
  lemma AgreesExactlyWhenNothingSetEarly(before: seq<Op>)
    requires !Increments(before)
    ensures (forall rest :: Agrees(before + [Increment] + rest)) <==> !Sets(before)
  {
    if Sets(before) {
      SetThenIncrementIsVisible(before);
      assert before + [Increment] + [] == before + [Increment];
    } else {
      forall rest ensures Agrees(before + [Increment] + rest) {
        AfterIncrement(before, rest);
      }
    }
  }
}
