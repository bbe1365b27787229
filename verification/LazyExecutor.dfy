/**
 * The once-only executor initialiser (ssamd/src/package.rs, LazyExecutor), first for one caller and
 * then for any number of concurrent calls of get, which may also be cancelled at any await point.
 */
module LazyExecutor {
  import opened Wrappers

  /******* One caller *******/

  class Lazy<Args, Exec(==)> {
    var initArgs: Option<Args>
    var cell: Option<Exec>

    constructor (args: Args)
      ensures initArgs == Some(args) && cell == None
    {
      initArgs, cell := Some(args), None;
    }

    /** get, with the executor constructor as a function that may fail. */
    method Get(construct: Args -> Option<Exec>) returns (r: Option<Exec>)
      modifies this
      ensures old(cell).Some? ==> r == old(cell) && cell == old(cell) && initArgs == old(initArgs)
      ensures old(cell).None? && old(initArgs).None? ==> r == None && cell == None && initArgs == None
      ensures old(cell).None? && old(initArgs).Some? ==>
                r == construct(old(initArgs).value) && cell == r && initArgs == None
    {
      if cell.Some? {
        return cell;
      }
      if initArgs.None? {
        return None;
      }
      var args := initArgs.value;
      initArgs := None;
      r := construct(args);
      cell := r;
    }
  }

  /******* Concurrent calls *******/

  type CallId = nat
  type ExecutorId = nat

  /** Where one call of get is; Holding and Building hold the permit of the once cell. */
  datatype Pc = Waiting | Holding | Building | Returned(result: Option<ExecutorId>) | Cancelled

  /** constructions counts how often the executor constructor was started. */
  datatype State = State(
    args: bool, cell: Option<ExecutorId>, permit: Option<CallId>, calls: map<CallId, Pc>, constructions: nat)

  const INITIAL := State(true, None, None, map[], 0)

  /** One atomic step between await points; a step that is not enabled changes nothing. */
  datatype Event =
    | Call(id: CallId)
    | Acquire(id: CallId)
    | Take(id: CallId)
    | Finish(id: CallId, outcome: Option<ExecutorId>)
    | Cancel(id: CallId)

  function Return(s: State, id: CallId, r: Option<ExecutorId>): State {
    s.(calls := s.calls[id := Returned(r)])
  }

  function Step(s: State, e: Event): State {
    match e
    case Call(id) =>
      if id in s.calls then s
      else if s.cell.Some? then Return(s, id, s.cell)
      else s.(calls := s.calls[id := Waiting])
    case Acquire(id) =>
      if id !in s.calls || s.calls[id] != Waiting then s
      else if s.cell.Some? then Return(s, id, s.cell)
      else if s.permit.Some? then s
      else s.(permit := Some(id), calls := s.calls[id := Holding])
    case Take(id) =>
      if id !in s.calls || s.calls[id] != Holding then s
      else if s.args then s.(args := false, calls := s.calls[id := Building], constructions := s.constructions + 1)
      else Return(s.(permit := None), id, None)
    case Finish(id, outcome) =>
      if id !in s.calls || s.calls[id] != Building then s
      else Return(s.(permit := None, cell := outcome), id, outcome)
    case Cancel(id) =>
      if id !in s.calls || s.calls[id].Returned? then s
      else s.(permit := if s.permit == Some(id) then None else s.permit, calls := s.calls[id := Cancelled])
  }

  function Run(s: State, events: seq<Event>): State
    decreases |events|
  {
    if events == [] then s else Step(Run(s, Init(events)), Last(events))
  }

  /** A call that holds the permit. */
  predicate Inside(pc: Pc) {
    pc == Holding || pc == Building
  }

  ghost predicate Inv(s: State) {
    && s.constructions == (if s.args then 0 else 1)
    && (s.permit.Some? ==> s.permit.value in s.calls && Inside(s.calls[s.permit.value]))
    && (forall id :: id in s.calls && Inside(s.calls[id]) ==> s.permit == Some(id))
    && (forall id :: id in s.calls && s.calls[id] == Building ==> !s.args)
    && (s.cell.Some? ==> !s.args && s.permit.None?)
    && (forall id :: id in s.calls && s.calls[id].Returned? && s.calls[id].result.Some? ==>
          s.cell == s.calls[id].result)
    && (forall id :: id in s.calls && s.calls[id] == Returned(None) ==> !s.args)
  }

  lemma StepKeepsInv(s: State, e: Event)
    requires Inv(s)
    ensures Inv(Step(s, e))
  {
  }

  lemma {:induction false} RunKeepsInv(s: State, events: seq<Event>)
    requires Inv(s)
    ensures Inv(Run(s, events))
    decreases |events|
  {
    if events != [] {
      RunKeepsInv(s, Init(events));
      StepKeepsInv(Run(s, Init(events)), Last(events));
    }
  }

  /** Call id has returned executor e. */
  predicate Got(s: State, id: CallId, e: ExecutorId) {
    id in s.calls && s.calls[id] == Returned(Some(e))
  }

  /** Under every interleaving the constructor runs at most once, and all successful calls agree. */
  lemma AtMostOnce(events: seq<Event>)
    ensures var s := Run(INITIAL, events);
            && s.constructions <= 1
            && forall a, b, e, e' :: Got(s, a, e) && Got(s, b, e') ==> e == e'
  {
    RunKeepsInv(INITIAL, events);
  }

  /** Calls that return during the later events. */
  predicate ReturnsIn(s: State, events: seq<Event>, id: CallId) {
    && id in Run(s, events).calls && Run(s, events).calls[id].Returned?
    && !(id in s.calls && s.calls[id].Returned?)
  }

  /** Once initialisation succeeded, the executor never changes and every later return is that executor. */
  lemma {:induction false} SuccessIsForever(s: State, events: seq<Event>)
    requires Inv(s) && s.cell.Some?
    ensures Run(s, events).cell == s.cell && Run(s, events).constructions == s.constructions
    ensures forall id :: ReturnsIn(s, events, id) ==> Run(s, events).calls[id] == Returned(s.cell)
    decreases |events|
  {
    if events != [] {
      var before := Run(s, Init(events));
      SuccessIsForever(s, Init(events));
      RunKeepsInv(s, Init(events));
      forall id | ReturnsIn(s, events, id) ensures Run(s, events).calls[id] == Returned(s.cell) {
        if id in before.calls && before.calls[id].Returned? {
          assert ReturnsIn(s, Init(events), id);
        }
      }
    }
  }

  /** The arguments are used up, nothing was built, and nobody is building: initialisation failed. */
  predicate Failed(s: State) {
    !s.args && s.cell.None? && !(s.permit.Some? && s.permit.value in s.calls && s.calls[s.permit.value] == Building)
  }

  /** Once initialisation failed or its caller was cancelled, it is not retried: every later return is an error. */
  lemma {:induction false} FailureIsForever(s: State, events: seq<Event>)
    requires Inv(s) && Failed(s)
    ensures Failed(Run(s, events)) && Run(s, events).constructions == s.constructions
    ensures forall id :: ReturnsIn(s, events, id) ==> Run(s, events).calls[id] == Returned(None)
    decreases |events|
  {
    if events != [] {
      var before := Run(s, Init(events));
      FailureIsForever(s, Init(events));
      RunKeepsInv(s, Init(events));
      forall id | ReturnsIn(s, events, id) ensures Run(s, events).calls[id] == Returned(None) {
        if id in before.calls && before.calls[id].Returned? {
          assert ReturnsIn(s, Init(events), id);
        }
      }
    }
  }

  /** Both an unsuccessful construction and a cancelled one end in that state. */
  lemma FailureCauses(s: State, id: CallId)
    requires Inv(s) && id in s.calls && s.calls[id] == Building
    ensures Failed(Step(s, Finish(id, None))) && Failed(Step(s, Cancel(id)))
  {
  }

  /** The first call to get through the permit with the arguments still there builds and returns the executor. */
  lemma FirstCallBuilds(s: State, id: CallId, outcome: Option<ExecutorId>)
    requires Inv(s) && s.args && s.permit.None? && id in s.calls && s.calls[id] == Waiting
    ensures var t := Run(s, [Acquire(id), Take(id), Finish(id, outcome)]);
            && id in t.calls && t.calls[id] == Returned(outcome) && t.cell == outcome
            && t.permit.None? && !t.args && t.constructions == 1
  {
    var es := [Acquire(id), Take(id), Finish(id, outcome)];
    assert Init(es) == [Acquire(id), Take(id)] && Init(Init(es)) == [Acquire(id)] && Init([Acquire(id)]) == [];
    assert Run(s, Init(Init(es))) == Step(s, Acquire(id));
    assert Run(s, Init(es)) == Step(Step(s, Acquire(id)), Take(id));
  }

  /** Before the arguments are taken, a cancelled call leaves everything to the next one. */
  lemma CancelBeforeTake(s: State, id: CallId)
    requires Inv(s) && id in s.calls && (s.calls[id] == Waiting || s.calls[id] == Holding)
    ensures Step(s, Cancel(id)) ==
            s.(permit := if s.calls[id] == Holding then None else s.permit, calls := s.calls[id := Cancelled])
  {
  }

  /** Once the executor is there, a new call returns it at once, and a waiting one as soon as it goes on. */
  lemma ReturnsAtOnce(s: State, id: CallId)
    requires s.cell.Some?
    ensures id !in s.calls ==> Step(s, Call(id)) == s.(calls := s.calls[id := Returned(s.cell)])
    ensures id in s.calls && s.calls[id] == Waiting ==>
              Step(s, Acquire(id)) == s.(calls := s.calls[id := Returned(s.cell)])
  {
  }
}
