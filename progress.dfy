/** The progress session of `cereja/display.py` (`ProgressBase`, `Progress`,
    `ProgressIterator`) and of its older copy in `lab/console.py`. A session
    keeps an ordered tuple of states, a maximum value and lifecycle flags;
    what it sends to the console (persisting the last line, spawning and
    joining the awaiting thread, disabling, writing a line, logging) is
    recorded as a trace of events. */
module Engine {
  import opened Errors
  import opened Text
  import opened Utils
  import opened Render
  import Console

  /** Which of the two copies of the engine a session follows. */
  datatype Flavour = CerejaDisplay | LabConsole

  /** What a session asks of its console and of its awaiting thread. */
  datatype Event =
    | StatesAdded(added: seq<StateKind>)  // console.log("Added new states! ...")
    | Persisted                           // console.persist_on_runtime()
    | AwaitingSpawned                     // th_awaiting.start()
    | AwaitingJoined                      // th_awaiting.join()
    | Disabled                            // console.disable()
    | Line(states: seq<StateKind>, metrics: Metrics)
                                          // console.replace_last_msg(_states_view(...))
    | ErrorLogged                         // console.error(...) in __exit__

  /** The text a `Line` event writes: the line `_states_view` composes from
      the states and metrics the event records. */
  function LineText(e: Event, time: TimeRenderer): string
    requires e.Line?
  {
    ComposeLine(e.states, e.metrics, time)
  }

  /** The argument of `add_state`: None, one state, or a sequence of them. */
  datatype StateArg = NoState | One(state: StateKind) | Many(states: seq<StateKind>)

  /** The argument of `update_max_value`: a number, or anything else. */
  datatype MaxArg = Number(value: real) | NotANumber

  /** The subscripts `__getitem__`/`__setitem__` distinguish. */
  datatype Key = IntKey(index: int) | TupleKey(indices: seq<int>) | StrKey(name: string)

  datatype Selection = OneState(state: StateKind) | StateTuple(states: seq<StateKind>)

  /** What reaches `__exit__`: no exception, an `Exception` other than a
      `DeprecationWarning`, a `DeprecationWarning`, or a `BaseException`
      that is not an `Exception`. */
  datatype ExitKind = NoException | Ordinary | Deprecation | NotAnException

  const DefaultStates: seq<StateKind> := [Bar, Percent, Time]

  /** The name-to-state map of string subscripts. */
  const KeyMap: map<string, StateKind> := map["loading" := Loading, "time" := Time, "percent" := Percent, "bar" := Bar]

  /** `add_state` wraps a single state in a tuple. */
  function ArgStates(arg: StateArg): seq<StateKind> {
    match arg
    case NoState => []
    case One(s) => [s]
    case Many(ss) => ss
  }

  /** `_filter_and_add_state`'s filter: the given states not already present,
      in the given order. */
  function NewStates(current: seq<StateKind>, given: seq<StateKind>): (r: seq<StateKind>)
    ensures |r| <= |given|
    ensures forall x :: x in r <==> x in given && x !in current
  {
    if |given| == 0 then []
    else (if given[0] in current then [] else [given[0]]) + NewStates(current, given[1..])
  }

  /** The added states keep the order they were given in. */
  lemma {:induction false} NewStatesInOrder(current: seq<StateKind>, given: seq<StateKind>)
    ensures IsSubsequence(NewStates(current, given), given)
  {
    if |given| > 0 {
      NewStatesInOrder(current, given[1..]);
      var rest := NewStates(current, given[1..]);
      if given[0] in current {
        assert NewStates(current, given) == rest;
        SubsequenceOfTail(rest, given);
      } else {
        assert NewStates(current, given) == [given[0]] + rest;
        assert ([given[0]] + rest)[1..] == rest;
      }
    }
  }

  /** Adding the same states a second time adds nothing. */
  lemma NewStatesIdempotent(current: seq<StateKind>, given: seq<StateKind>)
    ensures NewStates(current + NewStates(current, given), given) == []
  {
    NewStatesNone(current + NewStates(current, given), given);
  }

  lemma {:induction false} NewStatesNone(current: seq<StateKind>, given: seq<StateKind>)
    requires forall j :: 0 <= j < |given| ==> given[j] in current
    ensures NewStates(current, given) == []
  {
    if |given| > 0 {
      NewStatesNone(current, given[1..]);
    }
  }

  /** The filter keeps every occurrence of a state not already present, and
      none of one that is: repeats inside one argument are not collapsed. */
  lemma {:induction false} NewStatesCounts(current: seq<StateKind>, given: seq<StateKind>)
    ensures forall x :: x !in current ==> multiset(NewStates(current, given))[x] == multiset(given)[x]
    ensures forall x :: x in current ==> multiset(NewStates(current, given))[x] == 0
  {
    if |given| > 0 {
      NewStatesCounts(current, given[1..]);
      assert given == [given[0]] + given[1..];
      var rest := NewStates(current, given[1..]);
      if given[0] in current {
        assert NewStates(current, given) == rest;
      } else {
        assert NewStates(current, given) == [given[0]] + rest;
      }
    }
  }

  /** For instance, a state given twice is added twice. */
  lemma NewStatesKeepsRepeats(current: seq<StateKind>, s: StateKind)
    requires s !in current
    ensures NewStates(current, [s, s]) == [s, s]
  {
    assert [s, s][1..] == [s];
    assert [s][1..] == [];
  }

  /** A Python index into a sequence of length `n`, counted from the end when
      negative. */
  predicate InRange(i: int, n: int) {
    -n <= i < n
  }

  function Norm(i: int, n: int): int {
    if i < 0 then i + n else i
  }

  /** The position of the first occurrence of `x`, as `tuple.index`. */
  function IndexOf(s: seq<StateKind>, x: StateKind): (r: nat)
    requires x in s
    ensures r < |s| && s[r] == x && forall j :: 0 <= j < r ==> s[j] != x
  {
    if s[0] == x then 0 else 1 + IndexOf(s[1..], x)
  }

  function Max(ix: seq<int>): (m: int)
    requires |ix| > 0
    ensures (forall j :: 0 <= j < |ix| ==> ix[j] <= m) && m in ix
  {
    if |ix| == 1 then ix[0]
    else
      var rest := Max(ix[1..]);
      if ix[0] >= rest then ix[0] else rest
  }

  /** No index lies below minus the length, so none makes the tuple
      comprehension raise. */
  predicate AllIndexable(states: seq<StateKind>, ix: seq<int>) {
    forall j :: 0 <= j < |ix| ==> -|states| <= ix[j]
  }

  /** The indices below `n`, in their order: the `if idx < len(self)` filter
      of `__getitem__`'s tuple comprehension. */
  function Below(ix: seq<int>, n: int): (r: seq<int>)
    ensures |r| <= |ix|
    ensures forall j :: 0 <= j < |r| ==> r[j] < n && r[j] in ix
    ensures forall x :: x in ix && x < n ==> x in r
  {
    if |ix| == 0 then []
    else (if ix[0] < n then [ix[0]] else []) + Below(ix[1..], n)
  }

  /** What the comprehension returns when no index is below minus the
      length: the kept indices, each read as Python reads it. */
  function Kept(states: seq<StateKind>, ix: seq<int>): seq<StateKind>
    requires AllIndexable(states, ix)
  {
    var f := Below(ix, |states|);
    seq(|f|, j requires 0 <= j < |f| => states[Norm(f[j], |states|)])
  }

  /** The tuple comprehension of `__getitem__`: each index below the length
      is looked up (raising `IndexError` below minus the length), the others
      are skipped. */
  function Pick(states: seq<StateKind>, ix: seq<int>): (r: Result<seq<StateKind>>)
    ensures r.Ok? <==> AllIndexable(states, ix)
    ensures r.Err? ==> r.error == IndexError
    ensures r.Ok? ==> r.value == Kept(states, ix)
  {
    if |ix| == 0 then Ok([])
    else if ix[0] >= |states| then Pick(states, ix[1..])
    else if ix[0] < -|states| then Err(IndexError)
    else
      match Pick(states, ix[1..])
      case Ok(rest) => KeptCons(states, ix); Ok([states[Norm(ix[0], |states|)]] + rest)
      case Err(e) => Err(e)
  }

  /** The first index, when kept, gives the first state. */
  lemma KeptCons(states: seq<StateKind>, ix: seq<int>)
    requires |ix| > 0 && ix[0] < |states| && AllIndexable(states, ix)
    ensures Kept(states, ix) == [states[Norm(ix[0], |states|)]] + Kept(states, ix[1..])
  {
    assert Below(ix, |states|) == [ix[0]] + Below(ix[1..], |states|);
  }

  /** The filter drops an index at or past the bound wherever it stands. */
  lemma {:induction false} BelowDropsBeyond(ix: seq<int>, n: int, k: nat, i: int)
    requires k <= |ix| && i >= n
    ensures Below(ix[..k] + [i] + ix[k..], n) == Below(ix, n)
  {
    var w := ix[..k] + [i] + ix[k..];
    if k == 0 {
      assert w == [i] + ix;
      assert w[1..] == ix;
    } else {
      BelowDropsBeyond(ix[1..], n, k - 1, i);
      assert w[0] == ix[0];
      assert w[1..] == ix[1..][..k - 1] + [i] + ix[1..][k - 1..];
    }
  }

  /** Whether the comprehension raises, and what it keeps otherwise. */
  lemma PickIsKept(states: seq<StateKind>, ix: seq<int>)
    ensures Pick(states, ix) == if AllIndexable(states, ix) then Ok(Kept(states, ix)) else Err(IndexError)
  {
  }

  /** Inserting an index that is not below minus the length keeps the
      range check's verdict. */
  lemma IndexableInsert(states: seq<StateKind>, ix: seq<int>, k: nat, i: int)
    requires k <= |ix| && i >= -|states|
    ensures AllIndexable(states, ix[..k] + [i] + ix[k..]) <==> AllIndexable(states, ix)
  {
    var w := ix[..k] + [i] + ix[k..];
    if AllIndexable(states, ix) {
      forall j | 0 <= j < |w| ensures -|states| <= w[j] {
        if j > k { assert w[j] == ix[j - 1]; } else if j < k { assert w[j] == ix[j]; }
      }
    } else {
      var j :| 0 <= j < |ix| && ix[j] < -|states|;
      assert w[if j < k then j else j + 1] == ix[j];
    }
  }

  /** An index at or past the length is silently dropped, wherever it
      stands in the tuple. */
  lemma PickDropsBeyond(states: seq<StateKind>, ix: seq<int>, k: nat, i: int)
    requires k <= |ix| && i >= |states|
    ensures Pick(states, ix[..k] + [i] + ix[k..]) == Pick(states, ix)
  {
    var w := ix[..k] + [i] + ix[k..];
    BelowDropsBeyond(ix, |states|, k, i);
    IndexableInsert(states, ix, k, i);
    PickIsKept(states, w);
    PickIsKept(states, ix);
  }

  /** In particular an index equal to the length, added at the end. */
  lemma PickDropsLength(states: seq<StateKind>, ix: seq<int>)
    ensures Pick(states, ix + [|states|]) == Pick(states, ix)
  {
    PickDropsBeyond(states, ix, |ix|, |states|);
    assert ix[..|ix|] + [|states|] + ix[|ix|..] == ix + [|states|];
  }

  /** The time a view reports as elapsed: zero before the first `start`. */
  function Elapsed(startedTime: Option<real>, now: real): real {
    now - (if startedTime.Some? then startedTime.value else now)
  }

  /** The arguments `_states_view` passes to every state. */
  function ViewMetrics(forValue: real, maxValue: real, startedTime: Option<real>, nTimes: int, now: real): Metrics {
    Metrics(forValue, maxValue, PercentOf(forValue, maxValue), Elapsed(startedTime, now), nTimes)
  }

  function StopEvents(wasStarted: bool): seq<Event> {
    if wasStarted then [AwaitingJoined, Disabled] else []
  }

  /** `start` on a started session first restarts it. */
  function StartEvents(wasStarted: bool): seq<Event> {
    (if wasStarted then StopEvents(true) + [Persisted, AwaitingSpawned] else []) + [Persisted, AwaitingSpawned]
  }

  /** Whether `show_progress` with this maximum restarts the session. */
  predicate Restarts(maxArg: Option<MaxArg>, maxValue: real) {
    maxArg.Some? && maxArg.value.Number? && maxArg.value.value != maxValue
  }

  /** The events of the restart `show_progress` may run first. */
  function RestartTrace(maxArg: Option<MaxArg>, maxValue: real, wasStarted: bool): seq<Event> {
    if Restarts(maxArg, maxValue) then StopEvents(wasStarted) + StartEvents(false) else []
  }

  /** Whether `__exit__` logs the exception it receives. */
  predicate LogsError(flavour: Flavour, exc: ExitKind) {
    match flavour
    case CerejaDisplay => exc == Ordinary
    case LabConsole => exc == Ordinary || exc == Deprecation
  }

  /** The two copies log the same exceptions except a `DeprecationWarning`,
      which only the older copy logs. */
  lemma ExitFlavoursDiffer(exc: ExitKind)
    ensures LogsError(CerejaDisplay, exc) != LogsError(LabConsole, exc) <==> exc == Deprecation
    ensures exc == NoException || exc == NotAnException ==> !LogsError(CerejaDisplay, exc) && !LogsError(LabConsole, exc)
  {
  }

  /** The name `Progress.__init__` shows: a non-empty `task_name` wins. */
  function TaskName(name: string, taskName: Option<string>): string {
    if taskName.Some? && taskName.value != "" then taskName.value else name
  }

  class Progress {
    const flavour: Flavour
    const console: Console.ConsoleBase
    /** The time field's renderer. */
    const timeField: TimeRenderer
    var name: string
    var nTimes: int
    var started: bool
    var awaitingUpdate: bool
    var startedTime: Option<real>
    var maxValue: real
    var states: seq<StateKind>
    var events: seq<Event>

    /** `Progress(name, max_value, states, task_name=..., style=...)` of
        `cereja/display.py`. */
    constructor Cereja(name: string, taskName: Option<string>, maxValue: Option<real>, states: StateArg,
                       style: Option<string>, timeField: TimeRenderer, nonBmpSupported: bool)
      ensures flavour == CerejaDisplay && this.timeField == timeField && fresh(console)
      ensures this.name == TaskName(name, taskName) && console.title == this.name
      ensures nTimes == 0 && !started && awaitingUpdate && startedTime == None
      ensures this.maxValue == if maxValue.Some? && maxValue.value != 0.0 then maxValue.value else 100.0
      ensures var added := NewStates(DefaultStates, ArgStates(states));
              && this.states == (if style == Some("loading") then (DefaultStates + added)[0 := Loading] else DefaultStates + added)
              && events == if added == [] then [] else [StatesAdded(added)]
    {
      flavour := CerejaDisplay;
      this.name := TaskName(name, taskName);
      console := new Console.ConsoleBase(TaskName(name, taskName), nonBmpSupported);
      this.timeField := timeField;
      nTimes := 0;
      started := false;
      awaitingUpdate := true;
      startedTime := None;
      this.states := DefaultStates;
      events := [];
      new;
      AddState(states);
      this.maxValue := 100.0;
      if maxValue.Some? && maxValue.value != 0.0 {
        this.maxValue := maxValue.value;
      }
      if style == Some("loading") {
        var _ := SetItem(IntKey(0), Loading);
      }
    }

    /** `Progress(name, states)` of `lab/console.py`: the maximum is always
        100. */
    constructor Lab(name: string, states: StateArg, timeField: TimeRenderer, nonBmpSupported: bool)
      ensures flavour == LabConsole && this.timeField == timeField && fresh(console)
      ensures this.name == name && console.title == name
      ensures nTimes == 0 && !started && awaitingUpdate && startedTime == None
      ensures maxValue == 100.0
      ensures var added := NewStates(DefaultStates, ArgStates(states));
              this.states == DefaultStates + added && events == if added == [] then [] else [StatesAdded(added)]
    {
      flavour := LabConsole;
      this.name := name;
      console := new Console.ConsoleBase(name, nonBmpSupported);
      this.timeField := timeField;
      nTimes := 0;
      started := false;
      awaitingUpdate := true;
      startedTime := None;
      this.states := DefaultStates;
      events := [];
      new;
      AddState(states);
      maxValue := 100.0;
    }

    /** `add_state`: appends, in argument order, exactly the given states not
        already present, and logs only when something was added. */
    method AddState(arg: StateArg)
      modifies this
      ensures var added := NewStates(old(states), ArgStates(arg));
              && states == old(states) + added
              && events == old(events) + (if added == [] then [] else [StatesAdded(added)])
      ensures nTimes == old(nTimes) && started == old(started) && awaitingUpdate == old(awaitingUpdate)
      ensures startedTime == old(startedTime) && maxValue == old(maxValue) && name == old(name)
    {
      if arg != NoState {
        var filtered := NewStates(states, ArgStates(arg));
        if filtered != [] {
          states := states + filtered;
          events := events + [StatesAdded(filtered)];
        }
      }
    }

    /** `stop`: a no-op unless started; otherwise the awaiting thread is
        stopped and joined, the session is no longer started and the console
        is disabled. */
    method Stop()
      modifies this, console
      ensures !started
      ensures events == old(events) + StopEvents(old(started))
      ensures old(started) ==> !awaitingUpdate && console.title == "Cereja"
      ensures !old(started) ==> unchanged(this) && unchanged(console)
      ensures nTimes == old(nTimes) && startedTime == old(startedTime) && maxValue == old(maxValue)
      ensures states == old(states) && name == old(name)
      ensures console.colorMap == old(console.colorMap) && console.textColor == old(console.textColor)
    {
      if started {
        awaitingUpdate := false;
        events := events + [AwaitingJoined];
        started := false;
        console.Disable();
        events := events + [Disabled];
      }
    }

    /** `start`: a started session is restarted first; then the session is
        started with a fresh counter and a new awaiting thread. */
    method Start(now: real)
      modifies this, console
      decreases if started then 2 else 0
      ensures started && awaitingUpdate && nTimes == 0 && startedTime == Some(now)
      ensures events == old(events) + StartEvents(old(started))
      ensures states == old(states) && maxValue == old(maxValue) && name == old(name)
      ensures console.title == if old(started) then "Cereja" else old(console.title)
      ensures console.colorMap == old(console.colorMap) && console.textColor == old(console.textColor)
    {
      if started {
        Restart(now);
      }
      awaitingUpdate := true;
      startedTime := Some(now);
      started := true;
      events := events + [Persisted];
      events := events + [AwaitingSpawned];
      nTimes := 0;
    }

    /** `restart`: `stop`, then `start`. */
    method Restart(now: real)
      modifies this, console
      decreases 1
      ensures started && awaitingUpdate && nTimes == 0 && startedTime == Some(now)
      ensures events == old(events) + StopEvents(old(started)) + StartEvents(false)
      ensures states == old(states) && maxValue == old(maxValue) && name == old(name)
      ensures console.title == if old(started) then "Cereja" else old(console.title)
      ensures console.colorMap == old(console.colorMap) && console.textColor == old(console.textColor)
    {
      Stop();
      Start(now);
    }

    /** `update_max_value`: a non-number raises and changes nothing, an equal
        value changes nothing, and a different one (of any sign) restarts the
        session and then becomes the maximum. */
    method UpdateMaxValue(arg: MaxArg, now: real) returns (outcome: Outcome)
      modifies this, console
      ensures arg.NotANumber? ==> outcome.Raised? && unchanged(this) && unchanged(console)
      ensures arg.Number? && arg.value == old(maxValue) ==> outcome == Done && unchanged(this) && unchanged(console)
      ensures arg.Number? && arg.value != old(maxValue) ==>
                && outcome == Done && maxValue == arg.value
                && started && awaitingUpdate && nTimes == 0 && startedTime == Some(now)
                && events == old(events) + StopEvents(old(started)) + StartEvents(false)
                && console.title == (if old(started) then "Cereja" else old(console.title))
      ensures states == old(states) && name == old(name)
      ensures console.colorMap == old(console.colorMap) && console.textColor == old(console.textColor)
    {
      if arg.NotANumber? {
        return Raised(Failure("Current value isn't valid."));
      }
      if arg.value != maxValue {
        Restart(now);
        maxValue := arg.value;
      }
      outcome := Done;
    }

    /** `_states_view`: clears the awaiting flag, counts one more view and
        composes the line for `forValue`. */
    method StatesView(forValue: real, now: real) returns (line: string)
      modifies this
      ensures !awaitingUpdate && nTimes == old(nTimes) + 1
      ensures line == ComposeLine(states, ViewMetrics(forValue, maxValue, startedTime, nTimes, now), timeField)
      ensures started == old(started) && startedTime == old(startedTime) && maxValue == old(maxValue)
      ensures states == old(states) && events == old(events) && name == old(name)
    {
      awaitingUpdate := false;
      nTimes := nTimes + 1;
      line := ComposeLine(states, ViewMetrics(forValue, maxValue, startedTime, nTimes, now), timeField);
    }

    /** `show_progress`: an optional new maximum first (which may raise), then
        the composed line is written. */
    method ShowProgress(forValue: real, maxArg: Option<MaxArg>, now: real) returns (outcome: Outcome)
      modifies this, console
      ensures maxArg == Some(NotANumber) ==> outcome.Raised? && unchanged(this) && unchanged(console)
      ensures maxArg != Some(NotANumber) ==>
                && outcome == Done && !awaitingUpdate
                && events == old(events) + RestartTrace(maxArg, old(maxValue), old(started)) +
                             [Line(states, ViewMetrics(forValue, maxValue, startedTime, nTimes, now))]
      ensures maxArg.None? ==>
                && events == old(events) + [Line(states, ViewMetrics(forValue, maxValue, startedTime, nTimes, now))]
                && maxValue == old(maxValue) && started == old(started)
                && nTimes == old(nTimes) + 1 && startedTime == old(startedTime)
      ensures Restarts(maxArg, old(maxValue)) ==>
                maxValue == maxArg.value.value && started && nTimes == 1 && startedTime == Some(now)
      ensures maxArg != Some(NotANumber) && !Restarts(maxArg, old(maxValue)) ==>
                && maxValue == old(maxValue) && started == old(started)
                && nTimes == old(nTimes) + 1 && startedTime == old(startedTime)
      ensures !Restarts(maxArg, old(maxValue)) ==> unchanged(console)
      ensures console.title == if Restarts(maxArg, old(maxValue)) && old(started) then "Cereja" else old(console.title)
      ensures states == old(states) && name == old(name)
      ensures console.colorMap == old(console.colorMap) && console.textColor == old(console.textColor)
    {
      if maxArg.Some? {
        outcome := UpdateMaxValue(maxArg.value, now);
        if outcome.Raised? {
          return;
        }
      }
      assert events == old(events) + RestartTrace(maxArg, old(maxValue), old(started));
      assert Restarts(maxArg, old(maxValue)) ==> maxValue == maxArg.value.value && started && nTimes == 0 && startedTime == Some(now);
      assert !Restarts(maxArg, old(maxValue)) ==>
               maxValue == old(maxValue) && started == old(started) && nTimes == old(nTimes) && startedTime == old(startedTime);
      var line := StatesView(forValue, now);
      // The event keeps what `line` is composed from; `LineText` gives it back.
      events := events + [Line(states, ViewMetrics(forValue, maxValue, startedTime, nTimes, now))];
      outcome := Done;
    }

    /** `__getitem__`. */
    function GetItem(key: Key): (r: Result<Selection>)
      reads this
      ensures key.IntKey? ==>
                (r.Ok? <==> InRange(key.index, |states|)) &&
                (r.Err? ==> r.error == IndexError) &&
                (r.Ok? ==> r.value.OneState? && r.value.state == states[Norm(key.index, |states|)])
      ensures key.TupleKey? ==>
                (|key.indices| == 0 ==> r == Err(ValueError)) &&
                (|key.indices| > 0 && Max(key.indices) > |states| ==> r == Err(IndexError)) &&
                (|key.indices| > 0 && r.Err? ==> r.error == IndexError) &&
                (r.Ok? <==> |key.indices| > 0 && Max(key.indices) <= |states| && AllIndexable(states, key.indices))
      ensures key.TupleKey? && r.Ok? ==> r.value == StateTuple(Kept(states, key.indices))
      ensures key.StrKey? && flavour == LabConsole ==> r == Err(TypeError)
      ensures key.StrKey? && flavour == CerejaDisplay ==>
                (r.Ok? <==> key.name in KeyMap && KeyMap[key.name] in states) &&
                (r.Ok? ==> r.value == OneState(KeyMap[key.name])) &&
                (r.Err? ==> r.error == KeyError)
    {
      match key
      case IntKey(i) =>
        if InRange(i, |states|) then Ok(OneState(states[Norm(i, |states|)])) else Err(IndexError)
      case TupleKey(ix) =>
        if |ix| == 0 then Err(ValueError)
        else if Max(ix) > |states| then Err(IndexError)
        else
          (match Pick(states, ix)
           case Ok(picked) => Ok(StateTuple(picked))
           case Err(e) => Err(e))
      case StrKey(k) =>
        if flavour == LabConsole then Err(TypeError)
        else if k !in KeyMap then Err(KeyError)
        else if KeyMap[k] !in states then Err(KeyError)
        else Ok(OneState(states[IndexOf(states, KeyMap[k])]))
    }

    /** A negative index reads the same state as its positive counterpart. */
    lemma NegativeIndex(i: int)
      requires 0 <= i < |states|
      ensures GetItem(IntKey(i - |states|)) == GetItem(IntKey(i))
    {
    }

    /** `__setitem__`: an integer key replaces exactly one position; any other
        key raises, and the older copy supports no item assignment at all. */
    method SetItem(key: Key, value: StateKind) returns (outcome: Outcome)
      modifies this
      ensures flavour == LabConsole ==> outcome == Raised(TypeError) && unchanged(this)
      ensures flavour == CerejaDisplay && key.IntKey? && InRange(key.index, |old(states)|) ==>
                && outcome == Done
                && |states| == |old(states)|
                && states[Norm(key.index, |states|)] == value
                && (forall j :: 0 <= j < |states| && j != Norm(key.index, |states|) ==> states[j] == old(states)[j])
                && GetItem(key) == Ok(OneState(value))
      ensures flavour == CerejaDisplay && key.IntKey? && !InRange(key.index, |old(states)|) ==>
                outcome == Raised(IndexError) && unchanged(this)
      ensures flavour == CerejaDisplay && !key.IntKey? ==> outcome == Raised(Failure("isn't possible!")) && unchanged(this)
      ensures nTimes == old(nTimes) && started == old(started) && awaitingUpdate == old(awaitingUpdate)
      ensures startedTime == old(startedTime) && maxValue == old(maxValue) && events == old(events) && name == old(name)
    {
      if flavour == LabConsole {
        return Raised(TypeError);
      }
      if !key.IntKey? {
        return Raised(Failure("isn't possible!"));
      }
      if !InRange(key.index, |states|) {
        return Raised(IndexError);
      }
      states := states[Norm(key.index, |states|) := value];
      outcome := Done;
    }

    /** `__enter__`. */
    method Enter(now: real)
      modifies this, console
      ensures started && awaitingUpdate && nTimes == 0 && startedTime == Some(now)
      ensures events == old(events) + StartEvents(old(started))
      ensures states == old(states) && maxValue == old(maxValue) && name == old(name)
      ensures console.title == if old(started) then "Cereja" else old(console.title)
      ensures console.colorMap == old(console.colorMap) && console.textColor == old(console.textColor)
    {
      Start(now);
    }

    /** `__exit__`: logs the exception when the flavour's rule says so, then
        always stops. */
    method Exit(exc: ExitKind)
      modifies this, console
      ensures !started
      ensures events == old(events) + (if LogsError(flavour, exc) then [ErrorLogged] else []) + StopEvents(old(started))
      ensures awaitingUpdate == (old(awaitingUpdate) && !old(started))
      ensures states == old(states) && maxValue == old(maxValue) && nTimes == old(nTimes)
      ensures startedTime == old(startedTime) && name == old(name)
      ensures console.title == if old(started) then "Cereja" else old(console.title)
      ensures console.colorMap == old(console.colorMap) && console.textColor == old(console.textColor)
    {
      if LogsError(flavour, exc) {
        events := events + [ErrorLogged];
      }
      Stop();
    }
  }

  function Min(a: int, b: int): int {
    if a < b then a else b
  }

  /** The line event the iterator emits for index `n`, when the session was
      started at `start` and `clock(n + 1)` is read while composing it. */
  function IterationLine(states: seq<StateKind>, maxValue: real, start: real, n: nat, clock: nat -> real): Event {
    Line(states, ViewMetrics(n as real, maxValue, Some(start), n + 1, clock(n + 1)))
  }

  /** The lines for indices `0 .. count - 1`, in order. */
  function IterationLines(states: seq<StateKind>, maxValue: real, start: real, count: nat, clock: nat -> real): (r: seq<Event>)
    ensures |r| == count
  {
    if count == 0 then []
    else IterationLines(states, maxValue, start, count - 1, clock) +
         [IterationLine(states, maxValue, start, count - 1, clock)]
  }

  /** Entry `n` of the lines is the line of index `n`. */
  lemma {:induction false} IterationLinesAt(states: seq<StateKind>, maxValue: real, start: real,
                                            count: nat, clock: nat -> real, n: nat)
    requires n < count
    ensures IterationLines(states, maxValue, start, count, clock)[n] ==
            IterationLine(states, maxValue, start, n, clock)
  {
    if n < count - 1 {
      IterationLinesAt(states, maxValue, start, count - 1, clock, n);
    }
  }

  /** `ProgressIterator`: a generator over `sequence` driving `progress`. */
  class ProgressIterator<T> {
    const progress: Progress
    const sequence: seq<T>

    /** The constructor of `cereja/display.py` sets the maximum to the
        sequence length (restarting the session when that changes it); the
        older copy leaves the maximum alone. */
    constructor(progress: Progress, sequence: seq<T>, now: real)
      modifies progress, progress.console
      ensures this.progress == progress && this.sequence == sequence
      ensures progress.flavour == CerejaDisplay ==>
                && progress.maxValue == |sequence| as real
                && progress.states == old(progress.states)
                && (|sequence| as real != old(progress.maxValue) ==>
                      && progress.started && progress.awaitingUpdate && progress.nTimes == 0
                      && progress.startedTime == Some(now) && progress.name == old(progress.name)
                      && progress.events == old(progress.events) + StopEvents(old(progress.started)) + StartEvents(false)
                      && progress.console.title == (if old(progress.started) then "Cereja" else old(progress.console.title))
                      && progress.console.colorMap == old(progress.console.colorMap)
                      && progress.console.textColor == old(progress.console.textColor))
                && (|sequence| as real == old(progress.maxValue) ==> unchanged(progress) && unchanged(progress.console))
      ensures progress.flavour == LabConsole ==> unchanged(progress) && unchanged(progress.console)
    {
      this.progress := progress;
      this.sequence := sequence;
      new;
      if progress.flavour == CerejaDisplay {
        var _ := progress.UpdateMaxValue(Number(|sequence| as real), now);
      }
    }

    /** The view of index `n` while the session runs: one more line, the
        line `IterationLine` describes. */
    method ShowIndex(n: nat, clock: nat -> real)
      requires progress.started && progress.nTimes == n && progress.startedTime == Some(clock(0))
      modifies progress, progress.console
      ensures progress.started && !progress.awaitingUpdate && progress.nTimes == n + 1 && progress.startedTime == Some(clock(0))
      ensures progress.states == old(progress.states) && progress.maxValue == old(progress.maxValue)
      ensures progress.name == old(progress.name) && unchanged(progress.console)
      ensures progress.events ==
              old(progress.events) +
              [IterationLine(progress.states, progress.maxValue, clock(0), n, clock)]
    {
      var _ := progress.ShowProgress(n as real, None, clock(n + 1));
    }

    /** The consumer pulls `pulls` items (`clock(0)` is read by `start`,
        `clock(n + 1)` by the view of index `n`). The first pull starts the
        session, every index pulled writes one line, and only the pull after
        the last item stops the session: a consumer that stops early leaves
        it started. */
    method Run(pulls: nat, clock: nat -> real) returns (yielded: seq<T>)
      modifies progress, progress.console
      ensures yielded == sequence[..Min(pulls, |sequence|)]
      ensures pulls == 0 ==> unchanged(progress) && unchanged(progress.console)
      ensures pulls > 0 ==>
                && progress.states == old(progress.states) && progress.maxValue == old(progress.maxValue)
                && progress.started == (pulls <= |sequence|)
                && !progress.awaitingUpdate
                && progress.nTimes == Min(pulls, |sequence|) && progress.startedTime == Some(clock(0))
                && progress.name == old(progress.name)
                && progress.console.title ==
                   (if old(progress.started) || pulls > |sequence| then "Cereja" else old(progress.console.title))
                && progress.console.colorMap == old(progress.console.colorMap)
                && progress.console.textColor == old(progress.console.textColor)
                && progress.events ==
                   old(progress.events) + StartEvents(old(progress.started)) +
                   IterationLines(progress.states, progress.maxValue, clock(0),
                                  Min(pulls, |sequence|), clock) +
                   (if pulls > |sequence| then StopEvents(true) else [])
    {
      yielded := [];
      if pulls == 0 {
        return;
      }
      progress.Start(clock(0));
      ghost var started := progress.events;
      yielded := ShowUpTo(Min(pulls, |sequence|), clock);
      ghost var lines := IterationLines(progress.states, progress.maxValue, clock(0),
                                        Min(pulls, |sequence|), clock);
      assert progress.events == started + lines;
      if pulls > |sequence| {
        progress.Stop();
      }
      assert progress.events == started + lines + (if pulls > |sequence| then StopEvents(true) else []);
    }

    /** The `for` loop of the generator over the first `shown` items, in a
        started session: each index writes its line before its item is
        yielded. */
    method ShowUpTo(shown: nat, clock: nat -> real) returns (yielded: seq<T>)
      requires shown <= |sequence|
      requires progress.started && progress.nTimes == 0 && progress.startedTime == Some(clock(0))
      modifies progress, progress.console
      ensures yielded == sequence[..shown]
      ensures progress.started && progress.states == old(progress.states) && progress.maxValue == old(progress.maxValue)
      ensures progress.nTimes == shown && progress.startedTime == Some(clock(0))
      ensures progress.awaitingUpdate == (old(progress.awaitingUpdate) && shown == 0)
      ensures progress.name == old(progress.name) && unchanged(progress.console)
      ensures progress.events ==
              old(progress.events) +
              IterationLines(progress.states, progress.maxValue, clock(0), shown, clock)
    {
      yielded := [];
      ghost var states, maxValue, base := progress.states, progress.maxValue, progress.events;
      var n := 0;
      while n < shown
        invariant 0 <= n <= shown
        invariant yielded == sequence[..n]
        invariant progress.started && progress.nTimes == n && progress.startedTime == Some(clock(0))
        invariant progress.states == states && progress.maxValue == maxValue
        invariant progress.awaitingUpdate == (old(progress.awaitingUpdate) && n == 0)
        invariant progress.name == old(progress.name) && unchanged(progress.console)
        invariant progress.events == base + IterationLines(states, maxValue, clock(0), n, clock)
      {
        if progress.started {
          ShowIndex(n, clock);
        }
        yielded := yielded + [sequence[n]];
        n := n + 1;
      }
    }
  }

  /** A time renderer whose fragments never contain " -". */
  ghost predicate CleanTime(time: TimeRenderer) {
    forall done: bool, m: Metrics :: NoSpaceDash(time(done, m))
  }

  /** With the maximum set to the sequence length, as the iterator of
      `cereja/display.py` does, only the line of the last index is complete
      and carries the "Done!" field. */
  lemma OnlyLastLineDone(states: seq<StateKind>, start: real, time: TimeRenderer, len: nat, k: nat, clock: nat -> real)
    requires |states| >= 1 && CleanTime(time) && k < len
    ensures var fields := SplitSep(LineText(IterationLine(states, len as real, start, k, clock), time), Separator);
            (|fields| == |states| + 1 <==> k == len - 1) &&
            (k == len - 1 ==> fields[|states|] == DoneMarker())
  {
    var m := ViewMetrics(k as real, len as real, Some(start), k + 1, clock(k + 1));
    CompletionMarkedIff(states, m, time);
  }

  /** With the older copy's fixed maximum of 100, the lines of indices 99
      and up are all complete and every earlier one is not: a sequence
      shorter than 99 items never shows "Done!". */
  lemma LabDoneFromIndex99(states: seq<StateKind>, start: real, time: TimeRenderer, k: nat, clock: nat -> real)
    requires |states| >= 1 && CleanTime(time)
    ensures var fields := SplitSep(LineText(IterationLine(states, 100.0, start, k, clock), time), Separator);
            |fields| == |states| + 1 <==> k >= 99
  {
    var m := ViewMetrics(k as real, 100.0, Some(start), k + 1, clock(k + 1));
    CompletionMarkedIff(states, m, time);
  }
}
