/**
 Dispatch of hooked calls (`dispatcher.rs`, `with_current_context`, `call_hook_handler`): an
 interpreter over arbitrarily nested call trees on one game thread. A call tree says what the
 handler would do and which hooked calls the original makes each time it runs. `Trace` is the
 reference: it has no state but the set of active methods and whether a handler is running.
 */
module Dispatch {
  import opened Bytes

  /** One hooked call: `original` are the hooked calls made when the dispatcher replays the original. */
  datatype Call = Call(id: nat, argsReadable: bool, handlerCallable: bool, actions: seq<Action>, original: seq<Call>)

  /** What a handler does; `calls` are hooked calls made meanwhile. */
  datatype Action =
    | CallOriginal(calls: seq<Call>)
    | Invoke(calls: seq<Call>)
    | SetReturn(decodes: bool)
    | Trap

  datatype Event =
    | Ran(slot: nat)        // the trampoline of a slot was called
    | Enter(id: nat)        // a handler starts
    | Exit(id: nat)         // it ends
    | Returned(id: nat)     // its explicit return value replaces the original's
    | Missed(id: nat)       // no such hook: zero is returned

  /** Method of each published slot, and whether a script is parked in the registry. */
  datatype Hooks = Hooks(methods: seq<Option<nat>>, parked: bool)

  predicate Published(h: Hooks, id: nat) { id < |h.methods| && h.methods[id].Some? }

  /** `call_original` finds its trampoline by method: the lowest slot that hooks it. */
  function SlotOf(methods: seq<Option<nat>>, m: nat): (n: nat)
    ensures n <= |methods| && (n < |methods| ==> methods[n] == Some(m))
    ensures forall k :: 0 <= k < n ==> methods[k] != Some(m)
  {
    if methods == [] || methods[0] == Some(m) then 0 else 1 + SlotOf(methods[1..], m)
  }

  // ----- the reference -----

  /** The part of a handler that runs: up to the first trap. */
  function Executed(actions: seq<Action>): seq<Action> {
    if actions == [] || actions[0].Trap? then [] else [actions[0]] + Executed(actions[1..])
  }

  predicate SetsReturn(actions: seq<Action>) {
    exists i :: 0 <= i < |actions| && actions[i] == SetReturn(true)
  }

  predicate CallsOriginal(actions: seq<Action>) {
    exists i :: 0 <= i < |actions| && actions[i].CallOriginal?
  }

  /** The handler of a published call runs: arguments read, nobody else inside, a script to run. */
  predicate HandlerRuns(h: Hooks, active: set<nat>, busy: bool, c: Call) {
    c.id !in active && c.argsReadable && !busy && h.parked && c.handlerCallable
  }

  function Trace(h: Hooks, active: set<nat>, busy: bool, c: Call): seq<Event>
    decreases c, 0
  {
    if !Published(h, c.id) then [Missed(c.id)]
    else if !HandlerRuns(h, active, busy, c) then
      [Ran(c.id)] + TraceAll(h, active + {c.id}, busy, c.original)
    else
      [Enter(c.id)] + TraceActions(h, active + {c.id}, c.id, c.actions) + [Exit(c.id)] + TraceAfter(h, active + {c.id}, c)
  }

  /** What follows a handler: its return value, nothing if it ran the original, else the original. */
  function TraceAfter(h: Hooks, active: set<nat>, c: Call): seq<Event>
    decreases c, 0, 0
  {
    if SetsReturn(Executed(c.actions)) then [Returned(c.id)]
    else if CallsOriginal(Executed(c.actions)) then []
    else [Ran(c.id)] + TraceAll(h, active, false, c.original)
  }

  function TraceAll(h: Hooks, active: set<nat>, busy: bool, calls: seq<Call>): seq<Event>
    decreases calls, 1
  {
    if calls == [] then [] else Trace(h, active, busy, calls[0]) + TraceAll(h, active, busy, calls[1..])
  }

  /** One action of a running handler: every call meanwhile finds the registry busy. */
  function TraceAction(h: Hooks, active: set<nat>, id: nat, action: Action): seq<Event>
    requires Published(h, id)
    decreases action, 1
  {
    match action
    case CallOriginal(calls) => [Ran(SlotOf(h.methods, h.methods[id].value))] + TraceAll(h, active, true, calls)
    case Invoke(calls) => TraceAll(h, active, true, calls)
    case _ => []
  }

  function TraceActions(h: Hooks, active: set<nat>, id: nat, actions: seq<Action>): seq<Event>
    requires Published(h, id)
    decreases actions, 1
  {
    if actions == [] || actions[0].Trap? then []
    else TraceAction(h, active, id, actions[0]) + TraceActions(h, active, id, actions[1..])
  }

  function OriginalCalls(actions: seq<Action>): nat {
    if actions == [] then 0 else (if actions[0].CallOriginal? then 1 else 0) + OriginalCalls(actions[1..])
  }

  /** How often a call runs its own original. */
  function Runs(h: Hooks, active: set<nat>, busy: bool, c: Call): nat {
    if !Published(h, c.id) then 0
    else if !HandlerRuns(h, active, busy, c) then 1
    else
      var done := Executed(c.actions);
      OriginalCalls(done) + if SetsReturn(done) || CallsOriginal(done) then 0 else 1
  }

  // ----- the dispatcher -----

  /** Context of one dispatch in progress; host functions work on the top of the stack. */
  datatype Context = Context(methodPtr: nat, explicitReturn: bool, calledOriginal: bool)

  class Dispatcher {
    const hooks: Hooks
    var reentry: seq<bool>
    var stack: seq<Context>
    var locked: bool
    var log: seq<Event>

    constructor (hooks: Hooks)
      ensures this.hooks == hooks && |reentry| == |hooks.methods| && Active() == {}
      ensures stack == [] && !locked && log == []
    {
      this.hooks := hooks;
      reentry := seq(|hooks.methods|, _ => false);
      stack, locked, log := [], false, [];
    }

    ghost function Active(): set<nat>
      reads this
    {
      set i | 0 <= i < |reentry| && reentry[i]
    }

    ghost predicate Ready()
      reads this
    {
      |reentry| == |hooks.methods|
    }

    /** `dispatch_rust`; the result counts the runs of the call's own original. */
    method DispatchRust(c: Call) returns (runs: nat)
      requires Ready()
      modifies this
      ensures Ready() && reentry == old(reentry) && stack == old(stack) && locked == old(locked)
      ensures log == old(log) + Trace(hooks, old(Active()), old(locked), c)
      ensures runs == Runs(hooks, old(Active()), old(locked), c)
      decreases c, 3
    {
      if !Published(hooks, c.id) {
        log := log + [Missed(c.id)];
        return 0;
      }
      if reentry[c.id] {
        assert old(Active()) + {c.id} == old(Active());
        Replay(c.id, c.original);
        return 1;
      }
      reentry := reentry[c.id := true];
      assert Active() == old(Active()) + {c.id};
      if !c.argsReadable {
        Replay(c.id, c.original);
        runs := 1;
      } else {
        runs := WithCurrentContext(c);
      }
      reentry := reentry[c.id := false];
      assert reentry == old(reentry);
    }

    /** Call the trampoline of `slot`; the original makes the given hooked calls. */
    method Replay(slot: nat, calls: seq<Call>)
      requires Ready()
      modifies this
      ensures Ready() && reentry == old(reentry) && stack == old(stack) && locked == old(locked)
      ensures log == old(log) + ([Ran(slot)] + TraceAll(hooks, old(Active()), old(locked), calls))
      decreases calls, 2
    {
      log := log + [Ran(slot)];
      RunCalls(calls);
    }

    method RunCalls(calls: seq<Call>)
      requires Ready()
      modifies this
      ensures Ready() && reentry == old(reentry) && stack == old(stack) && locked == old(locked)
      ensures log == old(log) + TraceAll(hooks, old(Active()), old(locked), calls)
      decreases calls, 1
    {
      if calls != [] {
        var r := DispatchRust(calls[0]);
        RunCalls(calls[1..]);
      }
    }

    /** Push a context, run the handler, pop, then let the dispatcher decide about the original. */
    method WithCurrentContext(c: Call) returns (runs: nat)
      requires Ready() && Published(hooks, c.id) && c.argsReadable && c.id in Active()
      modifies this
      ensures Ready() && reentry == old(reentry) && stack == old(stack) && locked == old(locked)
      ensures var before := old(Active()) - {c.id};
              && log == old(log) + Trace(hooks, before, old(locked), c)
              && runs == Runs(hooks, before, old(locked), c)
      decreases c, 2
    {
      ghost var before := Active() - {c.id};
      assert before + {c.id} == Active();
      stack := stack + [Context(hooks.methods[c.id].value, false, false)];
      runs := CallHookHandler(c);
      var top := stack[|stack| - 1];
      stack := stack[..|stack| - 1];
      if top.explicitReturn {
        log := log + [Returned(c.id)];
      } else if !top.calledOriginal {
        Replay(c.id, c.original);
        runs := runs + 1;
      }
    }

    /** Run the handler if nobody holds the registry and it can be called; otherwise do nothing. */
    method CallHookHandler(c: Call) returns (runs: nat)
      requires Ready() && Published(hooks, c.id) && |stack| > 0
      requires stack[|stack| - 1] == Context(hooks.methods[c.id].value, false, false)
      modifies this
      ensures Ready() && reentry == old(reentry) && locked == old(locked)
      ensures var ran := !old(locked) && hooks.parked && c.handlerCallable; var done := Executed(c.actions);
              && stack == old(stack)[|old(stack)| - 1 :=
                             Context(hooks.methods[c.id].value, ran && SetsReturn(done), ran && CallsOriginal(done))]
              && log == old(log) +
                        (if ran then [Enter(c.id)] + TraceActions(hooks, old(Active()), c.id, c.actions) + [Exit(c.id)] else [])
              && runs == if ran then OriginalCalls(done) else 0
      decreases c, 1
    {
      if locked || !hooks.parked || !c.handlerCallable { return 0; }
      locked := true;
      log := log + [Enter(c.id)];
      runs := RunActions(c.id, c.actions);
      log := log + [Exit(c.id)];
      locked := false;
    }

    /** One host call of the handler at the top of the stack. */
    method DoAction(id: nat, action: Action) returns (runs: nat)
      requires Ready() && Published(hooks, id) && locked && |stack| > 0 && !action.Trap?
      requires stack[|stack| - 1].methodPtr == hooks.methods[id].value
      modifies this
      ensures Ready() && reentry == old(reentry) && locked
      ensures var top := old(stack[|stack| - 1]);
              stack == old(stack)[|old(stack)| - 1 := Context(top.methodPtr,
                top.explicitReturn || action == SetReturn(true), top.calledOriginal || action.CallOriginal?)]
      ensures log == old(log) + TraceAction(hooks, old(Active()), id, action)
      ensures runs == if action.CallOriginal? then 1 else 0
      decreases action, 1
    {
      runs := 0;
      var n := |stack| - 1;
      match action {
        case CallOriginal(calls) =>
          stack := stack[n := stack[n].(calledOriginal := true)];
          Replay(SlotOf(hooks.methods, stack[n].methodPtr), calls);
          runs := 1;
        case Invoke(calls) =>
          RunCalls(calls);
        case SetReturn(decodes) =>
          if decodes { stack := stack[n := stack[n].(explicitReturn := true)]; }
      }
    }

    /** The host calls of one handler, up to a trap. */
    method RunActions(id: nat, actions: seq<Action>) returns (runs: nat)
      requires Ready() && Published(hooks, id) && locked && |stack| > 0
      requires stack[|stack| - 1].methodPtr == hooks.methods[id].value
      modifies this
      ensures Ready() && reentry == old(reentry) && locked
      ensures var done := Executed(actions); var top := old(stack[|stack| - 1]);
              && stack == old(stack)[|old(stack)| - 1 :=
                             Context(top.methodPtr, top.explicitReturn || SetsReturn(done),
                                     top.calledOriginal || CallsOriginal(done))]
              && log == old(log) + TraceActions(hooks, old(Active()), id, actions)
              && runs == OriginalCalls(done)
      decreases actions, 1
    {
      if actions == [] || actions[0].Trap? { return 0; }
      ghost var done := Executed(actions[1..]);
      assert Executed(actions) == [actions[0]] + done;
      FlagsCons(actions[0], done);
      ghost var active, before := Active(), log;
      runs := DoAction(id, actions[0]);
      var more := RunActions(id, actions[1..]);
      ConcatAssoc(before, TraceAction(hooks, active, id, actions[0]), TraceActions(hooks, active, id, actions[1..]));
      runs := runs + more;
    }
  }

  lemma FlagsCons(a: Action, rest: seq<Action>)
    ensures SetsReturn([a] + rest) <==> a == SetReturn(true) || SetsReturn(rest)
    ensures CallsOriginal([a] + rest) <==> a.CallOriginal? || CallsOriginal(rest)
  {
    var all := [a] + rest;
    assert all[0] == a;
    if SetsReturn(rest) {
      var i :| 0 <= i < |rest| && rest[i] == SetReturn(true);
      assert all[i + 1] == SetReturn(true);
    }
    if CallsOriginal(rest) {
      var i :| 0 <= i < |rest| && rest[i].CallOriginal?;
      assert all[i + 1].CallOriginal?;
    }
    if SetsReturn(all) {
      var i :| 0 <= i < |all| && all[i] == SetReturn(true);
      assert i == 0 || rest[i - 1] == SetReturn(true);
    }
    if CallsOriginal(all) {
      var i :| 0 <= i < |all| && all[i].CallOriginal?;
      assert i == 0 || rest[i - 1].CallOriginal?;
    }
  }

  // ----- one handler at a time -----

  datatype HandlerState = Idle | Inside(id: nat) | Broken

  function Next(s: HandlerState, e: Event): HandlerState {
    match e
    case Enter(id) => if s == Idle then Inside(id) else Broken
    case Exit(id) => if s == Inside(id) then Idle else Broken
    case _ => s
  }

  function Scan(s: HandlerState, events: seq<Event>): HandlerState
    decreases |events|
  {
    if events == [] then s else Scan(Next(s, events[0]), events[1..])
  }

  lemma {:induction false} ScanAppend(s: HandlerState, a: seq<Event>, b: seq<Event>)
    ensures Scan(s, a + b) == Scan(Scan(s, a), b)
    decreases |a|
  {
    if a == [] {
      assert a + b == b;
    } else {
      assert (a + b)[1..] == a[1..] + b;
      ScanAppend(Next(s, a[0]), a[1..], b);
    }
  }

  lemma ScanOne(s: HandlerState, e: Event, rest: seq<Event>)
    ensures Scan(s, [e] + rest) == Scan(Next(s, e), rest)
  {
  }

  /** While a handler runs no other handler starts, however deep the calls nest. */
  lemma {:induction false} BusyRunsNoHandler(h: Hooks, active: set<nat>, c: Call, s: HandlerState)
    ensures Scan(s, Trace(h, active, true, c)) == s
    decreases c, 0
  {
    if Published(h, c.id) {
      ScanOne(s, Ran(c.id), TraceAll(h, active + {c.id}, true, c.original));
      BusyAllRunNoHandler(h, active + {c.id}, c.original, s);
    } else {
      ScanOne(s, Missed(c.id), []);
      assert [Missed(c.id)] + [] == [Missed(c.id)];
    }
  }

  lemma {:induction false} BusyAllRunNoHandler(h: Hooks, active: set<nat>, calls: seq<Call>, s: HandlerState)
    ensures Scan(s, TraceAll(h, active, true, calls)) == s
    decreases calls, 1
  {
    if calls == [] {
    } else {
      BusyRunsNoHandler(h, active, calls[0], s);
      BusyAllRunNoHandler(h, active, calls[1..], s);
      ScanAppend(s, Trace(h, active, true, calls[0]), TraceAll(h, active, true, calls[1..]));
    }
  }

  lemma {:induction false} ActionsRunNoHandler(h: Hooks, active: set<nat>, id: nat, actions: seq<Action>, s: HandlerState)
    requires Published(h, id)
    ensures Scan(s, TraceActions(h, active, id, actions)) == s
    decreases |actions|
  {
    if actions == [] || actions[0].Trap? {
    } else {
      match actions[0] {
        case CallOriginal(calls) =>
          BusyAllRunNoHandler(h, active, calls, s);
          ScanOne(s, Ran(SlotOf(h.methods, h.methods[id].value)), TraceAll(h, active, true, calls));
        case Invoke(calls) => BusyAllRunNoHandler(h, active, calls, s);
        case SetReturn(_) =>
      }
      ActionsRunNoHandler(h, active, id, actions[1..], s);
      ScanAppend(s, TraceAction(h, active, id, actions[0]), TraceActions(h, active, id, actions[1..]));
    }
  }

  /** Handlers never overlap: from idle, every dispatch leads back to idle without breaking. */
  lemma {:induction false} OneHandlerAtATime(h: Hooks, active: set<nat>, c: Call)
    ensures Scan(Idle, Trace(h, active, false, c)) == Idle
    decreases c, 0
  {
    var a := active + {c.id};
    if !Published(h, c.id) {
      ScanOne(Idle, Missed(c.id), []);
      assert [Missed(c.id)] + [] == [Missed(c.id)];
    } else if !HandlerRuns(h, active, false, c) {
      OneHandlerInEach(h, a, c.original);
      ScanOne(Idle, Ran(c.id), TraceAll(h, a, false, c.original));
    } else {
      var inside := TraceActions(h, a, c.id, c.actions);
      var after := TraceAfter(h, a, c);
      ActionsRunNoHandler(h, a, c.id, c.actions, Inside(c.id));
      AfterHandlerIdle(h, a, c);
      assert Trace(h, active, false, c) == [Enter(c.id)] + (inside + ([Exit(c.id)] + after));
      ScanOne(Idle, Enter(c.id), inside + ([Exit(c.id)] + after));
      ScanAppend(Inside(c.id), inside, [Exit(c.id)] + after);
      ScanOne(Inside(c.id), Exit(c.id), after);
    }
  }

  lemma {:induction false} AfterHandlerIdle(h: Hooks, active: set<nat>, c: Call)
    ensures Scan(Idle, TraceAfter(h, active, c)) == Idle
    decreases c, 0, 0
  {
    if SetsReturn(Executed(c.actions)) {
      ScanOne(Idle, Returned(c.id), []);
      assert [Returned(c.id)] + [] == [Returned(c.id)];
    } else if !CallsOriginal(Executed(c.actions)) {
      OneHandlerInEach(h, active, c.original);
      ScanOne(Idle, Ran(c.id), TraceAll(h, active, false, c.original));
    }
  }

  lemma {:induction false} OneHandlerInEach(h: Hooks, active: set<nat>, calls: seq<Call>)
    ensures Scan(Idle, TraceAll(h, active, false, calls)) == Idle
    decreases calls, 1
  {
    if calls == [] {
    } else {
      OneHandlerAtATime(h, active, calls[0]);
      OneHandlerInEach(h, active, calls[1..]);
      ScanAppend(Idle, Trace(h, active, false, calls[0]), TraceAll(h, active, false, calls[1..]));
    }
  }

  /** A method whose dispatch is in progress does not enter its handler again. */
  lemma {:induction false} ActiveNotReentered(h: Hooks, active: set<nat>, busy: bool, c: Call, id: nat)
    requires id in active
    ensures Enter(id) !in Trace(h, active, busy, c)
    decreases c, 0
  {
    var a := active + {c.id};
    if Published(h, c.id) {
      ActiveNotReenteredInAll(h, a, false, c.original, id);
      ActiveNotReenteredInAll(h, a, busy, c.original, id);
      if HandlerRuns(h, active, busy, c) { ActiveNotReenteredInActions(h, a, c.id, c.actions, id); }
    }
  }

  lemma {:induction false} ActiveNotReenteredInAll(h: Hooks, active: set<nat>, busy: bool, calls: seq<Call>, id: nat)
    requires id in active
    ensures Enter(id) !in TraceAll(h, active, busy, calls)
    decreases calls, 1
  {
    if calls == [] {
    } else {
      ActiveNotReentered(h, active, busy, calls[0], id);
      ActiveNotReenteredInAll(h, active, busy, calls[1..], id);
    }
  }

  lemma {:induction false} ActiveNotReenteredInActions(h: Hooks, active: set<nat>, owner: nat, actions: seq<Action>, id: nat)
    requires id in active && Published(h, owner)
    ensures Enter(id) !in TraceActions(h, active, owner, actions)
    decreases actions, 1
  {
    if actions == [] || actions[0].Trap? {
    } else {
      match actions[0] {
        case CallOriginal(calls) => ActiveNotReenteredInAll(h, active, true, calls, id);
        case Invoke(calls) => ActiveNotReenteredInAll(h, active, true, calls, id);
        case SetReturn(_) =>
      }
      ActiveNotReenteredInActions(h, active, owner, actions[1..], id);
    }
  }

  // ----- when the original runs -----

  lemma {:induction false} OriginalCallsCounted(actions: seq<Action>)
    ensures OriginalCalls(actions) > 0 <==> CallsOriginal(actions)
  {
    if actions == [] {
    } else {
      OriginalCallsCounted(actions[1..]);
      assert actions == [actions[0]] + actions[1..];
      FlagsCons(actions[0], actions[1..]);
    }
  }

  /**
   A published call nested in a running handler, or in a dispatch of the same method, runs its
   original exactly once; any other is skipped exactly when its handler ran, set a return value
   and did not call the original itself.
   */
  lemma OriginalSkippedExactly(h: Hooks, active: set<nat>, busy: bool, c: Call)
    requires Published(h, c.id)
    ensures busy || c.id in active ==> Runs(h, active, busy, c) == 1
    ensures Runs(h, active, busy, c) == 0 <==>
      HandlerRuns(h, active, busy, c) && SetsReturn(Executed(c.actions)) && !CallsOriginal(Executed(c.actions))
    ensures HandlerRuns(h, active, busy, c) && !SetsReturn(Executed(c.actions)) && !CallsOriginal(Executed(c.actions)) ==>
      Runs(h, active, busy, c) == 1
  {
    OriginalCallsCounted(Executed(c.actions));
  }

  // ----- how often originals run in a whole call tree -----

  function RanOf(events: seq<Event>, slot: nat): nat {
    if events == [] then 0 else (if events[0] == Ran(slot) then 1 else 0) + RanOf(events[1..], slot)
  }

  function RanCount(events: seq<Event>): nat {
    if events == [] then 0 else (if events[0].Ran? then 1 else 0) + RanCount(events[1..])
  }

  lemma {:induction false} RanAppend(a: seq<Event>, b: seq<Event>, slot: nat)
    ensures RanOf(a + b, slot) == RanOf(a, slot) + RanOf(b, slot)
    ensures RanCount(a + b) == RanCount(a) + RanCount(b)
  {
    if a == [] {
      assert a + b == b;
    } else {
      RanAppend(a[1..], b, slot);
      assert (a + b)[1..] == a[1..] + b;
    }
  }

  lemma RanCons(e: Event, rest: seq<Event>, slot: nat)
    ensures RanOf([e] + rest, slot) == (if e == Ran(slot) then 1 else 0) + RanOf(rest, slot)
    ensures RanCount([e] + rest) == (if e.Ran? then 1 else 0) + RanCount(rest)
  {
    assert ([e] + rest)[1..] == rest;
  }

  /** The calls of hook `slot` made while a handler runs: the call, if it is one, and those its original makes. */
  function CallsOf(h: Hooks, c: Call, slot: nat): nat
    decreases c, 0
  {
    if !Published(h, c.id) then 0 else (if c.id == slot then 1 else 0) + CallsOfAll(h, c.original, slot)
  }

  function CallsOfAll(h: Hooks, calls: seq<Call>, slot: nat): nat
    decreases calls, 1
  {
    if calls == [] then 0 else CallsOf(h, calls[0], slot) + CallsOfAll(h, calls[1..], slot)
  }

  /** While a handler runs, every published call runs the original of its own hook exactly once. */
  lemma {:induction false} BusyRunsEachOriginalOnce(h: Hooks, active: set<nat>, c: Call, slot: nat)
    ensures RanOf(Trace(h, active, true, c), slot) == CallsOf(h, c, slot)
    decreases c, 0
  {
    if !Published(h, c.id) {
    } else {
      BusyAllRunOriginals(h, active + {c.id}, c.original, slot);
      RanCons(Ran(c.id), TraceAll(h, active + {c.id}, true, c.original), slot);
    }
  }

  lemma {:induction false} BusyAllRunOriginals(h: Hooks, active: set<nat>, calls: seq<Call>, slot: nat)
    ensures RanOf(TraceAll(h, active, true, calls), slot) == CallsOfAll(h, calls, slot)
    decreases calls, 1
  {
    if calls == [] {
    } else {
      BusyRunsEachOriginalOnce(h, active, calls[0], slot);
      BusyAllRunOriginals(h, active, calls[1..], slot);
      RanAppend(Trace(h, active, true, calls[0]), TraceAll(h, active, true, calls[1..]), slot);
    }
  }

  /** Runs of originals in a tree: the call's own, and those of every call made below it. */
  function TotalRuns(h: Hooks, active: set<nat>, busy: bool, c: Call): nat
    decreases c, 0
  {
    var a := active + {c.id};
    if !Published(h, c.id) then 0
    else if !HandlerRuns(h, active, busy, c) then Runs(h, active, busy, c) + TotalAll(h, a, busy, c.original)
    else
      Runs(h, active, busy, c) + TotalActions(h, a, c.actions) +
      if SetsReturn(Executed(c.actions)) || CallsOriginal(Executed(c.actions)) then 0 else TotalAll(h, a, false, c.original)
  }

  function TotalAll(h: Hooks, active: set<nat>, busy: bool, calls: seq<Call>): nat
    decreases calls, 1
  {
    if calls == [] then 0 else TotalRuns(h, active, busy, calls[0]) + TotalAll(h, active, busy, calls[1..])
  }

  /** Runs of originals by the calls made meanwhile, without the handler's own `call_original`s. */
  function TotalActions(h: Hooks, active: set<nat>, actions: seq<Action>): nat
    decreases actions, 1
  {
    if actions == [] || actions[0].Trap? then 0
    else (match actions[0]
          case CallOriginal(calls) => TotalAll(h, active, true, calls)
          case Invoke(calls) => TotalAll(h, active, true, calls)
          case _ => 0) + TotalActions(h, active, actions[1..])
  }

  /**
   In the log of any dispatch, originals run exactly as often as `Runs` says of each call of
   the tree, the outermost and all nested ones.
   */
  lemma {:induction false} OriginalsAddUp(h: Hooks, active: set<nat>, busy: bool, c: Call)
    ensures RanCount(Trace(h, active, busy, c)) == TotalRuns(h, active, busy, c)
    decreases c, 0
  {
    var a := active + {c.id};
    if !Published(h, c.id) {
    } else if !HandlerRuns(h, active, busy, c) {
      OriginalsOfAll(h, a, busy, c.original);
      RanCons(Ran(c.id), TraceAll(h, a, busy, c.original), 0);
    } else {
      var inside, after := TraceActions(h, a, c.id, c.actions), TraceAfter(h, a, c);
      OriginalsOfActions(h, a, c.id, c.actions);
      OriginalsAfter(h, a, c);
      RanCons(Enter(c.id), inside, 0);
      RanAppend([Enter(c.id)] + inside, [Exit(c.id)], 0);
      RanAppend([Enter(c.id)] + inside + [Exit(c.id)], after, 0);
    }
  }

  lemma {:induction false} OriginalsAfter(h: Hooks, active: set<nat>, c: Call)
    ensures var done := Executed(c.actions);
            RanCount(TraceAfter(h, active, c)) ==
            if SetsReturn(done) || CallsOriginal(done) then 0 else 1 + TotalAll(h, active, false, c.original)
    decreases c, 0, 0
  {
    OriginalsOfAll(h, active, false, c.original);
    RanCons(Ran(c.id), TraceAll(h, active, false, c.original), 0);
  }

  lemma {:induction false} OriginalsOfAll(h: Hooks, active: set<nat>, busy: bool, calls: seq<Call>)
    ensures RanCount(TraceAll(h, active, busy, calls)) == TotalAll(h, active, busy, calls)
    decreases calls, 1
  {
    if calls == [] {
    } else {
      OriginalsAddUp(h, active, busy, calls[0]);
      OriginalsOfAll(h, active, busy, calls[1..]);
      RanAppend(Trace(h, active, busy, calls[0]), TraceAll(h, active, busy, calls[1..]), 0);
    }
  }

  lemma {:induction false} OriginalsOfActions(h: Hooks, active: set<nat>, id: nat, actions: seq<Action>)
    requires Published(h, id)
    ensures RanCount(TraceActions(h, active, id, actions)) == OriginalCalls(Executed(actions)) + TotalActions(h, active, actions)
    decreases actions, 1
  {
    if actions == [] || actions[0].Trap? {
    } else {
      var first := TraceAction(h, active, id, actions[0]);
      match actions[0] {
        case CallOriginal(calls) =>
          OriginalsOfAll(h, active, true, calls);
          RanCons(Ran(SlotOf(h.methods, h.methods[id].value)), TraceAll(h, active, true, calls), 0);
        case Invoke(calls) =>
          OriginalsOfAll(h, active, true, calls);
        case SetReturn(_) =>
      }
      OriginalsOfActions(h, active, id, actions[1..]);
      RanAppend(first, TraceActions(h, active, id, actions[1..]), 0);
      assert Executed(actions)[1..] == Executed(actions[1..]);
    }
  }

  /** With one hook per method, `call_original` reaches the trampoline of the hook it is called from. */
  lemma OwnTrampolineFound(h: Hooks, id: nat)
    requires Published(h, id)
    ensures SlotOf(h.methods, h.methods[id].value) == id <==>
      forall k :: 0 <= k < id ==> h.methods[k] != h.methods[id]
  {
  }

  // ----- what one call shows -----

  /** The actions before the first trap. */
  lemma {:induction false} ExecutedExactly(actions: seq<Action>)
    ensures |Executed(actions)| <= |actions| && Executed(actions) == actions[..|Executed(actions)|]
    ensures forall j :: 0 <= j < |Executed(actions)| ==> !actions[j].Trap?
    ensures |Executed(actions)| < |actions| ==> actions[|Executed(actions)|].Trap?
  {
    if actions == [] || actions[0].Trap? {
    } else {
      ExecutedExactly(actions[1..]);
      assert forall j :: 0 < j < |Executed(actions)| ==> actions[j] == actions[1..][j - 1];
    }
  }

  /** The first event tells whether there is such a hook and whether its handler runs. */
  lemma FirstEvent(h: Hooks, active: set<nat>, busy: bool, c: Call)
    ensures var t := Trace(h, active, busy, c); var hooked := c.id < |h.methods| && h.methods[c.id].Some?;
            && t != []
            && (!hooked ==> t == [Missed(c.id)])
            && (t[0] == Enter(c.id) <==>
                  hooked && c.id !in active && c.argsReadable && !busy && h.parked && c.handlerCallable)
            && (hooked && t[0] != Enter(c.id) ==> t[0] == Ran(c.id))
  {
  }

  /**
   After the handler its return value is handed back, if it set one before any trap, and nothing
   follows; if it only called the original nothing follows at all; otherwise the original runs.
   */
  lemma AfterTheHandler(h: Hooks, active: set<nat>, busy: bool, c: Call) returns (k: nat)
    requires Published(h, c.id) && HandlerRuns(h, active, busy, c)
    ensures |Executed(c.actions)| <= |c.actions|
    ensures var t, done := Trace(h, active, busy, c), c.actions[..|Executed(c.actions)|];
            var sets, calls := SetReturn(true) in done, exists i :: 0 <= i < |done| && done[i].CallOriginal?;
            && 0 < k < |t| && t[0] == Enter(c.id) && t[k] == Exit(c.id)
            && (sets ==> |t| == k + 2 && t[k + 1] == Returned(c.id))
            && (!sets && calls ==> |t| == k + 1)
            && (!sets && !calls ==> |t| > k + 1 && t[k + 1] == Ran(c.id))
  {
    var inside, after := TraceActions(h, active + {c.id}, c.id, c.actions), TraceAfter(h, active + {c.id}, c);
    k := 1 + |inside|;
    ExecutedExactly(c.actions);
    assert Trace(h, active, busy, c) == [Enter(c.id)] + inside + [Exit(c.id)] + after;
    assert forall i :: 0 <= i < |after| ==> ([Enter(c.id)] + inside + [Exit(c.id)] + after)[k + 1 + i] == after[i];
  }

  // ----- every event, counted over the whole call tree -----

  function CountOf(events: seq<Event>, e: Event): nat {
    if events == [] then 0 else (if events[0] == e then 1 else 0) + CountOf(events[1..], e)
  }

  function One(b: bool): nat { if b then 1 else 0 }

  /** How often the call itself, without the calls made below it, shows the event. */
  function Own(h: Hooks, active: set<nat>, busy: bool, c: Call, e: Event): nat {
    if !Published(h, c.id) then One(e == Missed(c.id))
    else if !HandlerRuns(h, active, busy, c) then One(e == Ran(c.id))
    else
      var done := Executed(c.actions);
      One(e == Enter(c.id)) + One(e == Exit(c.id))
      + (if e == Ran(SlotOf(h.methods, h.methods[c.id].value)) then OriginalCalls(done) else 0)
      + One(SetsReturn(done) && e == Returned(c.id))
      + One(!SetsReturn(done) && !CallsOriginal(done) && e == Ran(c.id))
  }

  /** The event's count over the call and every call made below it. */
  function Sum(h: Hooks, active: set<nat>, busy: bool, c: Call, e: Event): nat
    decreases c, 0
  {
    var a := active + {c.id};
    Own(h, active, busy, c, e) +
    if !Published(h, c.id) then 0
    else if !HandlerRuns(h, active, busy, c) then SumAll(h, a, busy, c.original, e)
    else
      SumActions(h, a, c.actions, e) +
      if SetsReturn(Executed(c.actions)) || CallsOriginal(Executed(c.actions)) then 0 else SumAll(h, a, false, c.original, e)
  }

  function SumAll(h: Hooks, active: set<nat>, busy: bool, calls: seq<Call>, e: Event): nat
    decreases calls, 1
  {
    if calls == [] then 0 else Sum(h, active, busy, calls[0], e) + SumAll(h, active, busy, calls[1..], e)
  }

  /** The calls made while the handler's actions run. */
  function SumActions(h: Hooks, active: set<nat>, actions: seq<Action>, e: Event): nat
    decreases actions, 1
  {
    if actions == [] || actions[0].Trap? then 0
    else (match actions[0]
          case CallOriginal(calls) => SumAll(h, active, true, calls, e)
          case Invoke(calls) => SumAll(h, active, true, calls, e)
          case _ => 0) + SumActions(h, active, actions[1..], e)
  }

  lemma {:induction false} CountAppend(a: seq<Event>, b: seq<Event>, e: Event)
    ensures CountOf(a + b, e) == CountOf(a, e) + CountOf(b, e)
  {
    if a == [] {
      assert a + b == b;
    } else {
      CountAppend(a[1..], b, e);
      assert (a + b)[1..] == a[1..] + b;
    }
  }

  lemma CountCons(first: Event, rest: seq<Event>, e: Event)
    ensures CountOf([first] + rest, e) == One(first == e) + CountOf(rest, e)
  {
    assert ([first] + rest)[1..] == rest;
  }

  /**
   In the log of any dispatch every event of every hook, its runs, handlers and returned values,
   occurs exactly as often as the calls of the tree show it, the outermost and all nested ones.
   */
  lemma {:induction false} CountsAddUp(h: Hooks, active: set<nat>, busy: bool, c: Call, e: Event)
    ensures CountOf(Trace(h, active, busy, c), e) == Sum(h, active, busy, c, e)
    decreases c, 0
  {
    var a := active + {c.id};
    if !Published(h, c.id) {
      CountCons(Missed(c.id), [], e);
    } else if !HandlerRuns(h, active, busy, c) {
      CountsOfAll(h, a, busy, c.original, e);
      CountCons(Ran(c.id), TraceAll(h, a, busy, c.original), e);
    } else {
      var inside, after := TraceActions(h, a, c.id, c.actions), TraceAfter(h, a, c);
      CountsOfActions(h, a, c.id, c.actions, e);
      CountsAfter(h, a, c, e);
      CountCons(Enter(c.id), inside, e);
      CountCons(Exit(c.id), [], e);
      CountAppend([Enter(c.id)] + inside, [Exit(c.id)], e);
      CountAppend([Enter(c.id)] + inside + [Exit(c.id)], after, e);
    }
  }

  lemma {:induction false} CountsAfter(h: Hooks, active: set<nat>, c: Call, e: Event)
    ensures var done := Executed(c.actions);
            CountOf(TraceAfter(h, active, c), e) ==
            if SetsReturn(done) then One(e == Returned(c.id))
            else if CallsOriginal(done) then 0
            else One(e == Ran(c.id)) + SumAll(h, active, false, c.original, e)
    decreases c, 0, 0
  {
    CountsOfAll(h, active, false, c.original, e);
    CountCons(Returned(c.id), [], e);
    CountCons(Ran(c.id), TraceAll(h, active, false, c.original), e);
  }

  lemma {:induction false} CountsOfAll(h: Hooks, active: set<nat>, busy: bool, calls: seq<Call>, e: Event)
    ensures CountOf(TraceAll(h, active, busy, calls), e) == SumAll(h, active, busy, calls, e)
    decreases calls, 1
  {
    if calls == [] {
    } else {
      CountsAddUp(h, active, busy, calls[0], e);
      CountsOfAll(h, active, busy, calls[1..], e);
      CountAppend(Trace(h, active, busy, calls[0]), TraceAll(h, active, busy, calls[1..]), e);
    }
  }

  lemma {:induction false} CountsOfActions(h: Hooks, active: set<nat>, id: nat, actions: seq<Action>, e: Event)
    requires Published(h, id)
    ensures CountOf(TraceActions(h, active, id, actions), e) ==
            SumActions(h, active, actions, e) +
            if e == Ran(SlotOf(h.methods, h.methods[id].value)) then OriginalCalls(Executed(actions)) else 0
    decreases actions, 1
  {
    if actions == [] || actions[0].Trap? {
    } else {
      match actions[0] {
        case CallOriginal(calls) =>
          CountsOfAll(h, active, true, calls, e);
          CountCons(Ran(SlotOf(h.methods, h.methods[id].value)), TraceAll(h, active, true, calls), e);
        case Invoke(calls) =>
          CountsOfAll(h, active, true, calls, e);
        case SetReturn(_) =>
      }
      CountsOfActions(h, active, id, actions[1..], e);
      CountAppend(TraceAction(h, active, id, actions[0]), TraceActions(h, active, id, actions[1..]), e);
      assert Executed(actions)[1..] == Executed(actions[1..]);
    }
  }

  /** A call hands a return value back exactly once if its handler runs and sets one before any trap. */
  lemma OwnReturns(h: Hooks, active: set<nat>, busy: bool, c: Call, slot: nat)
    requires |Executed(c.actions)| <= |c.actions|
    ensures Own(h, active, busy, c, Returned(slot)) ==
            One(c.id == slot && Published(h, slot) && HandlerRuns(h, active, busy, c) &&
                SetReturn(true) in c.actions[..|Executed(c.actions)|])
  {
    ExecutedExactly(c.actions);
  }
}
