/**
 * The call observer: it records a few native calls while armed and must be
 * transparent to all of them. Calls nest, and a call may trigger interface
 * lookups that the record of the outer call notes.
 */
module GodmodeTrace {
  import opened Bytes

  const MAX_CALLS: nat := 4
  const WINDOW_MS: nat := 120000
  const MAX_EVENTS: nat := 8
  const WRAP: nat := 0x1_0000_0000

  datatype Ending = Returns(result: bool) | Throws

  /** One call of the original handler: when it is entered, whether its record can be kept, and what it does. */
  datatype Handler = Handler(now: nat, keeps: bool, body: Body)

  datatype Body = End(ending: Ending) | Nested(call: Handler, next: Body) | Interface(next: Body)

  function EndingOf(b: Body): Ending {
    match b
    case End(ending) => ending
    case Nested(_, next) => EndingOf(next)
    case Interface(next) => EndingOf(next)
  }

  /** The calls of the original handler, in the order they are entered. */
  function Preorder(h: Handler): seq<Handler>
    decreases h, 1
  {
    [h] + PreorderIn(h.body)
  }

  function PreorderIn(b: Body): seq<Handler>
    decreases b, 0
  {
    match b
    case End(_) => []
    case Nested(call, next) => Preorder(call) + PreorderIn(next)
    case Interface(next) => PreorderIn(next)
  }

  /** Interface lookups during a body, those of nested calls included. */
  function Lookups(b: Body): nat {
    match b
    case End(_) => 0
    case Nested(call, next) => Lookups(call.body) + Lookups(next)
    case Interface(next) => 1 + Lookups(next)
  }

  datatype Rec = Rec(id: nat, events: nat, result: bool)

  /** The variables of the observer; `seen` is the unsigned 32-bit event counter. */
  datatype State = State(
    deadline: nat, calls: nat, pending: seq<Rec>, active: Option<Rec>, seen: nat,
    pushed: seq<Rec>,     // every record ever pushed
    written: seq<Rec>,    // the records of the batches that were written
    base: nat)            // how many had been pushed when the trace was last armed

  predicate Captures(s: State, h: Handler, onGameThread: bool) {
    s.deadline != 0 && h.now < s.deadline && onGameThread && s.active.None? && s.calls < MAX_CALLS
  }

  function Begin(s: State): State {
    s.(calls := s.calls + 1, active := Some(Rec(s.calls + 1, 0, false)), seen := 0)
  }

  function Finish(s: State, ending: Ending, keeps: bool): State
    requires s.active.Some?
  {
    if ending.Throws? then s.(active := None)
    else
      var rec := s.active.value.(result := ending.result);
      s.(active := None,
         pending := if keeps then s.pending + [rec] else s.pending,
         pushed := if keeps then s.pushed + [rec] else s.pushed,
         deadline := if s.calls >= MAX_CALLS then 0 else s.deadline)
  }

  function Observe(s: State, onGameThread: bool): State {
    if !onGameThread || s.active.None? then s
    else
      var s' := s.(seen := (s.seen + 1) % WRAP);
      if s.seen >= MAX_EVENTS then s' else s'.(active := Some(s.active.value.(events := s.active.value.events + 1)))
  }

  /** The observer's state after one call, everything nested in it included. */
  function Execute(s: State, h: Handler, onGameThread: bool): (r: State)
    ensures s.active.Some? ==> r.active.Some?
    decreases h, 1
  {
    if Captures(s, h, onGameThread) then
      Finish(RunBody(Begin(s), h.body, onGameThread), EndingOf(h.body), h.keeps)
    else RunBody(s, h.body, onGameThread)
  }

  function RunBody(s: State, b: Body, onGameThread: bool): (r: State)
    ensures s.active.Some? ==> r.active.Some?
    decreases b, 0
  {
    match b
    case End(_) => s
    case Nested(call, next) => RunBody(Execute(s, call, onGameThread), next, onGameThread)
    case Interface(next) => RunBody(Observe(s, onGameThread), next, onGameThread)
  }

  class Tracer {
    var deadline: nat
    var calls: nat
    var pending: seq<Rec>
    var active: Option<Rec>
    var interfaceEvents: nat
    ghost var pushed: seq<Rec>
    ghost var written: seq<Rec>
    ghost var base: nat
    /** Every call of the original handler, in order. */
    ghost var originals: seq<Handler>

    ghost function Value(): State
      reads this
    {
      State(deadline, calls, pending, active, interfaceEvents, pushed, written, base)
    }

    constructor ()
      ensures Value() == State(0, 0, [], None, 0, [], [], 0) && originals == []
    {
      deadline, calls, pending, active, interfaceEvents := 0, 0, [], None, 0;
      pushed, written, base, originals := [], [], 0, [];
    }

    /** The hook: whatever it records, the original runs exactly once and its ending is the caller's. */
    method CaptureExecute(h: Handler, onGameThread: bool) returns (ending: Ending)
      modifies this
      ensures ending == EndingOf(h.body)
      ensures originals == old(originals) + Preorder(h)
      ensures Value() == Execute(old(Value()), h, onGameThread)
      decreases h, 1
    {
      var capture := deadline != 0 && h.now < deadline && onGameThread && active.None? && calls < MAX_CALLS;
      if !capture {
        ending := CallOriginal(h, onGameThread);
        return;
      }
      calls := calls + 1;
      active := Some(Rec(calls, 0, false));
      interfaceEvents := 0;
      assert Value() == Begin(old(Value()));
      ending := CallOriginal(h, onGameThread);
      var rec := active.value;
      active := None;
      if ending.Throws? {
        return;
      }
      if h.keeps {
        pending := pending + [rec.(result := ending.result)];
        pushed := pushed + [rec.(result := ending.result)];
      }
      if calls >= MAX_CALLS {
        deadline := 0;
      }
    }

    /** The original handler, with the hooked calls and lookups it makes. */
    method CallOriginal(h: Handler, onGameThread: bool) returns (ending: Ending)
      modifies this
      ensures ending == EndingOf(h.body)
      ensures originals == old(originals) + Preorder(h)
      ensures Value() == RunBody(old(Value()), h.body, onGameThread)
      decreases h, 0
    {
      originals := originals + [h];
      ending := Perform(h.body, onGameThread);
    }

    method Perform(b: Body, onGameThread: bool) returns (ending: Ending)
      modifies this
      ensures ending == EndingOf(b)
      ensures originals == old(originals) + PreorderIn(b)
      ensures Value() == RunBody(old(Value()), b, onGameThread)
      decreases b, 0
    {
      match b {
        case End(e) => ending := e;
        case Nested(call, next) =>
          var _ := CaptureExecute(call, onGameThread);
          ending := Perform(next, onGameThread);
        case Interface(next) =>
          ObserveInterface(onGameThread);
          ending := Perform(next, onGameThread);
      }
    }

    method ObserveInterface(onGameThread: bool)
      modifies this
      ensures Value() == Observe(old(Value()), onGameThread) && originals == old(originals)
    {
      if !onGameThread || active.None? {
        return;
      }
      var before := interfaceEvents;
      interfaceEvents := (interfaceEvents + 1) % WRAP;
      if before >= MAX_EVENTS {
        return;
      }
      active := Some(active.value.(events := active.value.events + 1));
    }

    method Tick(now: nat, batchWritten: bool)
      modifies this
      ensures Value() == Ticked(old(Value()), now, batchWritten) && originals == old(originals)
    {
      if deadline != 0 && now >= deadline {
        deadline := 0;
      }
      if pending == [] {
        return;
      }
      if batchWritten {
        written := written + pending;
        pending := [];
      }
    }

    method Start(hooked: bool, now: nat, batchWritten: bool, armedWritten: bool) returns (armed: bool)
      modifies this
      ensures Value() == Started(old(Value()), hooked, now, batchWritten, armedWritten) && originals == old(originals)
      ensures armed <==> hooked && Ticked(old(Value()), now, batchWritten).pending == [] && armedWritten
    {
      if !hooked {
        return false;
      }
      Tick(now, batchWritten);
      if pending != [] {
        return false;
      }
      if !armedWritten {
        return false;
      }
      calls := 0;
      deadline := now + WINDOW_MS;
      base := |pushed|;
      armed := true;
    }

    method Stop(now: nat, batchWritten: bool)
      modifies this
      ensures Value() == Ticked(old(Value()).(deadline := 0), now, batchWritten) && originals == old(originals)
    {
      deadline := 0;
      Tick(now, batchWritten);
    }
  }

  /** A tick ends an expired window and writes the pending batch, whole or not at all. */
  function Ticked(s: State, now: nat, batchWritten: bool): State {
    var s' := if s.deadline != 0 && now >= s.deadline then s.(deadline := 0) else s;
    if s'.pending != [] && batchWritten then s'.(pending := [], written := s'.written + s'.pending) else s'
  }

  function Started(s: State, hooked: bool, now: nat, batchWritten: bool, armedWritten: bool): State {
    if !hooked then s
    else
      var t := Ticked(s, now, batchWritten);
      if t.pending != [] || !armedWritten then t
      else t.(calls := 0, deadline := now + WINDOW_MS, base := |t.pushed|)
  }

  // ----- while a record is open -----

  /** Nothing nested in a recorded call is recorded: only the open record and the event counter change. */
  lemma {:induction false} NothingNestedIsRecorded(s: State, b: Body, onGameThread: bool)
    requires s.active.Some?
    ensures var r := RunBody(s, b, onGameThread);
      && r.active.Some? && r.active.value.id == s.active.value.id
      && r == s.(active := r.active, seen := r.seen)
    decreases b
  {
    match b
    case End(_) =>
    case Nested(call, next) =>
      NothingNestedIsRecorded(s, call.body, onGameThread);
      NothingNestedIsRecorded(Execute(s, call, onGameThread), next, onGameThread);
    case Interface(next) =>
      NothingNestedIsRecorded(Observe(s, onGameThread), next, onGameThread);
  }

  /** The events noted after `n` lookups: eight, and eight more each time the 32-bit counter comes round. */
  function Noted(n: nat): nat { MAX_EVENTS * (n / WRAP) + Min(n % WRAP, MAX_EVENTS) }

  lemma NotedStep(n: nat)
    ensures Noted(n + 1) == Noted(n) + if n % WRAP < MAX_EVENTS then 1 else 0
    ensures (n % WRAP + 1) % WRAP == (n + 1) % WRAP
  {
    var q, r := n / WRAP, n % WRAP;
    assert n == q * WRAP + r;
    if r + 1 == WRAP {
      assert n + 1 == (q + 1) * WRAP;
      assert (n + 1) / WRAP == q + 1 && (n + 1) % WRAP == 0;
    } else {
      assert (n + 1) / WRAP == q && (n + 1) % WRAP == r + 1;
    }
  }

  lemma {:induction false} EventsOfBody(s: State, b: Body, n: nat)
    requires s.active.Some? && s.seen == n % WRAP && s.active.value.events == Noted(n)
    ensures var r := RunBody(s, b, true);
      r.active.Some? && r.seen == (n + Lookups(b)) % WRAP && r.active.value.events == Noted(n + Lookups(b))
    decreases b
  {
    hide Noted;
    match b
    case End(_) =>
    case Nested(call, next) =>
      EventsOfBody(s, call.body, n);
      EventsOfBody(Execute(s, call, true), next, n + Lookups(call.body));
    case Interface(next) =>
      NotedStep(n);
      EventsOfBody(Observe(s, true), next, n + 1);
  }

  /** The trace is armed, its window is open, no record is open and there is room for another call. */
  predicate Armed(s: State, now: nat) {
    s.deadline != 0 && now < s.deadline && s.active == None && s.calls < 4
  }

  /**
   * A call while armed is counted; if it returns and its record can be kept, one
   * record is added, with its own number and exactly the noted events, and if it
   * returns as the fourth, the trace is disarmed. A call that throws leaves no record.
   */
  lemma CapturedCallExactly(s: State, h: Handler)
    requires Armed(s, h.now)
    ensures var r, ending := Execute(s, h, true), EndingOf(h.body);
      var recs := if ending.Returns? && h.keeps then [Rec(s.calls + 1, Noted(Lookups(h.body)), ending.result)] else [];
      && r.calls == s.calls + 1 && r.active == None
      && r.pending == s.pending + recs && r.pushed == s.pushed + recs && r.written == s.written
      && r.deadline == if ending.Returns? && s.calls + 1 == 4 then 0 else s.deadline
  {
    NothingNestedIsRecorded(Begin(s), h.body, true);
    assert Noted(0) == 0;
    EventsOfBody(Begin(s), h.body, 0);
  }

  /**
   * The cap of eight events per record holds exactly up to 2^32 lookups in one
   * call; beyond that the unsigned counter has come round.
   */
  lemma EventCapExactly(n: nat)
    ensures Noted(n) <= MAX_EVENTS <==> n <= WRAP
  {
    var q, r := n / WRAP, n % WRAP;
    assert n == q * WRAP + r;
    if n < WRAP {
      assert q == 0;
    } else if n == WRAP {
      assert q == 1 && r == 0;
    } else {
      assert q >= 1;
      assert q >= 2 || r >= 1;
    }
  }

  /** The cap as it applies to the record of a call: it is met exactly up to 2^32 lookups, nested calls included. */
  lemma RecordCapExactly(s: State, h: Handler)
    requires Armed(s, h.now) && h.keeps && EndingOf(h.body).Returns?
    ensures var r := Execute(s, h, true);
      && |r.pending| == |s.pending| + 1
      && (r.pending[|s.pending|].events <= 8 <==> Lookups(h.body) <= 0x1_0000_0000)
  {
    CapturedCallExactly(s, h);
    EventCapExactly(Lookups(h.body));
    hide Noted, Execute;
  }

  /** A handler body of `n` lookups and nothing else. */
  function Many(n: nat): Body {
    if n == 0 then End(Returns(true)) else Interface(Many(n - 1))
  }

  lemma {:induction false} ManyLookups(n: nat)
    ensures Lookups(Many(n)) == n && EndingOf(Many(n)) == Returns(true)
  {
    if n > 0 {
      ManyLookups(n - 1);
    }
  }

  /** The call that breaks the cap: 2^32 + 1 lookups while armed leave a record with nine events. */
  lemma EventCapFails()
    ensures var armed := Started(Init(), true, 0, true, true);
      var r := Execute(armed, Handler(0, true, Many(WRAP + 1)), true);
      r.pending == [Rec(1, 9, true)]
  {
    var armed := Started(Init(), true, 0, true, true);
    ManyLookups(WRAP + 1);
    CapturedCallExactly(armed, Handler(0, true, Many(WRAP + 1)));
    hide Many, Execute;
    assert (WRAP + 1) / WRAP == 1 && (WRAP + 1) % WRAP == 1;
  }

  /** A call that nests no other is recorded exactly when it is made on the game thread while armed. */
  lemma {:induction false} RecordedExactly(s: State, h: Handler, onGameThread: bool)
    requires s.active == None && PreorderIn(h.body) == []
    ensures Execute(s, h, onGameThread).calls == s.calls + 1 <==> onGameThread && Armed(s, h.now)
    ensures Execute(s, h, onGameThread).calls == s.calls <==> Execute(s, h, onGameThread) == s
  {
    if onGameThread && Armed(s, h.now) {
      CapturedCallExactly(s, h);
    } else {
      FlatBodyChangesNothing(s, h.body, onGameThread);
    }
  }

  lemma {:induction false} FlatBodyChangesNothing(s: State, b: Body, onGameThread: bool)
    requires s.active == None && PreorderIn(b) == []
    ensures RunBody(s, b, onGameThread) == s
    decreases b
  {
    match b
    case End(_) =>
    case Nested(call, next) =>
    case Interface(next) => FlatBodyChangesNothing(s, next, onGameThread);
  }

  /** A tick closes an expired window, and writes the pending records, all of them and in order, whenever they can be written. */
  lemma TickExactly(s: State, now: nat, batchWritten: bool)
    ensures var r := Ticked(s, now, batchWritten);
      && r.deadline == (if now >= s.deadline then 0 else s.deadline)
      && (batchWritten ==> r.pending == [] && r.written == s.written + s.pending)
      && (!batchWritten ==> r.pending == s.pending && r.written == s.written)
      && r.calls == s.calls && r.pushed == s.pushed && r.active == s.active && r.seen == s.seen && r.base == s.base
  {
    assert s.written + [] == s.written;
  }

  /** Starting arms for 120 seconds and four calls, with nothing pending; otherwise it is no more than a tick. */
  lemma StartExactly(s: State, hooked: bool, now: nat, batchWritten: bool, armedWritten: bool)
    requires s.active == None
    ensures var r := Started(s, hooked, now, batchWritten, armedWritten);
      if hooked && armedWritten && (s.pending == [] || batchWritten) then
        && r.pending == [] && r.written == s.written + s.pending && r.pushed == s.pushed
        && r.calls == 0 && r.deadline == now + 120000 && r.base == |s.pushed|
        && forall t: nat :: Armed(r, t) <==> t < now + 120000
      else r == if hooked then Ticked(s, now, batchWritten) else s
  {
    TickExactly(s, now, batchWritten);
    hide Ticked;
  }

  /** Calls on other threads, and all calls while the trace is not armed, leave no trace at all. */
  lemma {:induction false} InvisibleUnlessArmed(s: State, h: Handler, onGameThread: bool)
    requires !onGameThread || (s.active.None? && (s.deadline == 0 || s.calls >= MAX_CALLS))
    ensures Execute(s, h, onGameThread) == s
    decreases h, 1
  {
    BodyInvisibleUnlessArmed(s, h.body, onGameThread);
  }

  lemma {:induction false} BodyInvisibleUnlessArmed(s: State, b: Body, onGameThread: bool)
    requires !onGameThread || (s.active.None? && (s.deadline == 0 || s.calls >= MAX_CALLS))
    ensures RunBody(s, b, onGameThread) == s
    decreases b, 0
  {
    match b
    case End(_) =>
    case Nested(call, next) =>
      InvisibleUnlessArmed(s, call, onGameThread);
      BodyInvisibleUnlessArmed(s, next, onGameThread);
    case Interface(next) => BodyInvisibleUnlessArmed(s, next, onGameThread);
  }

  // ----- whole runs -----

  datatype Event =
    | Called(h: Handler, onGameThread: bool)
    | Ticks(now: nat, batchWritten: bool)
    | Starts(hooked: bool, now: nat, batchWritten: bool, armedWritten: bool)
    | Stops(now: nat, batchWritten: bool)

  function Next(s: State, e: Event): State {
    match e
    case Called(h, onGameThread) => Execute(s, h, onGameThread)
    case Ticks(now, batchWritten) => Ticked(s, now, batchWritten)
    case Starts(hooked, now, batchWritten, armedWritten) => Started(s, hooked, now, batchWritten, armedWritten)
    case Stops(now, batchWritten) => Ticked(s.(deadline := 0), now, batchWritten)
  }

  function Init(): State { State(0, 0, [], None, 0, [], [], 0) }

  function Run(events: seq<Event>): State {
    if events == [] then Init() else Next(Run(events[..|events| - 1]), events[|events| - 1])
  }

  /** The observer, started afresh and taken through any events, is in the state of the run. */
  method Take(events: seq<Event>) returns (tracer: Tracer)
    ensures fresh(tracer) && tracer.Value() == Run(events)
  {
    hide Execute, Ticked, Started;
    tracer := new Tracer();
    assert events[..0] == [];
    for k := 0 to |events|
      invariant fresh(tracer) && tracer.Value() == Run(events[..k])
    {
      assert events[..k + 1][..k] == events[..k];
      match events[k] {
        case Called(h, onGameThread) => var _ := tracer.CaptureExecute(h, onGameThread);
        case Ticks(now, batchWritten) => tracer.Tick(now, batchWritten);
        case Starts(hooked, now, batchWritten, armedWritten) =>
          var _ := tracer.Start(hooked, now, batchWritten, armedWritten);
        case Stops(now, batchWritten) => tracer.Stop(now, batchWritten);
      }
    }
    assert events[..|events|] == events;
  }

  /**
   * Between calls: no record is open, at most four calls were recorded since
   * arming, numbered from one up, and no record is lost: all that were pushed
   * have been written or are pending, in order.
   */
  ghost predicate Inv(s: State) {
    && s.active == None
    && s.calls <= MAX_CALLS
    && s.pushed == s.written + s.pending
    && s.base <= |s.pushed|
    && |s.pushed| - s.base <= s.calls
    && (forall i :: s.base <= i < |s.pushed| ==> 1 <= s.pushed[i].id <= s.calls)
    && (forall i, j :: s.base <= i < j < |s.pushed| ==> s.pushed[i].id < s.pushed[j].id)
    && |s.pending| <= |s.pushed| - s.base
  }

  lemma {:induction false} CallKeepsInv(s: State, h: Handler, onGameThread: bool)
    requires Inv(s)
    ensures Inv(Execute(s, h, onGameThread))
    decreases h, 1
  {
    if Captures(s, h, onGameThread) {
      NothingNestedIsRecorded(Begin(s), h.body, onGameThread);
      var r := RunBody(Begin(s), h.body, onGameThread);
      FinishKeepsInv(s, r, EndingOf(h.body), h.keeps);
    } else {
      BodyKeepsInv(s, h.body, onGameThread);
    }
  }

  lemma FinishKeepsInv(s: State, r: State, ending: Ending, keeps: bool)
    requires Inv(s) && s.calls < MAX_CALLS
    requires r.active.Some? && r.active.value.id == s.calls + 1
    requires r == Begin(s).(active := r.active, seen := r.seen)
    ensures Inv(Finish(r, ending, keeps))
  {
    var rec := Finish(r, ending, keeps);
    assert r.pushed == s.pushed && r.pending == s.pending;
    if ending.Returns? && keeps {
      var last := r.active.value.(result := ending.result);
      Associative(s.written, s.pending, [last]);
      assert forall i :: 0 <= i < |s.pushed| ==> rec.pushed[i] == s.pushed[i];
      assert rec.pushed[|s.pushed|] == last;
    }
  }

  lemma {:induction false} BodyKeepsInv(s: State, b: Body, onGameThread: bool)
    requires Inv(s)
    ensures Inv(RunBody(s, b, onGameThread))
    decreases b, 0
  {
    match b
    case End(_) =>
    case Nested(call, next) =>
      CallKeepsInv(s, call, onGameThread);
      BodyKeepsInv(Execute(s, call, onGameThread), next, onGameThread);
    case Interface(next) =>
      BodyKeepsInv(s, next, onGameThread);
  }

  lemma TickKeepsInv(s: State, now: nat, batchWritten: bool)
    requires Inv(s)
    ensures Inv(Ticked(s, now, batchWritten))
  {
    assert (s.written + s.pending) + [] == s.written + s.pending;
  }

  lemma {:induction false} EveryRunKeepsInv(events: seq<Event>)
    ensures Inv(Run(events))
  {
    if events != [] {
      var s, e := Run(events[..|events| - 1]), events[|events| - 1];
      EveryRunKeepsInv(events[..|events| - 1]);
      match e
      case Called(h, onGameThread) => CallKeepsInv(s, h, onGameThread);
      case Ticks(now, batchWritten) => TickKeepsInv(s, now, batchWritten);
      case Starts(hooked, now, batchWritten, armedWritten) => TickKeepsInv(s, now, batchWritten);
      case Stops(now, batchWritten) => TickKeepsInv(s.(deadline := 0), now, batchWritten);
    }
  }

  /** The bounds a reader of the log can rely on, for every run. */
  lemma TraceIsBoundedAndLossless(events: seq<Event>)
    ensures var s := Run(events);
      && s.pushed == s.written + s.pending
      && |s.pending| <= s.calls <= MAX_CALLS
      && |s.pushed| - s.base <= MAX_CALLS
      && (forall i, j :: s.base <= i < j < |s.pushed| ==> s.pushed[i].id < s.pushed[j].id)
  {
    EveryRunKeepsInv(events);
  }

  /** No call of the tree, the outermost or a nested one, makes more than 2^32 lookups. */
  predicate Modest(h: Handler)
    decreases h, 1
  {
    Lookups(h.body) <= WRAP && ModestIn(h.body)
  }

  predicate ModestIn(b: Body)
    decreases b, 0
  {
    match b
    case End(_) => true
    case Nested(call, next) => Modest(call) && ModestIn(next)
    case Interface(next) => ModestIn(next)
  }

  predicate Capped(recs: seq<Rec>) { forall i :: 0 <= i < |recs| ==> recs[i].events <= MAX_EVENTS }

  lemma {:induction false} CallKeepsCap(s: State, h: Handler, onGameThread: bool)
    requires s.active.None? && Capped(s.pushed) && Modest(h)
    ensures var r := Execute(s, h, onGameThread); r.active.None? && Capped(r.pushed)
    decreases h, 1
  {
    if Captures(s, h, onGameThread) {
      NothingNestedIsRecorded(Begin(s), h.body, true);
      assert Noted(0) == 0;
      EventsOfBody(Begin(s), h.body, 0);
      EventCapExactly(Lookups(h.body));
      hide Noted;
    } else {
      BodyKeepsCap(s, h.body, onGameThread);
    }
  }

  lemma {:induction false} BodyKeepsCap(s: State, b: Body, onGameThread: bool)
    requires s.active.None? && Capped(s.pushed) && ModestIn(b)
    ensures var r := RunBody(s, b, onGameThread); r.active.None? && Capped(r.pushed)
    decreases b, 0
  {
    match b
    case End(_) =>
    case Nested(call, next) =>
      CallKeepsCap(s, call, onGameThread);
      BodyKeepsCap(Execute(s, call, onGameThread), next, onGameThread);
    case Interface(next) =>
      BodyKeepsCap(s, next, onGameThread);
  }

  /** In every run whose calls make at most 2^32 lookups each, every record ever pushed has at most eight events. */
  lemma {:induction false} EveryRecordIsCapped(events: seq<Event>)
    requires forall i :: 0 <= i < |events| && events[i].Called? ==> Modest(events[i].h)
    ensures Run(events).active.None? && Capped(Run(events).pushed)
  {
    if events != [] {
      var n := |events| - 1;
      EveryRecordIsCapped(events[..n]);
      if events[n].Called? {
        CallKeepsCap(Run(events[..n]), events[n].h, events[n].onGameThread);
      }
      hide Execute, Modest;
    }
  }
}
