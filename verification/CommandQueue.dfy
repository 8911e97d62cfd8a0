/**
 * The hand-off between the RCON worker thread and the game thread: one-shot
 * promises, the pending queue, and the game thread's drain loop.
 */
module CommandQueue {
  import opened Bytes

  datatype Authority = NoAuthority | AuthenticatedRcon

  predicate IsRconAuthorized(a: Authority) { a == AuthenticatedRcon }

  function Denied(): bytes { Ascii("error: authenticated RCON connection required") }

  /** `std::promise<std::string>` with its future: a cell that may be set once. */
  class Promise {
    var value: Option<bytes>

    constructor ()
      ensures value == None
    {
      value := None;
    }

    /** A second `set_value` would throw; the precondition says it never happens. */
    method SetValue(text: bytes)
      requires value == None
      modifies this
      ensures value == Some(text)
    {
      value := Some(text);
    }
  }

  datatype PendingCommand = PendingCommand(text: bytes, response: Promise, authority: Authority)

  /** The command texts of pending entries, in order. */
  function Texts(items: seq<PendingCommand>): (r: seq<bytes>)
    ensures |r| == |items|
  {
    seq(|items|, i requires 0 <= i < |items| => items[i].text)
  }

  lemma NoTexts()
    ensures Texts([]) == []
  {
  }

  /** The promises of `items` are all different and none has been set. */
  ghost predicate Unanswered(items: seq<PendingCommand>)
    reads set i | 0 <= i < |items| :: items[i].response
  {
    && (forall i, j :: 0 <= i < j < |items| ==> items[i].response != items[j].response)
    && (forall i :: 0 <= i < |items| ==> items[i].response.value == None)
  }

  class Queue {
    var pending: seq<PendingCommand>
    /** Every text accepted so far, in order; draining does not change it. */
    ghost var accepted: seq<bytes>

    /** The promises that are still to be set. */
    ghost function Promises(): set<Promise>
      reads this
    {
      set i | 0 <= i < |pending| :: pending[i].response
    }

    ghost predicate Valid()
      reads this, Promises()
    {
      && Unanswered(pending)
      && (forall i :: 0 <= i < |pending| ==> IsRconAuthorized(pending[i].authority))
      && |pending| <= |accepted|
      && accepted[|accepted| - |pending|..] == Texts(pending)
    }

    constructor ()
      ensures Valid() && pending == [] && accepted == []
    {
      pending := [];
      accepted := [];
      new;
      NoTexts();
      hide Texts;
    }

    method Enqueue(text: bytes, authority: Authority) returns (future: Promise)
      requires Valid()
      modifies this
      ensures Valid() && fresh(future)
      ensures authority != AuthenticatedRcon ==>
                && future.value == Some(Ascii("error: authenticated RCON connection required"))
                && pending == old(pending) && accepted == old(accepted)
      ensures authority == AuthenticatedRcon ==>
                && future.value == None
                && pending == old(pending) + [PendingCommand(text, future, authority)]
                && accepted == old(accepted) + [text]
    {
      future := new Promise();
      if !IsRconAuthorized(authority) {
        future.SetValue(Denied());
        return;
      }
      pending := pending + [PendingCommand(text, future, authority)];
      accepted := accepted + [text];
    }

    method Drain() returns (out: seq<PendingCommand>)
      requires Valid()
      modifies this`pending
      ensures Valid() && pending == [] && out == old(pending)
      ensures accepted[|accepted| - |out|..] == Texts(out)
    {
      out := pending;
      pending := [];
    }
  }

  /** What a dispatch does: it returns a text, or throws. */
  datatype Outcome = Returned(text: bytes) | StdException(what: bytes) | UnknownException

  function Response(o: Outcome): bytes {
    match o
    case Returned(text) => text
    case StdException(what) => Ascii("error: exception during dispatch: ") + what
    case UnknownException => Ascii("error: unknown exception during dispatch")
  }

  /** The sentinels `drain_and_dispatch` answers itself without the admin dispatcher. */
  datatype Route = CaptureStart | CaptureStop | Diagnostic | Admin

  /** The two texts that switch the call capture by hand. */
  predicate IsSentinel(text: bytes) { text == Ascii("!capture_start") || text == Ascii("!capture_stop") }

  function RouteOf(text: bytes, isDiagnostic: bytes -> bool): Route {
    if text == Ascii("!capture_start") then CaptureStart
    else if text == Ascii("!capture_stop") then CaptureStop
    else if isDiagnostic(text) then Diagnostic
    else Admin
  }

  /** The outcome of one command; the two capture sentinels have fixed answers. */
  function OutcomeOf(text: bytes, isDiagnostic: bytes -> bool, oracle: Outcome): Outcome {
    match RouteOf(text, isDiagnostic)
    case CaptureStart => Returned(Ascii("ok: capture started"))
    case CaptureStop => Returned(Ascii("ok: capture stopped"))
    case _ => oracle
  }

  /** What the promise of an item is set to. */
  function Answer(item: PendingCommand, isDiagnostic: bytes -> bool, oracle: Outcome): bytes {
    if IsRconAuthorized(item.authority) then Response(OutcomeOf(item.text, isDiagnostic, oracle)) else Denied()
  }

  /** The texts of the items that reach a handler. */
  function AuthorizedTexts(items: seq<PendingCommand>): seq<bytes> {
    if items == [] then []
    else
      var n := |items| - 1;
      AuthorizedTexts(items[..n]) + if IsRconAuthorized(items[n].authority) then [items[n].text] else []
  }

  lemma {:induction false} AllAuthorized(items: seq<PendingCommand>)
    requires forall i :: 0 <= i < |items| ==> IsRconAuthorized(items[i].authority)
    ensures AuthorizedTexts(items) == Texts(items)
  {
    if items != [] {
      var n := |items| - 1;
      AllAuthorized(items[..n]);
      assert Texts(items) == Texts(items[..n]) + [items[n].text];
    }
  }

  /** Whether the call capture is on after one item. */
  function CapturingAfterOne(capturing: bool, item: PendingCommand, isDiagnostic: bytes -> bool, oracle: Outcome): bool {
    if !IsRconAuthorized(item.authority) then capturing
    else match RouteOf(item.text, isDiagnostic)
      case CaptureStart => true
      case CaptureStop => false
      case Diagnostic => capturing && oracle.Returned?
      case Admin => false
  }

  function CapturingAfter(capturing: bool, items: seq<PendingCommand>, isDiagnostic: bytes -> bool, oracle: nat -> Outcome): bool {
    if items == [] then capturing
    else
      var n := |items| - 1;
      CapturingAfterOne(CapturingAfter(capturing, items[..n], isDiagnostic, oracle), items[n], isDiagnostic, oracle(n))
  }

  lemma BatchNil(capturing: bool, isDiagnostic: bytes -> bool, oracle: nat -> Outcome)
    ensures AuthorizedTexts([]) == []
    ensures CapturingAfter(capturing, [], isDiagnostic, oracle) == capturing
  {
  }

  lemma BatchSnoc(capturing: bool, items: seq<PendingCommand>, isDiagnostic: bytes -> bool, oracle: nat -> Outcome)
    requires items != []
    ensures var n := |items| - 1;
      && AuthorizedTexts(items) ==
         AuthorizedTexts(items[..n]) + (if IsRconAuthorized(items[n].authority) then [items[n].text] else [])
      && CapturingAfter(capturing, items, isDiagnostic, oracle) ==
         CapturingAfterOne(CapturingAfter(capturing, items[..n], isDiagnostic, oracle), items[n], isDiagnostic, oracle(n))
  {
  }

  lemma SentinelsDiffer()
    ensures Ascii("!capture_start") != Ascii("!capture_stop")
  {
    assert |Ascii("!capture_start")| == 14 && |Ascii("!capture_stop")| == 13;
  }

  /** An answer tells, word for word, what became of a command of that text whose dispatch ended so. */
  predicate Tells(answer: bytes, text: bytes, outcome: Outcome) {
    && (text == Ascii("!capture_start") ==> answer == Ascii("ok: capture started"))
    && (text == Ascii("!capture_stop") ==> answer == Ascii("ok: capture stopped"))
    && (!IsSentinel(text) && outcome.Returned? ==> answer == outcome.text)
    && (!IsSentinel(text) && outcome.StdException? ==> answer == Ascii("error: exception during dispatch: ") + outcome.what)
    && (!IsSentinel(text) && outcome.UnknownException? ==> answer == Ascii("error: unknown exception during dispatch"))
  }

  /** The answer to a command word for word, whichever way its dispatch ends. */
  lemma AnswerExactly(item: PendingCommand, isDiagnostic: bytes -> bool, oracle: Outcome)
    ensures item.authority != AuthenticatedRcon ==>
              Answer(item, isDiagnostic, oracle) == Ascii("error: authenticated RCON connection required")
    ensures item.authority == AuthenticatedRcon && item.text == Ascii("!capture_start") ==>
              Answer(item, isDiagnostic, oracle) == Ascii("ok: capture started")
    ensures item.authority == AuthenticatedRcon && item.text == Ascii("!capture_stop") ==>
              Answer(item, isDiagnostic, oracle) == Ascii("ok: capture stopped")
    ensures item.authority == AuthenticatedRcon && !IsSentinel(item.text) ==>
              && (oracle.Returned? ==> Answer(item, isDiagnostic, oracle) == oracle.text)
              && (oracle.StdException? ==>
                    Answer(item, isDiagnostic, oracle) == Ascii("error: exception during dispatch: ") + oracle.what)
              && (oracle.UnknownException? ==>
                    Answer(item, isDiagnostic, oracle) == Ascii("error: unknown exception during dispatch"))
  {
    SentinelsDiffer();
    hide Ascii;
  }

  lemma AnswerOfAuthorized(item: PendingCommand, isDiagnostic: bytes -> bool, oracle: Outcome)
    requires IsRconAuthorized(item.authority)
    ensures Answer(item, isDiagnostic, oracle) == Response(OutcomeOf(item.text, isDiagnostic, oracle))
    ensures Tells(Answer(item, isDiagnostic, oracle), item.text, oracle)
  {
    AnswerExactly(item, isDiagnostic, oracle);
    SentinelsDiffer();
    hide Ascii;
  }

  /** An item that switches the call capture on, or one that at least leaves it as it is. */
  predicate StartsCapture(item: PendingCommand, isDiagnostic: bytes -> bool) {
    item.authority == AuthenticatedRcon && item.text == Ascii("!capture_start")
  }

  predicate LeavesCapture(item: PendingCommand, isDiagnostic: bytes -> bool, oracle: Outcome) {
    || item.authority != AuthenticatedRcon
    || (!IsSentinel(item.text) && isDiagnostic(item.text) && oracle.Returned?)
  }

  ghost predicate OnlyLeavesAfter(items: seq<PendingCommand>, k: int, isDiagnostic: bytes -> bool, oracle: nat -> Outcome) {
    forall i: nat :: k < i < |items| ==> LeavesCapture(items[i], isDiagnostic, oracle(i))
  }

  /** The capture is on after a batch exactly when its last switch-on, or the state before, survived all later items. */
  lemma {:induction false} CaptureIsOnExactly(capturing: bool, items: seq<PendingCommand>, isDiagnostic: bytes -> bool, oracle: nat -> Outcome)
    ensures CapturingAfter(capturing, items, isDiagnostic, oracle) <==>
            || (capturing && OnlyLeavesAfter(items, -1, isDiagnostic, oracle))
            || (exists k :: 0 <= k < |items| && StartsCapture(items[k], isDiagnostic) && OnlyLeavesAfter(items, k, isDiagnostic, oracle))
  {
    if items != [] {
      SentinelsDiffer();
      hide Ascii;
      var n := |items| - 1;
      var before := items[..n];
      CaptureIsOnExactly(capturing, before, isDiagnostic, oracle);
      assert forall i: nat :: i < n ==> before[i] == items[i];
      var leaves := LeavesCapture(items[n], isDiagnostic, oracle(n));
      forall k: int | k < n
        ensures OnlyLeavesAfter(items, k, isDiagnostic, oracle) == (leaves && OnlyLeavesAfter(before, k, isDiagnostic, oracle))
      {
      }
      assert OnlyLeavesAfter(items, n, isDiagnostic, oracle);
      forall k | 0 <= k < n
        ensures StartsCapture(items[k], isDiagnostic) == StartsCapture(before[k], isDiagnostic)
      {
      }
      hide OnlyLeavesAfter;
    }
  }

  /** The game thread's side of the hand-off. */
  class GameThread {
    const queue: Queue
    var capturing: bool
    /** Texts handed to a handler so far, in order. */
    ghost var dispatched: seq<bytes>

    /** Everything accepted has been dispatched or is still pending, in order. */
    ghost predicate Valid()
      reads this, queue, queue.Promises()
    {
      && queue.Valid()
      && dispatched + Texts(queue.pending) == queue.accepted
    }

    constructor (queue: Queue)
      requires queue.Valid() && queue.accepted == Texts(queue.pending)
      ensures Valid() && this.queue == queue && !capturing && dispatched == []
    {
      this.queue := queue;
      capturing := false;
      dispatched := [];
    }

    /** The loop of `drain_and_dispatch`; every promise is set, once, whatever the dispatch does. */
    method DispatchBatch(items: seq<PendingCommand>, isDiagnostic: bytes -> bool, oracle: nat -> Outcome)
      requires Unanswered(items)
      modifies this`capturing, this`dispatched, set i | 0 <= i < |items| :: items[i].response
      ensures forall i :: 0 <= i < |items| ==>
                items[i].response.value == Some(Answer(items[i], isDiagnostic, oracle(i)))
      ensures forall i :: 0 <= i < |items| && items[i].authority == AuthenticatedRcon ==>
                items[i].response.value.Some? && Tells(items[i].response.value.value, items[i].text, oracle(i))
      ensures dispatched == old(dispatched) + AuthorizedTexts(items)
      ensures capturing == CapturingAfter(old(capturing), items, isDiagnostic, oracle)
    {
      hide AuthorizedTexts, CapturingAfter, CapturingAfterOne, Answer, Tells;
      var k := 0;
      BatchNil(capturing, isDiagnostic, oracle);
      assert items[..0] == [];
      while k < |items|
        invariant 0 <= k <= |items|
        invariant forall i :: 0 <= i < k ==>
                    items[i].response.value == Some(Answer(items[i], isDiagnostic, oracle(i)))
        invariant forall i :: k <= i < |items| ==> items[i].response.value == None
        invariant dispatched == old(dispatched) + AuthorizedTexts(items[..k])
        invariant capturing == CapturingAfter(old(capturing), items[..k], isDiagnostic, oracle)
      {
        BatchSnoc(old(capturing), items[..k + 1], isDiagnostic, oracle);
        assert items[..k + 1][..k] == items[..k];
        DispatchOne(items[k], isDiagnostic, oracle(k));
        k := k + 1;
      }
      assert items[..k] == items;
      forall i | 0 <= i < |items| && items[i].authority == AuthenticatedRcon {
        AnswerOfAuthorized(items[i], isDiagnostic, oracle(i));
      }
    }

    /** One turn of the loop. */
    method DispatchOne(item: PendingCommand, isDiagnostic: bytes -> bool, oracle: Outcome)
      requires item.response.value == None
      modifies this`capturing, this`dispatched, item.response
      ensures item.response.value == Some(Answer(item, isDiagnostic, oracle))
      ensures item.authority != AuthenticatedRcon ==>
                item.response.value == Some(Ascii("error: authenticated RCON connection required"))
      ensures item.authority == AuthenticatedRcon && item.text == Ascii("!capture_start") ==>
                item.response.value == Some(Ascii("ok: capture started"))
      ensures item.authority == AuthenticatedRcon && item.text == Ascii("!capture_stop") ==>
                item.response.value == Some(Ascii("ok: capture stopped"))
      ensures item.authority == AuthenticatedRcon && !IsSentinel(item.text) ==>
                && (oracle.Returned? ==> item.response.value == Some(oracle.text))
                && (oracle.StdException? ==>
                      item.response.value == Some(Ascii("error: exception during dispatch: ") + oracle.what))
                && (oracle.UnknownException? ==>
                      item.response.value == Some(Ascii("error: unknown exception during dispatch")))
      ensures dispatched == old(dispatched) + if IsRconAuthorized(item.authority) then [item.text] else []
      ensures capturing == CapturingAfterOne(old(capturing), item, isDiagnostic, oracle)
    {
      AnswerExactly(item, isDiagnostic, oracle);
      hide Ascii;
      if !IsRconAuthorized(item.authority) {
        item.response.SetValue(Denied());
        return;
      }
      dispatched := dispatched + [item.text];
      var outcome := oracle;
      match RouteOf(item.text, isDiagnostic) {
        case CaptureStart =>
          capturing := true;
          outcome := Returned(Ascii("ok: capture started"));
        case CaptureStop =>
          capturing := false;
          outcome := Returned(Ascii("ok: capture stopped"));
        case Diagnostic =>
        case Admin =>
          capturing := true;
          if outcome.Returned? { capturing := false; }
      }
      if !outcome.Returned? {
        capturing := false;
      }
      item.response.SetValue(Response(outcome));
    }

    method DrainAndDispatch(isDiagnostic: bytes -> bool, oracle: nat -> Outcome)
      requires Valid()
      modifies queue`pending, this`capturing, this`dispatched, queue.Promises()
      ensures Valid() && queue.pending == [] && dispatched == queue.accepted
      ensures forall i :: 0 <= i < |old(queue.pending)| ==>
                var item := old(queue.pending)[i];
                item.response.value == Some(Response(OutcomeOf(item.text, isDiagnostic, oracle(i))))
      ensures forall i :: 0 <= i < |old(queue.pending)| ==>
                var item := old(queue.pending)[i];
                item.response.value.Some? && Tells(item.response.value.value, item.text, oracle(i))
      ensures capturing == CapturingAfter(old(capturing), old(queue.pending), isDiagnostic, oracle)
    {
      hide Answer, CapturingAfter, Response, OutcomeOf, Tells, Texts, AuthorizedTexts;
      AllAuthorized(queue.pending);
      NoTexts();
      var items := queue.Drain();
      DispatchBatch(items, isDiagnostic, oracle);
      assert dispatched + [] == dispatched && queue.accepted[|queue.accepted|..] == [];
      forall i | 0 <= i < |items| {
        AnswerOfAuthorized(items[i], isDiagnostic, oracle(i));
      }
    }
  }
}
