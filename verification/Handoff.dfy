/**
 * The two-thread protocol as a state machine: the worker serves one connection
 * at a time and waits at most 25 seconds for each command, the game thread
 * drains and dispatches whenever it ticks, and the two interleave freely.
 */
module Handoff {
  import opened Bytes
  import opened CommandQueue
  import opened RconServer

  /** A request for which a promise exists; its ticket is its index in `asked`. */
  datatype Ask = Ask(connection: nat, requestId: int32, text: bytes, authority: Authority)

  /** A reply the worker starts to send. */
  datatype Sent = Sent(ticket: nat, connection: nat, requestId: int32, text: bytes, timedOut: bool)

  datatype Ran = Ran(ticket: nat, outcome: Outcome)

  datatype Worker = Listening | Connected | Authenticated | Waiting(ticket: nat, requestId: int32)

  datatype State = State(
    worker: Worker,
    passed: seq<bool>,           // one entry per connection: did it present the password
    asked: seq<Ask>,
    cells: seq<Option<bytes>>,   // the promise of each ask
    queue: seq<nat>,             // tickets in m_pending
    batch: seq<nat>,             // tickets drained and not yet dispatched
    ran: seq<Ran>,               // handler runs, in order
    fulfilled: seq<nat>,         // the ticket of every set_value call, in order
    sent: seq<Sent>)

  function Init(): State { State(Listening, [], [], [], [], [], [], [], []) }

  datatype Event =
    | Accept
    | Login(matches: bool, welcomed: bool)
    | Command(requestId: int32, text: bytes)
    | OtherPacket
    | Disconnect
    | Unauthorized(text: bytes)            // an enqueue without RCON authority
    | Result(delivered: bool)              // the future became ready within the wait
    | Timeout(delivered: bool)             // the wait ended first
    | Drain
    | Dispatch(outcome: Outcome)           // one turn of the loop over the batch

  function Enqueue(s: State, ask: Ask): State {
    var ticket := |s.asked|;
    if IsRconAuthorized(ask.authority) then
      s.(asked := s.asked + [ask], cells := s.cells + [None], queue := s.queue + [ticket])
    else
      s.(asked := s.asked + [ask], cells := s.cells + [Some(Denied())], fulfilled := s.fulfilled + [ticket])
  }

  function SendReply(s: State, text: bytes, timedOut: bool, delivered: bool): State
    requires s.worker.Waiting? && |s.passed| > 0
  {
    s.(sent := s.sent + [Sent(s.worker.ticket, |s.passed| - 1, s.worker.requestId, text, timedOut)],
       worker := if delivered then Authenticated else Listening)
  }

  /**
   * One step; an event that is not enabled leaves the state alone. The index
   * tests hold in every reachable state and only make the function total.
   */
  function Next(s: State, e: Event): State {
    match e
    case Accept =>
      if s.worker.Listening? then s.(worker := Connected, passed := s.passed + [false]) else s
    case Login(matches, welcomed) =>
      if !s.worker.Connected? || s.passed == [] then s
      else if !matches then s.(worker := Listening)
      else s.(worker := if welcomed then Authenticated else Listening, passed := s.passed[|s.passed| - 1 := true])
    case Command(requestId, text) =>
      if !s.worker.Authenticated? || s.passed == [] then s
      else Enqueue(s, Ask(|s.passed| - 1, requestId, text, AuthenticatedRcon)).(worker := Waiting(|s.asked|, requestId))
    case OtherPacket => s
    case Disconnect =>
      if s.worker.Connected? || s.worker.Authenticated? then s.(worker := Listening) else s
    case Unauthorized(text) => Enqueue(s, Ask(0, 0, text, NoAuthority))
    case Result(delivered) =>
      if s.worker.Waiting? && s.passed != [] && s.worker.ticket < |s.cells| && s.cells[s.worker.ticket].Some?
      then SendReply(s, Reply(s.cells[s.worker.ticket]), false, delivered) else s
    case Timeout(delivered) =>
      if s.worker.Waiting? && s.passed != [] && s.worker.ticket < |s.cells| && s.cells[s.worker.ticket].None?
      then SendReply(s, Reply(None), true, delivered) else s
    case Drain =>
      if s.batch == [] then s.(batch := s.queue, queue := []) else s
    case Dispatch(outcome) =>
      if s.batch == [] || s.batch[0] >= |s.asked| || s.batch[0] >= |s.cells| then s
      else DispatchHead(s, outcome)
  }

  function DispatchHead(s: State, outcome: Outcome): State
    requires s.batch != [] && s.batch[0] < |s.asked| && s.batch[0] < |s.cells|
  {
    var t := s.batch[0];
    var done := s.(batch := s.batch[1..], fulfilled := s.fulfilled + [t]);
    if IsRconAuthorized(s.asked[t].authority) then
      done.(cells := s.cells[t := Some(Response(outcome))], ran := s.ran + [Ran(t, outcome)])
    else
      done.(cells := s.cells[t := Some(Denied())])
  }

  function RunFrom(s: State, events: seq<Event>): State {
    if events == [] then s else Next(RunFrom(s, events[..|events| - 1]), events[|events| - 1])
  }

  /** The state after a run: any events at all, in any order. */
  function Run(events: seq<Event>): State { RunFrom(Init(), events) }

  // ----- the invariant -----

  /** The tickets of the authorised requests, in the order they were made. */
  function AuthorizedTickets(asked: seq<Ask>): seq<nat> {
    if asked == [] then []
    else
      var n := |asked| - 1;
      AuthorizedTickets(asked[..n]) + if IsRconAuthorized(asked[n].authority) then [n] else []
  }

  function RanTickets(ran: seq<Ran>): (r: seq<nat>)
    ensures |r| == |ran|
  {
    seq(|ran|, i requires 0 <= i < |ran| => ran[i].ticket)
  }

  /** First in, first out: run, drained and queued tickets are the authorised requests in order. */
  ghost predicate Fifo(s: State) {
    RanTickets(s.ran) + s.batch + s.queue == AuthorizedTickets(s.asked)
  }

  /** A promise is set exactly when its ticket was fulfilled, and each ticket is fulfilled at most once. */
  ghost predicate OneShot(s: State) {
    && |s.cells| == |s.asked|
    && (forall i :: 0 <= i < |s.fulfilled| ==> s.fulfilled[i] < |s.cells|)
    && (forall i, j :: 0 <= i < j < |s.fulfilled| ==> s.fulfilled[i] != s.fulfilled[j])
    && (forall t :: 0 <= t < |s.cells| ==> (s.cells[t].Some? <==> t in s.fulfilled))
  }

  /** The value in a promise is the result of that very command, or the refusal. */
  ghost predicate CellsHoldResults(s: State) {
    && |s.cells| == |s.asked|
    && (forall t :: 0 <= t < |s.asked| && !IsRconAuthorized(s.asked[t].authority) ==> s.cells[t] == Some(Denied()))
    && (forall i :: 0 <= i < |s.ran| ==>
          s.ran[i].ticket < |s.cells| && s.cells[s.ran[i].ticket] == Some(Response(s.ran[i].outcome)))
    && (forall t :: 0 <= t < |s.asked| && IsRconAuthorized(s.asked[t].authority) && s.cells[t].Some? ==>
          t in RanTickets(s.ran))
  }

  /** Every authorised request came over a connection that had presented the password. */
  ghost predicate Authority(s: State) {
    && (forall t :: 0 <= t < |s.asked| && IsRconAuthorized(s.asked[t].authority) ==>
          s.asked[t].connection < |s.passed| && s.passed[s.asked[t].connection])
    && (s.worker.Authenticated? || s.worker.Waiting? ==> s.passed != [] && s.passed[|s.passed| - 1])
    && (s.worker.Connected? ==> s.passed != [] && !s.passed[|s.passed| - 1])
  }

  /** A reply answers the request of its ticket, on that request's connection. */
  ghost predicate Associated(s: State, r: Sent) {
    && r.ticket < |s.asked| && r.ticket < |s.cells|
    && s.asked[r.ticket].connection == r.connection
    && s.asked[r.ticket].requestId == r.requestId
    && IsRconAuthorized(s.asked[r.ticket].authority)
    && (if r.timedOut then r.text == Reply(None) else s.cells[r.ticket] == Some(r.text))
  }

  ghost predicate Replies(s: State) {
    && (forall i :: 0 <= i < |s.sent| ==> Associated(s, s.sent[i]))
    && (forall i, j :: 0 <= i < j < |s.sent| ==> s.sent[i].ticket < s.sent[j].ticket)
    && (s.worker.Waiting? ==>
          && s.worker.ticket < |s.asked|
          && s.passed != []
          && s.asked[s.worker.ticket] == Ask(|s.passed| - 1, s.worker.requestId, s.asked[s.worker.ticket].text, AuthenticatedRcon)
          && forall i :: 0 <= i < |s.sent| ==> s.sent[i].ticket < s.worker.ticket)
  }

  ghost predicate Inv(s: State) {
    Fifo(s) && OneShot(s) && CellsHoldResults(s) && Authority(s) && Replies(s)
  }

  // ----- every step keeps it -----

  lemma {:induction false} AuthorizedTicketsSorted(asked: seq<Ask>)
    ensures var a := AuthorizedTickets(asked);
      && (forall i :: 0 <= i < |a| ==> a[i] < |asked| && IsRconAuthorized(asked[a[i]].authority))
      && (forall i, j :: 0 <= i < j < |a| ==> a[i] < a[j])
      && (forall t :: 0 <= t < |asked| && IsRconAuthorized(asked[t].authority) ==> t in a)
  {
    if asked != [] {
      var n := |asked| - 1;
      AuthorizedTicketsSorted(asked[..n]);
      var before, a := AuthorizedTickets(asked[..n]), AuthorizedTickets(asked);
      assert forall i :: 0 <= i < |before| ==> a[i] == before[i];
      forall t | 0 <= t < |asked| && IsRconAuthorized(asked[t].authority)
        ensures t in a
      {
        if t < n {
          assert asked[..n][t] == asked[t];
        } else {
          assert a[|a| - 1] == n;
        }
      }
    }
  }

  lemma AuthorizedTicketAt(asked: seq<Ask>, i: nat)
    requires i < |AuthorizedTickets(asked)|
    ensures var t := AuthorizedTickets(asked)[i]; t < |asked| && IsRconAuthorized(asked[t].authority)
  {
    AuthorizedTicketsSorted(asked);
  }

  lemma EnqueueKeepsOneShot(s: State, ask: Ask)
    requires OneShot(s)
    ensures OneShot(Enqueue(s, ask))
  {
    hide Denied, Response;
  }

  lemma EnqueueKeepsResults(s: State, ask: Ask)
    requires CellsHoldResults(s)
    ensures CellsHoldResults(Enqueue(s, ask))
  {
    hide Denied, Response;
    var s' := Enqueue(s, ask);
    assert s'.ran == s.ran && s'.asked[..|s.asked|] == s.asked && s'.cells[..|s.cells|] == s.cells;
    forall i | 0 <= i < |s'.ran|
      ensures s'.ran[i].ticket < |s'.cells| && s'.cells[s'.ran[i].ticket] == Some(Response(s'.ran[i].outcome))
    {
      assert s'.cells[s.ran[i].ticket] == s.cells[s.ran[i].ticket];
    }
  }

  lemma EnqueueKeepsOrder(s: State, ask: Ask)
    requires Fifo(s)
    ensures Fifo(Enqueue(s, ask))
  {
    hide Denied;
    var s' := Enqueue(s, ask);
    assert s'.asked[..|s.asked|] == s.asked;
    if IsRconAuthorized(ask.authority) {
      Associative(RanTickets(s.ran) + s.batch, s.queue, [|s.asked|]);
    }
  }

  lemma EnqueueKeepsReplies(s: State, ask: Ask)
    requires Replies(s)
    ensures Replies(Enqueue(s, ask))
  {
    hide Denied, Reply;
    var s' := Enqueue(s, ask);
    forall i | 0 <= i < |s'.sent| ensures Associated(s', s'.sent[i]) {
      assert Associated(s, s.sent[i]);
    }
  }

  lemma EnqueueKeepsInv(s: State, ask: Ask)
    requires Inv(s)
    requires IsRconAuthorized(ask.authority) ==> ask.connection < |s.passed| && s.passed[ask.connection]
    ensures Inv(Enqueue(s, ask))
  {
    hide Fifo, OneShot, CellsHoldResults, Replies;
    EnqueueKeepsOneShot(s, ask);
    EnqueueKeepsResults(s, ask);
    EnqueueKeepsOrder(s, ask);
    EnqueueKeepsReplies(s, ask);
  }

  /** The next command of a batch is authorised, has not run, and its promise is still unset. */
  lemma HeadIsFresh(s: State)
    requires Inv(s) && s.batch != []
    ensures var t := s.batch[0];
      && t < |s.asked| && t < |s.cells| && IsRconAuthorized(s.asked[t].authority)
      && t !in RanTickets(s.ran) && s.cells[t] == None && t !in s.fulfilled
  {
    AuthorizedTicketsSorted(s.asked);
    var done, all := RanTickets(s.ran), AuthorizedTickets(s.asked);
    assert all[|done|] == s.batch[0];
    assert forall i :: 0 <= i < |done| ==> all[i] == done[i];
  }

  ghost predicate HeadReady(s: State) {
    && s.batch != [] && s.batch[0] < |s.asked| && s.batch[0] < |s.cells|
    && IsRconAuthorized(s.asked[s.batch[0]].authority)
    && s.batch[0] !in RanTickets(s.ran) && s.cells[s.batch[0]] == None && s.batch[0] !in s.fulfilled
  }

  lemma DispatchKeepsResults(s: State, outcome: Outcome)
    requires OneShot(s) && CellsHoldResults(s) && HeadReady(s)
    ensures CellsHoldResults(DispatchHead(s, outcome))
  {
    hide Denied, Response;
    var s', t := DispatchHead(s, outcome), s.batch[0];
    assert RanTickets(s'.ran) == RanTickets(s.ran) + [t];
    forall u | 0 <= u < |s'.asked| && IsRconAuthorized(s'.asked[u].authority) && s'.cells[u].Some?
      ensures u in RanTickets(s'.ran)
    {
      if u == t {
        assert RanTickets(s'.ran)[|s.ran|] == t;
      } else {
        assert u in RanTickets(s.ran);
      }
    }
    forall i | 0 <= i < |s.ran|
      ensures s'.ran[i].ticket < |s'.cells| && s'.cells[s'.ran[i].ticket] == Some(Response(s'.ran[i].outcome))
    {
      assert RanTickets(s.ran)[i] != t;
    }
  }

  lemma DispatchKeepsOrder(s: State, outcome: Outcome)
    requires OneShot(s) && Fifo(s) && HeadReady(s)
    ensures OneShot(DispatchHead(s, outcome)) && Fifo(DispatchHead(s, outcome))
  {
    hide Denied, Response;
    var s', t := DispatchHead(s, outcome), s.batch[0];
    assert OneShot(s');
    assert Fifo(s') by {
      hide OneShot;
      assert RanTickets(s'.ran) == RanTickets(s.ran) + [t];
      assert [t] + s.batch[1..] == s.batch;
    }
  }

  lemma DispatchKeepsReplies(s: State, outcome: Outcome)
    requires Replies(s) && HeadReady(s)
    ensures Replies(DispatchHead(s, outcome))
  {
    hide Denied, Response, Reply;
    var s' := DispatchHead(s, outcome);
    forall i | 0 <= i < |s'.sent| ensures Associated(s', s'.sent[i]) {
      assert Associated(s, s.sent[i]);
    }
  }

  lemma DispatchKeepsInv(s: State, outcome: Outcome)
    requires Inv(s) && s.batch != [] && s.batch[0] < |s.asked| && s.batch[0] < |s.cells|
    ensures Inv(DispatchHead(s, outcome))
  {
    HeadIsFresh(s);
    hide Fifo, OneShot, CellsHoldResults, Replies;
    DispatchKeepsOrder(s, outcome);
    DispatchKeepsResults(s, outcome);
    DispatchKeepsReplies(s, outcome);
  }

  /** Only the replies and the authority depend on the worker and the connections. */
  lemma HistoryIsUnchanged(s: State, s': State)
    requires Fifo(s) && OneShot(s) && CellsHoldResults(s)
    requires s'.asked == s.asked && s'.cells == s.cells && s'.queue == s.queue && s'.batch == s.batch
    requires s'.ran == s.ran && s'.fulfilled == s.fulfilled
    ensures Fifo(s') && OneShot(s') && CellsHoldResults(s')
  {
    hide Denied, Response, AuthorizedTickets, RanTickets;
  }

  lemma SendKeepsInv(s: State, text: bytes, timedOut: bool, delivered: bool)
    requires Inv(s) && s.worker.Waiting? && s.passed != []
    requires if timedOut then text == Reply(None) else s.cells[s.worker.ticket] == Some(text)
    ensures Inv(SendReply(s, text, timedOut, delivered))
  {
    assert |s.cells| == |s.asked|;
    hide Fifo, OneShot, CellsHoldResults, Reply;
    var s' := SendReply(s, text, timedOut, delivered);
    HistoryIsUnchanged(s, s');
    assert Replies(s') by {
      hide Authority;
      forall i | 0 <= i < |s'.sent| ensures Associated(s', s'.sent[i]) {
        if i < |s.sent| {
          assert Associated(s, s.sent[i]);
        }
      }
    }
  }

  lemma LoginKeepsInv(s: State, matches: bool, welcomed: bool)
    requires Inv(s)
    ensures Inv(Next(s, Login(matches, welcomed)))
  {
    hide Fifo, OneShot, CellsHoldResults;
    var s' := Next(s, Login(matches, welcomed));
    HistoryIsUnchanged(s, s');
    assert Replies(s') by {
      hide Authority;
      forall i | 0 <= i < |s'.sent| ensures Associated(s', s'.sent[i]) {
        assert Associated(s, s.sent[i]);
      }
    }
  }

  lemma AcceptKeepsInv(s: State)
    requires Inv(s)
    ensures Inv(Next(s, Accept))
  {
    hide Fifo, OneShot, CellsHoldResults;
    var s' := Next(s, Accept);
    HistoryIsUnchanged(s, s');
    assert Replies(s') by {
      hide Authority;
      forall i | 0 <= i < |s'.sent| ensures Associated(s', s'.sent[i]) {
        assert Associated(s, s.sent[i]);
      }
    }
  }

  lemma CommandKeepsReplies(s: State, requestId: int32, text: bytes)
    requires Replies(s) && Authority(s) && s.worker.Authenticated? && s.passed != []
    requires |s.cells| == |s.asked|
    ensures Replies(Next(s, Command(requestId, text)))
  {
    hide Denied, Reply;
    var ask := Ask(|s.passed| - 1, requestId, text, AuthenticatedRcon);
    var s' := Next(s, Command(requestId, text));
    forall i | 0 <= i < |s'.sent| ensures Associated(s', s'.sent[i]) && s'.sent[i].ticket < |s.asked| {
      assert Associated(s, s.sent[i]);
    }
  }

  lemma CommandKeepsInv(s: State, requestId: int32, text: bytes)
    requires Inv(s) && s.worker.Authenticated? && s.passed != []
    ensures Inv(Next(s, Command(requestId, text)))
  {
    var ask := Ask(|s.passed| - 1, requestId, text, AuthenticatedRcon);
    var e, s' := Enqueue(s, ask), Next(s, Command(requestId, text));
    assert s' == e.(worker := Waiting(|s.asked|, requestId));
    assert |s.cells| == |s.asked|;
    hide Fifo, OneShot, CellsHoldResults, Replies;
    EnqueueKeepsInv(s, ask);
    CommandKeepsReplies(s, requestId, text);
    HistoryIsUnchanged(e, s');
  }

  lemma QuietKeepsReplies(s: State, s': State)
    requires Replies(s)
    requires s'.asked == s.asked && s'.cells == s.cells && s'.sent == s.sent && s'.passed == s.passed
    requires s'.worker == s.worker || s'.worker.Listening?
    ensures Replies(s')
  {
    hide Reply;
    forall i | 0 <= i < |s'.sent| ensures Associated(s', s'.sent[i]) {
      assert Associated(s, s.sent[i]);
    }
  }

  lemma DisconnectKeepsInv(s: State)
    requires Inv(s)
    ensures Inv(s.(worker := Listening))
  {
    hide Fifo, OneShot, CellsHoldResults;
    HistoryIsUnchanged(s, s.(worker := Listening));
    QuietKeepsReplies(s, s.(worker := Listening));
    hide Replies;
  }

  lemma DrainKeepsInv(s: State)
    requires Inv(s) && s.batch == []
    ensures Inv(s.(batch := s.queue, queue := []))
  {
    hide Replies, AuthorizedTickets, Denied, Response;
    var s' := s.(batch := s.queue, queue := []);
    QuietKeepsReplies(s, s');
    assert Fifo(s') by {
      assert RanTickets(s.ran) + [] + s.queue == RanTickets(s.ran) + s.queue + [];
    }
    hide Fifo, RanTickets;
  }

  lemma NextKeepsInv(s: State, e: Event)
    requires Inv(s)
    ensures Inv(Next(s, e))
  {
    hide Inv;
    match e
    case Accept => AcceptKeepsInv(s);
    case Login(matches, welcomed) => LoginKeepsInv(s, matches, welcomed);
    case Command(requestId, text) =>
      if s.worker.Authenticated? && s.passed != [] {
        CommandKeepsInv(s, requestId, text);
      }
    case OtherPacket =>
    case Disconnect => DisconnectKeepsInv(s);
    case Unauthorized(text) => EnqueueKeepsInv(s, Ask(0, 0, text, NoAuthority));
    case Result(delivered) =>
      if s.worker.Waiting? && s.passed != [] && s.worker.ticket < |s.cells| && s.cells[s.worker.ticket].Some? {
        SendKeepsInv(s, Reply(s.cells[s.worker.ticket]), false, delivered);
      }
    case Timeout(delivered) =>
      if s.worker.Waiting? && s.passed != [] && s.worker.ticket < |s.cells| && s.cells[s.worker.ticket].None? {
        SendKeepsInv(s, Reply(None), true, delivered);
      }
    case Drain =>
      if s.batch == [] {
        DrainKeepsInv(s);
      }
    case Dispatch(outcome) =>
      if s.batch != [] && s.batch[0] < |s.asked| && s.batch[0] < |s.cells| {
        DispatchKeepsInv(s, outcome);
      }
  }

  lemma {:induction false} RunFromKeepsInv(s: State, events: seq<Event>)
    requires Inv(s)
    ensures Inv(RunFrom(s, events))
  {
    hide Inv;
    if events != [] {
      RunFromKeepsInv(s, events[..|events| - 1]);
      NextKeepsInv(RunFrom(s, events[..|events| - 1]), events[|events| - 1]);
    }
  }

  lemma InitIsInv()
    ensures Inv(Init())
  {
    assert RanTickets([]) + [] + [] == [];
    hide Denied, Response, Reply;
  }

  lemma EveryRunKeepsInv(events: seq<Event>)
    ensures Inv(Run(events))
  {
    InitIsInv();
    hide Inv;
    RunFromKeepsInv(Init(), events);
  }

  // ----- what the invariant means for every run -----

  /** Commands run in the order they were accepted, none skipped and none invented. */
  lemma FirstInFirstOut(events: seq<Event>)
    ensures var s := Run(events);
      && RanTickets(s.ran) + s.batch + s.queue == AuthorizedTickets(s.asked)
      && (forall i, j :: 0 <= i < j < |s.ran| ==> s.ran[i].ticket < s.ran[j].ticket)
  {
    EveryRunKeepsInv(events);
    var s := Run(events);
    AuthorizedTicketsSorted(s.asked);
    var done, all := RanTickets(s.ran), AuthorizedTickets(s.asked);
    assert forall i :: 0 <= i < |done| ==> all[i] == done[i];
    assert forall i :: 0 <= i < |done| ==> done[i] == s.ran[i].ticket;
  }

  // ----- who presented the password -----

  /** Event `k` presents the right password on the fresh connection `c`. */
  predicate LoginAt(events: seq<Event>, k: nat, c: nat) {
    && k < |events| && events[k].Login? && events[k].matches
    && Run(events[..k]).worker == Connected && |Run(events[..k]).passed| == c + 1
  }

  /** Event `k` is a command received on the authenticated connection `c`, and becomes request `t`. */
  predicate CommandAt(events: seq<Event>, k: nat, c: nat, t: nat, ask: Ask) {
    && k < |events| && events[k] == Command(ask.requestId, ask.text)
    && Run(events[..k]).worker == Authenticated && |Run(events[..k]).passed| == c + 1 && |Run(events[..k]).asked| == t
  }

  /** Some event receives the request on the connection, and an earlier one presents the right password there. */
  ghost predicate ReceivedAfterLogin(events: seq<Event>, c: nat, t: nat, ask: Ask) {
    exists login: nat, command: nat ::
      login < command && LoginAt(events, login, c) && CommandAt(events, command, c, t, ask)
  }

  lemma InPrefix(events: seq<Event>, n: nat, k: nat)
    requires k < n <= |events|
    ensures events[..n][..k] == events[..k] && events[..n][k] == events[k]
  {
  }

  lemma RunSnoc(events: seq<Event>)
    requires events != []
    ensures Run(events) == Next(Run(events[..|events| - 1]), events[|events| - 1])
  {
    hide Next;
  }

  /** A connection has passed exactly when an event of the run presented the password on it. */
  lemma {:induction false} PassedExactly(events: seq<Event>, c: nat)
    requires c < |Run(events).passed|
    ensures Run(events).passed[c] <==> exists k: nat :: LoginAt(events, k, c)
  {
    if events != [] {
      var n: nat := |events| - 1;
      var before, e := Run(events[..n]), events[n];
      RunSnoc(events);
      EveryRunKeepsInv(events[..n]);
      PassedStep(before, e, c);
      forall k: nat | k < n
        ensures LoginAt(events[..n], k, c) == LoginAt(events, k, c)
      {
        InPrefix(events, n, k);
      }
      assert LoginAt(events, n, c) <==> e.Login? && e.matches && before.worker == Connected && |before.passed| == c + 1;
      if c < |before.passed| {
        PassedExactly(events[..n], c);
      } else {
        forall k: nat | k < n
          ensures !LoginAt(events, k, c)
        {
          FewerConnections(events, k, n);
        }
      }
      LoginsAreInside(events, c);
      LoginsAreInside(events[..n], c);
      hide Run, Next, Inv, LoginAt;
    }
  }

  lemma LoginsAreInside(events: seq<Event>, c: nat)
    ensures forall k: nat :: LoginAt(events, k, c) ==> k < |events|
  {
  }

  lemma PassedStep(s: State, e: Event, c: nat)
    requires Inv(s) && c < |Next(s, e).passed|
    ensures var now := e.Login? && e.matches && s.worker == Connected && |s.passed| == c + 1;
      Next(s, e).passed[c] <==> (c < |s.passed| && s.passed[c]) || now
  {
    hide Fifo, OneShot, CellsHoldResults, Replies, Enqueue, DispatchHead, Reply;
    EnqueueKeepsConnections(s);
  }

  lemma EnqueueKeepsConnections(s: State)
    ensures forall ask :: Enqueue(s, ask).passed == s.passed
    ensures s.batch != [] && s.batch[0] < |s.asked| && s.batch[0] < |s.cells| ==>
              forall outcome :: DispatchHead(s, outcome).passed == s.passed
  {
  }

  lemma {:induction false} FewerConnections(events: seq<Event>, k: nat, n: nat)
    requires k <= n <= |events|
    ensures |Run(events[..k]).passed| <= |Run(events[..n]).passed|
    decreases n
  {
    if k < n {
      FewerConnections(events, k, n - 1);
      RunSnoc(events[..n]);
      assert events[..n][..n - 1] == events[..n - 1];
      ConnectionsGrow(Run(events[..n - 1]), events[n - 1]);
      hide Run, Next;
    }
  }

  lemma ConnectionsGrow(s: State, e: Event)
    ensures |s.passed| <= |Next(s, e).passed|
  {
    hide Enqueue, DispatchHead, Reply;
    EnqueueKeepsConnections(s);
  }

  /** Every authorised request is a command that some event of the run received on its connection. */
  lemma {:induction false} AskedExactly(events: seq<Event>, t: nat) returns (k: nat)
    requires t < |Run(events).asked| && Run(events).asked[t].authority == AuthenticatedRcon
    ensures var ask := Run(events).asked[t]; CommandAt(events, k, ask.connection, t, ask)
  {
    var n: nat := |events| - 1;
    var before, e := Run(events[..n]), events[n];
    RunSnoc(events);
    AskedStep(before, e, t);
    if t < |before.asked| {
      k := AskedExactly(events[..n], t);
      InPrefix(events, n, k);
    } else {
      k := n;
    }
    hide Run, Next;
  }

  lemma AskedStep(s: State, e: Event, t: nat)
    requires t < |Next(s, e).asked| && Next(s, e).asked[t].authority == AuthenticatedRcon
    ensures t < |s.asked| ==> Next(s, e).asked[t] == s.asked[t]
    ensures t >= |s.asked| ==>
              && t == |s.asked| && s.worker == Authenticated && s.passed != []
              && e == Command(Next(s, e).asked[t].requestId, Next(s, e).asked[t].text)
              && Next(s, e).asked[t].connection == |s.passed| - 1
  {
    hide Reply, Denied, Response;
  }

  /**
   * Every command that runs was received, in some event of the run, on a
   * connection on which an earlier event presented the right password.
   */
  lemma OnlyAuthenticatedCommandsRun(events: seq<Event>)
    ensures var s := Run(events);
      forall i :: 0 <= i < |s.ran| ==>
        var t := s.ran[i].ticket;
        && t < |s.asked| && s.asked[t].authority == AuthenticatedRcon
        && s.asked[t].connection < |s.passed| && s.passed[s.asked[t].connection]
        && ReceivedAfterLogin(events, s.asked[t].connection, t, s.asked[t])
  {
    var s := Run(events);
    forall i | 0 <= i < |s.ran|
      ensures var t := s.ran[i].ticket;
        && t < |s.asked| && s.asked[t].authority == AuthenticatedRcon
        && s.asked[t].connection < |s.passed| && s.passed[s.asked[t].connection]
        && ReceivedAfterLogin(events, s.asked[t].connection, t, s.asked[t])
    {
      RanIsAuthorized(events, i);
      hide Run, LoginAt, CommandAt;
      var t := s.ran[i].ticket;
      var command := AskedExactly(events, t);
      var login := LoginBefore(events, command, s.asked[t].connection, t, s.asked[t]);
      assert ReceivedAfterLogin(events, s.asked[t].connection, t, s.asked[t]);
    }
  }

  lemma RanIsAuthorized(events: seq<Event>, i: nat)
    requires i < |Run(events).ran|
    ensures var s, t := Run(events), Run(events).ran[i].ticket;
      && t < |s.asked| && s.asked[t].authority == AuthenticatedRcon
      && s.asked[t].connection < |s.passed| && s.passed[s.asked[t].connection]
  {
    EveryRunKeepsInv(events);
    hide Run, OneShot, CellsHoldResults, Replies, AuthorizedTickets;
    var s := Run(events);
    var done, all := RanTickets(s.ran), AuthorizedTickets(s.asked);
    assert all == done + (s.batch + s.queue);
    assert all[i] == done[i] == s.ran[i].ticket;
    AuthorizedTicketAt(s.asked, i);
  }

  lemma LoginBefore(events: seq<Event>, command: nat, c: nat, t: nat, ask: Ask) returns (login: nat)
    requires CommandAt(events, command, c, t, ask)
    ensures login < command && LoginAt(events, login, c)
  {
    var before := events[..command];
    EveryRunKeepsInv(before);
    hide Run, Fifo, OneShot, CellsHoldResults, Replies;
    PassedExactly(before, c);
    login :| LoginAt(before, login, c);
    InPrefix(events, command, login);
  }

  // ----- the worker's steps -----

  /** A login decides whether the connection may send commands: the right password, and the welcome sent. */
  lemma LoginExactly(s: State, matches: bool, welcomed: bool)
    requires s.worker == Connected && s.passed != []
    ensures var s', n := Next(s, Login(matches, welcomed)), |s.passed| - 1;
      && (s'.worker == Authenticated <==> matches && welcomed)
      && (s'.worker == Listening <==> !(matches && welcomed))
      && |s'.passed| == |s.passed| && (matches ==> s'.passed[n]) && (!matches ==> s'.passed == s.passed)
      && (forall c :: 0 <= c < n ==> s'.passed[c] == s.passed[c])
      && s'.asked == s.asked && s'.sent == s.sent && s'.queue == s.queue && s'.batch == s.batch
  {
  }

  /** A connection is taken up only when the worker listens, and given up only between commands. */
  lemma ConnectionsExactly(s: State)
    ensures s.worker == Listening ==>
              Next(s, Accept).worker == Connected && Next(s, Accept).passed == s.passed + [false]
    ensures s.worker != Listening ==> Next(s, Accept) == s
    ensures s.worker == Connected || s.worker == Authenticated ==> Next(s, Disconnect).worker == Listening
    ensures s.worker.Waiting? || s.worker == Listening ==> Next(s, Disconnect) == s
    ensures Next(s, OtherPacket) == s
  {
  }

  /** Without an authenticated connection a command changes nothing; with one it is asked, and the worker waits for it. */
  lemma CommandsExactly(s: State, requestId: int32, text: bytes)
    requires |s.cells| == |s.asked|
    ensures s.worker != Authenticated ==> Next(s, Command(requestId, text)) == s
    ensures s.worker == Authenticated && s.passed != [] ==>
              var s' := Next(s, Command(requestId, text));
              && s'.worker == Waiting(|s.asked|, requestId)
              && s'.asked == s.asked + [Ask(|s.passed| - 1, requestId, text, AuthenticatedRcon)]
              && s'.cells == s.cells + [None] && s'.queue == s.queue + [|s.asked|]
              && s'.passed == s.passed && s'.sent == s.sent
  {
  }

  /** An enqueue without RCON authority gets the refusal at once, and nothing is queued for it. */
  lemma UnauthorizedExactly(s: State, text: bytes)
    requires |s.cells| == |s.asked|
    ensures var s', t := Next(s, Unauthorized(text)), |s.asked|;
      && |s'.asked| == |s'.cells| == t + 1 && s'.asked[..t] == s.asked && s'.cells[..t] == s.cells
      && s'.asked[t].text == text && s'.asked[t].authority == NoAuthority
      && s'.cells[t] == Some(Ascii("error: authenticated RCON connection required"))
      && s'.queue == s.queue && s'.batch == s.batch && s'.ran == s.ran && s'.sent == s.sent && s'.worker == s.worker
  {
    hide Ascii;
  }

  /** A dispatch takes the first drained command: an authorised one runs and its promise tells how, any other is refused and does not run. */
  lemma DispatchExactly(s: State, outcome: Outcome)
    requires s.batch != [] && s.batch[0] < |s.asked| == |s.cells|
    ensures var s', t := Next(s, Dispatch(outcome)), s.batch[0];
      && s'.batch == s.batch[1..] && s'.queue == s.queue && s'.asked == s.asked && |s'.cells| == |s.cells|
      && (forall u :: 0 <= u < |s.cells| && u != t ==> s'.cells[u] == s.cells[u])
      && s'.cells[t].Some?
      && (s.asked[t].authority == AuthenticatedRcon ==>
            s'.ran == s.ran + [Ran(t, outcome)] && Tells(outcome, s'.cells[t].value))
      && (s.asked[t].authority != AuthenticatedRcon ==>
            && s'.ran == s.ran
            && s'.cells[t].value == Ascii("error: authenticated RCON connection required"))
  {
    hide Ascii;
  }

  /** The wait ends with the result when the promise is set, with the timeout text when it is not, and only so. */
  lemma RepliesExactly(s: State, delivered: bool)
    requires Inv(s)
    ensures !s.worker.Waiting? ==> Next(s, Result(delivered)) == s && Next(s, Timeout(delivered)) == s
    ensures s.worker.Waiting? ==>
              var t, c := s.worker.ticket, |s.passed| - 1;
              var next := if delivered then Authenticated else Listening;
              && t < |s.cells| && c >= 0
              && (s.cells[t].Some? ==>
                    && Next(s, Timeout(delivered)) == s && Next(s, Result(delivered)).worker == next
                    && Next(s, Result(delivered)).sent == s.sent + [Sent(t, c, s.worker.requestId, s.cells[t].value, false)])
              && (s.cells[t].None? ==>
                    && Next(s, Result(delivered)) == s && Next(s, Timeout(delivered)).worker == next
                    && Next(s, Timeout(delivered)).sent ==
                       s.sent + [Sent(t, c, s.worker.requestId, Ascii("error: command timed out"), true)])
  {
    hide Ascii, Fifo, CellsHoldResults;
  }

  /** From any state in which the worker listens, the right password and a command get exactly that command's result. */
  lemma CommandIsAnswered(s: State, requestId: int32, text: bytes, outcomes: seq<Outcome>, outcome: Outcome)
    requires Inv(s) && s.worker == Listening && s.batch == [] && |outcomes| == |s.queue|
    ensures var s1 := RunFrom(s, [Accept, Login(true, true), Command(requestId, text)]);
      var s2 := RunFrom(s1, [Drain] + Dispatches(outcomes + [outcome]));
      && Inv(s2) && s2.queue == []
      && Next(s2, Result(true)).worker == Authenticated
      && Next(s2, Result(true)).sent == s2.sent + [Sent(|s.asked|, |s.passed|, requestId, Response(outcome), false)]
  {
    hide *;
    var s1 := RunFrom(s, [Accept, Login(true, true), Command(requestId, text)]);
    CommandArrives(s, requestId, text);
    var all := outcomes + [outcome];
    assert all[|s.queue|] == outcome;
    var s2 := PassEnds(s1, all);
    PassKeepsWorker(s1, all);
    RepliesExactly(s2, true);
  }

  lemma CommandArrives(s: State, requestId: int32, text: bytes)
    requires Inv(s) && s.worker == Listening && s.batch == []
    ensures var s1 := RunFrom(s, [Accept, Login(true, true), Command(requestId, text)]);
      && Inv(s1) && s1.batch == [] && s1.queue == s.queue + [|s.asked|] && s1.queue[|s.queue|] == |s.asked|
      && s1.worker == Waiting(|s.asked|, requestId) && |s1.passed| == |s.passed| + 1
  {
    assert |s.cells| == |s.asked|;
    var e1, e2, e3 := Accept, Login(true, true), Command(requestId, text);
    ThreeSteps(s, e1, e2, e3);
    var a := Next(s, e1);
    var b := Next(a, e2);
    assert a == s.(worker := Connected, passed := s.passed + [false]);
    hide Inv, RunFrom, Enqueue;
    NextKeepsInv(s, e1);
    NextKeepsInv(a, e2);
    NextKeepsInv(b, e3);
    CommandsExactly(b, requestId, text);
    assert b.asked == s.asked && b.cells == s.cells && b.queue == s.queue && b.batch == [];
    CommandKeepsBatch(b, requestId, text);
    hide Next;
  }

  lemma CommandKeepsBatch(s: State, requestId: int32, text: bytes)
    ensures Next(s, Command(requestId, text)).batch == s.batch
  {
  }

  lemma ThreeSteps(s: State, e1: Event, e2: Event, e3: Event)
    ensures RunFrom(s, [e1, e2, e3]) == Next(Next(Next(s, e1), e2), e3)
  {
    hide *;
    RunFromAppend(s, [e1], [e2] + [e3]);
    RunFromAppend(Next(s, e1), [e2], [e3]);
    RunOne(s, e1);
    RunOne(Next(s, e1), e2);
    RunOne(Next(Next(s, e1), e2), e3);
    assert [e1] + ([e2] + [e3]) == [e1, e2, e3];
  }

  lemma {:induction false} DispatchesKeepWorker(s: State, outcomes: seq<Outcome>)
    ensures var s' := RunFrom(s, Dispatches(outcomes)); s'.worker == s.worker && s'.passed == s.passed
  {
    hide Response, Denied;
    if outcomes != [] {
      var n := |outcomes| - 1;
      DispatchesKeepWorker(s, outcomes[..n]);
      assert Dispatches(outcomes)[..n] == Dispatches(outcomes[..n]);
    }
  }

  lemma PassKeepsWorker(s: State, outcomes: seq<Outcome>)
    ensures var s' := RunFrom(s, [Drain] + Dispatches(outcomes)); s'.worker == s.worker && s'.passed == s.passed
  {
    RunFromAppend(s, [Drain], Dispatches(outcomes));
    var s1 := RunFrom(s, [Drain]);
    assert [Drain][..0] == [];
    assert s1 == Next(s, Drain);
    DispatchesKeepWorker(s1, outcomes);
  }

  /** `set_value` is called at most once for each promise, and always before the promise reads as ready. */
  lemma AtMostOnce(events: seq<Event>, t: nat)
    ensures var s := Run(events);
      multiset(s.fulfilled)[t] == if t < |s.cells| && s.cells[t].Some? then 1 else 0
  {
    EveryRunKeepsInv(events);
    var s := Run(events);
    CountDistinct(s.fulfilled, t);
  }

  lemma {:induction false} CountDistinct(xs: seq<nat>, x: nat)
    requires forall i, j :: 0 <= i < j < |xs| ==> xs[i] != xs[j]
    ensures multiset(xs)[x] == if x in xs then 1 else 0
  {
    if xs != [] {
      var n := |xs| - 1;
      CountDistinct(xs[..n], x);
      assert xs == xs[..n] + [xs[n]];
    }
  }

  /** With nothing queued or drained, every request has its answer. */
  lemma NothingIsLost(events: seq<Event>)
    requires Run(events).queue == [] && Run(events).batch == []
    ensures var s := Run(events);
      && |s.cells| == |s.asked|
      && (forall t :: 0 <= t < |s.asked| ==> s.cells[t].Some?)
      && RanTickets(s.ran) == AuthorizedTickets(s.asked)
  {
    EveryRunKeepsInv(events);
    var s := Run(events);
    AuthorizedTicketsSorted(s.asked);
    forall t | 0 <= t < |s.asked|
      ensures s.cells[t].Some?
    {
      if IsRconAuthorized(s.asked[t].authority) {
        assert t in RanTickets(s.ran);
        var i :| 0 <= i < |s.ran| && RanTickets(s.ran)[i] == t;
      }
    }
  }

  /**
   * A reply goes to the connection and carries the id of the request it
   * answers; its text is that command's own result or the timeout text, and no
   * request is answered twice.
   */
  lemma RepliesBelongToTheirRequest(events: seq<Event>)
    ensures var s := Run(events);
      && (forall i :: 0 <= i < |s.sent| ==>
            var r := s.sent[i];
            && r.ticket < |s.asked|
            && r.connection == s.asked[r.ticket].connection && r.requestId == s.asked[r.ticket].requestId
            && if r.timedOut then r.text == Ascii("error: command timed out")
               else exists j :: 0 <= j < |s.ran| && s.ran[j].ticket == r.ticket && Tells(s.ran[j].outcome, r.text))
      && (forall i, j :: 0 <= i < j < |s.sent| ==> s.sent[i].ticket < s.sent[j].ticket)
  {
    EveryRunKeepsInv(events);
    hide Ascii, Run;
    var s := Run(events);
    forall i | 0 <= i < |s.sent| && !s.sent[i].timedOut
      ensures exists j :: 0 <= j < |s.ran| && s.ran[j].ticket == s.sent[i].ticket && Tells(s.ran[j].outcome, s.sent[i].text)
    {
      var r := s.sent[i];
      assert Associated(s, r);
      assert r.ticket in RanTickets(s.ran);
      var j :| 0 <= j < |s.ran| && RanTickets(s.ran)[j] == r.ticket;
      assert s.ran[j].ticket == r.ticket;
    }
  }

  /** The text tells how a dispatch ended: the text it returned, word for word, or which exception it threw. */
  predicate Tells(outcome: Outcome, text: bytes) {
    match outcome
    case Returned(t) => text == t
    case StdException(what) => text == Ascii("error: exception during dispatch: ") + what
    case UnknownException => text == Ascii("error: unknown exception during dispatch")
  }

  /** History only grows, and a promise that is set keeps its value. */
  ghost predicate Extends(s: State, s': State) {
    && s.asked <= s'.asked && s.ran <= s'.ran && s.sent <= s'.sent && s.fulfilled <= s'.fulfilled
    && |s.cells| <= |s'.cells|
    && (forall t :: 0 <= t < |s.cells| && s.cells[t].Some? ==> s'.cells[t] == s.cells[t])
  }

  lemma EnqueueExtends(s: State, ask: Ask)
    ensures Extends(s, Enqueue(s, ask))
  {
    hide Denied;
  }

  lemma DispatchExtends(s: State, outcome: Outcome)
    requires HeadReady(s)
    ensures Extends(s, DispatchHead(s, outcome))
  {
    hide Response, Denied;
  }

  lemma RepliesExtend(s: State, middle: State, s': State)
    requires middle == s || Extends(s, middle)
    requires s'.asked == middle.asked && s'.cells == middle.cells && s'.ran == middle.ran
    requires s'.fulfilled == middle.fulfilled && middle.sent <= s'.sent
    ensures Extends(s, s')
  {
  }

  lemma DispatchStepExtends(s: State, outcome: Outcome)
    requires Inv(s)
    ensures Extends(s, Next(s, Dispatch(outcome)))
  {
    hide Extends, Inv;
    if s.batch != [] {
      HeadIsFresh(s);
      DispatchExtends(s, outcome);
      hide DispatchHead;
    } else {
      RepliesExtend(s, s, s);
    }
  }

  lemma CommandStepExtends(s: State, requestId: int32, text: bytes)
    ensures Extends(s, Next(s, Command(requestId, text)))
  {
    hide Extends;
    var s' := Next(s, Command(requestId, text));
    if s' != s {
      var asked := Enqueue(s, Ask(|s.passed| - 1, requestId, text, AuthenticatedRcon));
      EnqueueExtends(s, Ask(|s.passed| - 1, requestId, text, AuthenticatedRcon));
      hide Enqueue;
      RepliesExtend(s, asked, s');
    } else {
      RepliesExtend(s, s, s);
    }
  }

  lemma NextExtends(s: State, e: Event)
    requires Inv(s)
    ensures Extends(s, Next(s, e))
  {
    hide Inv, Extends, DispatchHead, Reply, Enqueue, Denied;
    match e
    case Command(requestId, text) => CommandStepExtends(s, requestId, text);
    case Unauthorized(text) => EnqueueExtends(s, Ask(0, 0, text, NoAuthority));
    case Dispatch(outcome) => DispatchStepExtends(s, outcome);
    case _ => RepliesExtend(s, s, Next(s, e));
  }

  lemma {:induction false} RunExtends(s: State, events: seq<Event>)
    requires Inv(s)
    ensures Extends(s, RunFrom(s, events))
  {
    hide Inv;
    if events != [] {
      var before := RunFrom(s, events[..|events| - 1]);
      RunExtends(s, events[..|events| - 1]);
      RunFromKeepsInv(s, events[..|events| - 1]);
      NextExtends(before, events[|events| - 1]);
    }
  }

  lemma {:induction false} RunFromAppend(s: State, a: seq<Event>, b: seq<Event>)
    ensures RunFrom(s, a + b) == RunFrom(RunFrom(s, a), b)
    decreases |b|
  {
    hide Next;
    if b == [] {
      assert a + b == a;
    } else {
      var n := |b| - 1;
      RunFromAppend(s, a, b[..n]);
      assert (a + b)[..|a + b| - 1] == a + b[..n];
    }
  }

  /** Once a request was answered with the timeout text, its late result is never sent, on any connection. */
  lemma LateResultIsNeverSent(events: seq<Event>, more: seq<Event>, i: nat)
    requires i < |Run(events).sent| && Run(events).sent[i].timedOut
    ensures var r, later := Run(events).sent[i], Run(events + more);
      && i < |later.sent| && later.sent[i] == r
      && forall j :: 0 <= j < |later.sent| && later.sent[j].ticket == r.ticket ==> j == i
  {
    hide Inv;
    EveryRunKeepsInv(events);
    RunExtends(Run(events), more);
    RunFromAppend(Init(), events, more);
    RepliesBelongToTheirRequest(events + more);
  }

  // ----- every command can still be finished -----

  /** The events of one pass of the loop over the drained batch, whatever each dispatch does. */
  function Dispatches(outcomes: seq<Outcome>): seq<Event> {
    seq(|outcomes|, i requires 0 <= i < |outcomes| => Dispatch(outcomes[i]))
  }

  lemma {:induction false} DispatchesFinishBatch(s: State, outcomes: seq<Outcome>)
    requires Inv(s) && |outcomes| <= |s.batch|
    ensures var s' := RunFrom(s, Dispatches(outcomes));
      Inv(s') && s'.batch == s.batch[|outcomes|..] && s'.queue == s.queue && s'.asked == s.asked
  {
    hide Inv;
    RunFromKeepsInv(s, Dispatches(outcomes));
    if outcomes != [] {
      var n := |outcomes| - 1;
      DispatchesFinishBatch(s, outcomes[..n]);
      assert Dispatches(outcomes)[..n] == Dispatches(outcomes[..n]);
      var before := RunFrom(s, Dispatches(outcomes[..n]));
      HeadIsFresh(before);
      assert RunFrom(s, Dispatches(outcomes)) == Next(before, Dispatch(outcomes[n]));
      assert s.batch[n..][1..] == s.batch[n + 1..];
    }
  }

  /** A pass answers the drained commands in order, each with its own outcome, as the drain loop's contract says. */
  lemma {:induction false} DispatchesAnswerInOrder(s: State, outcomes: seq<Outcome>)
    requires Inv(s) && |outcomes| <= |s.batch|
    ensures var s' := RunFrom(s, Dispatches(outcomes));
      forall i :: 0 <= i < |outcomes| ==>
        s.batch[i] < |s'.cells| && s'.cells[s.batch[i]] == Some(Response(outcomes[i]))
  {
    hide Inv, Response;
    if outcomes != [] {
      var n := |outcomes| - 1;
      DispatchesAnswerInOrder(s, outcomes[..n]);
      DispatchesFinishBatch(s, outcomes[..n]);
      assert Dispatches(outcomes)[..n] == Dispatches(outcomes[..n]);
      var before := RunFrom(s, Dispatches(outcomes[..n]));
      assert RunFrom(s, Dispatches(outcomes)) == Next(before, Dispatch(outcomes[n]));
      hide RunFrom, Dispatches;
      HeadIsFresh(before);
      NextExtends(before, Dispatch(outcomes[n]));
      assert before.batch[0] == s.batch[n];
    }
  }

  /**
   * From any reachable state, two passes of the drain loop answer everything
   * asked so far, even when every single dispatch throws.
   */
  lemma TwoPassesAnswerEverything(events: seq<Event>, first: seq<Outcome>, second: seq<Outcome>)
    requires |first| == |Run(events).batch| && |second| == |Run(events).queue|
    ensures var s := Run(events + (Dispatches(first) + ([Drain] + Dispatches(second))));
      && s.asked == Run(events).asked && |s.cells| == |s.asked|
      && forall t :: 0 <= t < |s.asked| ==> s.cells[t].Some?
  {
    hide Inv, RunFrom, Next;
    var s0 := Run(events);
    EveryRunKeepsInv(events);
    var s1 := RunFrom(s0, Dispatches(first));
    DispatchesFinishBatch(s0, first);
    var s2 := RunFrom(s1, [Drain]);
    RunOne(s1, Drain);
    NextKeepsInv(s1, Drain);
    DispatchesFinishBatch(s2, second);
    RunFromAppend(Init(), events, Dispatches(first) + ([Drain] + Dispatches(second)));
    RunFromAppend(s0, Dispatches(first), [Drain] + Dispatches(second));
    RunFromAppend(s1, [Drain], Dispatches(second));
    NothingIsLost(events + (Dispatches(first) + ([Drain] + Dispatches(second))));
  }

  lemma RunOne(s: State, e: Event)
    ensures RunFrom(s, [e]) == Next(s, e)
    ensures e.Drain? && s.batch == [] ==>
              Next(s, e).batch == s.queue && Next(s, e).queue == [] && Next(s, e).asked == s.asked
  {
    assert [e][..0] == [];
  }

  // ----- the queue and the drain loop take these steps -----

  /** A pending command is the request of ticket `t`, and its promise is that ticket's cell. */
  ghost predicate IsTicket(item: PendingCommand, s: State, t: nat)
    reads item.response
  {
    && t < |s.asked| && t < |s.cells|
    && item.text == s.asked[t].text && item.authority == s.asked[t].authority
    && item.response.value == s.cells[t]
  }

  /** The queue holds the queued tickets, in order. */
  ghost predicate Represents(queue: Queue, s: State)
    reads queue, queue.Promises()
  {
    |queue.pending| == |s.queue| && forall i :: 0 <= i < |s.queue| ==> IsTicket(queue.pending[i], s, s.queue[i])
  }

  /** An enqueue with RCON authority on the queue is a `Command` step of the worker. */
  method EnqueueIsACommand(queue: Queue, ghost s: State, requestId: int32, text: bytes)
    returns (future: Promise, ghost s': State)
    requires queue.Valid() && Represents(queue, s) && Inv(s) && s.worker.Authenticated?
    modifies queue
    ensures s' == Next(s, Command(requestId, text)) && Inv(s')
    ensures queue.Valid() && Represents(queue, s')
    ensures s'.worker.Waiting? && s'.worker.ticket < |s'.cells| && future.value == s'.cells[s'.worker.ticket]
  {
    hide Inv, Next, Denied;
    s' := Next(s, Command(requestId, text));
    NextKeepsInv(s, Command(requestId, text));
    CommandKeepsTickets(s, requestId, text);
    ghost var before := queue.pending;
    future := queue.Enqueue(text, AuthenticatedRcon);
    forall i | 0 <= i < |s'.queue|
      ensures IsTicket(queue.pending[i], s', s'.queue[i])
    {
      if i < |s.queue| {
        assert queue.pending[i] == before[i] && s'.queue[i] == s.queue[i];
        assert old(IsTicket(queue.pending[i], s, s.queue[i]));
      }
    }
  }

  lemma CommandKeepsTickets(s: State, requestId: int32, text: bytes)
    requires Inv(s) && s.worker.Authenticated?
    ensures var s', t := Next(s, Command(requestId, text)), |s.asked|;
      && s'.worker == Waiting(t, requestId) && s'.queue == s.queue + [t]
      && |s'.asked| == |s'.cells| == t + 1 == |s.cells| + 1
      && s'.asked[t].text == text && s'.asked[t].authority == AuthenticatedRcon && s'.cells[t] == None
      && (forall u :: 0 <= u < t ==> s'.asked[u] == s.asked[u] && s'.cells[u] == s.cells[u])
  {
  }

  /** The outcomes of one pass of the drain loop. */
  function OutcomesOf(items: seq<PendingCommand>, isDiagnostic: bytes -> bool, oracle: nat -> Outcome): seq<Outcome> {
    seq(|items|, i requires 0 <= i < |items| => OutcomeOf(items[i].text, isDiagnostic, oracle(i)))
  }

  /** One pass of the drain loop is a `Drain` step and one `Dispatch` step for each drained command. */
  method PassIsARun(game: GameThread, ghost s: State, isDiagnostic: bytes -> bool, oracle: nat -> Outcome)
    returns (ghost s': State)
    requires game.Valid() && Represents(game.queue, s) && Inv(s) && s.batch == []
    modifies game, game.queue`pending, game.queue.Promises()
    ensures s' == RunFrom(s, [Drain] + Dispatches(OutcomesOf(old(game.queue.pending), isDiagnostic, oracle))) && Inv(s')
    ensures game.Valid() && Represents(game.queue, s')
    ensures forall i :: 0 <= i < |s.queue| ==> IsTicket(old(game.queue.pending)[i], s', s.queue[i])
  {
    hide Inv, Next, RunFrom, OutcomeOf, Response, Dispatches;
    ghost var items := game.queue.pending;
    ghost var outcomes := OutcomesOf(items, isDiagnostic, oracle);
    s' := PassEnds(s, outcomes);
    game.DrainAndDispatch(isDiagnostic, oracle);
    forall i | 0 <= i < |s.queue|
      ensures IsTicket(items[i], s', s.queue[i])
    {
      assert old(IsTicket(game.queue.pending[i], s, s.queue[i]));
      assert outcomes[i] == OutcomeOf(items[i].text, isDiagnostic, oracle(i));
    }
  }

  lemma PassEnds(s: State, outcomes: seq<Outcome>) returns (s': State)
    requires Inv(s) && s.batch == [] && |outcomes| == |s.queue|
    ensures s' == RunFrom(s, [Drain] + Dispatches(outcomes)) && Inv(s')
    ensures s'.queue == [] && s'.asked == s.asked
    ensures forall i :: 0 <= i < |outcomes| ==>
              s.queue[i] < |s'.cells| && s.queue[i] < |s'.asked| && s'.cells[s.queue[i]] == Some(Response(outcomes[i]))
  {
    s' := RunFrom(s, [Drain] + Dispatches(outcomes));
    RunFromKeepsInv(s, [Drain] + Dispatches(outcomes));
    assert |s'.cells| == |s'.asked|;
    hide Inv, Next, RunFrom, Response;
    RunFromAppend(s, [Drain], Dispatches(outcomes));
    var s1 := RunFrom(s, [Drain]);
    RunOne(s, Drain);
    RunFromKeepsInv(s, [Drain]);
    DispatchesFinishBatch(s1, outcomes);
    DispatchesAnswerInOrder(s1, outcomes);
  }
}
