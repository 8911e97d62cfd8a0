/**
 * The worker thread: exact reads and writes over a socket that fragments as it
 * likes, packet reassembly, and the connection loop.
 */
module RconServer {
  import opened Bytes
  import opened RconProtocol
  import opened CommandQueue

  /** A connected stream socket, seen from the server. */
  class Socket {
    /** Bytes the peer has written or will write, in order. */
    var incoming: bytes
    /** Bytes handed to the network so far. */
    var sent: bytes
    /** Set once a call failed although the peer had not run out of bytes to give. */
    var failed: bool

    constructor (incoming: bytes)
      ensures this.incoming == incoming && sent == [] && !failed
    {
      this.incoming, sent, failed := incoming, [], false;
    }

    /** `recv`: between 1 and `count` bytes, or a non-positive result. */
    method Recv(buffer: array<byte>, at: nat, count: nat) returns (n: int)
      requires 0 < count && at + count <= buffer.Length
      modifies this`incoming, this`failed, buffer
      ensures n <= count
      ensures n > 0 ==>
                && n <= |old(incoming)| && incoming == old(incoming)[n..] && failed == old(failed)
                && buffer[..] == old(buffer[..at]) + old(incoming)[..n] + old(buffer[at + n..])
      ensures n <= 0 ==> incoming == old(incoming) && (failed || incoming == [])
      ensures old(failed) ==> failed
    {
      var broken: bool := *;
      if incoming == [] {
        return 0;
      }
      if broken {
        failed := true;
        return -1;
      }
      n :| 1 <= n <= count && n <= |incoming|;
      MemCpy(buffer, at, incoming[..n]);
      incoming := incoming[n..];
    }

    /** `send`: takes between 1 and all of the bytes, or fails. */
    method Send(data: bytes) returns (n: int)
      requires data != []
      modifies this`sent, this`failed
      ensures n <= |data|
      ensures n > 0 ==> sent == old(sent) + data[..n] && failed == old(failed)
      ensures n <= 0 ==> sent == old(sent) && failed
    {
      var broken: bool := *;
      if broken {
        failed := true;
        return -1;
      }
      n :| 1 <= n <= |data|;
      sent := sent + data[..n];
    }
  }

  /** Fills the buffer with exactly the next bytes of the stream, however it is fragmented. */
  method RecvExact(sock: Socket, buffer: array<byte>) returns (ok: bool)
    modifies sock`incoming, sock`failed, buffer
    ensures ok ==> old(sock.incoming) == buffer[..] + sock.incoming && sock.failed == old(sock.failed)
    ensures !ok ==> sock.failed || |old(sock.incoming)| < buffer.Length
    ensures old(sock.failed) ==> sock.failed
  {
    var received := 0;
    while received < buffer.Length
      invariant received <= buffer.Length
      invariant old(sock.incoming) == buffer[..received] + sock.incoming
      invariant sock.failed == old(sock.failed)
    {
      ghost var before, left := buffer[..received], sock.incoming;
      var n := sock.Recv(buffer, received, buffer.Length - received);
      if n <= 0 {
        return false;
      }
      assert buffer[..received + n] == before + left[..n];
      assert before + left == (before + left[..n]) + left[n..];
      received := received + n;
    }
    assert buffer[..received] == buffer[..];
    ok := true;
  }

  /** Writes all of `data`, or a strict prefix of it when a send fails. */
  method SendAll(sock: Socket, data: bytes) returns (ok: bool)
    modifies sock`sent, sock`failed
    ensures ok ==> sock.sent == old(sock.sent) + data && sock.failed == old(sock.failed)
    ensures !ok ==> sock.failed && exists n :: 0 <= n < |data| && sock.sent == old(sock.sent) + data[..n]
  {
    var sent := 0;
    assert data[..0] == [];
    while sent < |data|
      invariant sent <= |data|
      invariant sock.sent == old(sock.sent) + data[..sent]
      invariant sock.failed == old(sock.failed)
    {
      var n := sock.Send(data[sent..]);
      if n <= 0 {
        return false;
      }
      assert data[..sent] + data[sent..][..n] == data[..sent + n];
      sent := sent + n;
    }
    assert data[..sent] == data;
    ok := true;
  }

  /** Reassembles one packet: the result is the one `ReadFrame` computes from the whole stream. */
  method RecvPacket(sock: Socket) returns (out: Option<Packet>)
    modifies sock`incoming, sock`failed
    ensures out.Some? ==>
              ReadFrame(old(sock.incoming)) == Frame(out.value, sock.incoming) && sock.failed == old(sock.failed)
    ensures out.None? ==> sock.failed || ReadFrame(old(sock.incoming)) == NoFrame
    ensures old(sock.failed) ==> sock.failed
  {
    ghost var stream := sock.incoming;
    var sizeBuffer := new byte[4](_ => 0);
    var ok := RecvExact(sock, sizeBuffer);
    if !ok {
      return None;
    }
    assert stream[..4] == sizeBuffer[..] && stream[4..] == sock.incoming;
    var size: int := FromLe32(sizeBuffer[..]);
    if size <= 0 || size > MAX_PACKET_SIZE {
      return None;
    }
    var body := new byte[size](_ => 0);
    ok := RecvExact(sock, body);
    if !ok {
      return None;
    }
    assert stream[4..4 + size] == body[..] && stream[4 + size..] == sock.incoming;
    out := DecodePacketBody(body[..]);
  }

  /** The client's side: packets are received until none is left, and they are those on the stream. */
  method ReceiveAll(sock: Socket) returns (packets: seq<Packet>)
    modifies sock`incoming, sock`failed
    ensures !sock.failed ==> packets == ReadAll(old(sock.incoming))
    ensures old(sock.failed) ==> sock.failed
  {
    hide ReadFrame;
    packets := [];
    while true
      invariant !sock.failed ==> ReadAll(old(sock.incoming)) == packets + ReadAll(sock.incoming)
      invariant old(sock.failed) ==> sock.failed
      decreases |sock.incoming|
    {
      ghost var stream := sock.incoming;
      var received := RecvPacket(sock);
      if received.None? {
        assert !sock.failed ==> packets + ReadAll(stream) == packets;
        break;
      }
      assert ReadAll(stream) == [received.value] + ReadAll(sock.incoming);
      Associative(packets, [received.value], ReadAll(sock.incoming));
      packets := packets + [received.value];
    }
  }

  // ----- one connection -----

  /** What the worker sends for a command: its result, or the timeout text when it came too late. */
  function Reply(answer: Option<bytes>): bytes {
    match answer
    case Some(text) => text
    case None => Ascii("error: command timed out")
  }

  /**
   * What the worker cannot know: which texts are diagnostics, what the dispatch
   * of each accepted command does, and whether the game thread drains the queue
   * while the worker waits for it. Commands are numbered in the order they were
   * accepted.
   */
  datatype World = World(isDiagnostic: bytes -> bool, outcomes: nat -> Outcome, inTime: nat -> bool)
  {
    /** What the `k`-th accepted command is answered, sooner or later. */
    function Result(k: nat, text: bytes): bytes { Response(OutcomeOf(text, isDiagnostic, outcomes(k))) }

    /** The result of that very command, if it is there when the wait ends. */
    function Answer(k: nat, text: bytes): Option<bytes> {
      if inTime(k) then Some(Result(k, text)) else None
    }

    function Answers(): Answers { (k, text) => Answer(k, text) }
  }

  /** What becomes of the `k`-th accepted command, by its number and text. */
  type Answers = (nat, bytes) -> Option<bytes>

  datatype Transcript = Transcript(sent: seq<Packet>, commands: seq<bytes>)

  /** The command loop on the rest of the stream, from the `k`-th command on. */
  function Serve(stream: bytes, answers: Answers, k: nat): Transcript
    decreases |stream|
  {
    match ReadFrame(stream)
    case NoFrame => Transcript([], [])
    case Frame(p, rest) =>
      if p.kind != EXECCOMMAND then Serve(rest, answers, k)
      else
        var later := Serve(rest, answers, k + 1);
        Transcript(ResponsePackets(p.requestId, Reply(answers(k, p.payload))) + later.sent, [p.payload] + later.commands)
  }

  /** The whole connection as a function of everything the client sends; its first command is the `k`-th. */
  function Session(stream: bytes, password: bytes, answers: Answers, k: nat): Transcript {
    match ReadFrame(stream)
    case NoFrame => Transcript([], [])
    case Frame(p, rest) =>
      if p.kind != AUTH then Transcript([], [])
      else if p.payload != password then Transcript([Packet(-1, AUTH_RESPONSE, [])], [])
      else
        var served := Serve(rest, answers, k);
        Transcript([Packet(p.requestId, AUTH_RESPONSE, [])] + served.sent, served.commands)
  }

  /** What the worker sends back for the `k`-th command, word for word. */
  predicate InWords(reply: bytes, world: World, k: nat, text: bytes) {
    if world.inTime(k) then Tells(reply, text, world.outcomes(k)) else reply == Ascii("error: command timed out")
  }

  lemma ReplyInWords(world: World, k: nat, text: bytes)
    ensures InWords(Reply(world.Answer(k, text)), world, k, text)
  {
    SentinelsDiffer();
    hide Ascii;
  }

  /**
   * The wait on the future of the command enqueued last. The game thread may
   * drain the queue meanwhile; then the future holds that command's own result.
   */
  method Await(game: GameThread, future: Promise, world: World, k: nat) returns (text: bytes)
    requires game.Valid() && |game.queue.accepted| == k + 1
    requires game.queue.pending != [] && game.queue.pending[|game.queue.pending| - 1].response == future
    modifies game, game.queue`pending, game.queue.Promises()
    ensures game.Valid() && game.queue.Promises() <= old(game.queue.Promises())
    ensures var items, firstPending := old(game.queue.pending), k + 1 - |old(game.queue.pending)|;
      if world.inTime(k) then
        && game.queue.pending == []
        && forall i :: 0 <= i < |items| ==> items[i].response.value == Some(world.Result(firstPending + i, items[i].text))
      else
        && game.queue.pending == items
        && forall i :: 0 <= i < |items| ==> items[i].response.value == None
    ensures text == Reply(world.Answer(k, old(game.queue.pending[|game.queue.pending| - 1].text)))
  {
    hide World.Result;
    if world.inTime(k) {
      Pass(game, world, k + 1 - |game.queue.pending|);
    }
    text := Reply(future.value);
  }

  /** One pass of the game thread over the queue, whose first entry is the `first`-th command. */
  method Pass(game: GameThread, world: World, first: nat)
    requires game.Valid()
    modifies game, game.queue`pending, game.queue.Promises()
    ensures game.Valid() && game.queue.pending == [] && game.queue.accepted == old(game.queue.accepted)
    ensures var items := old(game.queue.pending);
      forall i :: 0 <= i < |items| ==> items[i].response.value == Some(world.Result(first + i, items[i].text))
  {
    hide OutcomeOf, Response, Tells;
    game.DrainAndDispatch(world.isDiagnostic, (i: nat) => world.outcomes(first + i));
  }

  /** Sends the packets of one response until a send fails. */
  method SendPackets(sock: Socket, encoded: seq<bytes>) returns (ok: bool)
    modifies sock`sent, sock`failed
    ensures ok ==> sock.sent == old(sock.sent) + Concat(encoded) && sock.failed == old(sock.failed)
    ensures !ok ==> sock.failed && old(sock.sent) <= sock.sent <= old(sock.sent) + Concat(encoded)
  {
    var i := 0;
    assert encoded[..0] == [];
    while i < |encoded|
      invariant 0 <= i <= |encoded|
      invariant sock.sent == old(sock.sent) + Concat(encoded[..i])
      invariant sock.failed == old(sock.failed)
    {
      PartOfConcat(encoded, i);
      var sent := SendAll(sock, encoded[i]);
      if !sent {
        return false;
      }
      i := i + 1;
    }
    assert encoded[..i] == encoded;
    ok := true;
  }

  lemma PartOfConcat(parts: seq<bytes>, i: nat)
    requires i < |parts|
    ensures Concat(parts[..i + 1]) == Concat(parts[..i]) + parts[i]
    ensures Concat(parts[..i]) + parts[i] <= Concat(parts)
  {
    hide Concat;
    assert parts[..i + 1] == parts[..i] + [parts[i]];
    ConcatSnoc(parts[..i], parts[i]);
    SplitAt(parts, i + 1);
    ConcatAppend(parts[..i + 1], parts[i + 1..]);
    PrefixOfAppend(Concat(parts[..i + 1]), Concat(parts[i + 1..]));
  }

  lemma SplitAt<T>(s: seq<T>, i: nat)
    requires i <= |s|
    ensures s == s[..i] + s[i..]
  {
  }

  lemma PrefixOfAppend<T>(a: seq<T>, b: seq<T>)
    ensures a <= a + b
  {
  }

  /** Splits a response and sends its packets. */
  method SendResponse(sock: Socket, requestId: int32, text: bytes) returns (ok: bool)
    modifies sock`sent, sock`failed
    ensures var reply := WireBytes(ResponsePackets(requestId, text));
      && (ok ==> sock.sent == old(sock.sent) + reply && sock.failed == old(sock.failed))
      && (!ok ==> sock.failed && old(sock.sent) <= sock.sent <= old(sock.sent) + reply)
  {
    hide PacketBytes, ResponsePackets, Concat;
    var encoded := EncodeResponse(requestId, text);
    ok := SendPackets(sock, encoded);
  }

  /** Enqueues a command and waits for its result. */
  method AskGame(game: GameThread, text: bytes, world: World, k: nat) returns (reply: bytes)
    requires game.Valid() && |game.queue.accepted| == k
    modifies game, game.queue, game.queue.Promises()
    ensures game.Valid() && game.queue.accepted == old(game.queue.accepted) + [text]
    ensures fresh(game.queue.Promises() - old(game.queue.Promises()))
    ensures reply == Reply(world.Answer(k, text)) && InWords(reply, world, k, text)
  {
    ReplyInWords(world, k, text);
    hide Reply, World.Answer, InWords;
    var future := game.queue.Enqueue(text, AuthenticatedRcon);
    reply := Await(game, future, world, k);
  }

  /** One EXECCOMMAND: enqueue it, wait, and send the packets of the reply. */
  method ServeCommand(sock: Socket, game: GameThread, command: Packet, world: World, k: nat) returns (ok: bool)
    requires game.Valid() && |game.queue.accepted| == k
    modifies sock`sent, sock`failed, game, game.queue, game.queue.Promises()
    ensures game.Valid() && game.queue.accepted == old(game.queue.accepted) + [command.payload]
    ensures fresh(game.queue.Promises() - old(game.queue.Promises()))
    ensures var reply := WireBytes(ResponsePackets(command.requestId, Reply(world.Answer(k, command.payload))));
      && (ok ==> sock.sent == old(sock.sent) + reply && sock.failed == old(sock.failed))
      && (!ok ==> sock.failed && old(sock.sent) <= sock.sent <= old(sock.sent) + reply)
  {
    hide WireBytes, ResponsePackets, Reply, World.Answer, GameThread.Valid;
    var text := AskGame(game, command.payload, world, k);
    ok := SendResponse(sock, command.requestId, text);
  }

  /** `now` is `before` followed by some or, if the network held, all of `all`. */
  ghost predicate Progress<T>(now: seq<T>, before: seq<T>, all: seq<T>, broken: bool) {
    && before <= now <= before + all
    && (!broken ==> now == before + all)
  }

  /**
   * One turn of the command loop from the `k`-th command on: what it sent and
   * enqueued, and whether the loop goes on.
   */
  method Turn(sock: Socket, game: GameThread, world: World, k: nat)
    returns (more: bool, k': nat, ghost sent: seq<Packet>, ghost commands: seq<bytes>)
    requires game.Valid() && |game.queue.accepted| == k && !sock.failed
    modifies sock, game, game.queue, game.queue.Promises()
    ensures game.Valid() && fresh(game.queue.Promises() - old(game.queue.Promises()))
    ensures more ==>
              && !sock.failed && |sock.incoming| < |old(sock.incoming)|
              && sock.sent == old(sock.sent) + WireBytes(sent)
              && game.queue.accepted == old(game.queue.accepted) + commands && |game.queue.accepted| == k'
              && SameTranscript(Serve(old(sock.incoming), world.Answers(), k), sent, commands,
                                Serve(sock.incoming, world.Answers(), k'))
    ensures !more ==> var s := Serve(old(sock.incoming), world.Answers(), k);
              && Progress(sock.sent, old(sock.sent), WireBytes(s.sent), sock.failed)
              && Progress(game.queue.accepted, old(game.queue.accepted), s.commands, sock.failed)
  {
    hide PacketBytes, ReadFrame, ResponsePackets, Reply, WireBytes, World.Answer;
    WireBytesNil();
    more, k', sent, commands := false, k, [], [];
    var received := RecvPacket(sock);
    if received.None? {
      return;
    }
    var command := received.value;
    if command.kind != EXECCOMMAND {
      more := true;
      return;
    }
    sent, commands := ResponsePackets(command.requestId, Reply(world.Answer(k, command.payload))), [command.payload];
    WireBytesConcat(sent, Serve(sock.incoming, world.Answers(), k + 1).sent);
    more := ServeCommand(sock, game, command, world, k);
    k' := k + 1;
  }

  /** The loop of `handle_connection` after authentication. */
  method CommandLoop(sock: Socket, game: GameThread, world: World, first: nat)
    requires game.Valid() && |game.queue.accepted| == first && !sock.failed
    modifies sock, game, game.queue, game.queue.Promises()
    ensures game.Valid()
    ensures var s := Serve(old(sock.incoming), world.Answers(), first);
      && Progress(sock.sent, old(sock.sent), WireBytes(s.sent), sock.failed)
      && Progress(game.queue.accepted, old(game.queue.accepted), s.commands, sock.failed)
  {
    hide Serve, WireBytes, SameTranscript, Progress, World.Answers, World.Answer;
    ghost var answers := world.Answers();
    ghost var s := Serve(sock.incoming, answers, first);
    ghost var sent, commands := [], [];
    NothingYet(s);
    var k := first;
    while true
      invariant game.Valid() && |game.queue.accepted| == k && !sock.failed
      invariant fresh(game.queue.Promises() - old(game.queue.Promises()))
      invariant SameTranscript(s, sent, commands, Serve(sock.incoming, answers, k))
      invariant sock.sent == old(sock.sent) + WireBytes(sent)
      invariant game.queue.accepted == old(game.queue.accepted) + commands
      decreases |sock.incoming|
    {
      ghost var later := Serve(sock.incoming, answers, k);
      var more, k', justSent, justEnqueued := Turn(sock, game, world, k);
      if !more {
        LastTurn(s, sent, commands, later, old(sock.sent), old(game.queue.accepted), sock.sent, game.queue.accepted, sock.failed);
        break;
      }
      NextTurn(s, sent, commands, later, justSent, justEnqueued, Serve(sock.incoming, answers, k'));
      Associative(old(sock.sent), WireBytes(sent), WireBytes(justSent));
      Associative(old(game.queue.accepted), commands, justEnqueued);
      sent, commands, k := sent + justSent, commands + justEnqueued, k';
    }
  }

  /** The transcript `s` is what was done so far and then `later`. */
  ghost predicate SameTranscript(s: Transcript, sent: seq<Packet>, commands: seq<bytes>, later: Transcript) {
    s.sent == sent + later.sent && s.commands == commands + later.commands
  }

  lemma NothingYet(s: Transcript)
    ensures SameTranscript(s, [], [], s) && WireBytes([]) == []
  {
    WireBytesNil();
    assert [] + s.sent == s.sent && [] + s.commands == s.commands;
  }

  lemma NextTurn(s: Transcript, sent: seq<Packet>, commands: seq<bytes>, later: Transcript,
                 justSent: seq<Packet>, justEnqueued: seq<bytes>, rest: Transcript)
    requires SameTranscript(s, sent, commands, later) && SameTranscript(later, justSent, justEnqueued, rest)
    ensures SameTranscript(s, sent + justSent, commands + justEnqueued, rest)
    ensures WireBytes(sent + justSent) == WireBytes(sent) + WireBytes(justSent)
  {
    hide WireBytes;
    WireBytesConcat(sent, justSent);
    Associative(sent, justSent, rest.sent);
    Associative(commands, justEnqueued, rest.commands);
  }

  lemma LastTurn(s: Transcript, sent: seq<Packet>, commands: seq<bytes>, later: Transcript,
                 sent0: bytes, accepted0: seq<bytes>, sentNow: bytes, acceptedNow: seq<bytes>, broken: bool)
    requires SameTranscript(s, sent, commands, later)
    requires Progress(sentNow, sent0 + WireBytes(sent), WireBytes(later.sent), broken)
    requires Progress(acceptedNow, accepted0 + commands, later.commands, broken)
    ensures Progress(sentNow, sent0, WireBytes(s.sent), broken)
    ensures Progress(acceptedNow, accepted0, s.commands, broken)
  {
    hide WireBytes;
    WireBytesConcat(sent, later.sent);
    Associative(sent0, WireBytes(sent), WireBytes(later.sent));
    Associative(accepted0, commands, later.commands);
  }

  /**
   * `handle_connection`. As long as the network holds, what is sent and what is
   * enqueued are exactly the transcript; when it breaks, a prefix of it. Each
   * reply is the result of that very command, read from its own promise, or the
   * timeout text.
   */
  method HandleConnection(sock: Socket, password: bytes, game: GameThread, world: World, first: nat)
    requires game.Valid() && |game.queue.accepted| == first && !sock.failed
    modifies sock, game, game.queue, game.queue.Promises()
    ensures game.Valid()
    ensures var s := Session(old(sock.incoming), password, world.Answers(), first);
      && Progress(sock.sent, old(sock.sent), WireBytes(s.sent), sock.failed)
      && Progress(game.queue.accepted, old(game.queue.accepted), s.commands, sock.failed)
  {
    hide PacketBytes, ReadFrame, WireBytes, Serve, World.Answers;
    WireBytesNil();
    var opening := RecvPacket(sock);
    if opening.None? || opening.value.kind != AUTH {
      return;
    }
    var auth := opening.value;
    if auth.payload != password {
      var refusal := EncodePacket(-1, AUTH_RESPONSE, []);
      WireBytesOne(Packet(-1, AUTH_RESPONSE, []));
      var _ := SendAll(sock, refusal[..]);
      return;
    }
    ghost var welcome := Packet(auth.requestId, AUTH_RESPONSE, []);
    WireBytesOne(welcome);
    WireBytesConcat([welcome], Serve(sock.incoming, world.Answers(), first).sent);
    var accept := EncodePacket(auth.requestId, AUTH_RESPONSE, []);
    var ok := SendAll(sock, accept[..]);
    if !ok {
      return;
    }
    CommandLoop(sock, game, world, first);
  }

  lemma WireBytesNil()
    ensures WireBytes([]) == []
  {
  }

  lemma WireBytesOne(p: Packet)
    ensures WireBytes([p]) == PacketBytes(p)
  {
    assert PacketList([p]) == [PacketBytes(p)];
    ConcatOne(PacketBytes(p));
  }

  lemma ConcatOne(x: bytes)
    ensures Concat([x]) == x
  {
    assert Concat([x]) == x + [];
  }

  // ----- what a session is, in terms of the packets on the stream -----

  /** The EXECCOMMAND packets, in order. */
  function Execs(packets: seq<Packet>): seq<Packet> {
    if packets == [] then []
    else (if packets[0].kind == 2 then [packets[0]] else []) + Execs(packets[1..])
  }

  /** One group of response packets for each request, in order. */
  function ReplyGroups(requests: seq<Packet>, answers: Answers, k: nat): seq<seq<Packet>> {
    seq(|requests|, i requires 0 <= i < |requests| => ResponsePackets(requests[i].requestId, Reply(answers(k + i, requests[i].payload))))
  }

  lemma {:induction false} ServeAnswersExecs(stream: bytes, answers: Answers, k: nat)
    ensures var requests := Execs(ReadAll(stream));
      Serve(stream, answers, k) == Transcript(Concat(ReplyGroups(requests, answers, k)), Payloads(requests))
    decreases |stream|
  {
    hide ReadFrame, ResponsePackets, Reply, ReplyGroups, Payloads, Concat, Execs;
    NoGroups(answers, k);
    var frame := ReadFrame(stream);
    if frame.Frame? {
      var p, rest := frame.packet, frame.rest;
      assert ReadAll(stream) == [p] + ReadAll(rest);
      ExecsCons(p, ReadAll(rest));
      if p.kind != EXECCOMMAND {
        ServeAnswersExecs(rest, answers, k);
        assert [] + Execs(ReadAll(rest)) == Execs(ReadAll(rest));
      } else {
        ServeAnswersExecs(rest, answers, k + 1);
        GroupsCons(p, Execs(ReadAll(rest)), answers, k);
      }
    }
  }

  lemma NoGroups(answers: Answers, k: nat)
    ensures Execs([]) == [] && Concat(ReplyGroups([], answers, k)) == [] && Payloads([]) == []
  {
  }

  lemma ExecsCons(p: Packet, later: seq<Packet>)
    ensures Execs([p] + later) == (if p.kind == 2 then [p] else []) + Execs(later)
  {
    assert ([p] + later)[1..] == later;
  }

  lemma GroupsCons(p: Packet, later: seq<Packet>, answers: Answers, k: nat)
    ensures Concat(ReplyGroups([p] + later, answers, k)) ==
            ResponsePackets(p.requestId, Reply(answers(k, p.payload))) + Concat(ReplyGroups(later, answers, k + 1))
    ensures Payloads([p] + later) == [p.payload] + Payloads(later)
  {
    hide ResponsePackets, Reply;
    assert ReplyGroups([p] + later, answers, k)[1..] == ReplyGroups(later, answers, k + 1);
  }

  /** A connection is accepted exactly when its first packet is an AUTH with the password. */
  predicate Authenticates(packets: seq<Packet>, password: bytes) {
    packets != [] && packets[0].kind == 3 && packets[0].payload == password
  }

  /**
   * The whole connection: nothing is enqueued unless the first packet
   * authenticates; then each EXECCOMMAND, and nothing else, is enqueued in
   * order and answered by one group of packets in order.
   */
  lemma SessionExactly(stream: bytes, password: bytes, answers: Answers, k: nat)
    ensures var packets, s := ReadAll(stream), Session(stream, password, answers, k);
      if Authenticates(packets, password) then
        var requests := Execs(packets[1..]);
        && s.commands == Payloads(requests)
        && s.sent == [Packet(packets[0].requestId, 2, [])] + Concat(ReplyGroups(requests, answers, k))
      else
        && s.commands == []
        && s.sent == if packets != [] && packets[0].kind == 3 then [Packet(-1, 2, [])] else []
  {
    hide ReadFrame, ResponsePackets, Reply;
    var frame := ReadFrame(stream);
    if frame.Frame? {
      ServeAnswersExecs(frame.rest, answers, k);
      assert ReadAll(stream)[1..] == ReadAll(frame.rest);
    }
  }

  lemma TimeoutTextIsNulFree(answer: Option<bytes>)
    requires answer.Some? ==> NulFree(answer.value)
    ensures NulFree(Reply(answer))
  {
    if answer.None? {
      var text := "error: command timed out";
      assert forall i :: 0 <= i < |text| ==> text[i] as int % 256 != 0;
    }
  }

  /**
   * What the client gets: reading the sent bytes back yields exactly the
   * packets of the transcript, and the `i`-th group carries the `i`-th request's
   * id, type 0 and, put together, the whole `i`-th reply.
   */
  lemma ClientRecoversReplies(requests: seq<Packet>, answers: Answers, k: nat, welcome: Packet, rest: bytes)
    requires NulFreeAnswers(answers)
    requires welcome.payload == []
    ensures var groups := ReplyGroups(requests, answers, k);
      && ReadAll(WireBytes([welcome] + Concat(groups)) + rest) == [welcome] + Concat(groups) + ReadAll(rest)
      && forall i :: 0 <= i < |requests| ==> GroupCarries(groups[i], requests[i].requestId, Reply(answers(k + i, requests[i].payload)))
  {
    var groups := ReplyGroups(requests, answers, k);
    hide ReadFrame, Reply, WireBytes, ResponsePackets;
    forall i | 0 <= i < |requests|
      ensures GroupCarries(groups[i], requests[i].requestId, Reply(answers(k + i, requests[i].payload)))
    {
      TimeoutTextIsNulFree(answers(k + i, requests[i].payload));
      ResponseRoundTrip(requests[i].requestId, Reply(answers(k + i, requests[i].payload)), []);
    }
    AllSendable(groups);
    StreamRoundTrip([welcome] + Concat(groups), rest);
  }

  /** No answer contains a NUL. */
  ghost predicate NulFreeAnswers(answers: Answers) {
    forall n, text :: answers(n, text).Some? ==> NulFree(answers(n, text).value)
  }

  /** All that a session sends can be read back, and it carries every reply whole. */
  lemma SessionIsReadBack(stream: bytes, password: bytes, answers: Answers, k: nat)
    requires NulFreeAnswers(answers)
    ensures var sent := Session(stream, password, answers, k).sent; ReadAll([] + WireBytes(sent)) == sent
    ensures var packets := ReadAll(stream);
      Authenticates(packets, password) ==>
        var requests := Execs(packets[1..]);
        var groups := ReplyGroups(requests, answers, k);
        && Session(stream, password, answers, k).sent == [Packet(packets[0].requestId, AUTH_RESPONSE, [])] + Concat(groups)
        && forall i :: 0 <= i < |requests| ==>
             GroupCarries(groups[i], requests[i].requestId, Reply(answers(k + i, requests[i].payload)))
  {
    var packets, sent := ReadAll(stream), Session(stream, password, answers, k).sent;
    NothingToRead(WireBytes(sent), sent);
    hide Session, ReadFrame, ReadAll, WireBytes, Reply, Concat, ReplyGroups, GroupCarries, Sendable;
    SessionExactly(stream, password, answers, k);
    if Authenticates(packets, password) {
      ClientRecoversReplies(Execs(packets[1..]), answers, k, Packet(packets[0].requestId, AUTH_RESPONSE, []), []);
    } else {
      RefusalIsSendable(sent);
      StreamRoundTrip(sent, []);
    }
  }

  lemma NothingToRead(wire: bytes, sent: seq<Packet>)
    ensures wire + [] == wire && [] + wire == wire && ReadAll([]) == [] && sent + [] == sent
  {
  }

  lemma RefusalIsSendable(sent: seq<Packet>)
    requires sent == [] || sent == [Packet(-1, AUTH_RESPONSE, [])]
    ensures forall i :: 0 <= i < |sent| ==> Sendable(sent[i])
  {
  }

  /**
   * A whole conversation: the server handles what the client sends, and the
   * client receives what the server sent. If the network holds both ways, the
   * client gets exactly the packets of the session.
   */
  method Conversation(stream: bytes, password: bytes, game: GameThread, world: World, first: nat)
    returns (server: Socket, client: Socket, packets: seq<Packet>)
    requires game.Valid() && |game.queue.accepted| == first && NulFreeAnswers(world.Answers())
    modifies game, game.queue, game.queue.Promises()
    ensures game.Valid()
    ensures !server.failed && !client.failed ==> packets == Session(stream, password, world.Answers(), first).sent
  {
    hide Session, ReadAll, WireBytes, Reply, ReplyGroups, GroupCarries, NulFreeAnswers;
    hide World.Answers, Execs, Authenticates, Concat;
    SessionIsReadBack(stream, password, world.Answers(), first);
    server := new Socket(stream);
    HandleConnection(server, password, game, world, first);
    assert !server.failed ==> server.sent == [] + WireBytes(Session(stream, password, world.Answers(), first).sent);
    hide Progress;
    client := new Socket(server.sent);
    packets := ReceiveAll(client);
  }

  predicate GroupCarries(group: seq<Packet>, requestId: int32, text: bytes) {
    && group != []
    && (forall i :: 0 <= i < |group| ==>
          group[i].requestId == requestId && group[i].kind == 0 && Sendable(group[i]))
    && Concat(Payloads(group)) == text
  }

  lemma {:induction false} AllSendable(groups: seq<seq<Packet>>)
    requires forall i, j :: 0 <= i < |groups| && 0 <= j < |groups[i]| ==> Sendable(groups[i][j])
    ensures forall i :: 0 <= i < |Concat(groups)| ==> Sendable(Concat(groups)[i])
  {
    if groups != [] {
      assert forall i, j :: 0 <= i < |groups[1..]| && 0 <= j < |groups[1..][i]| ==> groups[1..][i][j] == groups[i + 1][j];
      AllSendable(groups[1..]);
    }
  }
}
