/**
 * The Source RCON wire format: packet encoding, the UTF-8 response splitter
 * and the body decoder, with their round trips and the optimality of the split.
 */
module RconProtocol {
  import opened Bytes
  import opened Utf8

  const RESPONSE_VALUE: int32 := 0
  const EXECCOMMAND: int32 := 2
  const AUTH_RESPONSE: int32 := 2
  const AUTH: int32 := 3
  const MAX_RESPONSE_CHUNK: nat := 4086
  const MAX_PACKET_SIZE: nat := 8192

  datatype Packet = Packet(requestId: int32, kind: int32, payload: bytes)

  /** The body that follows the size prefix. */
  function BodyBytes(p: Packet): bytes {
    Le32(p.requestId) + Le32(p.kind) + p.payload + [0, 0]
  }

  /** A whole packet: the body, after a size prefix that counts the body only. */
  function PacketBytes(p: Packet): bytes {
    Le32(Wrap32(10 + |p.payload|)) + BodyBytes(p)
  }

  method MemCpy(target: array<byte>, at: nat, source: bytes)
    requires at + |source| <= target.Length
    modifies target
    ensures target[..] == old(target[..at]) + source + old(target[at + |source|..])
  {
    forall i | 0 <= i < |source| {
      target[at + i] := source[i];
    }
  }

  method EncodePacket(requestId: int32, kind: int32, payload: bytes) returns (out: array<byte>)
    ensures fresh(out)
    ensures out[..] == PacketBytes(Packet(requestId, kind, payload))
  {
    hide Le32, Wrap32, PacketBytes;
    var bodySize := 8 + |payload| + 2;
    out := new byte[4 + bodySize](_ => 0);
    var size := Wrap32(bodySize);
    MemCpy(out, 0, Le32(size));
    MemCpy(out, 4, Le32(requestId));
    assert out[..8] == Le32(size) + Le32(requestId);
    MemCpy(out, 8, Le32(kind));
    assert out[..12] == Le32(size) + Le32(requestId) + Le32(kind);
    if payload != [] {
      MemCpy(out, 12, payload);
    }
    assert out[..12 + |payload|] == Le32(size) + Le32(requestId) + Le32(kind) + payload;
    out[out.Length - 2] := 0;
    out[out.Length - 1] := 0;
    assert out[..] == out[..12 + |payload|] + [0, 0];
    PacketLayout(requestId, kind, payload);
  }

  /** Where each field of a packet is: size, id and type in four bytes each, the payload, and two NULs. */
  lemma FieldsAt(p: Packet)
    ensures var t, n := PacketBytes(p), |p.payload|;
      && |t| == 4 + 4 + 4 + n + 2
      && t[..4] == Le32(Wrap32(n + 10)) && t[4..8] == Le32(p.requestId) && t[8..12] == Le32(p.kind)
      && t[12..12 + n] == p.payload && t[12 + n..] == [0, 0]
  {
    hide Le32, Wrap32;
  }

  lemma PacketLayout(requestId: int32, kind: int32, payload: bytes)
    ensures PacketBytes(Packet(requestId, kind, payload)) ==
            Le32(Wrap32(8 + |payload| + 2)) + Le32(requestId) + Le32(kind) + payload + [0, 0]
  {
    hide Le32, Wrap32;
  }

  // ----- splitting a response -----

  /** The cut the splitter makes: at a code-point boundary, or anywhere when there is none in reach. */
  function ChunkSize(text: bytes): (n: nat)
    requires text != []
    ensures 0 < n <= |text| && n <= 4086
  {
    var n := PrefixSize(text, MAX_RESPONSE_CHUNK);
    if n == 0 then Min(MAX_RESPONSE_CHUNK, |text|) else n
  }

  function Chunks(text: bytes): seq<bytes> {
    if text == [] then [] else [text[..ChunkSize(text)]] + Chunks(text[ChunkSize(text)..])
  }

  function ResponsePackets(requestId: int32, text: bytes): seq<Packet> {
    ResponseFrames(requestId, if text == [] then [[]] else Chunks(text))
  }

  function ResponseFrames(requestId: int32, chunks: seq<bytes>): seq<Packet> {
    seq(|chunks|, i requires 0 <= i < |chunks| => Packet(requestId, RESPONSE_VALUE, chunks[i]))
  }

  function PacketList(packets: seq<Packet>): seq<bytes> {
    seq(|packets|, i requires 0 <= i < |packets| => PacketBytes(packets[i]))
  }

  /** The byte string that a list of packets becomes on the wire. */
  function WireBytes(packets: seq<Packet>): bytes {
    Concat(PacketList(packets))
  }

  method EncodeResponse(requestId: int32, text: bytes) returns (packets: seq<bytes>)
    ensures packets == PacketList(ResponsePackets(requestId, text))
  {
    hide PacketBytes, ResponseFrames, ChunkSize, Chunks, PacketList, PrefixSize, Concat;
    packets := [];
    if text == [] {
      FramesNil(requestId);
      FramesSnoc(requestId, [], []);
      ghost var none: seq<bytes> := [];
      assert none + [[]] == [[]];
      var only := EncodePacket(requestId, RESPONSE_VALUE, []);
      return [only[..]];
    }
    var offset := 0;
    ghost var done: seq<bytes> := [];
    FramesNil(requestId);
    assert text[0..] == text;
    while offset < |text|
      invariant offset <= |text|
      invariant Chunks(text) == done + Chunks(text[offset..])
      invariant packets == PacketList(ResponseFrames(requestId, done))
    {
      var left := text[offset..];
      var chunkLen := Utf8PrefixSize(left, MAX_RESPONSE_CHUNK);
      if chunkLen == 0 {
        chunkLen := Min(MAX_RESPONSE_CHUNK, |text| - offset);
      }
      ChunkSizeIs(left);
      ChunksStep(left, chunkLen, Chunks(text), done);
      assert left[chunkLen..] == text[offset + chunkLen..];
      var encoded := EncodePacket(requestId, RESPONSE_VALUE, left[..chunkLen]);
      FramesSnoc(requestId, done, left[..chunkLen]);
      packets := packets + [encoded[..]];
      done := done + [left[..chunkLen]];
      offset := offset + chunkLen;
    }
    assert text[offset..] == [];
    ChunksNil();
    assert Chunks(text) == done;
  }

  lemma ChunkSizeIs(text: bytes)
    requires text != []
    ensures var p := PrefixSize(text, MAX_RESPONSE_CHUNK);
      ChunkSize(text) == if p == 0 then Min(MAX_RESPONSE_CHUNK, |text|) else p
  {
  }

  lemma ChunksStep(left: bytes, n: nat, all: seq<bytes>, done: seq<bytes>)
    requires left != [] && n == ChunkSize(left)
    requires all == done + Chunks(left)
    ensures 0 < n <= |left|
    ensures all == (done + [left[..n]]) + Chunks(left[n..])
  {
    hide ChunkSize;
    assert Chunks(left) == [left[..n]] + Chunks(left[n..]);
    hide *;
    Associative(done, [left[..n]], Chunks(left[n..]));
  }

  lemma FramesSnoc(requestId: int32, done: seq<bytes>, c: bytes)
    ensures PacketList(ResponseFrames(requestId, done + [c])) ==
            PacketList(ResponseFrames(requestId, done)) + [PacketBytes(Packet(requestId, RESPONSE_VALUE, c))]
  {
  }

  lemma ChunksNil()
    ensures Chunks([]) == []
  {
  }

  lemma FramesNil(requestId: int32)
    ensures PacketList(ResponseFrames(requestId, [])) == []
  {
  }

  /** No byte of the response is lost, repeated or moved, whatever the text. */
  lemma {:induction false} ChunksRebuildText(text: bytes)
    ensures Concat(Chunks(text)) == text
    ensures forall i :: 0 <= i < |Chunks(text)| ==> 0 < |Chunks(text)[i]| <= 4086
    decreases |text|
  {
    if text != [] {
      hide ChunkSize;
      var n := ChunkSize(text);
      ChunksRebuildText(text[n..]);
      var later := Chunks(text[n..]);
      assert Chunks(text) == [text[..n]] + later;
      hide Chunks;
      assert ([text[..n]] + later)[1..] == later;
      assert text == text[..n] + text[n..];
    }
  }

  /** `parts` is a way to cut `text` at boundaries only, in pieces that fit a packet. */
  predicate BoundarySplit(text: bytes, parts: seq<bytes>) {
    if parts == [] then text == []
    else
      && |parts[0]| <= |text| && |parts[0]| <= 4086
      && text[..|parts[0]|] == parts[0]
      && IsBoundary(text, |parts[0]|)
      && BoundarySplit(text[|parts[0]|..], parts[1..])
  }

  /** From any point of the text on, the splitter needs no more packets than any split of the whole. */
  lemma {:induction false} GreedyFromAnywhere(text: bytes, parts: seq<bytes>, k: nat)
    requires BoundarySplit(text, parts) && k <= |text|
    ensures |Chunks(text[k..])| <= |parts|
    decreases |parts|
  {
    hide *;
    if k == |text| {
      assert text[k..] == [];
      ChunksNil();
    } else {
      SplitStep(text, parts);
      var m := |parts[0]|;
      if m <= k {
        DropTwice(text, m, k);
        GreedyFromAnywhere(text[m..], parts[1..], k - m);
      } else {
        var n := ChunkSize(text[k..]);
        AfterChunk(text, k, m);
        GreedyFromAnywhere(text[m..], parts[1..], k + n - m);
      }
    }
  }

  /** The next chunk reaches at least to the boundary `m`, and the splitter goes on behind it. */
  lemma AfterChunk(text: bytes, k: nat, m: nat)
    requires k < m <= |text| && m <= 4086 + k && IsBoundary(text, m)
    ensures var n := ChunkSize(text[k..]);
      && m <= k + n <= |text|
      && |Chunks(text[k..])| == 1 + |Chunks(text[m..][k + n - m..])|
  {
    hide *;
    var tail := text[k..];
    var n := ChunkSize(tail);
    BoundaryInTail(text, k, m);
    ChunkReaches(tail, m - k);
    ChunkCount(tail);
    SameTail(text, k, m, n);
  }

  lemma SplitStep(text: bytes, parts: seq<bytes>)
    requires BoundarySplit(text, parts) && text != []
    ensures parts != [] && |parts[0]| <= |text| && |parts[0]| <= 4086
    ensures IsBoundary(text, |parts[0]|) && BoundarySplit(text[|parts[0]|..], parts[1..])
  {
  }

  lemma BoundaryInTail(text: bytes, k: nat, m: nat)
    requires k < m <= |text| && IsBoundary(text, m)
    ensures IsBoundary(text[k..], m - k)
  {
  }

  lemma ChunkCount(text: bytes)
    requires text != []
    ensures |Chunks(text)| == 1 + |Chunks(text[ChunkSize(text)..])|
  {
  }

  lemma ChunkReaches(text: bytes, cut: nat)
    requires 0 < cut <= |text| && cut <= 4086 && IsBoundary(text, cut)
    ensures ChunkSize(text) >= cut
  {
  }

  /** Greedy optimality, for every text that can be cut at boundaries at all. */
  lemma GreedyIsOptimal(text: bytes, parts: seq<bytes>)
    requires BoundarySplit(text, parts)
    ensures |Chunks(text)| <= |parts|
  {
    assert text[0..] == text;
    GreedyFromAnywhere(text, parts, 0);
  }

  predicate AllWellFormed(parts: seq<bytes>) { forall p :: p in parts ==> WellFormed(p) }

  lemma CutAfter(a: bytes, b: bytes)
    requires WellFormed(b)
    ensures (a + b)[..|a|] == a && (a + b)[|a|..] == b && IsBoundary(a + b, |a|)
  {
    if b != [] {
      assert (a + b)[|a|] == b[0];
    }
  }

  /** A split of well-formed text into well-formed pieces is a split at boundaries. */
  lemma {:induction false} WellFormedPartsAreBoundarySplit(parts: seq<bytes>)
    requires AllWellFormed(parts)
    requires forall p :: p in parts ==> |p| <= 4086
    ensures BoundarySplit(Concat(parts), parts) && WellFormed(Concat(parts))
  {
    if parts != [] {
      var rest := Concat(parts[1..]);
      forall p | p in parts[1..]
        ensures p in parts
      {
      }
      WellFormedPartsAreBoundarySplit(parts[1..]);
      WellFormedConcat(parts[0], rest);
      CutAfter(parts[0], rest);
    }
  }

  lemma EmptyIsWellFormed()
    ensures WellFormed([])
  {
  }

  /** Well-formed text is cut into well-formed pieces, and only the last may be shorter than 4083 bytes. */
  lemma {:induction false} WellFormedChunks(text: bytes)
    requires WellFormed(text)
    ensures AllWellFormed(Chunks(text))
    ensures forall i :: 0 <= i < |Chunks(text)| - 1 ==> |Chunks(text)[i]| >= 4083
    ensures |Chunks(text)| <= (|text| + 4082) / (4083)
    decreases |text|
  {
    hide WellFormed;
    EmptyIsWellFormed();
    if text != [] {
      var n := ChunkSize(text);
      var limit := if |text| < MAX_RESPONSE_CHUNK then |text| else MAX_RESPONSE_CHUNK;
      PrefixSizeNearLimit(text, limit);
      if limit == |text| {
        assert n == |text|;
        assert text[..n] == text && text[n..] == [];
      } else {
        assert n == PrefixSize(text, MAX_RESPONSE_CHUNK);
        SplitAtBoundary(text, n);
        WellFormedChunks(text[n..]);
      }
    }
  }

  /** The promise of the splitter: well-formed pieces, and no other such split is shorter. */
  lemma FewestPackets(text: bytes, parts: seq<bytes>)
    requires Concat(parts) == text && AllWellFormed(parts)
    requires forall p :: p in parts ==> |p| <= 4086
    ensures AllWellFormed(Chunks(text)) && Concat(Chunks(text)) == text
    ensures |Chunks(text)| <= |parts|
  {
    WellFormedPartsAreBoundarySplit(parts);
    GreedyIsOptimal(text, parts);
    WellFormedChunks(text);
    ChunksRebuildText(text);
  }

  /** When the splitter has to cut inside a run of continuation bytes, and that it never does so in well-formed text. */
  lemma FallbackExactly(text: bytes)
    requires text != []
    ensures PrefixSize(text, 4086) == 0 <==>
            |text| > 4086 && forall k :: 0 < k <= 4086 ==> IsContinuation(text[k])
    ensures WellFormed(text) ==> PrefixSize(text, 4086) > 0
  {
    var n := PrefixSize(text, MAX_RESPONSE_CHUNK);
    if n == 0 {
      assert IsBoundary(text, |text|);
      forall k | 0 < k <= MAX_RESPONSE_CHUNK
        ensures IsContinuation(text[k])
      {
        assert !IsBoundary(text, k);
      }
    }
    if WellFormed(text) && |text| > MAX_RESPONSE_CHUNK {
      PrefixSizeNearLimit(text, MAX_RESPONSE_CHUNK);
    }
  }

  // ----- decoding a body -----

  function DecodeBody(body: bytes): Option<Packet> {
    if |body| < 10 || body[|body| - 1] != 0 || body[|body| - 2] != 0 || 0 in body[8..|body| - 2] then None
    else Some(Packet(FromLe32(body[..4]), FromLe32(body[4..8]), body[8..|body| - 2]))
  }

  /** `std::find`: the first NUL of the payload range, or its end. */
  method FindNul(body: bytes, first: nat, last: nat) returns (at: nat)
    requires first <= last <= |body|
    ensures first <= at <= last
    ensures 0 !in body[first..at]
    ensures at < last ==> body[at] == 0
  {
    at := first;
    while at < last && body[at] != 0
      invariant first <= at <= last
      invariant 0 !in body[first..at]
    {
      at := at + 1;
    }
  }

  method DecodePacketBody(body: bytes) returns (out: Option<Packet>)
    ensures out == DecodeBody(body)
  {
    if |body| < 10 || body[|body| - 1] != 0 || body[|body| - 2] != 0 {
      return None;
    }
    var at := FindNul(body, 8, |body| - 2);
    if at != |body| - 2 {
      assert body[8..|body| - 2][at - 8] == 0;
      return None;
    }
    out := Some(Packet(FromLe32(body[..4]), FromLe32(body[4..8]), body[8..|body| - 2]));
  }

  /** The decoder accepts exactly the encodings of NUL-free packets, and inverts them. */
  lemma DecodeExactly(body: bytes, p: Packet)
    ensures DecodeBody(body) == Some(p) <==> body == BodyBytes(p) && NulFree(p.payload)
  {
    if DecodeBody(body) == Some(p) {
      FromLe32RoundTrip(body[..4]);
      FromLe32RoundTrip(body[4..8]);
      assert body == body[..4] + body[4..8] + body[8..|body| - 2] + body[|body| - 2..];
      assert body[|body| - 2..] == [0, 0];
    }
    if body == BodyBytes(p) && NulFree(p.payload) {
      Le32RoundTrip(p.requestId);
      Le32RoundTrip(p.kind);
      assert body[..4] == Le32(p.requestId);
      assert body[4..8] == Le32(p.kind);
      assert body[8..|body| - 2] == p.payload;
    }
  }

  // ----- frames in a byte stream -----

  datatype Frame = NoFrame | Frame(packet: Packet, rest: bytes)

  /** What `recv_packet` makes of the bytes still to come. */
  function ReadFrame(stream: bytes): (f: Frame)
    ensures f.Frame? ==> |f.rest| < |stream|
  {
    if |stream| < 4 then NoFrame
    else
      var size: int := FromLe32(stream[..4]);
      if size <= 0 || size > MAX_PACKET_SIZE || |stream| < 4 + size then NoFrame
      else match DecodeBody(stream[4..4 + size])
        case None => NoFrame
        case Some(p) => Frame(p, stream[4 + size..])
  }

  /** Every packet that repeated `recv_packet` calls get out of a stream. */
  function ReadAll(stream: bytes): seq<Packet>
    decreases |stream|
  {
    match ReadFrame(stream)
    case NoFrame => []
    case Frame(p, rest) => [p] + ReadAll(rest)
  }

  predicate Sendable(p: Packet) { |p.payload| <= 8182 && NulFree(p.payload) }

  lemma FrameOfPacket(p: Packet, rest: bytes)
    requires Sendable(p)
    ensures ReadFrame(PacketBytes(p) + rest) == Frame(p, rest)
  {
    var stream := PacketBytes(p) + rest;
    var bodySize := 10 + |p.payload|;
    var body := BodyBytes(p);
    assert Wrap32(bodySize) == bodySize;
    Le32RoundTrip(bodySize);
    DecodeExactly(body, p);
    hide DecodeBody, BodyBytes, Le32, FromLe32;
    assert stream == Le32(bodySize) + body + rest;
    assert stream[..4] == Le32(bodySize);
    assert stream[4..4 + bodySize] == body;
    assert stream[4 + bodySize..] == rest;
  }

  lemma PacketOfFrame(stream: bytes, p: Packet, rest: bytes)
    requires ReadFrame(stream) == Frame(p, rest)
    ensures stream == PacketBytes(p) + rest && Sendable(p)
  {
    var size: int := FromLe32(stream[..4]);
    var body := stream[4..4 + size];
    DecodeExactly(body, p);
    FromLe32RoundTrip(stream[..4]);
    assert |BodyBytes(p)| == 10 + |p.payload|;
    hide DecodeBody, BodyBytes, Le32, FromLe32;
    assert Wrap32(10 + |p.payload|) == size;
    assert stream == stream[..4] + body + stream[4 + size..];
    assert PacketBytes(p) == stream[..4] + body;
  }

  /** Framing is self-delimiting and canonical, whatever follows on the stream. */
  lemma FrameExactly(stream: bytes, p: Packet, rest: bytes)
    ensures ReadFrame(stream) == Frame(p, rest) <==> stream == PacketBytes(p) + rest && Sendable(p)
  {
    hide *;
    if ReadFrame(stream) == Frame(p, rest) {
      PacketOfFrame(stream, p, rest);
    }
    if stream == PacketBytes(p) + rest && Sendable(p) {
      FrameOfPacket(p, rest);
    }
  }

  lemma {:induction false} StreamRoundTrip(packets: seq<Packet>, rest: bytes)
    requires forall i :: 0 <= i < |packets| ==> Sendable(packets[i])
    ensures ReadAll(WireBytes(packets) + rest) == packets + ReadAll(rest)
    decreases |packets|
  {
    hide ReadFrame, Sendable;
    if packets == [] {
      assert WireBytes(packets) + rest == rest;
    } else {
      hide WireBytes, ReadAll;
      var later := WireBytes(packets[1..]) + rest;
      WireBytesCons(packets, rest);
      FrameExactly(WireBytes(packets) + rest, packets[0], later);
      StreamRoundTrip(packets[1..], rest);
      ReadAllCons(WireBytes(packets) + rest, packets, later, rest);
    }
  }

  lemma WireBytesCons(packets: seq<Packet>, rest: bytes)
    requires packets != []
    ensures WireBytes(packets) + rest == PacketBytes(packets[0]) + (WireBytes(packets[1..]) + rest)
  {
    assert PacketList(packets)[1..] == PacketList(packets[1..]);
    var head, tail := PacketList(packets)[0], WireBytes(packets[1..]);
    assert (head + tail) + rest == head + (tail + rest);
  }

  lemma ReadAllCons(stream: bytes, packets: seq<Packet>, later: bytes, rest: bytes)
    requires packets != [] && ReadFrame(stream) == Frame(packets[0], later)
    requires ReadAll(later) == packets[1..] + ReadAll(rest)
    ensures ReadAll(stream) == packets + ReadAll(rest)
  {
    hide ReadFrame;
    assert ReadAll(stream) == [packets[0]] + ReadAll(later);
    hide *;
    Associative([packets[0]], packets[1..], ReadAll(rest));
    assert [packets[0]] + packets[1..] == packets;
  }

  lemma WireBytesConcat(a: seq<Packet>, b: seq<Packet>)
    ensures WireBytes(a + b) == WireBytes(a) + WireBytes(b)
  {
    assert PacketList(a + b) == PacketList(a) + PacketList(b);
    ConcatAppend(PacketList(a), PacketList(b));
  }

  function Payloads(packets: seq<Packet>): seq<bytes> {
    seq(|packets|, i requires 0 <= i < |packets| => packets[i].payload)
  }

  /**
   * End to end: the packets of a response, read back from the wire, carry the
   * request id and type 0, and their payloads concatenate to the text. This
   * includes malformed text, which takes the fallback cut.
   */
  lemma ResponseRoundTrip(requestId: int32, text: bytes, rest: bytes)
    requires NulFree(text)
    ensures var packets := ResponsePackets(requestId, text);
      && ReadAll(WireBytes(packets) + rest) == packets + ReadAll(rest)
      && |packets| > 0
      && Concat(Payloads(packets)) == text
      && forall i :: 0 <= i < |packets| ==>
        packets[i].requestId == requestId && packets[i].kind == 0 && Sendable(packets[i])
  {
    var packets := ResponsePackets(requestId, text);
    ChunksRebuildText(text);
    NulFreeParts(Chunks(text));
    if text == [] {
      assert Payloads(packets) == [[]];
      assert Concat([[]]) == [] + Concat<byte>([]);
    } else {
      assert Payloads(packets) == Chunks(text);
    }
    assert forall i :: 0 <= i < |packets| ==> Sendable(packets[i]);
    hide *;
    StreamRoundTrip(packets, rest);
  }

  lemma {:induction false} ReadAllIsSendable(stream: bytes)
    ensures forall i :: 0 <= i < |ReadAll(stream)| ==> Sendable(ReadAll(stream)[i])
    decreases |stream|
  {
    hide ReadFrame, Sendable;
    var frame := ReadFrame(stream);
    if frame.Frame? {
      FrameExactly(stream, frame.packet, frame.rest);
      ReadAllIsSendable(frame.rest);
    }
  }

  /** A response can be read back exactly when its text has no NUL: the decoder refuses embedded NULs. */
  lemma ResponseReadableExactly(requestId: int32, text: bytes)
    ensures var packets := ResponsePackets(requestId, text);
      ReadAll(WireBytes(packets)) == packets <==> NulFree(text)
  {
    var packets := ResponsePackets(requestId, text);
    hide ReadAll, WireBytes, NulFree, Chunks;
    if NulFree(text) {
      ResponseRoundTrip(requestId, text, []);
      assert WireBytes(packets) + [] == WireBytes(packets);
      NothingFollows();
      assert packets + [] == packets;
    }
    if ReadAll(WireBytes(packets)) == packets && text != [] {
      ReadAllIsSendable(WireBytes(packets));
      ChunksRebuildText(text);
      assert forall i :: 0 <= i < |packets| ==> packets[i].payload == Chunks(text)[i];
      NulFreeParts(Chunks(text));
    } else if text == [] {
      EmptyIsNulFree();
    }
  }

  lemma NothingFollows()
    ensures ReadAll([]) == []
  {
  }

  lemma EmptyIsNulFree()
    ensures NulFree([])
  {
  }
}
