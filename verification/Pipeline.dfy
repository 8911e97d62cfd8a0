/**
 * The reply pipeline put together: from UTF-16 replies of the game, through the
 * bounded capture and the dispatcher's reply, to packets a client reads back.
 */
module Pipeline {
  import opened Bytes
  import opened Utf8
  import opened Utf16
  import opened RconProtocol
  import S = ResponseScope
  import C = ResponseCapture
  import R = RegistryDispatch
  import G = RegistryGate

  /** Packets whose payloads are whole well-formed text and fit the protocol's limits. */
  predicate GoodPackets(packets: seq<Packet>, requestId: int32) {
    forall i :: 0 <= i < |packets| ==>
      && packets[i].requestId == requestId && packets[i].kind == 0
      && IsText(packets[i].payload) && |BodyBytes(packets[i])| <= 4096
  }

  /** Any text answer: good packets, as few as its length needs, read back whole. */
  lemma TextReachesClient(requestId: int32, text: bytes, rest: bytes)
    requires IsText(text)
    ensures var packets := ResponsePackets(requestId, text);
      && GoodPackets(packets, requestId)
      && ReadAll(WireBytes(packets) + rest) == packets + ReadAll(rest)
      && Concat(Payloads(packets)) == text
      && |packets| <= 1 + |text| / (4083)
  {
    var packets := ResponsePackets(requestId, text);
    ResponseRoundTrip(requestId, text, rest);
    hide ReadAll, WireBytes, Payloads, WellFormed;
    ChunksRebuildText(text);
    WellFormedChunks(text);
    NulFreeParts(Chunks(text));
    C.EmptyIsText();
    if text != [] {
      assert forall i :: 0 <= i < |packets| ==> packets[i].payload == Chunks(text)[i];
    }
    hide Chunks;
  }

  /** What a call to a native handler captures is text of bounded size, whatever the game sends. */
  lemma CaptureIsText(env: R.Environment)
    ensures IsText(R.CapturedBy(env).output) && |R.CapturedBy(env).output| <= S.MAX_BYTES
  {
    var log := S.Own(C.Heard(env.native.body, env.instance), env.instance);
    C.HeardAreAddressed(env.native.body, env.instance);
    hide IsText;
    S.OutputStaysText(env.instance, log);
    S.RecordedBounds(env.instance, log);
  }

  /** The frame around the capture adds at most 200 bytes. */
  lemma ReplyIsBounded(result: bool, b: S.Buffer)
    ensures |R.ReplyText(result, b)| <= |b.output| + 200
  {
    NoteSizes();
    hide R.NoReplyNote, R.CaptureFailedNote, R.TruncatedNote;
  }

  lemma NoteSizes()
    ensures |R.NoReplyNote()| < 64 && |R.CaptureFailedNote()| < 96 && |R.TruncatedNote()| < 24
  {
  }

  /** So is what it answers. */
  lemma AnswerIsText(env: R.Environment)
    ensures IsText(R.ReplyText(env.native.result, R.CapturedBy(env)))
    ensures |R.ReplyText(env.native.result, R.CapturedBy(env))| <= S.MAX_BYTES + 200
  {
    hide *;
    CaptureIsText(env);
    ReplyIsBounded(env.native.result, R.CapturedBy(env));
    G.ReplyIsText(env.native.result, R.CapturedBy(env));
  }

  /**
   * The answer to an execute request, however long and whatever the game's
   * replies are, reaches the client as at most 17 packets of valid UTF-8 with
   * the request's id, which together are exactly the answer.
   */
  lemma AnswerReachesClient(requestId: int32, env: R.Environment, rest: bytes)
    ensures var answer := R.ReplyText(env.native.result, R.CapturedBy(env));
      var packets := ResponsePackets(requestId, answer);
      && GoodPackets(packets, requestId) && |packets| <= 17
      && ReadAll(WireBytes(packets) + rest) == packets + ReadAll(rest)
      && Concat(Payloads(packets)) == answer
  {
    hide *;
    AnswerIsText(env);
    var answer := R.ReplyText(env.native.result, R.CapturedBy(env));
    TextReachesClient(requestId, answer, rest);
    PacketCount(|answer|);
  }

  lemma PacketCount(size: nat)
    requires size <= S.MAX_BYTES + 200
    ensures 1 + size / (4083) <= 17
  {
  }

  /** `text` has all characters of `reply`, in order, and a blank in the place of each control. */
  ghost predicate Carries(text: bytes, reply: wide) {
    && Paired(reply) && IsText(text) && |ScalarsOf(text)| == |Scalars(reply)|
    && forall i :: 0 <= i < |Scalars(reply)| ==>
         var own := Scalars(reply)[i];
         ScalarsOf(text)[i] == if own < 32 && own != 9 && own != 10 && own != 13 then 32 else own
  }

  /**
   * Without a failure or truncation, the client gets every reply the game
   * addressed to the command, in order and joined by newlines, each with all the
   * characters the game sent.
   */
  lemma ClientGetsEveryReply(requestId: int32, env: R.Environment, rest: bytes)
    requires env.native.result
    requires var b := R.CapturedBy(env); !b.failed && !b.cut && b.output != []
    ensures var texts := S.Texts(S.Own(C.Heard(env.native.body, env.instance), env.instance));
      var sent := C.Addressed(env.native.body, env.instance);
      var packets := ResponsePackets(requestId, R.ReplyText(true, R.CapturedBy(env)));
      && ReadAll(WireBytes(packets) + rest) == packets + ReadAll(rest)
      && Concat(Payloads(packets)) == S.Join(texts)
      && |texts| == |sent|
      && forall i, reply :: 0 <= i < |sent| && C.Holds(sent[i], reply) && Paired(reply) ==> Carries(texts[i], reply)
  {
    var log := S.Own(C.Heard(env.native.body, env.instance), env.instance);
    var sent := C.Addressed(env.native.body, env.instance);
    hide *;
    AnswerReachesClient(requestId, env, rest);
    CapturedByIsRecorded(env, log);
    S.NothingLostSilently(env.instance, log);
    G.CleanReplyIsVerbatim(R.CapturedBy(env));
    var texts := S.Texts(log);
    LogIsTexts(env.instance, log);
    C.HeardAreAddressed(env.native.body, env.instance);
    forall i, reply | 0 <= i < |sent| && C.Holds(sent[i], reply) && Paired(reply)
      ensures Carries(texts[i], reply)
    {
      S.JoinIsLonger(texts, i);
      ShortReplyIsCarried(sent[i], reply, texts[i]);
    }
  }

  lemma CapturedByIsRecorded(env: R.Environment, log: seq<S.Entry>)
    requires log == S.Own(C.Heard(env.native.body, env.instance), env.instance)
    ensures R.CapturedBy(env) == S.Recorded(env.instance, log)
  {
  }

  lemma LogIsTexts(key: S.Key, log: seq<S.Entry>)
    requires !S.Recorded(key, log).failed
    ensures |S.Texts(log)| == |log|
    ensures forall i :: 0 <= i < |log| ==> log[i].Reply? && S.Texts(log)[i] == log[i].text
  {
    hide *;
    if S.Failed in log {
      S.FailedEntryStays(key, log);
    }
    S.TextsAreTheLog(log);
  }

  lemma ShortReplyIsCarried(m: C.Message, reply: wide, text: bytes)
    requires C.Holds(m, reply) && Paired(reply) && C.Captured(m, false) == Some(text) && |text| <= 65536
    ensures Carries(text, reply)
  {
    C.ValidReplyIsCaptured(m, reply);
    hide C.Captured, C.Holds, IsText, Paired, Scalars, ScalarsOf;
  }
}
