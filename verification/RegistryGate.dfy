/** When a native handler runs, over one request and over whole runs, and what its reply says. */
module RegistryGate {
  import opened Bytes
  import opened Utf8
  import opened RegistryDispatch
  import D = DispatchRequest
  import S = ResponseScope

  /** `all[i]` is the only command whose verb is `wanted`, letter case aside. */
  ghost predicate OnlyMatch(all: seq<Command>, i: int, wanted: bytes) {
    0 <= i < |all| && Key(all[i]) == wanted && forall j :: 0 <= j < |all| && j != i ==> Key(all[j]) != wanted
  }

  lemma {:induction false} NoMatch(all: seq<Command>, wanted: bytes)
    ensures Matching(all, wanted) == [] <==> forall j :: 0 <= j < |all| ==> Key(all[j]) != wanted
  {
    hide Key;
    if all != [] {
      NoMatch(all[1..], wanted);
      assert forall j :: 1 <= j < |all| ==> all[j] == all[1..][j - 1];
    }
  }

  lemma {:induction false} OnlyMatchIsFound(all: seq<Command>, i: nat, wanted: bytes)
    requires OnlyMatch(all, i, wanted)
    ensures Matching(all, wanted) == [all[i]]
  {
    hide Key;
    var rest := all[1..];
    forall j | 0 <= j < |rest| && j != i - 1
      ensures Key(rest[j]) != wanted
    {
      assert rest[j] == all[j + 1];
    }
    if i == 0 {
      NoMatch(rest, wanted);
    } else {
      OnlyMatchIsFound(rest, i - 1, wanted);
      assert Key(all[0]) != wanted;
      assert [] + Matching(rest, wanted) == Matching(rest, wanted);
    }
  }

  lemma {:induction false} FoundIsOnlyMatch(all: seq<Command>, wanted: bytes, c: Command) returns (i: nat)
    requires Matching(all, wanted) == [c]
    ensures OnlyMatch(all, i, wanted) && all[i] == c
  {
    hide Key;
    var rest := all[1..];
    assert forall j :: 1 <= j < |all| ==> all[j] == rest[j - 1];
    if Key(all[0]) == wanted {
      assert ([all[0]] + Matching(rest, wanted))[1..] == Matching(rest, wanted);
      assert Matching(all, wanted) == [all[0]] + Matching(rest, wanted);
      assert Matching(all, wanted)[0] == all[0];
      NoMatch(rest, wanted);
      i := 0;
    } else {
      assert [] + Matching(rest, wanted) == Matching(rest, wanted);
      i := FoundIsOnlyMatch(rest, wanted, c);
      i := i + 1;
    }
  }

  lemma OneMatch(all: seq<Command>, wanted: bytes, c: Command)
    ensures Matching(all, wanted) == [c] <==> exists i :: OnlyMatch(all, i, wanted) && all[i] == c
  {
    hide Matching;
    if Matching(all, wanted) == [c] {
      var i := FoundIsOnlyMatch(all, wanted, c);
    }
    if i :| OnlyMatch(all, i, wanted) && all[i] == c {
      OnlyMatchIsFound(all, i, wanted);
    }
  }

  /** Metadata a command must have to be a candidate at all. */
  predicate SoundCandidate(c: Command) {
    SoundMetadata(c.flags) && c.flags.enabled && c.flags.shipping && c.flags.server
  }

  lemma {:induction false} SupportedIsSound(infos: seq<ClassInfo>, i: nat)
    requires Collect(infos).Entries? && i < |Collect(infos).commands|
    ensures Collect(infos).commands[i].support == Supported ==> SoundCandidate(Collect(infos).commands[i])
  {
    var n := |infos| - 1;
    if i < |Collect(infos[..n]).commands| {
      SupportedIsSound(infos[..n], i);
    }
  }

  /** The `n`-th class of the registry is listed as `c`. */
  predicate ListsAs(infos: seq<ClassInfo>, n: nat, c: Command) {
    && n < |infos| && Fresh(infos, n) && infos[n].hasDefault && infos[n].verb.Some?
    && c == Classify(infos[n], infos[n].verb.value)
  }

  lemma ListsAsInPrefix(infos: seq<ClassInfo>, m: nat, n: nat, c: Command)
    requires n < m <= |infos|
    ensures ListsAs(infos[..m], n, c) == ListsAs(infos, n, c)
  {
    hide Classify;
    assert Fresh(infos[..m], n) == Fresh(infos, n);
  }

  /**
   * The listing is the whole registry: a command is in it exactly when some
   * class, at its first occurrence, is a command with a default object.
   */
  lemma {:induction false} ListingIsTheRegistry(infos: seq<ClassInfo>, c: Command)
    requires Collect(infos).Entries?
    ensures c in Collect(infos).commands <==> exists n: nat :: ListsAs(infos, n, c)
  {
    hide Classify;
    if infos != [] {
      var m: nat := |infos| - 1;
      ListingIsTheRegistry(infos[..m], c);
      forall n: nat | n < m
        ensures ListsAs(infos[..m], n, c) == ListsAs(infos, n, c)
      {
        ListsAsInPrefix(infos, m, n, c);
      }
      if ListsAs(infos, m, c) {
        assert Collect(infos).commands[|Collect(infos[..m]).commands|] == c;
      }
      hide Fresh;
    }
  }

  /** The listing has each command class at most once. */
  lemma {:induction false} ClassesAreDistinct(infos: seq<ClassInfo>)
    requires Collect(infos).Entries?
    ensures forall c :: c in Collect(infos).commands ==> exists i :: 0 <= i < |infos| && infos[i].isCommand && infos[i].cls == c.cls
    ensures forall i, j :: 0 <= i < j < |Collect(infos).commands| ==>
              Collect(infos).commands[i].cls != Collect(infos).commands[j].cls
  {
    if infos != [] {
      var n := |infos| - 1;
      ClassesAreDistinct(infos[..n]);
      var before, all := Collect(infos[..n]).commands, Collect(infos).commands;
      forall c | c in all
        ensures exists i :: 0 <= i < |infos| && infos[i].isCommand && infos[i].cls == c.cls
      {
        if c in before {
          var i :| 0 <= i < |infos[..n]| && infos[..n][i].isCommand && infos[..n][i].cls == c.cls;
          assert infos[i].cls == c.cls;
        } else {
          assert infos[n].cls == c.cls;
        }
      }
      if |all| > |before| {
        forall i | 0 <= i < |before|
          ensures before[i].cls != all[|before|].cls
        {
          assert before[i] in before;
          var k :| 0 <= k < |infos[..n]| && infos[..n][k].isCommand && infos[..n][k].cls == before[i].cls;
          assert infos[k].isCommand;
        }
      }
    }
  }

  /** All that must hold for a request to reach the handler of the listed command `c`. */
  ghost predicate Reaches(latched: bool, request: D.Request, env: Environment, c: Command) {
    && !latched && env.supportedBuild && env.captureReady
    && Listed(env.registry).Entries?
    && (exists i :: OnlyMatch(Listed(env.registry).commands, i, Lower(request.verb)) && Listed(env.registry).commands[i] == c)
    && c.support == Supported && SoundCandidate(c)
    && CountAllowed(c.flags, |request.arguments|)
    && TargetReady(request, env)
  }

  predicate TargetReady(request: D.Request, env: Environment) {
    && PlayersListed(env.steamIds) && Connected(env.steamIds.value, request.steamId)
    && env.pawn && env.executor && env.instanceValid
    && forall i :: 0 <= i < |request.arguments| ==> WellFormed(request.arguments[i])
  }

  /** The gate chooses exactly the only match of the listing, if it is supported, the count fits and the target is ready. */
  lemma ReachesExactly(latched: bool, request: D.Request, env: Environment, c: Command)
    ensures Gate(latched, request, env) == Invoke(c) <==> Reaches(latched, request, env, c)
  {
    hide Key, WellFormed, CountMismatch, CountAllowed, Matching, Collect, OnlyMatch, PlayersListed, Connected, SoundMetadata;
    var listed := Listed(env.registry);
    if listed.Entries? {
      var matching := Matching(listed.commands, Lower(request.verb));
      OneMatch(listed.commands, Lower(request.verb), c);
      if matching == [c] {
        SupportedCandidate(env.registry, Lower(request.verb), c);
        if SoundMetadata(c.flags) {
          CountMismatchExactly(c.flags, |request.arguments|);
        }
      } else if |matching| == 1 {
        assert matching == [matching[0]];
      }
    }
  }

  lemma SupportedCandidate(registry: Option<seq<ClassInfo>>, wanted: bytes, c: Command)
    requires Listed(registry).Entries? && Matching(Listed(registry).commands, wanted) == [c]
    ensures c.support == Supported ==> SoundCandidate(c)
  {
    var all := Listed(registry).commands;
    OneMatch(all, wanted, c);
    hide Matching;
    var i :| OnlyMatch(all, i, wanted) && all[i] == c;
    SupportedIsSound(registry.value, i);
  }

  // ----- whole runs -----

  datatype Call = Call(request: D.Request, env: Environment)

  /** The latch after a run of execute requests. */
  function LatchAfter(calls: seq<Call>): bool {
    if calls == [] then false
    else
      var n := |calls| - 1;
      var latched := LatchAfter(calls[..n]);
      latched || (Gate(latched, calls[n].request, calls[n].env).Invoke? && calls[n].env.native.faults)
  }

  /** The decision on the `i`-th request of a run. */
  function DecisionOn(calls: seq<Call>, i: nat): Decision
    requires i < |calls|
  {
    Gate(LatchAfter(calls[..i]), calls[i].request, calls[i].env)
  }

  /** The `i`-th request of a run reaches a handler, and the handler faults. */
  predicate FaultsAt(calls: seq<Call>, i: nat) {
    i < |calls| && DecisionOn(calls, i).Invoke? && calls[i].env.native.faults
  }

  /** Once a handler has faulted, every later request of the run is refused by the latch. */
  lemma NothingRunsAfterAFault(calls: seq<Call>, i: nat, j: nat)
    requires i < j < |calls| && FaultsAt(calls, i)
    ensures DecisionOn(calls, j) == Refuse(Latched)
  {
    assert calls[..i + 1][..i] == calls[..i];
    assert LatchAfter(calls[..i + 1]);
    assert calls[..j][..i + 1] == calls[..i + 1];
    LatchStays(calls[..j], i + 1);
  }

  lemma {:induction false} LatchStays(calls: seq<Call>, i: nat)
    requires i <= |calls| && LatchAfter(calls[..i])
    ensures LatchAfter(calls)
    decreases |calls|
  {
    if i == |calls| {
      assert calls[..i] == calls;
    } else {
      var n := |calls| - 1;
      assert calls[..n][..i] == calls[..i];
      LatchStays(calls[..n], i);
    }
  }

  lemma FaultsInPrefix(calls: seq<Call>, n: nat, i: nat)
    requires i < n <= |calls|
    ensures FaultsAt(calls[..n], i) == FaultsAt(calls, i)
  {
    assert calls[..n][..i] == calls[..i];
  }

  lemma LatchStep(calls: seq<Call>)
    requires calls != []
    ensures LatchAfter(calls) == (LatchAfter(calls[..|calls| - 1]) || FaultsAt(calls, |calls| - 1))
  {
  }

  /** The latch closes for no other reason: it is set exactly when some handler of the run faulted. */
  lemma {:induction false} LatchedExactly(calls: seq<Call>)
    ensures LatchAfter(calls) <==> exists i: nat :: FaultsAt(calls, i)
  {
    if calls != [] {
      var n := |calls| - 1;
      LatchStep(calls);
      LatchedExactly(calls[..n]);
      assert forall i: nat :: FaultsAt(calls, i) ==> i <= n;
      forall i: nat | i < n
        ensures FaultsAt(calls[..n], i) == FaultsAt(calls, i)
      {
        FaultsInPrefix(calls, n, i);
      }
      assert forall i: nat :: FaultsAt(calls[..n], i) ==> i < n;
      hide FaultsAt, LatchAfter;
    }
  }

  /** The handler calls a decision leads to. */
  function CalledBy(decision: Decision, request: D.Request): seq<Invocation> {
    match decision
    case Refuse(_) => []
    case Invoke(command) => [Invocation(command.cls, request.steamId, request.arguments)]
  }

  function ResultOf(decision: Decision, env: Environment): Result {
    match decision
    case Refuse(why) => Refused(why)
    case Invoke(_) => if env.native.faults then Raised else Completed(ReplyText(env.native.result, CapturedBy(env)))
  }

  /** The handlers a run calls, in order. */
  function Invoked(calls: seq<Call>): seq<Invocation> {
    if calls == [] then []
    else
      var n := |calls| - 1;
      Invoked(calls[..n]) + CalledBy(DecisionOn(calls, n), calls[n].request)
  }

  /** No handler is called after the one that faulted. */
  lemma {:induction false} NoInvocationAfterAFault(calls: seq<Call>, i: nat)
    requires FaultsAt(calls, i)
    ensures Invoked(calls) == Invoked(calls[..i + 1])
    decreases |calls|
  {
    hide *;
    FaultIsInside(calls, i);
    var n: nat := |calls| - 1;
    if i == n {
      assert calls[..i + 1] == calls;
    } else {
      FaultsInPrefix(calls, n, i);
      NoInvocationAfterAFault(calls[..n], i);
      assert calls[..n][..i + 1] == calls[..i + 1];
      NothingRunsAfterAFault(calls, i, n);
      InvokedStep(calls);
    }
  }

  lemma FaultIsInside(calls: seq<Call>, i: nat)
    requires FaultsAt(calls, i)
    ensures i < |calls|
  {
  }

  lemma InvokedStep(calls: seq<Call>)
    requires calls != [] && DecisionOn(calls, |calls| - 1).Refuse?
    ensures Invoked(calls) == Invoked(calls[..|calls| - 1])
  {
    hide DecisionOn;
  }

  /** The result of the `i`-th request of a run. */
  function ResultOn(calls: seq<Call>, i: nat): Result
    requires i < |calls|
  {
    ResultOf(DecisionOn(calls, i), calls[i].env)
  }

  lemma EmptyRun()
    ensures !LatchAfter([]) && Invoked([]) == []
  {
  }

  lemma OneMoreCall(calls: seq<Call>, k: nat, before: seq<Invocation>)
    requires k < |calls|
    ensures LatchAfter(calls[..k + 1]) ==
            match DecisionOn(calls, k) case Refuse(_) => LatchAfter(calls[..k]) case Invoke(_) => calls[k].env.native.faults
    ensures before + Invoked(calls[..k + 1]) ==
            match DecisionOn(calls, k)
            case Refuse(_) => before + Invoked(calls[..k])
            case Invoke(c) => before + Invoked(calls[..k]) + [Invocation(c.cls, calls[k].request.steamId, calls[k].request.arguments)]
  {
    assert calls[..k + 1][..k] == calls[..k];
    assert DecisionOn(calls[..k + 1], k) == DecisionOn(calls, k);
    assert DecisionOn(calls, k).Invoke? ==> !LatchAfter(calls[..k]);
    hide Gate, DecisionOn;
  }

  /** Any requests one after the other on one dispatcher: its latch and its calls are those of the run. */
  method RunAll(dispatcher: Dispatcher, calls: seq<Call>) returns (results: seq<Result>)
    requires !dispatcher.nativeFaulted && dispatcher.hook.thread.Valid()
    modifies dispatcher, dispatcher.hook, dispatcher.hook.thread, dispatcher.hook.thread.scopes
    ensures dispatcher.hook.thread.Valid() && dispatcher.hook.thread.Stack() == old(dispatcher.hook.thread.Stack())
    ensures dispatcher.nativeFaulted == LatchAfter(calls)
    ensures dispatcher.invocations == old(dispatcher.invocations) + Invoked(calls)
    ensures |results| == |calls| && forall i :: 0 <= i < |calls| ==> results[i] == ResultOn(calls, i)
  {
    hide Gate, ReplyText, CapturedBy, LatchAfter, Invoked;
    results := [];
    EmptyRun();
    ghost var before := dispatcher.invocations;
    assert calls[..0] == [];
    for k := 0 to |calls|
      invariant dispatcher.hook.thread.Valid() && dispatcher.hook.thread.scopes == old(dispatcher.hook.thread.scopes)
      invariant dispatcher.hook.thread.Stack() == old(dispatcher.hook.thread.Stack())
      invariant dispatcher.nativeFaulted == LatchAfter(calls[..k])
      invariant dispatcher.invocations == before + Invoked(calls[..k])
      invariant |results| == k && forall i :: 0 <= i < k ==> results[i] == ResultOn(calls, i)
    {
      OneMoreCall(calls, k, before);
      ghost var latched := dispatcher.nativeFaulted;
      var r := dispatcher.Execute(calls[k].request, calls[k].env);
      assert r == ResultOn(calls, k);
      results := results + [r];
    }
    assert calls[..|calls|] == calls;
  }

  // ----- the reply -----

  predicate EndsWith(t: bytes, end: bytes) { |end| <= |t| && t[|t| - |end|..] == end }

  lemma AppendEnds(t: bytes, end: bytes)
    ensures EndsWith(t + end, end)
  {
  }

  /** A reply is never empty; a truncated or failed capture is always announced at its end. */
  lemma TruncationIsAnnounced(result: bool, b: S.Buffer)
    ensures ReplyText(result, b) != []
    ensures b.cut ==> EndsWith(ReplyText(result, b), TruncatedNote())
    ensures b.failed && !b.cut ==> EndsWith(ReplyText(result, b), CaptureFailedNote())
  {
    hide EndsWith, Ascii;
    var r0 := if result then [] else Ascii("error: native command returned false");
    var r1 := if b.output != [] then r0 + (if r0 == [] then [] else [NL]) + b.output else r0;
    var r2 := if b.failed then r1 + CaptureFailedNote() else r1;
    AppendEnds(r1, CaptureFailedNote());
    AppendEnds(r2, TruncatedNote());
  }

  /**
   * A reply word for word: the error line when the handler returned false, the
   * captured text on lines of its own, the note of a failed capture, the note of
   * a cut one; and the fixed text when there is nothing of all that.
   */
  lemma ReplyExactly(result: bool, b: S.Buffer)
    ensures var failure := Ascii("error: native command returned false");
      var text := if result then b.output else if b.output == [] then failure else failure + [10] + b.output;
      var failed := if b.failed
        then [10] + (Ascii("error: command completed but reply capture") + Ascii(" failed; do not retry without checking state"))
        else [];
      var cut := if b.cut then [10] + Ascii("[response truncated]") else [];
      ReplyText(result, b) ==
      if text == [] && !b.failed && !b.cut
      then Ascii("ok: native command returned true;") + Ascii(" no synchronous SCUM response")
      else text + failed + cut
  {
    var failure := Ascii("error: native command returned false");
    assert failure != [];
    hide Ascii;
    assert [] + [] + b.output == b.output;
    var text := if result then b.output else if b.output == [] then failure else failure + [10] + b.output;
    assert text + [] == text && text + [] + [] == text;
    var note := CaptureFailedNote();
    assert text + note + [] == text + note;
  }

  /** Without any flag, a successful reply with text is exactly the captured text. */
  lemma CleanReplyIsVerbatim(b: S.Buffer)
    requires !b.cut && !b.failed && b.output != []
    ensures ReplyText(true, b) == b.output
  {
    hide Ascii;
    assert [] + [] + b.output == b.output;
  }

  lemma LiteralsAreText(a: string, b: string)
    requires forall i :: 0 <= i < |a| ==> ' ' <= a[i] <= 'z'
    requires forall i :: 0 <= i < |b| ==> ' ' <= b[i] <= 'z'
    ensures IsText(Ascii(a) + Ascii(b)) && IsText([NL] + Ascii(a)) && IsText([NL] + (Ascii(a) + Ascii(b)))
  {
    LiteralIsText(a);
    LiteralIsText(b);
    NewlineIsText();
    hide Ascii, IsText;
    IsTextConcat(Ascii(a), Ascii(b));
    IsTextConcat([NL], Ascii(a));
    IsTextConcat([NL], Ascii(a) + Ascii(b));
  }

  lemma NewlineIsText()
    ensures IsText([NL])
  {
    AsciiIsWellFormed([NL]);
  }

  lemma NoReplyNoteIsText()
    ensures IsText(NoReplyNote())
  {
    LiteralsAreText("ok: native command returned true;", " no synchronous SCUM response");
    hide Ascii, IsText;
  }

  lemma CaptureFailedNoteIsText()
    ensures IsText(CaptureFailedNote())
  {
    LiteralsAreText("error: command completed but reply capture", " failed; do not retry without checking state");
    hide Ascii, IsText;
  }

  lemma TruncatedNoteIsText()
    ensures IsText(TruncatedNote()) && IsText(Ascii("error: native command returned false"))
  {
    LiteralsAreText("[response truncated]", "");
    LiteralIsText("error: native command returned false");
    hide Ascii, IsText;
  }

  lemma LiteralIsText(s: string)
    requires forall i :: 0 <= i < |s| ==> ' ' <= s[i] <= 'z'
    ensures IsText(Ascii(s))
  {
    AsciiIsWellFormed(Ascii(s));
    hide WellFormed;
  }

  /** What the dispatcher answers is text if what it captured is. */
  lemma ReplyIsText(result: bool, b: S.Buffer)
    requires IsText(b.output)
    ensures IsText(ReplyText(result, b))
  {
    NoReplyNoteIsText();
    CaptureFailedNoteIsText();
    TruncatedNoteIsText();
    NewlineIsText();
    hide Ascii, CaptureFailedNote, TruncatedNote, NoReplyNote;
    assert IsText([]);
    hide IsText;
    var r0 := if result then [] else Ascii("error: native command returned false");
    var r01 := r0 + (if r0 == [] then [] else [NL]);
    IsTextConcat(r0, if r0 == [] then [] else [NL]);
    IsTextConcat(r01, b.output);
    var r1 := if b.output != [] then r01 + b.output else r0;
    IsTextConcat(r1, CaptureFailedNote());
    var r2 := if b.failed then r1 + CaptureFailedNote() else r1;
    IsTextConcat(r2, TruncatedNote());
  }
}
