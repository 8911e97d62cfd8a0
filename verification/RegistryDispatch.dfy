/**
 * The execution gate: reading the command registry, finding the one matching
 * command, checking its argument count, and the latch that stops all native
 * execution after the first fault.
 */
module RegistryDispatch {
  import opened Bytes
  import opened Utf8
  import opened Sorting
  import D = DispatchRequest
  import S = ResponseScope
  import C = ResponseCapture
  import P = PlayerList

  // ----- the registry -----

  datatype Flags = Flags(required: int, declared: int, repeating: int, enabled: bool, shipping: bool, server: bool)

  /** What reflection says about one registered class. */
  datatype ClassInfo = ClassInfo(
    cls: nat, isCommand: bool, hasDefault: bool, verb: Option<bytes>, flags: Option<Flags>, nativeVtable: bool)

  datatype Support = Supported | MissingMetadata | ArgumentMetadata | DisabledOrClientOnly | NativeVtable

  datatype Command = Command(cls: nat, verb: bytes, flags: Flags, support: Support)

  const NO_FLAGS: Flags := Flags(0, 0, 0, false, false, false)

  /** Reasons for which the gate answers without calling a handler. */
  datatype Refusal =
    | Latched | Unsupported | RegistryUnreadable | VerbUnreadable | NoCommands
    | Ambiguous | NotFound | Unavailable(support: Support) | ArgumentCount
    | PlayersUnlisted | NotConnected | NoPawn | NoExecutor | InvalidUtf8 | BadInstance

  function Classify(info: ClassInfo, verb: bytes): Command {
    match info.flags
    case None => Command(info.cls, verb, NO_FLAGS, MissingMetadata)
    case Some(f) =>
      Command(info.cls, verb, f,
        if f.required < 0 || f.required > f.declared || f.declared > 64 || f.repeating < 0 || f.repeating > f.declared
        then ArgumentMetadata
        else if !f.enabled || !f.shipping || !f.server then DisabledOrClientOnly
        else if !info.nativeVtable then NativeVtable
        else Supported)
  }

  datatype Entries = Entries(commands: seq<Command>) | Fails(why: Refusal)

  /** The entries of the registry in order, each class once. */
  function Collect(infos: seq<ClassInfo>): Entries {
    if infos == [] then Entries([])
    else
      var n := |infos| - 1;
      var before := Collect(infos[..n]);
      if before.Fails? || !Fresh(infos, n) || !infos[n].hasDefault then before
      else if infos[n].verb.None? then Fails(VerbUnreadable)
      else Entries(before.commands + [Classify(infos[n], infos[n].verb.value)])
  }

  /** A command class not met before. */
  predicate Fresh(infos: seq<ClassInfo>, n: nat)
    requires n < |infos|
  {
    infos[n].isCommand && forall i :: 0 <= i < n && infos[i].isCommand ==> infos[i].cls != infos[n].cls
  }

  function Key(c: Command): bytes { Lower(c.verb) }

  /** The part of `commands` that walks the registry array. */
  method CollectCommands(infos: seq<ClassInfo>) returns (r: Entries)
    ensures r == Collect(infos)
  {
    var result: seq<Command> := [];
    var seen: set<nat> := {};
    var i := 0;
    assert infos[..0] == [];
    while i < |infos|
      invariant 0 <= i <= |infos|
      invariant seen == set k | 0 <= k < i && infos[k].isCommand :: infos[k].cls
      invariant Collect(infos[..i]) == Entries(result)
    {
      CollectStep(infos, i);
      var info := infos[i];
      if !info.isCommand || info.cls in seen {
        i := i + 1;
        continue;
      }
      seen := seen + {info.cls};
      i := i + 1;
      if !info.hasDefault {
        continue;
      }
      if info.verb.None? {
        CollectFailureStays(infos, i);
        return Fails(VerbUnreadable);
      }
      result := result + [Classify(info, info.verb.value)];
    }
    assert infos[..i] == infos;
    r := Entries(result);
  }

  lemma CollectStep(infos: seq<ClassInfo>, i: nat)
    requires i < |infos| && Collect(infos[..i]).Entries?
    ensures var before := Collect(infos[..i]);
      Collect(infos[..i + 1]) ==
      if !Fresh(infos, i) || !infos[i].hasDefault then before
      else if infos[i].verb.None? then Fails(VerbUnreadable)
      else Entries(before.commands + [Classify(infos[i], infos[i].verb.value)])
  {
    assert infos[..i + 1][..i] == infos[..i];
    assert Fresh(infos[..i + 1], i) == Fresh(infos, i);
  }

  lemma {:induction false} CollectFailureStays(infos: seq<ClassInfo>, i: nat)
    requires i <= |infos| && Collect(infos[..i]).Fails?
    ensures Collect(infos) == Collect(infos[..i])
    decreases |infos|
  {
    if i < |infos| {
      var n := |infos| - 1;
      assert infos[..n][..i] == infos[..i];
      CollectFailureStays(infos[..n], i);
    } else {
      assert infos[..i] == infos;
    }
  }

  method Commands(registry: Option<seq<ClassInfo>>) returns (r: Entries)
    ensures match Listed(registry)
      case Fails(why) => r == Fails(why)
      case Entries(all) => r.Entries? && Sorted(r.commands, Key) && multiset(r.commands) == multiset(all)
  {
    if registry.None? || |registry.value| == 0 || |registry.value| > 4096 {
      return Fails(RegistryUnreadable);
    }
    var collected := CollectCommands(registry.value);
    if collected.Fails? {
      return collected;
    }
    if collected.commands == [] {
      return Fails(NoCommands);
    }
    var sorted := SortBy(collected.commands, Key);
    r := Entries(sorted);
  }

  /** The commands the registry offers, up to the order the sort gives them. */
  function Listed(registry: Option<seq<ClassInfo>>): Entries {
    if registry.None? || |registry.value| == 0 || |registry.value| > 4096 then Fails(RegistryUnreadable)
    else match Collect(registry.value)
      case Fails(why) => Fails(why)
      case Entries(commands) => if commands == [] then Fails(NoCommands) else Entries(commands)
  }

  // ----- lookup -----

  /** The commands whose verb matches, letter case aside. */
  function Matching(commands: seq<Command>, wanted: bytes): seq<Command> {
    if commands == [] then []
    else (if Key(commands[0]) == wanted then [commands[0]] else []) + Matching(commands[1..], wanted)
  }

  method Find(commands: seq<Command>, wanted: bytes) returns (found: Option<Command>, ambiguous: bool)
    ensures ambiguous <==> |Matching(commands, wanted)| > 1
    ensures !ambiguous ==> found == if Matching(commands, wanted) == [] then None else Some(Matching(commands, wanted)[0])
  {
    found, ambiguous := None, false;
    var i := 0;
    assert commands[0..] == commands;
    while i < |commands|
      invariant 0 <= i <= |commands|
      invariant Matching(commands, wanted) ==
                (if found.None? then [] else [found.value]) + Matching(commands[i..], wanted)
    {
      assert commands[i..][1..] == commands[i + 1..];
      if Key(commands[i]) == wanted {
        if found.Some? {
          return found, true;
        }
        found := Some(commands[i]);
      }
      i := i + 1;
    }
  }

  lemma {:induction false} MatchingAppend(a: seq<Command>, b: seq<Command>, wanted: bytes)
    ensures Matching(a + b, wanted) == Matching(a, wanted) + Matching(b, wanted)
  {
    hide Key;
    if a == [] {
      assert a + b == b;
    } else {
      MatchingAppend(a[1..], b, wanted);
      assert (a + b)[1..] == a[1..] + b;
      Associative(if Key(a[0]) == wanted then [a[0]] else [], Matching(a[1..], wanted), Matching(b, wanted));
    }
  }

  function MatchOf(c: Command, wanted: bytes): seq<Command> { if Key(c) == wanted then [c] else [] }

  /** Taking one command out takes out its match. */
  lemma TakeOut(b: seq<Command>, i: nat, wanted: bytes)
    requires i < |b|
    ensures var rest := b[..i] + b[i + 1..];
      && multiset(b) == multiset{b[i]} + multiset(rest)
      && multiset(Matching(b, wanted)) == multiset(MatchOf(b[i], wanted)) + multiset(Matching(rest, wanted))
  {
    var tail := [b[i]] + b[i + 1..];
    assert b == b[..i] + tail;
    MatchingAppend(b[..i], b[i + 1..], wanted);
    MatchingAppend(b[..i], tail, wanted);
    assert tail[1..] == b[i + 1..];
    assert Matching(tail, wanted) == MatchOf(b[i], wanted) + Matching(b[i + 1..], wanted);
    hide Matching, MatchOf;
  }

  /** Sorting does not change which commands match. */
  lemma {:induction false} LookupIgnoresOrder(a: seq<Command>, b: seq<Command>, wanted: bytes)
    requires multiset(a) == multiset(b)
    ensures multiset(Matching(a, wanted)) == multiset(Matching(b, wanted))
    decreases |a|
  {
    if a == [] {
      assert |multiset(b)| == |b|;
    } else {
      hide *;
      var i := IndexOf(b, a[0]);
      var rest := b[..i] + b[i + 1..];
      TakeFirst(a, wanted);
      TakeOut(b, i, wanted);
      SameRest(multiset(a[1..]), multiset(rest), a[0]);
      LookupIgnoresOrder(a[1..], rest, wanted);
    }
  }

  lemma IndexOf<T>(xs: seq<T>, x: T) returns (i: nat)
    requires x in multiset(xs)
    ensures i < |xs| && xs[i] == x
  {
    i :| 0 <= i < |xs| && xs[i] == x;
  }

  lemma TakeFirst(a: seq<Command>, wanted: bytes)
    requires a != []
    ensures a[0] in multiset(a)
    ensures multiset(a) == multiset{a[0]} + multiset(a[1..])
    ensures multiset(Matching(a, wanted)) == multiset(MatchOf(a[0], wanted)) + multiset(Matching(a[1..], wanted))
  {
    FirstOf(a);
    assert Matching(a, wanted) == MatchOf(a[0], wanted) + Matching(a[1..], wanted);
    hide Matching, MatchOf;
  }

  lemma FirstOf<T>(a: seq<T>)
    requires a != []
    ensures a[0] in multiset(a) && multiset(a) == multiset{a[0]} + multiset(a[1..])
  {
    assert a == [a[0]] + a[1..];
  }

  lemma SameRest<T>(a: multiset<T>, b: multiset<T>, x: T)
    requires multiset{x} + a == multiset{x} + b
    ensures a == b
  {
    assert a == (multiset{x} + a) - multiset{x};
    assert b == (multiset{x} + b) - multiset{x};
  }

  // ----- argument counts -----

  /** The test in front of the call; true means a mismatch. */
  predicate CountMismatch(f: Flags, count: int) {
    || count < f.required
    || (f.repeating == 0 && count > f.declared)
    || (f.repeating != 0 && count > f.declared && (count - f.declared) % f.repeating != 0)
  }

  predicate SoundMetadata(f: Flags) {
    0 <= f.required <= f.declared <= 64 && 0 <= f.repeating <= f.declared
  }

  /** The counts a command takes: required to declared, or declared and whole repetitions. */
  ghost predicate CountAllowed(f: Flags, count: int) {
    || f.required <= count <= f.declared
    || exists k: nat :: count == f.declared + k * f.repeating
  }

  lemma CountMismatchExactly(f: Flags, count: int)
    requires SoundMetadata(f)
    ensures !CountMismatch(f, count) <==> CountAllowed(f, count)
  {
    if !CountMismatch(f, count) && count > f.declared {
      var k := (count - f.declared) / f.repeating;
      assert count == f.declared + k * f.repeating;
      assert k >= 0;
    }
    if k: nat :| count == f.declared + k * f.repeating {
      MultipleHasNoRemainder(k, f.repeating);
    }
  }

  lemma MultipleHasNoRemainder(k: nat, n: nat)
    ensures k * n >= 0
    ensures n == 0 ==> k * n == 0
    ensures n > 0 ==> (k * n) % n == 0
  {
    if n > 0 {
      var q, r := (k * n) / n, (k * n) % n;
      assert k * n == q * n + r;
      assert (k - q) * n == r;
      ProductBounds(k - q, n);
    }
  }

  lemma ProductBounds(a: int, n: nat)
    ensures a >= 1 ==> a * n >= n
    ensures a <= -1 ==> a * n + n <= 0
  {
  }

  // ----- the gate -----

  /** What a native handler does: it may fault, and replies, and scopes of other calls, may reach the hook before it ends. */
  datatype Native = Native(faults: bool, result: bool, body: C.Traffic)

  /** What `execute` finds in the engine when it looks. */
  datatype Environment = Environment(
    supportedBuild: bool, captureReady: bool,
    registry: Option<seq<ClassInfo>>,
    steamIds: Option<seq<bytes>>,   // of the live connected controllers; None when reflection fails
    pawn: bool, executor: bool,
    instanceValid: bool, instance: S.Key,
    native: Native)

  datatype Decision = Refuse(why: Refusal) | Invoke(command: Command)

  predicate Connected(steamIds: seq<bytes>, id: bytes) { SteamIdValid(id) && id in steamIds }

  predicate PlayersListed(steamIds: Option<seq<bytes>>) {
    steamIds.Some? && P.DistinctIds(P.WithSteamId(steamIds.value)) && |P.WithSteamId(steamIds.value)| <= 1024
  }

  /** The decision of `execute`, check by check in its order. */
  function Gate(latched: bool, request: D.Request, env: Environment): Decision {
    if latched then Refuse(Latched)
    else if !env.supportedBuild || !env.captureReady then Refuse(Unsupported)
    else match Listed(env.registry)
      case Fails(why) => Refuse(why)
      case Entries(all) =>
        var matching := Matching(all, Lower(request.verb));
        if |matching| > 1 then Refuse(Ambiguous)
        else if matching == [] then Refuse(NotFound)
        else if matching[0].support != Supported then Refuse(Unavailable(matching[0].support))
        else if CountMismatch(matching[0].flags, |request.arguments|) then Refuse(ArgumentCount)
        else TargetGate(matching[0], request, env)
  }

  /** The checks on the target player and the command instance. */
  function TargetGate(command: Command, request: D.Request, env: Environment): Decision {
    if !PlayersListed(env.steamIds) then Refuse(PlayersUnlisted)
    else if !Connected(env.steamIds.value, request.steamId) then Refuse(NotConnected)
    else if !env.pawn then Refuse(NoPawn)
    else if !env.executor then Refuse(NoExecutor)
    else if exists i :: 0 <= i < |request.arguments| && !WellFormed(request.arguments[i]) then Refuse(InvalidUtf8)
    else if !env.instanceValid then Refuse(BadInstance)
    else Invoke(command)
  }

  function CaptureFailedNote(): bytes {
    [NL] + (Ascii("error: command completed but reply capture") + Ascii(" failed; do not retry without checking state"))
  }

  function NoReplyNote(): bytes {
    Ascii("ok: native command returned true;") + Ascii(" no synchronous SCUM response")
  }

  function TruncatedNote(): bytes { [NL] + Ascii("[response truncated]") }

  function ReplyText(result: bool, b: S.Buffer): bytes {
    var r0 := if result then [] else Ascii("error: native command returned false");
    var r1 := if b.output != [] then r0 + (if r0 == [] then [] else [NL]) + b.output else r0;
    var r2 := if b.failed then r1 + CaptureFailedNote() else r1;
    var r3 := if b.cut then r2 + TruncatedNote() else r2;
    if r3 == [] then NoReplyNote() else r3
  }

  datatype Result = Refused(why: Refusal) | Raised | Completed(reply: bytes)

  datatype Invocation = Invocation(cls: nat, steamId: bytes, arguments: seq<bytes>)

  /** What the scope of the call has recorded when the handler ends. */
  function CapturedBy(env: Environment): S.Buffer {
    S.Recorded(env.instance, S.Own(C.Heard(env.native.body, env.instance), env.instance))
  }

  class Dispatcher {
    const hook: C.Hook
    var nativeFaulted: bool
    /** Every call of a native handler, in order. */
    ghost var invocations: seq<Invocation>

    constructor (hook: C.Hook)
      ensures this.hook == hook && !nativeFaulted && invocations == []
    {
      this.hook := hook;
      nativeFaulted := false;
      invocations := [];
    }

    method Execute(request: D.Request, env: Environment) returns (r: Result)
      requires hook.thread.Valid()
      modifies this, hook, hook.thread, hook.thread.scopes
      ensures hook.thread.Valid() && hook.thread.scopes == old(hook.thread.scopes)
      ensures hook.thread.Stack() == old(hook.thread.Stack())
      ensures match Gate(old(nativeFaulted), request, env)
        case Refuse(why) =>
          && r == Refused(why) && nativeFaulted == old(nativeFaulted) && invocations == old(invocations)
          && hook.forwarded == old(hook.forwarded)
        case Invoke(command) =>
          && nativeFaulted == env.native.faults
          && invocations == old(invocations) + [Invocation(command.cls, request.steamId, request.arguments)]
          && hook.forwarded == old(hook.forwarded) + C.PassedOn(env.native.body, env.instance)
          && r == if env.native.faults then Raised else Completed(ReplyText(env.native.result, CapturedBy(env)))
    {
      hide Listed, Matching, CountMismatch, TargetGate, ReplyText;
      if nativeFaulted {
        return Refused(Latched);
      }
      if !env.supportedBuild || !env.captureReady {
        return Refused(Unsupported);
      }
      var found := LookUp(env.registry, request.verb);
      if found.Refuse? {
        return Refused(found.why);
      }
      var command := found.command;
      if CountMismatch(command.flags, |request.arguments|) {
        return Refused(ArgumentCount);
      }
      var target := CheckTarget(command, request, env);
      if target.Refuse? {
        return Refused(target.why);
      }
      r := Call(target.command, request, env);
    }

    /** The guarded native call inside its own scope. */
    method Call(command: Command, request: D.Request, env: Environment) returns (r: Result)
      requires hook.thread.Valid() && !nativeFaulted
      modifies this, hook, hook.thread, hook.thread.scopes
      ensures hook.thread.Valid() && hook.thread.scopes == old(hook.thread.scopes)
      ensures hook.thread.Stack() == old(hook.thread.Stack())
      ensures nativeFaulted == env.native.faults
      ensures invocations == old(invocations) + [Invocation(command.cls, request.steamId, request.arguments)]
      ensures hook.forwarded == old(hook.forwarded) + C.PassedOn(env.native.body, env.instance)
      ensures r == if env.native.faults then Raised else Completed(ReplyText(env.native.result, CapturedBy(env)))
    {
      hide S.Recorded, S.Own, C.Heard, C.PassedOn, ReplyText;
      invocations := invocations + [Invocation(command.cls, request.steamId, request.arguments)];
      var captured := hook.Capture(env.instance, env.native.body);
      if env.native.faults {
        nativeFaulted := true;
        return Raised;
      }
      r := Completed(ReplyText(env.native.result, captured));
    }
  }

  /** The lookup of `execute`: the one supported command whose verb matches. */
  method LookUp(registry: Option<seq<ClassInfo>>, verb: bytes) returns (r: Decision)
    ensures match Listed(registry)
      case Fails(why) => r == Refuse(why)
      case Entries(all) =>
        var matching := Matching(all, Lower(verb));
        r == if |matching| > 1 then Refuse(Ambiguous)
             else if matching == [] then Refuse(NotFound)
             else if matching[0].support != Supported then Refuse(Unavailable(matching[0].support))
             else Invoke(matching[0])
  {
    hide Listed, Matching, Sorted;
    var entries := Commands(registry);
    if entries.Fails? {
      return Refuse(entries.why);
    }
    ghost var all := Listed(registry).commands;
    LookupIgnoresOrder(entries.commands, all, Lower(verb));
    SameMultiset(Matching(entries.commands, Lower(verb)), Matching(all, Lower(verb)));
    var found, ambiguous := Find(entries.commands, Lower(verb));
    if ambiguous {
      return Refuse(Ambiguous);
    }
    if found.None? {
      return Refuse(NotFound);
    }
    if found.value.support != Supported {
      return Refuse(Unavailable(found.value.support));
    }
    r := Invoke(found.value);
  }

  lemma SameMultiset<T>(a: seq<T>, b: seq<T>)
    requires multiset(a) == multiset(b)
    ensures |a| == |b|
    ensures |a| == 1 ==> a == b
  {
    assert |multiset(a)| == |a| && |multiset(b)| == |b|;
    if |a| == 1 {
      assert a == [a[0]] && b == [b[0]];
      assert b[0] in multiset(a);
    }
  }

  method CheckTarget(command: Command, request: D.Request, env: Environment) returns (r: Decision)
    ensures r == TargetGate(command, request, env)
  {
    hide P.Ascending, P.DistinctIds, WellFormed;
    if env.steamIds.None? {
      return Refuse(PlayersUnlisted);
    }
    var players := P.ConnectedPlayers(env.steamIds.value);
    if players.Failed? {
      return Refuse(PlayersUnlisted);
    }
    var connected := false;
    var i := 0;
    while i < |players.players|
      invariant 0 <= i <= |players.players|
      invariant connected <==> exists k :: 0 <= k < i && players.players[k].id == request.steamId
    {
      if players.players[i].id == request.steamId {
        connected := true;
      }
      i := i + 1;
    }
    ListedIffConnected(env.steamIds.value, players.players, request.steamId);
    if !connected {
      return Refuse(NotConnected);
    }
    if !env.pawn {
      return Refuse(NoPawn);
    }
    if !env.executor {
      return Refuse(NoExecutor);
    }
    if exists k :: 0 <= k < |request.arguments| && !WellFormed(request.arguments[k]) {
      return Refuse(InvalidUtf8);
    }
    if !env.instanceValid {
      return Refuse(BadInstance);
    }
    r := Invoke(command);
  }

  lemma ListedIffConnected(ids: seq<bytes>, players: seq<P.Player>, id: bytes)
    requires multiset(players) == multiset(P.WithSteamId(ids))
    ensures (exists k :: 0 <= k < |players| && players[k].id == id) <==> Connected(ids, id)
  {
    var all := P.WithSteamId(ids);
    if k :| 0 <= k < |players| && players[k].id == id {
      assert players[k] in multiset(all);
      var j :| 0 <= j < |all| && all[j] == players[k];
      ListedIsConnected(ids, j);
    }
    if Connected(ids, id) {
      var k := ConnectedIsListed(ids, id);
      assert all[k] in multiset(players);
      var j :| 0 <= j < |players| && players[j] == all[k];
    }
  }

  lemma {:induction false} ListedIsConnected(ids: seq<bytes>, k: nat)
    requires k < |P.WithSteamId(ids)|
    ensures Connected(ids, P.WithSteamId(ids)[k].id)
  {
    var n := |ids| - 1;
    if k < |P.WithSteamId(ids[..n])| {
      ListedIsConnected(ids[..n], k);
    }
  }

  lemma {:induction false} ConnectedIsListed(ids: seq<bytes>, id: bytes) returns (k: nat)
    requires Connected(ids, id)
    ensures k < |P.WithSteamId(ids)| && P.WithSteamId(ids)[k].id == id
  {
    var n := |ids| - 1;
    if id in ids[..n] {
      k := ConnectedIsListed(ids[..n], id);
    } else {
      k := |P.WithSteamId(ids[..n])|;
    }
  }
}
