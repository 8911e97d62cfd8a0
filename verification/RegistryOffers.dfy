/**
 * The execution gate in terms of what reflection says about the registered
 * classes: which class a request reaches, and why a request is refused.
 */
module RegistryOffers {
  import opened Bytes
  import opened Utf8
  import opened RegistryDispatch
  import opened RegistryGate
  import D = DispatchRequest

  /** Argument counts in order, switched on for a shipping server, and a native handler that was recognised. */
  predicate Usable(info: ClassInfo) {
    && info.flags.Some? && SoundCounts(info.flags.value)
    && info.flags.value.enabled && info.flags.value.shipping && info.flags.value.server
    && info.nativeVtable
  }

  predicate SoundCounts(f: Flags) {
    0 <= f.required <= f.declared && f.declared <= 64 && 0 <= f.repeating <= f.declared
  }

  /** A class is supported exactly when it is usable, and each other classification has its own cause. */
  lemma ClassifyExactly(info: ClassInfo, verb: bytes)
    ensures var c := Classify(info, verb);
      && c.cls == info.cls && c.verb == verb && (info.flags.Some? ==> c.flags == info.flags.value)
      && (c.support == Supported <==> Usable(info))
      && (c.support == MissingMetadata <==> info.flags.None?)
      && (c.support == ArgumentMetadata <==> info.flags.Some? && !SoundCounts(info.flags.value))
      && (c.support == DisabledOrClientOnly <==>
            && info.flags.Some? && SoundCounts(info.flags.value)
            && !(info.flags.value.enabled && info.flags.value.shipping && info.flags.value.server))
      && (c.support == NativeVtable <==>
            && info.flags.Some? && SoundCounts(info.flags.value)
            && info.flags.value.enabled && info.flags.value.shipping && info.flags.value.server
            && !info.nativeVtable)
  {
  }

  // ----- the offers of a registry -----

  /** The first occurrence of a command class that has a default object. */
  predicate Offers(infos: seq<ClassInfo>, n: nat) {
    && n < |infos| && infos[n].isCommand && infos[n].hasDefault
    && forall i :: 0 <= i < n ==> !(infos[i].isCommand && infos[i].cls == infos[n].cls)
  }

  /** Every offer has a verb that can be read. */
  ghost predicate VerbsRead(infos: seq<ClassInfo>) {
    forall n: nat :: Offers(infos, n) ==> infos[n].verb.Some?
  }

  /** An offer whose verb is `wanted`, letter case aside. */
  predicate OffersVerb(infos: seq<ClassInfo>, n: nat, wanted: bytes) {
    Offers(infos, n) && infos[n].verb.Some? && Lower(infos[n].verb.value) == wanted
  }

  ghost predicate OnlyOffer(infos: seq<ClassInfo>, n: nat, wanted: bytes) {
    OffersVerb(infos, n, wanted) && forall m: nat :: OffersVerb(infos, m, wanted) ==> m == n
  }

  lemma OffersInPrefix(infos: seq<ClassInfo>, m: nat, n: nat)
    requires n < m <= |infos|
    ensures Offers(infos[..m], n) == Offers(infos, n)
  {
  }

  lemma {:induction false} ListingSucceedsExactly(infos: seq<ClassInfo>)
    ensures Collect(infos).Entries? <==> VerbsRead(infos)
    ensures Collect(infos).Fails? ==> Collect(infos).why == VerbUnreadable
  {
    if infos != [] {
      var m: nat := |infos| - 1;
      ListingSucceedsExactly(infos[..m]);
      forall n: nat | n < m
        ensures Offers(infos[..m], n) == Offers(infos, n)
      {
        OffersInPrefix(infos, m, n);
      }
      assert Offers(infos, m) <==> Fresh(infos, m) && infos[m].hasDefault;
      hide Fresh, Classify, Offers;
      OffersAreInside(infos);
      OffersAreInside(infos[..m]);
    }
  }

  lemma OffersAreInside(infos: seq<ClassInfo>)
    ensures forall n: nat :: Offers(infos, n) ==> n < |infos|
  {
  }

  lemma OffersAreListed(infos: seq<ClassInfo>, n: nat, c: Command)
    ensures ListsAs(infos, n, c) <==> Offers(infos, n) && infos[n].verb.Some? && c == Classify(infos[n], infos[n].verb.value)
  {
    hide Classify;
  }

  lemma OffersDiffer(infos: seq<ClassInfo>, m: nat, n: nat)
    requires Offers(infos, m) && Offers(infos, n) && infos[m].cls == infos[n].cls
    ensures m == n
  {
  }

  /** The offer behind a listed command. */
  lemma OfferOf(infos: seq<ClassInfo>, c: Command) returns (n: nat)
    requires Collect(infos).Entries? && c in Collect(infos).commands
    ensures Offers(infos, n) && infos[n].verb.Some? && c == Classify(infos[n], infos[n].verb.value)
    ensures c.cls == infos[n].cls && Key(c) == Lower(infos[n].verb.value)
  {
    ListingIsTheRegistry(infos, c);
    n :| ListsAs(infos, n, c);
    OffersAreListed(infos, n, c);
    ClassifyExactly(infos[n], infos[n].verb.value);
    hide Classify, ListsAs, Offers, Collect;
  }

  /** The listed command of an offer. */
  lemma PlaceOf(infos: seq<ClassInfo>, n: nat) returns (i: nat)
    requires Collect(infos).Entries? && Offers(infos, n) && infos[n].verb.Some?
    ensures i < |Collect(infos).commands|
    ensures Collect(infos).commands[i] == Classify(infos[n], infos[n].verb.value)
  {
    var c := Classify(infos[n], infos[n].verb.value);
    OffersAreListed(infos, n, c);
    ListingIsTheRegistry(infos, c);
    hide Classify, ListsAs, Offers, Collect;
    assert c in Collect(infos).commands;
    i :| i < |Collect(infos).commands| && Collect(infos).commands[i] == c;
  }

  /** The only match of the listing is the only offer of the registry. */
  lemma MatchIsOffer(infos: seq<ClassInfo>, wanted: bytes, i: nat) returns (n: nat)
    requires Collect(infos).Entries? && OnlyMatch(Collect(infos).commands, i, wanted)
    ensures OnlyOffer(infos, n, wanted) && Collect(infos).commands[i] == Classify(infos[n], infos[n].verb.value)
  {
    hide Classify, Collect, Key;
    var all := Collect(infos).commands;
    n := OfferOf(infos, all[i]);
    forall m: nat | OffersVerb(infos, m, wanted)
      ensures m == n
    {
      var j := PlaceOf(infos, m);
      ClassifyExactly(infos[m], infos[m].verb.value);
      KeyOf(all[j]);
      assert j == i;
      OffersDiffer(infos, m, n);
    }
  }

  lemma KeyOf(c: Command)
    ensures Key(c) == Lower(c.verb)
  {
  }

  lemma OfferIsMatch(infos: seq<ClassInfo>, wanted: bytes, n: nat) returns (i: nat)
    requires Collect(infos).Entries? && OnlyOffer(infos, n, wanted)
    ensures OnlyMatch(Collect(infos).commands, i, wanted) && Collect(infos).commands[i] == Classify(infos[n], infos[n].verb.value)
  {
    hide Classify, Key;
    i := PlaceOf(infos, n);
    ClassesAreDistinct(infos);
    hide Collect;
    var all := Collect(infos).commands;
    ClassifyExactly(infos[n], infos[n].verb.value);
    KeyOf(all[i]);
    forall j | 0 <= j < |all| && j != i
      ensures Key(all[j]) != wanted
    {
      var m := OfferOf(infos, all[j]);
      assert all[j].cls != all[i].cls;
      assert !OffersVerb(infos, m, wanted);
    }
  }

  // ----- which class a request reaches -----

  /** The decision is to call the handler of the `n`-th class. */
  predicate Calls(decision: Decision, env: Environment, n: nat) {
    && decision.Invoke? && env.registry.Some? && Offers(env.registry.value, n)
    && decision.command.cls == env.registry.value[n].cls
  }

  /** The registry can be read: it has a sane size and all its offers have verbs. */
  ghost predicate RegistryRead(registry: Option<seq<ClassInfo>>) {
    registry.Some? && 1 <= |registry.value| <= 4096 && VerbsRead(registry.value)
  }

  /** All that must hold for a request to reach the handler of the `n`-th class of the registry. */
  ghost predicate Runnable(latched: bool, request: D.Request, env: Environment, n: nat) {
    && !latched && env.supportedBuild && env.captureReady
    && RegistryRead(env.registry)
    && OnlyOffer(env.registry.value, n, Lower(request.verb))
    && Usable(env.registry.value[n])
    && CountAllowed(env.registry.value[n].flags.value, |request.arguments|)
    && TargetReady(request, env)
  }

  lemma ListedExactly(registry: Option<seq<ClassInfo>>)
    ensures Listed(registry).Entries? <==> RegistryRead(registry) && exists n: nat :: Offers(registry.value, n)
    ensures Listed(registry).Entries? ==> Listed(registry).commands == Collect(registry.value).commands
    ensures Listed(registry).Fails? ==>
              if registry.None? || !(1 <= |registry.value| <= 4096) then Listed(registry).why == RegistryUnreadable
              else if !VerbsRead(registry.value) then Listed(registry).why == VerbUnreadable
              else Listed(registry).why == NoCommands
  {
    if registry.Some? && 1 <= |registry.value| <= 4096 {
      var infos := registry.value;
      ListingSucceedsExactly(infos);
      if Collect(infos).Entries? {
        hide Offers, Classify;
        if Collect(infos).commands != [] {
          var n := OfferOf(infos, Collect(infos).commands[0]);
        }
        if n: nat :| Offers(infos, n) {
          var i := PlaceOf(infos, n);
        }
        hide Collect;
      }
    }
  }

  /**
   * A request reaches the handler of a class exactly when the class is the only
   * one in the whole registry with that verb, is usable, takes that many
   * arguments, and the target is connected and ready; never after a fault.
   */
  lemma HandlerRunsExactlyWhen(latched: bool, request: D.Request, env: Environment, n: nat)
    ensures Calls(Gate(latched, request, env), env, n) <==> Runnable(latched, request, env, n)
  {
    hide *;
    if Calls(Gate(latched, request, env), env, n) {
      CalledIsRunnable(latched, request, env, n);
    }
    if Runnable(latched, request, env, n) {
      RunnableIsCalled(latched, request, env, n);
    }
  }

  lemma CalledIsRunnable(latched: bool, request: D.Request, env: Environment, n: nat)
    requires Calls(Gate(latched, request, env), env, n)
    ensures Runnable(latched, request, env, n)
  {
    hide Gate, Collect, Listed, Classify, TargetReady, CountAllowed, SoundCandidate, Usable, Key;
    var wanted := Lower(request.verb);
    var c := Gate(latched, request, env).command;
    ReachesExactly(latched, request, env, c);
    ListedExactly(env.registry);
    var infos := env.registry.value;
    var i :| OnlyMatch(Listed(env.registry).commands, i, wanted) && Listed(env.registry).commands[i] == c;
    ListingSucceedsExactly(infos);
    var m := MatchIsOffer(infos, wanted, i);
    ClassifyExactly(infos[m], infos[m].verb.value);
    OffersDiffer(infos, m, n);
    UsableHasFlags(infos[n]);
  }

  lemma UsableHasFlags(info: ClassInfo)
    ensures Usable(info) ==> info.flags.Some?
  {
  }

  lemma RunnableIsCalled(latched: bool, request: D.Request, env: Environment, n: nat)
    requires Runnable(latched, request, env, n)
    ensures Gate(latched, request, env) == Invoke(Classify(env.registry.value[n], env.registry.value[n].verb.value))
    ensures Calls(Gate(latched, request, env), env, n)
  {
    hide Gate, Collect, Listed, Classify, OnlyMatch, TargetReady, CountAllowed, Key;
    var wanted, infos := Lower(request.verb), env.registry.value;
    var c := Classify(infos[n], infos[n].verb.value);
    ListedExactly(env.registry);
    ListingSucceedsExactly(infos);
    var i := OfferIsMatch(infos, wanted, n);
    ClassifyExactly(infos[n], infos[n].verb.value);
    ReachesExactly(latched, request, env, c);
  }

  // ----- why a request is refused -----

  /** How many offers have the verb: none, one or more. */
  lemma MatchesExactly(infos: seq<ClassInfo>, wanted: bytes)
    requires Collect(infos).Entries?
    ensures var matching := Matching(Collect(infos).commands, wanted);
      && (matching == [] <==> forall n: nat :: !OffersVerb(infos, n, wanted))
      && (|matching| == 1 <==> exists n: nat :: OnlyOffer(infos, n, wanted))
      && (|matching| == 1 ==> forall n: nat :: OnlyOffer(infos, n, wanted) ==>
            matching[0] == Classify(infos[n], infos[n].verb.value))
  {
    var all := Collect(infos).commands;
    var matching := Matching(all, wanted);
    NoMatch(all, wanted);
    hide Collect, Classify, Matching, Key;
    forall n: nat | OffersVerb(infos, n, wanted)
      ensures matching != []
    {
      var i := PlaceOf(infos, n);
      ClassifyExactly(infos[n], infos[n].verb.value);
      KeyOf(all[i]);
    }
    forall i | 0 <= i < |all| && Key(all[i]) == wanted
      ensures exists n: nat :: OffersVerb(infos, n, wanted)
    {
      var n := OfferOf(infos, all[i]);
      assert OffersVerb(infos, n, wanted);
    }
    if |matching| == 1 {
      OneMatch(all, wanted, matching[0]);
      assert matching == [matching[0]];
      var i :| OnlyMatch(all, i, wanted) && all[i] == matching[0];
      var n := MatchIsOffer(infos, wanted, i);
    }
    forall n: nat | OnlyOffer(infos, n, wanted)
      ensures matching == [Classify(infos[n], infos[n].verb.value)]
    {
      var i := OfferIsMatch(infos, wanted, n);
      OneMatch(all, wanted, all[i]);
    }
  }

  /** The gate is open and the registry can be read and offers something. */
  ghost predicate PastRegistry(latched: bool, env: Environment) {
    && !latched && env.supportedBuild && env.captureReady && RegistryRead(env.registry)
    && exists n: nat :: Offers(env.registry.value, n)
  }

  /** The request names one usable class and has a number of arguments it takes. */
  ghost predicate PastCommand(latched: bool, request: D.Request, env: Environment) {
    && PastRegistry(latched, env)
    && exists n: nat ::
         && OnlyOffer(env.registry.value, n, Lower(request.verb)) && Usable(env.registry.value[n])
         && CountAllowed(env.registry.value[n].flags.value, |request.arguments|)
  }

  /** The refusals before the command is looked up, each with its exact cause. */
  lemma EarlyRefusalsExactly(latched: bool, request: D.Request, env: Environment)
    ensures var d := Gate(latched, request, env);
      && (d == Refuse(Latched) <==> latched)
      && (d == Refuse(Unsupported) <==> !latched && !(env.supportedBuild && env.captureReady))
      && (d == Refuse(RegistryUnreadable) <==>
            && !latched && env.supportedBuild && env.captureReady
            && !(env.registry.Some? && 1 <= |env.registry.value| <= 4096))
      && (d == Refuse(VerbUnreadable) <==>
            && !latched && env.supportedBuild && env.captureReady
            && env.registry.Some? && 1 <= |env.registry.value| <= 4096 && !VerbsRead(env.registry.value))
      && (d == Refuse(NoCommands) <==>
            && !latched && env.supportedBuild && env.captureReady
            && RegistryRead(env.registry) && forall n: nat :: !Offers(env.registry.value, n))
  {
    ListedExactly(env.registry);
    hide Listed, Matching, CountMismatch, Offers, VerbsRead, PlayersListed, Connected, WellFormed;
  }

  /** The refusals about the command, each with its exact cause. */
  lemma CommandRefusalsExactly(latched: bool, request: D.Request, env: Environment)
    ensures var d, wanted := Gate(latched, request, env), Lower(request.verb);
      && (d == Refuse(NotFound) <==>
            PastRegistry(latched, env) && forall n: nat :: !OffersVerb(env.registry.value, n, wanted))
      && (d == Refuse(Ambiguous) <==>
            && PastRegistry(latched, env)
            && (exists n: nat :: OffersVerb(env.registry.value, n, wanted))
            && !exists n: nat :: OnlyOffer(env.registry.value, n, wanted))
      && (forall why :: d == Refuse(Unavailable(why)) <==>
            && PastRegistry(latched, env) && why != Supported
            && exists n: nat :: OnlyOffer(env.registry.value, n, wanted)
                 && Classify(env.registry.value[n], env.registry.value[n].verb.value).support == why)
      && (d == Refuse(ArgumentCount) <==>
            && PastRegistry(latched, env)
            && exists n: nat :: OnlyOffer(env.registry.value, n, wanted) && Usable(env.registry.value[n])
                 && !CountAllowed(env.registry.value[n].flags.value, |request.arguments|))
  {
    var wanted := Lower(request.verb);
    ListedExactly(env.registry);
    if PastRegistry(latched, env) {
      var infos := env.registry.value;
      ListingSucceedsExactly(infos);
      MatchesExactly(infos, wanted);
      if n: nat :| OnlyOffer(infos, n, wanted) {
        ClassifyExactly(infos[n], infos[n].verb.value);
        if Usable(infos[n]) {
          CountMismatchExactly(infos[n].flags.value, |request.arguments|);
        }
        assert forall m: nat :: OnlyOffer(infos, m, wanted) ==> m == n;
      }
    }
    hide Listed, Collect, Matching, CountMismatch, Offers, VerbsRead, PlayersListed, Connected, WellFormed, Classify, CountAllowed, Usable;
  }

  /** The refusals about the target, in the order they are given, each with its exact cause. */
  lemma TargetRefusalsExactly(latched: bool, request: D.Request, env: Environment)
    ensures var d, past := Gate(latched, request, env), PastCommand(latched, request, env);
      var listed := PlayersListed(env.steamIds);
      && (d == Refuse(PlayersUnlisted) <==> past && !listed)
      && (d == Refuse(NotConnected) <==> past && listed && !(request.steamId in env.steamIds.value && SteamIdValid(request.steamId)))
      && (past && listed && Connected(env.steamIds.value, request.steamId) ==>
            && (d == Refuse(NoPawn) <==> !env.pawn)
            && (d == Refuse(NoExecutor) <==> env.pawn && !env.executor)
            && (d == Refuse(InvalidUtf8) <==>
                  && env.pawn && env.executor
                  && exists i :: 0 <= i < |request.arguments| && !WellFormed(request.arguments[i]))
            && (d == Refuse(BadInstance) <==>
                  && env.pawn && env.executor && !env.instanceValid
                  && forall i :: 0 <= i < |request.arguments| ==> WellFormed(request.arguments[i]))
            && (d.Invoke? <==> TargetReady(request, env)))
      && (d == Refuse(NoPawn) || d == Refuse(NoExecutor) || d == Refuse(InvalidUtf8) || d == Refuse(BadInstance) || d.Invoke? ==>
            past && listed && Connected(env.steamIds.value, request.steamId))
  {
    PastCommandExactly(latched, request, env);
    ListedExactly(env.registry);
    hide Listed, Matching, CountMismatch, PastCommand, PlayersListed, WellFormed;
  }

  /** What the gate has checked before it looks at the target. */
  lemma PastCommandExactly(latched: bool, request: D.Request, env: Environment)
    ensures PastCommand(latched, request, env) <==>
            && !latched && env.supportedBuild && env.captureReady && Listed(env.registry).Entries?
            && var matching := Matching(Listed(env.registry).commands, Lower(request.verb));
               |matching| == 1 && matching[0].support == Supported && !CountMismatch(matching[0].flags, |request.arguments|)
  {
    var wanted := Lower(request.verb);
    ListedExactly(env.registry);
    if PastRegistry(latched, env) {
      var infos := env.registry.value;
      ListingSucceedsExactly(infos);
      MatchesExactly(infos, wanted);
      if n: nat :| OnlyOffer(infos, n, wanted) {
        ClassifyExactly(infos[n], infos[n].verb.value);
        if Usable(infos[n]) {
          CountMismatchExactly(infos[n].flags.value, |request.arguments|);
        }
        assert forall m: nat :: OnlyOffer(infos, m, wanted) ==> m == n;
      }
    }
    hide Listed, Collect, Matching, CountMismatch, Offers, VerbsRead, Classify, CountAllowed, Usable;
  }
}
