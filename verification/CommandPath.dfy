/**
 * From the text of a command to a native handler: the authority check, the
 * GodMode parser first, then the dispatcher's parser and its execution gate.
 */
module CommandPath {
  import opened Bytes
  import opened CommandQueue
  import opened RegistryDispatch
  import opened RegistryGate
  import opened RegistryOffers
  import D = DispatchRequest
  import G = GodmodeRequest
  import T = RequestRoundTrip

  /** Where a text goes; GodMode requests and queries are answered from the engine. */
  datatype Answer =
    | NoRconAuthority | Uninitialized
    | Godmode(godmode: G.Request)
    | NotExecute(request: D.Request)
    | Ran(result: Result)

  /** An authorised text that both parsers let through to the execution gate. */
  predicate IsExecute(text: bytes, authority: Authority, initialized: bool) {
    IsRconAuthorized(authority) && initialized && D.Parse(text).action == D.Execute
  }

  /**
   * `dispatch_command`: handlers are called for execute requests only, as the
   * gate decides; the GodMode parser, tried first, takes none of them away.
   */
  method DispatchCommand(dispatcher: Dispatcher, text: bytes, authority: Authority, initialized: bool, env: Environment)
    returns (answer: Answer)
    requires dispatcher.hook.thread.Valid()
    modifies dispatcher, dispatcher.hook, dispatcher.hook.thread, dispatcher.hook.thread.scopes
    ensures dispatcher.hook.thread.Valid() && dispatcher.hook.thread.Stack() == old(dispatcher.hook.thread.Stack())
    ensures IsExecute(text, authority, initialized) ==>
              var decision := Gate(old(dispatcher.nativeFaulted), D.Parse(text), env);
              && dispatcher.nativeFaulted == (if decision.Invoke? then env.native.faults else old(dispatcher.nativeFaulted))
              && dispatcher.invocations == old(dispatcher.invocations) + CalledBy(decision, D.Parse(text))
              && answer == Ran(ResultOf(decision, env))
    ensures !IsExecute(text, authority, initialized) ==>
              && dispatcher.nativeFaulted == old(dispatcher.nativeFaulted)
              && dispatcher.invocations == old(dispatcher.invocations)
              && !answer.Ran?
  {
    hide D.Parse, Gate, ReplyText, CapturedBy, G.Words, G.Meaning;
    if !IsRconAuthorized(authority) {
      return NoRconAuthority;
    }
    if !initialized {
      return Uninitialized;
    }
    var godmode := G.Parse(text);
    if godmode.action != G.Unrelated {
      G.ParsersNeverCompete(text);
      return Godmode(godmode);
    }
    var request := D.ParseDispatchRequest(text);
    if request.action != D.Execute {
      return NotExecute(request);
    }
    var result := dispatcher.Execute(request, env);
    answer := Ran(result);
  }

  /** An execute request as a client writes it. */
  function ExecText(id: bytes, name: bytes, hashed: bool, arguments: seq<bytes>): bytes {
    T.Print([Ascii("!exec"), id, if hashed then [HASH] + name else name] + arguments)
  }

  /** What a client may ask for: any command name, any printable arguments, within the caps. */
  predicate Askable(id: bytes, name: bytes, hashed: bool, arguments: seq<bytes>) {
    && SteamIdValid(id) && D.CommandNameValid(name) && |name| + (if hashed then 1 else 0) <= D.MAX_TOKEN
    && |arguments| <= 64
    && (forall i :: 0 <= i < |arguments| ==> |arguments[i]| <= D.MAX_TOKEN && T.Printable(arguments[i]))
    && |ExecText(id, name, hashed, arguments)| <= D.MAX_REQUEST
  }

  function ExecRequest(id: bytes, name: bytes, arguments: seq<bytes>): D.Request {
    D.Request(D.Execute, id, name, [], D.NoReason, arguments)
  }

  /**
   * A request a client may ask for calls the handler of the `n`-th class, for
   * that player and with exactly those arguments, if and only if it is runnable.
   */
  lemma AskedIsCalledExactly(latched: bool, id: bytes, name: bytes, hashed: bool, arguments: seq<bytes>, env: Environment, n: nat)
    requires Askable(id, name, hashed, arguments)
    ensures var request := D.Parse(ExecText(id, name, hashed, arguments));
      var decision := Gate(latched, request, env);
      && request == ExecRequest(id, name, arguments)
      && (Calls(decision, env, n) <==> Runnable(latched, ExecRequest(id, name, arguments), env, n))
      && (Calls(decision, env, n) ==>
            CalledBy(decision, request) == [Invocation(env.registry.value[n].cls, id, arguments)])
  {
    T.ExecRoundTrip(id, name, hashed, arguments);
    HandlerRunsExactlyWhen(latched, ExecRequest(id, name, arguments), env, n);
    hide D.Parse, Gate, Runnable, T.Print, SteamIdValid, D.CommandNameValid, T.Printable, Offers;
  }

  /** From the client's words to the handler: one call, of the right class, for the right player, with the arguments as written. */
  method AskAndRun(dispatcher: Dispatcher, id: bytes, name: bytes, hashed: bool, arguments: seq<bytes>, env: Environment, ghost n: nat)
    returns (answer: Answer)
    requires Askable(id, name, hashed, arguments) && Runnable(dispatcher.nativeFaulted, ExecRequest(id, name, arguments), env, n)
    requires dispatcher.hook.thread.Valid()
    modifies dispatcher, dispatcher.hook, dispatcher.hook.thread, dispatcher.hook.thread.scopes
    ensures env.registry.Some? && n < |env.registry.value|
    ensures dispatcher.invocations == old(dispatcher.invocations) + [Invocation(env.registry.value[n].cls, id, arguments)]
    ensures answer == Ran(if env.native.faults then Raised else Completed(ReplyText(env.native.result, CapturedBy(env))))
  {
    hide D.Parse, Gate, Runnable, Askable, ExecText, ReplyText, CapturedBy;
    AskedIsCalledExactly(dispatcher.nativeFaulted, id, name, hashed, arguments, env, n);
    answer := DispatchCommand(dispatcher, ExecText(id, name, hashed, arguments), AuthenticatedRcon, true, env);
  }
}
