/**
 * The request language: trimming, the one-pass quoting tokenizer with its
 * caps, and the routing of a token list to an action.
 */
module DispatchRequest {
  import opened Bytes

  const MAX_REQUEST: nat := 8192
  const MAX_TOKEN: nat := 4096
  const MAX_TOKENS: nat := 67

  datatype Action = Unknown | Invalid | Players | Commands | Execute | Weather | TimeOfDay

  datatype Reason =
    | NoReason | TooLong | Empty | Control | Delete | Oversized | Unterminated
    | UsageListPlayers | UsageWeather | UsageCommands | UsageExec | CommandName

  datatype Request = Request(action: Action, steamId: bytes, verb: bytes, filter: bytes, error: Reason, arguments: seq<bytes>)

  const BLANK: Request := Request(Unknown, [], [], [], NoReason, [])

  function Fail(r: Request, why: Reason): Request { r.(action := Invalid, error := why) }

  // ----- trimming -----

  predicate IsOuterBlank(c: byte) { c == SPACE || c == TAB || c == CR || c == NL }

  /** `find_first_not_of`: the length of the text if there is none. */
  function FirstVisible(text: bytes): (i: nat)
    ensures i <= |text|
    ensures forall k :: 0 <= k < i ==> IsOuterBlank(text[k])
    ensures i < |text| ==> !IsOuterBlank(text[i])
  {
    if text == [] || !IsOuterBlank(text[0]) then 0 else 1 + FirstVisible(text[1..])
  }

  /** One past `find_last_not_of`. */
  function LastVisible(text: bytes): (i: nat)
    ensures i <= |text|
    ensures forall k :: i <= k < |text| ==> IsOuterBlank(text[k])
    ensures i > 0 ==> !IsOuterBlank(text[i - 1])
  {
    if text == [] then 0
    else if !IsOuterBlank(text[|text| - 1]) then |text|
    else LastVisible(text[..|text| - 1])
  }

  function Trim(text: bytes): bytes {
    if FirstVisible(text) <= LastVisible(text) then text[FirstVisible(text)..LastVisible(text)] else []
  }

  method TrimText(text: bytes) returns (trimmed: bytes)
    ensures trimmed == Trim(text)
    ensures trimmed == [] <==> FirstVisible(text) == |text|
  {
    var first, last := 0, |text|;
    while first < |text| && IsOuterBlank(text[first])
      invariant first <= |text|
      invariant forall k :: 0 <= k < first ==> IsOuterBlank(text[k])
    {
      first := first + 1;
    }
    assert first == FirstVisible(text);
    if first == |text| {
      return [];
    }
    while IsOuterBlank(text[last - 1])
      invariant first < last <= |text|
      decreases last
      invariant forall k :: last <= k < |text| ==> IsOuterBlank(text[k])
    {
      last := last - 1;
    }
    assert last == LastVisible(text);
    trimmed := text[first..last];
  }

  /** Nothing but blanks, tabs, returns and newlines. */
  predicate OuterBlanks(t: bytes) {
    forall i :: 0 <= i < |t| ==> t[i] == ' ' as int || t[i] == '\t' as int || t[i] == '\r' as int || t[i] == '\n' as int
  }

  /** Trimming takes away outer blanks at both ends, and all of them. */
  lemma TrimExactly(text: bytes) returns (before: bytes, after: bytes)
    ensures text == before + Trim(text) + after && OuterBlanks(before) && OuterBlanks(after)
    ensures Trim(text) != [] ==> !OuterBlanks(Trim(text)[..1]) && !OuterBlanks(Trim(text)[|Trim(text)| - 1..])
    ensures Trim(text) == [] <==> OuterBlanks(text)
    ensures FirstVisible(text) == |text| <==> OuterBlanks(text)
  {
    hide FirstVisible, LastVisible;
    var first, last := FirstVisible(text), LastVisible(text);
    if first < |text| {
      assert first < last;
      var t := Trim(text);
      assert t[..1][0] == text[first] && t[|t| - 1..][0] == text[last - 1];
      before, after := text[..first], text[last..];
      assert text == before + t + after;
    } else {
      assert last == 0;
      before, after := text, [];
    }
  }

  // ----- the one-pass tokenizer -----

  predicate IsBlank(c: byte) { c == SPACE || c == TAB }

  /** The loop variables of the tokenizer. */
  datatype Scan = Scan(tokens: seq<bytes>, token: bytes, quoted: bool, started: bool)

  const START: Scan := Scan([], [], false, false)

  datatype Scanned = Tokens(tokens: seq<bytes>) | Bad(why: Reason)

  predicate IsEscape(s: Scan, text: bytes) {
    s.quoted && |text| > 1 && text[0] == BACKSLASH && (text[1] == QUOTE || text[1] == BACKSLASH)
  }

  function PushToken(s: Scan): Scan { Scan(s.tokens + [s.token], [], false, false) }

  function AddByte(s: Scan, c: byte): Scan { s.(token := s.token + [c], started := true) }

  /** The result of scanning `text` from the state `s`. */
  function Feed(s: Scan, text: bytes): Scanned
    decreases |text|, 1
  {
    if text == [] then Finish(s)
    else if text[0] < 32 && text[0] != TAB then Bad(Control)
    else if text[0] == DEL then Bad(Delete)
    else if text[0] == QUOTE then Feed(s.(quoted := !s.quoted, started := true), text[1..])
    else if IsEscape(s, text) then Checked(AddByte(s, text[1]), text[2..])
    else if !s.quoted && IsBlank(text[0]) then Checked(if s.started then PushToken(s) else s, text[1..])
    else Checked(AddByte(s, text[0]), text[1..])
  }

  predicate Oversize(s: Scan) { |s.token| > MAX_TOKEN || |s.tokens| > MAX_TOKENS }

  function Checked(s: Scan, text: bytes): Scanned
    decreases |text|, 2
  {
    if Oversize(s) then Bad(Oversized) else Feed(s, text)
  }

  function Finish(s: Scan): Scanned {
    if s.quoted then Bad(Unterminated)
    else
      var tokens := if s.started then s.tokens + [s.token] else s.tokens;
      if tokens == [] then Bad(Empty) else Tokens(tokens)
  }

  method Tokenize(text: bytes) returns (r: Scanned)
    ensures r == Feed(START, text)
  {
    var tokens: seq<bytes>, token: bytes := [], [];
    var quoted, started := false, false;
    var i := 0;
    assert text[0..] == text;
    while i < |text|
      invariant 0 <= i <= |text|
      invariant Feed(START, text) == Feed(Scan(tokens, token, quoted, started), text[i..])
    {
      FeedStep(Scan(tokens, token, quoted, started), text, i);
      var c := text[i];
      if c < 32 && c != TAB {
        return Bad(Control);
      }
      if c == DEL {
        return Bad(Delete);
      }
      if c == QUOTE {
        quoted, started := !quoted, true;
        i := i + 1;
        continue;
      }
      if quoted && c == BACKSLASH && i + 1 < |text| && (text[i + 1] == QUOTE || text[i + 1] == BACKSLASH) {
        i := i + 1;
        token, started := token + [text[i]], true;
      } else if !quoted && (c == SPACE || c == TAB) {
        if started {
          tokens := tokens + [token];
          token, started := [], false;
        }
      } else {
        token, started := token + [c], true;
      }
      if |token| > MAX_TOKEN || |tokens| > MAX_TOKENS {
        return Bad(Oversized);
      }
      i := i + 1;
    }
    assert text[i..] == [];
    if quoted {
      return Bad(Unterminated);
    }
    if started {
      tokens := tokens + [token];
    }
    r := if tokens == [] then Bad(Empty) else Tokens(tokens);
  }

  /** `Feed` on a suffix, in terms of the whole text. */
  lemma FeedStep(s: Scan, text: bytes, i: nat)
    requires i < |text|
    ensures text[i..][0] == text[i]
    ensures IsEscape(s, text[i..]) <==>
            s.quoted && i + 1 < |text| && text[i] == BACKSLASH && (text[i + 1] == QUOTE || text[i + 1] == BACKSLASH)
    ensures i + 1 < |text| ==> text[i..][1] == text[i + 1] && text[i..][2..] == text[i + 2..]
    ensures text[i..][1..] == text[i + 1..]
  {
  }

  // ----- routing -----

  function Unhashed(verb: bytes): bytes {
    if verb != [] && verb[0] == HASH then verb[1..] else verb
  }

  predicate IsNameByte(c: byte) { 97 <= c <= 122 || 65 <= c <= 90 || IsDigit(c) || c == 95 }

  predicate CommandNameValid(name: bytes) {
    name != [] && forall i :: 0 <= i < |name| ==> IsNameByte(name[i])
  }

  function Route(tokens: seq<bytes>): Request
    requires tokens != []
  {
    var verb := Unhashed(Lower(tokens[0]));
    if verb == Ascii("listplayers") then
      if |tokens| != 1 then Fail(BLANK, UsageListPlayers) else BLANK.(action := Players)
    else if verb == Ascii("getweather") || verb == Ascii("gettimeofday") then
      if |tokens| != 1 then Fail(BLANK, UsageWeather)
      else BLANK.(action := if verb == Ascii("getweather") then Weather else TimeOfDay)
    else if verb == Ascii("!commands") then
      if |tokens| > 2 then Fail(BLANK, UsageCommands)
      else BLANK.(action := Commands, filter := if |tokens| == 2 then Lower(tokens[1]) else [])
    else if verb == Ascii("!exec") then
      if |tokens| < 3 || |tokens| > MAX_TOKENS || !SteamIdValid(tokens[1]) then Fail(BLANK, UsageExec)
      else
        var r := BLANK.(action := Execute, steamId := tokens[1], verb := Unhashed(tokens[2]));
        if !CommandNameValid(r.verb) then Fail(r, CommandName) else r.(arguments := tokens[3..])
    else BLANK
  }

  /** `parse_dispatch_request` on the whole request text. */
  function Parse(text: bytes): Request {
    if |text| > MAX_REQUEST then Fail(BLANK, TooLong)
    else if FirstVisible(text) == |text| then Fail(BLANK, Empty)
    else match Feed(START, Trim(text))
      case Bad(why) => Fail(BLANK, why)
      case Tokens(tokens) => if tokens == [] then Fail(BLANK, Empty) else Route(tokens)
  }

  method ParseDispatchRequest(text: bytes) returns (r: Request)
    ensures r == Parse(text)
  {
    hide Feed;
    r := BLANK;
    if |text| > MAX_REQUEST {
      return Fail(r, TooLong);
    }
    var trimmed := TrimText(text);
    if trimmed == [] {
      return Fail(r, Empty);
    }
    var scanned := Tokenize(trimmed);
    if scanned.Bad? {
      return Fail(r, scanned.why);
    }
    if scanned.tokens == [] {
      return Fail(r, Empty);
    }
    r := RouteTokens(scanned.tokens);
  }

  method LowerAscii(s: bytes) returns (r: bytes)
    ensures r == Lower(s)
  {
    r := s;
    var i := 0;
    while i < |r|
      invariant 0 <= i <= |r| == |s|
      invariant forall k :: 0 <= k < i ==> r[k] == LowerByte(s[k])
      invariant forall k :: i <= k < |s| ==> r[k] == s[k]
    {
      if 65 <= r[i] <= 90 {
        r := r[i := r[i] + 32];
      }
      i := i + 1;
    }
  }

  method RouteTokens(tokens: seq<bytes>) returns (r: Request)
    requires tokens != []
    ensures r == Route(tokens)
  {
    r := BLANK;
    var verb := LowerAscii(tokens[0]);
    if verb != [] && verb[0] == HASH {
      verb := verb[1..];
    }
    if verb == Ascii("listplayers") {
      if |tokens| != 1 {
        return Fail(r, UsageListPlayers);
      }
      r := r.(action := Players);
    } else if verb == Ascii("getweather") || verb == Ascii("gettimeofday") {
      if |tokens| != 1 {
        return Fail(r, UsageWeather);
      }
      r := r.(action := if verb == Ascii("getweather") then Weather else TimeOfDay);
    } else if verb == Ascii("!commands") {
      if |tokens| > 2 {
        return Fail(r, UsageCommands);
      }
      r := r.(action := Commands);
      if |tokens| == 2 {
        var filter := LowerAscii(tokens[1]);
        r := r.(filter := filter);
      }
    } else if verb == Ascii("!exec") {
      if |tokens| < 3 || |tokens| > MAX_TOKENS || !SteamIdValid(tokens[1]) {
        return Fail(r, UsageExec);
      }
      r := r.(action := Execute, steamId := tokens[1], verb := tokens[2]);
      if r.verb != [] && r.verb[0] == HASH {
        r := r.(verb := r.verb[1..]);
      }
      if !CommandNameValid(r.verb) {
        return Fail(r, CommandName);
      }
      r := r.(arguments := tokens[3..]);
    }
  }

  /** A command name is a word of ASCII letters, digits and underscores. */
  lemma CommandNameExactly(name: bytes)
    ensures CommandNameValid(name) <==>
            name != [] &&
            forall i :: 0 <= i < |name| ==>
              || 'a' as int <= name[i] <= 'z' as int || 'A' as int <= name[i] <= 'Z' as int
              || '0' as int <= name[i] <= '9' as int || name[i] == '_' as int
  {
  }

  /** The token spells the verb, in any case, with or without one hash in front. */
  predicate Spells(token: bytes, verb: bytes) { Lower(token) == verb || Lower(token) == [HASH] + verb }

  lemma SpellsExactly(token: bytes, verb: bytes)
    requires verb != [] && verb[0] != HASH
    ensures Spells(token, verb) <==> Unhashed(Lower(token)) == verb
  {
    var t := Lower(token);
    if t != [] && t[0] == HASH {
      assert t == [HASH] + t[1..];
      assert ([HASH] + verb)[1..] == verb;
    }
  }

  /** The five verbs are different words, none with a hash. */
  lemma VerbsDiffer()
    ensures Ascii("listplayers")[0] != HASH && Ascii("getweather")[0] != HASH && Ascii("gettimeofday")[0] != HASH
    ensures Ascii("!commands")[0] != HASH && Ascii("!exec")[0] != HASH
  {
  }

  /** Which token lists lead to which action, and nothing else does. */
  lemma RouteExactly(tokens: seq<bytes>)
    requires tokens != []
    ensures var r := Route(tokens);
      && (r.action == Players <==> Spells(tokens[0], Ascii("listplayers")) && |tokens| == 1)
      && (r.action == Weather <==> Spells(tokens[0], Ascii("getweather")) && |tokens| == 1)
      && (r.action == TimeOfDay <==> Spells(tokens[0], Ascii("gettimeofday")) && |tokens| == 1)
      && (r.action == Commands <==> Spells(tokens[0], Ascii("!commands")) && |tokens| <= 2)
      && (r.action == Execute <==>
            && Spells(tokens[0], Ascii("!exec")) && 3 <= |tokens| <= 67
            && SteamIdValid(tokens[1]) && CommandNameValid(Unhashed(tokens[2])))
      && (r.action == Execute ==> r.steamId == tokens[1] && r.arguments == tokens[3..] && r.verb == Unhashed(tokens[2]))
      && (r.action == Commands ==> r.filter == if |tokens| == 2 then Lower(tokens[1]) else [])
  {
    VerbsDiffer();
    SpellsExactly(tokens[0], Ascii("listplayers"));
    SpellsExactly(tokens[0], Ascii("getweather"));
    SpellsExactly(tokens[0], Ascii("gettimeofday"));
    SpellsExactly(tokens[0], Ascii("!commands"));
    SpellsExactly(tokens[0], Ascii("!exec"));
    hide Spells, Ascii, Lower, Unhashed, CommandNameValid, SteamIdValid;
  }

  /** Why a token list is turned away, each reason with its exact cause; an unknown verb is no error. */
  lemma RouteRefusesExactly(tokens: seq<bytes>)
    requires tokens != []
    ensures var r := Route(tokens);
      var exec := Spells(tokens[0], Ascii("!exec"));
      var counted := 3 <= |tokens| <= 67 && SteamIdValid(tokens[1]);
      && (r.action == Invalid <==> r.error != NoReason)
      && (r.error == UsageListPlayers <==> Spells(tokens[0], Ascii("listplayers")) && |tokens| != 1)
      && (r.error == UsageWeather <==>
            (Spells(tokens[0], Ascii("getweather")) || Spells(tokens[0], Ascii("gettimeofday"))) && |tokens| != 1)
      && (r.error == UsageCommands <==> Spells(tokens[0], Ascii("!commands")) && |tokens| > 2)
      && (r.error == UsageExec <==> exec && !counted)
      && (r.error == CommandName <==> exec && counted && !CommandNameValid(Unhashed(tokens[2])))
      && (r.action == Unknown <==>
            && !Spells(tokens[0], Ascii("listplayers")) && !Spells(tokens[0], Ascii("getweather"))
            && !Spells(tokens[0], Ascii("gettimeofday")) && !Spells(tokens[0], Ascii("!commands")) && !exec)
  {
    VerbsDiffer();
    LiteralsDiffer();
    SpellsExactly(tokens[0], Ascii("listplayers"));
    SpellsExactly(tokens[0], Ascii("getweather"));
    SpellsExactly(tokens[0], Ascii("gettimeofday"));
    SpellsExactly(tokens[0], Ascii("!commands"));
    SpellsExactly(tokens[0], Ascii("!exec"));
    hide Spells, Ascii, Lower, Unhashed, CommandNameValid, SteamIdValid;
  }

  lemma LiteralsDiffer()
    ensures |Ascii("listplayers")| == 11 && |Ascii("getweather")| == 10 && |Ascii("gettimeofday")| == 12
    ensures |Ascii("!commands")| == 9 && |Ascii("!exec")| == 5
  {
  }

  // ----- rejections -----

  /** A byte no request may contain: a control other than tab, or DEL. */
  predicate Forbidden(c: byte) { (c < ' ' as int && c != '\t' as int) || c == 127 }

  /** Where the first forbidden byte is; the length of the text if there is none. */
  function FirstForbidden(text: bytes): (i: nat)
    ensures i <= |text| && (i < |text| ==> Forbidden(text[i]))
    ensures forall k :: 0 <= k < i ==> !Forbidden(text[k])
  {
    if text == [] || Forbidden(text[0]) then 0 else 1 + FirstForbidden(text[1..])
  }

  /** Whether the quote is open after `text`, if it was `open` before; escapes count only inside quotes. */
  predicate QuoteOpen(open: bool, text: bytes)
    decreases |text|
  {
    if text == [] then open
    else if text[0] == QUOTE then QuoteOpen(!open, text[1..])
    else if open && |text| > 1 && text[0] == BACKSLASH && (text[1] == QUOTE || text[1] == BACKSLASH) then QuoteOpen(open, text[2..])
    else QuoteOpen(open, text[1..])
  }

  /**
   * What a rejection says is true of the text: the first forbidden byte is a
   * control or a DEL, the quote is still open, there is no word, or there is
   * room for a token of more than 4096 bytes or for more than 67 tokens.
   */
  lemma {:induction false} RejectionIsTrue(s: Scan, text: bytes)
    requires |s.tokens| <= MAX_TOKENS && |s.token| <= MAX_TOKEN
    ensures var r := Feed(s, text);
      r.Bad? ==>
        var i := FirstForbidden(text);
        && r.why in {Control, Delete, Unterminated, Empty, Oversized}
        && (r.why == Control ==> i < |text| && text[i] != 127)
        && (r.why == Delete ==> i < |text| && text[i] == 127)
        && (r.why == Unterminated ==> i == |text| && QuoteOpen(s.quoted, text))
        && (r.why == Empty ==> s.tokens == [] && !s.started && forall k :: 0 <= k < |text| ==> IsBlank(text[k]))
        && (r.why == Oversized ==>
              |s.token| + |text| > 4096 || 2 * |s.tokens| + (if s.started then 1 else 0) + |text| >= 136)
    decreases |text|
  {
    if text != [] && !Forbidden(text[0]) {
      var rest := text[1..];
      assert forall k :: 1 <= k < |text| ==> text[k] == rest[k - 1];
      if text[0] == QUOTE {
        RejectionIsTrue(s.(quoted := !s.quoted, started := true), rest);
      } else if IsEscape(s, text) {
        if !Oversize(AddByte(s, text[1])) {
          RejectionIsTrue(AddByte(s, text[1]), text[2..]);
          assert rest[1..] == text[2..] && !Forbidden(rest[0]);
        }
      } else if !s.quoted && IsBlank(text[0]) {
        var s1 := if s.started then PushToken(s) else s;
        if !Oversize(s1) {
          RejectionIsTrue(s1, rest);
        }
      } else if !Oversize(AddByte(s, text[0])) {
        RejectionIsTrue(AddByte(s, text[0]), rest);
      }
    }
  }

  /** The answer to a whole request, stage by stage. */
  lemma ParseExactly(text: bytes)
    ensures var r := Parse(text);
      && (r.error == TooLong <==> |text| > 8192)
      && (|text| <= 8192 && OuterBlanks(text) ==> r.action == Invalid && r.error == Empty)
      && (|text| <= 8192 && !OuterBlanks(text) ==>
            match Feed(START, Trim(text))
            case Bad(why) => r.action == Invalid && r.error == why
            case Tokens(tokens) => tokens != [] && r == Route(tokens))
  {
    var before, after := TrimExactly(text);
    if |text| <= 8192 && !OuterBlanks(text) {
      var r := Feed(START, Trim(text));
      RejectionIsTrue(START, Trim(text));
      hide Feed;
      NeverEmpty(START, Trim(text));
      if r.Tokens? {
        RouteRefusesExactly(r.tokens);
        RouteIsNotTooLong(r.tokens);
      }
    }
    hide Feed, Route, Trim, FirstVisible, OuterBlanks;
  }

  lemma RouteIsNotTooLong(tokens: seq<bytes>)
    requires tokens != []
    ensures Route(tokens).error != TooLong
  {
    hide Ascii, Lower, Unhashed, CommandNameValid, SteamIdValid;
  }

  lemma {:induction false} NeverEmpty(s: Scan, text: bytes)
    ensures Feed(s, text) != Tokens([])
    decreases |text|
  {
    if text != [] {
      NeverEmpty(s.(quoted := !s.quoted, started := true), text[1..]);
      if |text| > 1 { NeverEmpty(AddByte(s, text[1]), text[2..]); }
      NeverEmpty(PushToken(s), text[1..]);
      NeverEmpty(s, text[1..]);
      NeverEmpty(AddByte(s, text[0]), text[1..]);
    }
  }
}
