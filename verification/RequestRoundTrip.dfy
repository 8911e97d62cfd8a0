/**
 * What the grammar gives a client: quoting any token list and sending it gets
 * exactly that list back, and blanks between and around words do not matter.
 */
module RequestRoundTrip {
  import opened Bytes
  import opened DispatchRequest
  import opened RequestGrammar

  // ----- canonical quoting -----

  function Escape(t: bytes): bytes {
    if t == [] then []
    else (if t[0] == QUOTE || t[0] == BACKSLASH then [BACKSLASH, t[0]] else [t[0]]) + Escape(t[1..])
  }

  function Quote(t: bytes): bytes { [QUOTE] + (Escape(t) + [QUOTE]) }

  /** The tokens, each in double quotes, one blank in between. */
  function Print(tokens: seq<bytes>): bytes {
    if tokens == [] then []
    else if |tokens| == 1 then Quote(tokens[0])
    else Quote(tokens[0]) + ([SPACE] + Print(tokens[1..]))
  }

  /** No control characters except tab, and no DEL. */
  predicate Printable(t: bytes) { forall i :: 0 <= i < |t| ==> IsCharacter(t[i]) }

  predicate Quotable(tokens: seq<bytes>) {
    && 0 < |tokens| <= MAX_TOKENS + 1
    && forall i :: 0 <= i < |tokens| ==> |tokens[i]| <= MAX_TOKEN && Printable(tokens[i])
  }

  function Items(t: bytes): seq<Item> {
    if t == [] then []
    else [if t[0] == QUOTE || t[0] == BACKSLASH then Escaped(t[0]) else Plain(t[0])] + Items(t[1..])
  }

  function Derivation(tokens: seq<bytes>, glued: bool): Line {
    if tokens == [] then End([])
    else Word(if glued then [SPACE] else [], [Quoted(Items(tokens[0]))], Derivation(tokens[1..], true))
  }

  lemma {:induction false} ItemsOfToken(t: bytes)
    requires Printable(t)
    ensures GoodItems(Items(t)) && ItemsText(Items(t)) == Escape(t) && ItemsValue(Items(t)) == t
  {
    if t != [] {
      ItemsOfToken(t[1..]);
      assert Items(t)[1..] == Items(t[1..]);
      assert [t[0]] + t[1..] == t;
    }
  }

  lemma QuotedPiece(t: bytes)
    requires Printable(t)
    ensures var pieces := [Quoted(Items(t))];
      GoodPieces(pieces) && PiecesText(pieces) == Quote(t) && PiecesValue(pieces) == t
  {
    ItemsOfToken(t);
    var pieces := [Quoted(Items(t))];
    hide Items, Escape;
    assert pieces[1..] == [];
    assert GoodPieces([]);
    assert PieceText(pieces[0]) + [] == Quote(t);
    assert ItemsValue(Items(t)) + [] == t;
  }

  lemma {:induction false} DerivationOfTokens(tokens: seq<bytes>, glued: bool)
    requires forall i :: 0 <= i < |tokens| ==> Printable(tokens[i])
    ensures var line := Derivation(tokens, glued);
      && GoodLine(line, glued) && LineTokens(line) == tokens && !EndsBlank(line)
      && LineText(line) == (if glued && tokens != [] then [SPACE] else []) + Print(tokens)
  {
    if tokens != [] {
      QuotedPiece(tokens[0]);
      hide GoodPieces, PiecesText, PiecesValue, Quote, Printable, EndsBlank;
      var rest := Derivation(tokens[1..], true);
      DerivationOfTokens(tokens[1..], true);
      assert [tokens[0]] + tokens[1..] == tokens;
      assert Quote(tokens[0]) + LineText(rest) == Print(tokens) by {
        if |tokens| == 1 {
          assert tokens[1..] == [];
          assert Quote(tokens[0]) + [] == Quote(tokens[0]);
        }
      }
    }
  }

  /** Printing and then tokenizing gives back exactly the tokens, empty ones and those with blanks, quotes or backslashes too. */
  lemma TokenizerRoundTrip(tokens: seq<bytes>)
    requires Quotable(tokens)
    ensures Feed(START, Print(tokens)) == Tokens(tokens)
  {
    DerivationOfTokens(tokens, false);
    var line := Derivation(tokens, false);
    hide Feed, Derivation, Print, Printable;
    assert [] + Print(tokens) == Print(tokens);
    var x := Suffix([], [], line);
    assert [] + LineTokens(line) == LineTokens(line);
    FeedDerivation(START, x);
  }

  lemma {:induction false} PrintIsQuoted(tokens: seq<bytes>)
    requires tokens != []
    ensures var t := Print(tokens); |t| > 1 && t[0] == QUOTE && t[|t| - 1] == QUOTE
  {
    if |tokens| > 1 {
      PrintIsQuoted(tokens[1..]);
    }
  }

  lemma TrimVisible(text: bytes)
    requires text != [] && !IsOuterBlank(text[0]) && !IsOuterBlank(text[|text| - 1])
    ensures FirstVisible(text) == 0 && Trim(text) == text
  {
    assert LastVisible(text) == |text|;
  }

  /** A whole request made from printed tokens is routed on exactly those tokens. */
  lemma RequestRoundTrip(tokens: seq<bytes>)
    requires Quotable(tokens) && |Print(tokens)| <= MAX_REQUEST
    ensures Parse(Print(tokens)) == Route(tokens)
  {
    PrintIsQuoted(tokens);
    TrimVisible(Print(tokens));
    TokenizerRoundTrip(tokens);
    hide Feed, Print, Route, Trim, FirstVisible, Quotable;
  }

  /**
   * An execute request built from a SteamID, a command name, with or without
   * its hash, and up to 64 arguments reaches the dispatcher as just that.
   */
  lemma ExecRoundTrip(id: bytes, name: bytes, hashed: bool, arguments: seq<bytes>)
    requires SteamIdValid(id) && CommandNameValid(name) && |name| + (if hashed then 1 else 0) <= MAX_TOKEN
    requires |arguments| <= 64
    requires forall i :: 0 <= i < |arguments| ==> |arguments[i]| <= MAX_TOKEN && Printable(arguments[i])
    requires var verb := if hashed then [HASH] + name else name;
      |Print([Ascii("!exec"), id, verb] + arguments)| <= MAX_REQUEST
    ensures var verb := if hashed then [HASH] + name else name;
      Parse(Print([Ascii("!exec"), id, verb] + arguments)) == Request(Execute, id, name, [], NoReason, arguments)
  {
    var verb := if hashed then [HASH] + name else name;
    var tokens := [Ascii("!exec"), id, verb] + arguments;
    ExecLiteral();
    VerbOfName(name, hashed);
    assert Printable(id);
    hide Ascii, Lower, Unhashed, Printable;
    assert tokens[3..] == arguments;
    assert Quotable(tokens);
    assert Route(tokens) == Request(Execute, id, name, [], NoReason, arguments) by {
      RouteOfExec(tokens);
    }
    hide *;
    RequestRoundTrip(tokens);
  }

  lemma ExecLiteral()
    ensures Printable(Ascii("!exec")) && |Ascii("!exec")| == 5
    ensures Lower(Ascii("!exec")) == Ascii("!exec") && Unhashed(Ascii("!exec")) == Ascii("!exec")
  {
    assert Ascii("!exec") == [33, 101, 120, 101, 99];
  }

  lemma VerbOfName(name: bytes, hashed: bool)
    requires CommandNameValid(name)
    ensures var verb := if hashed then [HASH] + name else name; Unhashed(verb) == name && Printable(verb)
  {
  }

  lemma RouteOfExec(tokens: seq<bytes>)
    requires 3 <= |tokens| <= MAX_TOKENS && Unhashed(Lower(tokens[0])) == Ascii("!exec")
    requires SteamIdValid(tokens[1]) && CommandNameValid(Unhashed(tokens[2]))
    ensures Route(tokens) == Request(Execute, tokens[1], Unhashed(tokens[2]), [], NoReason, tokens[3..])
  {
    hide CommandNameValid, SteamIdValid, Lower, Unhashed;
  }

  // ----- blanks -----

  lemma FirstVisibleIs(text: bytes, i: nat)
    requires i < |text| && !IsOuterBlank(text[i]) && forall k :: 0 <= k < i ==> IsOuterBlank(text[k])
    ensures FirstVisible(text) == i
  {
    hide IsOuterBlank;
  }

  lemma LastVisibleIs(text: bytes, i: nat)
    requires 0 < i <= |text| && !IsOuterBlank(text[i - 1]) && forall k :: i <= k < |text| ==> IsOuterBlank(text[k])
    ensures LastVisible(text) == i
  {
    hide IsOuterBlank;
  }

  lemma TrimInside(before: bytes, text: bytes, after: bytes)
    requires forall i :: 0 <= i < |before| ==> IsOuterBlank(before[i])
    requires forall i :: 0 <= i < |after| ==> IsOuterBlank(after[i])
    ensures var whole := before + text + after;
      && (FirstVisible(whole) == |whole| <==> FirstVisible(text) == |text|)
      && (FirstVisible(text) != |text| ==> Trim(whole) == Trim(text))
  {
    hide FirstVisible, LastVisible, IsOuterBlank;
    var whole := before + text + after;
    var first, last := FirstVisible(text), LastVisible(text);
    if first == |text| {
      assert forall k :: 0 <= k < |whole| ==> IsOuterBlank(whole[k]);
    } else {
      assert first < last;
      assert whole[|before| + first] == text[first] && whole[|before| + last - 1] == text[last - 1];
      FirstVisibleIs(whole, |before| + first);
      LastVisibleIs(whole, |before| + last);
      assert whole[|before| + first..|before| + last] == text[first..last];
    }
  }

  /** Blanks, tabs and line ends around a request change nothing. */
  lemma OuterBlanksDoNotMatter(before: bytes, text: bytes, after: bytes)
    requires OuterBlanks(before) && OuterBlanks(after)
    requires |before + text + after| <= 8192
    ensures Parse(before + text + after) == Parse(text)
  {
    hide Feed, FirstVisible, Trim, Route;
    TrimInside(before, text, after);
  }

  /** Outside quotes a run of blanks, however long, is one separator. */
  lemma {:induction false} FeedRun(s: Scan, run: bytes, rest: bytes)
    requires !s.quoted && run != [] && AllBlank(run)
    ensures Feed(s, run + rest) == Checked(if s.started then PushToken(s) else s, rest)
    decreases |run|
  {
    var s1 := if s.started then PushToken(s) else s;
    FeedBlank(s, run[0], run[1..] + rest);
    assert run + rest == [run[0]] + (run[1..] + rest);
    hide Feed;
    if |run| == 1 {
      assert run[1..] + rest == rest;
    } else if !Oversize(s1) {
      FeedRun(s1, run[1..], rest);
    }
  }

  lemma FeedBlank(s: Scan, c: byte, rest: bytes)
    requires !s.quoted && IsBlank(c)
    ensures Feed(s, [c] + rest) == Checked(if s.started then PushToken(s) else s, rest)
  {
    assert ([c] + rest)[1..] == rest;
    hide Finish, Checked;
  }

  /** From any state and whatever comes before and after, two runs of blanks outside quotes scan the same. */
  lemma {:induction false} RunsScanTheSame(s: Scan, before: bytes, a: bytes, b: bytes, after: bytes)
    requires !QuoteOpen(s.quoted, before)
    requires a != [] && AllBlank(a) && b != [] && AllBlank(b)
    ensures Feed(s, before + (a + after)) == Feed(s, before + (b + after))
    decreases |before|
  {
    if before == [] {
      assert before + (a + after) == a + after && before + (b + after) == b + after;
      hide Feed;
      FeedRun(s, a, after);
      FeedRun(s, b, after);
    } else {
      StepBefore(s, before, a, after);
      StepBefore(s, before, b, after);
      var n := TakenSize(s, before);
      if Goes(s, before) {
        RunsScanTheSame(After(s, before), before[n..], a, b, after);
      }
      hide Feed;
    }
  }

  /** The next step of the scan goes on to the rest of the text. */
  predicate Goes(s: Scan, text: bytes)
    requires text != []
  {
    IsCharacter(text[0]) && (text[0] == QUOTE || !Oversize(After(s, text)))
  }

  /** The first step depends on the part before the run only, and the quote is tracked along. */
  lemma StepBefore(s: Scan, before: bytes, run: bytes, after: bytes)
    requires before != [] && !QuoteOpen(s.quoted, before)
    requires run != [] && AllBlank(run)
    ensures var n, s' := TakenSize(s, before), After(s, before);
      && n <= |before|
      && !QuoteOpen(s'.quoted, before[n..])
      && Feed(s, before + (run + after)) ==
         if Goes(s, before) then Feed(s', before[n..] + (run + after))
         else Bad(if before[0] == DEL then Delete else if IsCharacter(before[0]) then Oversized else Control)
  {
    var n := TakenSize(s, before);
    var text := before + (run + after);
    DropAppend(before, run + after, n);
    assert text[0] == before[0];
    assert |text| > 1;
    assert |before| > 1 ==> text[1] == before[1];
    assert |before| == 1 ==> text[1] == run[0];
    assert IsEscape(s, text) == IsEscape(s, before);
  }

  lemma {:induction false} OuterBlanksOpenNothing(blanks: bytes, text: bytes)
    requires forall i :: 0 <= i < |blanks| ==> IsOuterBlank(blanks[i])
    ensures QuoteOpen(false, blanks + text) == QuoteOpen(false, text)
    decreases |blanks|
  {
    if blanks == [] {
      assert blanks + text == text;
    } else {
      OuterBlanksOpenNothing(blanks[1..], text);
      assert (blanks + text)[1..] == blanks[1..] + text;
    }
  }

  /** Trimming a text with a run in its middle trims the two sides. */
  lemma TrimAround(before: bytes, run: bytes, after: bytes)
    requires FirstVisible(before) < |before| && FirstVisible(after) < |after|
    ensures var whole := before + (run + after);
      && FirstVisible(whole) < |whole|
      && Trim(whole) == before[FirstVisible(before)..] + (run + after[..LastVisible(after)])
  {
    hide FirstVisible, LastVisible, IsOuterBlank;
    var whole := before + (run + after);
    var first, last := FirstVisible(before), LastVisible(after);
    assert !IsOuterBlank(after[FirstVisible(after)]);
    assert last > 0;
    var end := |before| + |run| + last;
    assert forall k :: 0 <= k < |before| ==> whole[k] == before[k];
    assert forall k :: |before| + |run| <= k < |whole| ==> whole[k] == after[k - |before| - |run|];
    FirstVisibleIs(whole, first);
    LastVisibleIs(whole, end);
    SliceAround(before, run, after, first, last);
  }

  lemma SliceAround(before: bytes, run: bytes, after: bytes, first: nat, last: nat)
    requires first <= |before| && last <= |after|
    ensures (before + (run + after))[first..|before| + |run| + last] == before[first..] + (run + after[..last])
  {
  }

  /**
   * Any run of blanks outside quotes may be made longer or shorter: every
   * request, accepted or not, is answered the same, as long as the size cap holds.
   */
  lemma BlankRunsDoNotMatter(before: bytes, a: bytes, b: bytes, after: bytes)
    requires !QuoteOpen(false, before)
    requires a != [] && AllBlank(a) && b != [] && AllBlank(b)
    requires |before + (a + after)| <= MAX_REQUEST && |before + (b + after)| <= MAX_REQUEST
    ensures Parse(before + (a + after)) == Parse(before + (b + after))
  {
    hide Feed, FirstVisible, LastVisible, QuoteOpen, Route, Trim;
    if FirstVisible(before) == |before| {
      LeadingRun(before, a, after);
      LeadingRun(before, b, after);
    } else if FirstVisible(after) == |after| {
      TrailingRun(before, a, after);
      TrailingRun(before, b, after);
    } else {
      var first, last := FirstVisible(before), LastVisible(after);
      TrimAround(before, a, after);
      TrimAround(before, b, after);
      assert before == before[..first] + before[first..];
      OuterBlanksOpenNothing(before[..first], before[first..]);
      RunsScanTheSame(START, before[first..], a, b, after[..last]);
    }
  }

  lemma LeadingRun(before: bytes, run: bytes, after: bytes)
    requires FirstVisible(before) == |before| && AllBlank(run) && |before + (run + after)| <= MAX_REQUEST
    ensures Parse(before + (run + after)) == Parse(after)
  {
    hide Parse, FirstVisible;
    assert before + (run + after) == (before + run) + after + [];
    OuterBlanksDoNotMatter(before + run, after, []);
  }

  lemma TrailingRun(before: bytes, run: bytes, after: bytes)
    requires FirstVisible(after) == |after| && AllBlank(run) && |before + (run + after)| <= MAX_REQUEST
    ensures Parse(before + (run + after)) == Parse(before)
  {
    hide Parse, FirstVisible;
    assert before + (run + after) == [] + before + (run + after);
    OuterBlanksDoNotMatter([], before, run + after);
  }
}
