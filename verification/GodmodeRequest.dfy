/**
 * The second request parser, tried before the dispatcher's: whitespace-separated
 * words only. It never claims a request the dispatcher would act on.
 */
module GodmodeRequest {
  import opened Bytes
  import D = DispatchRequest

  datatype Action = Unrelated | Invalid | State | Prepare | Execute

  datatype Request = Request(action: Action, steamId: bytes, enabled: bool)

  /** `std::isspace` in the classic locale. */
  predicate IsSpace(c: byte) { c == SPACE || 9 <= c <= 13 }

  function SkipSpace(text: bytes): (rest: bytes)
    ensures |rest| <= |text|
    ensures rest != [] ==> !IsSpace(rest[0])
  {
    if text == [] || !IsSpace(text[0]) then text else SkipSpace(text[1..])
  }

  function WordSize(text: bytes): (n: nat)
    ensures n <= |text|
    ensures forall i :: 0 <= i < n ==> !IsSpace(text[i])
    ensures n < |text| ==> IsSpace(text[n])
  {
    if text == [] || IsSpace(text[0]) then 0 else 1 + WordSize(text[1..])
  }

  /** The words of a text. */
  function Words(text: bytes): seq<bytes>
    decreases |text|
  {
    var t := SkipSpace(text);
    if t == [] then [] else [t[..WordSize(t)]] + Words(t[WordSize(t)..])
  }

  /** `std::istringstream`, read with `>>` into strings. */
  class WordStream {
    var rest: bytes
    var good: bool

    constructor (text: bytes)
      ensures rest == text && good
    {
      rest, good := text, true;
    }

    /** The words still to come; none once the stream has failed or reached its end. */
    function Left(): seq<bytes>
      reads this
    {
      if good then Words(rest) else []
    }

    /** One `>>`: the next word, or nothing and an unchanged target. */
    method Extract(target: bytes) returns (word: bytes, ok: bool)
      modifies this
      ensures ok == (old(Left()) != [])
      ensures if ok then word == old(Left())[0] && Left() == old(Left())[1..] else word == target && Left() == []
    {
      if !good {
        return target, false;
      }
      while rest != [] && IsSpace(rest[0])
        invariant good && SkipSpace(rest) == SkipSpace(old(rest))
        decreases |rest|
      {
        rest := rest[1..];
      }
      if rest == [] {
        good := false;
        return target, false;
      }
      ghost var t := rest;
      word := [];
      while rest != [] && !IsSpace(rest[0])
        invariant good && |word| <= |t| && word == t[..|word|] && rest == t[|word|..]
        invariant WordSize(t) == |word| + WordSize(rest)
        decreases |rest|
      {
        word := word + [rest[0]];
        rest := rest[1..];
      }
      assert SkipSpace(t) == t && Words(old(rest)) == Words(t);
      assert Words(t) == [word] + Words(rest);
      assert ([word] + Words(rest))[1..] == Words(rest);
      if rest == [] {
        good := false;
      }
      ok := true;
    }
  }

  function WordOr(words: seq<bytes>, i: nat): bytes { if i < |words| then words[i] else [] }

  function Verb(word: bytes): bytes { Lower(D.Unhashed(word)) }

  /** What the words of a request mean to the GodMode route. */
  function Meaning(words: seq<bytes>): Request {
    var verb := Verb(WordOr(words, 0));
    if verb == Ascii("setgodmode") then
      var value := Lower(WordOr(words, 1));
      var sound := value == Ascii("true") || value == Ascii("false");
      Request(if sound && TargetValid(words, 2) then Execute else Invalid, WordOr(words, 2), value == Ascii("true"))
    else if verb == Ascii("!godmode_state") then
      Request(if TargetValid(words, 1) then State else Invalid, WordOr(words, 1), false)
    else if verb == Ascii("!godmode_prepare") then
      Request(if TargetValid(words, 1) then Prepare else Invalid, WordOr(words, 1), false)
    else Request(Unrelated, [], false)
  }

  /** The target is a SteamID and the last word. */
  predicate TargetValid(words: seq<bytes>, i: nat) { SteamIdValid(WordOr(words, i)) && |words| <= i + 1 }

  method Parse(text: bytes) returns (result: Request)
    ensures result == Meaning(Words(text))
  {
    hide Words, Ascii;
    var input := new WordStream(text);
    ghost var words := input.Left();
    var verb, ok := input.Extract([]);
    if verb != [] && verb[0] == HASH {
      verb := verb[1..];
    }
    verb := D.LowerAscii(verb);
    result := Request(Unrelated, [], false);
    if verb == Ascii("setgodmode") {
      result := result.(action := Execute);
    } else if verb == Ascii("!godmode_state") {
      result := result.(action := State);
    } else if verb == Ascii("!godmode_prepare") {
      result := result.(action := Prepare);
    } else {
      return;
    }
    if result.action == Execute {
      var value: bytes;
      value, ok := input.Extract([]);
      value := D.LowerAscii(value);
      if value != Ascii("true") && value != Ascii("false") {
        result := result.(action := Invalid);
      }
      result := result.(enabled := value == Ascii("true"));
    }
    var id: bytes;
    id, ok := input.Extract([]);
    result := result.(steamId := id);
    var extra: bytes, more: bool;
    extra, more := input.Extract([]);
    if !SteamIdValid(id) || more {
      result := result.(action := Invalid);
    }
  }

  /** White space only: blanks, tabs, line feeds, vertical tabs, form feeds and returns. */
  predicate AllSpace(t: bytes) { forall i :: 0 <= i < |t| ==> 9 <= t[i] <= 13 || t[i] == 32 }

  predicate NoSpace(t: bytes) { forall i :: 0 <= i < |t| ==> !(9 <= t[i] <= 13) && t[i] != 32 }

  /** White space, a word, white space, a word, and so on. */
  function Spread(words: seq<bytes>, gaps: seq<bytes>): bytes
    requires |gaps| == |words| + 1
  {
    if words == [] then gaps[0] else gaps[0] + (words[0] + Spread(words[1..], gaps[1..]))
  }

  lemma {:induction false} SkipGap(gap: bytes, rest: bytes)
    requires AllSpace(gap)
    ensures SkipSpace(gap + rest) == SkipSpace(rest)
  {
    if gap == [] {
      assert gap + rest == rest;
    } else {
      SkipGap(gap[1..], rest);
      assert (gap + rest)[1..] == gap[1..] + rest;
    }
  }

  lemma {:induction false} WordThenSpace(word: bytes, rest: bytes)
    requires NoSpace(word) && (rest != [] ==> IsSpace(rest[0]))
    ensures WordSize(word + rest) == |word|
  {
    if word == [] {
      assert word + rest == rest;
    } else {
      WordThenSpace(word[1..], rest);
      assert (word + rest)[1..] == word[1..] + rest;
    }
  }

  /** Words written with any white space around and between them are read as just those words. */
  lemma {:induction false} WordsOfSpread(words: seq<bytes>, gaps: seq<bytes>)
    requires |gaps| == |words| + 1
    requires forall i :: 0 <= i < |words| ==> words[i] != [] && NoSpace(words[i])
    requires forall i :: 0 <= i < |gaps| ==> AllSpace(gaps[i])
    requires forall i :: 0 < i < |words| ==> gaps[i] != []
    ensures Words(Spread(words, gaps)) == words
  {
    if words == [] {
      SkipGap(gaps[0], []);
      assert gaps[0] + [] == gaps[0];
      hide SkipSpace, WordSize;
      assert Words(gaps[0]) == Words([]) by { NoWords(gaps[0]); NoWords([]); }
    } else {
      var rest := Spread(words[1..], gaps[1..]);
      SpreadStartsWithSpace(words[1..], gaps[1..]);
      SkipGap(gaps[0], words[0] + rest);
      WordThenSpace(words[0], rest);
      assert words[0] != [] && NoSpace(words[0]);
      hide AllSpace, WordSize, SkipSpace, Words;
      WordsOfSpread(words[1..], gaps[1..]);
      FirstWord(gaps[0] + (words[0] + rest), words[0], rest);
      assert [words[0]] + words[1..] == words;
    }
  }

  lemma NoWords(text: bytes)
    requires SkipSpace(text) == []
    ensures Words(text) == []
  {
    hide SkipSpace;
  }

  lemma SpreadStartsWithSpace(words: seq<bytes>, gaps: seq<bytes>)
    requires |gaps| == |words| + 1 && AllSpace(gaps[0]) && (words != [] ==> gaps[0] != [])
    ensures Spread(words, gaps) != [] ==> IsSpace(Spread(words, gaps)[0])
  {
  }

  lemma FirstWord(text: bytes, word: bytes, rest: bytes)
    requires SkipSpace(text) == SkipSpace(word + rest) && WordSize(word + rest) == |word|
    requires word != [] && NoSpace(word)
    ensures Words(text) == [word] + Words(rest)
  {
    var t := word + rest;
    assert t[0] == word[0] && SkipSpace(t) == t;
    hide SkipSpace, WordSize;
    assert t[..|word|] == word && t[|word|..] == rest;
  }

  /** The accepted requests, word by word, and what each carries. */
  lemma MeaningExactly(words: seq<bytes>)
    ensures var r := Meaning(words);
      && (r.action == Execute <==>
            && |words| == 3 && D.Spells(words[0], Ascii("setgodmode"))
            && (Lower(words[1]) == Ascii("true") || Lower(words[1]) == Ascii("false")) && SteamIdValid(words[2]))
      && (r.action == Execute ==> r.steamId == words[2] && (r.enabled <==> Lower(words[1]) == Ascii("true")))
      && (r.action == State <==> |words| == 2 && D.Spells(words[0], Ascii("!godmode_state")) && SteamIdValid(words[1]))
      && (r.action == Prepare <==> |words| == 2 && D.Spells(words[0], Ascii("!godmode_prepare")) && SteamIdValid(words[1]))
      && (r.action == State || r.action == Prepare ==> r.steamId == words[1])
      && (r.action == State || r.action == Prepare || r.action == Unrelated ==> !r.enabled)
      && (r.action == Unrelated <==>
            words == [] ||
            (&& !D.Spells(words[0], Ascii("setgodmode")) && !D.Spells(words[0], Ascii("!godmode_state"))
             && !D.Spells(words[0], Ascii("!godmode_prepare"))))
  {
    var first := WordOr(words, 0);
    LowerUnhashed(first);
    assert Ascii("setgodmode")[0] != HASH && Ascii("!godmode_state")[0] != HASH && Ascii("!godmode_prepare")[0] != HASH;
    D.SpellsExactly(first, Ascii("setgodmode"));
    D.SpellsExactly(first, Ascii("!godmode_state"));
    D.SpellsExactly(first, Ascii("!godmode_prepare"));
    hide D.Spells, Ascii, Lower, D.Unhashed;
  }

  // ----- the two parsers never compete -----

  predicate Claims(text: bytes) { Meaning(Words(text)).action != Unrelated }

  predicate GodmodeVerb(word: bytes) {
    Verb(word) == Ascii("setgodmode") || Verb(word) == Ascii("!godmode_state") || Verb(word) == Ascii("!godmode_prepare")
  }

  lemma ClaimsByFirstWord(text: bytes)
    ensures Claims(text) <==> Words(text) != [] && GodmodeVerb(Words(text)[0])
  {
    hide Words;
  }

  /** Visible, and no quote; also after upper case is folded or a hash is dropped. */
  predicate Bare(t: bytes) { forall i :: 0 <= i < |t| ==> 33 <= t[i] < 127 && t[i] != QUOTE }

  lemma VerbsAreBare(verb: bytes)
    requires verb == Ascii("setgodmode") || verb == Ascii("!godmode_state") || verb == Ascii("!godmode_prepare")
    ensures Bare(verb) && 0 < |verb| <= 16
  {
    assert Ascii("setgodmode") == [115, 101, 116, 103, 111, 100, 109, 111, 100, 101];
    assert Ascii("!godmode_state") == [33, 103, 111, 100, 109, 111, 100, 101, 95, 115, 116, 97, 116, 101];
    assert Ascii("!godmode_prepare") == [33, 103, 111, 100, 109, 111, 100, 101, 95, 112, 114, 101, 112, 97, 114, 101];
    hide Ascii;
  }

  lemma GodmodeVerbIsBare(word: bytes)
    requires GodmodeVerb(word)
    ensures 0 < |word| <= 17 && Bare(word)
  {
    VerbsAreBare(Verb(word));
    hide Ascii, GodmodeVerb;
    var verb, bare := Verb(word), D.Unhashed(word);
    forall i | 0 <= i < |bare|
      ensures 33 <= bare[i] < 127 && bare[i] != QUOTE
    {
      assert verb[i] == LowerByte(bare[i]);
    }
    if bare != word {
      assert word == [HASH] + bare;
    }
  }

  /** No verb of the GodMode route is a verb of the dispatcher. */
  lemma RouteIgnoresGodmode(tokens: seq<bytes>)
    requires tokens != [] && GodmodeVerb(tokens[0])
    ensures D.Route(tokens).action == D.Unknown
  {
    LowerUnhashed(tokens[0]);
    assert Ascii("setgodmode")[0] == 115 && Ascii("getweather")[0] == 103;
    hide Lower, D.Unhashed;
  }

  lemma LowerUnhashed(word: bytes)
    ensures D.Unhashed(Lower(word)) == Verb(word)
  {
    if word != [] && word[0] == HASH {
      assert Lower(word)[0] == HASH;
      assert Lower(word)[1..] == Lower(word[1..]);
    }
  }

  lemma SliceShift(text: bytes, a: nat, b: nat)
    requires a <= b && b + 1 <= |text|
    ensures text[1..][a..b] == text[a + 1..b + 1]
  {
  }

  /** The first word of a text lies between white space. */
  lemma {:induction false} FirstWordAt(text: bytes) returns (at: nat)
    requires Words(text) != []
    ensures at + |Words(text)[0]| <= |text|
    ensures forall i :: 0 <= i < at ==> IsSpace(text[i])
    ensures text[at..at + |Words(text)[0]|] == Words(text)[0]
    ensures var next := at + |Words(text)[0]|; next < |text| ==> IsSpace(text[next])
    decreases |text|
  {
    if !IsSpace(text[0]) {
      at := 0;
      assert SkipSpace(text) == text;
    } else {
      assert Words(text) == Words(text[1..]);
      hide Words;
      var inner := FirstWordAt(text[1..]);
      at := inner + 1;
      SliceShift(text, inner, inner + |Words(text)[0]|);
    }
  }

  /** A run of bare bytes is scanned into the current token. */
  lemma {:induction false} FeedBare(s: D.Scan, word: bytes, rest: bytes)
    requires Bare(word) && !s.quoted && |s.tokens| <= D.MAX_TOKENS && |s.token| + |word| <= D.MAX_TOKEN
    ensures var s' := s.(token := s.token + word, started := s.started || word != []);
      D.Feed(s, word + rest) == D.Feed(s', rest)
    decreases |word|
  {
    if word == [] {
      assert word + rest == rest;
      assert s.token + word == s.token;
    } else {
      var s1 := D.AddByte(s, word[0]);
      FeedBare(s1, word[1..], rest);
      assert (word + rest)[1..] == word[1..] + rest;
      assert s1.token + word[1..] == s.token + word;
    }
  }

  /** Tokens already pushed stay at the front of the result. */
  lemma {:induction false} FeedKeepsTokens(s: D.Scan, text: bytes)
    ensures D.Feed(s, text).Tokens? ==> s.tokens <= D.Feed(s, text).tokens
    decreases |text|
  {
    if text != [] {
      FeedKeepsTokens(s.(quoted := !s.quoted, started := true), text[1..]);
      if |text| > 1 { FeedKeepsTokens(D.AddByte(s, text[1]), text[2..]); }
      FeedKeepsTokens(D.PushToken(s), text[1..]);
      FeedKeepsTokens(s, text[1..]);
      FeedKeepsTokens(D.AddByte(s, text[0]), text[1..]);
    }
  }

  /** A bare word followed by white space or nothing is either the first token, or the scan fails. */
  lemma FirstTokenIsFirstWord(word: bytes, rest: bytes)
    requires Bare(word) && 0 < |word| <= 17
    requires rest != [] ==> IsSpace(rest[0])
    ensures var r := D.Feed(D.START, word + rest);
      r.Tokens? ==> r.tokens != [] && r.tokens[0] == word
  {
    FeedBare(D.START, word, rest);
    var s := D.Scan([], word, false, true);
    assert [] + word == word;
    if rest != [] {
      FeedKeepsTokens(D.PushToken(s), rest[1..]);
    }
  }

  /** What trimming leaves of a text that starts, after white space, with a visible word. */
  lemma TrimToWord(text: bytes, at: nat, n: nat)
    requires 0 < n && at + n <= |text|
    requires forall i :: 0 <= i < at ==> IsSpace(text[i])
    requires forall i :: at <= i < at + n ==> !D.IsOuterBlank(text[i])
    requires at + n < |text| ==> IsSpace(text[at + n])
    ensures var t := D.Trim(text);
      && D.FirstVisible(text) < |text| && t != []
      && (t[0] == 11 || t[0] == 12 ||
           (n <= |t| && t[..n] == text[at..at + n] && (n < |t| ==> IsSpace(t[n]))))
  {
    hide D.FirstVisible, D.LastVisible;
    var first, last := D.FirstVisible(text), D.LastVisible(text);
    assert !D.IsOuterBlank(text[at]) && !D.IsOuterBlank(text[at + n - 1]);
    assert first <= at && last >= at + n;
    var t := D.Trim(text);
    assert t[0] == text[first];
    if first == at {
      assert t[..n] == text[at..at + n];
    }
  }

  /** After trimming, the scan fails or its first token is the verb the GodMode parser saw. */
  lemma ScanSeesTheVerb(text: bytes)
    requires Claims(text)
    ensures var r := D.Feed(D.START, D.Trim(text));
      r.Tokens? ==> r.tokens != [] && GodmodeVerb(r.tokens[0])
  {
    ClaimsByFirstWord(text);
    hide Words, GodmodeVerb, Claims, D.Trim;
    var word := Words(text)[0];
    GodmodeVerbIsBare(word);
    var at := FirstWordAt(text);
    var n := |word|;
    assert forall i :: at <= i < at + n ==> text[i] == word[i - at];
    TrimToWord(text, at, n);
    var t := D.Trim(text);
    if t[0] != 11 && t[0] != 12 {
      hide D.Feed;
      assert t == word + t[n..];
      FirstTokenIsFirstWord(word, t[n..]);
    }
  }

  /**
   * Whatever the GodMode parser claims, valid or not, the dispatcher's parser
   * rejects or does not know: trying GodMode first takes no request away.
   */
  lemma ParsersNeverCompete(text: bytes)
    requires Claims(text)
    ensures D.Parse(text).action == D.Unknown || D.Parse(text).action == D.Invalid
  {
    hide D.Feed, D.Trim, D.Route, D.FirstVisible, Claims;
    ScanSeesTheVerb(text);
    var r := D.Feed(D.START, D.Trim(text));
    if r.Tokens? {
      RouteIgnoresGodmode(r.tokens);
    }
  }
}
