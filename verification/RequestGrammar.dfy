/**
 * The grammar of a request line, independent of the tokenizer: words separated
 * by blanks, each a run of bare characters and quoted strings with escapes.
 * The tokenizer accepts exactly this language, within its caps.
 */
module RequestGrammar {
  import opened Bytes
  import opened DispatchRequest

  /** A character inside double quotes: itself, or a backslash before a quote or backslash. */
  datatype Item = Plain(c: byte) | Escaped(c: byte)

  datatype Piece = Bare(c: byte) | Quoted(items: seq<Item>)

  /** Blanks and a word, any number of times, and then blanks. */
  datatype Line = End(blanks: bytes) | Word(blanks: bytes, pieces: seq<Piece>, rest: Line)

  predicate IsCharacter(c: byte) { (c >= 32 || c == TAB) && c != DEL }

  // ----- the text of a derivation -----

  function ItemText(item: Item): bytes {
    match item
    case Plain(c) => [c]
    case Escaped(c) => [BACKSLASH, c]
  }

  function ItemsText(items: seq<Item>): bytes {
    if items == [] then [] else ItemText(items[0]) + ItemsText(items[1..])
  }

  function PieceText(piece: Piece): bytes {
    match piece
    case Bare(c) => [c]
    case Quoted(items) => [QUOTE] + (ItemsText(items) + [QUOTE])
  }

  function PiecesText(pieces: seq<Piece>): bytes {
    if pieces == [] then [] else PieceText(pieces[0]) + PiecesText(pieces[1..])
  }

  function LineText(line: Line): bytes {
    match line
    case End(blanks) => blanks
    case Word(blanks, pieces, rest) => blanks + (PiecesText(pieces) + LineText(rest))
  }

  // ----- its value -----

  function ItemsValue(items: seq<Item>): bytes {
    if items == [] then [] else [items[0].c] + ItemsValue(items[1..])
  }

  function PieceValue(piece: Piece): bytes {
    match piece
    case Bare(c) => [c]
    case Quoted(items) => ItemsValue(items)
  }

  function PiecesValue(pieces: seq<Piece>): bytes {
    if pieces == [] then [] else PieceValue(pieces[0]) + PiecesValue(pieces[1..])
  }

  function LineTokens(line: Line): seq<bytes> {
    match line
    case End(_) => []
    case Word(_, pieces, rest) => [PiecesValue(pieces)] + LineTokens(rest)
  }

  // ----- which derivations there are -----

  /** A plain backslash must not look like the start of an escape. */
  predicate GoodItems(items: seq<Item>) {
    items == [] || (GoodItem(items[0], items[1..]) && GoodItems(items[1..]))
  }

  predicate GoodItem(item: Item, next: seq<Item>) {
    match item
    case Escaped(c) => c == QUOTE || c == BACKSLASH
    case Plain(c) =>
      && IsCharacter(c) && c != QUOTE
      && (c == BACKSLASH ==> next != [] && next[0].Plain? && next[0].c != BACKSLASH)
  }

  predicate GoodPieces(pieces: seq<Piece>) {
    pieces == [] || (GoodPiece(pieces[0]) && GoodPieces(pieces[1..]))
  }

  predicate GoodPiece(piece: Piece) {
    match piece
    case Bare(c) => IsCharacter(c) && c != QUOTE && c != SPACE && c != TAB
    case Quoted(items) => GoodItems(items)
  }

  predicate AllBlank(t: bytes) { forall i :: 0 <= i < |t| ==> t[i] == SPACE || t[i] == TAB }

  /** `glued`: a word comes right before, so another word needs blanks in between. */
  predicate GoodLine(line: Line, glued: bool) {
    match line
    case End(blanks) => AllBlank(blanks)
    case Word(blanks, pieces, rest) =>
      && AllBlank(blanks) && (glued ==> blanks != [])
      && pieces != [] && GoodPieces(pieces)
      && GoodLine(rest, true)
  }

  predicate EndsBlank(line: Line) {
    match line
    case End(blanks) => blanks != []
    case Word(_, _, rest) => EndsBlank(rest)
  }

  // ----- what is left to derive in the middle of a scan -----

  /** The rest of a quoted string, the rest of a word, and the rest of the line. */
  datatype Suffix = Suffix(items: seq<Item>, pieces: seq<Piece>, line: Line)

  predicate GoodSuffix(s: Scan, x: Suffix) {
    if s.quoted then GoodItems(x.items) && GoodPieces(x.pieces) && GoodLine(x.line, true)
    else if s.started then x.items == [] && GoodPieces(x.pieces) && GoodLine(x.line, true)
    else x.items == [] && x.pieces == [] && GoodLine(x.line, false)
  }

  function SuffixText(s: Scan, x: Suffix): bytes {
    if s.quoted then ItemsText(x.items) + ([QUOTE] + (PiecesText(x.pieces) + LineText(x.line)))
    else if s.started then PiecesText(x.pieces) + LineText(x.line)
    else LineText(x.line)
  }

  function SuffixTokens(s: Scan, x: Suffix): seq<bytes> {
    if s.started then s.tokens + ([s.token + (ItemsValue(x.items) + PiecesValue(x.pieces))] + LineTokens(x.line))
    else s.tokens + LineTokens(x.line)
  }

  /** The states the loop can be in. */
  predicate GoodScan(s: Scan) {
    && (s.quoted ==> s.started)
    && (!s.started ==> s.token == [])
    && |s.token| <= MAX_TOKEN && |s.tokens| <= MAX_TOKENS
    && forall i :: 0 <= i < |s.tokens| ==> |s.tokens[i]| <= MAX_TOKEN
  }

  /** The caps: 4096 bytes a token; 67 tokens, or 68 when the last one ends the text. */
  predicate WithinCaps(tokens: seq<bytes>, endsBlank: bool) {
    && |tokens| <= (if endsBlank then 67 else 68)
    && forall i :: 0 <= i < |tokens| ==> |tokens[i]| <= 4096
  }

  /** One byte (or escape) less: the state after it, and what is then left. */
  datatype Peeled = Peeled(head: bytes, s: Scan, x: Suffix)

  function Peel(s: Scan, x: Suffix): Peeled
    requires GoodScan(s) && GoodSuffix(s, x) && SuffixText(s, x) != []
  {
    if s.quoted then
      if x.items == [] then Peeled([QUOTE], s.(quoted := false), x)
      else Peeled(ItemText(x.items[0]), AddByte(s, x.items[0].c), x.(items := x.items[1..]))
    else if s.started then
      if x.pieces == [] then PeelBlank(s, x)
      else PeelPiece(s, x.pieces[0], x.(pieces := x.pieces[1..]))
    else if x.line.blanks != [] then PeelBlank(s, x)
    else PeelPiece(s, x.line.pieces[0], Suffix([], x.line.pieces[1..], x.line.rest))
  }

  function PeelBlank(s: Scan, x: Suffix): Peeled
    requires x.line.blanks != []
  {
    Peeled([x.line.blanks[0]], if s.started then PushToken(s) else s,
           Suffix([], [], x.line.(blanks := x.line.blanks[1..])))
  }

  function PeelPiece(s: Scan, piece: Piece, x: Suffix): Peeled {
    match piece
    case Bare(c) => Peeled([c], AddByte(s, c), x)
    case Quoted(items) => Peeled([QUOTE], s.(quoted := true, started := true), x.(items := items))
  }

  lemma PiecesCons(piece: Piece, pieces: seq<Piece>)
    ensures PiecesText([piece] + pieces) == PieceText(piece) + PiecesText(pieces)
    ensures PiecesValue([piece] + pieces) == PieceValue(piece) + PiecesValue(pieces)
  {
    assert ([piece] + pieces)[1..] == pieces;
  }

  lemma BareText(c: byte, token: bytes, tail: bytes, after: bytes, value: bytes)
    ensures ([c] + tail) + after == [c] + (tail + after)
    ensures token + ([c] + value) == (token + [c]) + ([] + value)
  {
  }

  lemma QuotedText(inner: bytes, tail: bytes, after: bytes)
    ensures ([QUOTE] + (inner + [QUOTE]) + tail) + after == [QUOTE] + (inner + ([QUOTE] + (tail + after)))
  {
    var q: bytes := [QUOTE];
    Associative(q + (inner + q), tail, after);
    Associative(q, inner + q, tail + after);
    Associative(inner, q, tail + after);
  }

  lemma PeelPieceKeeps(s: Scan, piece: Piece, x: Suffix)
    requires GoodScan(s) && !s.quoted && GoodPiece(piece) && GoodPieces(x.pieces) && x.items == [] && GoodLine(x.line, true)
    ensures var p := PeelPiece(s, piece, x);
      && GoodSuffix(p.s, p.x)
      && PiecesText([piece] + x.pieces) + LineText(x.line) == p.head + SuffixText(p.s, p.x)
      && s.tokens + ([s.token + PiecesValue([piece] + x.pieces)] + LineTokens(x.line)) == SuffixTokens(p.s, p.x)
  {
    assert ItemsValue([]) == [];
    hide LineText, LineTokens, ItemsText, ItemsValue, PiecesText, PiecesValue, GoodLine, GoodPieces;
    PiecesCons(piece, x.pieces);
    match piece
    case Bare(c) => BareText(c, s.token, PiecesText(x.pieces), LineText(x.line), PiecesValue(x.pieces));
    case Quoted(items) => QuotedText(ItemsText(items), PiecesText(x.pieces), LineText(x.line));
  }

  lemma PeelBlankKeeps(s: Scan, x: Suffix)
    requires GoodScan(s) && !s.quoted && GoodLine(x.line, s.started) && x.line.blanks != []
    ensures var p := PeelBlank(s, x);
      && GoodSuffix(p.s, p.x) && IsBlank(p.head[0])
      && LineText(x.line) == p.head + LineText(p.x.line)
      && LineTokens(p.x.line) == LineTokens(x.line)
      && (EndsBlank(p.x.line) ==> EndsBlank(x.line))
  {
    var blanks := x.line.blanks;
    assert blanks == [blanks[0]] + blanks[1..];
    hide PiecesText, PiecesValue, GoodPieces, ItemsText, GoodItems;
    if x.line.Word? {
      var after := PiecesText(x.line.pieces) + LineText(x.line.rest);
      Associative([blanks[0]], blanks[1..], after);
    }
  }

  /** Peeling keeps the text, the tokens and the grammar. */
  lemma PeelKeeps(s: Scan, x: Suffix)
    requires GoodScan(s) && GoodSuffix(s, x) && SuffixText(s, x) != []
    ensures var p := Peel(s, x);
      && GoodSuffix(p.s, p.x)
      && SuffixText(s, x) == p.head + SuffixText(p.s, p.x)
      && SuffixTokens(s, x) == SuffixTokens(p.s, p.x)
      && (EndsBlank(p.x.line) ==> EndsBlank(x.line))
  {
    hide *;
    if s.quoted {
      PeelInsideKeeps(s, x);
    } else if s.started {
      PeelWordKeeps(s, x);
    } else {
      PeelStartKeeps(s, x);
    }
  }

  lemma PeelInsideKeeps(s: Scan, x: Suffix)
    requires GoodScan(s) && GoodSuffix(s, x) && s.quoted
    ensures var p := Peel(s, x);
      && GoodSuffix(p.s, p.x)
      && SuffixText(s, x) == p.head + SuffixText(p.s, p.x)
      && SuffixTokens(s, x) == SuffixTokens(p.s, p.x)
      && (EndsBlank(p.x.line) ==> EndsBlank(x.line))
  {
    hide LineText, LineTokens, PiecesText, PiecesValue, GoodLine, GoodPieces, EndsBlank;
    if x.items == [] {
      assert ItemsText([]) + ([QUOTE] + (PiecesText(x.pieces) + LineText(x.line))) == [QUOTE] + (PiecesText(x.pieces) + LineText(x.line));
    } else {
      var after := [QUOTE] + (PiecesText(x.pieces) + LineText(x.line));
      Associative(ItemText(x.items[0]), ItemsText(x.items[1..]), after);
      ItemValueMoves(s.token, x.items, PiecesValue(x.pieces));
    }
  }

  lemma PeelWordKeeps(s: Scan, x: Suffix)
    requires GoodScan(s) && GoodSuffix(s, x) && !s.quoted && s.started && SuffixText(s, x) != []
    ensures var p := Peel(s, x);
      && GoodSuffix(p.s, p.x)
      && SuffixText(s, x) == p.head + SuffixText(p.s, p.x)
      && SuffixTokens(s, x) == SuffixTokens(p.s, p.x)
      && (EndsBlank(p.x.line) ==> EndsBlank(x.line))
  {
    if x.pieces == [] {
      assert x.line.blanks != [];
      PeelBlankKeeps(s, x);
      hide LineText, LineTokens, GoodLine, EndsBlank;
      assert PiecesText([]) + LineText(x.line) == LineText(x.line);
      assert s.token + (ItemsValue([]) + PiecesValue([])) == s.token;
      Associative(s.tokens, [s.token], LineTokens(x.line));
    } else {
      PeelPieceKeeps(s, x.pieces[0], x.(pieces := x.pieces[1..]));
      assert [x.pieces[0]] + x.pieces[1..] == x.pieces;
      assert ItemsValue([]) + PiecesValue(x.pieces) == PiecesValue(x.pieces);
    }
  }

  lemma PeelStartKeeps(s: Scan, x: Suffix)
    requires GoodScan(s) && GoodSuffix(s, x) && !s.quoted && !s.started && SuffixText(s, x) != []
    ensures var p := Peel(s, x);
      && GoodSuffix(p.s, p.x)
      && SuffixText(s, x) == p.head + SuffixText(p.s, p.x)
      && SuffixTokens(s, x) == SuffixTokens(p.s, p.x)
      && (EndsBlank(p.x.line) ==> EndsBlank(x.line))
  {
    if x.line.blanks != [] {
      PeelBlankKeeps(s, x);
    } else {
      var pieces := x.line.pieces;
      PeelPieceKeeps(s, pieces[0], Suffix([], pieces[1..], x.line.rest));
      assert [pieces[0]] + pieces[1..] == pieces;
      hide LineTokens, LineText;
      assert [] + PiecesValue(pieces) == PiecesValue(pieces);
      assert LineTokens(x.line) == [PiecesValue(pieces)] + LineTokens(x.line.rest) by { LineTokensOfWord(x.line); }
      assert LineText(x.line) == PiecesText(pieces) + LineText(x.line.rest) by { LineTextOfWord(x.line); }
    }
  }

  lemma LineTokensOfWord(line: Line)
    requires line.Word?
    ensures LineTokens(line) == [PiecesValue(line.pieces)] + LineTokens(line.rest)
  {
  }

  lemma LineTextOfWord(line: Line)
    requires line.Word? && line.blanks == []
    ensures LineText(line) == PiecesText(line.pieces) + LineText(line.rest)
  {
    assert [] + (PiecesText(line.pieces) + LineText(line.rest)) == PiecesText(line.pieces) + LineText(line.rest);
  }

  lemma ItemValueMoves(token: bytes, items: seq<Item>, after: bytes)
    requires items != []
    ensures token + (ItemsValue(items) + after) == (token + [items[0].c]) + (ItemsValue(items[1..]) + after)
  {
  }

  // ----- the tokenizer follows the grammar -----

  /** Feeding the peeled byte or escape is one step of the tokenizer. */
  lemma FeedPeeled(s: Scan, x: Suffix)
    requires GoodScan(s) && GoodSuffix(s, x) && SuffixText(s, x) != []
    ensures var p := Peel(s, x);
      Feed(s, SuffixText(s, x)) ==
      if p.head == [QUOTE] then Feed(p.s, SuffixText(p.s, p.x)) else Checked(p.s, SuffixText(p.s, p.x))
  {
    PeelKeeps(s, x);
    PeeledHead(s, x);
    hide SuffixText, GoodSuffix, Peel;
    var p := Peel(s, x);
    var text, after := SuffixText(s, x), SuffixText(p.s, p.x);
    assert text[|p.head|..] == after;
  }

  /** What the peeled bytes are, and that a plain backslash is not mistaken for an escape. */
  lemma PeeledHead(s: Scan, x: Suffix)
    requires GoodScan(s) && GoodSuffix(s, x) && SuffixText(s, x) != []
    ensures var p := Peel(s, x);
      var text := SuffixText(s, x);
      && |p.head| <= |text| && p.head == text[..|p.head|]
      && if |p.head| == 2 then
           IsEscape(s, text) && p.s == AddByte(s, p.head[1])
         else
           && |p.head| == 1 && IsCharacter(p.head[0]) && !IsEscape(s, text)
           && p.s == if p.head[0] == QUOTE then s.(quoted := !s.quoted, started := true)
                     else if !s.quoted && IsBlank(p.head[0]) then (if s.started then PushToken(s) else s)
                     else AddByte(s, p.head[0])
  {
    PeelKeeps(s, x);
    var p, text := Peel(s, x), SuffixText(s, x);
    assert text[..|p.head|] == p.head;
    if s.quoted {
      PeeledInside(s, x);
    } else {
      PeeledOutside(s, x);
    }
    hide SuffixText, Peel, GoodSuffix;
  }

  lemma PeeledInside(s: Scan, x: Suffix)
    requires GoodScan(s) && GoodSuffix(s, x) && s.quoted
    ensures var p := Peel(s, x);
      var text := SuffixText(s, x);
      if |p.head| == 2 then
        IsEscape(s, text) && p.s == AddByte(s, p.head[1])
      else
        && |p.head| == 1 && IsCharacter(p.head[0]) && !IsEscape(s, text)
        && p.s == if p.head[0] == QUOTE then s.(quoted := false, started := true) else AddByte(s, p.head[0])
  {
    if x.items != [] && x.items[0].Plain? && x.items[0].c == BACKSLASH {
      PlainNext(x.items, [QUOTE] + (PiecesText(x.pieces) + LineText(x.line)));
    }
    hide PiecesText, LineText, GoodLine, GoodPieces;
  }

  lemma PeeledOutside(s: Scan, x: Suffix)
    requires GoodScan(s) && GoodSuffix(s, x) && !s.quoted && SuffixText(s, x) != []
    ensures var p := Peel(s, x);
      && |p.head| == 1 && IsCharacter(p.head[0])
      && p.s == if p.head[0] == QUOTE then s.(quoted := true, started := true)
                else if IsBlank(p.head[0]) then (if s.started then PushToken(s) else s)
                else AddByte(s, p.head[0])
  {
  }

  lemma PlainNext(items: seq<Item>, after: bytes)
    requires items != [] && GoodItems(items) && items[0] == Plain(BACKSLASH)
    ensures var text := ItemsText(items) + after;
      |text| > 1 && text[1] != QUOTE && text[1] != BACKSLASH
  {
    var rest := items[1..];
    assert ItemsText(items) == [BACKSLASH] + ItemsText(rest);
    assert ItemsText(rest) == [rest[0].c] + ItemsText(rest[1..]);
  }

  /** A state inside the caps stays a loop state. */
  lemma PeelStaysInside(s: Scan, x: Suffix)
    requires GoodScan(s) && GoodSuffix(s, x) && SuffixText(s, x) != []
    requires WithinCaps(SuffixTokens(s, x), EndsBlank(x.line))
    ensures var p := Peel(s, x);
      GoodScan(p.s) && WithinCaps(SuffixTokens(p.s, p.x), EndsBlank(p.x.line))
  {
    PeelKeeps(s, x);
    var p := Peel(s, x);
    var tokens := SuffixTokens(p.s, p.x);
    if p.s.started {
      assert tokens[|p.s.tokens|] == p.s.token + (ItemsValue(p.x.items) + PiecesValue(p.x.pieces));
    }
    forall i | 0 <= i < |p.s.tokens|
      ensures |p.s.tokens[i]| <= MAX_TOKEN
    {
      assert tokens[i] == p.s.tokens[i];
    }
  }

  /** Every derivation within the caps is scanned to its tokens. */
  lemma {:induction false} FeedDerivation(s: Scan, x: Suffix)
    requires GoodScan(s) && GoodSuffix(s, x)
    requires WithinCaps(SuffixTokens(s, x), EndsBlank(x.line))
    requires SuffixTokens(s, x) != []
    ensures Feed(s, SuffixText(s, x)) == Tokens(SuffixTokens(s, x))
    decreases |SuffixText(s, x)|
  {
    if SuffixText(s, x) == [] {
      EmptySuffix(s, x);
    } else {
      PeelKeeps(s, x);
      PeelStaysInside(s, x);
      FeedPeeled(s, x);
      PeeledHead(s, x);
      hide *;
      var p := Peel(s, x);
      FeedDerivation(p.s, p.x);
      CheckedGood(p.s, SuffixText(p.s, p.x));
    }
  }

  lemma CheckedGood(s: Scan, text: bytes)
    requires GoodScan(s)
    ensures Checked(s, text) == Feed(s, text)
  {
  }

  lemma EmptySuffix(s: Scan, x: Suffix)
    requires GoodScan(s) && GoodSuffix(s, x) && SuffixText(s, x) == []
    ensures !s.quoted && x.line == End([])
    ensures SuffixTokens(s, x) == if s.started then s.tokens + [s.token] else s.tokens
  {
    assert s.token + ([] + []) == s.token;
  }

  // ----- and accepts nothing else -----

  /** The step of the tokenizer on a text it goes on to accept: the bytes it takes and the state it reaches. */
  function TakenSize(s: Scan, text: bytes): nat
    requires text != []
  {
    if text[0] != QUOTE && IsEscape(s, text) then 2 else 1
  }

  function After(s: Scan, text: bytes): Scan
    requires text != []
  {
    if text[0] == QUOTE then s.(quoted := !s.quoted, started := true)
    else if IsEscape(s, text) then AddByte(s, text[1])
    else if !s.quoted && IsBlank(text[0]) then (if s.started then PushToken(s) else s)
    else AddByte(s, text[0])
  }

  lemma AcceptedStep(s: Scan, text: bytes)
    requires GoodScan(s) && text != [] && Feed(s, text).Tokens?
    ensures var n, s' := TakenSize(s, text), After(s, text);
      && n <= |text| && IsCharacter(text[0])
      && GoodScan(s') && Feed(s, text) == Feed(s', text[n..])
  {
  }

  /** Undoes one step: a derivation of what follows the taken bytes becomes one of the whole. */
  function Rebuilt(s: Scan, text: bytes, after: Suffix): Suffix
    requires text != []
    requires TakenSize(s, text) <= |text|
  {
    if s.quoted && text[0] == QUOTE then after
    else if s.quoted then
      after.(items := [if TakenSize(s, text) == 2 then Escaped(text[1]) else Plain(text[0])] + after.items)
    else if text[0] == QUOTE then Unpiece(s, Quoted(after.items), after)
    else if IsBlank(text[0]) then Suffix([], [], after.line.(blanks := [text[0]] + after.line.blanks))
    else Unpiece(s, Bare(text[0]), after)
  }

  predicate Continues(s: Scan, text: bytes, after: Suffix) {
    && text != [] && IsCharacter(text[0])
    && TakenSize(s, text) <= |text|
    && GoodSuffix(After(s, text), after)
    && SuffixText(After(s, text), after) == text[TakenSize(s, text)..]
  }

  lemma RebuiltQuoted(s: Scan, text: bytes, after: Suffix)
    requires GoodScan(s) && s.quoted && Continues(s, text, after)
    ensures var x := Rebuilt(s, text, after);
      && GoodSuffix(s, x) && SuffixText(s, x) != []
      && Peel(s, x) == Peeled(text[..TakenSize(s, text)], After(s, text), after)
      && x.line == after.line
  {
    hide GoodPieces, GoodLine, PiecesText, LineText;
    var x := Rebuilt(s, text, after);
    if text[0] != QUOTE {
      if TakenSize(s, text) == 1 && text[0] == BACKSLASH {
        PlainBackslash(after, text[1..]);
      }
      assert x.items[1..] == after.items;
    }
  }

  lemma RebuiltUnquoted(s: Scan, text: bytes, after: Suffix)
    requires GoodScan(s) && !s.quoted && Continues(s, text, after)
    ensures var x := Rebuilt(s, text, after);
      && GoodSuffix(s, x) && SuffixText(s, x) != []
      && Peel(s, x) == Peeled(text[..1], After(s, text), after)
      && (EndsBlank(x.line) ==> EndsBlank(after.line) || (after.line == End([]) && !After(s, text).started))
  {
    hide GoodItems, ItemsText, LineTokens;
    var x := Rebuilt(s, text, after);
    if IsBlank(text[0]) {
      assert x.line.blanks[1..] == after.line.blanks;
    } else {
      var pieces := if s.started then x.pieces else x.line.pieces;
      assert pieces[1..] == after.pieces;
      assert PiecesText(pieces) != [];
    }
  }

  lemma Unpeel(s: Scan, text: bytes, after: Suffix) returns (x: Suffix)
    requires GoodScan(s) && Continues(s, text, after)
    ensures GoodSuffix(s, x) && SuffixText(s, x) == text
    ensures SuffixTokens(s, x) == SuffixTokens(After(s, text), after)
    ensures EndsBlank(x.line) ==> EndsBlank(after.line) || (after.line == End([]) && !After(s, text).started)
  {
    hide GoodSuffix, SuffixText, SuffixTokens, After, Peel, Rebuilt, EndsBlank;
    x := Rebuilt(s, text, after);
    if s.quoted {
      RebuiltQuoted(s, text, after);
    } else {
      RebuiltUnquoted(s, text, after);
    }
    PeelKeeps(s, x);
    assert text == text[..TakenSize(s, text)] + text[TakenSize(s, text)..];
  }

  function Unpiece(s: Scan, piece: Piece, after: Suffix): Suffix {
    if s.started then Suffix([], [piece] + after.pieces, after.line)
    else Suffix([], [], Word([], [piece] + after.pieces, after.line))
  }

  /** After a backslash that starts no escape comes a plain character of the same string. */
  lemma PlainBackslash(after: Suffix, text: bytes)
    requires GoodItems(after.items)
    requires text == ItemsText(after.items) + ([QUOTE] + (PiecesText(after.pieces) + LineText(after.line)))
    requires text[0] != QUOTE && text[0] != BACKSLASH
    ensures after.items != [] && after.items[0].Plain? && after.items[0].c != BACKSLASH
  {
    if after.items != [] {
      assert ItemsText(after.items)[0] == ItemText(after.items[0])[0];
    }
  }

  /** Every accepted text has a derivation. */
  lemma {:induction false} Derive(s: Scan, text: bytes) returns (x: Suffix)
    requires GoodScan(s) && Feed(s, text).Tokens?
    ensures GoodSuffix(s, x) && SuffixText(s, x) == text
    ensures SuffixTokens(s, x) == Feed(s, text).tokens
    ensures WithinCaps(SuffixTokens(s, x), EndsBlank(x.line))
    decreases |text|
  {
    if text == [] {
      x := Suffix([], [], End([]));
      assert s.token + ([] + []) == s.token;
    } else {
      AcceptedStep(s, text);
      var s' := After(s, text);
      var after := Derive(s', text[TakenSize(s, text)..]);
      hide Feed, SuffixText, GoodSuffix, TakenSize, After;
      x := Unpeel(s, text, after);
    }
  }

  /** The language of the tokenizer, and the tokens it finds. */
  lemma TokenizerAcceptsExactlyTheGrammar(text: bytes, tokens: seq<bytes>)
    ensures Feed(START, text) == Tokens(tokens) <==>
            exists line :: GoodLine(line, false) && LineText(line) == text && LineTokens(line) == tokens
                           && tokens != [] && WithinCaps(tokens, EndsBlank(line))
  {
    hide Feed;
    if Feed(START, text) == Tokens(tokens) {
      var x := Derive(START, text);
      assert [] + LineTokens(x.line) == LineTokens(x.line);
      AcceptsSome(text);
    }
    if line :| GoodLine(line, false) && LineText(line) == text && LineTokens(line) == tokens
               && tokens != [] && WithinCaps(tokens, EndsBlank(line)) {
      var x := Suffix([], [], line);
      assert [] + LineTokens(line) == LineTokens(line);
      FeedDerivation(START, x);
    }
  }

  lemma AcceptsSome(text: bytes)
    ensures Feed(START, text) != Tokens([])
  {
    NeverEmpty(START, text);
  }
}
