/**
 * The hook on the game's reply method: pass foreign replies on untouched, and
 * read, repair, sanitise and transcode the replies of our own command.
 */
module ResponseCapture {
  import opened Bytes
  import opened Utf8
  import opened Utf16
  import opened ResponseScope

  const MAX_UNITS: int := 1048576
  const READ_UNITS: int := 65538

  /**
   * An FString in foreign memory: its header, and the units that can be read
   * from its data pointer. The count includes a trailing NUL when there is one.
   */
  datatype Message = Unreadable | Message(num: int, capacity: int, hasData: bool, units: wide)

  predicate HeaderValid(m: Message) {
    m.Message? && 0 <= m.num <= MAX_UNITS && m.num <= m.capacity && (m.num != 0 ==> m.hasData)
  }

  function ReadCount(m: Message): nat
    requires HeaderValid(m)
  {
    if m.num < READ_UNITS then m.num else READ_UNITS
  }

  /** The bounded prefix without its NUL terminator and without half a surrogate pair. */
  function Repaired(w: wide, num: int): wide {
    var text := if |w| == num && w != [] && w[|w| - 1] == 0 then w[..|w| - 1] else w;
    if |w| < num then DropHigh(text) else text
  }

  function SanitizedUnit(u: unit): unit {
    if u < 32 && u != 10 && u != 13 && u != 9 then 32 else u
  }

  /** Control units other than newline, return and tab become blanks. */
  function Sanitized(w: wide): (r: wide)
    ensures |r| == |w|
    ensures forall i :: 0 <= i < |w| ==> r[i] == SanitizedUnit(w[i])
  {
    seq(|w|, i requires 0 <= i < |w| => SanitizedUnit(w[i]))
  }

  /** The text the hook hands to the scope, or None when it reports a capture failure. */
  function Captured(m: Message, starved: bool): Option<bytes> {
    if !HeaderValid(m) then None
    else if m.num == 0 then Some([])
    else if starved || |m.units| < ReadCount(m) then None
    else Transcode(Sanitized(Repaired(m.units[..ReadCount(m)], m.num)))
  }

  /** The effect of one reply on the stack of scopes. */
  function ReceiveTop(stack: seq<Buffer>, command: Key, m: Message, starved: bool, memory: Allocation): seq<Buffer> {
    if !TopMatches(stack, command) then stack
    else match Captured(m, starved)
      case Some(text) => AcceptTop(stack, command, text, memory)
      case None => FailTop(stack)
  }

  /** The installed hook, with the calls it passed on to the original method. */
  class Hook {
    const thread: Thread
    var forwarded: seq<(Key, Message)>

    constructor (thread: Thread)
      ensures this.thread == thread && forwarded == []
    {
      this.thread := thread;
      forwarded := [];
    }

    /** A reply is passed on once, unchanged, or handled in the innermost scope; never both. */
    method Receive(command: Key, m: Message, starved: bool, memory: Allocation)
      requires thread.Valid()
      modifies this, thread.current
      ensures thread.Valid() && thread.scopes == old(thread.scopes)
      ensures thread.Stack() == ReceiveTop(old(thread.Stack()), command, m, starved, memory)
      ensures forwarded == old(forwarded) + if TopMatches(old(thread.Stack()), command) then [] else [(command, m)]
    {
      hide Captured, AcceptTop, FailTop, TopMatches, Thread.Stack, Thread.Matches;
      thread.MatchesTop(command);
      if !thread.Matches(command) {
        forwarded := forwarded + [(command, m)];
        return;
      }
      var text := ReadMessage(m, starved);
      match text {
        case None => thread.Failure();
        case Some(t) =>
          var _ := thread.Accept(command, t, memory);
      }
    }

    /**
     * All that reaches the hook in a run, scope within scope: the chain of
     * scopes ends as `Perform` says, and the foreign replies, and only they, are
     * passed on in order.
     */
    method Run(traffic: Traffic)
      requires thread.Valid()
      modifies this, thread, thread.scopes
      ensures thread.Valid() && thread.scopes == old(thread.scopes)
      ensures var top := TopKey(old(thread.Stack()));
        && thread.Stack() == Perform(old(thread.Stack()), Heard(traffic, top))
        && forwarded == old(forwarded) + PassedOn(traffic, top)
      decreases traffic, 0
    {
      hide Perform, Heard, PassedOn, ReceiveTop, TopKey;
      ghost var stack, before := thread.Stack(), forwarded;
      RunStep(stack, traffic);
      match traffic {
        case Quiet =>
        case Arrives(command, m, starved, memory, next) =>
          Receive(command, m, starved, memory);
          Run(next);
          Associative(before, if TopMatches(stack, command) then [] else [(command, m)], PassedOn(next, TopKey(stack)));
        case Inside(key, body, next) =>
          var _ := Capture(key, body);
          Run(next);
          Associative(before, PassedOn(body, key), PassedOn(next, TopKey(stack)));
      }
    }

    /** How a caller uses a scope: open it, let the native call run, read it and leave. */
    method Capture(key: Key, body: Traffic) returns (captured: Buffer)
      requires thread.Valid()
      modifies this, thread, thread.scopes
      ensures thread.Valid() && thread.scopes == old(thread.scopes) && thread.Stack() == old(thread.Stack())
      ensures captured == Recorded(key, Own(Heard(body, key), key))
      ensures forwarded == old(forwarded) + PassedOn(body, key)
      decreases body, 1
    {
      hide Perform, Heard, PassedOn, Own, Recorded, TopKey, Thread.Stack, Scope.Value;
      ghost var stack := thread.Stack();
      var scope := thread.Open(key);
      FreshTop(stack, key);
      Run(body);
      ScopeCapturesItsBody(stack, key, Heard(body, key));
      thread.TopIsCurrent();
      captured := scope.Value();
      thread.Close(scope);
    }
  }

  // ----- runs of raw replies -----

  /** What happens on one thread: replies reach the hook, and scopes are opened with a run inside. */
  datatype Traffic =
    | Quiet
    | Arrives(command: Key, m: Message, starved: bool, memory: Allocation, next: Traffic)
    | Inside(scope: Key, body: Traffic, next: Traffic)

  /** The command of the innermost scope; 0 without one. */
  function TopKey(stack: seq<Buffer>): Key { if stack == [] then 0 else stack[|stack| - 1].command }

  /** What the scopes hear of a run that starts inside a scope of `top`. */
  function Heard(traffic: Traffic, top: Key): Run {
    match traffic
    case Quiet => Done
    case Arrives(command, m, starved, memory, next) =>
      if command == 0 || command != top then Heard(next, top)
      else (match Captured(m, starved)
            case Some(text) => Say(command, text, memory, Heard(next, top))
            case None => Fail(Heard(next, top)))
    case Inside(key, body, next) => Within(key, Heard(body, key), Heard(next, top))
  }

  /** The replies of a run that are not for the innermost scope, in order. */
  function PassedOn(traffic: Traffic, top: Key): seq<(Key, Message)> {
    match traffic
    case Quiet => []
    case Arrives(command, m, _, _, next) =>
      (if command == 0 || command != top then [(command, m)] else []) + PassedOn(next, top)
    case Inside(key, body, next) => PassedOn(body, key) + PassedOn(next, top)
  }

  /** The replies of a run that are for the innermost scope, in order. */
  function Addressed(traffic: Traffic, top: Key): seq<Message> {
    match traffic
    case Quiet => []
    case Arrives(command, m, _, _, next) =>
      (if command == 0 || command != top then [] else [m]) + Addressed(next, top)
    case Inside(_, _, next) => Addressed(next, top)
  }

  /** What a scope records: one entry for each reply addressed to it, with what was captured of it. */
  lemma {:induction false} HeardAreAddressed(traffic: Traffic, key: Key)
    ensures var log, sent := Own(Heard(traffic, key), key), Addressed(traffic, key);
      && |log| == |sent|
      && forall i :: 0 <= i < |log| && log[i].Reply? ==> IsText(log[i].text) && Captured(sent[i], false) == Some(log[i].text)
    decreases traffic
  {
    hide IsText, Captured;
    match traffic
    case Quiet =>
    case Arrives(command, m, starved, memory, next) =>
      HeardAreAddressed(next, key);
      CapturedExactly(m, starved);
      StarvedOrNot(m, starved);
    case Inside(_, _, next) =>
      HeardAreAddressed(next, key);
  }

  lemma StarvedOrNot(m: Message, starved: bool)
    ensures Captured(m, starved).Some? ==> Captured(m, false) == Captured(m, starved)
  {
  }

  lemma FreshTop(stack: seq<Buffer>, key: Key)
    ensures TopKey(stack + [Fresh(key)]) == key
  {
  }

  lemma TopKeyMatches(stack: seq<Buffer>, command: Key)
    ensures TopMatches(stack, command) <==> command != 0 && command == TopKey(stack)
  {
  }

  /** One step of a run, on values. */
  lemma RunStep(stack: seq<Buffer>, traffic: Traffic)
    ensures var top := TopKey(stack);
      match traffic
      case Quiet => Perform(stack, Heard(traffic, top)) == stack && PassedOn(traffic, top) == []
      case Arrives(command, m, starved, memory, next) =>
        var stack' := ReceiveTop(stack, command, m, starved, memory);
        && TopKey(stack') == top
        && Perform(stack, Heard(traffic, top)) == Perform(stack', Heard(next, top))
        && PassedOn(traffic, top) == (if TopMatches(stack, command) then [] else [(command, m)]) + PassedOn(next, top)
      case Inside(key, body, next) =>
        && Perform(stack, Heard(traffic, top)) == Perform(stack, Heard(next, top))
        && PassedOn(traffic, top) == PassedOn(body, key) + PassedOn(next, top)
  {
    hide Captured, Own, RecordAll;
    match traffic
    case Quiet =>
    case Arrives(command, m, starved, memory, next) =>
      TopKeyMatches(stack, command);
    case Inside(key, body, next) =>
      ScopeCapturesItsBody(stack, key, Heard(body, key));
  }

  /** Reads the message through the guarded memory reader; None is reported as a failure. */
  method ReadMessage(m: Message, starved: bool) returns (text: Option<bytes>)
    ensures text == Captured(m, starved)
  {
    hide Transcode, Sanitized, Repaired;
    if !HeaderValid(m) {
      return None;
    }
    if m.num == 0 {
      return Some([]);
    }
    var n := if m.num < READ_UNITS then m.num else READ_UNITS;
    if starved || |m.units| < n {
      return None;
    }
    text := ReadText(m.units[..n], m.num);
  }

  /** The part of the hook that works on its own copy of the units. */
  method ReadText(units: wide, num: int) returns (text: Option<bytes>)
    requires units != []
    ensures text == Transcode(Sanitized(Repaired(units, num)))
  {
    hide Transcode;
    var buffer := units;
    if |units| == num && buffer != [] && buffer[|buffer| - 1] == 0 {
      buffer := buffer[..|buffer| - 1];
    }
    if |units| < num && buffer != [] && IsHigh(buffer[|buffer| - 1]) {
      buffer := buffer[..|buffer| - 1];
    }
    ghost var repaired := buffer;
    var i := 0;
    while i < |buffer|
      invariant 0 <= i <= |buffer| == |repaired|
      invariant forall j :: 0 <= j < i ==> buffer[j] == SanitizedUnit(repaired[j])
      invariant forall j :: i <= j < |buffer| ==> buffer[j] == repaired[j]
    {
      if buffer[i] == 0 || (buffer[i] < 32 && buffer[i] != 10 && buffer[i] != 13 && buffer[i] != 9) {
        buffer := buffer[i := 32];
      }
      i := i + 1;
    }
    assert buffer == Sanitized(repaired);
    text := Transcode(buffer);
  }

  /** Every printable character, newline, return and tab is kept; only the other controls become blanks. */
  lemma SanitizedExactly(w: wide)
    ensures |Sanitized(w)| == |w|
    ensures forall i :: 0 <= i < |w| ==>
              Sanitized(w)[i] == if w[i] >= 32 || w[i] == 9 || w[i] == 10 || w[i] == 13 then w[i] else 32
  {
  }

  /** Sanitising leaves no NUL and does not touch surrogates. */
  lemma SanitizedStaysPaired(w: wide)
    ensures Paired(Sanitized(w)) <==> Paired(w)
    ensures 0 !in Sanitized(w)
  {
    ReplacementStaysPaired(w, Sanitized(w));
  }

  /** The characters `own`, with a blank for each control other than tab, newline and return. */
  predicate Blanked(out: seq<nat>, own: seq<nat>) {
    && |out| == |own|
    && forall i :: 0 <= i < |own| ==>
         out[i] == if own[i] < 32 && own[i] != 9 && own[i] != 10 && own[i] != 13 then 32 else own[i]
  }

  /** Sanitising works on characters: nothing but controls changes, and no character is lost or added. */
  lemma {:induction false} SanitizedScalars(w: wide)
    requires Paired(w)
    ensures Paired(Sanitized(w)) && Blanked(Scalars(Sanitized(w)), Scalars(w))
    decreases |w|
  {
    SanitizedStaysPaired(w);
    if w != [] {
      var f, v := FrontUnits(w), Sanitized(w);
      SanitizedScalars(w[f..]);
      assert v[f..] == Sanitized(w[f..]);
      assert FrontUnits(v) == f;
      assert Scalars(v) == [FrontScalar(v)] + Scalars(v[f..]);
      assert Scalars(w) == [FrontScalar(w)] + Scalars(w[f..]);
    }
  }

  /** What is left of the units read: without the terminator of a whole text, or without half a pair at the end of a cut one. */
  lemma RepairedExactly(w: wide, num: int)
    requires 0 < |w| <= num
    ensures |w| == num && w[|w| - 1] == 0 ==> Repaired(w, num) == w[..|w| - 1]
    ensures |w| == num && w[|w| - 1] != 0 ==> Repaired(w, num) == w
    ensures |w| < num && 0xD800 <= w[|w| - 1] <= 0xDBFF ==> Repaired(w, num) == w[..|w| - 1]
    ensures |w| < num && !(0xD800 <= w[|w| - 1] <= 0xDBFF) ==> Repaired(w, num) == w
  {
  }

  /**
   * A reply is captured exactly when its header is sound and, unless it is
   * empty, its units can be read and copied and no unpaired surrogate is left
   * after the repair; what is captured is NUL-free UTF-8 with the characters of
   * what is left, controls blanked.
   */
  lemma CapturedExactly(m: Message, starved: bool)
    ensures Captured(m, starved).Some? <==>
            && m.Message? && 0 <= m.num <= 1048576 && m.num <= m.capacity
            && (m.num != 0 ==>
                  && m.hasData && !starved
                  && |m.units| >= (if m.num < 65538 then m.num else 65538)
                  && Paired(Repaired(m.units[..if m.num < 65538 then m.num else 65538], m.num)))
    ensures Captured(m, starved).Some? ==> IsText(Captured(m, starved).value)
    ensures Captured(m, starved).Some? ==>
              if m.num == 0 then Captured(m, starved).value == []
              else Blanked(ScalarsOf(Captured(m, starved).value),
                           Scalars(Repaired(m.units[..if m.num < 65538 then m.num else 65538], m.num)))
  {
    if HeaderValid(m) && |m.units| >= ReadCount(m) {
      var w := Repaired(m.units[..ReadCount(m)], m.num);
      SanitizedStaysPaired(w);
      TranscodeExactly(Sanitized(w));
      if Paired(w) {
        SanitizedScalars(w);
      }
    }
    EmptyIsText();
    hide Transcode, WellFormed, Paired, Repaired, Scalars, ScalarsOf, Blanked;
  }

  lemma EmptyIsText()
    ensures IsText([])
  {
  }

  /** An FString that holds `text` with its terminator. */
  predicate Holds(m: Message, text: wide) {
    && HeaderValid(m)
    && m.num == |text| + 1
    && |m.units| >= m.num
    && m.units[..m.num] == text + [0]
  }

  /**
   * Every valid reply is captured as text with its own characters, controls
   * blanked: all of them if the bounded read sees all of it, and if not, the
   * first of them, which alone are longer than a whole buffer.
   */
  lemma ValidReplyIsCaptured(m: Message, text: wide)
    requires Holds(m, text) && Paired(text)
    ensures Captured(m, false).Some?
    ensures var t := Captured(m, false).value;
      && IsText(t)
      && (m.num <= READ_UNITS ==> Blanked(ScalarsOf(t), Scalars(text)))
      && (m.num > READ_UNITS ==> |t| > MAX_BYTES && BlankedPrefix(ScalarsOf(t), Scalars(text)))
  {
    if m.num <= READ_UNITS {
      hide Transcode, WellFormed, Scalars, ScalarsOf, Paired, NulFree, DropHigh, Blanked;
      assert m.units[..ReadCount(m)] == text + [0];
      assert Repaired(text + [0], m.num) == text;
      SanitizedStaysPaired(text);
      SanitizedScalars(text);
      TranscodeExactly(Sanitized(text));
    } else {
      hide *;
      HeldStarts(m, text);
      LongReplyIsCaptured(m, text);
    }
  }

  /** The first characters of `own`, controls blanked. */
  predicate BlankedPrefix(out: seq<nat>, own: seq<nat>) { |out| <= |own| && Blanked(out, own[..|out|]) }

  /** A reply without controls, other than tab, newline and return, arrives with exactly its characters. */
  lemma PlainReplyIsVerbatim(m: Message, text: wide)
    requires Holds(m, text) && Paired(text) && m.num <= READ_UNITS
    requires forall i :: 0 <= i < |text| ==> text[i] >= 32 || text[i] == 9 || text[i] == 10 || text[i] == 13
    ensures Captured(m, false).Some? && WellFormed(Captured(m, false).value)
    ensures ScalarsOf(Captured(m, false).value) == Scalars(text)
  {
    ValidReplyIsCaptured(m, text);
    NoControls(text);
    hide Captured, Holds, Paired, Scalars, ScalarsOf, WellFormed;
  }

  lemma {:induction false} NoControls(w: wide)
    requires Paired(w) && forall i :: 0 <= i < |w| ==> w[i] >= 32 || w[i] == 9 || w[i] == 10 || w[i] == 13
    ensures forall i :: 0 <= i < |Scalars(w)| ==>
              var s := Scalars(w)[i]; s >= 32 || s == 9 || s == 10 || s == 13
    decreases |w|
  {
    if w != [] {
      NoControls(w[FrontUnits(w)..]);
    }
  }

  /** An ASCII reply arrives byte for byte, and so does any other text through its own bytes. */
  lemma AsciiReplyIsVerbatim(m: Message, text: wide)
    requires Holds(m, text) && m.num <= READ_UNITS
    requires forall i :: 0 <= i < |text| ==> text[i] < 128
    requires forall i :: 0 <= i < |text| ==> text[i] >= 32 || text[i] == 9 || text[i] == 10 || text[i] == 13
    ensures Captured(m, false).Some?
    ensures var t := Captured(m, false).value; |t| == |text| && forall i :: 0 <= i < |text| ==> t[i] == text[i]
  {
    assert m.units[..ReadCount(m)] == text + [0];
    assert Repaired(text + [0], m.num) == text;
    SanitizedExactly(text);
    assert Sanitized(text) == text;
    TranscodedAscii(text);
    hide Transcode, Sanitized, Repaired;
  }

  lemma {:induction false} TranscodedAscii(w: wide)
    requires forall i :: 0 <= i < |w| ==> w[i] < 128
    ensures Transcode(w).Some?
    ensures var t := Transcode(w).value; |t| == |w| && forall i :: 0 <= i < |w| ==> t[i] == w[i]
  {
    if w != [] {
      TranscodedAscii(w[1..]);
      assert Utf8Of(FrontScalar(w)) == [w[0]];
      var rest := Transcode(w[1..]).value;
      assert Transcode(w).value == [w[0]] + rest;
      assert forall i :: 1 <= i < |w| ==> w[i] == w[1..][i - 1];
    }
  }

  lemma HeldStarts(m: Message, text: wide)
    requires Holds(m, text) && m.num > READ_UNITS
    ensures StartsWith(m, text)
  {
    assert m.units[..READ_UNITS] == (text + [0])[..READ_UNITS] == text[..READ_UNITS];
  }

  lemma SanitizedPrefix(text: wide, n: nat)
    requires n <= |text|
    ensures var d := DropHigh(text[..n]);
      |d| + 1 >= n && Sanitized(d) == DropHigh(Sanitized(text)[..n])
  {
  }

  /** The units the bounded read takes from a longer reply, which may go on in any way and need not be readable further. */
  predicate StartsWith(m: Message, text: wide) {
    && HeaderValid(m) && m.num > READ_UNITS
    && |m.units| >= READ_UNITS && |text| >= READ_UNITS && m.units[..READ_UNITS] == text[..READ_UNITS]
  }

  lemma LongReplyIsCaptured(m: Message, text: wide)
    requires StartsWith(m, text) && Paired(text)
    ensures Captured(m, false).Some?
    ensures var t := Captured(m, false).value;
      && IsText(t)
      && |t| > MAX_BYTES && BlankedPrefix(ScalarsOf(t), Scalars(text))
  {
    hide Transcode, WellFormed, Scalars, ScalarsOf, Paired, NulFree, DropHigh, Blanked;
    var n := ReadCount(m);
    var w := Repaired(m.units[..n], m.num);
    var v := Sanitized(text);
    SanitizedStaysPaired(text);
    SanitizedScalars(text);
    SanitizedPrefix(text, n);
    PrefixScalars(v, n);
    TranscodeExactly(Sanitized(w));
    SanitizedStaysPaired(w);
    PrefixIsBlanked(ScalarsOf(Transcode(Sanitized(w)).value), Scalars(v), Scalars(text));
  }

  lemma PrefixIsBlanked(out: seq<nat>, all: seq<nat>, own: seq<nat>)
    requires out <= all && Blanked(all, own)
    ensures BlankedPrefix(out, own)
  {
  }

  /**
   * The bounded read cannot hide a truncation: a reply it cuts short sets the
   * truncation flag, whatever the scope recorded before; only when memory runs
   * out on this very reply is the failure flag set instead.
   */
  lemma BoundedReadIsVisible(b: Buffer, m: Message, text: wide, memory: Allocation)
    requires StartsWith(m, text) && Paired(text)
    requires |b.output| <= MAX_BYTES
    ensures Captured(m, false).Some?
    ensures var b' := Accepted(b, Captured(m, false).value, memory);
      && (memory.Fits? ==> b'.cut)
      && (b'.cut || (b'.failed && !memory.Fits?))
  {
    hide Captured, Paired, Accepted;
    LongReplyIsCaptured(m, text);
    LongTextIsCut(b, Captured(m, false).value, memory);
  }
}
