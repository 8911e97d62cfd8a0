/**
 * The thread-local stack of bounded reply buffers: one scope per native call in
 * progress, linked to the one it interrupts.
 */
module ResponseScope {
  import opened Bytes
  import opened Utf8

  const MAX_BYTES: nat := 65536
  const MAX_MESSAGES: nat := 128

  /** Identity of a native command instance; 0 is the null pointer. */
  type Key = nat

  /** What one scope has recorded. */
  datatype Buffer = Buffer(command: Key, output: bytes, count: nat, cut: bool, failed: bool)

  function Fresh(key: Key): Buffer { Buffer(key, [], 0, false, false) }

  /** Where, if anywhere, an append runs out of memory. */
  datatype Allocation = Fits | NewlineThrows | TextThrows

  /** Text that is there and does not end its line. */
  predicate OpenLine(output: bytes) { output != [] && output[|output| - 1] != NL }

  predicate NeedsNewline(output: bytes, text: bytes) { OpenLine(output) && text != [] }

  /** The effect of `accept` on the buffer whose key matches. */
  function Accepted(b: Buffer, text: bytes, memory: Allocation): Buffer {
    var b1 := b.(count := b.count + 1);
    if b1.count > MAX_MESSAGES then b1.(cut := true)
    else if !NeedsNewline(b.output, text) then Appended(b1, text, memory)
    else if |b.output| >= MAX_BYTES then b1.(cut := true)
    else if memory.NewlineThrows? then b1.(failed := true)
    else Appended(b1.(output := b.output + [NL]), text, memory)
  }

  function Room(output: bytes): nat { if |output| <= MAX_BYTES then MAX_BYTES - |output| else 0 }

  function Appended(b: Buffer, text: bytes, memory: Allocation): Buffer {
    var n := PrefixSize(text, Room(b.output));
    if n > 0 && memory.TextThrows? then b.(failed := true)
    else b.(output := b.output + text[..n], cut := b.cut || n != |text|)
  }

  class Scope {
    const previous: Scope?
    const command: Key
    var output: bytes
    var count: nat
    var cut: bool
    var failed: bool

    constructor (previous: Scope?, key: Key)
      ensures this.previous == previous && command == key && Value() == Fresh(key)
    {
      this.previous := previous;
      command := key;
      output, count, cut, failed := [], 0, false, false;
    }

    function Value(): Buffer
      reads this
    {
      Buffer(command, output, count, cut, failed)
    }
  }

  /** The buffers of a chain of scopes, outermost first. */
  function Values(scopes: seq<Scope>): (r: seq<Buffer>)
    reads scopes
    ensures |r| == |scopes|
    ensures forall i :: 0 <= i < |scopes| ==> r[i] == scopes[i].Value()
  {
    seq(|scopes|, i requires 0 <= i < |scopes| reads scopes => scopes[i].Value())
  }

  /** One thread, with its own `current` pointer. */
  class Thread {
    var current: Scope?
    ghost var scopes: seq<Scope>

    /** `current` heads the chain that `scopes` lists from the bottom up. */
    ghost predicate Valid()
      reads this, scopes
    {
      && current == (if scopes == [] then null else scopes[|scopes| - 1])
      && (scopes != [] ==> scopes[0].previous == null)
      && (forall i {:trigger scopes[i].previous} :: 0 < i < |scopes| ==> scopes[i].previous == scopes[i - 1])
      && (forall i, j :: 0 <= i < j < |scopes| ==> scopes[i] != scopes[j])
      && (forall i :: 0 <= i < |scopes| ==> |scopes[i].output| <= MAX_BYTES)
    }

    ghost function Stack(): seq<Buffer>
      reads this, scopes
    {
      Values(scopes)
    }

    constructor ()
      ensures Valid() && scopes == [] && Stack() == []
    {
      current := null;
      scopes := [];
    }

    /** The constructor of a scope. */
    method Open(key: Key) returns (scope: Scope)
      requires Valid()
      modifies this
      ensures Valid() && fresh(scope) && scopes == old(scopes) + [scope]
      ensures Stack() == old(Stack()) + [Fresh(key)]
    {
      scope := new Scope(current, key);
      current := scope;
      scopes := scopes + [scope];
    }

    /** The destructor, which also runs when the scope is left by an exception. */
    method Close(scope: Scope)
      requires Valid() && current == scope
      modifies this
      ensures Valid() && scopes == old(scopes)[..|old(scopes)| - 1]
      ensures Stack() == old(Stack())[..|old(Stack())| - 1]
    {
      current := scope.previous;
      scopes := scopes[..|scopes| - 1];
    }

    lemma CurrentIsLast()
      requires Valid() && scopes != []
      ensures current == scopes[|scopes| - 1]
    {
    }

    /** What the innermost scope holds is the top of the stack. */
    lemma TopIsCurrent()
      requires Valid() && current != null
      ensures Stack() != [] && current.Value() == Stack()[|Stack()| - 1]
    {
    }

    predicate Matches(key: Key)
      reads this, current
    {
      key != 0 && current != null && current.command == key
    }

    lemma MatchesTop(key: Key)
      requires Valid()
      ensures Matches(key) == TopMatches(Stack(), key)
    {
    }

    method Failure()
      requires Valid()
      modifies current
      ensures Valid() && scopes == old(scopes)
      ensures Stack() == FailTop(old(Stack()))
      ensures scopes != [] ==> Stack()[|scopes| - 1] == old(Stack()[|scopes| - 1]).(failed := true)
    {
      if current != null {
        current.failed := true;
      }
    }

    method Accept(key: Key, text: bytes, memory: Allocation) returns (handled: bool)
      requires Valid()
      modifies current
      ensures Valid() && scopes == old(scopes)
      ensures handled == old(Matches(key)) == TopMatches(old(Stack()), key)
      ensures handled <==> key != 0 && scopes != [] && scopes[|scopes| - 1].command == key
      ensures Stack() == AcceptTop(old(Stack()), key, text, memory)
    {
      handled := Matches(key);
      if handled {
        AcceptInto(current, text, memory);
      }
    }
  }

  method AcceptInto(scope: Scope, text: bytes, memory: Allocation)
    requires |scope.output| <= MAX_BYTES
    modifies scope`output, scope`count, scope`cut, scope`failed
    ensures scope.Value() == Accepted(old(scope.Value()), text, memory)
    ensures |scope.output| <= MAX_BYTES
  {
    hide Appended;
    scope.count := scope.count + 1;
    if scope.count > MAX_MESSAGES {
      scope.cut := true;
      return;
    }
    if scope.output != [] && text != [] && scope.output[|scope.output| - 1] != NL {
      if |scope.output| == MAX_BYTES {
        scope.cut := true;
        return;
      }
      if memory.NewlineThrows? {
        scope.failed := true;
        return;
      }
      scope.output := scope.output + [NL];
    }
    AppendInto(scope, text, memory);
  }

  /** The bounded append at the end of `accept`. */
  method AppendInto(scope: Scope, text: bytes, memory: Allocation)
    requires |scope.output| <= MAX_BYTES
    modifies scope`output, scope`cut, scope`failed
    ensures scope.Value() == Appended(old(scope.Value()), text, memory)
    ensures |scope.output| <= MAX_BYTES
  {
    hide PrefixSize;
    var available: nat := MAX_BYTES - |scope.output|;
    var n := Utf8PrefixSize(text, available);
    if n > 0 {
      if memory.TextThrows? {
        scope.failed := true;
        return;
      }
      scope.output := scope.output + text[..n];
    }
    scope.cut := scope.cut || n != |text|;
  }

  // ----- the stack as a value -----

  predicate TopMatches(stack: seq<Buffer>, key: Key) {
    key != 0 && stack != [] && stack[|stack| - 1].command == key
  }

  function FailTop(stack: seq<Buffer>): seq<Buffer> {
    if stack == [] then [] else stack[|stack| - 1 := stack[|stack| - 1].(failed := true)]
  }

  function AcceptTop(stack: seq<Buffer>, key: Key, text: bytes, memory: Allocation): seq<Buffer> {
    if !TopMatches(stack, key) then stack
    else stack[|stack| - 1 := Accepted(stack[|stack| - 1], text, memory)]
  }

  // ----- what one scope records -----

  datatype Entry = Reply(text: bytes, memory: Allocation) | Failed

  function Record(b: Buffer, e: Entry): Buffer {
    match e
    case Reply(text, memory) => Accepted(b, text, memory)
    case Failed => b.(failed := true)
  }

  function RecordAll(b: Buffer, log: seq<Entry>): Buffer {
    if log == [] then b else Record(RecordAll(b, log[..|log| - 1]), log[|log| - 1])
  }

  /** The buffer of a scope that was opened with `key` and saw `log`. */
  function Recorded(key: Key, log: seq<Entry>): Buffer { RecordAll(Fresh(key), log) }

  /** The texts of a log, in order. */
  function Texts(log: seq<Entry>): seq<bytes> {
    if log == [] then []
    else Texts(log[..|log| - 1]) + if log[|log| - 1].Reply? then [log[|log| - 1].text] else []
  }

  function JoinOne(output: bytes, text: bytes): bytes {
    if NeedsNewline(output, text) then output + [NL] + text else output + text
  }

  /** All the texts, one after the other, a newline between two that lack one. */
  function Join(texts: seq<bytes>): bytes {
    if texts == [] then [] else JoinOne(Join(texts[..|texts| - 1]), texts[|texts| - 1])
  }

  lemma JoinSnoc(texts: seq<bytes>, text: bytes)
    ensures Join(texts + [text]) == JoinOne(Join(texts), text)
  {
    assert (texts + [text])[..|texts|] == texts;
  }

  /** Once set, the failure and truncation flags stay, the count never drops, the bound always holds. */
  lemma RecordIsMonotone(b: Buffer, e: Entry)
    requires |b.output| <= MAX_BYTES
    ensures var b' := Record(b, e);
      && |b'.output| <= MAX_BYTES && b.output <= b'.output
      && (b.failed ==> b'.failed) && (b.cut ==> b'.cut) && b.count <= b'.count
      && (b.count > MAX_MESSAGES ==> b'.cut || e.Failed?)
  {
    hide PrefixSize;
  }

  lemma {:induction false} RecordedBounds(key: Key, log: seq<Entry>)
    ensures var b := Recorded(key, log);
      && |b.output| <= 65536
      && b.count == |Texts(log)|
      && (b.count > 128 ==> b.cut)
  {
    hide PrefixSize;
    if log != [] {
      RecordedBounds(key, log[..|log| - 1]);
    }
  }

  /** An accepted text that fits is appended whole; one that does not sets the flag. */
  lemma AcceptedExactly(b: Buffer, text: bytes, memory: Allocation)
    requires |b.output| <= MAX_BYTES && !Accepted(b, text, memory).failed
    ensures var b' := Accepted(b, text, memory);
      var fits := b.count < MAX_MESSAGES && |JoinOne(b.output, text)| <= MAX_BYTES;
      && b'.cut == (b.cut || !fits)
      && (fits ==> b'.output == JoinOne(b.output, text))
  {
  }

  /**
   * No reply is lost silently: without a failure the truncation flag is clear
   * exactly when all replies fit, and then the buffer is exactly their join.
   */
  lemma {:induction false} NothingLostSilently(key: Key, log: seq<Entry>)
    requires !Recorded(key, log).failed
    ensures var b, texts := Recorded(key, log), Texts(log);
      && |texts| == |log|
      && (!b.cut <==> |texts| <= 128 && |Join(texts)| <= 65536)
      && (!b.cut ==> b.output == Join(texts))
  {
    if log != [] {
      var n := |log| - 1;
      var b := Recorded(key, log[..n]);
      RecordedBounds(key, log[..n]);
      RecordIsMonotone(b, log[n]);
      NothingLostSilently(key, log[..n]);
      var texts := Texts(log[..n]);
      AcceptedExactly(b, log[n].text, log[n].memory);
      hide Accepted, PrefixSize;
      JoinSnoc(texts, log[n].text);
    }
  }

  /** `part` is what a cut at a code-point boundary leaves of `text`. */
  predicate CutOf(part: bytes, text: bytes) {
    |part| <= |text| && text[..|part|] == part && IsBoundary(text, |part|)
  }

  /** A newline is appended for a text of which then not even one code point fits. */
  predicate Orphans(output: bytes, text: bytes) {
    NeedsNewline(output, text) && |output| < MAX_BYTES && PrefixSize(text, MAX_BYTES - |output| - 1) == 0
  }

  /** What `accept` takes of a text. */
  function Piece(output: bytes, text: bytes): bytes {
    if !NeedsNewline(output, text) then text[..PrefixSize(text, Room(output))]
    else if |output| >= MAX_BYTES then []
    else text[..PrefixSize(text, MAX_BYTES - |output| - 1)]
  }

  lemma PieceIsCut(output: bytes, text: bytes)
    ensures CutOf(Piece(output, text), text)
  {
  }

  /** The output after an accept: the join with the piece, and a newline left behind when even that is empty. */
  lemma AcceptedOutput(b: Buffer, text: bytes, memory: Allocation)
    requires |b.output| <= MAX_BYTES && b.count < MAX_MESSAGES && !Accepted(b, text, memory).failed
    ensures var b' := Accepted(b, text, memory);
      && b'.output == (if Orphans(b.output, text) then b.output + [NL] else JoinOne(b.output, Piece(b.output, text)))
      && (Orphans(b.output, text) ==> Piece(b.output, text) == [] && b'.cut)
  {
    hide PrefixSize;
    assert b.output + [NL] + [] == b.output + [NL];
  }

  /** An accept fails exactly when memory runs out on something it appends, and then it takes no text. */
  lemma FailsExactly(b: Buffer, text: bytes, memory: Allocation)
    requires |b.output| <= 65536
    ensures var b' := Accepted(b, text, memory);
      var separated := b.output != [] && b.output[|b.output| - 1] != NL && text != [];
      && b'.command == b.command && b'.count == b.count + 1
      && (b'.failed <==>
            || b.failed
            || (b.count < 128 && separated && |b.output| < 65536 && memory == NewlineThrows)
            || (b.count < 128 && Piece(b.output, text) != [] && memory == TextThrows))
      && (b'.failed && !b.failed ==>
            b'.cut == b.cut && b'.output == b.output + if separated && memory == TextThrows then [NL] else [])
  {
    hide PrefixSize;
    assert b.output + [] == b.output;
  }

  /** Without a reported failure, and with memory for every reply, nothing fails. */
  lemma {:induction false} NothingFailsWithoutCause(key: Key, log: seq<Entry>)
    requires forall i :: 0 <= i < |log| ==> log[i].Reply? && log[i].memory == Fits
    ensures !Recorded(key, log).failed
  {
    if log != [] {
      var n := |log| - 1;
      NothingFailsWithoutCause(key, log[..n]);
      RecordedBounds(key, log[..n]);
      FailsExactly(Recorded(key, log[..n]), log[n].text, log[n].memory);
      hide Accepted;
    }
  }

  /** One accept leaves a join with a cut of its text exactly when it leaves no orphan newline. */
  lemma AcceptJoinsACutExactly(b: Buffer, text: bytes, memory: Allocation)
    requires |b.output| <= MAX_BYTES && b.count < MAX_MESSAGES && !Accepted(b, text, memory).failed
    ensures (exists i: nat :: i <= |text| && IsBoundary(text, i) && Accepted(b, text, memory).output == JoinOne(b.output, text[..i]))
            <==> !Orphans(b.output, text)
  {
    AcceptedOutput(b, text, memory);
    PieceIsCut(b.output, text);
    hide Accepted, Piece, PrefixSize, IsBoundary;
    var piece := Piece(b.output, text);
    if Orphans(b.output, text) {
      forall i: nat | i <= |text|
        ensures b.output + [NL] != JoinOne(b.output, text[..i])
      {
        JoinOneSize(b.output, text[..i]);
      }
    } else {
      assert text[..|piece|] == piece;
    }
  }

  lemma JoinOneSize(output: bytes, text: bytes)
    ensures OpenLine(output) ==> |JoinOne(output, text)| == |output| + (if text == [] then 0 else 1 + |text|)
  {
  }

  /** The pieces a log leaves in the buffer: one for each of the first 128 replies. */
  function Pieces(key: Key, log: seq<Entry>): seq<bytes> {
    if log == [] then []
    else
      var n := |log| - 1;
      var b := Recorded(key, log[..n]);
      Pieces(key, log[..n]) + if log[n].Reply? && b.count < MAX_MESSAGES then [Piece(b.output, log[n].text)] else []
  }

  /** The `k`-th entry of a log is a reply that leaves an orphan newline. */
  predicate OrphansAt(key: Key, log: seq<Entry>, k: nat) {
    && k < |log| && log[k].Reply?
    && var b := Recorded(key, log[..k]);
       b.count < MAX_MESSAGES && Orphans(b.output, log[k].text)
  }

  /** Nothing of `text` is appended behind a line end: the replies are used up, or not one code point fits. */
  predicate Skipped(count: nat, text: bytes, room: nat) { count >= MAX_MESSAGES || PrefixSize(text, room) == 0 }

  /** Entry `k` leaves an orphan newline, and every later reply is skipped. */
  ghost predicate OrphanStays(key: Key, log: seq<Entry>, k: nat) {
    && OrphansAt(key, log, k)
    && var room := Room(Recorded(key, log[..k]).output + [NL]);
       forall j :: k < j < |log| && log[j].Reply? ==> Skipped(|Texts(log[..j])|, log[j].text, room)
  }

  ghost predicate EndsWithOrphan(key: Key, log: seq<Entry>) {
    exists k: nat :: OrphanStays(key, log, k)
  }

  /** The same in terms of the buffer: it has not changed since an orphan newline was left. */
  ghost predicate OrphanIsLast(key: Key, log: seq<Entry>) {
    exists k: nat :: OrphansAt(key, log, k) && Recorded(key, log).output == Recorded(key, log[..k + 1]).output
  }

  lemma OrphansBefore(key: Key, log: seq<Entry>, n: nat, k: nat)
    requires k < n <= |log|
    ensures log[..n][..k] == log[..k] && log[..n][..k + 1] == log[..k + 1]
    ensures OrphansAt(key, log[..n], k) == OrphansAt(key, log, k)
  {
    assert log[..n][..k] == log[..k];
    hide Recorded, Orphans;
  }

  /** How the orphan at the end of a log comes about, entry by entry. */
  lemma OrphanStep(key: Key, log: seq<Entry>)
    requires log != []
    ensures var n := |log| - 1;
      var before, after := Recorded(key, log[..n]).output, Recorded(key, log).output;
      OrphanIsLast(key, log) <==> OrphansAt(key, log, n) || (OrphanIsLast(key, log[..n]) && after == before)
  {
    hide Recorded, Orphans;
    var n: nat := |log| - 1;
    assert log[..n + 1] == log;
    OutputOnlyGrows(key, log, n);
    if OrphanIsLast(key, log) {
      var k: nat :| OrphansAt(key, log, k) && Recorded(key, log).output == Recorded(key, log[..k + 1]).output;
      if k < n {
        OrphansBefore(key, log, n, k);
        OutputOnlyGrows(key, log[..n], k + 1);
      }
    }
    if OrphanIsLast(key, log[..n]) && Recorded(key, log).output == Recorded(key, log[..n]).output {
      var k: nat :| OrphansAt(key, log[..n], k) && Recorded(key, log[..n]).output == Recorded(key, log[..n][..k + 1]).output;
      OrphansBefore(key, log, n, k);
    }
  }

  /** Behind a line end a reply leaves the buffer alone exactly when it is skipped. */
  lemma SkippedExactly(b: Buffer, text: bytes, memory: Allocation)
    requires |b.output| <= MAX_BYTES && !OpenLine(b.output) && !Accepted(b, text, memory).failed
    ensures Accepted(b, text, memory).output == b.output <==> Skipped(b.count, text, Room(b.output))
  {
    hide PrefixSize;
    var n := PrefixSize(text, Room(b.output));
    assert |b.output + text[..n]| == |b.output| + n;
    assert b.output + [] == b.output;
  }

  lemma OrphanOutput(key: Key, log: seq<Entry>, k: nat)
    requires OrphansAt(key, log, k) && !Recorded(key, log[..k + 1]).failed
    ensures Recorded(key, log[..k + 1]).output == Recorded(key, log[..k]).output + [NL]
  {
    assert log[..k + 1][..k] == log[..k];
    RecordedBounds(key, log[..k]);
    AcceptedOutput(Recorded(key, log[..k]), log[k].text, log[k].memory);
    hide Accepted, Orphans;
  }

  /** What the guards of the later replies say is what the buffer shows. */
  lemma {:induction false} OrphanStaysExactly(key: Key, log: seq<Entry>, k: nat)
    requires OrphansAt(key, log, k) && !Recorded(key, log).failed
    ensures !Recorded(key, log[..k + 1]).failed
    ensures OrphanStays(key, log, k) <==> Recorded(key, log).output == Recorded(key, log[..k + 1]).output
    decreases |log|
  {
    var n: nat := |log| - 1;
    if k == n {
      assert log[..k + 1] == log;
      hide Recorded;
    } else {
      var b := Recorded(key, log[..n]);
      RecordedBounds(key, log[..n]);
      RecordIsMonotone(b, log[n]);
      assert Recorded(key, log) == Record(b, log[n]);
      hide Record, RecordAll, Orphans, OpenLine;
      OrphansBefore(key, log, n, k);
      OrphanStaysExactly(key, log[..n], k);
      OrphanOutput(key, log, k);
      OutputOnlyGrows(key, log[..n], k + 1);
      OutputOnlyGrows(key, log, n);
      StaysStep(key, log, k);
      if OrphanStays(key, log[..n], k) {
        LaterReply(b, log[n], Recorded(key, log[..k]).output);
      }
    }
  }

  lemma LaterReply(b: Buffer, e: Entry, output: bytes)
    requires b.output == output + [NL] && |b.output| <= MAX_BYTES && !Record(b, e).failed
    ensures e.Reply? && (Record(b, e).output == b.output <==> Skipped(b.count, e.text, Room(output + [NL])))
  {
    SkippedExactly(b, e.text, e.memory);
    hide Accepted, Skipped;
  }

  lemma StaysStep(key: Key, log: seq<Entry>, k: nat)
    requires k < |log| - 1 && OrphansAt(key, log, k)
    ensures var n := |log| - 1;
      OrphanStays(key, log, k) <==>
      && OrphanStays(key, log[..n], k)
      && (log[n].Reply? ==> Skipped(|Texts(log[..n])|, log[n].text, Room(Recorded(key, log[..k]).output + [NL])))
  {
    hide Recorded, Skipped, Texts;
    var n := |log| - 1;
    OrphansBefore(key, log, n, k);
    assert forall j :: k < j < n ==> log[..n][j] == log[j] && log[..n][..j] == log[..j];
  }

  lemma EndsAsShown(key: Key, log: seq<Entry>)
    requires !Recorded(key, log).failed
    ensures EndsWithOrphan(key, log) <==> OrphanIsLast(key, log)
  {
    hide Recorded;
    forall k: nat | OrphansAt(key, log, k)
      ensures OrphanStays(key, log, k) <==> Recorded(key, log).output == Recorded(key, log[..k + 1]).output
    {
      OrphanStaysExactly(key, log, k);
    }
    hide OrphansAt;
  }

  /**
   * In every log without a failure the pieces taken are a cut of each of the
   * first 128 replies in order; the buffer is their join exactly when the log
   * does not end with an orphan, and their join and one newline when it does.
   */
  lemma TruncatedIsJoinOfCuts(key: Key, log: seq<Entry>)
    requires !Recorded(key, log).failed
    ensures var b, texts, pieces := Recorded(key, log), Texts(log), Pieces(key, log);
      && |pieces| == Min(|texts|, MAX_MESSAGES)
      && (forall i :: 0 <= i < |pieces| ==> CutOf(pieces[i], texts[i]))
      && (b.output == Join(pieces) <==> !EndsWithOrphan(key, log))
      && (EndsWithOrphan(key, log) ==> b.output == Join(pieces) + [NL] && b.cut && OpenLine(Join(pieces)))
  {
    EndsAsShown(key, log);
    BufferIsJoinOfPieces(key, log);
    hide *;
    assert Join(Pieces(key, log)) + [] == Join(Pieces(key, log));
    assert |Join(Pieces(key, log)) + [NL]| == |Join(Pieces(key, log))| + 1;
  }

  lemma {:induction false} BufferIsJoinOfPieces(key: Key, log: seq<Entry>)
    requires !Recorded(key, log).failed
    ensures var b, texts, pieces := Recorded(key, log), Texts(log), Pieces(key, log);
      && |pieces| == Min(|texts|, MAX_MESSAGES)
      && (forall i :: 0 <= i < |pieces| ==> CutOf(pieces[i], texts[i]))
      && b.output == Join(pieces) + (if OrphanIsLast(key, log) then [NL] else [])
      && (OrphanIsLast(key, log) ==> b.cut && OpenLine(Join(pieces)))
  {
    hide Accepted, Piece, Orphans, CutOf, Join, PrefixSize;
    if log == [] {
      EmptyJoin();
    } else {
      var n := |log| - 1;
      var b := Recorded(key, log[..n]);
      RecordedBounds(key, log[..n]);
      RecordIsMonotone(b, log[n]);
      BufferIsJoinOfPieces(key, log[..n]);
      NothingLostSilently(key, log);
      OrphanStep(key, log);
      JoinStep(b, Texts(log[..n]), Pieces(key, log[..n]), OrphanIsLast(key, log[..n]), log[n].text, log[n].memory);
    }
  }

  /** One cut for each of the first 128 texts. */
  predicate AreCuts(cuts: seq<bytes>, texts: seq<bytes>) {
    |cuts| == Min(|texts|, MAX_MESSAGES) && forall i :: 0 <= i < |cuts| ==> CutOf(cuts[i], texts[i])
  }

  lemma {:induction false} JoinEndsOpen(cuts: seq<bytes>)
    requires forall i :: 0 <= i < |cuts| ==> NL !in cuts[i]
    ensures Join(cuts) == [] || OpenLine(Join(cuts))
  {
    if cuts != [] {
      var n := |cuts| - 1;
      JoinEndsOpen(cuts[..n]);
      assert cuts[n] != [] ==> cuts[n][|cuts[n]| - 1] in cuts[n];
    }
  }

  /** Of replies without newlines, the buffer is the join of any cuts at all exactly when the log does not end with an orphan. */
  lemma NoOtherCutsFit(key: Key, log: seq<Entry>)
    requires !Recorded(key, log).failed && forall i :: 0 <= i < |Texts(log)| ==> NL !in Texts(log)[i]
    ensures (exists cuts :: AreCuts(cuts, Texts(log)) && Join(cuts) == Recorded(key, log).output)
            <==> !EndsWithOrphan(key, log)
  {
    TruncatedIsJoinOfCuts(key, log);
    assert AreCuts(Pieces(key, log), Texts(log));
    hide Recorded, EndsWithOrphan, Texts, Pieces, Join;
    if EndsWithOrphan(key, log) {
      forall cuts | AreCuts(cuts, Texts(log))
        ensures Join(cuts) != Recorded(key, log).output
      {
        forall i | 0 <= i < |cuts|
          ensures NL !in cuts[i]
        {
          assert CutOf(cuts[i], Texts(log)[i]);
        }
        JoinEndsOpen(cuts);
      }
    }
  }

  lemma EmptyJoin()
    ensures Join([]) + [] == []
  {
  }

  /** `b` holds the join of cuts of the first 128 texts, and perhaps an orphan newline. */
  predicate HoldsCuts(b: Buffer, texts: seq<bytes>, pieces: seq<bytes>, orphan: bool) {
    && |pieces| == Min(|texts|, MAX_MESSAGES)
    && (forall i :: 0 <= i < |pieces| ==> CutOf(pieces[i], texts[i]))
    && b.output == Join(pieces) + (if orphan then [NL] else [])
    && (orphan ==> b.cut && OpenLine(Join(pieces)))
  }

  /** The induction step: one more reply. */
  lemma JoinStep(b: Buffer, texts: seq<bytes>, pieces: seq<bytes>, orphan: bool, text: bytes, memory: Allocation)
    requires |b.output| <= MAX_BYTES && b.count == |texts|
    requires HoldsCuts(b, texts, pieces, orphan)
    requires !Accepted(b, text, memory).failed
    ensures var b', takes := Accepted(b, text, memory), b.count < MAX_MESSAGES;
      var orphan' := (takes && Orphans(b.output, text)) || (orphan && b'.output == b.output);
      HoldsCuts(b', texts + [text], pieces + (if takes then [Piece(b.output, text)] else []), orphan')
  {
    RecordIsMonotone(b, Reply(text, memory));
    if b.count < MAX_MESSAGES {
      AcceptedOutput(b, text, memory);
      PieceIsCut(b.output, text);
      JoinSnoc(pieces, Piece(b.output, text));
      StepOutput(Join(pieces), orphan, b.output, text);
      hide Orphans, Piece, CutOf, Accepted, Join, PrefixSize;
    } else {
      assert pieces + [] == pieces;
      hide CutOf, Join, PrefixSize;
    }
  }

  /** Joining one more piece, after an orphan newline or none. */
  lemma StepOutput(join: bytes, orphan: bool, output: bytes, text: bytes)
    requires output == join + (if orphan then [NL] else [])
    requires orphan ==> OpenLine(join)
    ensures var piece := Piece(output, text);
      && (Orphans(output, text) ==> !orphan && piece == [] && OpenLine(join) && join + [] == JoinOne(join, piece))
      && (!Orphans(output, text) ==>
            var after := JoinOne(output, piece);
            var still := orphan && after == output;
            && after == JoinOne(join, piece) + (if still then [NL] else [])
            && (still ==> OpenLine(JoinOne(join, piece))))
  {
    hide PrefixSize;
    var piece := Piece(output, text);
    if orphan {
      assert output[|output| - 1] == NL;
      if piece == [] {
        assert output + [] == output && join + [] == join;
      } else {
        assert output + piece == join + [NL] + piece;
      }
    } else {
      assert output == join;
      assert JoinOne(join, piece) + [] == JoinOne(join, piece);
    }
  }

  function Repeat(c: byte, n: nat): bytes { seq(n, _ => c) }

  /**
   * A log that ends with an orphan newline: one byte short of a full buffer, and
   * then one more reply. No cuts of the two replies join to what the buffer has.
   */
  lemma OrphanExists(key: Key)
    ensures var line := Repeat(97, MAX_BYTES - 1);
      var log := [Reply(line, Fits), Reply([98], Fits)];
      && !Recorded(key, log).failed && EndsWithOrphan(key, log)
      && Recorded(key, log).output == line + [NL]
      && forall p, q :: CutOf(p, line) && CutOf(q, [98]) ==> Join([p, q]) != Recorded(key, log).output
  {
    var line := Repeat(97, MAX_BYTES - 1);
    var log := [Reply(line, Fits), Reply([98], Fits)];
    LastOfRepeat(97, MAX_BYTES - 1);
    hide Repeat;
    var b := Accepted(Fresh(key), line, Fits);
    assert b.output == line && b.count == 1 && !b.failed by {
      assert line[..|line|] == line && [] + line == line;
    }
    assert log[..0] == [] && log[..1] == [Reply(line, Fits)] && log[..1][..0] == [] && log[..2] == log;
    assert Recorded(key, log[..0]) == Fresh(key);
    assert Recorded(key, log[..1]) == b;
    assert Recorded(key, log) == Accepted(b, [98], Fits);
    assert PrefixSize([98], 0) == 0;
    assert OrphansAt(key, log, 1);
    assert OrphanStays(key, log, 1);
    AcceptedOutput(b, [98], Fits);
    hide Recorded, EndsWithOrphan, Join;
    forall p, q | CutOf(p, line) && CutOf(q, [98])
      ensures Join([p, q]) != line + [NL]
    {
      JoinEndsOpen([p, q]);
    }
  }

  /**
   * Where a reply contains a newline, other cuts than the ones taken may fit
   * although the log ends with an orphan: here the second reply is dropped and
   * the third kept whole.
   */
  lemma OtherCutsMayFit(key: Key)
    ensures var line := Repeat(97, MAX_BYTES - 3);
      var log := [Reply(line, Fits), Reply([98], Fits), Reply([98, NL], Fits)];
      && !Recorded(key, log).failed && EndsWithOrphan(key, log)
      && CutOf([], [98]) && Join([line, [], [98, NL]]) == Recorded(key, log).output
  {
    var line := Repeat(97, MAX_BYTES - 3);
    var log := [Reply(line, Fits), Reply([98], Fits), Reply([98, NL], Fits)];
    LastOfRepeat(97, MAX_BYTES - 3);
    hide Repeat;
    var b1, b2 := FirstTwo(key, line);
    assert log[..0] == [] && log[..1] == [Reply(line, Fits)] && log[..1][..0] == [] && log[..2][..1] == log[..1] && log[..3] == log;
    hide Accepted;
    assert Recorded(key, log[..0]) == Fresh(key) && Recorded(key, log[..1]) == b1;
    assert Recorded(key, log[..2]) == b2;
    assert Recorded(key, log) == Accepted(b2, [98, NL], Fits);
    assert PrefixSize([98, NL], 0) == 0;
    hide RecordAll;
    assert OrphansAt(key, log, 2);
    assert OrphanStays(key, log, 2);
    AcceptedOutput(b2, [98, NL], Fits);
    JoinThree(line);
  }

  lemma FirstTwo(key: Key, line: bytes) returns (b1: Buffer, b2: Buffer)
    requires |line| == MAX_BYTES - 3 && OpenLine(line)
    ensures b1 == Accepted(Fresh(key), line, Fits) && b2 == Accepted(b1, [98], Fits)
    ensures b2.output == line + [NL, 98] && b2.count == 2 && !Accepted(b2, [98, NL], Fits).failed
  {
    b1, b2 := Accepted(Fresh(key), line, Fits), Accepted(Accepted(Fresh(key), line, Fits), [98], Fits);
    assert b1.output == line && b1.count == 1 && !b1.failed by {
      assert line[..|line|] == line && [] + line == line;
    }
    assert [98][..1] == [98] && line + [NL] + [98] == line + [NL, 98];
  }

  lemma JoinThree(line: bytes)
    requires OpenLine(line)
    ensures CutOf([], [98]) && Join([line, [], [98, NL]]) == line + [NL, 98] + [NL]
  {
    JoinSnoc([], line);
    JoinSnoc([line], []);
    JoinSnoc([line, []], [98, NL]);
    assert Join([]) == [];
    hide Join;
    assert [] + [line] == [line] && [line] + [[]] == [line, []];
    assert [line, []] + [[98, NL]] == [line, [], [98, NL]];
    assert [] + line == line && line + [] == line;
    assert line + [NL] + [98, NL] == line + [NL, 98] + [NL];
  }

  lemma LastOfRepeat(c: byte, n: nat)
    requires n > 0
    ensures |Repeat(c, n)| == n && Repeat(c, n)[n - 1] == c
    ensures forall i :: 0 <= i < n ==> Repeat(c, n)[i] == c
  {
  }

  predicate AllTexts(log: seq<Entry>, p: bytes -> bool) {
    forall i :: 0 <= i < |log| && log[i].Reply? ==> p(log[i].text)
  }

  /** Where nothing failed, the log is its texts. */
  lemma {:induction false} TextsAreTheLog(log: seq<Entry>)
    requires Failed !in log
    ensures |Texts(log)| == |log|
    ensures forall i :: 0 <= i < |log| ==> log[i].Reply? && Texts(log)[i] == log[i].text
  {
    if log != [] {
      TextsAreTheLog(log[..|log| - 1]);
    }
  }

  lemma {:induction false} FailedEntryStays(key: Key, log: seq<Entry>)
    requires Failed in log
    ensures Recorded(key, log).failed
  {
    var n := |log| - 1;
    RecordedBounds(key, log[..n]);
    RecordIsMonotone(Recorded(key, log[..n]), log[n]);
    if log[n] != Failed {
      FailedEntryStays(key, log[..n]);
    }
  }

  lemma {:induction false} JoinIsLonger(texts: seq<bytes>, i: nat)
    requires i < |texts|
    ensures |texts[i]| <= |Join(texts)|
  {
    var n := |texts| - 1;
    if i < n {
      JoinIsLonger(texts[..n], i);
    }
  }

  /** Well-formed, NUL-free replies leave a well-formed, NUL-free buffer, cut or not, failed or not. */
  lemma {:induction false} OutputStaysText(key: Key, log: seq<Entry>)
    requires AllTexts(log, t => IsText(t))
    ensures IsText(Recorded(key, log).output)
  {
    hide Accepted;
    if log != [] {
      var n := |log| - 1;
      OutputStaysText(key, log[..n]);
      if log[n].Reply? {
        AcceptedStaysText(Recorded(key, log[..n]), log[n].text, log[n].memory);
      }
    }
  }

  lemma AcceptedStaysText(b: Buffer, text: bytes, memory: Allocation)
    requires IsText(b.output) && IsText(text)
    ensures IsText(Accepted(b, text, memory).output)
  {
    assert IsText([NL]) by {
      AsciiIsWellFormed([NL]);
    }
    hide Appended, IsText;
    IsTextConcat(b.output, [NL]);
    AppendedStaysText(b.(count := b.count + 1), text, memory);
    AppendedStaysText(b.(count := b.count + 1, output := b.output + [NL]), text, memory);
  }

  lemma AppendedStaysText(b: Buffer, text: bytes, memory: Allocation)
    requires IsText(b.output) && IsText(text)
    ensures IsText(Appended(b, text, memory).output)
  {
    var n := PrefixSize(text, Room(b.output));
    hide IsText, PrefixSize;
    IsTextCut(text, n);
    IsTextConcat(b.output, text[..n]);
  }

  lemma {:induction false} OutputOnlyGrows(key: Key, log: seq<Entry>, n: nat)
    requires n <= |log|
    ensures Recorded(key, log[..n]).output <= Recorded(key, log).output
    decreases |log|
  {
    if n == |log| {
      assert log[..n] == log;
    } else {
      var m := |log| - 1;
      assert log[..m][..n] == log[..n];
      OutputOnlyGrows(key, log[..m], n);
      RecordedBounds(key, log[..m]);
      RecordIsMonotone(Recorded(key, log[..m]), log[m]);
      hide Record;
    }
  }

  /**
   * A cut for lack of room, at any point of a log and whatever comes later,
   * leaves at most three of the 65536 bytes unused.
   */
  lemma CutFillsTheBuffer(key: Key, log: seq<Entry>, n: nat)
    requires n <= |log| && AllTexts(log[..n], t => WellFormed(t))
    requires var b := Recorded(key, log[..n]); b.cut && b.count <= MAX_MESSAGES
    ensures |Recorded(key, log).output| >= 65533
  {
    FirstCutFillsTheBuffer(key, log[..n]);
    OutputOnlyGrows(key, log, n);
  }

  lemma {:induction false} FirstCutFillsTheBuffer(key: Key, log: seq<Entry>)
    requires AllTexts(log, t => WellFormed(t))
    requires var b := Recorded(key, log); b.cut && b.count <= MAX_MESSAGES
    ensures |Recorded(key, log).output| >= MAX_BYTES - 3
  {
    if log != [] {
      var n := |log| - 1;
      var b := Recorded(key, log[..n]);
      RecordedBounds(key, log[..n]);
      RecordIsMonotone(b, log[n]);
      if b.cut {
        FirstCutFillsTheBuffer(key, log[..n]);
      } else {
        CutLeavesLittle(b, log[n].text, log[n].memory);
      }
    }
  }

  lemma CutLeavesLittle(b: Buffer, text: bytes, memory: Allocation)
    requires WellFormed(text) && |b.output| <= MAX_BYTES && !b.cut && b.count < MAX_MESSAGES
    requires Accepted(b, text, memory).cut
    ensures |Accepted(b, text, memory).output| >= MAX_BYTES - 3
  {
    var before := if NeedsNewline(b.output, text) then b.output + [NL] else b.output;
    var room := Room(before);
    if room < |text| {
      PrefixSizeNearLimit(text, room);
    }
    hide WellFormed;
  }

  /** A text longer than a whole buffer never goes in unnoticed: it sets the truncation flag unless memory ran out on it. */
  lemma LongTextIsCut(b: Buffer, text: bytes, memory: Allocation)
    requires |b.output| <= MAX_BYTES && |text| > MAX_BYTES
    ensures var b' := Accepted(b, text, memory);
      && (memory.Fits? ==> b'.cut)
      && (b'.cut || (b'.failed && !memory.Fits?))
  {
    hide PrefixSize;
  }

  // ----- nested scopes -----

  /** A well-nested run on one thread: replies and failures, and scopes with a run inside. */
  datatype Run =
    | Done
    | Say(key: Key, text: bytes, memory: Allocation, next: Run)
    | Fail(next: Run)
    | Within(scope: Key, body: Run, next: Run)

  function Perform(stack: seq<Buffer>, run: Run): (r: seq<Buffer>)
    ensures |r| == |stack|
    decreases run
  {
    match run
    case Done => stack
    case Say(key, text, memory, next) => Perform(AcceptTop(stack, key, text, memory), next)
    case Fail(next) => Perform(FailTop(stack), next)
    case Within(key, body, next) => Perform(Perform(stack + [Fresh(key)], body)[..|stack|], next)
  }

  /** The heap-linked scopes do what `Perform` says on values, for every run. */
  method PerformOnThread(thread: Thread, run: Run)
    requires thread.Valid()
    modifies thread, thread.scopes
    ensures thread.Valid() && thread.scopes == old(thread.scopes)
    ensures thread.Stack() == Perform(old(thread.Stack()), run)
    decreases run, 0
  {
    hide AcceptTop, FailTop, Thread.Matches;
    match run {
      case Done =>
      case Say(key, text, memory, next) =>
        var _ := thread.Accept(key, text, memory);
        PerformOnThread(thread, next);
      case Fail(next) =>
        thread.Failure();
        PerformOnThread(thread, next);
      case Within(key, body, next) =>
        PerformWithin(thread, key, body);
        PerformOnThread(thread, next);
    }
  }

  /** A scope with a run inside; it is closed however the run ends. */
  method PerformWithin(thread: Thread, key: Key, body: Run)
    requires thread.Valid()
    modifies thread, thread.scopes
    ensures thread.Valid() && thread.scopes == old(thread.scopes)
    ensures var before := old(thread.Stack());
      thread.Stack() == Perform(before + [Fresh(key)], body)[..|before|]
    decreases body, 1
  {
    hide Perform, Thread.Matches, Thread.Stack, Thread.Valid, Scope.Value;
    ghost var before := thread.Stack();
    var scope := thread.Open(key);
    PerformOnThread(thread, body);
    thread.CurrentIsLast();
    assert |thread.Stack()| - 1 == |before|;
    thread.Close(scope);
  }

  /** The entries a run adds to the scope it starts in: its own replies, never those of inner scopes. */
  function Own(run: Run, key: Key): seq<Entry> {
    match run
    case Done => []
    case Say(k, text, memory, next) => (if key != 0 && k == key then [Reply(text, memory)] else []) + Own(next, key)
    case Fail(next) => [Failed] + Own(next, key)
    case Within(_, _, next) => Own(next, key)
  }

  lemma {:induction false} RecordAllCons(b: Buffer, e: Entry, log: seq<Entry>)
    ensures RecordAll(b, [e] + log) == RecordAll(Record(b, e), log)
    decreases |log|
  {
    hide Record;
    if log == [] {
      assert [e] + log == [e] && [e][..0] == [];
    } else {
      var n := |log| - 1;
      RecordAllCons(b, e, log[..n]);
      assert ([e] + log)[..n + 1] == [e] + log[..n];
    }
  }

  /** One entry of the innermost scope. */
  lemma InnermostStep(stack: seq<Buffer>, stack': seq<Buffer>, e: Entry, log: seq<Entry>)
    requires stack != [] && stack' == stack[|stack| - 1 := Record(stack[|stack| - 1], e)]
    ensures var n := |stack| - 1;
      && |stack'| == |stack| && stack'[..n] == stack[..n]
      && stack'[n].command == stack[n].command
      && RecordAll(stack'[n], log) == RecordAll(stack[n], [e] + log)
  {
    KeepsCommand(stack[|stack| - 1], e);
    RecordAllCons(stack[|stack| - 1], e, log);
    hide Record, RecordAll;
  }

  lemma RecordNothing(b: Buffer)
    ensures RecordAll(b, []) == b
  {
  }

  /** Scopes isolate: a run changes only the innermost scope, and that one by its own entries in order. */
  lemma {:induction false} OnlyInnermostChanges(stack: seq<Buffer>, run: Run)
    ensures stack == [] ==> Perform(stack, run) == []
    ensures stack != [] ==>
              var n := |stack| - 1;
              && Perform(stack, run)[..n] == stack[..n]
              && Perform(stack, run)[n] == RecordAll(stack[n], Own(run, stack[n].command))
    decreases run
  {
    hide Accepted, RecordAll;
    match run
    case Done =>
      if stack != [] {
        RecordNothing(stack[|stack| - 1]);
      }
    case Say(key, text, memory, next) =>
      OnlyInnermostChanges(AcceptTop(stack, key, text, memory), next);
      if TopMatches(stack, key) {
        InnermostStep(stack, AcceptTop(stack, key, text, memory), Reply(text, memory), Own(next, key));
      } else if stack != [] {
        var own := stack[|stack| - 1].command;
        assert Own(run, own) == Own(next, own);
      }
    case Fail(next) =>
      OnlyInnermostChanges(FailTop(stack), next);
      if stack != [] {
        InnermostStep(stack, FailTop(stack), Failed, Own(next, stack[|stack| - 1].command));
      }
    case Within(key, body, next) =>
      OnlyInnermostChanges(stack + [Fresh(key)], body);
      assert (stack + [Fresh(key)])[..|stack|] == stack;
      OnlyInnermostChanges(stack, next);
  }

  lemma KeepsCommand(b: Buffer, e: Entry)
    ensures Record(b, e).command == b.command
  {
  }

  /** A scope opened for a command ends up with exactly what its own body said. */
  lemma ScopeCapturesItsBody(stack: seq<Buffer>, key: Key, body: Run)
    ensures var inside := Perform(stack + [Fresh(key)], body);
      inside[..|stack|] == stack && inside[|stack|] == Recorded(key, Own(body, key))
  {
    OnlyInnermostChanges(stack + [Fresh(key)], body);
    assert (stack + [Fresh(key)])[..|stack|] == stack;
  }
}
