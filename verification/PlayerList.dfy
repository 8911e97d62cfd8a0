/**
 * The player listing: which connected players there are, in what order, and one
 * line for each that no player name can forge or split.
 */
module PlayerList {
  import opened Bytes
  import opened Utf8
  import opened Utf16
  import opened Sorting

  const MAX_PLAYERS: nat := 1024
  const MAX_FIELD: nat := 512
  const MAX_REFLECTED: nat := 65536

  datatype PlayersError = ReflectionUnavailable | AmbiguousSteamId | TooManyPlayers | Unreadable

  /** A connected player; `controller` is its index among the live connected controllers. */
  datatype Player = Player(controller: nat, id: bytes)

  datatype Players = Players(players: seq<Player>) | Failed(why: PlayersError)

  /** The controllers that report a SteamID, in the order they are met. */
  function WithSteamId(ids: seq<bytes>): seq<Player> {
    if ids == [] then []
    else
      var n := |ids| - 1;
      WithSteamId(ids[..n]) + if SteamIdValid(ids[n]) then [Player(n, ids[n])] else []
  }

  predicate DistinctIds(players: seq<Player>) {
    forall i, j :: 0 <= i < j < |players| ==> players[i].id != players[j].id
  }

  function PlayerId(p: Player): bytes { p.id }

  predicate Ascending(players: seq<Player>) {
    forall i, j :: 0 <= i < j < |players| ==> LexLess(players[i].id, players[j].id)
  }

  /** Lists the players if their ids are distinct and not too many, and only then; strictly ascending by id. */
  method ConnectedPlayers(ids: seq<bytes>) returns (r: Players)
    ensures r.Players? <==> DistinctIds(WithSteamId(ids)) && |WithSteamId(ids)| <= 1024
    ensures r.Players? ==> Ascending(r.players) && multiset(r.players) == multiset(WithSteamId(ids))
    ensures r.Failed? ==> r.why == AmbiguousSteamId || r.why == TooManyPlayers
  {
    hide LexLess;
    var players: seq<Player> := [];
    var seen: set<bytes> := {};
    var i := 0;
    assert ids[..0] == [];
    while i < |ids|
      invariant 0 <= i <= |ids|
      invariant players == WithSteamId(ids[..i]) && DistinctIds(players) && |players| <= MAX_PLAYERS
      invariant seen == set k | 0 <= k < |players| :: players[k].id
    {
      WithSteamIdStep(ids, i);
      WithSteamIdGrows(ids, i + 1);
      if !SteamIdValid(ids[i]) {
        i := i + 1;
        continue;
      }
      if ids[i] in seen {
        ghost var k :| 0 <= k < |players| && players[k].id == ids[i];
        ghost var all := WithSteamId(ids);
        assert all[k].id == all[|players|].id;
        return Failed(AmbiguousSteamId);
      }
      if |players| >= MAX_PLAYERS {
        return Failed(TooManyPlayers);
      }
      ghost var before := players;
      seen := seen + {ids[i]};
      players := players + [Player(i, ids[i])];
      assert forall k :: 0 <= k < |before| ==> players[k] == before[k];
      assert players[|before|].id == ids[i];
      i := i + 1;
    }
    assert ids[..i] == ids;
    var sorted := SortBy(players, PlayerId);
    DistinctInAnyOrder(players, sorted);
    SortedDistinctAscends(sorted);
    r := Players(sorted);
  }

  lemma WithSteamIdStep(ids: seq<bytes>, i: nat)
    requires i < |ids|
    ensures WithSteamId(ids[..i + 1]) == WithSteamId(ids[..i]) + if SteamIdValid(ids[i]) then [Player(i, ids[i])] else []
  {
    assert ids[..i + 1][..i] == ids[..i];
  }

  lemma {:induction false} WithSteamIdGrows(ids: seq<bytes>, i: nat)
    requires i <= |ids|
    ensures WithSteamId(ids[..i]) <= WithSteamId(ids)
    decreases |ids|
  {
    if i == |ids| {
      assert ids[..i] == ids;
    } else {
      var n := |ids| - 1;
      assert ids[..n][..i] == ids[..i];
      WithSteamIdGrows(ids[..n], i);
    }
  }

  lemma {:induction false} DistinctCount(players: seq<Player>, p: Player)
    requires DistinctIds(players)
    ensures multiset(players)[p] <= 1
  {
    if players != [] {
      var n := |players| - 1;
      DistinctCount(players[..n], p);
      assert players == players[..n] + [players[n]];
      if p == players[n] {
        assert p !in players[..n];
      }
    }
  }

  lemma DistinctInAnyOrder(a: seq<Player>, b: seq<Player>)
    requires DistinctIds(a) && multiset(a) == multiset(b)
    ensures DistinctIds(b)
  {
    forall i, j | 0 <= i < j < |b|
      ensures b[i].id != b[j].id
    {
      if b[i].id == b[j].id {
        assert b[i] in multiset(a) && b[j] in multiset(a);
        var k :| 0 <= k < |a| && a[k] == b[i];
        var l :| 0 <= l < |a| && a[l] == b[j];
        assert k == l;
        TwiceInMultiset(b, i, j);
        DistinctCount(a, b[i]);
      }
    }
  }

  lemma TwiceInMultiset<T>(xs: seq<T>, i: nat, j: nat)
    requires i < j < |xs| && xs[i] == xs[j]
    ensures multiset(xs)[xs[i]] >= 2
  {
    assert xs == xs[..i] + [xs[i]] + xs[i + 1..j] + [xs[j]] + xs[j + 1..];
  }

  lemma SortedDistinctAscends(players: seq<Player>)
    requires Sorted(players, PlayerId) && DistinctIds(players)
    ensures Ascending(players)
  {
    hide LexLess;
    forall i, j | 0 <= i < j < |players|
      ensures LexLess(players[i].id, players[j].id)
    {
      assert !LexLess(PlayerId(players[j]), PlayerId(players[i]));
      if !LexLess(players[i].id, players[j].id) {
        LexLessTotal(players[i].id, players[j].id);
      }
    }
  }

  // ----- the name field -----

  function MaskedByte(c: byte): byte { if c < 32 || c == DEL || c == BAR then SPACE else c }

  function Masked(t: bytes): (r: bytes)
    ensures |r| == |t|
    ensures forall i :: 0 <= i < |t| ==> r[i] == MaskedByte(t[i])
  {
    seq(|t|, i requires 0 <= i < |t| => MaskedByte(t[i]))
  }

  function Field(value: bytes): bytes {
    Masked(value)[..PrefixSize(Masked(value), MAX_FIELD)]
  }

  method FieldOf(value: bytes) returns (r: bytes)
    ensures r == Field(value)
  {
    r := value;
    var i := 0;
    while i < |r|
      invariant 0 <= i <= |r| == |value|
      invariant forall k :: 0 <= k < i ==> r[k] == MaskedByte(value[k])
      invariant forall k :: i <= k < |r| ==> r[k] == value[k]
    {
      if r[i] < 32 || r[i] == DEL || r[i] == BAR {
        r := r[i := SPACE];
      }
      i := i + 1;
    }
    assert r == Masked(value);
    var n := Utf8PrefixSize(r, MAX_FIELD);
    r := r[..n];
  }

  /** Nothing that ends a line or a field. */
  predicate Clean(t: bytes) { forall i :: 0 <= i < |t| ==> t[i] != NL && t[i] != BAR }

  /** A field is short, clean and NUL-free, whatever the name; and valid UTF-8 when the name was. */
  lemma FieldIsSafe(value: bytes)
    ensures |Field(value)| <= MAX_FIELD && Clean(Field(value)) && NulFree(Field(value))
    ensures WellFormed(value) ==> IsText(Field(value))
    ensures |value| <= MAX_FIELD ==> |Field(value)| == |value|
  {
    var m := Masked(value);
    if WellFormed(value) {
      AsciiReplacement(value, m);
      SplitAtBoundary(m, PrefixSize(m, MAX_FIELD));
    }
    hide WellFormed, PrefixSize;
    assert forall i :: 0 <= i < |Field(value)| ==> Field(value)[i] == MaskedByte(value[i]);
  }

  /**
   * A field byte by byte: the name's own bytes, and a blank for each control,
   * DEL and bar; it ends at the last code-point boundary within 512 bytes.
   */
  lemma FieldExactly(value: bytes)
    ensures |Field(value)| <= |value| && |Field(value)| <= 512
    ensures forall i :: 0 <= i < |Field(value)| ==>
              Field(value)[i] == if value[i] < 32 || value[i] == 127 || value[i] == 124 then 32 else value[i]
    ensures |value| <= 512 ==> |Field(value)| == |value|
    ensures |Field(value)| == |value| || !(0x80 <= value[|Field(value)|] < 0xC0) || |Field(value)| == 0
    ensures forall j: nat :: |Field(value)| < j <= |value| && j <= 512 ==> j != |value| && 0x80 <= value[j] < 0xC0
  {
    var m := Masked(value);
    var n := PrefixSize(m, MAX_FIELD);
    forall j: nat | n < j <= |value| && j <= 512
      ensures j != |value| && 0x80 <= value[j] < 0xC0
    {
      assert !IsBoundary(m, j);
    }
  }

  /** A name that needs no change: short enough, without controls, DEL and bar. */
  predicate PlainName(name: bytes) {
    |name| <= 512 && forall i :: 0 <= i < |name| ==> name[i] >= 32 && name[i] != 127 && name[i] != 124
  }

  lemma PlainNameIsItsField(name: bytes)
    requires PlainName(name)
    ensures Field(name) == name
  {
    FieldExactly(name);
    hide Field;
  }

  // ----- the listing -----

  /** The optional data of a player; addresses and coordinates are text the engine has formatted. */
  datatype Details = Details(
    profile: Option<nat>, ip: Option<bytes>, money: Option<int>, gold: Option<int>, ping: Option<byte>, location: Option<bytes>)

  datatype Record = Record(id: bytes, details: Details, name: bytes)

  function Digits(n: nat): bytes {
    if n < 10 then [48 + n] else Digits(n / 10) + [48 + n % 10]
  }

  function Decimal(n: int): bytes { if n < 0 then [45] + Digits(-n) else Digits(n) }

  function Tagged(tag: string, n: Option<int>): bytes {
    if n.Some? then Ascii(tag) + Decimal(n.value) else []
  }

  function AddressText(ip: Option<bytes>): bytes {
    match ip
    case Some(address) => Ascii(" ip=") + address + Ascii(" ipSource=connection")
    case None => Ascii(" ipStatus=unavailable")
  }

  function LocationText(location: Option<bytes>): bytes {
    match location
    case Some(coordinates) => Ascii(" (") + coordinates + Ascii(")")
    case None => []
  }

  function PingTime(ping: Option<byte>): Option<int> {
    if ping.Some? then Some(ping.value * 4) else None
  }

  function DetailsText(d: Details): bytes {
    Tagged(" upid=", d.profile) + AddressText(d.ip) + Tagged(" money=", d.money) + Tagged(" gold=", d.gold)
    + Tagged(" ping=", PingTime(d.ping)) + LocationText(d.location)
  }

  function LineOf(r: Record): bytes {
    Ascii("PLAYER steam=") + r.id + DetailsText(r.details) + Ascii(" | ") + Field(r.name) + Ascii(" |") + [NL]
  }

  function Lines(records: seq<Record>): seq<bytes> {
    seq(|records|, i requires 0 <= i < |records| => LineOf(records[i]))
  }

  function ListText(records: seq<Record>): bytes {
    if records == [] then Ascii("No players online.") else Concat(Lines(records))
  }

  /** What the engine knows about the controllers, by index. */
  function RecordsOf(players: seq<Player>, details: nat -> Details, name: nat -> bytes): seq<Record> {
    seq(|players|, i requires 0 <= i < |players| =>
      Record(players[i].id, details(players[i].controller), name(players[i].controller)))
  }

  datatype ListReply = Listed(text: bytes) | ListFailed(why: PlayersError)

  /** `utf8`: a string the engine reports, or None where the conversion throws. */
  function Reflected(value: wide): Option<bytes> { if |value| > MAX_REFLECTED then None else Transcode(value) }

  /** Which reported strings can be read, and that they are then well-formed UTF-8. */
  lemma ReflectedExactly(value: wide)
    ensures Reflected(value).Some? <==> |value| <= 65536 && Paired(value)
    ensures Paired(value) && Reflected(value).Some? ==>
              WellFormed(Reflected(value).value) && ScalarsOf(Reflected(value).value) == Scalars(value)
  {
    TranscodeExactly(value);
    hide Transcode, Paired, WellFormed, Scalars, ScalarsOf;
  }

  /** What the engine reports of one controller; no address text when it cannot be converted. */
  datatype Profile = Profile(details: Option<Details>, name: wide)

  /** The address can be converted, and the name is valid UTF-16 of at most 65536 units. */
  predicate Readable(p: Profile) { p.details.Some? && |p.name| <= 65536 && Paired(p.name) }

  const NO_DETAILS: Details := Details(None, None, None, None, None, None)

  function DetailsOf(p: Profile): Details { if p.details.Some? then p.details.value else NO_DETAILS }

  function NameOf(p: Profile): bytes { if Reflected(p.name).Some? then Reflected(p.name).value else [] }

  /** What the engine reports of all controllers: their SteamIDs, unless reflection fails, and their profiles, if it has the class for them. */
  datatype Engine = Engine(ids: Option<seq<bytes>>, profiles: nat -> Profile, profilesReflected: bool)
  {
    function Records(players: seq<Player>): seq<Record> {
      RecordsOf(players, (k: nat) => DetailsOf(profiles(k)), (k: nat) => NameOf(profiles(k)))
    }

    /** The ids are reported, distinct and not too many. */
    predicate Identified() {
      ids.Some? && DistinctIds(WithSteamId(ids.value)) && |WithSteamId(ids.value)| <= 1024
    }

    /** Some listed player has an address or a name that cannot be converted. */
    predicate AnyUnreadable()
      requires ids.Some?
    {
      exists p :: p in WithSteamId(ids.value) && !Readable(profiles(p.controller))
    }
  }

  /**
   * The listing fails as a whole when ids are missing, ambiguous or too many,
   * and, if there are players at all, when profiles cannot be reflected or a
   * single one cannot be converted; else it has exactly the connected players.
   */
  method ListPlayers(engine: Engine) returns (r: ListReply, ghost players: seq<Player>)
    ensures r.Listed? <==>
              engine.Identified() &&
              (WithSteamId(engine.ids.value) == [] || (engine.profilesReflected && !engine.AnyUnreadable()))
    ensures r == ListFailed(Unreadable) <==>
              engine.Identified() && WithSteamId(engine.ids.value) != [] && engine.profilesReflected && engine.AnyUnreadable()
    ensures r.Listed? ==>
              && Ascending(players) && multiset(players) == multiset(WithSteamId(engine.ids.value))
              && r.text == ListText(engine.Records(players))
              && |engine.Records(players)| == |players|
              && forall i :: 0 <= i < |players| ==>
                   var profile, rec := engine.profiles(players[i].controller), engine.Records(players)[i];
                   && rec.id == players[i].id && profile.details == Some(rec.details)
                   && Paired(profile.name) && WellFormed(rec.name) && ScalarsOf(rec.name) == Scalars(profile.name)
  {
    hide LineOf, Field, Ascii, Reflected, Ascending, DistinctIds, Paired, WellFormed, Scalars, ScalarsOf, Engine.Records;
    players := [];
    if engine.ids.None? {
      return ListFailed(ReflectionUnavailable), [];
    }
    var connected := ConnectedPlayers(engine.ids.value);
    if connected.Failed? {
      return ListFailed(connected.why), [];
    }
    players := connected.players;
    SamePlayers(players, WithSteamId(engine.ids.value));
    if connected.players == [] {
      NoRecords(engine);
      RecordsExactly(engine, players);
      return Listed(Ascii("No players online.")), players;
    }
    if !engine.profilesReflected {
      return ListFailed(ReflectionUnavailable), [];
    }
    var lines := ListLines(engine, connected.players);
    if lines.None? {
      return ListFailed(Unreadable), [];
    }
    RecordsExactly(engine, players);
    r := Listed(lines.value);
  }

  lemma SamePlayers(a: seq<Player>, b: seq<Player>)
    requires multiset(a) == multiset(b)
    ensures forall p :: p in a <==> p in b
    ensures a == [] <==> b == []
  {
    assert forall p :: p in a <==> p in multiset(a);
    assert forall p :: p in b <==> p in multiset(b);
    assert |multiset(a)| == |a| && |multiset(b)| == |b|;
  }

  lemma NoRecords(engine: Engine)
    ensures ListText(engine.Records([])) == Ascii("No players online.")
  {
    hide Ascii;
  }

  /** A record has what the engine reports of that player: the id, the details, and the name character by character. */
  lemma RecordsExactly(engine: Engine, players: seq<Player>)
    requires forall p :: p in players ==> Readable(engine.profiles(p.controller))
    ensures |engine.Records(players)| == |players|
    ensures forall i :: 0 <= i < |players| ==>
              var profile, rec := engine.profiles(players[i].controller), engine.Records(players)[i];
              && rec.id == players[i].id && profile.details == Some(rec.details)
              && Paired(profile.name) && WellFormed(rec.name) && ScalarsOf(rec.name) == Scalars(profile.name)
  {
    forall i | 0 <= i < |players|
      ensures var profile, rec := engine.profiles(players[i].controller), engine.Records(players)[i];
        && rec.id == players[i].id && profile.details == Some(rec.details)
        && Paired(profile.name) && WellFormed(rec.name) && ScalarsOf(rec.name) == Scalars(profile.name)
    {
      assert players[i] in players;
      ReflectedExactly(engine.profiles(players[i].controller).name);
      hide Reflected, Paired, WellFormed, Scalars, ScalarsOf;
    }
  }

  /** The loop over the players; a string that cannot be converted ends it without a listing. */
  method ListLines(engine: Engine, players: seq<Player>) returns (text: Option<bytes>)
    requires players != []
    ensures text.None? <==>
            exists p :: p in players &&
              var profile := engine.profiles(p.controller);
              profile.details.None? || |profile.name| > 65536 || !Paired(profile.name)
    ensures text.Some? ==> text.value == ListText(engine.Records(players))
  {
    hide LineOf, Field, Ascii, Reflected, Paired;
    ghost var records := engine.Records(players);
    var out: bytes := [];
    var i := 0;
    assert Lines(records)[..0] == [];
    while i < |players|
      invariant 0 <= i <= |players|
      invariant out == Concat(Lines(records)[..i])
      invariant forall k :: 0 <= k < i ==> Readable(engine.profiles(players[k].controller))
    {
      var profile := engine.profiles(players[i].controller);
      ReflectedExactly(profile.name);
      if profile.details.None? {
        return None;
      }
      var name := Reflected(profile.name);
      if name.None? {
        return None;
      }
      ConcatSnoc(Lines(records)[..i], Lines(records)[i]);
      assert Lines(records)[..i + 1] == Lines(records)[..i] + [Lines(records)[i]];
      var line := PlayerLine(players[i].id, profile.details.value, name.value);
      out := out + line;
      i := i + 1;
    }
    assert Lines(records)[..i] == Lines(records);
    text := Some(out);
  }

  method PlayerLine(id: bytes, details: Details, name: bytes) returns (line: bytes)
    ensures line == LineOf(Record(id, details, name))
  {
    hide Ascii, Field, DetailsText;
    line := Ascii("PLAYER steam=") + id + DetailsText(details);
    var field := FieldOf(name);
    line := line + Ascii(" | ") + field + Ascii(" |") + [NL];
  }

  // ----- reading a listing back -----

  function IndexOf(t: bytes, c: byte): (i: nat)
    ensures i <= |t| && c !in t[..i]
    ensures i < |t| ==> t[i] == c
  {
    if t == [] || t[0] == c then 0 else 1 + IndexOf(t[1..], c)
  }

  /** What a line-based client gets out of one line. */
  datatype Entry = Entry(id: bytes, details: bytes, name: bytes)

  /** The id follows the fixed prefix; the first two bars delimit the name. */
  function ReadLine(line: bytes): Option<Entry> {
    var bar := IndexOf(line, BAR);
    if bar < 31 || bar >= |line| || line[..13] != Ascii("PLAYER steam=") then None
    else
      var rest := line[bar + 1..];
      var end := IndexOf(rest, BAR);
      if end < 2 || end >= |rest| then None
      else Some(Entry(line[13..30], line[30..bar - 1], rest[1..end - 1]))
  }

  function ReadList(text: bytes): seq<Option<Entry>>
    decreases |text|
  {
    if text == [] then []
    else
      var nl := IndexOf(text, NL);
      [ReadLine(text[..nl])] + if nl < |text| then ReadList(text[nl + 1..]) else []
  }

  function EntryOf(r: Record): Entry { Entry(r.id, DetailsText(r.details), Field(r.name)) }

  lemma FirstAt(a: bytes, c: byte, b: bytes)
    requires c !in a
    ensures IndexOf(a + [c] + b, c) == |a|
    ensures (a + [c] + b)[..|a|] == a && (a + [c] + b)[|a| + 1..] == b
  {
    var t := a + [c] + b;
    assert t[|a|] == c;
  }

  predicate SafeRecord(r: Record) { SteamIdValid(r.id) && Clean(DetailsText(r.details)) }

  lemma {:induction false} DigitsAreDigits(n: nat)
    ensures forall i :: 0 <= i < |Digits(n)| ==> IsDigit(Digits(n)[i])
  {
    if n >= 10 {
      DigitsAreDigits(n / 10);
    }
  }

  /** The number a row of digits stands for. */
  function Number(t: bytes): int {
    if t == [] then 0 else 10 * Number(t[..|t| - 1]) + t[|t| - 1] as int - 48
  }

  lemma {:induction false} DigitsNumber(n: nat)
    ensures Digits(n) != [] && Number(Digits(n)) == n
  {
    if n < 10 {
      assert [48 + n][..0] == [];
    } else {
      DigitsNumber(n / 10);
      var front: bytes := Digits(n / 10);
      assert Digits(n)[..|Digits(n)| - 1] == front;
    }
  }

  /** Printed numbers read back as themselves, the sign included. */
  lemma DecimalReadsBack(n: int)
    ensures if n < 0 then Decimal(n)[0] == 45 && Number(Decimal(n)[1..]) == -n else Number(Decimal(n)) == n
  {
    DigitsNumber(if n < 0 then -n else n);
  }

  // ----- reading the details back -----

  /** The details as a client reads them; the ping in milliseconds. */
  datatype Figures = Figures(
    profile: Option<int>, ip: Option<bytes>, money: Option<int>, gold: Option<int>, ping: Option<int>, location: Option<bytes>)

  function FiguresOf(d: Details): Figures {
    Figures(d.profile, d.ip, d.money, d.gold, if d.ping.Some? then Some(d.ping.value * 4) else None, d.location)
  }

  function ReadDecimal(t: bytes): int { if t != [] && t[0] == 45 then -Number(t[1..]) else Number(t) }

  /** The number behind `tag`, up to the next blank, and what is left. */
  function ReadTagged(tag: bytes, t: bytes): (Option<int>, bytes) {
    if !(tag <= t) then (None, t)
    else
      var body := t[|tag|..];
      var end := IndexOf(body, SPACE);
      (Some(ReadDecimal(body[..end])), body[end..])
  }

  function ReadAddress(t: bytes): (Option<bytes>, bytes) {
    if Ascii(" ip=") <= t then
      var body := t[4..];
      var end := IndexOf(body, SPACE);
      (Some(body[..end]), if end + 20 <= |body| then body[end + 20..] else [])
    else (None, if 21 <= |t| then t[21..] else [])
  }

  function ReadLocation(t: bytes): Option<bytes> {
    if |t| < 3 || t[0] != ' ' as int || t[1] != '(' as int || t[|t| - 1] != ')' as int then None else Some(t[2..|t| - 1])
  }

  function ReadDetails(text: bytes): Figures {
    var (profile, t1) := ReadTagged(Ascii(" upid="), text);
    var (ip, t2) := ReadAddress(t1);
    var (money, t3) := ReadTagged(Ascii(" money="), t2);
    var (gold, t4) := ReadTagged(Ascii(" gold="), t3);
    var (ping, t5) := ReadTagged(Ascii(" ping="), t4);
    Figures(profile, ip, money, gold, ping, ReadLocation(t5))
  }

  /** Empty, or a blank and then one of these letters. */
  predicate GoesOn(t: bytes, letters: set<byte>) {
    t == [] || (|t| >= 2 && t[0] == SPACE && t[1] in letters)
  }

  lemma DigitsHaveNoBlank(n: int)
    ensures Decimal(n) != [] && SPACE !in Decimal(n) && ReadDecimal(Decimal(n)) == n
  {
    var m := if n < 0 then -n else n;
    DigitsAreDigits(m);
    DecimalReadsBack(n);
    DigitsNumber(m);
    assert n >= 0 ==> Decimal(n)[0] in Decimal(n);
    assert SPACE !in Digits(m);
    assert n < 0 ==> Decimal(n)[1..] == Digits(m);
  }

  lemma AppendCut<T>(a: seq<T>, b: seq<T>)
    ensures (a + b)[..|a|] == a && (a + b)[|a|..] == b
  {
  }

  lemma UpToBlank(word: bytes, rest: bytes)
    requires SPACE !in word && (rest == [] || rest[0] == SPACE)
    ensures IndexOf(word + rest, SPACE) == |word|
    ensures (word + rest)[..|word|] == word && (word + rest)[|word|..] == rest
  {
    AppendCut(word, rest);
    if rest == [] {
      assert word + rest == word;
    } else {
      hide IndexOf;
      assert rest == [SPACE] + rest[1..];
      Associative(word, [SPACE], rest[1..]);
      FirstAt(word, SPACE, rest[1..]);
    }
  }

  lemma TaggedReadsBack(tag: string, n: Option<int>, rest: bytes, letters: set<byte>)
    requires |tag| >= 2 && Ascii(tag)[0] == SPACE && Ascii(tag)[1] !in letters && GoesOn(rest, letters)
    ensures ReadTagged(Ascii(tag), Tagged(tag, n) + rest) == (n, rest)
    ensures GoesOn(Tagged(tag, n) + rest, letters + {Ascii(tag)[1]})
  {
    var t := Ascii(tag);
    hide Ascii, Decimal, ReadDecimal, IndexOf;
    if n.None? {
      assert [] + rest == rest;
      assert rest != [] ==> rest[1] != t[1];
    } else {
      var word := Decimal(n.value);
      DigitsHaveNoBlank(n.value);
      UpToBlank(word, rest);
      Associative(t, word, rest);
      assert (t + (word + rest))[|t|..] == word + rest;
    }
  }

  lemma AddressLiterals()
    ensures Ascii(" ip=") == [32, 105, 112, 61]
    ensures |Ascii(" ipStatus=unavailable")| == 21 && |Ascii(" ipSource=connection")| == 20
    ensures Ascii(" ipStatus=unavailable")[..4] == [32, 105, 112, 83] && Ascii(" ipSource=connection")[0] == SPACE
  {
  }

  lemma AddressReadsBack(ip: Option<bytes>, rest: bytes)
    requires ip.Some? ==> SPACE !in ip.value
    ensures ReadAddress(AddressText(ip) + rest) == (ip, rest)
    ensures GoesOn(AddressText(ip) + rest, {105})
  {
    AddressLiterals();
    hide Ascii, IndexOf;
    var t := AddressText(ip) + rest;
    if ip.None? {
      assert t[..4] == Ascii(" ipStatus=unavailable")[..4];
      assert t[3] == t[..4][3] == 83;
    } else {
      var tail := Ascii(" ipSource=connection") + rest;
      assert t == Ascii(" ip=") + (ip.value + tail);
      assert t[4..] == ip.value + tail;
      UpToBlank(ip.value, tail);
      assert (ip.value + tail)[|ip.value| + 20..] == rest;
    }
  }

  lemma LocationReadsBack(location: Option<bytes>)
    ensures ReadLocation(LocationText(location)) == location
    ensures GoesOn(LocationText(location), {40})
  {
    assert Ascii(" (") == [32, 40] && Ascii(")") == [41];
    hide Ascii;
  }

  lemma DetailsShape(d: Details)
    ensures DetailsText(d) ==
            Tagged(" upid=", d.profile) + (AddressText(d.ip) + (Tagged(" money=", d.money) + (Tagged(" gold=", d.gold)
            + (Tagged(" ping=", PingTime(d.ping)) + LocationText(d.location)))))
  {
    hide Tagged, AddressText, LocationText, PingTime;
    var a, b, c, e, f, g := Tagged(" upid=", d.profile), AddressText(d.ip), Tagged(" money=", d.money),
      Tagged(" gold=", d.gold), Tagged(" ping=", PingTime(d.ping)), LocationText(d.location);
    Associative(a + b + c + e, f, g);
    Associative(a + b + c, e, f + g);
    Associative(a + b, c, e + (f + g));
    Associative(a, b, c + (e + (f + g)));
  }

  /**
   * A client reads every number, the address and the coordinates back from the
   * details of a line; an address is one word.
   */
  lemma DetailsReadBack(d: Details)
    requires d.ip.Some? ==> SPACE !in d.ip.value
    ensures ReadDetails(DetailsText(d)) == FiguresOf(d)
  {
    TagLetters();
    DetailsShape(d);
    hide Ascii, Tagged, AddressText, LocationText, DetailsText, GoesOn, ReadTagged, ReadAddress, ReadLocation;
    var t5 := LocationText(d.location);
    var t4 := Tagged(" ping=", PingTime(d.ping)) + t5;
    var t3 := Tagged(" gold=", d.gold) + t4;
    var t2 := Tagged(" money=", d.money) + t3;
    var t1 := AddressText(d.ip) + t2;
    assert {40} + {112} == {40, 112} && {40, 112} + {103} == {40, 112, 103};
    LocationReadsBack(d.location);
    TaggedReadsBack(" ping=", PingTime(d.ping), t5, {40});
    TaggedReadsBack(" gold=", d.gold, t4, {40, 112});
    TaggedReadsBack(" money=", d.money, t3, {40, 112, 103});
    AddressReadsBack(d.ip, t2);
    TaggedReadsBack(" upid=", d.profile, t1, {105});
  }

  lemma TagLetters()
    ensures Ascii(" upid=")[0] == SPACE && Ascii(" upid=")[1] == 117
    ensures Ascii(" money=")[0] == SPACE && Ascii(" money=")[1] == 109
    ensures Ascii(" gold=")[0] == SPACE && Ascii(" gold=")[1] == 103
    ensures Ascii(" ping=")[0] == SPACE && Ascii(" ping=")[1] == 112
  {
  }

  // ----- clean text -----

  lemma CleanConcat(a: bytes, b: bytes)
    requires Clean(a) && Clean(b)
    ensures Clean(a + b)
  {
  }

  lemma LiteralIsClean(s: string)
    requires forall i :: 0 <= i < |s| ==> ' ' <= s[i] <= 'z'
    ensures Clean(Ascii(s))
  {
  }

  lemma TaggedIsClean(tag: string, n: Option<int>)
    requires forall i :: 0 <= i < |tag| ==> ' ' <= tag[i] <= 'z'
    ensures Clean(Tagged(tag, n))
  {
    if n.Some? {
      DigitsAreDigits(if n.value < 0 then -n.value else n.value);
      assert Clean(Decimal(n.value));
      LiteralIsClean(tag);
      hide Ascii, Decimal;
      CleanConcat(Ascii(tag), Decimal(n.value));
    }
  }

  lemma AddressIsClean(ip: Option<bytes>)
    requires ip.Some? ==> Clean(ip.value)
    ensures Clean(AddressText(ip))
  {
    LiteralIsClean(" ip=");
    LiteralIsClean(" ipSource=connection");
    LiteralIsClean(" ipStatus=unavailable");
    hide Ascii;
  }

  lemma LocationIsClean(location: Option<bytes>)
    requires location.Some? ==> Clean(location.value)
    ensures Clean(LocationText(location))
  {
    LiteralIsClean(" (");
    LiteralIsClean(")");
    hide Ascii;
  }

  /** The numbers of a record never contain a bar or newline, so only the address and coordinates must not. */
  lemma DetailsAreClean(d: Details)
    requires d.ip.Some? ==> Clean(d.ip.value)
    requires d.location.Some? ==> Clean(d.location.value)
    ensures Clean(DetailsText(d))
  {
    TaggedIsClean(" upid=", d.profile);
    AddressIsClean(d.ip);
    TaggedIsClean(" money=", d.money);
    TaggedIsClean(" gold=", d.gold);
    TaggedIsClean(" ping=", PingTime(d.ping));
    LocationIsClean(d.location);
    hide Tagged, AddressText, PingTime, LocationText, Clean;
    var t1 := Tagged(" upid=", d.profile) + AddressText(d.ip);
    CleanConcat(Tagged(" upid=", d.profile), AddressText(d.ip));
    CleanConcat(t1, Tagged(" money=", d.money));
    var t2 := t1 + Tagged(" money=", d.money);
    CleanConcat(t2, Tagged(" gold=", d.gold));
    var t3 := t2 + Tagged(" gold=", d.gold);
    CleanConcat(t3, Tagged(" ping=", PingTime(d.ping)));
    CleanConcat(t3 + Tagged(" ping=", PingTime(d.ping)), LocationText(d.location));
  }

  lemma LineConstants()
    ensures Ascii(" | ") == [SPACE, BAR, SPACE] && Ascii(" |") == [SPACE, BAR]
    ensures Clean(Ascii("PLAYER steam=")) && |Ascii("PLAYER steam=")| == 13
  {
    assert Ascii("PLAYER steam=") == [80, 76, 65, 89, 69, 82, 32, 115, 116, 101, 97, 109, 61];
  }

  /** A line is a clean head, a bar, a clean name between blanks, and a closing bar. */
  lemma LineShape(r: Record) returns (head: bytes, name: bytes)
    requires SafeRecord(r)
    ensures LineOf(r) == head + ([BAR] + (name + [BAR, NL]))
    ensures Clean(head) && Clean(name)
    ensures |head| >= 31 && head[..13] == Ascii("PLAYER steam=") && head[13..30] == r.id && head[30..|head| - 1] == DetailsText(r.details)
    ensures |name| >= 2 && name[1..|name| - 1] == Field(r.name)
  {
    hide Field, DetailsText, Ascii;
    FieldIsSafe(r.name);
    LineConstants();
    var prefix, d, f := Ascii("PLAYER steam="), DetailsText(r.details), Field(r.name);
    head := prefix + r.id + d + [SPACE];
    name := [SPACE] + f + [SPACE];
    JoinLine(prefix + r.id + d, f);
  }

  lemma JoinLine(a: bytes, f: bytes)
    ensures a + [SPACE, BAR, SPACE] + f + [SPACE, BAR] + [NL] ==
            (a + [SPACE]) + ([BAR] + (([SPACE] + f + [SPACE]) + [BAR, NL]))
  {
  }

  lemma ReadBackBody(head: bytes, name: bytes)
    requires Clean(head) && Clean(name) && |head| >= 31 && |name| >= 2 && head[..13] == Ascii("PLAYER steam=")
    ensures NL !in head + [BAR] + (name + [BAR] + [])
    ensures ReadLine(head + [BAR] + (name + [BAR] + [])) == Some(Entry(head[13..30], head[30..|head| - 1], name[1..|name| - 1]))
  {
    var tail := name + [BAR] + [];
    var body := head + [BAR] + tail;
    assert BAR !in head && BAR !in name;
    FirstAt(head, BAR, tail);
    FirstAt(name, BAR, []);
    hide IndexOf, Ascii;
    assert body[..13] == body[..|head|][..13];
    assert body[13..30] == body[..|head|][13..30] && body[30..|head| - 1] == body[..|head|][30..|head| - 1];
    assert tail[1..|name| - 1] == tail[..|name|][1..|name| - 1];
  }

  lemma ReadBackLine(r: Record) returns (body: bytes)
    requires SafeRecord(r)
    ensures LineOf(r) == body + [NL] && NL !in body
    ensures ReadLine(body) == Some(EntryOf(r))
  {
    var head, name := LineShape(r);
    hide *;
    body := head + [BAR] + (name + [BAR] + []);
    ReadBackBody(head, name);
    SplitLine(head, name);
    assert EntryOf(r) == Entry(r.id, DetailsText(r.details), Field(r.name)) by {
      EntryOfIs(r);
    }
  }

  lemma EntryOfIs(r: Record)
    ensures EntryOf(r) == Entry(r.id, DetailsText(r.details), Field(r.name))
  {
  }

  lemma SplitLine(head: bytes, name: bytes)
    ensures head + ([BAR] + (name + [BAR, NL])) == (head + [BAR] + (name + [BAR] + [])) + [NL]
  {
  }

  function EntriesOf(records: seq<Record>): seq<Option<Entry>> {
    seq(|records|, i requires 0 <= i < |records| => Some(EntryOf(records[i])))
  }

  lemma FirstRecord(records: seq<Record>)
    requires records != []
    ensures Concat(Lines(records)) == LineOf(records[0]) + Concat(Lines(records[1..]))
    ensures EntriesOf(records) == [Some(EntryOf(records[0]))] + EntriesOf(records[1..])
  {
    hide LineOf, EntryOf;
    assert Lines(records)[1..] == Lines(records[1..]);
  }

  /**
   * A client that splits at newlines and bars recovers every record, in order:
   * no name can add a line, move a bar or take the place of an id.
   */
  lemma {:induction false} ListingIsRecoverable(records: seq<Record>)
    requires forall i :: 0 <= i < |records| ==> SafeRecord(records[i])
    ensures ReadList(Concat(Lines(records))) == EntriesOf(records)
    ensures forall i :: 0 <= i < |records| && PlainName(records[i].name) ==>
              EntriesOf(records)[i] == Some(Entry(records[i].id, DetailsText(records[i].details), records[i].name))
  {
    forall i | 0 <= i < |records| && PlainName(records[i].name)
      ensures EntriesOf(records)[i] == Some(Entry(records[i].id, DetailsText(records[i].details), records[i].name))
    {
      PlainNameIsItsField(records[i].name);
      hide Field, PlainName, DetailsText;
    }
    if records == [] {
      assert Lines(records) == [];
    } else {
      hide *;
      FirstRecord(records);
      var body := ReadBackLine(records[0]);
      ListingIsRecoverable(records[1..]);
      ReadListStep(body, Concat(Lines(records[1..])));
    }
  }

  lemma ReadListStep(body: bytes, rest: bytes)
    requires NL !in body
    ensures ReadList(body + [NL] + rest) == [ReadLine(body)] + ReadList(rest)
  {
    FirstAt(body, NL, rest);
    hide ReadLine;
  }

  function Count(t: bytes, c: byte): nat {
    if t == [] then 0 else (if t[0] == c then 1 else 0) + Count(t[1..], c)
  }

  lemma {:induction false} CountConcat(a: bytes, b: bytes, c: byte)
    ensures Count(a + b, c) == Count(a, c) + Count(b, c)
  {
    if a == [] {
      assert a + b == b;
    } else {
      CountConcat(a[1..], b, c);
      assert (a + b)[1..] == a[1..] + b;
    }
  }

  lemma {:induction false} CountNone(t: bytes, c: byte)
    requires c !in t
    ensures Count(t, c) == 0
  {
    if t != [] {
      CountNone(t[1..], c);
    }
  }

  lemma LineCounts(r: Record)
    requires SafeRecord(r)
    ensures Count(LineOf(r), NL) == 1 && Count(LineOf(r), BAR) == 2
  {
    var head, name := LineShape(r);
    CleanCounts(head, name, NL);
    CleanCounts(head, name, BAR);
    hide *;
  }

  lemma CleanCounts(head: bytes, name: bytes, c: byte)
    requires Clean(head) && Clean(name) && (c == NL || c == BAR)
    ensures Count(head + ([BAR] + (name + [BAR, NL])), c) == if c == NL then 1 else 2
  {
    assert c !in head && c !in name;
    assert [BAR, NL][1..] == [NL];
    assert Count([NL], c) == if c == NL then 1 else 0;
    assert Count([BAR], c) == if c == NL then 0 else 1;
    CountNone(head, c);
    CountNone(name, c);
    hide Count;
    CountConcat(head, [BAR] + (name + [BAR, NL]), c);
    CountConcat([BAR], name + [BAR, NL], c);
    CountConcat(name, [BAR, NL], c);
  }

  /** One newline and two bars for each player. */
  lemma {:induction false} ListingCounts(records: seq<Record>)
    requires forall i :: 0 <= i < |records| ==> SafeRecord(records[i])
    ensures Count(Concat(Lines(records)), NL) == |records|
    ensures Count(Concat(Lines(records)), BAR) == 2 * |records|
  {
    if records == [] {
      assert Lines(records) == [];
    } else {
      hide *;
      FirstRecord(records);
      LineCounts(records[0]);
      ListingCounts(records[1..]);
      CountConcat(LineOf(records[0]), Concat(Lines(records[1..])), NL);
      CountConcat(LineOf(records[0]), Concat(Lines(records[1..])), BAR);
    }
  }

  /** Every listed player is the controller that reports that SteamID. */
  lemma {:induction false} ReportedIdsAreValid(ids: seq<bytes>)
    ensures forall i :: 0 <= i < |WithSteamId(ids)| ==>
              var p := WithSteamId(ids)[i];
              SteamIdValid(p.id) && p.controller < |ids| && ids[p.controller] == p.id
  {
    if ids != [] {
      ReportedIdsAreValid(ids[..|ids| - 1]);
    }
  }

  predicate OneWordAddress(r: Record) { r.details.ip.Some? ==> SPACE !in r.details.ip.value }

  lemma FiguresAreRecoverable(r: Record)
    requires OneWordAddress(r)
    ensures ReadDetails(EntryOf(r).details) == FiguresOf(r.details)
  {
    DetailsReadBack(r.details);
    hide DetailsText, ReadDetails, Field;
  }

  /**
   * Every listing `ListPlayers` can produce: with no player the fixed text, else
   * one recoverable line for each player, for all names whatsoever; where addresses
   * are one word, the numbers, the address and the coordinates can be read from it.
   */
  lemma EveryListingIsRecoverable(ids: seq<bytes>, players: seq<Player>, details: nat -> Details, name: nat -> bytes)
    requires multiset(players) == multiset(WithSteamId(ids))
    requires forall k: nat :: details(k).ip.Some? ==> Clean(details(k).ip.value)
    requires forall k: nat :: details(k).location.Some? ==> Clean(details(k).location.value)
    ensures var records, text := RecordsOf(players, details, name), ListText(RecordsOf(players, details, name));
      if players == [] then text == Ascii("No players online.")
      else ReadList(text) == EntriesOf(records) && Count(text, NL) == |players| && Count(text, BAR) == 2 * |players|
    ensures var records := RecordsOf(players, details, name);
      forall i :: 0 <= i < |records| && OneWordAddress(records[i]) ==>
        ReadDetails(EntryOf(records[i]).details) == FiguresOf(records[i].details)
    ensures var records := RecordsOf(players, details, name);
      forall i :: 0 <= i < |players| && PlainName(name(players[i].controller)) ==>
        EntriesOf(records)[i] ==
        Some(Entry(players[i].id, DetailsText(details(players[i].controller)), name(players[i].controller)))
  {
    var records := RecordsOf(players, details, name);
    forall i | 0 <= i < |records| && OneWordAddress(records[i])
      ensures ReadDetails(EntryOf(records[i]).details) == FiguresOf(records[i].details)
    {
      FiguresAreRecoverable(records[i]);
    }
    hide ReadDetails, FiguresOf, OneWordAddress, EntryOf, PlainName;
    hide SteamIdValid, Clean, DetailsText, LineOf, Ascii, ReadList, EntriesOf, Count;
    ReportedIdsAreValid(ids);
    forall i | 0 <= i < |records|
      ensures SafeRecord(records[i])
    {
      assert players[i] in multiset(WithSteamId(ids));
      DetailsAreClean(records[i].details);
    }
    hide SafeRecord;
    ListingIsRecoverable(records);
    ListingCounts(records);
  }
}
