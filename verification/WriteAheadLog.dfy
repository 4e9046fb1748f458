/** The write-ahead log: how committed groups of entries are written, and what a replay makes of whatever part of
  the file has survived a crash. */
module WriteAheadLog {
  import opened Versions
  import opened TableStorage
  import opened Serialization
  import opened LogRecords
  import UB = UndoBuffer

  /** What a transaction has logged, up to its flush marker. */
  type Group = seq<Entry>

  // ----- bytes -----

  /** A number of 32 bits.  The counter keeps its bytes closed. */
  function SizeBytes(n: nat, closed: nat := CLOSED): (s: seq<byte>)
    ensures |s| == 4
    decreases n, closed
  {
    if closed > 0 then SizeBytes(n, closed - 1) else NumberBytes(n, 4)
  }

  lemma {:induction false} SizeOpens(n: nat, closed: nat := CLOSED)
    ensures SizeBytes(n, closed) == NumberBytes(n, 4)
    decreases n, closed
  {
    if closed > 0 { SizeOpens(n, closed - 1); }
  }

  function Encode(e: Entry): (s: seq<byte>)
    ensures |s| == 5 + |e.data|
  {
    [e.kind] + SizeBytes(|e.data|) + e.data
  }

  function FlushMarker(): (s: seq<byte>)
    ensures |s| == 5
  {
    [WAL_FLUSH] + SizeBytes(0)
  }

  function EncodeEntries(es: seq<Entry>): seq<byte> {
    if es == [] then [] else Encode(es[0]) + EncodeEntries(es[1..])
  }

  function EncodeGroup(g: Group): seq<byte> {
    EncodeEntries(g) + FlushMarker()
  }

  function EncodeLog(gs: seq<Group>): seq<byte> {
    if gs == [] then [] else EncodeGroup(gs[0]) + EncodeLog(gs[1..])
  }

  predicate WritableGroup(g: Group) {
    forall i :: 0 <= i < |g| ==> Writable(g[i])
  }

  // ----- replay -----

  /** Replaying an entry either fails or changes the database of the running transaction. */
  type Replayer<!S> = (S, Entry) -> Option<S>

  function ApplyAll<S>(db: S, es: seq<Entry>, replay: Replayer<S>): Option<S> {
    if es == [] then Some(db) else
    match replay(db, es[0])
    case None => None
    case Some(d) => ApplyAll(d, es[1..], replay)
  }

  /** The effect of committed groups, up to the first one that fails. */
  function ApplyGroups<S>(db: S, gs: seq<Group>, replay: Replayer<S>): S {
    if gs == [] then db else
    match ApplyAll(db, gs[0], replay)
    case None => db
    case Some(d) => ApplyGroups(d, gs[1..], replay)
  }

  /** What the loop makes of the rest of the file. */
  function ReplayFrom<S>(db: S, stored: seq<Entry>, bytes: seq<byte>, replay: Replayer<S>): S
    decreases |bytes|
  {
    if |bytes| < 5 then db else
    var kind, size, rest := bytes[0], Unsigned(bytes[1..5]), bytes[5..];
    if kind == WAL_FLUSH then
      match ApplyAll(db, stored, replay)
      case None => db
      case Some(d) => ReplayFrom(d, [], rest, replay)
    else if !TypeIsValid(kind) || size == 0 || |rest| < size then db
    else ReplayFrom(db, stored + [Entry(kind, rest[..size])], rest[size..], replay)
  }

  method ReplayEntries<S>(db: S, stored: seq<Entry>, replay: Replayer<S>) returns (result: Option<S>)
    ensures result == ApplyAll(db, stored, replay)
  {
    var d := db;
    var i := 0;
    while i < |stored|
      invariant 0 <= i <= |stored|
      invariant ApplyAll(db, stored, replay) == ApplyAll(d, stored[i..], replay)
    {
      assert stored[i..][1..] == stored[i + 1..];
      var next := replay(d, stored[i]);
      if next.None? {
        return None;
      }
      d := next.value;
      i := i + 1;
    }
    return Some(d);
  }

  lemma ReadsFlush<S>(db: S, stored: seq<Entry>, file: seq<byte>, at: nat, replay: Replayer<S>)
    requires at + 5 <= |file| && file[at] == WAL_FLUSH
    ensures ReplayFrom(db, stored, file[at..], replay)
         == match ApplyAll(db, stored, replay) case None => db case Some(d) => ReplayFrom(d, [], file[at + 5..], replay)
  {
    assert file[at..][5..] == file[at + 5..];
  }

  lemma ReadsEntry<S>(db: S, stored: seq<Entry>, file: seq<byte>, at: nat, size: nat, replay: Replayer<S>)
    requires at + 5 <= |file| && file[at] != WAL_FLUSH && size == Unsigned(file[at + 1..at + 5])
    ensures ReplayFrom(db, stored, file[at..], replay)
         == if !TypeIsValid(file[at]) || size == 0 || |file| < at + 5 + size then db
            else ReplayFrom(db, stored + [Entry(file[at], file[at + 5..at + 5 + size])], file[at + 5 + size..], replay)
  {
    var bytes := file[at..];
    assert bytes[1..5] == file[at + 1..at + 5] && bytes[5..] == file[at + 5..];
    if at + 5 + size <= |file| {
      assert file[at + 5..][..size] == file[at + 5..at + 5 + size];
      assert file[at + 5..][size..] == file[at + 5 + size..];
    }
  }

  /** Replays the file: entries are stored until a flush marker, and then applied together or not at all. */
  method Replay<S>(file: seq<byte>, db: S, replay: Replayer<S>) returns (result: S)
    ensures result == ReplayFrom(db, [], file, replay)
  {
    result := db;
    var stored: seq<Entry> := [];
    var position := 0;
    assert file[0..] == file;
    while position + 5 <= |file|
      invariant 0 <= position <= |file|
      invariant ReplayFrom(db, [], file, replay) == ReplayFrom(result, stored, file[position..], replay)
    {
      var kind, size := file[position], Unsigned(file[position + 1..position + 5]);
      if kind == WAL_FLUSH {
        ReadsFlush(result, stored, file, position, replay);
        var applied := ReplayEntries(result, stored, replay);
        if applied.None? {
          return;
        }
        stored := [];
        result := applied.value;
        position := position + 5;
      } else {
        ReadsEntry(result, stored, file, position, size, replay);
        if !TypeIsValid(kind) {
          return;
        }
        if size == 0 || |file| < position + 5 + size {
          return;
        }
        stored := stored + [Entry(kind, file[position + 5..position + 5 + size])];
        position := position + 5 + size;
      }
    }
  }

  // ----- what survives a crash -----

  /** The size of an entry can be read back. */
  lemma SizeRoundTrip(e: Entry)
    requires |e.data| < 0x1_0000_0000
    ensures Unsigned(SizeBytes(|e.data|)) == |e.data|
  {
    SizeOpens(|e.data|);
    Widths();
    UnsignedRoundTrip(|e.data|, 4);
  }

  lemma ReplayOne<S>(db: S, stored: seq<Entry>, e: Entry, tail: seq<byte>, replay: Replayer<S>)
    requires Writable(e)
    ensures ReplayFrom(db, stored, Encode(e) + tail, replay) == ReplayFrom(db, stored + [e], tail, replay)
  {
    var bytes := Encode(e) + tail;
    SizeRoundTrip(e);
    assert bytes[1..5] == SizeBytes(|e.data|) && bytes[5..] == e.data + tail;
    assert bytes[5..][..|e.data|] == e.data && bytes[5..][|e.data|..] == tail;
  }

  lemma {:induction false} ReplayStored<S>(db: S, stored: seq<Entry>, es: seq<Entry>, tail: seq<byte>, replay: Replayer<S>)
    requires WritableGroup(es)
    ensures ReplayFrom(db, stored, EncodeEntries(es) + tail, replay) == ReplayFrom(db, stored + es, tail, replay)
    decreases |es|
  {
    if es == [] {
      assert EncodeEntries(es) + tail == tail && stored + es == stored;
    } else {
      ReplayOne(db, stored, es[0], EncodeEntries(es[1..]) + tail, replay);
      assert EncodeEntries(es) + tail == Encode(es[0]) + (EncodeEntries(es[1..]) + tail);
      ReplayStored(db, stored + [es[0]], es[1..], tail, replay);
      assert stored + [es[0]] + es[1..] == stored + es;
    }
  }

  lemma ReplayFlush<S>(db: S, stored: seq<Entry>, tail: seq<byte>, replay: Replayer<S>)
    ensures ReplayFrom(db, stored, FlushMarker() + tail, replay)
         == match ApplyAll(db, stored, replay) case None => db case Some(d) => ReplayFrom(d, [], tail, replay)
  {
    assert (FlushMarker() + tail)[5..] == tail;
  }

  /** Part of a group has no effect. */
  lemma {:induction false} ReplayTorn<S>(db: S, stored: seq<Entry>, es: seq<Entry>, m: nat, replay: Replayer<S>)
    requires WritableGroup(es) && m < |EncodeEntries(es)| + 5
    ensures ReplayFrom(db, stored, (EncodeEntries(es) + FlushMarker())[..m], replay) == db
    decreases |es|
  {
    if es != [] {
      var first, more := Encode(es[0]), EncodeEntries(es[1..]) + FlushMarker();
      assert EncodeEntries(es) + FlushMarker() == first + more;
      if m < |first| {
        TornEntry(db, stored, es[0], m, more, replay);
      } else {
        assert (first + more)[..m] == first + more[..m - |first|];
        ReplayOne(db, stored, es[0], more[..m - |first|], replay);
        ReplayTorn(db, stored + [es[0]], es[1..], m - |first|, replay);
      }
    }
  }

  lemma TornEntry<S>(db: S, stored: seq<Entry>, e: Entry, m: nat, more: seq<byte>, replay: Replayer<S>)
    requires Writable(e) && m < |Encode(e)|
    ensures ReplayFrom(db, stored, (Encode(e) + more)[..m], replay) == db
  {
    var bytes := (Encode(e) + more)[..m];
    if 5 <= m {
      SizeRoundTrip(e);
      assert bytes == Encode(e)[..m] && Encode(e)[1..5] == SizeBytes(|e.data|);
      assert bytes[1..5] == Encode(e)[..m][1..5] == Encode(e)[1..5];
    }
  }

  /** How many groups lie wholly inside the first n bytes of the log. */
  function Whole(gs: seq<Group>, n: nat): (k: nat)
    ensures k <= |gs|
  {
    if gs == [] || n < |EncodeGroup(gs[0])| then 0 else 1 + Whole(gs[1..], n - |EncodeGroup(gs[0])|)
  }

  /** A whole group, and whatever follows it. */
  lemma ReplayGroup<S>(db: S, g: Group, tail: seq<byte>, replay: Replayer<S>)
    requires WritableGroup(g)
    ensures ReplayFrom(db, [], EncodeGroup(g) + tail, replay)
         == match ApplyAll(db, g, replay) case None => db case Some(d) => ReplayFrom(d, [], tail, replay)
  {
    JoinAssociates(EncodeEntries(g), FlushMarker(), tail);
    ReplayStored(db, [], g, FlushMarker() + tail, replay);
    assert [] + g == g;
    ReplayFlush(db, g, tail, replay);
  }

  lemma ApplyFirst<S>(db: S, gs: seq<Group>, k: nat, replay: Replayer<S>)
    requires gs != [] && k < |gs|
    ensures ApplyGroups(db, gs[..1 + k], replay)
         == match ApplyAll(db, gs[0], replay) case None => db case Some(d) => ApplyGroups(d, gs[1..][..k], replay)
  {
    assert gs[..1 + k][1..] == gs[1..][..k];
  }

  /** After a crash at any byte, a replay applies exactly the groups whose flush marker is in the file. */
  lemma {:induction false} CrashReplay<S>(db: S, gs: seq<Group>, n: nat, replay: Replayer<S>)
    requires n <= |EncodeLog(gs)| && forall i :: 0 <= i < |gs| ==> WritableGroup(gs[i])
    ensures ReplayFrom(db, [], EncodeLog(gs)[..n], replay) == ApplyGroups(db, gs[..Whole(gs, n)], replay)
    decreases |gs|
  {
    if gs != [] {
      var first, more := EncodeGroup(gs[0]), EncodeLog(gs[1..]);
      if n < |first| {
        assert (first + more)[..n] == first[..n];
        ReplayTorn(db, [], gs[0], n, replay);
      } else {
        var m := n - |first|;
        assert (first + more)[..n] == first + more[..m];
        ReplayGroup(db, gs[0], more[..m], replay);
        ApplyFirst(db, gs, Whole(gs[1..], m), replay);
        match ApplyAll(db, gs[0], replay)
        case None =>
        case Some(d) => CrashReplay(d, gs[1..], m, replay);
      }
    }
  }

  lemma {:induction false} AllWhole(gs: seq<Group>)
    ensures Whole(gs, |EncodeLog(gs)|) == |gs|
  {
    if gs != [] { AllWhole(gs[1..]); }
  }

  /** Reading undoes writing. */
  lemma FullReplay<S>(db: S, gs: seq<Group>, replay: Replayer<S>)
    requires forall i :: 0 <= i < |gs| ==> WritableGroup(gs[i])
    ensures ReplayFrom(db, [], EncodeLog(gs), replay) == ApplyGroups(db, gs, replay)
  {
    AllWhole(gs);
    CrashReplay(db, gs, |EncodeLog(gs)|, replay);
    assert EncodeLog(gs)[..|EncodeLog(gs)|] == EncodeLog(gs) && gs[..|gs|] == gs;
  }

  /** An entry with an empty payload would hide everything behind it. */
  lemma EmptyPayloadStopsReplay<S>(db: S, stored: seq<Entry>, kind: byte, tail: seq<byte>, replay: Replayer<S>)
    requires kind != WAL_FLUSH
    ensures ReplayFrom(db, stored, Encode(Entry(kind, [])) + tail, replay) == db
  {
    var bytes := Encode(Entry(kind, [])) + tail;
    SizeRoundTrip(Entry(kind, []));
    assert bytes[1..5] == SizeBytes(0);
  }

  // ----- the log of commits -----

  /** The records of a commit that the format has room for. */
  predicate IsLog(tables: seq<TableEntry>, log: seq<UB.LogRecord>) {
    UB.OneFlush(log) && UB.WellSized(log) && forall i :: 0 <= i < |log| - 1 ==> IsRecord(tables, log[i])
  }

  predicate AreLogs(tables: seq<TableEntry>, logs: seq<seq<UB.LogRecord>>) {
    && AreTables(tables) && HaveNames(tables)
    && forall i :: 0 <= i < |logs| ==> IsLog(tables, logs[i])
  }

  /** The entries of a commit's records. */
  function GroupOf(tables: seq<TableEntry>, log: seq<UB.LogRecord>): (g: Group)
    requires IsLog(tables, log)
    ensures |g| == |log| - 1 && forall i :: 0 <= i < |g| ==> g[i] == EntryOf(tables, log[i])
  {
    seq(|log| - 1, i requires 0 <= i < |log| - 1 => EntryOf(tables, log[i]))
  }

  function GroupsOf(tables: seq<TableEntry>, logs: seq<seq<UB.LogRecord>>): (gs: seq<Group>)
    requires AreLogs(tables, logs)
    ensures |gs| == |logs| && forall i :: 0 <= i < |gs| ==> gs[i] == GroupOf(tables, logs[i])
  {
    seq(|logs|, i requires 0 <= i < |logs| => GroupOf(tables, logs[i]))
  }

  lemma GroupIsWritable(tables: seq<TableEntry>, log: seq<UB.LogRecord>)
    requires IsLog(tables, log)
    ensures WritableGroup(GroupOf(tables, log))
  {
    forall i | 0 <= i < |log| - 1 ensures Writable(GroupOf(tables, log)[i]) {
      EntriesAreWritable(tables, log[i]);
    }
  }

  // ----- durability -----

  /** Doing again what a record says either fails or changes the database. */
  type Actor<!S> = (S, UB.LogRecord) -> Option<S>

  /** Reads the entry and does what it says. */
  function ReplayRecord<S>(tables: seq<TableEntry>, act: Actor<S>): Replayer<S> {
    (d: S, e: Entry) => match RecordIn(tables, e) case None => None case Some(r) => act(d, r)
  }

  /** The first n records, one after the other, until one fails. */
  function ActAll<S>(db: S, log: seq<UB.LogRecord>, n: nat, act: Actor<S>): Option<S>
    requires n <= |log|
  {
    if n == 0 then Some(db) else
    match ActAll(db, log, n - 1, act)
    case None => None
    case Some(d) => act(d, log[n - 1])
  }

  /** Every commit as a whole, in order, until one fails. */
  function ActLogs<S>(db: S, logs: seq<seq<UB.LogRecord>>, act: Actor<S>): S
    requires forall i :: 0 <= i < |logs| ==> logs[i] != []
  {
    if logs == [] then db else
    match ActAll(db, logs[0], |logs[0]| - 1, act)
    case None => db
    case Some(d) => ActLogs(d, logs[1..], act)
  }

  lemma {:induction false} ApplyPush<S>(db: S, es: seq<Entry>, e: Entry, replay: Replayer<S>)
    ensures ApplyAll(db, es + [e], replay)
         == match ApplyAll(db, es, replay) case None => None case Some(d) => replay(d, e)
    decreases |es|
  {
    if es == [] {
      assert ([] + [e])[1..] == [];
      if replay(db, e).Some? { assert ApplyAll(replay(db, e).value, [], replay) == replay(db, e); }
    } else {
      assert (es + [e])[0] == es[0] && (es + [e])[1..] == es[1..] + [e];
      if replay(db, es[0]).Some? { ApplyPush(replay(db, es[0]).value, es[1..], e, replay); }
    }
  }

  /** What each of the first n entries does is what the record in its place says. */
  ghost predicate DoTheSame<S(!new)>(es: seq<Entry>, replay: Replayer<S>, log: seq<UB.LogRecord>, act: Actor<S>, n: nat)
    requires n <= |es| && n <= |log|
  {
    forall i, d: S :: 0 <= i < n ==> replay(d, es[i]) == act(d, log[i])
  }

  lemma {:induction false} EntriesAct<S(!new)>(db: S, es: seq<Entry>, replay: Replayer<S>, log: seq<UB.LogRecord>, act: Actor<S>, n: nat)
    requires n <= |es| && n <= |log| && DoTheSame(es, replay, log, act, n)
    ensures ApplyAll(db, es[..n], replay) == ActAll(db, log, n, act)
    decreases n
  {
    if n > 0 {
      EntriesAct(db, es, replay, log, act, n - 1);
      assert es[..n] == es[..n - 1] + [es[n - 1]];
      ApplyPush(db, es[..n - 1], es[n - 1], replay);
    }
  }

  /** Replaying the entries of a commit does what its records say. */
  lemma GroupActs<S(!new)>(tables: seq<TableEntry>, db: S, log: seq<UB.LogRecord>, act: Actor<S>)
    requires AreTables(tables) && HaveNames(tables) && IsLog(tables, log)
    ensures ApplyAll(db, GroupOf(tables, log), ReplayRecord(tables, act)) == ActAll(db, log, |log| - 1, act)
  {
    var g, replay, n := GroupOf(tables, log), ReplayRecord(tables, act), |log| - 1;
    forall i, d: S | 0 <= i < n ensures replay(d, g[i]) == act(d, log[i]) {
      RecordRoundTrip(tables, log[i]);
    }
    EntriesAct(db, g, replay, log, act, n);
    assert g[..n] == g;
  }

  lemma {:induction false} GroupsAct<S(!new)>(tables: seq<TableEntry>, db: S, logs: seq<seq<UB.LogRecord>>, act: Actor<S>)
    requires AreLogs(tables, logs)
    ensures ApplyGroups(db, GroupsOf(tables, logs), ReplayRecord(tables, act)) == ActLogs(db, logs, act)
    decreases |logs|
  {
    if logs != [] {
      var g := GroupOf(tables, logs[0]);
      GroupActs(tables, db, logs[0], act);
      assert GroupsOf(tables, logs)[1..] == GroupsOf(tables, logs[1..]);
      match ActAll(db, logs[0], |g|, act)
      case None =>
      case Some(d) => GroupsAct(tables, d, logs[1..], act);
    }
  }

  /** After a crash at any byte of the log, a replay does exactly what the commits whose flush marker is in the file have
      recorded, commit by commit and record by record. */
  lemma CommitsAreDurable<S(!new)>(tables: seq<TableEntry>, db: S, logs: seq<seq<UB.LogRecord>>, n: nat, act: Actor<S>)
    requires AreLogs(tables, logs) && n <= |EncodeLog(GroupsOf(tables, logs))|
    ensures ReplayFrom(db, [], EncodeLog(GroupsOf(tables, logs))[..n], ReplayRecord(tables, act))
         == ActLogs(db, logs[..Whole(GroupsOf(tables, logs), n)], act)
  {
    var gs := GroupsOf(tables, logs);
    var k := Whole(gs, n);
    forall i | 0 <= i < |gs| ensures WritableGroup(gs[i]) {
      GroupIsWritable(tables, logs[i]);
    }
    CrashReplay(db, gs, n, ReplayRecord(tables, act));
    assert AreLogs(tables, logs[..k]);
    assert GroupsOf(tables, logs[..k]) == gs[..k];
    GroupsAct(tables, db, logs[..k], act);
  }

  /** Collects what the records say about one table. */
  function Telling(table: nat): Actor<seq<UB.Item>> {
    (told: seq<UB.Item>, r: UB.LogRecord) => Some(told + UB.RecordItems(r, table))
  }

  /** What transactions have done to one table, in the order of their commits. */
  function Stories(deeds: seq<seq<UB.Deed>>, table: nat): seq<UB.Item> {
    if deeds == [] then [] else UB.Story(deeds[0], table) + Stories(deeds[1..], table)
  }

  lemma {:induction false} LogTells(told: seq<UB.Item>, log: seq<UB.LogRecord>, n: nat, table: nat)
    requires n <= |log|
    ensures ActAll(told, log, n, Telling(table)) == Some(told + UB.LogItems(log[..n], table))
    decreases n
  {
    if n == 0 {
      assert told + UB.LogItems([], table) == told;
    } else {
      LogTells(told, log, n - 1, table);
      assert log[..n] == log[..n - 1] + [log[n - 1]];
      UB.LogPush(log[..n - 1], log[n - 1], table);
      JoinAssociates(told, UB.LogItems(log[..n - 1], table), UB.RecordItems(log[n - 1], table));
    }
  }

  lemma MarkerTellsNothing(log: seq<UB.LogRecord>, table: nat)
    requires log != [] && log[|log| - 1] == UB.Flush
    ensures UB.LogItems(log, table) == UB.LogItems(log[..|log| - 1], table)
  {
  }

  lemma ActLogsStep<S>(db: S, logs: seq<seq<UB.LogRecord>>, act: Actor<S>, d: S)
    requires logs != [] && forall i :: 0 <= i < |logs| ==> logs[i] != []
    requires ActAll(db, logs[0], |logs[0]| - 1, act) == Some(d)
    ensures ActLogs(db, logs, act) == ActLogs(d, logs[1..], act)
  {
  }

  lemma {:induction false} LogsTell(told: seq<UB.Item>, logs: seq<seq<UB.LogRecord>>, deeds: seq<seq<UB.Deed>>, table: nat)
    requires |deeds| == |logs|
    requires forall i :: 0 <= i < |logs| ==> logs[i] != [] && logs[i][|logs[i]| - 1] == UB.Flush
    requires forall i :: 0 <= i < |logs| ==> UB.LogItems(logs[i], table) == UB.Story(deeds[i], table)
    ensures ActLogs(told, logs, Telling(table)) == told + Stories(deeds, table)
    decreases |logs|
  {
    if logs == [] {
      assert told + Stories([], table) == told;
    } else {
      var log, story := logs[0], UB.Story(deeds[0], table);
      LogTells(told, log, |log| - 1, table);
      MarkerTellsNothing(log, table);
      ActLogsStep(told, logs, Telling(table), told + story);
      LogsTell(told + story, logs[1..], deeds[1..], table);
      JoinAssociates(told, story, Stories(deeds[1..], table));
    }
  }

  /** When each log tells what its transaction has done, as a commit promises, then after a crash at any byte a replay
      inserts and asks, for every table, exactly what the first of the transactions have, and all of each of them. */
  lemma CrashKeepsStories(tables: seq<TableEntry>, logs: seq<seq<UB.LogRecord>>, deeds: seq<seq<UB.Deed>>, n: nat, table: nat)
    requires AreLogs(tables, logs) && n <= |EncodeLog(GroupsOf(tables, logs))| && |deeds| == |logs|
    requires forall i :: 0 <= i < |logs| ==> UB.LogItems(logs[i], table) == UB.Story(deeds[i], table)
    ensures ReplayFrom([], [], EncodeLog(GroupsOf(tables, logs))[..n], ReplayRecord(tables, Telling(table)))
         == Stories(deeds[..Whole(GroupsOf(tables, logs), n)], table)
  {
    var k := Whole(GroupsOf(tables, logs), n);
    CommitsAreDurable(tables, [], logs, n, Telling(table));
    assert forall i :: 0 <= i < |logs| ==> IsLog(tables, logs[i]);
    LogsTell([], logs[..k], deeds[..k], table);
  }

  // ----- writing -----

  class WriteAheadLog {
    const tables: seq<TableEntry>
    var file: seq<byte>
    ghost var logs: seq<seq<UB.LogRecord>>

    /** The file holds the commits so far, and nothing else. */
    ghost predicate Valid()
      reads this
    {
      AreLogs(tables, logs) && file == EncodeLog(GroupsOf(tables, logs))
    }

    constructor (known: seq<TableEntry>)
      requires AreTables(known) && HaveNames(known)
      ensures Valid() && tables == known && logs == []
    {
      tables, file, logs := known, [], [];
    }

    method Write(bytes: seq<byte>)
      modifies this`file
      ensures file == old(file) + bytes
    {
      file := file + bytes;
    }

    method WriteEntry(kind: byte, data: seq<byte>)
      modifies this`file
      ensures file == old(file) + Encode(Entry(kind, data))
    {
      Write([kind]);
      Write(SizeBytes(|data|));
      if |data| != 0 {
        Write(data);
      }
      EncodeParts(old(file), kind, data);
    }

    method WriteInsert(table: nat, rows: seq<Tuple>)
      requires IsRecord(tables, UB.Insert(table, rows))
      modifies this`file
      ensures file == old(file) + if rows == [] then [] else Encode(EntryOf(tables, UB.Insert(table, rows)))
    {
      if |rows| == 0 {
        return;
      }
      var data := SerializeInsert(tables[table], rows);
      WriteEntry(INSERT_TUPLE, data);
    }

    method WriteQuery(query: string)
      requires IsRecord(tables, UB.Query(query))
      modifies this`file
      ensures file == old(file) + Encode(EntryOf(tables, UB.Query(query)))
    {
      var serializer := new Serializer();
      serializer.WriteString(TextBytes(query));
      WriteEntry(QUERY, serializer.blob);
    }

    method WriteRecord(r: UB.LogRecord)
      requires IsRecord(tables, r) && (r.Insert? ==> r.rows != [])
      modifies this`file
      ensures file == old(file) + Encode(EntryOf(tables, r))
    {
      match r
      case Insert(table, rows) => WriteInsert(table, rows);
      case Query(query) => WriteQuery(query);
    }

    method Flush()
      modifies this`file
      ensures file == old(file) + FlushMarker()
    {
      Write([WAL_FLUSH]);
      Write(SizeBytes(0));
    }

    method WriteNext(log: seq<UB.LogRecord>, i: nat)
      requires IsLog(tables, log) && i < |log| - 1
      modifies this`file
      ensures file == old(file) + Encode(GroupOf(tables, log)[i])
    {
      assert !log[..|log| - 1][i].Flush? && IsRecord(tables, log[i]);
      WriteRecord(log[i]);
    }

    method WriteRecords(log: seq<UB.LogRecord>)
      requires IsLog(tables, log)
      modifies this`file
      ensures file == old(file) + EncodeGroup(GroupOf(tables, log))
    {
      ghost var g := GroupOf(tables, log);
      var i := 0;
      while i < |log| - 1
        invariant 0 <= i <= |log| - 1 == |g|
        invariant file == old(file) + EncodeEntries(g[..i])
      {
        EncodeStep(old(file), g, i);
        WriteNext(log, i);
        i := i + 1;
      }
      assert g[..i] == g;
      Flush();
    }

    /** Writes what a commit has logged: its records and a flush marker make one group. */
    method WriteCommit(log: seq<UB.LogRecord>)
      requires Valid() && IsLog(tables, log)
      modifies this
      ensures Valid() && logs == old(logs) + [log]
    {
      EncodeLogPush(GroupsOf(tables, logs), GroupOf(tables, log));
      WriteRecords(log);
      logs := logs + [log];
      assert GroupsOf(tables, logs) == GroupsOf(tables, old(logs)) + [GroupOf(tables, log)];
    }
  }

  lemma EncodeParts(file: seq<byte>, kind: byte, data: seq<byte>)
    ensures file + [kind] + SizeBytes(|data|) + data == file + Encode(Entry(kind, data))
    ensures file + [kind] + SizeBytes(|data|) + [] == file + [kind] + SizeBytes(|data|)
  {
    JoinAssociates(file, [kind], SizeBytes(|data|));
    JoinAssociates(file, [kind] + SizeBytes(|data|), data);
  }

  lemma EncodeStep(file: seq<byte>, g: Group, i: nat)
    requires i < |g|
    ensures file + EncodeEntries(g[..i + 1]) == file + EncodeEntries(g[..i]) + Encode(g[i])
  {
    EncodePush(g[..i], g[i]);
    assert g[..i + 1] == g[..i] + [g[i]];
  }

  lemma {:induction false} EncodePush(es: seq<Entry>, e: Entry)
    ensures EncodeEntries(es + [e]) == EncodeEntries(es) + Encode(e)
  {
    if es == [] {
      assert EncodeEntries([e]) == Encode(e) + EncodeEntries([]);
    } else {
      EncodePush(es[1..], e);
      assert (es + [e])[1..] == es[1..] + [e];
    }
  }

  lemma {:induction false} EncodeLogPush(gs: seq<Group>, g: Group)
    ensures EncodeLog(gs + [g]) == EncodeLog(gs) + EncodeGroup(g)
  {
    if gs == [] {
      assert EncodeLog([g]) == EncodeGroup(g) + EncodeLog([]);
    } else {
      EncodeLogPush(gs[1..], g);
      LogOf(gs + [g], gs[0], gs[1..] + [g]);
      JoinAssociates(EncodeGroup(gs[0]), EncodeLog(gs[1..]), EncodeGroup(g));
    }
  }

  lemma LogOf(gs: seq<Group>, first: Group, rest: seq<Group>)
    requires gs == [first] + rest
    ensures EncodeLog(gs) == EncodeGroup(first) + EncodeLog(rest)
  {
    assert gs[1..] == rest;
  }
}
