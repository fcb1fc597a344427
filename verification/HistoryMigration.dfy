/** Moving the old history file into the table (terminal/log.go, MigrateLegacy;
    internal/database/database.go, MigrateHistory), with a crash possible
    between any two steps and any number of attempts. */
module HistoryMigration {
  import opened Outcomes
  import opened Utf8
  import opened HistoryLog
  import opened HistoryTable

  /** The record codec, the keyed fingerprint of a file, and whether the
      encryption key is set. */
  datatype Setting<!B> = Setting(codec: Codec<Entry<B>>, mac: Bytes -> Bytes, keyPresent: bool)

  /** HMAC-SHA256, taken as collision free; a digest is not empty. */
  ghost predicate Fingerprints(mac: Bytes -> Bytes) {
    && (forall f :: mac(f) != [])
    && (forall f, g :: mac(f) == mac(g) ==> f == g)
  }

  /** How far an attempt has got. */
  datatype Phase<B> =
    | Idle
    | Inspected(source: Bytes)
    | Prepared(source: Bytes, rows: seq<Row<B>>)
    | Committed(source: Bytes)

  /** placed is every content the legacy path has held. */
  datatype World<B> = World(file: Option<Bytes>, table: seq<Row<B>>, marker: bool, phase: Phase<B>, placed: set<Bytes>)

  datatype Event<B> =
    | Place(content: Bytes)
    | AppendEntry(entry: Entry<B>, stamp: int, nonce: nat, now: int)
    | Inspect
    | Read(stamp: int, nonce: nat)
    | Commit
    | Remove
    | Crash

  function Source<B>(s: Setting<B>, file: Option<Bytes>): Bytes {
    if file.None? then [] else s.mac(file.value)
  }

  /** Load of a missing file gives no entries. */
  function Entries<B>(s: Setting<B>, file: Option<Bytes>): Result<seq<Entry<B>>> {
    if file.None? then Ok([]) else Loaded(s.codec, file.value)
  }

  function LegacyRow<B>(e: Entry<B>, source: Bytes, ordinal: int, stamp: int, nonce: nat): Row<B> {
    EncryptedRow(e, stamp, nonce).(legacy := Some(Key(source, ordinal)))
  }

  function LegacyRows<B>(es: seq<Entry<B>>, source: Bytes, stamp: int, nonce: nat): (rows: seq<Row<B>>)
    ensures |rows| == |es|
    ensures forall i :: 0 <= i < |es| ==> rows[i] == LegacyRow(es[i], source, i + 1, stamp, nonce + i)
  {
    if es == [] then []
    else
      var n := |es| - 1;
      LegacyRows(es[..n], source, stamp, nonce) + [LegacyRow(es[n], source, n + 1, stamp, nonce + n)]
  }

  /** A file appears only where there is none; the attempt steps run in order. */
  function Step<B>(s: Setting<B>, w: World<B>, event: Event<B>): World<B> {
    match event
    case Place(content) =>
      if w.file.None? then w.(file := Some(content), placed := w.placed + {content}) else w
    case AppendEntry(entry, stamp, nonce, now) =>
      w.(table := AppendedSqlite(w.table, s.keyPresent, entry, stamp, nonce, now))
    case Inspect =>
      if w.phase.Idle? then w.(phase := Inspected(Source(s, w.file))) else w
    case Read(stamp, nonce) =>
      if !w.phase.Inspected? then w
      else (
        match Entries(s, w.file)
        case Err => w.(phase := Idle)
        case Ok(es) =>
          if es != [] && !s.keyPresent then w.(phase := Idle)
          else w.(phase := Prepared(w.phase.source, LegacyRows(es, w.phase.source, stamp, nonce))))
    case Commit =>
      if !w.phase.Prepared? then w
      else if !AllComplete(w.phase.rows) then w.(phase := Idle)
      else w.(table := InsertAll(w.table, w.phase.rows), marker := true, phase := Committed(w.phase.source))
    case Remove =>
      if !w.phase.Committed? then w
      else if w.phase.source != [] && w.marker then w.(file := None, phase := Idle)
      else w.(phase := Idle)
    case Crash => w.(phase := Idle)
  }

  function Run<B>(s: Setting<B>, w: World<B>, events: seq<Event<B>>): World<B> {
    if events == [] then w
    else Step(s, Run(s, w, events[..|events| - 1]), events[|events| - 1])
  }

  function Attempt<B>(stamp: int, nonce: nat): seq<Event<B>> {
    [Inspect, Read(stamp, nonce), Commit, Remove]
  }

  // ---------------------------------------------------------------------------
  // The code of one attempt
  // ---------------------------------------------------------------------------

  class HistoryStore<B> {
    var file: Option<Bytes>
    const db: Database<B>

    constructor (file: Option<Bytes>, db: Database<B>)
      ensures this.file == file && this.db == db
    {
      this.file, this.db := file, db;
    }

    ghost function Now(): World<B>
      reads this, db
    {
      World(file, db.table, db.marker, Idle, {})
    }

    method MigrateLegacy(s: Setting<B>, stamp: int, nonce: nat) returns (r: Result<bool>)
      requires Fingerprints(s.mac)
      modifies this, db
      ensures Now() == Run(s, old(Now()), Attempt(stamp, nonce))
      ensures r.Ok? <==> Migrates(s, old(file))
      ensures r.Ok? ==> r.value == (db.table != old(db.table))
    {
      hide Run, Step, Attempt, Loaded, LegacyRows, InsertAll;
      AttemptResult(s, Now(), stamp, nonce);
      var source := if file.None? then [] else s.mac(file.value);
      var loaded := Entries(s, file);
      if loaded.Err? {
        return Err;
      }
      var entries := loaded.value;
      if entries != [] && !s.keyPresent {
        return Err;
      }
      var rows := LegacyRows(entries, source, stamp, nonce);
      LegacyRowsComplete(entries, source, stamp, nonce);
      var applied := db.MigrateHistory(rows);
      if source != [] && db.marker {
        file := None;
      }
      return applied;
    }
  }

  /** The file can be read, and sealed if there is anything to seal. */
  predicate Migrates<B>(s: Setting<B>, file: Option<Bytes>) {
    Entries(s, file).Ok? && (Entries(s, file).value == [] || s.keyPresent)
  }

  lemma AttemptSteps<B>(s: Setting<B>, w: World<B>, stamp: int, nonce: nat)
    ensures Run(s, w, Attempt(stamp, nonce)) ==
      Step(s, Step(s, Step(s, Step(s, w, Inspect), Read(stamp, nonce)), Commit), Remove)
  {
    hide Step;
    var one: seq<Event<B>> := [Inspect];
    var two := one + [Read(stamp, nonce)];
    var three := two + [Commit];
    assert one[..0] == [] && two[..1] == one && three[..2] == two && (three + [Remove])[..3] == three;
    assert Attempt(stamp, nonce) == three + [Remove];
    assert Run(s, w, one) == Step(s, w, Inspect);
    assert Run(s, w, two) == Step(s, Run(s, w, one), Read(stamp, nonce));
    assert Run(s, w, three) == Step(s, Run(s, w, two), Commit);
  }

  /** The world after an attempt that is not cut short. */
  function Attempted<B>(s: Setting<B>, w: World<B>, stamp: int, nonce: nat): World<B> {
    if !Migrates(s, w.file) then w
    else
      var rows := LegacyRows(Entries(s, w.file).value, Source(s, w.file), stamp, nonce);
      w.(file := None, table := InsertAll(w.table, rows), marker := true, phase := Idle)
  }

  lemma ReadPrepares<B>(s: Setting<B>, w: World<B>, stamp: int, nonce: nat)
    requires w.phase.Idle?
    ensures Step(s, Step(s, w, Inspect), Read(stamp, nonce)) ==
      if !Migrates(s, w.file) then w
      else
        var source := Source(s, w.file);
        w.(phase := Prepared(source, LegacyRows(Entries(s, w.file).value, source, stamp, nonce)))
  {
    hide Entries, LegacyRows;
  }

  lemma CommitAndRemove<B>(s: Setting<B>, w: World<B>)
    requires w.phase.Prepared? && AllComplete(w.phase.rows)
    requires w.phase.source == [] ==> w.file.None?
    ensures Step(s, Step(s, w, Commit), Remove) ==
      w.(file := None, table := InsertAll(w.table, w.phase.rows), marker := true, phase := Idle)
  {
    hide InsertAll, AllComplete;
  }

  lemma AttemptResult<B>(s: Setting<B>, w: World<B>, stamp: int, nonce: nat)
    requires Fingerprints(s.mac) && w.phase.Idle?
    ensures Run(s, w, Attempt(stamp, nonce)) == Attempted(s, w, stamp, nonce)
  {
    hide Run, Step, LegacyRows, InsertAll, AllComplete, Loaded;
    AttemptSteps(s, w, stamp, nonce);
    ReadPrepares(s, w, stamp, nonce);
    if Migrates(s, w.file) {
      LegacyRowsComplete(Entries(s, w.file).value, Source(s, w.file), stamp, nonce);
      CommitAndRemove(s, Step(s, Step(s, w, Inspect), Read(stamp, nonce)));
    } else {
      NothingPrepared(s, w);
    }
  }

  lemma NothingPrepared<B>(s: Setting<B>, w: World<B>)
    requires w.phase.Idle?
    ensures Step(s, Step(s, w, Commit), Remove) == w
  {
  }

  lemma LegacyRowsComplete<B>(es: seq<Entry<B>>, source: Bytes, stamp: int, nonce: nat)
    ensures AllComplete(LegacyRows(es, source, stamp, nonce)) <==> source != [] || es == []
  {
    if es != [] { assert Complete(LegacyRows(es, source, stamp, nonce)[0]) <==> source != []; }
  }

  // ---------------------------------------------------------------------------
  // The rows of one source
  // ---------------------------------------------------------------------------

  predicate FromSource<B>(row: Row<B>, source: Bytes) {
    row.legacy.Some? && row.legacy.value.source == source
  }

  function OfSource<B>(table: seq<Row<B>>, source: Bytes): seq<Row<B>> {
    if table == [] then []
    else
      var last := table[|table| - 1];
      OfSource(table[..|table| - 1], source) + if FromSource(last, source) then [last] else []
  }

  lemma {:induction false} OfSourceConcat<B>(a: seq<Row<B>>, b: seq<Row<B>>, source: Bytes)
    ensures OfSource(a + b, source) == OfSource(a, source) + OfSource(b, source)
    decreases |b|
  {
    if b == [] {
      assert a + b == a;
    } else {
      assert (a + b)[..|a + b| - 1] == a + b[..|b| - 1];
      OfSourceConcat(a, b[..|b| - 1], source);
    }
  }

  lemma {:induction false} OfSourceAll<B>(rows: seq<Row<B>>, own: Bytes, source: Bytes)
    requires forall i :: 0 <= i < |rows| ==> FromSource(rows[i], own)
    ensures OfSource(rows, source) == if source == own then rows else []
  {
    if rows != [] {
      OfSourceAll(rows[..|rows| - 1], own, source);
      assert rows[..|rows| - 1] + [rows[|rows| - 1]] == rows;
    }
  }

  lemma OfSourcePlus<B>(table: seq<Row<B>>, rows: seq<Row<B>>, own: Bytes, source: Bytes)
    requires forall i :: 0 <= i < |rows| ==> FromSource(rows[i], own)
    requires OfSource(table, own) == []
    ensures OfSource(table + rows, source) == if source == own then rows else OfSource(table, source)
  {
    OfSourceConcat(table, rows, source);
    OfSourceAll(rows, own, source);
  }

  /** A row of the table that comes from a source is among the source's rows. */
  lemma {:induction false} OfSourceFinds<B>(table: seq<Row<B>>, source: Bytes, i: nat)
    requires i < |table| && FromSource(table[i], source)
    ensures table[i] in OfSource(table, source)
  {
    if i < |table| - 1 { OfSourceFinds(table[..|table| - 1], source, i); }
  }

  lemma {:induction false} OfSourceKeeps<B>(table: seq<Row<B>>, source: Bytes, k: nat)
    requires k < |OfSource(table, source)|
    ensures OfSource(table, source)[k] in table
    decreases |table|
  {
    var init := table[..|table| - 1];
    if k < |OfSource(init, source)| { OfSourceKeeps(init, source, k); }
  }

  // ---------------------------------------------------------------------------
  // Inserting a file twice
  // ---------------------------------------------------------------------------

  lemma {:induction false} InsertFresh<B>(
      table: seq<Row<B>>, es: seq<Entry<B>>, source: Bytes, stamp: int, nonce: nat, n: nat)
    requires OfSource(table, source) == [] && n <= |es|
    ensures var rows := LegacyRows(es, source, stamp, nonce); InsertAll(table, rows[..n]) == table + rows[..n]
    decreases n
  {
    var rows := LegacyRows(es, source, stamp, nonce);
    if n == 0 {
      assert table + rows[..0] == table;
    } else {
      InsertFresh(table, es, source, stamp, nonce, n - 1);
      assert rows[..n][..n - 1] == rows[..n - 1];
      KeyIsNew(table, es, source, stamp, nonce, n - 1);
      assert (table + rows[..n - 1]) + [rows[n - 1]] == table + rows[..n];
    }
  }

  lemma KeyIsNew<B>(table: seq<Row<B>>, es: seq<Entry<B>>, source: Bytes, stamp: int, nonce: nat, n: nat)
    requires OfSource(table, source) == [] && n < |es|
    ensures var rows := LegacyRows(es, source, stamp, nonce); !HasKey(table + rows[..n], rows[n].legacy)
  {
    var rows := LegacyRows(es, source, stamp, nonce);
    forall i | 0 <= i < |table| ensures table[i].legacy != rows[n].legacy {
      if FromSource(table[i], source) {
        OfSourceFinds(table, source, i);
      }
    }
    var so := table + rows[..n];
    assert forall i :: 0 <= i < |so| ==> so[i] == if i < |table| then table[i] else rows[i - |table|];
  }

  lemma {:induction false} InsertKnown<B>(table: seq<Row<B>>, rows: seq<Row<B>>)
    requires forall i :: 0 <= i < |rows| ==> HasKey(table, rows[i].legacy)
    ensures InsertAll(table, rows) == table
  {
    if rows != [] { InsertKnown(table, rows[..|rows| - 1]); }
  }

  /** A legacy entry and the row that carries it. */
  ghost predicate Carries<B>(row: Row<B>, e: Entry<B>, source: Bytes, ordinal: int) {
    && row.legacy == Some(Key(source, ordinal))
    && Consistent(row)
    && (row.payload.plain == e || (e.time == ZERO_TIME && row.payload.plain == e.(time := row.recordedAt)))
  }

  /** The rows are the entries, each once and in order. */
  ghost predicate CarryAll<B>(rows: seq<Row<B>>, es: seq<Entry<B>>, source: Bytes) {
    && |rows| == |es|
    && forall i :: 0 <= i < |es| ==> Carries(rows[i], es[i], source, i + 1)
  }

  /** Every entry of the file content f is in the table, exactly once and in
      order. */
  ghost predicate Imported<B>(s: Setting<B>, table: seq<Row<B>>, f: Bytes) {
    var es := Loaded(s.codec, f);
    es.Ok? && CarryAll(OfSource(table, s.mac(f)), es.value, s.mac(f))
  }

  predicate Untouched<B>(s: Setting<B>, table: seq<Row<B>>, f: Bytes) {
    OfSource(table, s.mac(f)) == []
  }

  lemma CommitKnown<B>(s: Setting<B>, table: seq<Row<B>>, f: Bytes, stamp: int, nonce: nat)
    requires Imported(s, table, f)
    ensures InsertAll(table, LegacyRows(Loaded(s.codec, f).value, s.mac(f), stamp, nonce)) == table
  {
    var es, source := Loaded(s.codec, f).value, s.mac(f);
    var rows := LegacyRows(es, source, stamp, nonce);
    forall i | 0 <= i < |rows| ensures HasKey(table, rows[i].legacy) {
      assert Carries(OfSource(table, source)[i], es[i], source, i + 1);
      OfSourceKeeps(table, source, i);
    }
    InsertKnown(table, rows);
  }

  lemma CommitFresh<B>(s: Setting<B>, table: seq<Row<B>>, f: Bytes, stamp: int, nonce: nat, other: Bytes)
    requires Loaded(s.codec, f).Ok? && Untouched(s, table, f)
    ensures var rows := LegacyRows(Loaded(s.codec, f).value, s.mac(f), stamp, nonce);
      OfSource(InsertAll(table, rows), other) == if other == s.mac(f) then rows else OfSource(table, other)
  {
    var es, source := Loaded(s.codec, f).value, s.mac(f);
    var rows := LegacyRows(es, source, stamp, nonce);
    InsertFresh(table, es, source, stamp, nonce, |rows|);
    assert rows[..|rows|] == rows;
    OfSourcePlus(table, rows, source, other);
  }

  /** Committing the rows of f imports f and leaves every other source alone. */
  lemma CommitImports<B>(s: Setting<B>, table: seq<Row<B>>, f: Bytes, stamp: int, nonce: nat)
    requires Loaded(s.codec, f).Ok?
    requires Untouched(s, table, f) || Imported(s, table, f)
    ensures var after := InsertAll(table, LegacyRows(Loaded(s.codec, f).value, s.mac(f), stamp, nonce));
      && Imported(s, after, f)
      && forall source :: source != s.mac(f) ==> OfSource(after, source) == OfSource(table, source)
  {
    if Imported(s, table, f) {
      CommitKnown(s, table, f, stamp, nonce);
    } else {
      forall other { CommitFresh(s, table, f, stamp, nonce, other); }
      RowsCarry(Loaded(s.codec, f).value, s.mac(f), stamp, nonce);
    }
  }

  lemma RowsCarry<B>(es: seq<Entry<B>>, source: Bytes, stamp: int, nonce: nat)
    ensures CarryAll(LegacyRows(es, source, stamp, nonce), es, source)
  {
  }

  lemma AppendKeepsSources<B>(table: seq<Row<B>>, row: Row<B>)
    requires row.legacy.None?
    ensures forall source :: OfSource(table + [row], source) == OfSource(table, source)
  {
    assert (table + [row])[..|table|] == table;
  }

  // ---------------------------------------------------------------------------
  // What every run keeps
  // ---------------------------------------------------------------------------

  ghost predicate PhaseInv<B>(s: Setting<B>, w: World<B>) {
    match w.phase
    case Idle => true
    case Inspected(source) => source != [] ==> w.file.Some? && source == s.mac(w.file.value)
    case Prepared(source, rows) =>
      if source == [] then rows == [] || !Complete(rows[0])
      else
        && w.file.Some? && source == s.mac(w.file.value)
        && Loaded(s.codec, w.file.value).Ok?
        && exists stamp, nonce :: rows == LegacyRows(Loaded(s.codec, w.file.value).value, source, stamp, nonce)
    case Committed(source) =>
      source != [] ==> w.file.Some? && source == s.mac(w.file.value) && Imported(s, w.table, w.file.value)
  }

  /** Every content the path has held is imported whole or not at all, and one
      that is gone is imported. */
  ghost predicate Kept<B>(s: Setting<B>, table: seq<Row<B>>, file: Option<Bytes>, f: Bytes) {
    Imported(s, table, f) || (Untouched(s, table, f) && file == Some(f))
  }

  ghost predicate Inv<B>(s: Setting<B>, w: World<B>) {
    && (w.file.Some? ==> w.file.value in w.placed)
    && (forall f :: f in w.placed ==> Kept(s, w.table, w.file, f))
    && PhaseInv(s, w)
  }

  lemma StepKeepsInv<B>(s: Setting<B>, w: World<B>, event: Event<B>)
    requires Fingerprints(s.mac) && Inv(s, w)
    requires event.Place? ==> event.content in w.placed || Untouched(s, w.table, event.content)
    ensures Inv(s, Step(s, w, event))
  {
    var after := Step(s, w, event);
    match event
    case Place(_) =>
    case AppendEntry(entry, stamp, nonce, now) =>
      AppendKeepsSources(w.table, AppendedRow(EncryptedRow(entry, stamp, nonce), now));
    case Inspect =>
    case Read(stamp, nonce) =>
    case Commit =>
      if w.phase.Prepared? && AllComplete(w.phase.rows) {
        CommitKeepsInv(s, w);
      }
    case Remove =>
    case Crash =>
  }

  /** What the rows of a prepared import are. */
  lemma PreparedRows<B>(s: Setting<B>, w: World<B>) returns (stamp: int, nonce: nat)
    requires Inv(s, w) && w.phase.Prepared? && w.phase.source != []
    ensures w.file.Some? && w.phase.source == s.mac(w.file.value) && Loaded(s.codec, w.file.value).Ok?
    ensures w.phase.rows == LegacyRows(Loaded(s.codec, w.file.value).value, w.phase.source, stamp, nonce)
    ensures Kept(s, w.table, w.file, w.file.value)
    ensures forall g :: g in w.placed ==> Kept(s, w.table, w.file, g)
  {
    stamp, nonce :| w.phase.rows == LegacyRows(Loaded(s.codec, w.file.value).value, w.phase.source, stamp, nonce);
  }

  lemma CommitKeepsInv<B>(s: Setting<B>, w: World<B>)
    requires Fingerprints(s.mac) && Inv(s, w) && w.phase.Prepared? && AllComplete(w.phase.rows)
    ensures Inv(s, Step(s, w, Commit))
  {
    var source, rows := w.phase.source, w.phase.rows;
    assert Step(s, w, Commit) == w.(table := InsertAll(w.table, rows), marker := true, phase := Committed(source));
    hide Step;
    if source == [] {
      assert rows == [];
    } else {
      hide Loaded, LegacyRows, InsertAll, AllComplete, Imported, Untouched, Fingerprints;
      var stamp, nonce := PreparedRows(s, w);
      CommitKeeps(s, w.table, w.file.value, w.placed, stamp, nonce);
    }
  }

  lemma CommitKeeps<B>(s: Setting<B>, table: seq<Row<B>>, f: Bytes, placed: set<Bytes>, stamp: int, nonce: nat)
    requires Fingerprints(s.mac) && Loaded(s.codec, f).Ok?
    requires Untouched(s, table, f) || Imported(s, table, f)
    requires forall g :: g in placed ==> Kept(s, table, Some(f), g)
    ensures var after := InsertAll(table, LegacyRows(Loaded(s.codec, f).value, s.mac(f), stamp, nonce));
      && Imported(s, after, f)
      && forall g :: g in placed ==> Kept(s, after, Some(f), g)
  {
    CommitImports(s, table, f, stamp, nonce);
    var after := InsertAll(table, LegacyRows(Loaded(s.codec, f).value, s.mac(f), stamp, nonce));
    forall g | g in placed ensures Kept(s, after, Some(f), g) {
      assert Kept(s, table, Some(f), g);
      assert g != f ==> OfSource(after, s.mac(g)) == OfSource(table, s.mac(g));
    }
  }

  /** A start: an old file or none, and a table without imported rows. */
  predicate Initial<B>(w: World<B>) {
    && w.phase.Idle?
    && w.placed == (if w.file.None? then {} else {w.file.value})
    && forall i :: 0 <= i < |w.table| ==> w.table[i].legacy.None?
  }

  /** Rows exist only for contents that were placed. */
  ghost predicate OnlyPlaced<B>(s: Setting<B>, w: World<B>) {
    && (w.phase.Prepared? ==> w.phase.source != [] || w.phase.rows == [] || !AllComplete(w.phase.rows))
    && forall source :: OfSource(w.table, source) != [] ==> exists f :: f in w.placed && source == s.mac(f)
  }

  lemma StepKeepsOnlyPlaced<B>(s: Setting<B>, w: World<B>, event: Event<B>)
    requires Fingerprints(s.mac) && Inv(s, w) && OnlyPlaced(s, w)
    ensures OnlyPlaced(s, Step(s, w, event))
  {
    match event
    case Place(_) =>
    case AppendEntry(entry, stamp, nonce, now) =>
      AppendKeepsSources(w.table, AppendedRow(EncryptedRow(entry, stamp, nonce), now));
    case Inspect =>
    case Read(stamp, nonce) =>
      if w.phase.Inspected? && Entries(s, w.file).Ok? {
        LegacyRowsComplete(Entries(s, w.file).value, w.phase.source, stamp, nonce);
      }
    case Commit =>
      if w.phase.Prepared? && AllComplete(w.phase.rows) && w.phase.source != [] {
        var f := w.file.value;
        var stamp, nonce :| w.phase.rows == LegacyRows(Loaded(s.codec, f).value, w.phase.source, stamp, nonce);
        CommitImports(s, w.table, f, stamp, nonce);
      }
    case Remove =>
    case Crash =>
  }

  lemma {:induction false} RunKeepsInv<B>(s: Setting<B>, w: World<B>, events: seq<Event<B>>)
    requires Fingerprints(s.mac) && Initial(w)
    ensures Inv(s, Run(s, w, events)) && OnlyPlaced(s, Run(s, w, events))
  {
    if events == [] {
      forall source ensures OfSource(w.table, source) == [] {
        NoneImported(w.table, source);
      }
    } else {
      var n := |events| - 1;
      RunKeepsInv(s, w, events[..n]);
      var so := Run(s, w, events[..n]);
      StepKeepsInv(s, so, events[n]);
      StepKeepsOnlyPlaced(s, so, events[n]);
    }
  }

  lemma {:induction false} NoneImported<B>(table: seq<Row<B>>, source: Bytes)
    requires forall i :: 0 <= i < |table| ==> table[i].legacy.None?
    ensures OfSource(table, source) == []
  {
    if table != [] { NoneImported(table[..|table| - 1], source); }
  }

  // ---------------------------------------------------------------------------
  // The theorems
  // ---------------------------------------------------------------------------

  /** Whatever crashes and retries happen, each file content ever seen is still
      the file or is in the table, exactly once and in order; and a file is
      never imported in part. */
  lemma NothingIsLostOrDoubled<B>(s: Setting<B>, w: World<B>, events: seq<Event<B>>, f: Bytes)
    requires Fingerprints(s.mac) && Initial(w) && f in Run(s, w, events).placed
    ensures var after := Run(s, w, events);
      && (after.file == Some(f) || Imported(s, after.table, f))
      && (Untouched(s, after.table, f) || Imported(s, after.table, f))
  {
    RunKeepsInv(s, w, events);
  }

  /** From any reachable state, one attempt that is not cut short removes the
      file exactly when the file can be read and sealed; otherwise it changes
      nothing. */
  lemma AttemptFinishesIff<B>(s: Setting<B>, w: World<B>, events: seq<Event<B>>, stamp: int, nonce: nat)
    requires Fingerprints(s.mac) && Initial(w)
    requires Run(s, w, events).phase.Idle? && Run(s, w, events).file.Some?
    ensures var before := Run(s, w, events);
      var after := Run(s, before, Attempt(stamp, nonce));
      if Migrates(s, before.file)
      then after.file == None && Imported(s, after.table, before.file.value)
      else after == before
  {
    var before := Run(s, w, events);
    RunKeepsInv(s, w, events);
    AttemptResult(s, before, stamp, nonce);
    if Migrates(s, before.file) {
      hide Run, LegacyRows, InsertAll, Imported, Untouched;
      assert Kept(s, before.table, before.file, before.file.value);
      CommitImports(s, before.table, before.file.value, stamp, nonce);
    }
  }

  /** An attempt after a crash between commit and removal adds no row. */
  lemma RetryAddsNothing<B>(s: Setting<B>, w: World<B>, stamp: int, nonce: nat)
    requires Fingerprints(s.mac) && w.phase.Idle?
    requires w.file.Some? && Imported(s, w.table, w.file.value)
    ensures Run(s, w, Attempt(stamp, nonce)).table == w.table
  {
    AttemptResult(s, w, stamp, nonce);
    if Migrates(s, w.file) {
      hide Run, LegacyRows, InsertAll, Imported;
      CommitKnown(s, w.table, w.file.value, stamp, nonce);
    }
  }
}
