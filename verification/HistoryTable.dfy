/** The command history as an encrypted SQL table (internal/database/database.go
    and the SQLite half of terminal/log.go). */
module HistoryTable {
  import opened Outcomes
  import opened Utf8
  import opened HistoryLog

  /** The zero time.Time in nanoseconds since 1970: 0001-01-01. */
  const ZERO_TIME: int := -62135596800 * 1000000000

  datatype Entry<B> = Entry(time: int, connection: string, body: B)

  /** A ciphertext: opening it gives back the plain text, and sealing the same
      text again gives another value. */
  datatype Sealed<T> = Sealed(plain: T, nonce: nat)

  /** The unique index (legacy_source, legacy_ordinal); other rows hold NULL. */
  datatype Key = Key(source: Bytes, ordinal: int)

  datatype Row<B> = Row(recordedAt: int, connection: Sealed<string>, payload: Sealed<Entry<B>>, legacy: Option<Key>)

  /** encryptedHistoryRow stamps an entry that has no time. */
  function Stamped<B>(e: Entry<B>, now: int): Entry<B> {
    if e.time == ZERO_TIME then e.(time := now) else e
  }

  function EncryptedRow<B>(e: Entry<B>, now: int, nonce: nat): Row<B> {
    var stamped := Stamped(e, now);
    Row(stamped.time, Sealed(stamped.connection, nonce), Sealed(stamped, nonce), None)
  }

  // ---------------------------------------------------------------------------
  // What the statements do to the table
  // ---------------------------------------------------------------------------

  predicate HasKey<B>(table: seq<Row<B>>, key: Option<Key>) {
    exists i :: 0 <= i < |table| && table[i].legacy == key
  }

  /** INSERT OR IGNORE of a row whose legacy columns are set. */
  function Insert<B>(table: seq<Row<B>>, row: Row<B>): seq<Row<B>> {
    if HasKey(table, row.legacy) then table else table + [row]
  }

  function InsertAll<B>(table: seq<Row<B>>, rows: seq<Row<B>>): seq<Row<B>> {
    if rows == [] then table
    else Insert(InsertAll(table, rows[..|rows| - 1]), rows[|rows| - 1])
  }

  predicate Complete<B>(row: Row<B>) {
    row.legacy.Some? && row.legacy.value.source != [] && row.legacy.value.ordinal > 0
  }

  predicate AllComplete<B>(rows: seq<Row<B>>) {
    forall i :: 0 <= i < |rows| ==> Complete(rows[i])
  }

  /** AppendHistory takes the clock when a row carries no time. */
  function AppendedRow<B>(row: Row<B>, now: int): Row<B> {
    Row(if row.recordedAt == 0 then now else row.recordedAt, row.connection, row.payload, None)
  }

  function Reverse<T>(s: seq<T>): (r: seq<T>)
    ensures |r| == |s|
    ensures forall i :: 0 <= i < |s| ==> r[i] == s[|s| - 1 - i]
  {
    if s == [] then [] else Reverse(s[1..]) + [s[0]]
  }

  /** The rows with this stored connection; no filter for the empty string. */
  function OfStored<B>(table: seq<Row<B>>, connection: Option<Sealed<string>>): seq<Row<B>> {
    if table == [] then []
    else
      var last := table[|table| - 1];
      OfStored(table[..|table| - 1], connection)
      + if connection.None? || last.connection == connection.value then [last] else []
  }

  lemma {:induction false} NoFilter<B>(table: seq<Row<B>>)
    ensures OfStored(table, None) == table
  {
    if table != [] {
      NoFilter(table[..|table| - 1]);
      assert table[..|table| - 1] + [table[|table| - 1]] == table;
    }
  }

  /** SELECT of some rows: ORDER BY id DESC LIMIT limit, or all ORDER BY id ASC. */
  function Selected<B>(table: seq<Row<B>>, limit: int): seq<Row<B>> {
    if limit > 0 then
      var newest := Reverse(table);
      if |newest| > limit then newest[..limit] else newest
    else table
  }

  method TurnRound<T>(a: array<T>)
    modifies a
    ensures a[..] == Reverse(old(a[..]))
  {
    var left, right := 0, a.Length - 1;
    while left < right
      invariant 0 <= left <= a.Length && right == a.Length - 1 - left
      invariant left <= right + 1
      invariant forall k :: 0 <= k < left || right < k < a.Length ==> a[k] == old(a[a.Length - 1 - k])
      invariant forall k :: left <= k <= right ==> a[k] == old(a[k])
    {
      a[left], a[right] := a[right], a[left];
      left, right := left + 1, right - 1;
    }
  }

  lemma PageReversed<B>(table: seq<Row<B>>, limit: int)
    ensures LastN(table, limit) == if limit > 0 then Reverse(Selected(table, limit)) else Selected(table, limit)
  {
  }

  class Database<B> {
    /** command_history in id order: ids only grow and no row is deleted. */
    var table: seq<Row<B>>
    /** The metadata entry that says the legacy file was imported. */
    var marker: bool

    constructor ()
      ensures table == [] && !marker
    {
      table, marker := [], false;
    }

    method AppendHistory(row: Row<B>, now: int)
      modifies this
      ensures table == old(table) +
        [row.(recordedAt := if row.recordedAt == 0 then now else row.recordedAt, legacy := None)]
      ensures marker == old(marker)
    {
      var recordedAt := row.recordedAt;
      if recordedAt == 0 {
        recordedAt := now;
      }
      table := table + [row.(recordedAt := recordedAt, legacy := None)];
    }

    method Query(connection: Option<Sealed<string>>, limit: int) returns (result: array<Row<B>>)
      ensures fresh(result) && result[..] == Selected(OfStored(table, connection), limit)
    {
      var found := Selected(OfStored(table, connection), limit);
      result := new Row<B>[|found|](i requires 0 <= i < |found| => found[i]);
    }

    /** Newest first when limited, so the page is turned round in place. */
    method LoadHistory(connection: Option<Sealed<string>>, limit: int) returns (result: array<Row<B>>)
      ensures fresh(result) && result[..] == LastN(OfStored(table, connection), limit)
    {
      result := Query(connection, limit);
      PageReversed(OfStored(table, connection), limit);
      if limit > 0 {
        TurnRound(result);
      }
    }

    /** One transaction: every row and the marker, or nothing. */
    method MigrateHistory(rows: seq<Row<B>>) returns (r: Result<bool>)
      modifies this
      ensures r.Ok? <==> forall i :: 0 <= i < |rows| ==>
        rows[i].legacy.Some? && rows[i].legacy.value.source != [] && rows[i].legacy.value.ordinal > 0
      ensures r.Ok? ==>
        && table == InsertAll(old(table), rows) && marker
        && r.value == (table != old(table))
      ensures r.Err? ==> table == old(table) && marker == old(marker)
    {
      var begun := table;
      var applied := false;
      var i := 0;
      while i < |rows|
        invariant 0 <= i <= |rows| && marker == old(marker)
        invariant AllComplete(rows[..i])
        invariant table == InsertAll(begun, rows[..i])
        invariant begun <= table && applied == (|table| > |begun|)
      {
        assert rows[..i + 1][..i] == rows[..i];
        var row := rows[i];
        if row.legacy.None? || row.legacy.value.source == [] || row.legacy.value.ordinal <= 0 {
          table := begun;
          assert !Complete(rows[i]);
          return Err;
        }
        if !HasKey(table, row.legacy) {
          table := table + [row];
          applied := true;
        }
        i := i + 1;
      }
      assert rows[..i] == rows;
      marker := true;
      return Ok(applied);
    }
  }

  // ---------------------------------------------------------------------------
  // Reading the table back
  // ---------------------------------------------------------------------------

  /** The decrypted row agrees with its clear columns. */
  predicate Consistent<B>(row: Row<B>) {
    && row.connection.plain == row.payload.plain.connection
    && row.recordedAt == row.payload.plain.time
  }

  predicate AllConsistent<B>(rows: seq<Row<B>>) {
    forall i :: 0 <= i < |rows| ==> Consistent(rows[i])
  }

  function Plain<B>(rows: seq<Row<B>>): (es: seq<Entry<B>>)
    ensures |es| == |rows|
    ensures forall i :: 0 <= i < |rows| ==> es[i] == rows[i].payload.plain
  {
    if rows == [] then [] else Plain(rows[..|rows| - 1]) + [rows[|rows| - 1].payload.plain]
  }

  /** The entries of one connection; "" stands for every connection. */
  function Chosen<B>(es: seq<Entry<B>>, id: string): seq<Entry<B>> {
    if es == [] then []
    else
      var last := es[|es| - 1];
      Chosen(es[..|es| - 1], id) + if id == "" || last.connection == id then [last] else []
  }

  lemma {:induction false} EveryConnection<B>(es: seq<Entry<B>>)
    ensures Chosen(es, "") == es
  {
    if es != [] { EveryConnection(es[..|es| - 1]); }
  }

  /** The rows that a query decrypts: all of them unless it wants the newest of
      every connection. */
  function Window<B>(table: seq<Row<B>>, id: string, limit: int): seq<Row<B>> {
    LastN(table, if id == "" then limit else 0)
  }

  function LoadedSqlite<B>(table: seq<Row<B>>, keyPresent: bool, id: string, limit: int): Result<seq<Entry<B>>> {
    if keyPresent && AllConsistent(Window(table, id, limit)) then Ok(LastN(Chosen(Plain(table), id), limit)) else Err
  }

  method LoadSqlite<B>(db: Database<B>, keyPresent: bool, id: string, limit: int) returns (r: Result<seq<Entry<B>>>)
    ensures r == LoadedSqlite(db.table, keyPresent, id, limit)
  {
    if !keyPresent {
      return Err;
    }
    var databaseLimit := limit;
    if id != "" {
      databaseLimit := 0;
    }
    var result := db.LoadHistory(None, databaseLimit);
    NoFilter(db.table);
    r := DecryptRows(result[..], id, limit);
    WindowIsEnough(db.table, id, limit);
  }

  method DecryptRows<B>(rows: seq<Row<B>>, id: string, limit: int) returns (r: Result<seq<Entry<B>>>)
    ensures r.Ok? <==> AllConsistent(rows)
    ensures r.Ok? ==> r.value == LastN(Chosen(Plain(rows), id), limit)
  {
    var entries: seq<Entry<B>> := [];
    ghost var all: seq<Entry<B>> := [];
    var i := 0;
    while i < |rows|
      invariant 0 <= i <= |rows|
      invariant forall k :: 0 <= k < i ==> Consistent(rows[k])
      invariant all == Chosen(Plain(rows[..i]), id)
      invariant entries == LastN(all, limit)
    {
      var row := rows[i];
      var entry := row.payload.plain;
      if !Consistent(row) {
        return Err;
      }
      ChosenSnoc(rows, i, id);
      if id == "" || entry.connection == id {
        KeepIsLastN(all, entry, limit);
        entries, all := Keep(entries, entry, limit), all + [entry];
      }
      i := i + 1;
    }
    assert rows[..i] == rows;
    return Ok(entries);
  }

  lemma ChosenSnoc<B>(rows: seq<Row<B>>, i: nat, id: string)
    requires i < |rows|
    ensures var entry := rows[i].payload.plain;
      Chosen(Plain(rows[..i + 1]), id) ==
        Chosen(Plain(rows[..i]), id) + if id == "" || entry.connection == id then [entry] else []
  {
    assert rows[..i + 1][..i] == rows[..i];
    assert Plain(rows[..i + 1])[..i] == Plain(rows[..i]);
  }

  lemma WindowIsEnough<B>(table: seq<Row<B>>, id: string, limit: int)
    ensures LastN(Chosen(Plain(Window(table, id, limit)), id), limit) == LastN(Chosen(Plain(table), id), limit)
  {
    if id == "" {
      var page := Window(table, id, limit);
      EveryConnection(Plain(page));
      EveryConnection(Plain(table));
      assert Plain(page) == LastN(Plain(table), limit);
    }
  }

  // ---------------------------------------------------------------------------
  // Appending and reading back
  // ---------------------------------------------------------------------------

  /** now is the clock of AppendHistory, stamp that of encryptedHistoryRow. */
  function AppendedSqlite<B>(
      table: seq<Row<B>>, keyPresent: bool, e: Entry<B>, stamp: int, nonce: nat, now: int): seq<Row<B>>
  {
    if keyPresent then table + [AppendedRow(EncryptedRow(e, stamp, nonce), now)] else table
  }

  method AppendSqlite<B>(
      db: Database<B>, keyPresent: bool, e: Entry<B>, stamp: int, nonce: nat, now: int)
    returns (ok: bool)
    modifies db
    ensures ok == keyPresent && db.marker == old(db.marker)
    ensures db.table == AppendedSqlite(old(db.table), keyPresent, e, stamp, nonce, now)
  {
    if !keyPresent {
      return false;
    }
    db.AppendHistory(EncryptedRow(e, stamp, nonce), now);
    return true;
  }

  lemma LastNHoldsLast<T>(s: seq<T>, x: T, limit: int) returns (k: nat)
    ensures k <= |s| && LastN(s + [x], limit) == s[k..] + [x]
  {
    k := if limit > 0 && |s| + 1 > limit then |s| + 1 - limit else 0;
  }

  lemma WindowOfAppended<B>(table: seq<Row<B>>, row: Row<B>, id: string, limit: int)
    requires AllConsistent(table)
    ensures AllConsistent(Window(table + [row], id, limit)) <==> Consistent(row)
  {
    var k := LastNHoldsLast(table, row, if id == "" then limit else 0);
    hide Consistent, LastN;
    var window := table[k..] + [row];
    assert window[|window| - 1] == row;
    assert forall i :: 0 <= i < |table| - k ==> window[i] == table[k + i];
  }

  /** When every row could be read, an appended entry keeps every query working
      unless it was recorded at the very instant 1970-01-01: AppendHistory then
      replaces the clear time only, and each load whose window holds the row
      fails as a whole, for whatever connection. */
  lemma AppendedReadsBackIff<B>(
      table: seq<Row<B>>, e: Entry<B>, stamp: int, nonce: nat, now: int, id: string, limit: int)
    requires AllConsistent(table)
    ensures var after := AppendedSqlite(table, true, e, stamp, nonce, now);
      var r := LoadedSqlite(after, true, id, limit);
      var time := if e.time == -62135596800000000000 then stamp else e.time;
      && (r.Ok? <==> time != 0 || now == 0)
      && (r.Ok? ==> r.value == LastN(
            Chosen(Plain(table), id) + (if id == "" || e.connection == id then [e.(time := time)] else []), limit))
  {
    var row := AppendedRow(EncryptedRow(e, stamp, nonce), now);
    var after := table + [row];
    WindowOfAppended(table, row, id, limit);
    ChosenSnoc(after, |table|, id);
    assert after[..|table|] == table && after[..|table| + 1] == after;
  }

  /** Queries for one connection, and unlimited ones, never work again. */
  lemma BadRowStays<B>(table: seq<Row<B>>, later: seq<Row<B>>, keyPresent: bool, id: string, limit: int)
    requires !AllConsistent(table) && (id != "" || limit <= 0)
    ensures LoadedSqlite(table + later, keyPresent, id, limit).Err?
  {
    var i :| 0 <= i < |table| && !Consistent(table[i]);
    assert (table + later)[i] == table[i];
  }

  /** One such entry, appended to an empty table in 2024. */
  lemma EpochEntryBlocksLoading()
    ensures var e := Entry(0, "local", "ls");
      var after := AppendedSqlite([], true, e, 1704067200000000000, 0, 1704067200000000000);
      LoadedSqlite(after, true, "", 0).Err?
  {
    var e := Entry(0, "local", "ls");
    AppendedReadsBackIff([], e, 1704067200000000000, 0, 1704067200000000000, "", 0);
  }

  // ---------------------------------------------------------------------------
  // What is loaded and what is inserted
  // ---------------------------------------------------------------------------

  /** A load succeeds exactly if the key is set and every row that it decrypts
      has its connection and its time in the clear as in the payload. */
  lemma LoadsIff<B>(table: seq<Row<B>>, keyPresent: bool, id: string, limit: int)
    ensures var from := if id == "" && 0 < limit < |table| then |table| - limit else 0;
      LoadedSqlite(table, keyPresent, id, limit).Ok? <==>
        keyPresent && forall i :: from <= i < |table| ==>
          && table[i].connection.plain == table[i].payload.plain.connection
          && table[i].recordedAt == table[i].payload.plain.time
  {
    var from := if id == "" && 0 < limit < |table| then |table| - limit else 0;
    assert Window(table, id, limit) == table[from..];
    assert forall i :: from <= i < |table| ==> table[i] == table[from..][i - from];
  }

  lemma {:induction false} ChosenFilters<B>(es: seq<Entry<B>>, id: string) returns (at: seq<int>)
    requires id != ""
    ensures Filters(es, (e: Entry<B>) => e.connection, id, at) && Picks(Chosen(es, id), es, at)
  {
    at := [];
    var key := (e: Entry<B>) => e.connection;
    if es != [] {
      var n := |es| - 1;
      at := ChosenFilters(es[..n], id);
      FiltersMore(es[..n], key, id, at, Chosen(es[..n], id), es[n]);
      assert es[..n] + [es[n]] == es;
      if es[n].connection == id { at := at + [n]; }
    }
  }

  /** The rows with one stored connection, each once and in order. */
  lemma {:induction false} OfStoredFilters<B>(table: seq<Row<B>>, connection: Sealed<string>) returns (at: seq<int>)
    ensures Filters(table, (row: Row<B>) => row.connection, connection, at)
    ensures Picks(OfStored(table, Some(connection)), table, at)
  {
    at := [];
    var key := (row: Row<B>) => row.connection;
    if table != [] {
      var n := |table| - 1;
      at := OfStoredFilters(table[..n], connection);
      FiltersMore(table[..n], key, connection, at, OfStored(table[..n], Some(connection)), table[n]);
      assert table[..n] + [table[n]] == table;
      if table[n].connection == connection { at := at + [n]; }
    }
  }

  /** The key of row i is neither in the table nor in an earlier row. */
  predicate KeyIsFresh<B>(table: seq<Row<B>>, rows: seq<Row<B>>, i: int)
    requires 0 <= i < |rows|
  {
    && (forall j :: 0 <= j < |table| ==> table[j].legacy != rows[i].legacy)
    && (forall j :: 0 <= j < i ==> rows[j].legacy != rows[i].legacy)
  }

  /** Exactly the rows with a fresh key are inserted, in order and at the end. */
  lemma {:induction false} FreshKeysAreInserted<B>(table: seq<Row<B>>, rows: seq<Row<B>>)
    returns (at: seq<int>, inserted: seq<Row<B>>)
    ensures InsertAll(table, rows) == table + inserted && Picks(inserted, rows, at)
    ensures forall m, n :: 0 <= m < n < |at| ==> at[m] < at[n]
    ensures forall i :: 0 <= i < |rows| ==> (i in at <==> KeyIsFresh(table, rows, i))
  {
    at, inserted := [], [];
    if rows == [] {
      assert table + [] == table;
    } else {
      var n := |rows| - 1;
      at, inserted := FreshKeysAreInserted(table, rows[..n]);
      forall i | 0 <= i < n ensures KeyIsFresh(table, rows, i) <==> KeyIsFresh(table, rows[..n], i) {
      }
      KeyAmongInserted(table, rows[..n], at, inserted, rows[n].legacy);
      if KeyIsFresh(table, rows, n) {
        assert forall i :: i in at + [n] <==> i in at || i == n;
        assert (table + inserted) + [rows[n]] == table + (inserted + [rows[n]]);
        at, inserted := at + [n], inserted + [rows[n]];
      }
    }
  }

  /** A key is in the table after the insertion exactly if it was there before or
      is that of some row. */
  lemma KeyAmongInserted<B>(table: seq<Row<B>>, rows: seq<Row<B>>, at: seq<int>, more: seq<Row<B>>, key: Option<Key>)
    requires Picks(more, rows, at)
    requires forall i :: 0 <= i < |rows| ==> (i in at <==> KeyIsFresh(table, rows, i))
    ensures HasKey(table + more, key) <==>
      HasKey(table, key) || exists i :: 0 <= i < |rows| && rows[i].legacy == key
  {
    var all := table + more;
    if HasKey(table, key) {
      var i :| 0 <= i < |table| && table[i].legacy == key;
      assert all[i].legacy == key;
    } else if exists i :: 0 <= i < |rows| && rows[i].legacy == key {
      var i := FirstWithKey(rows, key);
      assert KeyIsFresh(table, rows, i);
      var n :| 0 <= n < |at| && at[n] == i;
      assert all[|table| + n] == rows[i];
    }
  }

  lemma {:induction false} FirstWithKey<B>(rows: seq<Row<B>>, key: Option<Key>) returns (i: nat)
    requires exists i :: 0 <= i < |rows| && rows[i].legacy == key
    ensures i < |rows| && rows[i].legacy == key && forall j :: 0 <= j < i ==> rows[j].legacy != key
  {
    var n := |rows| - 1;
    i := n;
    if exists j :: 0 <= j < n && rows[..n][j].legacy == key {
      i := FirstWithKey(rows[..n], key);
    } else {
      assert forall j :: 0 <= j < n ==> rows[..n][j] == rows[j];
    }
  }
}
