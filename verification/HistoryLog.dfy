/** The append-only command history (terminal/log.go): one JSON record a line,
    repaired on the next append after a crash. */
module HistoryLog {
  import opened Outcomes
  import opened Utf8
  import opened ByteLines

  /** The largest token of the line scanner (terminal/scanner.go). */
  const MAX_LINE := 10 * 1024 * 1024

  /** encoding/json for one record type: Encode without its newline, Unmarshal
      and Valid. */
  datatype Codec<!E> = Codec(encode: E -> Bytes, decode: Bytes -> Option<E>, valid: Bytes -> bool)

  /** What is used of JSON objects: they are read back, are not empty, contain no
      raw line break, and no proper prefix of one is valid. */
  ghost predicate Lawful<E(!new)>(c: Codec<E>) {
    && (forall e :: c.decode(c.encode(e)) == Some(e) && c.valid(c.encode(e)))
    && (forall e :: c.encode(e) != [] && LF !in c.encode(e) && CR !in c.encode(e))
    && (forall e, p :: p < c.encode(e) ==> !c.valid(p) && c.decode(p) == None)
    && c.decode([]) == None
  }

  // ---------------------------------------------------------------------------
  // What the operations do to the bytes of the file
  // ---------------------------------------------------------------------------

  /** bytes.LastIndexByte */
  function LastIndex(s: Bytes, b: byte): (i: int)
    ensures -1 <= i < |s|
    ensures i >= 0 ==> s[i] == b
    ensures forall k :: i < k < |s| ==> s[k] != b
  {
    if s == [] then -1
    else if s[|s| - 1] == b then |s| - 1
    else LastIndex(s[..|s| - 1], b)
  }

  function TailStart(f: Bytes): nat {
    if |f| > MAX_LINE + 1 then |f| - (MAX_LINE + 1) else 0
  }

  /** prepareHistoryAppend */
  function Prepared<E>(c: Codec<E>, f: Bytes): Result<Bytes> {
    if f == [] || f[|f| - 1] == LF then Ok(f)
    else
      var start := TailStart(f);
      var last := LastIndex(f[start..], LF);
      if last < 0 && start > 0 then Err
      else if c.valid(f[start + last + 1..]) then Ok(f + [LF])
      else Ok(f[..start + last + 1])
  }

  function Line<E>(c: Codec<E>, e: E): Bytes { c.encode(e) + [LF] }

  /** Append */
  function Appended<E>(c: Codec<E>, f: Bytes, e: E): Result<Bytes> {
    match Prepared(c, f) case Ok(g) => Ok(g + Line(c, e)) case Err => Err
  }

  /** The tokens of the line scanner; a token that is too long is an error. */
  function Tokens(f: Bytes): seq<Bytes> {
    Lines(f) + if Rest(f) == [] then [] else [Rest(f)]
  }

  predicate Scannable(f: Bytes) {
    forall t :: t in Tokens(f) ==> |t| < MAX_LINE
  }

  function DecodeAll<E>(c: Codec<E>, lines: seq<Bytes>): Result<seq<E>> {
    if lines == [] then Ok([])
    else
      var init := DecodeAll(c, lines[..|lines| - 1]);
      var last := c.decode(StripCR(lines[|lines| - 1]));
      if init.Err? || last.None? then Err else Ok(init.value + [last.value])
  }

  function LastN<T>(s: seq<T>, limit: int): seq<T> {
    if limit > 0 && |s| > limit then s[|s| - limit..] else s
  }

  /** The scan keeps the previous line in a slice that starts as nil and stays
      nil as long as empty lines are copied into it: blank lines at the beginning
      of the file are skipped. */
  function DropBlank(tokens: seq<Bytes>): seq<Bytes> {
    if tokens != [] && StripCR(tokens[0]) == [] then DropBlank(tokens[1..]) else tokens
  }

  /** The entries of the lines; the last one may be torn. */
  function Scanned<E>(c: Codec<E>, lines: seq<Bytes>, endsWithNewline: bool): Result<seq<E>> {
    if lines == [] then Ok([])
    else
      var n := |lines| - 1;
      var init := DecodeAll(c, lines[..n]);
      var last := c.decode(StripCR(lines[n]));
      if init.Err? then Err
      else if last.Some? then Ok(init.value + [last.value])
      else if endsWithNewline then Err
      else init
  }

  predicate EndsWithNewline(f: Bytes) { f == [] || f[|f| - 1] == LF }

  /** Load without its limit. */
  function Loaded<E>(c: Codec<E>, f: Bytes): Result<seq<E>> {
    if !Scannable(f) then Err else Scanned(c, DropBlank(Tokens(f)), EndsWithNewline(f))
  }

  // ---------------------------------------------------------------------------
  // The file, written in place
  // ---------------------------------------------------------------------------

  /** g is data with some of the bytes written behind it. */
  ghost predicate Grown(data: Bytes, bytes: Bytes, g: Bytes) {
    exists n :: 0 <= n <= |bytes| && g == data + bytes[..n]
  }

  /** g is data cut to some length down to size. */
  ghost predicate Shrunk(data: Bytes, size: nat, g: Bytes) {
    exists n :: size <= n <= |data| && g == data[..n]
  }

  /** An open file.  seen holds every content it has had, byte by byte: what a
      crash may leave behind. */
  class File {
    var data: Bytes
    ghost var seen: seq<Bytes>

    constructor (initial: Bytes)
      ensures data == initial && seen == [initial]
    {
      data, seen := initial, [initial];
    }

    method Write(bytes: Bytes)
      modifies this
      ensures data == old(data) + bytes
      ensures old(seen) <= seen
      ensures forall g :: g in seen[|old(seen)|..] ==> Grown(old(data), bytes, g)
    {
      var i := 0;
      while i < |bytes|
        invariant 0 <= i <= |bytes| && data == old(data) + bytes[..i]
        invariant old(seen) <= seen
        invariant forall g :: g in seen[|old(seen)|..] ==> Grown(old(data), bytes, g)
      {
        data := data + [bytes[i]];
        i := i + 1;
        assert data == old(data) + bytes[..i];
        ghost var before := seen;
        seen := seen + [data];
        assert seen[|old(seen)|..] == before[|old(seen)|..] + [data];
      }
      assert bytes[..i] == bytes;
    }

    /** The file system may cut a long file in several steps. */
    method Truncate(size: nat)
      requires size <= |data|
      modifies this
      ensures data == old(data)[..size]
      ensures old(seen) <= seen
      ensures forall g :: g in seen[|old(seen)|..] ==> Shrunk(old(data), size, g)
    {
      while |data| > size
        invariant size <= |data| <= |old(data)| && data == old(data)[..|data|]
        invariant old(seen) <= seen
        invariant forall g :: g in seen[|old(seen)|..] ==> Shrunk(old(data), size, g)
      {
        data := data[..|data| - 1];
        assert data == old(data)[..|data|];
        ghost var before := seen;
        seen := seen + [data];
        assert seen[|old(seen)|..] == before[|old(seen)|..] + [data];
      }
    }
  }

  /** g may be found in the file while f is repaired to p. */
  ghost predicate RepairState(f: Bytes, p: Bytes, g: Bytes) {
    g == f || g == p || Shrunk(f, |p|, g)
  }

  /** g may be found in the file when Append(e) on f is cut short, or is done. */
  ghost predicate CrashState<E(!new)>(c: Codec<E>, f: Bytes, e: E, g: Bytes) {
    || g == f
    || (Prepared(c, f).Ok? && Shrunk(f, |Prepared(c, f).value|, g))
    || (Prepared(c, f).Ok? && Grown(Prepared(c, f).value, Line(c, e), g))
  }

  lemma PreparedCases<E>(c: Codec<E>, f: Bytes)
    ensures f == [] || f[|f| - 1] == LF ==> Prepared(c, f) == Ok(f)
    ensures f != [] && f[|f| - 1] != LF ==>
      (var start := TailStart(f);
       var last := LastIndex(f[start..], LF);
       Prepared(c, f) ==
         if last < 0 && start > 0 then Err
         else if c.valid(f[start + last + 1..]) then Ok(f + [LF])
         else Ok(f[..start + last + 1]))
  {
  }

  method PrepareHistoryAppend<E(!new)>(c: Codec<E>, f: File) returns (ok: bool)
    modifies f
    ensures ok == Prepared(c, old(f.data)).Ok?
    ensures f.data == if ok then Prepared(c, old(f.data)).value else old(f.data)
    ensures old(f.seen) <= f.seen
    ensures forall g :: g in f.seen[|old(f.seen)|..] ==> RepairState(old(f.data), f.data, g)
  {
    hide Prepared, LastIndex, Shrunk, Grown;
    PreparedCases(c, f.data);
    if |f.data| == 0 {
      return true;
    }
    var readSize := |f.data|;
    if readSize > MAX_LINE + 1 {
      readSize := MAX_LINE + 1;
    }
    var start := |f.data| - readSize;
    var tail := f.data[start..];
    if tail[|tail| - 1] == LF {
      return true;
    }
    var lastNewline := LastIndex(tail, LF);
    if lastNewline < 0 && start > 0 {
      return false;
    }
    var record := tail[lastNewline + 1..];
    assert start == TailStart(f.data) && record == f.data[start + lastNewline + 1..];
    if c.valid(record) {
      OneByteWritten(f.data);
      f.Write([LF]);
      return true;
    }
    f.Truncate(start + lastNewline + 1);
    return true;
  }

  lemma OneByteWritten(data: Bytes)
    ensures forall g :: Grown(data, [LF], g) ==> g == data || g == data + [LF]
  {
    assert forall n :: 0 <= n <= 1 ==> data + [LF][..n] == if n == 0 then data else data + [LF];
  }

  method Append<E(!new)>(c: Codec<E>, f: File, e: E) returns (ok: bool)
    modifies f
    ensures ok == Appended(c, old(f.data), e).Ok?
    ensures f.data == if ok then Appended(c, old(f.data), e).value else old(f.data)
    ensures old(f.seen) <= f.seen
    ensures forall g :: g in f.seen[|old(f.seen)|..] ==> CrashState(c, old(f.data), e, g)
  {
    ok := PrepareHistoryAppend(c, f);
    if !ok {
      return;
    }
    var prepared, before := f.data, f.seen;
    forall g | g in f.seen[|old(f.seen)|..] ensures CrashState(c, old(f.data), e, g) {
      if g == f.data { assert g == prepared + Line(c, e)[..0]; }
    }
    f.Write(c.encode(e) + [LF]);
    assert f.seen[|old(f.seen)|..] == before[|old(f.seen)|..] + f.seen[|before|..];
  }

  /** The scan loop: entries holds the last limit records decoded so far. */
  method Load<E>(c: Codec<E>, f: Bytes, limit: int) returns (r: Result<seq<E>>)
    ensures r == match Loaded(c, f) case Ok(all) => Ok(LastN(all, limit)) case Err => Err
  {
    var endsWithNewline := |f| == 0 || f[|f| - 1] == LF;
    if !Scannable(f) {
      return Err;
    }
    r := ScanEntries(c, Tokens(f), endsWithNewline, limit);
  }

  /** The loop over the tokens of the scanner: a line is decoded once the next
      one has been read. */
  method ScanEntries<E>(c: Codec<E>, tokens: seq<Bytes>, endsWithNewline: bool, limit: int) returns (r: Result<seq<E>>)
    ensures r == match Scanned(c, DropBlank(tokens), endsWithNewline)
                 case Ok(all) => Ok(LastN(all, limit))
                 case Err => Err
  {
    hide DecodeAll, DropBlank, StripCR, LastN, Keep;
    var entries: seq<E> := [];
    var pending: Option<Bytes> := None;
    ghost var lines: seq<Bytes> := [];
    ghost var all: seq<E> := [];
    NothingScanned(c, limit);
    for i := 0 to |tokens|
      invariant lines == DropBlank(tokens[..i])
      invariant pending == if lines == [] then None else Some(StripCR(lines[|lines| - 1]))
      invariant lines == [] ==> all == []
      invariant lines != [] ==> DecodeAll(c, lines[..|lines| - 1]) == Ok(all)
      invariant entries == LastN(all, limit)
    {
      var line := StripCR(tokens[i]);
      assert tokens[..i + 1] == tokens[..i] + [tokens[i]];
      DropBlankSnoc(tokens[..i], tokens[i]);
      if pending.Some? {
        DecodeSnoc(c, lines, |lines| - 1);
        assert lines[..|lines| - 1 + 1] == lines;
        var entry := c.decode(pending.value);
        if entry.None? {
          StuckLine(c, tokens, i, endsWithNewline);
          return Err;
        }
        KeepIsLastN(all, entry.value, limit);
        entries, all := Keep(entries, entry.value, limit), all + [entry.value];
      }
      if pending.Some? || line != [] {
        assert (lines + [tokens[i]])[..|lines|] == lines;
        pending, lines := Some(line), lines + [tokens[i]];
      }
    }
    assert tokens[..|tokens|] == tokens;
    if pending.None? {
      return Ok([]);
    }
    var entry := c.decode(pending.value);
    if entry.Some? {
      KeepIsLastN(all, entry.value, limit);
      return Ok(Keep(entries, entry.value, limit));
    }
    if !endsWithNewline {
      return Ok(entries);
    }
    return Err;
  }

  lemma NothingScanned<E>(c: Codec<E>, limit: int)
    ensures DropBlank([]) == [] && LastN<E>([], limit) == [] && DecodeAll(c, []) == Ok([])
  {
  }

  lemma {:induction false} DropBlankSnoc(tokens: seq<Bytes>, last: Bytes)
    ensures DropBlank(tokens + [last]) ==
      if DropBlank(tokens) == [] && StripCR(last) == [] then [] else DropBlank(tokens) + [last]
  {
    if tokens == [] {
      assert [] + [last] == [last] && [last][1..] == [];
    } else if StripCR(tokens[0]) == [] {
      assert (tokens + [last])[1..] == tokens[1..] + [last];
      DropBlankSnoc(tokens[1..], last);
    }
  }

  lemma {:induction false} DropBlankPrefix(tokens: seq<Bytes>, i: nat)
    requires i <= |tokens| && DropBlank(tokens[..i]) != []
    ensures DropBlank(tokens[..i]) <= DropBlank(tokens)
    decreases |tokens|
  {
    if i == |tokens| {
      assert tokens[..i] == tokens;
    } else {
      var n := |tokens| - 1;
      assert tokens[..n][..i] == tokens[..i];
      DropBlankPrefix(tokens[..n], i);
      DropBlankSnoc(tokens[..n], tokens[n]);
      assert tokens[..n] + [tokens[n]] == tokens;
    }
  }

  /** A line that is not the last one and cannot be decoded fails the load. */
  lemma StuckLine<E>(c: Codec<E>, tokens: seq<Bytes>, i: nat, endsWithNewline: bool)
    requires i < |tokens| && DropBlank(tokens[..i]) != [] && DecodeAll(c, DropBlank(tokens[..i])).Err?
    ensures Scanned(c, DropBlank(tokens), endsWithNewline).Err?
  {
    hide DropBlank, DecodeAll, StripCR;
    var lines, some := DropBlank(tokens), DropBlank(tokens[..i]);
    DropBlankSnoc(tokens[..i], tokens[i]);
    assert tokens[..i + 1] == tokens[..i] + [tokens[i]];
    DropBlankPrefix(tokens, i + 1);
    var init := lines[..|lines| - 1];
    assert lines[..|some| + 1][..|some|] == some;
    assert init[..|some|] == some;
    DecodePrefix(c, init, |some|);
  }

  lemma DecodeSnoc<E>(c: Codec<E>, lines: seq<Bytes>, i: nat)
    requires i < |lines|
    ensures var init, last := DecodeAll(c, lines[..i]), c.decode(StripCR(lines[i]));
      DecodeAll(c, lines[..i + 1]) ==
        if init.Err? || last.None? then Err else Ok(init.value + [last.value])
  {
    assert lines[..i + 1][..i] == lines[..i];
  }

  /** append, then shift out the oldest when there are too many. */
  function Keep<T>(entries: seq<T>, entry: T, limit: int): seq<T> {
    var more := entries + [entry];
    if limit > 0 && |more| > limit then more[1..] else more
  }

  lemma KeepIsLastN<T>(all: seq<T>, entry: T, limit: int)
    ensures Keep(LastN(all, limit), entry, limit) == LastN(all + [entry], limit)
  {
  }

  lemma {:induction false} DecodePrefix<E>(c: Codec<E>, lines: seq<Bytes>, n: nat)
    requires n <= |lines| && DecodeAll(c, lines[..n]).Err?
    ensures DecodeAll(c, lines).Err?
    decreases |lines|
  {
    if n == |lines| {
      assert lines[..n] == lines;
    } else {
      assert lines[..|lines| - 1][..n] == lines[..n];
      DecodePrefix(c, lines[..|lines| - 1], n);
    }
  }

  function OfConnection<E>(es: seq<E>, connection: E -> string, id: string): seq<E> {
    if es == [] then []
    else
      var init := OfConnection(es[..|es| - 1], connection, id);
      if connection(es[|es| - 1]) == id then init + [es[|es| - 1]] else init
  }

  /** connection is the ConnectionID field of a record. */
  method LoadForConnection<E>(c: Codec<E>, f: Bytes, connection: E -> string, id: string, limit: int)
    returns (r: Result<seq<E>>)
    ensures r == match Loaded(c, f)
                 case Err => Err
                 case Ok(all) => Ok(LastN(if id == "" then all else OfConnection(all, connection, id), limit))
  {
    var loaded := Load(c, f, 0);
    if loaded.Err? {
      return Err;
    }
    var entries := loaded.value;
    if id == "" {
      return Ok(LastN(entries, limit));
    }
    var filtered: seq<E> := [];
    var i := 0;
    while i < |entries|
      invariant 0 <= i <= |entries|
      invariant filtered == LastN(OfConnection(entries[..i], connection, id), limit)
    {
      assert entries[..i + 1][..i] == entries[..i];
      if connection(entries[i]) == id {
        KeepIsLastN(OfConnection(entries[..i], connection, id), entries[i], limit);
        filtered := Keep(filtered, entries[i], limit);
      }
      i := i + 1;
    }
    assert entries[..i] == entries;
    return Ok(filtered);
  }

  /** at are the positions of the elements with this key, in order. */
  ghost predicate Filters<E, K>(es: seq<E>, key: E -> K, k: K, at: seq<int>) {
    && (forall n :: 0 <= n < |at| ==> 0 <= at[n] < |es| && key(es[at[n]]) == k)
    && (forall m, n :: 0 <= m < n < |at| ==> at[m] < at[n])
    && (forall i :: 0 <= i < |es| && key(es[i]) == k ==> i in at)
  }

  /** some are the elements of es at these positions. */
  ghost predicate Picks<E>(some: seq<E>, es: seq<E>, at: seq<int>) {
    && |some| == |at|
    && forall n :: 0 <= n < |at| ==> 0 <= at[n] < |es| && some[n] == es[at[n]]
  }

  lemma FiltersMore<E, K>(es: seq<E>, key: E -> K, k: K, at: seq<int>, some: seq<E>, e: E)
    requires Filters(es, key, k, at) && Picks(some, es, at)
    ensures if key(e) == k then Filters(es + [e], key, k, at + [|es|]) && Picks(some + [e], es + [e], at + [|es|])
            else Filters(es + [e], key, k, at) && Picks(some, es + [e], at)
  {
    assert forall i :: i in at + [|es|] <==> i in at || i == |es|;
  }

  /** Exactly the entries of the connection are left, each once and in order. */
  lemma {:induction false} OfConnectionFilters<E>(es: seq<E>, connection: E -> string, id: string)
    returns (at: seq<int>)
    ensures Filters(es, connection, id, at) && Picks(OfConnection(es, connection, id), es, at)
  {
    at := [];
    if es != [] {
      var n := |es| - 1;
      at := OfConnectionFilters(es[..n], connection, id);
      FiltersMore(es[..n], connection, id, at, OfConnection(es[..n], connection, id), es[n]);
      assert es[..n] + [es[n]] == es;
      if connection(es[n]) == id { at := at + [n]; }
    }
  }

  /** The newest limit elements, or all of them, oldest first. */
  lemma LastNIsNewest<T>(s: seq<T>, limit: int)
    ensures var r := LastN(s, limit);
      |r| == (if 0 < limit <= |s| then limit else |s|) && s == s[..|s| - |r|] + r
  {
  }
}
