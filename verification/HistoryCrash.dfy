/** Crash safety of the command history: whatever byte a crash falls on, no
    completed record is lost, the next append succeeds and loading works. */
module HistoryCrash {
  import opened Outcomes
  import opened Utf8
  import opened ByteLines
  import opened HistoryLog

  function Records<E>(c: Codec<E>, es: seq<E>): Bytes {
    if es == [] then [] else Records(c, es[..|es| - 1]) + Line(c, es[|es| - 1])
  }

  predicate Short<E>(c: Codec<E>, e: E) { |c.encode(e)| < MAX_LINE }

  /** f is the records es followed by the beginning, perhaps all, of the record
      of some other entry, without its newline. */
  ghost predicate Intact<E(!new)>(c: Codec<E>, f: Bytes, es: seq<E>, torn: Bytes) {
    && f == Records(c, es) + torn
    && (forall e :: e in es ==> Short(c, e))
    && (torn == [] || exists e :: torn <= c.encode(e) && Short(c, e))
  }

  /** The entries in the file; a record that lost only its newline counts. */
  function Surviving<E>(c: Codec<E>, es: seq<E>, torn: Bytes): seq<E> {
    match c.decode(torn) case Some(e) => es + [e] case None => es
  }

  // ---------------------------------------------------------------------------
  // Torn records
  // ---------------------------------------------------------------------------

  lemma TornCases<E(!new)>(c: Codec<E>, torn: Bytes, e: E)
    requires Lawful(c) && torn <= c.encode(e)
    ensures c.valid(torn) <==> torn == c.encode(e)
    ensures c.decode(torn) == if torn == c.encode(e) then Some(e) else None
    ensures LF !in torn && CR !in torn && StripCR(torn) == torn
  {
  }

  function Encodings<E>(c: Codec<E>, es: seq<E>): (lines: seq<Bytes>)
    ensures |lines| == |es| && forall i :: 0 <= i < |es| ==> lines[i] == c.encode(es[i])
  {
    if es == [] then [] else Encodings(c, es[..|es| - 1]) + [c.encode(es[|es| - 1])]
  }

  lemma {:induction false} LinesOfRecords<E(!new)>(c: Codec<E>, es: seq<E>)
    requires Lawful(c)
    ensures Lines(Records(c, es)) == Encodings(c, es) && Rest(Records(c, es)) == []
    decreases |es|
  {
    if es == [] {
      NoLine([]);
    } else {
      var init, line := Records(c, es[..|es| - 1]), c.encode(es[|es| - 1]);
      LinesOfRecords(c, es[..|es| - 1]);
      AppendLine(init, line, []);
      NoLine([]);
      assert line + [LF] + [] == line + [LF];
      assert [line] + [] == [line];
    }
  }

  lemma TokensOfIntact<E(!new)>(c: Codec<E>, es: seq<E>, torn: Bytes)
    requires Lawful(c) && LF !in torn
    ensures Tokens(Records(c, es) + torn) == Encodings(c, es) + if torn == [] then [] else [torn]
  {
    LinesOfRecords(c, es);
    LinesOfConcat(Records(c, es), torn);
    assert [] + torn == torn;
    NoLine(torn);
    assert Encodings(c, es) + [] == Encodings(c, es);
  }

  /** A record is not a blank line. */
  lemma NoBlankLine<E(!new)>(c: Codec<E>, es: seq<E>, torn: Bytes)
    requires Lawful(c) && StripCR(torn) == torn
    ensures var lines := Encodings(c, es) + if torn == [] then [] else [torn];
      DropBlank(lines) == lines
  {
    if es != [] {
      TornCases(c, c.encode(es[0]), es[0]);
    }
  }

  lemma RecordsEnd<E(!new)>(c: Codec<E>, es: seq<E>)
    ensures es != [] ==> Records(c, es) != [] && Records(c, es)[|Records(c, es)| - 1] == LF
  {
  }

  // ---------------------------------------------------------------------------
  // Repairing
  // ---------------------------------------------------------------------------

  lemma LastIndexAt(s: Bytes, torn: Bytes, b: byte)
    requires b !in torn && (s == [] || s[|s| - 1] == b)
    ensures LastIndex(s + torn, b) == |s| - 1
  {
    var all := s + torn;
    assert forall k :: |s| <= k < |all| ==> all[k] == torn[k - |s|];
    assert s != [] ==> all[|s| - 1] == b;
  }

  /** The tail window reaches the newline before the torn record, whatever the
      size of the file, because a record is shorter than the line limit. */
  lemma WindowFindsNewline(head: Bytes, torn: Bytes)
    requires torn != [] && LF !in torn && |torn| < MAX_LINE
    requires head == [] || head[|head| - 1] == LF
    ensures var f := head + torn;
      var start := TailStart(f);
      var last := LastIndex(f[start..], LF);
      && f[|f| - 1] != LF
      && !(last < 0 && start > 0) && start + last + 1 == |head|
  {
    var f := head + torn;
    var start := TailStart(f);
    assert f[|f| - 1] == torn[|torn| - 1];
    assert start <= |head| && (start > 0 ==> start < |head|);
    assert f[start..] == head[start..] + torn;
    LastIndexAt(head[start..], torn, LF);
  }

  lemma PrepareTorn<E(!new)>(c: Codec<E>, es: seq<E>, torn: Bytes, e: E)
    requires Lawful(c) && torn != [] && torn <= c.encode(e) && Short(c, e)
    ensures Prepared(c, Records(c, es) + torn) == Ok(Records(c, Surviving(c, es, torn)))
  {
    var head := Records(c, es);
    var f := head + torn;
    RecordsEnd(c, es);
    TornCases(c, torn, e);
    WindowFindsNewline(head, torn);
    assert f[|head|..] == torn && f[..|head|] == head;
    if torn == c.encode(e) {
      assert (es + [e])[..|es|] == es;
      assert f + [LF] == head + Line(c, e);
    }
  }

  /** The repair keeps exactly the surviving records. */
  lemma PrepareRepairs<E(!new)>(c: Codec<E>, f: Bytes, es: seq<E>, torn: Bytes)
    requires Lawful(c) && Intact(c, f, es, torn)
    ensures Prepared(c, f) == Ok(Records(c, Surviving(c, es, torn)))
    ensures Intact(c, Records(c, Surviving(c, es, torn)), Surviving(c, es, torn), [])
  {
    var s := Surviving(c, es, torn);
    assert Records(c, s) + [] == Records(c, s);
    if torn == [] {
      RecordsEnd(c, es);
      assert f == Records(c, es);
    } else {
      var e :| torn <= c.encode(e) && Short(c, e);
      TornCases(c, torn, e);
      PrepareTorn(c, es, torn, e);
    }
  }

  /** The next append succeeds and adds its record after the surviving ones. */
  lemma AppendSucceeds<E(!new)>(c: Codec<E>, f: Bytes, es: seq<E>, torn: Bytes, e: E)
    requires Lawful(c) && Intact(c, f, es, torn) && Short(c, e)
    ensures var all := Surviving(c, es, torn) + [e];
      Appended(c, f, e) == Ok(Records(c, all)) && Intact(c, Records(c, all), all, [])
  {
    PrepareRepairs(c, f, es, torn);
    var s := Surviving(c, es, torn);
    assert (s + [e])[..|s|] == s;
    assert Records(c, s + [e]) + [] == Records(c, s + [e]);
  }

  // ---------------------------------------------------------------------------
  // Loading
  // ---------------------------------------------------------------------------

  lemma {:induction false} DecodeEncodings<E(!new)>(c: Codec<E>, es: seq<E>)
    requires Lawful(c)
    ensures DecodeAll(c, Encodings(c, es)) == Ok(es)
    decreases |es|
  {
    if es == [] {
    } else {
      var n := |es| - 1;
      DecodeEncodings(c, es[..n]);
      assert Encodings(c, es)[..n] == Encodings(c, es[..n]);
      assert StripCR(c.encode(es[n])) == c.encode(es[n]);
      assert es == es[..n] + [es[n]];
    }
  }

  lemma {:induction false} EncodingsAreShort<E(!new)>(c: Codec<E>, es: seq<E>)
    ensures forall t :: t in Encodings(c, es) ==> exists e :: e in es && t == c.encode(e)
    ensures forall e :: e in es ==> c.encode(e) in Encodings(c, es)
    decreases |es|
  {
    if es == [] {
    } else {
      EncodingsAreShort(c, es[..|es| - 1]);
      assert es == es[..|es| - 1] + [es[|es| - 1]];
    }
  }

  /** Loading an intact file gives exactly the surviving entries, in order. */
  lemma LoadGivesSurviving<E(!new)>(c: Codec<E>, f: Bytes, es: seq<E>, torn: Bytes)
    requires Lawful(c) && Intact(c, f, es, torn)
    ensures Loaded(c, f) == Ok(Surviving(c, es, torn))
  {
    EncodingsAreShort(c, es);
    if torn == [] {
      TokensOfIntact(c, es, torn);
      LoadWhole(c, f, es);
    } else {
      var e :| torn <= c.encode(e) && Short(c, e);
      TornCases(c, torn, e);
      TokensOfIntact(c, es, torn);
      LoadTorn(c, f, es, torn);
    }
  }

  lemma ScanWhole<E(!new)>(c: Codec<E>, es: seq<E>, endsWithNewline: bool)
    requires Lawful(c)
    ensures Scanned(c, Encodings(c, es), endsWithNewline) == Ok(es)
  {
    if es != [] {
      var n := |es| - 1;
      DecodeEncodings(c, es[..n]);
      TornCases(c, c.encode(es[n]), es[n]);
      hide Lawful, DecodeAll, StripCR;
      assert es[..n] + [es[n]] == es;
      assert Encodings(c, es)[..n] == Encodings(c, es[..n]);
      assert Encodings(c, es)[n] == c.encode(es[n]);
    }
  }

  lemma LoadWhole<E(!new)>(c: Codec<E>, f: Bytes, es: seq<E>)
    requires Lawful(c) && Tokens(f) == Encodings(c, es) && Scannable(f)
    ensures Loaded(c, f) == Ok(es)
  {
    hide Lawful, Tokens, Scannable, Scanned, DropBlank;
    NoBlankLine(c, es, []);
    assert Encodings(c, es) + [] == Encodings(c, es);
    ScanWhole(c, es, EndsWithNewline(f));
  }

  lemma LoadTorn<E(!new)>(c: Codec<E>, f: Bytes, es: seq<E>, torn: Bytes)
    requires Lawful(c) && Tokens(f) == Encodings(c, es) + [torn] && Scannable(f)
    requires f != [] && f[|f| - 1] != LF && torn != [] && StripCR(torn) == torn
    ensures Loaded(c, f) == Ok(Surviving(c, es, torn))
  {
    hide Lawful, Tokens, Scannable, DropBlank, StripCR, Encodings;
    NoBlankLine(c, es, torn);
    DecodeEncodings(c, es);
    var lines := Encodings(c, es) + [torn];
    assert lines[..|lines| - 1] == Encodings(c, es);
  }

  // ---------------------------------------------------------------------------
  // Crashes
  // ---------------------------------------------------------------------------

  /** Wherever a crash cuts an append short, the file stays intact, and what
      survives is what survived before, with or without the new record. */
  lemma CrashKeepsIntact<E(!new)>(c: Codec<E>, f: Bytes, es: seq<E>, torn: Bytes, e: E, g: Bytes)
    returns (es': seq<E>, torn': Bytes)
    requires Lawful(c) && Intact(c, f, es, torn) && Short(c, e) && CrashState(c, f, e, g)
    ensures Intact(c, g, es', torn')
    ensures var before := Surviving(c, es, torn);
      Surviving(c, es', torn') == before || Surviving(c, es', torn') == before + [e]
  {
    PrepareRepairs(c, f, es, torn);
    var s := Surviving(c, es, torn);
    if g == f {
      es', torn' := es, torn;
    } else if n :| |Records(c, s)| <= n <= |f| && g == f[..n] {
      es' := es;
      torn' := CrashInTruncate(c, f, es, torn, n);
    } else {
      var n :| 0 <= n <= |Line(c, e)| && g == Records(c, s) + Line(c, e)[..n];
      es', torn' := CrashInWrite(c, s, e, n);
    }
  }

  lemma CrashInTruncate<E(!new)>(c: Codec<E>, f: Bytes, es: seq<E>, torn: Bytes, n: nat) returns (torn': Bytes)
    requires Lawful(c) && Intact(c, f, es, torn) && |Records(c, Surviving(c, es, torn))| <= n <= |f|
    ensures Intact(c, f[..n], es, torn') && Surviving(c, es, torn') == Surviving(c, es, torn)
  {
    var head := Records(c, es);
    SurvivingGrows(c, es, torn);
    torn' := torn[..n - |head|];
    CutTorn(c, es, torn, n - |head|);
    assert f[..n] == head + torn';
  }

  /** A record that lost only its newline takes more room than the torn file. */
  lemma SurvivingGrows<E(!new)>(c: Codec<E>, es: seq<E>, torn: Bytes)
    requires Lawful(c) && (torn == [] || exists e :: torn <= c.encode(e) && Short(c, e))
    ensures |Records(c, Surviving(c, es, torn))| >= |Records(c, es)|
    ensures c.decode(torn).Some? ==> |Records(c, Surviving(c, es, torn))| > |Records(c, es)| + |torn|
  {
    if torn != [] {
      var e :| torn <= c.encode(e) && Short(c, e);
      TornCases(c, torn, e);
      assert (es + [e])[..|es|] == es;
    }
  }

  lemma CrashInWrite<E(!new)>(c: Codec<E>, s: seq<E>, e: E, n: nat) returns (es': seq<E>, torn': Bytes)
    requires Lawful(c) && (forall x :: x in s ==> Short(c, x)) && Short(c, e) && n <= |Line(c, e)|
    ensures Intact(c, Records(c, s) + Line(c, e)[..n], es', torn')
    ensures Surviving(c, es', torn') == s || Surviving(c, es', torn') == s + [e]
  {
    if n <= |c.encode(e)| {
      es', torn' := s, c.encode(e)[..n];
      assert Line(c, e)[..n] == torn';
      TornCases(c, torn', e);
    } else {
      es', torn' := s + [e], [];
      assert (s + [e])[..|s|] == s;
      assert Line(c, e)[..n] == Line(c, e);
      assert Records(c, s + [e]) + [] == Records(c, s + [e]);
    }
  }

  /** A torn record that is being cut off stays torn. */
  lemma CutTorn<E(!new)>(c: Codec<E>, es: seq<E>, torn: Bytes, k: nat)
    requires Lawful(c) && (torn == [] || exists e :: torn <= c.encode(e) && Short(c, e))
    requires k <= |torn| && (c.decode(torn) == None || k == |torn|)
    ensures torn[..k] == [] || exists e :: torn[..k] <= c.encode(e) && Short(c, e)
    ensures Surviving(c, es, torn[..k]) == Surviving(c, es, torn)
  {
    if torn != [] {
      var e :| torn <= c.encode(e) && Short(c, e);
      TornCases(c, torn, e);
      TornCases(c, torn[..k], e);
      assert torn[..|torn|] == torn;
    }
  }

  /** One append: finished, or cut short leaving after in the file. */
  datatype Attempt<E> = Attempt(entry: E, after: Bytes, finished: bool)

  ghost predicate Happens<E(!new)>(c: Codec<E>, f: Bytes, attempts: seq<Attempt<E>>)
    decreases |attempts|
  {
    attempts == [] ||
    (var a := attempts[0];
     && Short(c, a.entry)
     && (if a.finished then Appended(c, f, a.entry) == Ok(a.after) else CrashState(c, f, a.entry, a.after))
     && Happens(c, a.after, attempts[1..]))
  }

  function Final<E>(f: Bytes, attempts: seq<Attempt<E>>): Bytes {
    if attempts == [] then f else attempts[|attempts| - 1].after
  }

  function Picked<E>(attempts: seq<Attempt<E>>, kept: seq<bool>): seq<E>
    requires |attempts| == |kept|
  {
    if attempts == [] then []
    else (if kept[0] then [attempts[0].entry] else []) + Picked(attempts[1..], kept[1..])
  }

  lemma AttemptKeepsIntact<E(!new)>(c: Codec<E>, f: Bytes, es: seq<E>, torn: Bytes, a: Attempt<E>)
    returns (es': seq<E>, torn': Bytes, keep: bool)
    requires Lawful(c) && Intact(c, f, es, torn) && Happens(c, f, [a])
    ensures Intact(c, a.after, es', torn') && (a.finished ==> keep)
    ensures Surviving(c, es', torn') == Surviving(c, es, torn) + if keep then [a.entry] else []
  {
    var s := Surviving(c, es, torn);
    if a.finished {
      es', torn', keep := s + [a.entry], [], true;
      AppendSucceeds(c, f, es, torn, a.entry);
    } else {
      es', torn' := CrashKeepsIntact(c, f, es, torn, a.entry, a.after);
      keep := Surviving(c, es', torn') != s;
      assert s + [] == s;
    }
  }

  /** kept tells for each attempt whether its record is in the file; it is when
      the append finished. */
  ghost predicate KeepsFinished<E>(attempts: seq<Attempt<E>>, kept: seq<bool>) {
    |kept| == |attempts| && forall i :: 0 <= i < |attempts| && attempts[i].finished ==> kept[i]
  }

  lemma {:induction false} RunKeepsIntact<E(!new)>(
      c: Codec<E>, f: Bytes, es: seq<E>, torn: Bytes, attempts: seq<Attempt<E>>)
    returns (es': seq<E>, torn': Bytes, kept: seq<bool>)
    requires Lawful(c) && Intact(c, f, es, torn) && Happens(c, f, attempts)
    ensures Intact(c, Final(f, attempts), es', torn') && KeepsFinished(attempts, kept)
    ensures Surviving(c, es', torn') == Surviving(c, es, torn) + Picked(attempts, kept)
    decreases |attempts|
  {
    if attempts == [] {
      es', torn', kept := es, torn, [];
      assert Surviving(c, es, torn) + [] == Surviving(c, es, torn);
    } else {
      var a, later := attempts[0], attempts[1..];
      assert [a][1..] == [];
      var es1, torn1, keep := AttemptKeepsIntact(c, f, es, torn, a);
      var rest;
      es', torn', rest := RunKeepsIntact(c, a.after, es1, torn1, later);
      kept := [keep] + rest;
      PickedStep(attempts, keep, rest, Surviving(c, es, torn));
    }
  }

  lemma PickedStep<E>(attempts: seq<Attempt<E>>, keep: bool, rest: seq<bool>, s: seq<E>)
    requires attempts != [] && |rest| == |attempts| - 1
    ensures s + Picked(attempts, [keep] + rest)
         == (s + if keep then [attempts[0].entry] else []) + Picked(attempts[1..], rest)
  {
    assert ([keep] + rest)[1..] == rest;
  }

  /** Over any sequence of appends, each of which may be cut short at any byte
      of the repair or the write: what is loaded in the end is what was there,
      followed by the records attempted, in order, without repetition; every
      finished one is among them; and the next append succeeds. */
  lemma NothingFinishedIsLost<E(!new)>(
      c: Codec<E>, f: Bytes, es: seq<E>, torn: Bytes, attempts: seq<Attempt<E>>) returns (kept: seq<bool>)
    requires Lawful(c) && Intact(c, f, es, torn) && Happens(c, f, attempts)
    ensures KeepsFinished(attempts, kept)
    ensures Loaded(c, Final(f, attempts)) == Ok(Surviving(c, es, torn) + Picked(attempts, kept))
    ensures forall e :: Short(c, e) ==> Appended(c, Final(f, attempts), e).Ok?
  {
    var es', torn';
    es', torn', kept := RunKeepsIntact(c, f, es, torn, attempts);
    LoadGivesSurviving(c, Final(f, attempts), es', torn');
    PrepareRepairs(c, Final(f, attempts), es', torn');
  }

  // ---------------------------------------------------------------------------
  // Blank lines
  // ---------------------------------------------------------------------------

  lemma TokensOfBlank(line: Bytes, f: Bytes)
    requires line == [] || line == [CR]
    ensures Tokens(line + [LF] + f) == [line] + Tokens(f)
  {
    FirstLine(line, f);
    hide Lines, Rest;
    var rest := if Rest(f) == [] then [] else [Rest(f)];
    assert ([line] + Lines(f)) + rest == [line] + (Lines(f) + rest);
  }

  lemma BlankIsShort(line: Bytes, f: Bytes)
    requires line == [] || line == [CR]
    ensures Scannable(line + [LF] + f) == Scannable(f)
    ensures DropBlank([line] + Tokens(f)) == DropBlank(Tokens(f))
  {
    TokensOfBlank(line, f);
    hide Tokens;
    var tokens := [line] + Tokens(f);
    assert tokens[1..] == Tokens(f);
    assert forall t :: t in tokens <==> t == line || t in Tokens(f);
  }

  /** A blank line in front of a file, with or without CR, does not matter. */
  lemma LeadingBlankLineIsIgnored<E>(c: Codec<E>, line: Bytes, f: Bytes)
    requires line == [] || line == [CR]
    ensures Loaded(c, line + [LF] + f) == Loaded(c, f)
  {
    hide Tokens, Scannable, Scanned, DropBlank;
    TokensOfBlank(line, f);
    BlankIsShort(line, f);
    var g := line + [LF] + f;
    assert f != [] ==> g[|g| - 1] == f[|f| - 1];
    assert EndsWithNewline(g) == EndsWithNewline(f);
  }

  // ---------------------------------------------------------------------------
  // The line limit is needed
  // ---------------------------------------------------------------------------

  /** Append accepts records of any length, but a file of whole records loads
      only if all of them are below the limit of the line scanner. */
  lemma LoadsIffShort<E(!new)>(c: Codec<E>, es: seq<E>)
    requires Lawful(c)
    ensures Loaded(c, Records(c, es)).Ok? <==> forall e :: e in es ==> Short(c, e)
  {
    var f := Records(c, es);
    assert f + [] == f;
    TokensOfIntact(c, es, []);
    EncodingsAreShort(c, es);
    if Scannable(f) {
      LoadWhole(c, f, es);
    }
  }

  /** Does the window reach the newline in front of the torn record? */
  lemma LastNewline(head: Bytes, torn: Bytes, start: nat)
    requires LF !in torn && (head == [] || head[|head| - 1] == LF) && start <= |head| + |torn|
    ensures LastIndex((head + torn)[start..], LF) == if start <= |head| then |head| - start - 1 else -1
  {
    var f := head + torn;
    if start <= |head| {
      assert f[start..] == head[start..] + torn;
      LastIndexAt(head[start..], torn, LF);
    } else {
      assert f[start..] == [] + torn[start - |head|..];
      LastIndexAt([], torn[start - |head|..], LF);
    }
  }

  lemma PreparedOkIff<E>(c: Codec<E>, f: Bytes)
    requires f != [] && f[|f| - 1] != LF
    ensures Prepared(c, f).Ok? <==> TailStart(f) == 0 || LastIndex(f[TailStart(f)..], LF) >= 0
  {
  }

  /** A torn record is repaired exactly when it is no longer than the window
      leaves room for; one that is longer blocks every later append. */
  lemma TornRecordRepairsIff<E>(c: Codec<E>, head: Bytes, torn: Bytes)
    requires torn != [] && LF !in torn && (head == [] || head[|head| - 1] == LF)
    ensures Prepared(c, head + torn).Ok? <==>
      |torn| <= MAX_LINE || (head == [] && |torn| == MAX_LINE + 1)
  {
    hide LastIndex, Prepared;
    var f := head + torn;
    assert f[|f| - 1] == torn[|torn| - 1] && torn[|torn| - 1] in torn;
    PreparedOkIff(c, f);
    LastNewline(head, torn, TailStart(f));
  }
}
