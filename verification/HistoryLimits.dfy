/** Records that the history log accepts and then cannot handle
    (terminal/log.go), shown on the JSON record format. */
module HistoryLimits {
  import opened Outcomes
  import opened Utf8
  import opened HistoryLog
  import opened HistoryCrash
  import opened HistoryJson

  /** A command of n letters a. */
  function LongCommand(n: nat): Bytes { seq(n, _ => 0x61) }

  lemma {:induction false} PlainEscape(s: Bytes)
    requires forall i :: 0 <= i < |s| ==> s[i] == 0x61
    ensures Escape(s) == s
  {
    if s != [] {
      PlainEscape(s[1..]);
      assert [s[0]] + s[1..] == s;
    }
  }

  lemma LongRecord(n: nat)
    ensures |CODEC.encode(LongCommand(n))| == n + 14
  {
    PlainEscape(LongCommand(n));
  }

  lemma OneRecord(e: Bytes)
    ensures Records(CODEC, [e]) == Line(CODEC, e)
    ensures Appended(CODEC, [], e) == Ok(Line(CODEC, e))
  {
    assert [e][..0] == [] && Records(CODEC, [e]) == [] + Line(CODEC, e);
    assert [] + Line(CODEC, e) == Line(CODEC, e);
  }

  /** A command of 10 MiB is appended to an empty history, which then cannot be
      loaded any more. */
  lemma LongCommandBlocksLoading()
    ensures var r := Appended(CODEC, [], LongCommand(MAX_LINE));
      r.Ok? && Loaded(CODEC, r.value).Err?
  {
    hide Appended, Loaded, Lawful, Records, LongCommand;
    var e := LongCommand(MAX_LINE);
    JsonIsLawful();
    LongRecord(MAX_LINE);
    OneRecord(e);
    LoadsIffShort(CODEC, [e]);
    assert e in [e];
  }

  /** What a crash leaves of the record of a longer command, with one byte more
      written than the window holds, blocks every later append. */
  lemma TornLongCommandBlocksAppending(first: Bytes, next: Bytes)
    ensures |Line(CODEC, LongCommand(MAX_LINE + 1))| > MAX_LINE + 1
    ensures var f := Line(CODEC, first);
      var e := LongCommand(MAX_LINE + 1);
      var g := f + Line(CODEC, e)[..MAX_LINE + 1];
      CrashState(CODEC, f, e, g) && Appended(CODEC, g, next).Err?
  {
    hide LongCommand, TailStart, LastIndex;
    var f, e := Line(CODEC, first), LongCommand(MAX_LINE + 1);
    var record := CODEC.encode(e);
    LongRecord(MAX_LINE + 1);
    JsonIsLawful();
    var torn := Line(CODEC, e)[..MAX_LINE + 1];
    assert torn == record[..MAX_LINE + 1];
    assert forall b :: b in torn ==> b in record;
    assert f[|f| - 1] == LF && Prepared(CODEC, f) == Ok(f);
    TornRecordRepairsIff(CODEC, f, torn);
  }
}
