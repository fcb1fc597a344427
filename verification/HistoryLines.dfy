/** Which files load, and as what (terminal/log.go, Load), said of the lines of
    the file; and what that means for the migration. */
module HistoryLines {
  import opened Outcomes
  import opened Utf8
  import opened ByteLines
  import opened HistoryLog
  import HistoryJson
  import HistoryMigration

  predicate BlankLine(line: Bytes) { line == [] || line == [CR] }

  /** Exactly the first k lines are the blank ones in front. */
  predicate BlankInFront(lines: seq<Bytes>, k: nat) {
    && k <= |lines|
    && (forall i :: 0 <= i < k ==> BlankLine(lines[i]))
    && (k < |lines| ==> !BlankLine(lines[k]))
  }

  lemma {:induction false} SomeAreInFront(lines: seq<Bytes>) returns (k: nat)
    ensures BlankInFront(lines, k)
  {
    k := 0;
    if lines != [] && BlankLine(lines[0]) {
      var more := SomeAreInFront(lines[1..]);
      k := more + 1;
      assert forall i :: 1 <= i < k ==> lines[i] == lines[1..][i - 1];
    }
  }

  /** The entry that a line stands for, with or without a CR behind it. */
  function Reads<E>(c: Codec<E>, line: Bytes): Option<E> { c.decode(StripCR(line)) }

  predicate AllRead<E>(c: Codec<E>, lines: seq<Bytes>) {
    forall i :: 0 <= i < |lines| ==> Reads(c, lines[i]).Some?
  }

  // ---------------------------------------------------------------------------
  // Loading
  // ---------------------------------------------------------------------------

  lemma {:induction false} DecodeAllIff<E>(c: Codec<E>, lines: seq<Bytes>)
    ensures DecodeAll(c, lines).Ok? <==> AllRead(c, lines)
    ensures DecodeAll(c, lines).Ok? ==>
      var es := DecodeAll(c, lines).value;
      |es| == |lines| && forall i :: 0 <= i < |es| ==> Reads(c, lines[i]) == Some(es[i])
  {
    if lines != [] {
      var n := |lines| - 1;
      DecodeAllIff(c, lines[..n]);
      assert forall i :: 0 <= i < n ==> lines[..n][i] == lines[i];
    }
  }

  lemma {:induction false} DropBlankDrops(lines: seq<Bytes>, rest: seq<Bytes>, k: nat)
    requires BlankInFront(lines, k)
    ensures DropBlank(lines + rest) == if k < |lines| then lines[k..] + rest else DropBlank(rest)
    decreases k
  {
    if k > 0 {
      assert (lines + rest)[1..] == lines[1..] + rest;
      assert BlankInFront(lines[1..], k - 1) by {
        assert forall i :: 0 <= i < k - 1 ==> lines[1..][i] == lines[i + 1];
      }
      DropBlankDrops(lines[1..], rest, k - 1);
    } else if lines == [] {
      assert lines + rest == rest;
    } else {
      StripCROnce(lines[0]);
      assert lines[0..] == lines;
    }
  }

  /** The scan of some lines and a last token that may be torn. */
  lemma ScannedRest<E>(c: Codec<E>, lines: seq<Bytes>, last: Bytes)
    ensures Scanned(c, lines + [last], false) ==
      match DecodeAll(c, lines)
      case Err => Err
      case Ok(es) => Ok(es + match Reads(c, last) case Some(e) => [e] case None => [])
  {
    assert (lines + [last])[..|lines|] == lines;
    assert DecodeAll(c, lines).Ok? ==> DecodeAll(c, lines).value + [] == DecodeAll(c, lines).value;
  }

  lemma ScannedWhole<E>(c: Codec<E>, lines: seq<Bytes>)
    ensures Scanned(c, lines, true) == DecodeAll(c, lines)
  {
  }

  lemma ScannableIff(f: Bytes)
    ensures Scannable(f) <==>
      (forall i :: 0 <= i < |Lines(f)| ==> |Lines(f)[i]| < MAX_LINE) && |Rest(f)| < MAX_LINE
  {
    hide Lines, Rest;
    assert Lines(f) + [] == Lines(f);
    assert forall t :: t in Tokens(f) <==> t in Lines(f) || (t == Rest(f) && Rest(f) != []);
    hide Tokens;
    if Scannable(f) {
      forall i | 0 <= i < |Lines(f)| ensures |Lines(f)[i]| < MAX_LINE {
        assert Lines(f)[i] in Tokens(f);
      }
      assert Rest(f) != [] ==> Rest(f) in Tokens(f);
    }
  }

  /** What the scan of a file comes to, once its lines are short enough. */
  lemma LoadedLines<E>(c: Codec<E>, f: Bytes, k: nat)
    requires c.decode([]) == None && BlankInFront(Lines(f), k) && Scannable(f)
    ensures Loaded(c, f) ==
      match DecodeAll(c, Lines(f)[k..])
      case Err => Err
      case Ok(es) => Ok(es + match Reads(c, Rest(f)) case Some(e) => [e] case None => [])
  {
    hide Lines, Rest, DecodeAll, Scanned, Scannable, DropBlank;
    var lines, rest := Lines(f), Rest(f);
    NothingLeftIff(f);
    assert DecodeAll(c, []) == Ok([]) by { DecodeNone(c); }
    if rest == [] {
      DropBlankDrops(lines, [], k);
      NothingDropped();
      ScannedWhole(c, lines[k..]);
      assert lines[k..] + [] == lines[k..];
      assert DecodeAll(c, lines[k..]).Ok? ==> DecodeAll(c, lines[k..]).value + [] == DecodeAll(c, lines[k..]).value;
    } else {
      DropBlankDrops(lines, [rest], k);
      ScannedRest(c, lines[k..], rest);
      if k == |lines| {
        OneDropped(c, rest);
        assert lines[k..] == [];
        assert [] + [rest] == [rest];
      }
    }
  }

  lemma DecodeNone<E>(c: Codec<E>)
    ensures DecodeAll(c, []) == Ok([])
  {
  }

  lemma NothingDropped()
    ensures DropBlank([]) == []
  {
  }

  lemma OneDropped<E>(c: Codec<E>, rest: Bytes)
    requires c.decode([]) == None
    ensures Scanned(c, DropBlank([rest]), false) == Scanned(c, [rest], false)
  {
    var one := [rest];
    assert one[1..] == [] && one[..0] == [];
  }

  /** A file loads exactly if every line is below the limit of the scanner and,
      behind the blank lines in front, every line that ends with a newline can
      be decoded. */
  lemma LoadsIff<E>(c: Codec<E>, f: Bytes, k: nat)
    requires c.decode([]) == None && BlankInFront(Lines(f), k)
    ensures Loaded(c, f).Ok? <==>
      && (forall i :: 0 <= i < |Lines(f)| ==> |Lines(f)[i]| < 10485760) && |Rest(f)| < 10485760
      && (forall i :: k <= i < |Lines(f)| ==> c.decode(StripCR(Lines(f)[i])).Some?)
  {
    hide Lines, Rest, DecodeAll, StripCR;
    ScannableIff(f);
    DecodeAllIff(c, Lines(f)[k..]);
    if Scannable(f) { LoadedLines(c, f, k); }
    assert forall i :: k <= i < |Lines(f)| ==> Lines(f)[i] == Lines(f)[k..][i - k];
  }

  /** Its entries are those lines in order, and the text behind the last newline
      if that can be decoded. */
  lemma LoadsLineByLine<E>(c: Codec<E>, f: Bytes, k: nat)
    requires c.decode([]) == None && BlankInFront(Lines(f), k) && Loaded(c, f).Ok?
    ensures var es, n := Loaded(c, f).value, |Lines(f)| - k;
      var rest := c.decode(StripCR(Rest(f)));
      && |es| == n + (if rest.Some? then 1 else 0)
      && (forall i :: 0 <= i < n ==> c.decode(StripCR(Lines(f)[k + i])) == Some(es[i]))
      && (rest.Some? ==> es[n] == rest.value)
  {
    hide Lines, Rest, DecodeAll, StripCR;
    ScannableIff(f);
    DecodeAllIff(c, Lines(f)[k..]);
    LoadedLines(c, f, k);
  }

  // ---------------------------------------------------------------------------
  // A line that cannot be decoded
  // ---------------------------------------------------------------------------

  /** A finished line behind the blank ones in front that is no record. */
  ghost predicate Malformed<E>(c: Codec<E>, f: Bytes) {
    exists i, j :: 0 <= i <= j < |Lines(f)| && !BlankLine(Lines(f)[i]) && c.decode(StripCR(Lines(f)[j])).None?
  }

  lemma MalformedFails<E>(c: Codec<E>, f: Bytes)
    requires c.decode([]) == None && Malformed(c, f)
    ensures Loaded(c, f) == Err
  {
    var k := SomeAreInFront(Lines(f));
    LoadsIff(c, f, k);
  }

  /** The migration then fails and leaves file, table and marker alone. */
  lemma MalformedStaysUnmigrated<B>(
      s: HistoryMigration.Setting<B>, w: HistoryMigration.World<B>, f: Bytes, stamp: int, nonce: nat)
    requires HistoryMigration.Fingerprints(s.mac) && w.phase.Idle?
    requires w.file == Some(f) && s.codec.decode([]) == None && Malformed(s.codec, f)
    ensures !HistoryMigration.Migrates(s, w.file)
    ensures HistoryMigration.Run(s, w, HistoryMigration.Attempt(stamp, nonce)) == w
  {
    MalformedFails(s.codec, f);
    HistoryMigration.AttemptResult(s, w, stamp, nonce);
  }

  /** The line {x}, among whatever other lines. */
  lemma BadLineFailsLoading(before: seq<Bytes>, after: seq<Bytes>)
    requires NoneHolds(before + after, LF)
    ensures Loaded(HistoryJson.CODEC, Terminated(before + [[0x7B, 0x78, 0x7D]] + after)) == Err
  {
    var bad := [0x7B, 0x78, 0x7D];
    var lines := before + [bad] + after;
    assert LF !in bad;
    assert NoneHolds(lines, LF) by {
      assert forall i :: 0 <= i < |before| ==> lines[i] == (before + after)[i];
      assert forall i :: |before| < i < |lines| ==> lines[i] == (before + after)[i - 1];
    }
    LinesAreUnique(lines, []);
    assert Terminated(lines) + [] == Terminated(lines);
    assert lines[|before|] == bad;
    assert HistoryJson.Decode(bad) == None && HistoryJson.Decode([]) == None;
    assert StripCR(bad) == bad && !BlankLine(bad);
    MalformedFails(HistoryJson.CODEC, Terminated(lines));
  }
}
