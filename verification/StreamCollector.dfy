/** sshStreamCollector (terminal/executor.go) and the truncation of stored
    output (terminal/log.go). */
module StreamCollector {
  import opened Text
  import opened Utf8
  import opened ByteLines

  function Shown(lines: seq<Bytes>): seq<Bytes> {
    if lines == [] then [] else [Normalize(StripCR(lines[0]))] + Shown(lines[1..])
  }

  class SshStreamCollector {
    var raw: Bytes
    var pending: Bytes
    /** The lines handed to emit, in order. */
    var emitted: seq<Bytes>

    /** The state after the bytes in raw, however they were cut into writes. */
    ghost predicate Collected()
      reads this
    {
      emitted == Shown(Lines(raw)) && pending == Rest(raw)
    }

    constructor ()
      ensures raw == [] && Collected()
    {
      raw, pending, emitted := [], [], [];
    }

    method Write(p: Bytes)
      requires Collected()
      modifies this
      ensures Collected() && raw == old(raw) + p
    {
      raw := raw + p;
      pending := pending + p;
      var lines := TakeLines();
      EmitAll(lines);
      LinesOfConcat(old(raw), p);
      ShownOfConcat(Lines(old(raw)), lines);
    }

    /** The part of Write under the lock: cut the complete lines off. */
    method TakeLines() returns (lines: seq<Bytes>)
      modifies this`pending
      ensures lines == Lines(old(pending)) && pending == Rest(old(pending))
    {
      hide Lines, Rest, IndexByte;
      lines := [];
      while true
        invariant lines + Lines(pending) == Lines(old(pending))
        invariant Rest(pending) == Rest(old(pending))
        decreases |pending|
      {
        var newline := IndexByte(pending, LF);
        if newline < 0 {
          NoLine(pending);
          break;
        }
        var line, after := pending[..newline], pending[newline + 1..];
        assert pending == line + [LF] + after;
        FirstLine(line, after);
        Regroup(lines, line, Lines(after));
        lines := lines + [line];
        pending := after;
      }
    }

    /** The part of Write outside the lock. */
    method EmitAll(lines: seq<Bytes>)
      modifies this`emitted
      ensures emitted == old(emitted) + Shown(lines)
    {
      hide Shown, Normalize;
      NothingShown();
      var i := 0;
      while i < |lines|
        invariant 0 <= i <= |lines| && emitted == old(emitted) + Shown(lines[..i])
      {
        var line := lines[i];
        if |line| > 0 && line[|line| - 1] == CR {
          line := line[..|line| - 1];
        }
        assert line == StripCR(lines[i]);
        ShownSnoc(lines, i);
        emitted := emitted + [Normalize(line)];
        i := i + 1;
      }
      assert lines[..i] == lines;
    }

    method Flush()
      requires Collected()
      modifies this
      ensures emitted == AllShown(old(raw)) && pending == [] && raw == old(raw)
    {
      var line := pending;
      pending := [];
      if |line| > 0 {
        emitted := emitted + [Normalize(line)];
      }
    }

    method Text() returns (text: Bytes)
      ensures text == Normalize(raw)
    {
      text := Normalize(raw);
    }
  }

  lemma NothingShown()
    ensures Shown([]) == []
  {
  }

  lemma Regroup(a: seq<Bytes>, x: Bytes, b: seq<Bytes>)
    ensures a + ([x] + b) == (a + [x]) + b
  {
  }

  /** Everything a stream shows once it is flushed. */
  function AllShown(s: Bytes): seq<Bytes> {
    Shown(Lines(s)) + if Rest(s) == [] then [] else [Normalize(Rest(s))]
  }

  lemma {:induction false} ShownOfConcat(a: seq<Bytes>, b: seq<Bytes>)
    ensures Shown(a + b) == Shown(a) + Shown(b)
  {
    if a == [] {
      assert a + b == b;
    } else {
      assert (a + b)[1..] == a[1..] + b;
      ShownOfConcat(a[1..], b);
    }
  }

  lemma ShownSnoc(lines: seq<Bytes>, i: nat)
    requires i < |lines|
    ensures Shown(lines[..i + 1]) == Shown(lines[..i]) + [Normalize(StripCR(lines[i]))]
  {
    assert lines[..i + 1] == lines[..i] + [lines[i]];
    ShownOfConcat(lines[..i], [lines[i]]);
    assert Shown([lines[i]][1..]) == [];
  }

  // ---------------------------------------------------------------------------
  // Main results
  // ---------------------------------------------------------------------------

  function Concat(chunks: seq<Bytes>): Bytes {
    if chunks == [] then [] else Concat(chunks[..|chunks| - 1]) + chunks[|chunks| - 1]
  }

  /** However the stream is cut into writes, the lines emitted are those of the
      whole stream, and the text is the whole stream repaired. */
  method Collect(chunks: seq<Bytes>) returns (emitted: seq<Bytes>, text: Bytes)
    ensures emitted == AllShown(Concat(chunks))
    ensures text == Normalize(Concat(chunks))
  {
    var w := new SshStreamCollector();
    var i := 0;
    while i < |chunks|
      invariant 0 <= i <= |chunks| && fresh(w)
      invariant w.Collected() && w.raw == Concat(chunks[..i])
    {
      assert chunks[..i + 1][..i] == chunks[..i];
      w.Write(chunks[i]);
      i := i + 1;
    }
    assert chunks[..i] == chunks;
    w.Flush();
    emitted := w.emitted;
    text := w.Text();
  }

  /** The lines of finished text: complete lines lose a final CR, a nonempty
      remainder stands as it is. */
  function TextLines(text: Bytes): seq<Bytes> {
    StripAll(Lines(text)) + if Rest(text) == [] then [] else [Rest(text)]
  }

  lemma NormalizeBeforeCR(body: Bytes)
    ensures Normalize(body + [CR]) == Normalize(body) + [CR]
  {
    assert body + [CR] + [] == body + [CR];
    NormalizeSplits(body, CR, []);
    assert Normalize([]) == [];
    assert Normalize(body) + [CR] + [] == Normalize(body) + [CR];
  }

  lemma NoNewCR(line: Bytes)
    requires StripCR(line) == line
    ensures StripCR(Normalize(line)) == Normalize(line)
  {
    NormalizeIsRepair(line);
    RepairKeepsLastAscii(line, false);
  }

  lemma StripThenNormalize(line: Bytes)
    ensures Normalize(StripCR(line)) == StripCR(Normalize(line))
  {
    if line != [] && line[|line| - 1] == CR {
      var body := line[..|line| - 1];
      assert line == body + [CR];
      NormalizeBeforeCR(body);
      assert (Normalize(body) + [CR])[..|Normalize(body)|] == Normalize(body);
    } else {
      NoNewCR(line);
    }
  }

  /** Repairing each line on its own is repairing the whole stream first. */
  lemma {:induction false} LineWiseRepair(s: Bytes)
    ensures AllShown(s) == TextLines(Normalize(s))
    decreases |s|
  {
    var found, line, after := LineCases(s);
    if !found {
      NormalizeIsRepair(s);
      RepairInventsNoAscii(s, false, LF);
      RepairKeepsLastAscii(s, false);
      NoLine(s);
      NoLine(Normalize(s));
    } else {
      NormalizeSplits(line, LF, after);
      NormalizeIsRepair(line);
      RepairInventsNoAscii(line, false, LF);
      FirstLine(line, after);
      FirstLine(Normalize(line), Normalize(after));
      StripThenNormalize(line);
      LineWiseRepair(after);
      AllShownStep(line, Lines(after), if Rest(after) == [] then [] else [Normalize(Rest(after))]);
      StripAllStep(Normalize(line), Lines(Normalize(after)),
                   if Rest(Normalize(after)) == [] then [] else [Rest(Normalize(after))]);
    }
  }

  lemma AllShownStep(line: Bytes, lines: seq<Bytes>, rest: seq<Bytes>)
    ensures Shown([line] + lines) + rest == [Normalize(StripCR(line))] + (Shown(lines) + rest)
  {
  }

  lemma StripAllStep(line: Bytes, lines: seq<Bytes>, rest: seq<Bytes>)
    ensures StripAll([line] + lines) + rest == [StripCR(line)] + (StripAll(lines) + rest)
  {
  }

  /** How a line ends. */
  datatype Break = Newline | Return

  function Mark(b: Break): Bytes { if b.Newline? then [10] else [13, 10] }

  /** A stream of lines, each with its break, and a rest. */
  function Stream(lines: seq<Bytes>, breaks: seq<Break>, rest: Bytes): Bytes
    requires |lines| == |breaks|
  {
    if lines == [] then rest else lines[0] + Mark(breaks[0]) + Stream(lines[1..], breaks[1..], rest)
  }

  function NormalizedAll(lines: seq<Bytes>): (r: seq<Bytes>)
    ensures |r| == |lines| && forall i :: 0 <= i < |r| ==> r[i] == Normalize(lines[i])
  {
    seq(|lines|, i requires 0 <= i < |lines| => Normalize(lines[i]))
  }

  /** No line holds a newline, and none that ends with a bare newline ends with a
      CR: that one belongs to the break. */
  predicate CutAtBreaks(lines: seq<Bytes>, breaks: seq<Break>, rest: Bytes)
    requires |lines| == |breaks|
  {
    && LF !in rest
    && forall i :: 0 <= i < |lines| ==>
         && LF !in lines[i]
         && (breaks[i].Newline? && lines[i] != [] ==> lines[i][|lines[i]| - 1] != CR)
  }

  lemma BrokenLine(line: Bytes, b: Break, after: Bytes)
    requires LF !in line && (b.Newline? && line != [] ==> line[|line| - 1] != CR)
    ensures Shown(Lines(line + Mark(b) + after)) == [Normalize(line)] + Shown(Lines(after))
    ensures Rest(line + Mark(b) + after) == Rest(after)
  {
    var whole := if b.Newline? then line else line + [CR];
    assert line + Mark(b) + after == whole + [LF] + after;
    FirstLine(whole, after);
    StripCROnce(line);
    assert StripCR(whole) == line;
    hide Lines, Normalize, StripCR;
    var lines := [whole] + Lines(after);
    assert lines[1..] == Lines(after);
  }

  /** What is shown of a stream: its lines without their breaks, and a nonempty
      rest with whatever CR it ends with, each repaired. */
  lemma {:induction false} ShowsEveryLine(lines: seq<Bytes>, breaks: seq<Break>, rest: Bytes)
    requires |lines| == |breaks| && CutAtBreaks(lines, breaks, rest)
    ensures AllShown(Stream(lines, breaks, rest)) ==
      NormalizedAll(lines) + if rest == [] then [] else [Normalize(rest)]
    decreases |lines|
  {
    hide Lines, Rest, Normalize, StripCR;
    if lines == [] {
      NoLine(rest);
      assert Shown([]) + [] == [];
    } else {
      var after := Stream(lines[1..], breaks[1..], rest);
      ShowsEveryLine(lines[1..], breaks[1..], rest);
      BrokenLine(lines[0], breaks[0], after);
      var last := if rest == [] then [] else [Normalize(rest)];
      assert NormalizedAll(lines) == [Normalize(lines[0])] + NormalizedAll(lines[1..]);
      assert ([Normalize(lines[0])] + NormalizedAll(lines[1..])) + last
          == [Normalize(lines[0])] + (NormalizedAll(lines[1..]) + last);
    }
  }

  // ---------------------------------------------------------------------------
  // truncateHistoryOutput
  // ---------------------------------------------------------------------------

  const MAX_OUTPUT := 64 * 1024

  /** The bytes of an ASCII text; other characters do not occur. */
  function AsciiBytes(s: string): (b: Bytes)
    ensures |b| == |s| && forall i :: 0 <= i < |s| ==> Ascii(b[i])
    ensures forall i :: 0 <= i < |s| && s[i] as int < 0x80 ==> b[i] as int == s[i] as int
  {
    if s == "" then []
    else
      var c := s[0] as int;
      [if c < 0x80 then c as byte else 0x3F] + AsciiBytes(s[1..])
  }

  const MARKER_FRONT := "\n[NBTerminal history output truncated: original "
  const MARKER_MIDDLE := " bytes, kept "
  const MARKER_BACK := " bytes]"

  /** What is written behind a cut text. */
  function Marker(original: nat, kept: nat): Bytes {
    AsciiBytes(MARKER_FRONT + Decimal(original) + MARKER_MIDDLE + Decimal(kept) + MARKER_BACK)
  }

  lemma {:induction false} AsciiIsValid(b: Bytes)
    requires forall i :: 0 <= i < |b| ==> Ascii(b[i])
    ensures Valid(b)
  {
    if b != [] { AsciiIsValid(b[1..]); }
  }

  /** Well-formed text stays well-formed; of a long one a prefix is kept that
      gives up at most three bytes of the allowance, so kept is never 0, and the
      marker tells both lengths. */
  method TruncateHistoryOutput(output: Bytes) returns (text: Bytes, kept: nat)
    ensures var s := Normalize(output);
      && Valid(text) && kept <= |s|
      && (|s| <= 65536 ==> text == s && kept == |s|)
      && (|s| > 65536 ==>
            && 65533 <= kept <= 65536 && RuneStart(s[kept]) && Valid(s[..kept])
            && (forall i :: kept < i <= 65536 ==> !RuneStart(s[i]))
            && text == s[..kept] + AsciiBytes("\n[NBTerminal history output truncated: original " +
                 Decimal(|s|) + " bytes, kept " + Decimal(kept) + " bytes]"))
  {
    var s := Normalize(output);
    NormalizeIsValid(output);
    if |s| <= MAX_OUTPUT {
      return s, |s|;
    }
    ghost var near := StartIsNear(s, MAX_OUTPUT);
    var cut := MAX_OUTPUT;
    while cut > 0 && !RuneStart(s[cut])
      invariant near <= cut <= MAX_OUTPUT
      invariant forall i :: cut < i <= MAX_OUTPUT ==> !RuneStart(s[i])
    {
      cut := cut - 1;
    }
    if cut == 0 {
      cut := MAX_OUTPUT;
    }
    ValidPrefix(s, cut);
    AsciiIsValid(Marker(|s|, cut));
    ValidConcat(s[..cut], Marker(|s|, cut));
    return s[..cut] + Marker(|s|, cut), cut;
  }
}
