/** Newline-separated lines of a byte stream. */
module ByteLines {
  import opened Utf8

  /** bytes.IndexByte */
  function IndexByte(s: Bytes, b: byte): (i: int)
    ensures -1 <= i < |s|
    ensures i >= 0 ==> s[i] == b
    ensures forall k :: 0 <= k < (if i < 0 then |s| else i) ==> s[k] != b
  {
    if s == [] then -1
    else if s[0] == b then 0
    else
      var i := IndexByte(s[1..], b);
      assert forall k :: 1 <= k < |s| ==> s[k] == s[1..][k - 1];
      if i < 0 then -1 else i + 1
  }

  /** The newline-terminated lines of s, without their newlines. */
  function Lines(s: Bytes): seq<Bytes>
    decreases |s|
  {
    var i := IndexByte(s, LF);
    if i < 0 then [] else [s[..i]] + Lines(s[i + 1..])
  }

  /** What follows the last newline. */
  function Rest(s: Bytes): Bytes
    decreases |s|
  {
    var i := IndexByte(s, LF);
    if i < 0 then s else Rest(s[i + 1..])
  }

  function StripCR(line: Bytes): Bytes {
    if line != [] && line[|line| - 1] == CR then line[..|line| - 1] else line
  }

  function StripAll(lines: seq<Bytes>): seq<Bytes> {
    if lines == [] then [] else [StripCR(lines[0])] + StripAll(lines[1..])
  }

  lemma {:induction false} FirstIsFirst(s: Bytes, t: Bytes, b: byte)
    requires b !in s
    ensures IndexByte(s + [b] + t, b) == |s|
  {
    if s == [] {
    } else {
      assert (s + [b] + t)[1..] == s[1..] + [b] + t;
      FirstIsFirst(s[1..], t, b);
    }
  }

  lemma FirstLine(line: Bytes, after: Bytes)
    requires LF !in line
    ensures Lines(line + [LF] + after) == [line] + Lines(after)
    ensures Rest(line + [LF] + after) == Rest(after)
  {
    var all := line + [LF] + after;
    FirstIsFirst(line, after, LF);
    assert all[..|line|] == line && all[|line| + 1..] == after;
  }

  lemma NoLine(s: Bytes)
    requires LF !in s
    ensures Lines(s) == [] && Rest(s) == s
  {
    assert s[..|s|] == s;
  }

  /** Either there is no newline, or the stream begins with a line. */
  lemma LineCases(s: Bytes) returns (found: bool, line: Bytes, after: Bytes)
    ensures !found ==> LF !in s
    ensures found ==> s == line + [LF] + after && LF !in line && |after| < |s|
  {
    var i := IndexByte(s, LF);
    found, line, after := i >= 0, s, [];
    if found {
      line, after := s[..i], s[i + 1..];
    }
  }

  lemma Prepend(x: Bytes, all: seq<Bytes>, a: seq<Bytes>, b: seq<Bytes>)
    requires all == a + b
    ensures [x] + all == ([x] + a) + b
  {
  }

  /** A stream may be cut anywhere: what is pending is enough to go on. */
  lemma {:induction false} LinesOfConcat(s: Bytes, t: Bytes)
    ensures Lines(s + t) == Lines(s) + Lines(Rest(s) + t)
    ensures Rest(s + t) == Rest(Rest(s) + t)
    decreases |s|
  {
    var found, line, after := LineCases(s);
    if !found {
      NoLine(s);
    } else {
      assert s + t == line + [LF] + (after + t);
      FirstLine(line, after);
      FirstLine(line, after + t);
      LinesOfConcat(after, t);
      Prepend(line, Lines(after + t), Lines(after), Lines(Rest(after) + t));
    }
  }

  /** One more line after whole lines. */
  lemma AppendLine(f: Bytes, line: Bytes, after: Bytes)
    requires Rest(f) == [] && LF !in line
    ensures Lines(f + (line + [LF] + after)) == Lines(f) + ([line] + Lines(after))
    ensures Rest(f + (line + [LF] + after)) == Rest(after)
  {
    var more := line + [LF] + after;
    LinesOfConcat(f, more);
    assert [] + more == more;
    FirstLine(line, after);
  }

  // ---------------------------------------------------------------------------
  // The one way to cut a stream into lines
  // ---------------------------------------------------------------------------

  /** The lines, each with a newline behind it. */
  function Terminated(lines: seq<Bytes>): Bytes {
    if lines == [] then [] else lines[0] + [LF] + Terminated(lines[1..])
  }

  predicate NoneHolds(lines: seq<Bytes>, b: byte) {
    forall i :: 0 <= i < |lines| ==> b !in lines[i]
  }

  lemma TerminatedMore(line: Bytes, lines: seq<Bytes>, rest: Bytes)
    ensures Terminated([line] + lines) + rest == line + [LF] + (Terminated(lines) + rest)
  {
    assert ([line] + lines)[1..] == lines;
  }

  /** A stream is its lines and what follows the last newline. */
  lemma {:induction false} LinesRebuild(s: Bytes)
    ensures s == Terminated(Lines(s)) + Rest(s) && NoneHolds(Lines(s), LF) && LF !in Rest(s)
    decreases |s|
  {
    hide Lines, Rest, IndexByte, Terminated;
    var found, line, after := LineCases(s);
    if !found {
      NoLine(s);
      assert Terminated([]) == [] by { NothingTerminated(); }
      assert [] + s == s;
    } else {
      FirstLine(line, after);
      LinesRebuild(after);
      TerminatedMore(line, Lines(after), Rest(after));
    }
  }

  lemma NothingTerminated()
    ensures Terminated([]) == []
  {
  }

  lemma {:induction false} TerminatedEnds(lines: seq<Bytes>)
    ensures lines == [] || (Terminated(lines) != [] && Terminated(lines)[|Terminated(lines)| - 1] == LF)
  {
    if lines != [] { TerminatedEnds(lines[1..]); }
  }

  lemma NothingLeftIff(s: Bytes)
    ensures Rest(s) == [] <==> s == [] || s[|s| - 1] == LF
  {
    hide Lines, Rest, Terminated;
    LinesRebuild(s);
    TerminatedEnds(Lines(s));
    NothingTerminated();
    var rest := Rest(s);
    assert rest != [] ==> s[|s| - 1] == rest[|rest| - 1] && rest[|rest| - 1] in rest;
  }

  /** And no other way of cutting it at newlines gives the same stream. */
  lemma {:induction false} LinesAreUnique(lines: seq<Bytes>, rest: Bytes)
    requires NoneHolds(lines, LF) && LF !in rest
    ensures Lines(Terminated(lines) + rest) == lines && Rest(Terminated(lines) + rest) == rest
  {
    if lines == [] {
      NoLine(rest);
      assert [] + rest == rest;
    } else {
      var after := Terminated(lines[1..]) + rest;
      assert Terminated(lines) + rest == lines[0] + [LF] + after;
      FirstLine(lines[0], after);
      LinesAreUnique(lines[1..], rest);
    }
  }

  /** One CR is dropped, and nothing else. */
  lemma StripCROnce(line: Bytes)
    ensures StripCR(line + [CR]) == line
    ensures StripCR(line) == line <==> line == [] || line[|line| - 1] != CR
  {
    assert (line + [CR])[..|line|] == line;
  }
}
