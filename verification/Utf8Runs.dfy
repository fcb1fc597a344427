/** What the repair of terminal/scanner.go (normalizeUTF8) gives, said of code
    points and of runs of bytes that belong to none. */
module Utf8Runs {
  import opened Utf8

  // ---------------------------------------------------------------------------
  // Characters are encoded code points
  // ---------------------------------------------------------------------------

  /** A Unicode scalar value. */
  predicate Scalar(c: int) { 0 <= c < 0x110000 && !(0xD800 <= c < 0xE000) }

  /** Section 3 of RFC 3629. */
  function Encode(c: int): Bytes
    requires Scalar(c)
  {
    if c < 0x80 then [c as byte]
    else if c < 0x800 then [(0xC0 + c / 64) as byte, (0x80 + c % 64) as byte]
    else if c < 0x10000 then [(0xE0 + c / 4096) as byte, (0x80 + c / 64 % 64) as byte, (0x80 + c % 64) as byte]
    else
      [(0xF0 + c / 262144) as byte, (0x80 + c / 4096 % 64) as byte,
       (0x80 + c / 64 % 64) as byte, (0x80 + c % 64) as byte]
  }

  /** The code point whose encoding stands at the front. */
  function Decoded(s: Bytes): int
    requires s != [] && Width(s) > 0
  {
    var a := s[0] as int;
    if Width(s) == 1 then a
    else if Width(s) == 2 then (a - 0xC0) * 64 + (s[1] as int - 0x80)
    else if Width(s) == 3 then (a - 0xE0) * 4096 + (s[1] as int - 0x80) * 64 + (s[2] as int - 0x80)
    else (a - 0xF0) * 262144 + (s[1] as int - 0x80) * 4096 + (s[2] as int - 0x80) * 64 + (s[3] as int - 0x80)
  }

  /** Six bits at a time. */
  lemma SixBits(high: int, low: int)
    requires 0 <= low < 64
    ensures (high * 64 + low) / 64 == high && (high * 64 + low) % 64 == low
  {
  }

  lemma Digits64(n: int)
    ensures n / 64 / 64 == n / 4096 && n / 64 / 64 / 64 == n / 262144
  {
  }

  lemma DecodedIsScalar(s: Bytes)
    requires s != [] && Width(s) > 0
    ensures Scalar(Decoded(s)) && Encode(Decoded(s)) == s[..Width(s)]
  {
    var w := Width(s);
    if w == 2 {
      SixBits(s[0] as int - 0xC0, s[1] as int - 0x80);
    } else if w == 3 {
      DecodedThree(s);
    } else if w == 4 {
      DecodedFour(s);
    }
  }

  lemma DecodedThree(s: Bytes)
    requires s != [] && Width(s) == 3
    ensures Scalar(Decoded(s)) && Encode(Decoded(s)) == s[..3]
  {
    var high := (s[0] as int - 0xE0) * 64 + (s[1] as int - 0x80);
    assert Decoded(s) == high * 64 + (s[2] as int - 0x80);
    SixBits(s[0] as int - 0xE0, s[1] as int - 0x80);
    SixBits(high, s[2] as int - 0x80);
    Digits64(Decoded(s));
  }

  lemma DecodedFour(s: Bytes)
    requires s != [] && Width(s) == 4
    ensures Scalar(Decoded(s)) && Encode(Decoded(s)) == s[..4]
  {
    var top := (s[0] as int - 0xF0) * 64 + (s[1] as int - 0x80);
    var high := top * 64 + (s[2] as int - 0x80);
    assert Decoded(s) == high * 64 + (s[3] as int - 0x80);
    SixBits(s[0] as int - 0xF0, s[1] as int - 0x80);
    SixBits(top, s[2] as int - 0x80);
    SixBits(high, s[3] as int - 0x80);
    Digits64(Decoded(s));
  }

  lemma EncodingIsCharacter(c: int, t: Bytes)
    requires Scalar(c)
    ensures Width(Encode(c) + t) == |Encode(c)|
  {
    var s := Encode(c) + t;
    assert forall i :: 0 <= i < |Encode(c)| ==> s[i] == Encode(c)[i];
  }

  /** An encoded code point stands at the front of s. */
  ghost predicate StartsCharacter(s: Bytes) {
    exists c :: Scalar(c) && Encode(c) <= s
  }

  lemma StartsCharacterIff(s: Bytes)
    requires s != []
    ensures StartsCharacter(s) <==> Width(s) > 0
  {
    if StartsCharacter(s) {
      var c :| Scalar(c) && Encode(c) <= s;
      EncodingIsCharacter(c, s[|Encode(c)|..]);
      assert s == Encode(c) + s[|Encode(c)|..];
    }
    if Width(s) > 0 { DecodedIsScalar(s); }
  }

  /** The encoding of a text. */
  function EncodeAll(text: seq<int>): Bytes
    requires forall i :: 0 <= i < |text| ==> Scalar(text[i])
  {
    if text == [] then [] else Encode(text[0]) + EncodeAll(text[1..])
  }

  lemma {:induction false} EncodedIsValid(text: seq<int>)
    requires forall i :: 0 <= i < |text| ==> Scalar(text[i])
    ensures Valid(EncodeAll(text))
  {
    if text != [] {
      var rest := EncodeAll(text[1..]);
      EncodedIsValid(text[1..]);
      EncodingIsCharacter(text[0], rest);
      assert EncodeAll(text)[|Encode(text[0])|..] == rest;
    }
  }

  /** Well-formed means encoded: exactly the encodings of texts are valid. */
  lemma {:induction false} ValidIsEncoded(s: Bytes) returns (text: seq<int>)
    requires Valid(s)
    ensures (forall i :: 0 <= i < |text| ==> Scalar(text[i])) && EncodeAll(text) == s
    decreases |s|
  {
    text := [];
    if s != [] {
      var more := ValidIsEncoded(s[Width(s)..]);
      DecodedIsScalar(s);
      text := [Decoded(s)] + more;
      assert text[1..] == more;
      assert s == s[..Width(s)] + s[Width(s)..];
    }
  }

  // ---------------------------------------------------------------------------
  // Pieces and runs
  // ---------------------------------------------------------------------------

  /** The pieces with the separators between them. */
  function Weave(pieces: seq<Bytes>, between: seq<Bytes>): Bytes
    requires |pieces| == |between| + 1
  {
    if between == [] then pieces[0] else pieces[0] + (between[0] + Weave(pieces[1..], between[1..]))
  }

  /** No character starts at any byte of run, when after follows. */
  ghost predicate NoCharacter(run: Bytes, after: Bytes) {
    forall i :: 0 <= i < |run| ==> !StartsCharacter(run[i..] + after)
  }

  /** The pieces are well formed and the runs between them are nonempty, as long
      as possible, and without any character. */
  ghost predicate Separated(pieces: seq<Bytes>, runs: seq<Bytes>)
    requires |pieces| == |runs| + 1
  {
    && Valid(pieces[0])
    && (runs != [] ==>
          && runs[0] != [] && NoCharacter(runs[0], Weave(pieces[1..], runs[1..]))
          && (|runs| > 1 ==> pieces[1] != [])
          && Separated(pieces[1..], runs[1..]))
  }

  function Replacements(n: nat): (r: seq<Bytes>)
    ensures |r| == n && forall i :: 0 <= i < n ==> r[i] == [0xEF, 0xBF, 0xBD]
  {
    seq(n, i => [0xEF, 0xBF, 0xBD])
  }

  /** Only the bytes of a character decide about it. */
  lemma WidthStays(s: Bytes, t: Bytes)
    requires s != [] && Width(s) > 0
    ensures Width(s + t) == Width(s)
  {
    assert forall i :: 0 <= i < |s| ==> (s + t)[i] == s[i];
  }

  lemma RepairStep(s: Bytes, bad: bool)
    requires s != [] && Width(s) > 0
    ensures Repair(s, bad) == s[..Width(s)] + Repair(s[Width(s)..], false)
  {
  }

  /** Well-formed text is passed on as it is, and ends a run of bad bytes. */
  lemma {:induction false} RepairPiece(piece: Bytes, t: Bytes, bad: bool)
    requires Valid(piece)
    ensures Repair(piece + t, bad) == piece + Repair(t, bad && piece == [])
    decreases |piece|
  {
    hide Repair, Width;
    if piece == [] {
      assert piece + t == t;
    } else {
      var w := Width(piece);
      WidthStays(piece, t);
      RepairStep(piece + t, bad);
      assert (piece + t)[..w] == piece[..w] && (piece + t)[w..] == piece[w..] + t;
      RepairPiece(piece[w..], t, false);
      assert piece[..w] + (piece[w..] + Repair(t, false)) == piece + Repair(t, false);
    }
  }

  /** A run leaves one replacement, or none if it has begun before. */
  lemma {:induction false} RepairRun(run: Bytes, after: Bytes, bad: bool)
    requires NoCharacter(run, after)
    ensures Repair(run + after, bad) ==
      (if run == [] || bad then [] else [0xEF, 0xBF, 0xBD]) + Repair(after, bad || run != [])
    decreases |run|
  {
    var s := run + after;
    if run == [] {
      assert s == after;
    } else {
      assert run[0..] + after == s;
      StartsCharacterIff(s);
      assert s[1..] == run[1..] + after;
      assert NoCharacter(run[1..], after) by {
        assert forall i :: 0 <= i < |run| - 1 ==> run[1..][i..] == run[i + 1..];
      }
      RepairRun(run[1..], after, true);
    }
  }

  /** bad does not matter in front of a piece with a character. */
  lemma FreshAfterPiece(pieces: seq<Bytes>, runs: seq<Bytes>, bad: bool)
    requires |pieces| == |runs| + 1 && Separated(pieces, runs)
    requires pieces[0] != [] || runs == []
    ensures Repair(Weave(pieces, runs), bad) == Repair(Weave(pieces, runs), false)
  {
    if runs != [] {
      var t := runs[0] + Weave(pieces[1..], runs[1..]);
      RepairPiece(pieces[0], t, bad);
      RepairPiece(pieces[0], t, false);
    } else {
      ValidNeedsNoRepair(pieces[0], bad);
      ValidNeedsNoRepair(pieces[0], false);
    }
  }

  lemma {:induction false} RepairWoven(pieces: seq<Bytes>, runs: seq<Bytes>)
    requires |pieces| == |runs| + 1 && Separated(pieces, runs)
    ensures Repair(Weave(pieces, runs), false) == Weave(pieces, Replacements(|runs|))
    decreases |runs|
  {
    hide Repair, StartsCharacter;
    var marks := Replacements(|runs|);
    if runs == [] {
      ValidNeedsNoRepair(pieces[0], false);
    } else {
      var later := Weave(pieces[1..], runs[1..]);
      RepairPiece(pieces[0], runs[0] + later, false);
      RepairRun(runs[0], later, false);
      FreshAfterPiece(pieces[1..], runs[1..], true);
      RepairWoven(pieces[1..], runs[1..]);
      assert marks[1..] == Replacements(|runs| - 1);
    }
  }

  /** The repaired stream: every run of bytes that belong to no character becomes
      one U+FFFD, and what lies between the runs stays. */
  lemma NormalizeReplacesRuns(pieces: seq<Bytes>, runs: seq<Bytes>)
    requires |pieces| == |runs| + 1 && Separated(pieces, runs)
    ensures Normalize(Weave(pieces, runs)) == Weave(pieces, Replacements(|runs|))
  {
    NormalizeIsRepair(Weave(pieces, runs));
    RepairWoven(pieces, runs);
  }

  // ---------------------------------------------------------------------------
  // Every stream has such pieces and runs
  // ---------------------------------------------------------------------------

  lemma InFront(first: Bytes, pieces: seq<Bytes>, runs: seq<Bytes>)
    requires |pieces| == |runs| + 1
    ensures Weave([first + pieces[0]] + pieces[1..], runs) == first + Weave(pieces, runs)
  {
    var more := [first + pieces[0]] + pieces[1..];
    assert more[1..] == pieces[1..];
    if runs != [] {
      var t := runs[0] + Weave(pieces[1..], runs[1..]);
      assert (first + pieces[0]) + t == first + (pieces[0] + t);
    }
  }

  lemma LongerRun(b: byte, runs: seq<Bytes>, pieces: seq<Bytes>)
    requires |pieces| == |runs| + 1 && runs != [] && Separated(pieces, runs) && pieces[0] == []
    requires !StartsCharacter([b] + Weave(pieces, runs))
    ensures var more := [[b] + runs[0]] + runs[1..];
      Separated(pieces, more) && Weave(pieces, more) == [b] + Weave(pieces, runs)
  {
    hide StartsCharacter;
    var run, later := [b] + runs[0], Weave(pieces[1..], runs[1..]);
    var more := [run] + runs[1..];
    assert more[1..] == runs[1..];
    assert Weave(pieces, runs) == runs[0] + later;
    assert run + later == [b] + Weave(pieces, runs);
    forall i | 0 <= i < |run| ensures !StartsCharacter(run[i..] + later) {
      if i == 0 {
        assert run[0..] == run;
      } else {
        assert run[i..] == runs[0][i - 1..];
      }
    }
  }

  lemma {:induction false} EveryStreamIsWoven(s: Bytes) returns (pieces: seq<Bytes>, runs: seq<Bytes>)
    ensures |pieces| == |runs| + 1 && Separated(pieces, runs) && Weave(pieces, runs) == s
    decreases |s|
  {
    hide StartsCharacter, Width;
    if s == [] {
      return [[]], [];
    }
    StartsCharacterIff(s);
    var w := Width(s);
    var k := if w > 0 then w else 1;
    var later, between := EveryStreamIsWoven(s[k..]);
    assert s == s[..k] + s[k..];
    if w > 0 {
      CharacterIsValid(s);
      pieces, runs := [s[..w] + later[0]] + later[1..], between;
      InFront(s[..w], later, between);
      ValidConcat(s[..w], later[0]);
      assert pieces[1..] == later[1..];
    } else if between != [] && later[0] == [] {
      pieces, runs := later, [s[..1] + between[0]] + between[1..];
      assert s[..1] == [s[0]];
      LongerRun(s[0], between, later);
    } else {
      pieces, runs := [[]] + later, [s[..1]] + between;
      assert pieces[1..] == later && runs[1..] == between;
      assert runs[0][0..] + s[1..] == s;
      assert [] + (runs[0] + s[1..]) == s;
      assert Valid([]);
    }
  }

  lemma CharacterIsValid(s: Bytes)
    requires s != [] && Width(s) > 0
    ensures Valid(s[..Width(s)])
  {
    var head := s[..Width(s)];
    assert forall i :: 0 <= i < |head| ==> head[i] == s[i];
    assert Width(head) == Width(s) && head[Width(s)..] == [];
  }
}
