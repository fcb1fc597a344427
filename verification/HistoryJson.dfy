/** A JSON record with one string field.  It obeys the laws that the history log
    relies on, so these can be met. */
module HistoryJson {
  import opened Outcomes
  import opened Utf8
  import opened HistoryLog

  const QUOTE: byte := 0x22
  const BACKSLASH: byte := 0x5C

  /** {"command":" */
  const HEAD: Bytes := [0x7B, 0x22, 0x63, 0x6F, 0x6D, 0x6D, 0x61, 0x6E, 0x64, 0x22, 0x3A, 0x22]
  /** "} */
  const FOOT: Bytes := [0x22, 0x7D]

  function Hex(d: byte): byte
    requires d < 16
  {
    if d < 10 then 0x30 + d else 0x57 + d
  }

  function Unhex(h: byte): Option<byte> {
    if 0x30 <= h <= 0x39 then Some(h - 0x30)
    else if 0x61 <= h <= 0x66 then Some(h - 0x57)
    else None
  }

  function EscapeByte(b: byte): Bytes {
    if b == QUOTE || b == BACKSLASH then [BACKSLASH, b]
    else if b == 10 then [BACKSLASH, 0x6E]
    else if b == 13 then [BACKSLASH, 0x72]
    else if b == 9 then [BACKSLASH, 0x74]
    else if b < 0x20 then [BACKSLASH, 0x75, 0x30, 0x30, Hex(b / 16), Hex(b % 16)]
    else [b]
  }

  function Escape(s: Bytes): Bytes {
    if s == [] then [] else EscapeByte(s[0]) + Escape(s[1..])
  }

  /** The byte at the front of a string body, and how long its escape is. */
  function UnescapeByte(s: Bytes): (r: Option<(byte, nat)>)
    requires s != []
    ensures r.Some? ==> 1 <= r.value.1 <= |s|
  {
    if s[0] < 0x20 || s[0] == QUOTE then None
    else if s[0] != BACKSLASH then Some((s[0], 1))
    else if |s| < 2 then None
    else if s[1] == QUOTE || s[1] == BACKSLASH then Some((s[1], 2))
    else if s[1] == 0x6E then Some((10, 2))
    else if s[1] == 0x72 then Some((13, 2))
    else if s[1] == 0x74 then Some((9, 2))
    else if s[1] != 0x75 || |s| < 6 || s[2] != 0x30 || s[3] != 0x30 then None
    else
      var high, low := Unhex(s[4]), Unhex(s[5]);
      if high.None? || low.None? || high.value > 1 then None
      else Some((16 * high.value + low.value, 6))
  }

  /** The rest of a record after its opening quote. */
  function Unescape(s: Bytes): Option<Bytes>
    decreases |s|
  {
    if s == FOOT then Some([])
    else if s == [] then None
    else
      match UnescapeByte(s)
      case None => None
      case Some((b, n)) =>
        match Unescape(s[n..])
        case None => None
        case Some(rest) => Some([b] + rest)
  }

  function Encode(command: Bytes): Bytes { HEAD + (Escape(command) + FOOT) }

  function Decode(s: Bytes): Option<Bytes> {
    if HEAD <= s then Unescape(s[|HEAD|..]) else None
  }

  const CODEC: Codec<Bytes> := Codec(e => Encode(e), s => Decode(s), s => Decode(s).Some?)

  lemma EscapedByteReadsBack(b: byte, rest: Bytes)
    ensures EscapeByte(b) != [] && UnescapeByte(EscapeByte(b) + rest) == Some((b, |EscapeByte(b)|))
    ensures EscapeByte(b) + rest != FOOT
  {
    var s := EscapeByte(b) + rest;
    assert forall i :: 0 <= i < |EscapeByte(b)| ==> s[i] == EscapeByte(b)[i];
  }

  lemma CutEscapeIsNothing(b: byte, p: Bytes)
    requires p < EscapeByte(b) && p != []
    ensures UnescapeByte(p) == None && p != FOOT
  {
  }

  lemma UnescapeOne(head: Bytes, rest: Bytes, b: byte)
    requires head + rest != FOOT && head != [] && UnescapeByte(head + rest) == Some((b, |head|))
    ensures Unescape(head + rest) ==
      if Unescape(rest).None? then None else Some([b] + Unescape(rest).value)
  {
    hide UnescapeByte;
    assert (head + rest)[|head|..] == rest;
  }

  lemma EscapeUnfold(s: Bytes)
    ensures Escape(s) + FOOT == if s == [] then FOOT else EscapeByte(s[0]) + (Escape(s[1..]) + FOOT)
    ensures Unescape(FOOT) == Some([])
  {
    hide EscapeByte;
    if s == [] {
      assert [] + FOOT == FOOT;
    } else {
      assert (EscapeByte(s[0]) + Escape(s[1..])) + FOOT == EscapeByte(s[0]) + (Escape(s[1..]) + FOOT);
    }
  }

  lemma {:induction false} EscapeReadsBack(s: Bytes)
    ensures Unescape(Escape(s) + FOOT) == Some(s)
  {
    hide Escape, Unescape, UnescapeByte;
    EscapeUnfold(s);
    if s != [] {
      var rest := Escape(s[1..]) + FOOT;
      EscapeReadsBack(s[1..]);
      EscapedByteReadsBack(s[0], rest);
      UnescapeOne(EscapeByte(s[0]), rest, s[0]);
      assert [s[0]] + s[1..] == s;
    }
  }

  lemma NothingTorn(p: Bytes)
    requires p < FOOT
    ensures Unescape(p) == None
  {
    if p != [] { assert p == [QUOTE]; }
  }

  lemma CutHeadIsNothing(b: byte, p: Bytes)
    requires p < EscapeByte(b)
    ensures Unescape(p) == None
  {
    if p != [] { CutEscapeIsNothing(b, p); }
  }

  lemma {:induction false} TornBodyIsNothing(s: Bytes, p: Bytes)
    requires p < Escape(s) + FOOT
    ensures Unescape(p) == None
  {
    hide Escape, Unescape, UnescapeByte, EscapeByte;
    EscapeUnfold(s);
    if s == [] {
      NothingTorn(p);
    } else {
      var head, rest := EscapeByte(s[0]), Escape(s[1..]) + FOOT;
      if |p| < |head| {
        assert p == (head + rest)[..|p|] == head[..|p|];
        CutHeadIsNothing(s[0], p);
      } else {
        var q := p[|head|..];
        CutBehind(head, rest, p);
        TornBodyIsNothing(s[1..], q);
        EscapedByteReadsBack(s[0], q);
        UnescapeOne(head, q, s[0]);
      }
    }
  }

  lemma CutBehind(head: Bytes, rest: Bytes, p: Bytes)
    requires p < head + rest && |head| <= |p|
    ensures p == head + p[|head|..] && p[|head|..] < rest
  {
    assert p[|head|..] == (head + rest)[|head|..|p|];
    assert (head + rest)[|head|..] == rest;
  }

  lemma {:induction false} EscapeHasNoBreaks(s: Bytes)
    ensures forall b :: b in Escape(s) ==> b >= 0x20
  {
    if s != [] { EscapeHasNoBreaks(s[1..]); }
  }

  lemma RecordReadsBack(e: Bytes)
    ensures Decode(Encode(e)) == Some(e) && LF !in Encode(e) && CR !in Encode(e)
  {
    hide Escape, Unescape;
    EscapeReadsBack(e);
    EscapeHasNoBreaks(e);
    assert Encode(e)[|HEAD|..] == Escape(e) + FOOT;
    NoBreaks(HEAD, Escape(e), FOOT);
  }

  lemma NoBreaks(a: Bytes, b: Bytes, c: Bytes)
    requires forall x :: x in a || x in b || x in c ==> x >= 0x20
    ensures LF !in a + (b + c) && CR !in a + (b + c)
  {
    assert forall x :: x in a + (b + c) ==> x in a || x in b || x in c;
  }

  lemma TornRecordIsNothing(e: Bytes, p: Bytes)
    requires p < Encode(e)
    ensures Decode(p) == None
  {
    hide Escape, Unescape;
    if HEAD <= p {
      var q := p[|HEAD|..];
      assert q < Escape(e) + FOOT by {
        assert q == Encode(e)[|HEAD|..|p|];
        assert Encode(e)[|HEAD|..] == Escape(e) + FOOT;
      }
      TornBodyIsNothing(e, q);
    }
  }

  /** The record format obeys the laws. */
  lemma JsonIsLawful()
    ensures Lawful(CODEC)
  {
    hide Escape, Unescape;
    assert Decode([]) == None;
    forall e: Bytes { RecordReadsBack(e); }
    forall e: Bytes, p: Bytes | p < Encode(e) { TornRecordIsNothing(e, p); }
  }
}
