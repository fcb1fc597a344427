/** UTF-8 as Go decodes it, after the table in section 4 of RFC 3629, and the
    repair that terminal/scanner.go applies to text from outside. */
module Utf8 {
  newtype byte = i: int | 0 <= i < 0x100

  type Bytes = seq<byte>

  const LF: byte := 10
  const CR: byte := 13

  /** U+FFFD */
  const REPLACEMENT: Bytes := [0xEF, 0xBF, 0xBD]

  predicate Tail(b: byte) { 0x80 <= b <= 0xBF }

  predicate Ascii(b: byte) { b < 0x80 }

  /** utf8.RuneStart */
  predicate RuneStart(b: byte) { !Tail(b) }

  /** May b follow the lead byte a? */
  predicate SecondOk(a: byte, b: byte) {
    && Tail(b)
    && (a == 0xE0 ==> 0xA0 <= b) && (a == 0xED ==> b <= 0x9F)
    && (a == 0xF0 ==> 0x90 <= b) && (a == 0xF4 ==> b <= 0x8F)
  }

  /** The number of bytes the lead byte announces; 0 if it cannot lead. */
  function Announced(a: byte): nat {
    if a < 0x80 then 1
    else if 0xC2 <= a <= 0xDF then 2
    else if 0xE0 <= a <= 0xEF then 3
    else if 0xF0 <= a <= 0xF4 then 4
    else 0
  }

  /** The width of the well-formed character at the front; 0 if there is none. */
  function Width(s: Bytes): (w: nat)
    requires s != []
    ensures w <= 4 && w <= |s|
    ensures w > 0 ==> forall i :: 1 <= i < w ==> Tail(s[i])
    ensures w > 1 ==> !Ascii(s[0]) && RuneStart(s[0])
  {
    var n := Announced(s[0]);
    if n > |s| then 0
    else if n <= 1 then n
    else if SecondOk(s[0], s[1]) && (n > 2 ==> Tail(s[2])) && (n > 3 ==> Tail(s[3])) then n
    else 0
  }

  /** utf8.ValidString */
  predicate Valid(s: Bytes)
    decreases |s|
  {
    s == [] || (Width(s) > 0 && Valid(s[Width(s)..]))
  }

  /** How far decoding moves on: a byte that starts no character is skipped. */
  function Advance(s: Bytes): (k: nat)
    requires s != []
    ensures 1 <= k <= |s|
  {
    if Width(s) == 0 then 1 else Width(s)
  }

  function Head(s: Bytes, bad: bool): Bytes
    requires s != []
  {
    if Width(s) > 0 then s[..Width(s)] else if bad then [] else REPLACEMENT
  }

  /** strings.ToValidUTF8: every run of bytes that start no character becomes
      one replacement character; bad tells that such a run is under way. */
  function Repair(s: Bytes, bad: bool): Bytes
    decreases |s|
  {
    if s == [] then [] else Head(s, bad) + Repair(s[Advance(s)..], Width(s) == 0)
  }

  function Normalize(s: Bytes): Bytes {
    if Valid(s) then s else Repair(s, false)
  }

  lemma {:induction false} ValidNeedsNoRepair(s: Bytes, bad: bool)
    requires Valid(s)
    ensures Repair(s, bad) == s
    decreases |s|
  {
    if s == [] {
    } else {
      ValidNeedsNoRepair(s[Width(s)..], false);
      assert s == s[..Width(s)] + s[Width(s)..];
    }
  }

  lemma NormalizeIsRepair(s: Bytes)
    ensures Normalize(s) == Repair(s, false)
  {
    if Valid(s) { ValidNeedsNoRepair(s, false); }
  }

  /** Only the announced bytes decide, and they do not reach past an ASCII byte. */
  lemma WidthIsLocal(s: Bytes, c: byte, t: Bytes)
    requires s != [] && Ascii(c)
    ensures Width(s + [c] + t) == Width(s)
  {
    var all := s + [c] + t;
    assert all[0] == s[0];
    assert forall i :: 0 <= i < |s| ==> all[i] == s[i];
    assert all[|s|] == c;
  }

  /** Repairing distributes over an ASCII byte, which is never part of a run. */
  lemma {:induction false} RepairSplits(s: Bytes, c: byte, t: Bytes, bad: bool)
    requires Ascii(c)
    ensures Repair(s + [c] + t, bad) == Repair(s, bad) + [c] + Repair(t, false)
    decreases |s|
  {
    var all := s + [c] + t;
    if s == [] {
      assert Width(all) == 1 && all[..1] == [c] && all[1..] == t;
    } else {
      WidthIsLocal(s, c, t);
      var k := Advance(s);
      assert Advance(all) == k && all[k..] == s[k..] + [c] + t;
      assert Head(all, bad) == Head(s, bad) by { assert all[..k] == s[..k]; }
      RepairSplits(s[k..], c, t, Width(s) == 0);
      Associate(Head(s, bad), Repair(s[k..], Width(s) == 0), c, Repair(t, false));
    }
  }

  lemma Associate(h: Bytes, r: Bytes, c: byte, q: Bytes)
    ensures h + (r + [c] + q) == (h + r) + [c] + q
  {
  }

  lemma NormalizeSplits(s: Bytes, c: byte, t: Bytes)
    requires Ascii(c)
    ensures Normalize(s + [c] + t) == Normalize(s) + [c] + Normalize(t)
  {
    NormalizeIsRepair(s + [c] + t);
    NormalizeIsRepair(s);
    NormalizeIsRepair(t);
    RepairSplits(s, c, t, false);
  }

  lemma {:induction false} RepairInventsNoAscii(s: Bytes, bad: bool, c: byte)
    requires Ascii(c) && c !in s
    ensures c !in Repair(s, bad)
    decreases |s|
  {
    if s == [] {
    } else {
      RepairInventsNoAscii(s[Advance(s)..], Width(s) == 0, c);
    }
  }

  /** Repair does not make up a final ASCII byte either. */
  lemma {:induction false} RepairKeepsLastAscii(s: Bytes, bad: bool)
    ensures Repair(s, bad) != [] && Ascii(Repair(s, bad)[|Repair(s, bad)| - 1]) ==>
      s != [] && s[|s| - 1] == Repair(s, bad)[|Repair(s, bad)| - 1]
    ensures s != [] && !bad ==> Repair(s, bad) != []
    decreases |s|
  {
    if s == [] {
    } else {
      var w := Width(s);
      RepairKeepsLastAscii(s[Advance(s)..], w == 0);
      assert Head(s, bad) != [] ==> Head(s, bad)[|Head(s, bad)| - 1] == if w > 0 then s[w - 1] else 0xBD;
    }
  }

  lemma {:induction false} ValidConcat(s: Bytes, t: Bytes)
    requires Valid(s) && Valid(t)
    ensures Valid(s + t)
    decreases |s|
  {
    if s == [] {
      assert s + t == t;
    } else {
      var w := Width(s);
      assert forall i :: 0 <= i < |s| ==> (s + t)[i] == s[i];
      assert Width(s + t) == w;
      assert (s + t)[w..] == s[w..] + t;
      ValidConcat(s[w..], t);
    }
  }

  /** Whatever comes in, well-formed text comes out, and well-formed text is
      left alone. */
  lemma {:induction false} RepairIsValid(s: Bytes, bad: bool)
    ensures Valid(Repair(s, bad))
    decreases |s|
  {
    if s == [] {
    } else {
      var w := Width(s);
      if w == 0 {
        RepairIsValid(s[1..], true);
        if !bad {
          assert Width(REPLACEMENT) == 3 && REPLACEMENT[3..] == [];
          assert Valid(REPLACEMENT);
          ValidConcat(REPLACEMENT, Repair(s[1..], true));
        } else {
          assert [] + Repair(s[1..], true) == Repair(s[1..], true);
        }
      } else {
        RepairIsValid(s[w..], false);
        var head := s[..w];
        assert forall i :: 0 <= i < w ==> head[i] == s[i];
        assert Width(head) == w && head[w..] == [];
        ValidConcat(head, Repair(s[w..], false));
      }
    }
  }

  lemma NormalizeIsValid(s: Bytes)
    ensures Valid(Normalize(s)) && Normalize(Normalize(s)) == Normalize(s)
  {
    RepairIsValid(s, false);
  }

  // ---------------------------------------------------------------------------
  // Cutting well-formed text
  // ---------------------------------------------------------------------------

  lemma {:induction false} ValidPrefix(s: Bytes, cut: nat)
    requires Valid(s) && cut < |s| && RuneStart(s[cut])
    ensures Valid(s[..cut])
    decreases |s|
  {
    if cut == 0 {
    } else {
      var w := Width(s);
      assert w <= cut;
      ValidPrefix(s[w..], cut - w);
      var head := s[..cut];
      assert forall i :: 0 <= i < cut ==> head[i] == s[i];
      assert Width(head) == w && head[w..] == s[w..][..cut - w];
    }
  }

  /** A character begins at every position or at most three bytes before it. */
  lemma {:induction false} StartIsNear(s: Bytes, cut: nat) returns (at: nat)
    requires Valid(s) && cut < |s|
    ensures at <= cut <= at + 3 && RuneStart(s[at])
    decreases |s|
  {
    var w := Width(s);
    if cut < w {
      at := 0;
    } else {
      at := StartIsNear(s[w..], cut - w);
      at := at + w;
    }
  }
}
