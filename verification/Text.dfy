/** The string operations of Go's standard library that the program relies on.
    A char stands for one code point; every function here looks at single
    characters only. */
module Text {

  /** unicode.IsSpace */
  predicate IsSpace(c: char) {
    || '\t' <= c <= '\r' || c == ' ' || c == '\U{85}' || c == '\U{A0}'
    || c == '\U{1680}' || '\U{2000}' <= c <= '\U{200A}' || '\U{2028}' <= c <= '\U{2029}'
    || c == '\U{202F}' || c == '\U{205F}' || c == '\U{3000}'
  }

  /** The characters with the property White_Space, by number. */
  lemma IsSpaceIff(c: char)
    ensures IsSpace(c) <==>
      (c as int) in {
        9, 10, 11, 12, 13, 32, 133, 160, 5760,
        8192, 8193, 8194, 8195, 8196, 8197, 8198, 8199, 8200, 8201, 8202,
        8232, 8233, 8239, 8287, 12288}
  {
  }

  function TrimLeft(s: string): string {
    if s != "" && IsSpace(s[0]) then TrimLeft(s[1..]) else s
  }

  function TrimRight(s: string): string {
    if s != "" && IsSpace(s[|s| - 1]) then TrimRight(s[..|s| - 1]) else s
  }

  /** strings.TrimSpace */
  function TrimSpace(s: string): string {
    TrimRight(TrimLeft(s))
  }

  predicate Trimmed(s: string) {
    s != "" ==> !IsSpace(s[0]) && !IsSpace(s[|s| - 1])
  }

  lemma {:induction false} TrimRightShape(s: string)
    ensures TrimRight(s) <= s
    ensures TrimRight(s) != "" ==> !IsSpace(TrimRight(s)[|TrimRight(s)| - 1])
    ensures forall i :: |TrimRight(s)| <= i < |s| ==> IsSpace(s[i])
  {
    if s != "" && IsSpace(s[|s| - 1]) {
      TrimRightShape(s[..|s| - 1]);
    }
  }

  lemma {:induction false} TrimLeftShape(s: string)
    ensures |TrimLeft(s)| <= |s| && TrimLeft(s) == s[|s| - |TrimLeft(s)|..]
    ensures TrimLeft(s) != "" ==> !IsSpace(TrimLeft(s)[0])
    ensures forall i :: 0 <= i < |s| - |TrimLeft(s)| ==> IsSpace(s[i])
  {
    if s != "" && IsSpace(s[0]) {
      TrimLeftShape(s[1..]);
      var n := |s| - |TrimLeft(s)|;
      forall i | 0 <= i < n ensures IsSpace(s[i]) {
        if i > 0 { assert s[i] == s[1..][i - 1]; }
      }
    }
  }

  /** TrimSpace cuts a window whose ends are not spaces and leaves a trimmed
      string alone. */
  lemma TrimSpaceShape(s: string)
    ensures Trimmed(TrimSpace(s))
    ensures Trimmed(s) ==> TrimSpace(s) == s
    ensures TrimSpace(TrimSpace(s)) == TrimSpace(s)
    ensures forall c :: c in TrimSpace(s) ==> c in s
  {
    TrimLeftShape(s);
    TrimRightShape(TrimLeft(s));
    var t := TrimSpace(s);
    TrimLeftShape(t);
    TrimRightShape(t);
  }

  lemma {:induction false} BlankIsAllSpaces(s: string)
    ensures TrimSpace(s) == "" <==> forall i :: 0 <= i < |s| ==> IsSpace(s[i])
  {
    TrimLeftShape(s);
    TrimRightShape(TrimLeft(s));
    var t := TrimLeft(s);
    if TrimSpace(s) != "" {
      assert t[0] == s[|s| - |t|];
    }
  }

  /** strings.ToLower, given the case table. */
  function Lower(lower: char -> char, s: string): (r: string)
    ensures |r| == |s| && forall i :: 0 <= i < |s| ==> r[i] == lower(s[i])
  {
    seq(|s|, i requires 0 <= i < |s| => lower(s[i]))
  }

  // ---------------------------------------------------------------------------
  // strings.Split and strings.Join on one separator character
  // ---------------------------------------------------------------------------

  function Split(s: string, sep: char): (parts: seq<string>)
    ensures |parts| >= 1
    ensures forall p :: p in parts ==> sep !in p
  {
    if s == "" then [""]
    else
      var rest := Split(s[1..], sep);
      if s[0] == sep then [""] + rest
      else
        var head := [s[0]] + rest[0];
        assert sep !in head;
        [head] + rest[1..]
  }

  function Join(parts: seq<string>, sep: char): string {
    if parts == [] then ""
    else if |parts| == 1 then parts[0]
    else parts[0] + [sep] + Join(parts[1..], sep)
  }

  lemma {:induction false} SplitOfSolid(p: string, sep: char)
    requires sep !in p
    ensures Split(p, sep) == [p]
  {
    if p == "" {
    } else {
      SplitOfSolid(p[1..], sep);
      assert [p[0]] + p[1..] == p;
    }
  }

  lemma {:induction false} SplitAtSep(p: string, rest: string, sep: char)
    requires sep !in p
    ensures Split(p + [sep] + rest, sep) == [p] + Split(rest, sep)
  {
    var s := p + [sep] + rest;
    if p == "" {
      assert s[1..] == rest;
    } else {
      assert s[1..] == p[1..] + [sep] + rest;
      SplitAtSep(p[1..], rest, sep);
      assert [p[0]] + p[1..] == p;
    }
  }

  /** Splitting undoes joining. */
  lemma {:induction false} SplitJoin(parts: seq<string>, sep: char)
    requires parts != [] && forall p :: p in parts ==> sep !in p
    ensures Split(Join(parts, sep), sep) == parts
  {
    if |parts| == 1 {
      SplitOfSolid(parts[0], sep);
    } else {
      SplitJoin(parts[1..], sep);
      SplitAtSep(parts[0], Join(parts[1..], sep), sep);
    }
  }

  // ---------------------------------------------------------------------------
  // Decimal numbers
  // ---------------------------------------------------------------------------

  function Digit(d: nat): char
    requires d < 10
  {
    '0' + d as char
  }

  function Decimal(n: nat): string {
    if n < 10 then [Digit(n)] else Decimal(n / 10) + [Digit(n % 10)]
  }

  /** strconv.Itoa */
  function IntText(n: int): string { if n < 0 then ['-'] + Decimal(-n) else Decimal(n) }

  function Value(s: string): int {
    if s == "" then 0
    else 10 * Value(s[..|s| - 1]) + (s[|s| - 1] as int - '0' as int)
  }

  lemma {:induction false} DecimalRoundTrip(n: nat)
    ensures Value(Decimal(n)) == n
    ensures Decimal(n) != "" && forall c :: c in Decimal(n) ==> '0' <= c <= '9'
  {
    if n < 10 {
      assert Decimal(n)[..0] == "";
    } else {
      DecimalRoundTrip(n / 10);
      assert Decimal(n)[..|Decimal(n)| - 1] == Decimal(n / 10);
    }
  }

  lemma DecimalInjective(m: nat, n: nat)
    requires Decimal(m) == Decimal(n)
    ensures m == n
  {
    DecimalRoundTrip(m);
    DecimalRoundTrip(n);
  }

  /** Appending different numbers to one stem gives different strings. */
  lemma SuffixInjective(stem: string, m: nat, n: nat)
    requires stem + Decimal(m) == stem + Decimal(n)
    ensures m == n
  {
    assert (stem + Decimal(m))[|stem|..] == Decimal(m);
    assert (stem + Decimal(n))[|stem|..] == Decimal(n);
    DecimalInjective(m, n);
  }

  /** The last separator splits a string in one way only. */
  lemma LastSeparator(a: string, c: string, b: string, d: string, sep: char)
    requires a + [sep] + c == b + [sep] + d && sep !in c && sep !in d
    ensures a == b && c == d
  {
    var s, t := a + [sep] + c, b + [sep] + d;
    assert s[|a|] == sep && t[|b|] == sep;
    assert forall k :: |a| < k < |s| ==> s[k] == c[k - |a| - 1];
    assert forall k :: |b| < k < |t| ==> t[k] == d[k - |b| - 1];
    assert |a| == |b|;
    assert s[..|a|] == a && t[..|a|] == b;
    assert s[|a| + 1..] == c && t[|a| + 1..] == d;
  }
}
