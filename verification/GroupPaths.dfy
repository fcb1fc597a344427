/** Group paths (guis/connection_manager.go, normalizeConnectionGroup;
    guis/group_rename.go, groupContainsPath): strings whose components stand
    between slashes. */
module GroupPaths {
  import opened Text

  function Trims(parts: seq<string>): seq<string> {
    if parts == [] then []
    else
      var n := |parts| - 1;
      var part := TrimSpace(parts[n]);
      Trims(parts[..n]) + if part == "" then [] else [part]
  }

  /** The components of a group path. */
  function Parts(group: string): seq<string> { Trims(Split(group, '/')) }

  function Path(parts: seq<string>): string { Join(parts, '/') }

  function Normalized(group: string): string { Path(Parts(group)) }

  method NormalizeConnectionGroup(group: string) returns (r: string)
    ensures r == Normalized(group)
  {
    var parts := Split(group, '/');
    var normalized: seq<string> := [];
    for i := 0 to |parts|
      invariant normalized == Trims(parts[..i])
    {
      assert parts[..i + 1][..i] == parts[..i];
      var part := TrimSpace(parts[i]);
      if part != "" {
        normalized := normalized + [part];
      }
    }
    assert parts[..|parts|] == parts;
    return Join(normalized, '/');
  }

  // ---------------------------------------------------------------------------
  // Paths and component lists
  // ---------------------------------------------------------------------------

  predicate Component(p: string) { p != "" && Trimmed(p) && '/' !in p }

  predicate Good(parts: seq<string>) { forall i :: 0 <= i < |parts| ==> Component(parts[i]) }

  lemma {:induction false} TrimsGood(parts: seq<string>)
    requires forall i :: 0 <= i < |parts| ==> '/' !in parts[i]
    ensures Good(Trims(parts))
  {
    if parts != [] {
      var n := |parts| - 1;
      TrimsGood(parts[..n]);
      TrimSpaceShape(parts[n]);
    }
  }

  lemma {:induction false} TrimsKeepsGood(parts: seq<string>)
    requires Good(parts)
    ensures Trims(parts) == parts
  {
    if parts != [] {
      var n := |parts| - 1;
      var init, last := parts[..n], parts[n];
      assert Good(init) && Component(last);
      TrimsKeepsGood(init);
      TrimSpaceShape(last);
      assert TrimSpace(last) == last;
      assert init + [last] == parts;
    }
  }

  lemma {:induction false} TrimsConcat(a: seq<string>, b: seq<string>)
    ensures Trims(a + b) == Trims(a) + Trims(b)
    decreases |b|
  {
    if b == [] {
      assert a + b == a;
    } else {
      var n := |b| - 1;
      assert (a + b)[..|a + b| - 1] == a + b[..n];
      TrimsConcat(a, b[..n]);
    }
  }

  lemma PartsAreGood(group: string)
    ensures Good(Parts(group))
  {
    var parts := Split(group, '/');
    assert forall i :: 0 <= i < |parts| ==> parts[i] in parts;
    TrimsGood(parts);
  }

  lemma SplitPath(parts: seq<string>)
    requires Good(parts) && parts != []
    ensures Split(Path(parts), '/') == parts
  {
    SplitJoin(parts, '/');
  }

  /** A list of good components is read back from its path. */
  lemma PartsOfPath(parts: seq<string>)
    requires Good(parts)
    ensures Parts(Path(parts)) == parts
  {
    if parts == [] {
      assert Split("", '/') == [""];
      TrimsOfBlank();
    } else {
      SplitPath(parts);
      TrimsKeepsGood(parts);
    }
  }

  lemma TrimsOfBlank()
    ensures Trims([""]) == []
  {
    assert [""][..0] == [];
  }

  /** Normalizing keeps the components, so doing it again changes nothing. */
  lemma NormalizedIsStable(group: string)
    ensures Parts(Normalized(group)) == Parts(group)
    ensures Normalized(Normalized(group)) == Normalized(group)
    ensures Normalized(group) == "" <==> Parts(group) == []
  {
    PartsAreGood(group);
    PartsOfPath(Parts(group));
    PartsOfPath([]);
  }

  lemma PathInjective(a: seq<string>, b: seq<string>)
    requires Good(a) && Good(b) && Path(a) == Path(b)
    ensures a == b
  {
    PartsOfPath(a);
    PartsOfPath(b);
  }

  lemma {:induction false} SplitConcat(x: string, y: string)
    ensures Split(x + ['/'] + y, '/') == Split(x, '/') + Split(y, '/')
  {
    var s := x + ['/'] + y;
    if x == "" {
      assert s[1..] == y;
    } else {
      assert s[1..] == x[1..] + ['/'] + y;
      SplitConcat(x[1..], y);
    }
  }

  lemma PartsConcat(x: string, y: string)
    ensures Parts(x + ['/'] + y) == Parts(x) + Parts(y)
  {
    SplitConcat(x, y);
    TrimsConcat(Split(x, '/'), Split(y, '/'));
  }

  lemma {:induction false} PathConcat(a: seq<string>, b: seq<string>)
    requires a != [] && b != []
    ensures Path(a + b) == Path(a) + ['/'] + Path(b)
  {
    if |a| == 1 {
      assert (a + b)[1..] == b;
    } else {
      assert (a + b)[1..] == a[1..] + b;
      PathConcat(a[1..], b);
    }
  }

  // ---------------------------------------------------------------------------
  // Containment
  // ---------------------------------------------------------------------------

  /** The test of the program on normalized strings. */
  predicate StringContains(parent: string, candidate: string) {
    candidate == parent || parent + ['/'] <= candidate
  }

  /** groupContainsPath */
  predicate GroupContainsPath(parent: string, candidate: string) {
    Normalized(parent) != "" && StringContains(Normalized(parent), Normalized(candidate))
  }

  /** On normalized paths the string test is the prefix test on components: "a"
      does not contain "ab". */
  lemma ContainsIsPrefix(a: seq<string>, b: seq<string>)
    requires Good(a) && Good(b) && a != []
    ensures StringContains(Path(a), Path(b)) <==> a <= b
  {
    var x, y := Path(a), Path(b);
    if a <= b {
      var c := b[|a|..];
      assert b == a + c;
      if c != [] { PathConcat(a, c); } else { assert b == a; }
    }
    if x == y {
      PathInjective(a, b);
    } else if x + ['/'] <= y {
      var rest := y[|x| + 1..];
      assert y == x + ['/'] + rest;
      SplitConcat(x, rest);
      SplitPath(a);
      if b != [] { SplitPath(b); }
      assert b == a + Split(rest, '/');
    }
  }

  lemma GroupContainsIff(parent: string, candidate: string)
    ensures GroupContainsPath(parent, candidate) <==> Parts(parent) != [] && Parts(parent) <= Parts(candidate)
  {
    PartsAreGood(parent);
    PartsAreGood(candidate);
    NormalizedIsStable(parent);
    if Parts(parent) != [] {
      ContainsIsPrefix(Parts(parent), Parts(candidate));
    }
  }
}
