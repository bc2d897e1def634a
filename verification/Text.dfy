/** Text primitives the bot relies on, written out in the terms Python gives them:
    `str.strip()` with no argument, `str.startswith`, and the code-point
    ordering of `str` that `sorted` uses for the date key. */
module Text {

  /** The characters for which Python's `str.isspace()` holds; `str.strip()`
      with no argument removes exactly these from both ends. */
  predicate IsSpace(c: char)
  {
    || ('\t' <= c <= '\r')                   // tab, line feed, vertical tab, form feed, carriage return
    || ('\U{1C}' <= c <= ' ')                 // file, group, record and unit separators; space
    || c == '\U{85}' || c == '\U{A0}' || c == '\U{1680}'
    || ('\U{2000}' <= c <= '\U{200A}')       // en quad .. hair space
    || c == '\U{2028}' || c == '\U{2029}' || c == '\U{202F}' || c == '\U{205F}'
    || c == '\U{3000}'                       // ideographic space
  }

  predicate AllSpace(s: string)
  {
    forall k :: 0 <= k < |s| ==> IsSpace(s[k])
  }

  /** A string that `strip()` leaves alone: it neither starts nor ends with whitespace. */
  predicate IsStripped(s: string)
  {
    s == [] || (!IsSpace(s[0]) && !IsSpace(s[|s| - 1]))
  }

  /** Python's `str.strip()`: whitespace removed from both ends. */
  function Strip(s: string): string
    decreases |s|
  {
    if s != [] && IsSpace(s[0]) then Strip(s[1..])
    else if s != [] && IsSpace(s[|s| - 1]) then Strip(s[..|s| - 1])
    else s
  }

  /** `s` is `core` with only whitespace around it, `core` starting at index `i`. */
  predicate PaddedBy(s: string, i: nat, core: string)
  {
    i + |core| <= |s| && core == s[i..i + |core|] && AllSpace(s[..i]) && AllSpace(s[i + |core|..])
  }

  lemma PadFront(c: char, t: string, j: nat, core: string)
    requires IsSpace(c) && PaddedBy(t, j, core)
    ensures PaddedBy([c] + t, j + 1, core)
  {
    var s := [c] + t;
    assert s[j + 1..j + 1 + |core|] == t[j..j + |core|];
    assert s[j + 1 + |core|..] == t[j + |core|..];
    var head := s[..j + 1];
    forall k | 0 <= k < |head| ensures IsSpace(head[k]) {
      if k > 0 { assert head[k] == t[..j][k - 1]; }
    }
  }

  lemma PadBack(t: string, c: char, j: nat, core: string)
    requires IsSpace(c) && PaddedBy(t, j, core)
    ensures PaddedBy(t + [c], j, core)
  {
    var s := t + [c];
    assert s[j..j + |core|] == t[j..j + |core|];
    assert s[..j] == t[..j];
    var tail := s[j + |core|..];
    assert tail == t[j + |core|..] + [c];
    forall k | 0 <= k < |tail| ensures IsSpace(tail[k]) {
      if k < |t[j + |core|..]| { assert tail[k] == t[j + |core|..][k]; }
    }
  }

  lemma Uncons<T>(s: seq<T>)
    requires s != []
    ensures s == [s[0]] + s[1..] && s == s[..|s| - 1] + [s[|s| - 1]]
  {
  }

  // Sequence regroupings that proofs elsewhere cite by name, so that the
  // terms they produce match the shapes the recursive definitions unfold to.

  lemma Regroup<T>(x: seq<T>, y: seq<T>, z: seq<T>)
    ensures x + (y + z) == (x + y) + z
  {
  }

  lemma SplitFirst<T>(a: seq<T>, b: seq<T>)
    requires a != []
    ensures a + b == [a[0]] + (a[1..] + b)
  {
  }

  lemma SingleShape<T>(xs: seq<T>)
    requires |xs| == 1
    ensures xs == [xs[0]] && [] + xs == xs
  {
  }

  lemma JoinShape<T>(a: seq<T>, xs: seq<T>)
    requires |xs| > 0
    ensures a + [xs[0]] + xs[1..] == a + xs && [] + xs == xs
  {
    assert xs == [xs[0]] + xs[1..];
  }

  /** What `Strip` leaves and removes: the result neither starts nor ends with
      whitespace, it is an infix of `s`, and everything cut away on either side
      of it is whitespace. */
  lemma {:induction false} StripShape(s: string) returns (i: nat)
    ensures IsStripped(Strip(s)) && PaddedBy(s, i, Strip(s))
    decreases |s|
  {
    if s != [] && IsSpace(s[0]) {
      var j := StripShape(s[1..]);
      PadFront(s[0], s[1..], j, Strip(s));
      Uncons(s);
      i := j + 1;
    } else if s != [] && IsSpace(s[|s| - 1]) {
      i := StripShape(s[..|s| - 1]);
      PadBack(s[..|s| - 1], s[|s| - 1], i, Strip(s));
      Uncons(s);
    } else {
      i := 0;
    }
  }

  /** Strip is determined by the decomposition it promises: whitespace, then
      a stripped core, then whitespace, strips to exactly that core. */
  lemma {:induction false} StripOfPadded(a: string, core: string, b: string)
    requires AllSpace(a) && AllSpace(b) && IsStripped(core)
    ensures Strip(a + core + b) == core
    decreases |a| + |b|
  {
    if a != [] {
      SpaceParts(a);
      StripOfPadded(a[1..], core, b);
      PaddedFront(a, core, b);
    } else if core == [] && b != [] {
      SpaceParts(b);
      StripOfPadded([], [], b[1..]);
      PaddedOnlySpace(b);
    } else if b != [] {
      SpaceParts(b);
      StripOfPadded([], core, b[..|b| - 1]);
      PaddedBack(core, b);
    } else {
      assert a + core + b == core;
    }
  }

  lemma SpaceParts(a: string)
    requires AllSpace(a) && a != []
    ensures AllSpace(a[1..]) && AllSpace(a[..|a| - 1]) && IsSpace(a[0]) && IsSpace(a[|a| - 1])
  {
    assert forall k :: 0 <= k < |a| - 1 ==> a[1..][k] == a[k + 1] && a[..|a| - 1][k] == a[k];
  }

  lemma PaddedFront(a: string, core: string, b: string)
    requires a != [] && IsSpace(a[0]) && Strip(a[1..] + core + b) == core
    ensures Strip(a + core + b) == core
  {
    var s := a + core + b;
    assert s[0] == a[0];
    assert s[1..] == a[1..] + core + b;
  }

  lemma PaddedOnlySpace(b: string)
    requires b != [] && IsSpace(b[0]) && Strip([] + [] + b[1..]) == []
    ensures Strip([] + [] + b) == []
  {
    assert [] + [] + b == b && [] + [] + b[1..] == b[1..];
  }

  lemma PaddedBack(core: string, b: string)
    requires core != [] && !IsSpace(core[0]) && b != [] && IsSpace(b[|b| - 1])
    requires Strip([] + core + b[..|b| - 1]) == core
    ensures Strip([] + core + b) == core
  {
    var s := [] + core + b;
    assert s[0] == core[0];
    assert s[|s| - 1] == b[|b| - 1];
    assert s[..|s| - 1] == [] + core + b[..|b| - 1];
  }

  /** Stripping twice is stripping once. */
  lemma StripIdempotent(s: string)
    ensures Strip(Strip(s)) == Strip(s)
  {
    var _ := StripShape(s);
    StripOfPadded([], Strip(s), []);
    assert [] + Strip(s) + [] == Strip(s);
  }

  /** Python's `str.startswith`. */
  predicate StartsWith(s: string, prefix: string)
  {
    |prefix| <= |s| && s[..|prefix|] == prefix
  }

  /** Python's `<=` on `str`: lexicographic by code point, a proper prefix first. */
  predicate Le(a: string, b: string)
    decreases |a|
  {
    if a == [] then true
    else if b == [] then false
    else if a[0] != b[0] then a[0] < b[0]
    else Le(a[1..], b[1..])
  }

  lemma {:induction false} LeReflexive(a: string)
    ensures Le(a, a)
    decreases |a|
  {
    if a != [] {
      LeReflexive(a[1..]);
    }
  }

  lemma {:induction false} LeTotal(a: string, b: string)
    ensures Le(a, b) || Le(b, a)
    decreases |a|
  {
    if a != [] && b != [] && a[0] == b[0] {
      LeTotal(a[1..], b[1..]);
    }
  }

  lemma {:induction false} LeAntisymmetric(a: string, b: string)
    requires Le(a, b) && Le(b, a)
    ensures a == b
    decreases |a|
  {
    if a != [] {
      LeAntisymmetric(a[1..], b[1..]);
      assert a == [a[0]] + a[1..] && b == [b[0]] + b[1..];
    }
  }

  lemma {:induction false} LeTransitive(a: string, b: string, c: string)
    requires Le(a, b) && Le(b, c)
    ensures Le(a, c)
    decreases |a|
  {
    if a != [] && b != [] && c != [] && a[0] == b[0] && b[0] == c[0] {
      LeTransitive(a[1..], b[1..], c[1..]);
    }
  }
}
