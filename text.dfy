/** Text operations the analysis relies on: whitespace trimming and code-point ordering of strings. */
module Text {

  /**
   * Python's `str.isspace()`: the characters `str.strip()` removes when called
   * without arguments (pandas' `.str.strip()` delegates to it per header).
   */
  predicate IsSpace(c: char)
  {
    var n := c as int;
    (0x09 <= n <= 0x0D) || (0x1C <= n <= 0x20) || n == 0x85 || n == 0xA0 || n == 0x1680
    || (0x2000 <= n <= 0x200A) || n == 0x2028 || n == 0x2029 || n == 0x202F || n == 0x205F
    || n == 0x3000
  }

  /** The C-library `isspace` over ASCII: space, tab, newline, vertical tab, form feed, carriage return. */
  predicate IsAsciiSpace(c: char)
  {
    c == ' ' || ('\t' <= c <= '\r')
  }

  /** The end of the run of `space` characters that starts at index `i`. */
  function SpanFrom(s: string, space: char -> bool, i: nat): (n: nat)
    requires i <= |s|
    ensures i <= n <= |s|
    ensures forall k :: i <= k < n ==> space(s[k])
    ensures n == |s| || !space(s[n])
    decreases |s| - i
  {
    if i < |s| && space(s[i]) then SpanFrom(s, space, i + 1) else i
  }

  /** The start of the run of `space` characters that ends just before index `j`, stopping at `lo`. */
  function SpanBack(s: string, space: char -> bool, lo: nat, j: nat): (n: nat)
    requires lo <= j <= |s|
    ensures lo <= n <= j
    ensures forall k :: n <= k < j ==> space(s[k])
    ensures n == lo || !space(s[n - 1])
  {
    if lo < j && space(s[j - 1]) then SpanBack(s, space, lo, j - 1) else j
  }

  /** Neither the first nor the last character satisfies `space`. */
  predicate NoEdgeBy(s: string, space: char -> bool)
  {
    s == [] || (!space(s[0]) && !space(s[|s| - 1]))
  }

  /** Removes leading and trailing characters that satisfy `space`. */
  function StripBy(s: string, space: char -> bool): (r: string)
    ensures NoEdgeBy(r, space)
  {
    var i := SpanFrom(s, space, 0);
    s[i..SpanBack(s, space, i, |s|)]
  }

  /** Python's `str.strip()` with no argument. */
  function Strip(s: string): string
  {
    StripBy(s, IsSpace)
  }

  /** A header free of leading and trailing whitespace. */
  predicate IsStripped(s: string)
  {
    NoEdgeBy(s, IsSpace)
  }

  /**
   * `r` is the piece of `s` that starts at index `i`, and everything of `s`
   * before and after that piece satisfies `space`.
   */
  predicate MiddleAt(s: string, r: string, space: char -> bool, i: int)
  {
    0 <= i && i + |r| <= |s| && r == s[i..i + |r|]
    && (forall k :: 0 <= k < i ==> space(s[k]))
    && (forall k :: i + |r| <= k < |s| ==> space(s[k]))
  }

  /**
   * Stripping by any character class keeps one contiguous piece of the text
   * and removes only characters of that class on either side of it.
   */
  lemma StripByKeepsMiddle(s: string, space: char -> bool)
    ensures exists i :: MiddleAt(s, StripBy(s, space), space, i)
  {
    var i := SpanFrom(s, space, 0);
    var r := StripBy(s, space);
    assert r == s[i..i + |r|];
    assert MiddleAt(s, r, space, i);
  }

  /** Stripping leaves a string with no edge characters of the given class unchanged. */
  lemma StripByFixpoint(s: string, space: char -> bool)
    requires NoEdgeBy(s, space)
    ensures StripBy(s, space) == s
  {
    if s != [] {
      assert SpanFrom(s, space, 0) == 0;
      assert SpanBack(s, space, 0, |s|) == |s|;
    }
  }

  /** A string is its own strip exactly when it has no edge whitespace. */
  lemma StripFixpoint(s: string)
    ensures Strip(s) == s <==> IsStripped(s)
  {
    if IsStripped(s) {
      StripByFixpoint(s, IsSpace);
    }
  }

  /** Python's `<` on `str`: lexicographic by code point, a proper prefix first. */
  predicate LexLess(a: string, b: string)
  {
    if a == [] then b != []
    else b != [] && (a[0] < b[0] || (a[0] == b[0] && LexLess(a[1..], b[1..])))
  }

  lemma {:induction false} LexLessIrreflexive(a: string)
    ensures !LexLess(a, a)
  {
    if a != [] {
      LexLessIrreflexive(a[1..]);
    }
  }

  lemma {:induction false} LexLessTransitive(a: string, b: string, c: string)
    requires LexLess(a, b) && LexLess(b, c)
    ensures LexLess(a, c)
  {
    if a != [] && a[0] == b[0] && b[0] == c[0] {
      LexLessTransitive(a[1..], b[1..], c[1..]);
    }
  }

  lemma {:induction false} LexLessTotal(a: string, b: string)
    requires a != b
    ensures LexLess(a, b) || LexLess(b, a)
  {
    if a != [] && b != [] && a[0] == b[0] {
      assert a == [a[0]] + a[1..] && b == [b[0]] + b[1..];
      LexLessTotal(a[1..], b[1..]);
    }
  }
}
