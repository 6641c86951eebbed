/** Python's `str.strip()` with no argument, over Python's whitespace set. */
module Text {

  /** The characters for which Python's `str.isspace()` holds (and which
      `str.strip()` removes by default). The proofs about sentences depend on
      this set only through the fact that the terminators are not in it. */
  predicate IsSpace(c: char)
  {
    var n := c as int;
    (0x09 <= n <= 0x0D) || (0x1C <= n <= 0x20) || n == 0x85 || n == 0xA0 ||
    n == 0x1680 || (0x2000 <= n <= 0x200A) || n == 0x2028 || n == 0x2029 ||
    n == 0x202F || n == 0x205F || n == 0x3000
  }

  /** Number of whitespace characters at the start of `s`. */
  function LeadingSpaces(s: string): (n: nat)
  {
    if |s| > 0 && IsSpace(s[0]) then 1 + LeadingSpaces(s[1..]) else 0
  }

  /** LeadingSpaces counts the longest all-whitespace prefix. */
  lemma {:induction false} LeadingSpacesSpec(s: string)
    ensures var n := LeadingSpaces(s);
      n <= |s| && (forall k :: 0 <= k < n ==> IsSpace(s[k])) && (n < |s| ==> !IsSpace(s[n]))
  {
    if |s| > 0 && IsSpace(s[0]) {
      LeadingSpacesSpec(s[1..]);
    }
  }

  /** Number of whitespace characters at the end of `s`. */
  function TrailingSpaces(s: string): (n: nat)
  {
    if |s| > 0 && IsSpace(s[|s| - 1]) then 1 + TrailingSpaces(s[..|s| - 1]) else 0
  }

  /** TrailingSpaces counts the longest all-whitespace suffix. */
  lemma {:induction false} TrailingSpacesSpec(s: string)
    ensures var n := TrailingSpaces(s);
      n <= |s| && (forall k :: |s| - n <= k < |s| ==> IsSpace(s[k])) &&
      (n < |s| ==> !IsSpace(s[|s| - 1 - n]))
  {
    if |s| > 0 && IsSpace(s[|s| - 1]) {
      TrailingSpacesSpec(s[..|s| - 1]);
    }
  }

  /** Every character of `s` is whitespace. */
  predicate AllSpace(s: string)
  {
    forall k :: 0 <= k < |s| ==> IsSpace(s[k])
  }

  /** `s.strip()`: the window of `s` left after dropping the whitespace on
      both sides (StripEmpty, StripEnds and StripWindow characterise it). */
  function Strip(s: string): (r: string)
  {
    LeadingSpacesSpec(s);
    TrailingSpacesSpec(s);
    var a := LeadingSpaces(s);
    if a == |s| then [] else s[a..|s| - TrailingSpaces(s)]
  }

  /** Stripping leaves nothing exactly when `s` is all whitespace. */
  lemma StripEmpty(s: string)
    ensures Strip(s) == [] <==> AllSpace(s)
  {
    LeadingSpacesSpec(s);
    TrailingSpacesSpec(s);
  }

  /** A non-empty stripped string neither starts nor ends with whitespace. */
  lemma StripEnds(s: string)
    requires Strip(s) != []
    ensures var r := Strip(s); !IsSpace(r[0]) && !IsSpace(r[|r| - 1])
  {
    LeadingSpacesSpec(s);
    TrailingSpacesSpec(s);
  }

  /** A non-empty stripped string is the window of `s` that starts after the
      leading whitespace; only whitespace follows it. */
  lemma StripWindow(s: string)
    requires Strip(s) != []
    ensures var a, r := LeadingSpaces(s), Strip(s);
      a + |r| <= |s| && r == s[a..a + |r|] &&
      forall k :: a + |r| <= k < |s| ==> IsSpace(s[k])
  {
    LeadingSpacesSpec(s);
    TrailingSpacesSpec(s);
  }

  /** The leading whitespace of a prefix is that of the whole string, as soon
      as the prefix reaches a non-whitespace character. */
  lemma {:induction false} LeadingSpacesOfPrefix(s: string, n: nat)
    requires n <= |s|
    requires exists k :: 0 <= k < n && !IsSpace(s[k])
    ensures LeadingSpaces(s[..n]) == LeadingSpaces(s)
  {
    if IsSpace(s[0]) {
      var k :| 0 <= k < n && !IsSpace(s[k]);
      assert k > 0;
      assert s[..n][1..] == s[1..][..n - 1];
      assert !IsSpace(s[1..][k - 1]);
      LeadingSpacesOfPrefix(s[1..], n - 1);
    }
  }

  /** A string that ends in a non-whitespace character keeps its end when
      stripped: its stripped form runs from the first non-whitespace
      character to the very end. */
  lemma StripKeepsEnd(s: string)
    requires |s| > 0 && !IsSpace(s[|s| - 1])
    ensures LeadingSpaces(s) < |s|
    ensures Strip(s) == s[LeadingSpaces(s)..]
  {
    LeadingSpacesSpec(s);
    assert TrailingSpaces(s) == 0;
  }

  /** A prefix of `s` that ends in a non-whitespace character strips to the
      window of `s` from its first non-whitespace character to that end. */
  lemma StripPrefixKeepsEnd(s: string, n: nat)
    requires 0 < n <= |s| && !IsSpace(s[n - 1])
    ensures LeadingSpaces(s) < n
    ensures Strip(s[..n]) == s[LeadingSpaces(s)..n]
  {
    var pre := s[..n];
    assert pre[n - 1] == s[n - 1];
    StripKeepsEnd(pre);
    LeadingSpacesOfPrefix(s, n);
    SliceOfPrefix(s, LeadingSpaces(s), n);
  }

  /** A string that neither starts nor ends with whitespace strips to
      itself. */
  lemma StripUnchanged(s: string)
    requires |s| > 0 && !IsSpace(s[0]) && !IsSpace(s[|s| - 1])
    ensures Strip(s) == s
  {
    assert LeadingSpaces(s) == 0;
    assert TrailingSpaces(s) == 0;
  }

  /** Stripping twice is stripping once. */
  lemma StripIdempotent(s: string)
    ensures Strip(Strip(s)) == Strip(s)
  {
    var r := Strip(s);
    if r != [] {
      StripEnds(s);
      assert LeadingSpaces(r) == 0;
      assert TrailingSpaces(r) == 0;
    }
  }

  /** Cutting a window short at `i` is cutting the string at `i`. */
  lemma PrefixOfWindow(s: string, a: nat, i: nat, j: nat)
    requires a <= i <= j <= |s|
    ensures s[a..j][..i - a] == s[a..i]
  {
  }

  /** Dropping a prefix of `x` from `x + c` keeps all of `c`. */
  lemma DropAppend(x: string, c: string, a: nat)
    requires a <= |x|
    ensures (x + c)[a..] == x[a..] + c
  {
  }

  /** A window of a prefix is a window of the whole. */
  lemma SliceOfPrefix(s: string, a: nat, n: nat)
    requires a <= n <= |s|
    ensures s[..n][a..] == s[a..n]
  {
  }
}
