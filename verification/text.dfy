/** Characters and the string trimming the page script relies on.

    In ECMAScript both `String.prototype.trim` and the regular-expression
    class `\s` are defined over the same set of code points: the WhiteSpace
    production (tab, vertical tab, form feed, space, no-break space, the
    byte order mark and every other "Zs" space separator) together with the
    LineTerminator production (line feed, carriage return, line separator,
    paragraph separator). `IsWhitespace` is that set. */
module Text {

  const WhitespaceChars: set<char> := {
    '\t', '\n', '\U{000B}', '\U{000C}', '\r', ' ', '\U{00A0}', '\U{1680}',
    '\U{2000}', '\U{2001}', '\U{2002}', '\U{2003}', '\U{2004}', '\U{2005}',
    '\U{2006}', '\U{2007}', '\U{2008}', '\U{2009}', '\U{200A}',
    '\U{2028}', '\U{2029}', '\U{202F}', '\U{205F}', '\U{3000}', '\U{FEFF}'
  }

  predicate IsWhitespace(c: char) {
    c in WhitespaceChars
  }

  /** True iff every character of `s` at an index in [lo, hi) is whitespace. */
  predicate WhitespaceBetween(s: string, lo: int, hi: int)
    requires 0 <= lo <= hi <= |s|
  {
    forall k | lo <= k < hi :: IsWhitespace(s[k])
  }

  /** True iff every character of `s` is whitespace (vacuously for ""). */
  predicate AllWhitespace(s: string) {
    WhitespaceBetween(s, 0, |s|)
  }

  /** True iff no character of `s` is whitespace. */
  predicate NoWhitespace(s: string) {
    forall k | 0 <= k < |s| :: !IsWhitespace(s[k])
  }

  /** The number of whitespace characters at the start of `s`: every
      character before that index is whitespace and the one at it is not. */
  function LeadingWhitespace(s: string): (n: nat)
    ensures n <= |s| && WhitespaceBetween(s, 0, n)
    ensures n == |s| || !IsWhitespace(s[n])
  {
    if |s| > 0 && IsWhitespace(s[0]) then
      var m := LeadingWhitespace(s[1..]);
      assert forall k | 1 <= k < 1 + m :: s[k] == s[1..][k - 1];
      1 + m
    else 0
  }

  /** The number of whitespace characters at the end of `s`: every
      character from that distance to the end is whitespace and the one just
      before is not. */
  function TrailingWhitespace(s: string): (n: nat)
    ensures n <= |s| && WhitespaceBetween(s, |s| - n, |s|)
    ensures n == |s| || !IsWhitespace(s[|s| - n - 1])
  {
    if |s| > 0 && IsWhitespace(s[|s| - 1]) then
      var m := TrailingWhitespace(s[..|s| - 1]);
      assert forall k | |s| - 1 - m <= k < |s| - 1 :: s[k] == s[..|s| - 1][k];
      1 + m
    else 0
  }

  /** Only one count fits the characterisation of `LeadingWhitespace`. */
  lemma LeadingWhitespaceUnique(s: string, n: nat)
    requires n <= |s| && WhitespaceBetween(s, 0, n)
    requires n == |s| || !IsWhitespace(s[n])
    ensures n == LeadingWhitespace(s)
  {
  }

  /** Only one count fits the characterisation of `TrailingWhitespace`. */
  lemma TrailingWhitespaceUnique(s: string, n: nat)
    requires n <= |s| && WhitespaceBetween(s, |s| - n, |s|)
    requires n == |s| || !IsWhitespace(s[|s| - n - 1])
    ensures n == TrailingWhitespace(s)
  {
  }

  /** Where `Trim(s)` starts in `s`. */
  function TrimFrom(s: string): (i: nat)
    ensures i <= |s|
  {
    LeadingWhitespace(s)
  }

  /** Where `Trim(s)` ends in `s` (exclusive). */
  function TrimTo(s: string): (j: nat)
    ensures TrimFrom(s) <= j <= |s|
  {
    if LeadingWhitespace(s) == |s| then |s| else |s| - TrailingWhitespace(s)
  }

  /** `String.prototype.trim`: the text left after removing whitespace at
      both ends. It is empty exactly when `s` is all whitespace; otherwise it
      neither starts nor ends with whitespace; and it is the piece of `s`
      between two runs of whitespace. */
  function Trim(s: string): (r: string)
    ensures r == [] <==> AllWhitespace(s)
    ensures r != [] ==> !IsWhitespace(r[0]) && !IsWhitespace(r[|r| - 1])
    ensures exists i | 0 <= i <= |s| - |r| ::
              && r == s[i..i + |r|]
              && WhitespaceBetween(s, 0, i) && WhitespaceBetween(s, i + |r|, |s|)
  {
    var r := s[TrimFrom(s)..TrimTo(s)];
    assert r == s[TrimFrom(s)..TrimFrom(s) + |r|];
    r
  }

  /** Whitespace in front of `x` adds exactly its length to the leading count. */
  lemma LeadingWhitespacePrefix(a: string, x: string)
    requires AllWhitespace(a)
    ensures LeadingWhitespace(a + x) == |a| + LeadingWhitespace(x)
  {
    var s := a + x;
    var n := LeadingWhitespace(x);
    forall k | 0 <= k < |a| + n ensures IsWhitespace(s[k]) {
      if k >= |a| { assert s[k] == x[k - |a|]; }
    }
    if n < |x| { assert s[|a| + n] == x[n]; }
    LeadingWhitespaceUnique(s, |a| + n);
  }

  /** Whitespace after `x` adds exactly its length to the trailing count. */
  lemma TrailingWhitespaceSuffix(x: string, b: string)
    requires AllWhitespace(b)
    ensures TrailingWhitespace(x + b) == |b| + TrailingWhitespace(x)
  {
    var s := x + b;
    var n := TrailingWhitespace(x);
    forall k | |s| - (|b| + n) <= k < |s| ensures IsWhitespace(s[k]) {
      if k < |x| { assert s[k] == x[k]; } else { assert s[k] == b[k - |x|]; }
    }
    if n < |x| { assert s[|s| - (|b| + n) - 1] == x[|x| - n - 1]; }
    TrailingWhitespaceUnique(s, |b| + n);
  }

  /** Characters appended after a non-whitespace one do not change the
      leading count. */
  lemma LeadingWhitespaceAppend(e: string, b: string)
    requires LeadingWhitespace(e) < |e|
    ensures LeadingWhitespace(e + b) == LeadingWhitespace(e)
  {
    var s := e + b;
    var n := LeadingWhitespace(e);
    forall k | 0 <= k < n ensures IsWhitespace(s[k]) {
      assert s[k] == e[k];
    }
    assert s[n] == e[n];
    LeadingWhitespaceUnique(s, n);
  }

  /** Characters prepended before a non-whitespace one do not change the
      trailing count. */
  lemma TrailingWhitespacePrepend(a: string, e: string)
    requires TrailingWhitespace(e) < |e|
    ensures TrailingWhitespace(a + e) == TrailingWhitespace(e)
  {
    var s := a + e;
    var n := TrailingWhitespace(e);
    forall k | |s| - n <= k < |s| ensures IsWhitespace(s[k]) {
      assert s[k] == e[k - |a|];
    }
    assert s[|s| - n - 1] == e[|e| - n - 1];
    TrailingWhitespaceUnique(s, n);
  }

  /** A slice of the middle part of `a + e + b`, taken in place. */
  lemma SliceOfMiddle(a: string, e: string, b: string, lo: nat, hi: nat)
    requires lo <= hi <= |e|
    ensures (a + e + b)[|a| + lo..|a| + hi] == e[lo..hi]
  {
    var s := a + e + b;
    forall k | 0 <= k < hi - lo ensures s[|a| + lo..|a| + hi][k] == e[lo..hi][k] {
      assert s[|a| + lo + k] == e[lo + k];
    }
  }

  /** Whitespace around an all-whitespace value is still all whitespace. */
  lemma PaddedWhitespace(a: string, e: string, b: string)
    requires AllWhitespace(a) && AllWhitespace(e) && AllWhitespace(b)
    ensures AllWhitespace(a + e + b)
  {
    var s := a + e + b;
    forall k | 0 <= k < |s| ensures IsWhitespace(s[k]) {
      if k < |a| { assert s[k] == a[k]; }
      else if k < |a| + |e| { assert s[k] == e[k - |a|]; }
      else { assert s[k] == b[k - |a| - |e|]; }
    }
  }

  /** Where the trimmed text of a padded value sits. */
  lemma PaddedTrimBounds(a: string, e: string, b: string)
    requires AllWhitespace(a) && AllWhitespace(b) && !AllWhitespace(e)
    ensures TrimFrom(a + e + b) == |a| + TrimFrom(e)
    ensures TrimTo(a + e + b) == |a| + TrimTo(e)
  {
    var s := a + e + b;
    var i := LeadingWhitespace(e);
    var n := TrailingWhitespace(e);
    assert s == a + (e + b);
    LeadingWhitespacePrefix(a, e + b);
    LeadingWhitespaceAppend(e, b);
    assert s == (a + e) + b;
    TrailingWhitespaceSuffix(a + e, b);
    TrailingWhitespacePrepend(a, e);
  }

  /** Whitespace placed around a value never changes its trimmed form. */
  lemma TrimIgnoresPadding(a: string, e: string, b: string)
    requires AllWhitespace(a) && AllWhitespace(b)
    ensures Trim(a + e + b) == Trim(e)
  {
    if AllWhitespace(e) {
      PaddedWhitespace(a, e, b);
    } else {
      PaddedTrimBounds(a, e, b);
      SliceOfMiddle(a, e, b, TrimFrom(e), TrimTo(e));
    }
  }

  /** Trimming is idempotent. */
  lemma TrimIdempotent(s: string)
    ensures Trim(Trim(s)) == Trim(s)
  {
    var r := Trim(s);
    if r != [] {
      LeadingWhitespaceUnique(r, 0);
      TrailingWhitespaceUnique(r, 0);
    }
  }
}
