/** The contact form's email check (`isValidEmail`, js/modern.js), which
    tests a string against `^[^\s@]+@[^\s@]+\.[^\s@]+$`.

    Three formulations are given and proved to agree:
    - `IsValidEmail`: the regular expression, read as "a local run, an `@`,
      a run, a `.`, a run", each run a non-empty stretch of characters that
      are neither whitespace nor `@`;
    - `WellFormed`: the direct description (no whitespace, exactly one `@`,
      a non-empty local part, a domain part with a `.` strictly inside it);
    - `ScanEmail`: a single left-to-right pass that decides the same
      language. */
module Email {
  import opened Text

  /** A character of the class `[^\s@]`. */
  predicate IsAtomChar(c: char) {
    !IsWhitespace(c) && c != '@'
  }

  /** `s[lo..hi]` matches `[^\s@]+`. */
  predicate AtomRun(s: string, lo: int, hi: int)
    requires 0 <= lo <= hi <= |s|
  {
    lo < hi && forall k | lo <= k < hi :: IsAtomChar(s[k])
  }

  /** The regular expression `^[^\s@]+@[^\s@]+\.[^\s@]+$`: `at` is the `@`
      and `dot` the `\.` of some match. Since `.` is itself in `[^\s@]`, any
      dot with characters on both sides can serve as `dot`. A match is at
      least five characters long and starts and ends with a character of
      `[^\s@]`. */
  predicate IsValidEmail(s: string)
    ensures IsValidEmail(s) ==> 5 <= |s| && IsAtomChar(s[0]) && IsAtomChar(s[|s| - 1])
  {
    exists at, dot | 0 <= at < dot < |s| ::
      && s[at] == '@' && s[dot] == '.'
      && AtomRun(s, 0, at) && AtomRun(s, at + 1, dot) && AtomRun(s, dot + 1, |s|)
  }

  /** The first position of `c` in `s`. */
  function IndexOf(s: string, c: char): (i: nat)
    requires c in s
    ensures i < |s| && s[i] == c
    ensures forall k | 0 <= k < i :: s[k] != c
  {
    if s[0] == c then 0 else
      var j := IndexOf(s[1..], c);
      assert forall k | 1 <= k < 1 + j :: s[k] == s[1..][k - 1];
      1 + j
  }

  /** `d` holds a `.` that is neither its first nor its last character. */
  predicate HasInnerDot(d: string) {
    exists k | 0 < k < |d| - 1 :: d[k] == '.'
  }

  /** The text before the (first) `@`. */
  function LocalPart(s: string): string
    requires '@' in s
  {
    s[..IndexOf(s, '@')]
  }

  /** The text after the (first) `@`. */
  function DomainPart(s: string): string
    requires '@' in s
  {
    s[IndexOf(s, '@') + 1..]
  }

  /** The direct description of an acceptable address. */
  predicate WellFormed(s: string) {
    && NoWhitespace(s)
    && multiset(s)['@'] == 1
    && '@' in s
    && |LocalPart(s)| > 0
    && HasInnerDot(DomainPart(s))
  }

  /** `c` occurs exactly once in `s` iff it occurs at `i` and nowhere else. */
  lemma OccursOnce(s: string, c: char, i: nat)
    requires i < |s| && s[i] == c
    ensures multiset(s)[c] == 1 <==> forall k | 0 <= k < |s| && k != i :: s[k] != c
  {
    assert s == s[..i] + [s[i]] + s[i + 1..];
    var l, r := s[..i], s[i + 1..];
    assert multiset(s)[c] == multiset(l)[c] + 1 + multiset(r)[c];
    if forall k | 0 <= k < |s| && k != i :: s[k] != c {
      assert c !in l by {
        forall k | 0 <= k < |l| ensures l[k] != c { assert l[k] == s[k]; }
      }
      assert c !in r by {
        forall k | 0 <= k < |r| ensures r[k] != c { assert r[k] == s[i + 1 + k]; }
      }
    } else {
      var k :| 0 <= k < |s| && k != i && s[k] == c;
      if k < i { assert l[k] == c; } else { assert r[k - i - 1] == c; }
    }
  }

  /** Every match of the pattern is a well-formed address. */
  lemma {:induction false} ValidEmailIsWellFormed(s: string)
    requires IsValidEmail(s)
    ensures WellFormed(s)
  {
    var at, dot :| 0 <= at < dot < |s| && s[at] == '@' && s[dot] == '.'
      && AtomRun(s, 0, at) && AtomRun(s, at + 1, dot) && AtomRun(s, dot + 1, |s|);
    forall k | 0 <= k < |s| && k != at ensures IsAtomChar(s[k]) || k == dot {
      if k < at { assert AtomRun(s, 0, at); }
      else if k < dot { assert AtomRun(s, at + 1, dot); }
      else if k > dot { assert AtomRun(s, dot + 1, |s|); }
    }
    assert NoWhitespace(s);
    OccursOnce(s, '@', at);
    var i := IndexOf(s, '@');
    assert i == at;
    var d := DomainPart(s);
    assert d[dot - at - 1] == s[dot];
    assert HasInnerDot(d);
  }

  /** Every well-formed address matches the pattern. */
  lemma {:induction false} WellFormedIsValidEmail(s: string)
    requires WellFormed(s)
    ensures IsValidEmail(s)
  {
    var at := IndexOf(s, '@');
    OccursOnce(s, '@', at);
    var d := DomainPart(s);
    var k :| 0 < k < |d| - 1 && d[k] == '.';
    var dot := at + 1 + k;
    assert s[dot] == '.';
    assert forall j | 0 <= j < |s| && j != at :: IsAtomChar(s[j]);
  }

  /** The regular expression and the direct description accept exactly the
      same strings. */
  lemma ValidEmailIffWellFormed(s: string)
    ensures IsValidEmail(s) <==> WellFormed(s)
  {
    if IsValidEmail(s) { ValidEmailIsWellFormed(s); }
    if WellFormed(s) { WellFormedIsValidEmail(s); }
  }

  /** How much of the `[^\s@]+\.[^\s@]+` tail a matcher has seen after the
      `@`: nothing yet; a run with no usable dot; a run ending in a dot that
      is not its first character; a run already holding an inner dot. */
  datatype DomainProgress = Empty | NoDot | DotPending | Satisfied

  /** One step of the domain automaton on an atom character. */
  function Step(p: DomainProgress, c: char): DomainProgress {
    match p
    case Empty => NoDot
    case NoDot => if c == '.' then DotPending else NoDot
    case DotPending => Satisfied
    case Satisfied => Satisfied
  }

  /** The automaton's state after reading `d` from `Empty`. */
  function Progress(d: string): DomainProgress {
    if d == [] then Empty else Step(Progress(d[..|d| - 1]), d[|d| - 1])
  }

  /** What each automaton state says about the text read so far. */
  lemma {:induction false} ProgressMeaning(d: string)
    ensures Progress(d) == Empty <==> d == []
    ensures Progress(d) == Satisfied <==> HasInnerDot(d)
    ensures Progress(d) == DotPending <==> !HasInnerDot(d) && |d| >= 2 && d[|d| - 1] == '.'
  {
    if d != [] {
      var e := d[..|d| - 1];
      ProgressMeaning(e);
      assert forall k | 0 <= k < |e| :: e[k] == d[k];
      if HasInnerDot(e) {
        var k :| 0 < k < |e| - 1 && e[k] == '.';
        assert d[k] == '.';
      }
      if Progress(e) == DotPending {
        assert d[|e| - 1] == '.';
      }
      if HasInnerDot(d) && !HasInnerDot(e) {
        var k :| 0 < k < |d| - 1 && d[k] == '.';
        assert k == |e| - 1;
      }
    }
  }

  /** Where a matcher stands after a prefix: still in the local part, or past
      the `@` at index `at` with the given domain progress. */
  datatype ScanState = InLocal | InDomain(at: nat, progress: DomainProgress)

  /** A whitespace character anywhere rules a match out. */
  lemma WhitespaceRejects(s: string, i: nat)
    requires i < |s| && IsWhitespace(s[i])
    ensures !IsValidEmail(s)
  {
    ValidEmailIffWellFormed(s);
  }

  /** An `@` in first position leaves the local part empty: no match. */
  lemma LeadingAtRejects(s: string)
    requires |s| > 0 && s[0] == '@'
    ensures !IsValidEmail(s)
  {
    ValidEmailIffWellFormed(s);
    assert IndexOf(s, '@') == 0;
  }

  /** A second `@` rules a match out. */
  lemma SecondAtRejects(s: string, at: nat, i: nat)
    requires at < i < |s| && s[at] == '@' && s[i] == '@'
    ensures !IsValidEmail(s)
  {
    ValidEmailIffWellFormed(s);
    OccursOnce(s, '@', at);
  }

  /** With the one `@` at `at` (not first) and no whitespace, the address
      matches exactly when the text after the `@` has an inner dot. */
  lemma OnlyAtDecides(s: string, at: nat)
    requires 0 < at < |s| && s[at] == '@'
    requires forall k | 0 <= k < |s| :: !IsWhitespace(s[k])
    requires forall k | 0 <= k < |s| && k != at :: s[k] != '@'
    ensures IsValidEmail(s) <==> HasInnerDot(s[at + 1..])
  {
    ValidEmailIffWellFormed(s);
    OccursOnce(s, '@', at);
    assert IndexOf(s, '@') == at;
  }

  /** Extending the domain text by one character is one automaton step. */
  lemma ProgressExtend(s: string, lo: nat, i: nat)
    requires lo <= i < |s|
    ensures Progress(s[lo..i + 1]) == Step(Progress(s[lo..i]), s[i])
  {
    assert s[lo..i + 1][..i - lo] == s[lo..i];
  }

  /** Decides the pattern in one pass, rejecting at the first character that
      no match could contain. */
  method ScanEmail(s: string) returns (ok: bool)
    ensures ok <==> IsValidEmail(s)
  {
    var state := InLocal;
    var i := 0;
    while i < |s|
      invariant 0 <= i <= |s|
      invariant forall k | 0 <= k < i :: !IsWhitespace(s[k])
      invariant state.InLocal? ==> forall k | 0 <= k < i :: s[k] != '@'
      invariant state.InDomain? ==> && 0 < state.at < i && s[state.at] == '@'
                                    && (forall k | 0 <= k < i && k != state.at :: s[k] != '@')
                                    && state.progress == Progress(s[state.at + 1..i])
    {
      var c := s[i];
      if IsWhitespace(c) {
        WhitespaceRejects(s, i);
        return false;
      }
      match state {
        case InLocal =>
          if c == '@' {
            if i == 0 {
              LeadingAtRejects(s);
              return false;
            }
            assert s[i + 1..i + 1] == [];
            state := InDomain(i, Empty);
          }
        case InDomain(at, p) =>
          if c == '@' {
            SecondAtRejects(s, at, i);
            return false;
          }
          ProgressExtend(s, at + 1, i);
          state := InDomain(at, Step(p, c));
      }
      i := i + 1;
    }
    match state {
      case InLocal =>
        ok := false;
      case InDomain(at, p) =>
        OnlyAtDecides(s, at);
        assert s[at + 1..i] == s[at + 1..];
        ProgressMeaning(s[at + 1..]);
        ok := p == Satisfied;
    }
  }

  /** Addresses the form accepts, including one ending in a dot: some
      earlier dot has characters on both sides. */
  lemma AcceptedExamples()
    ensures IsValidEmail("a@b.com")
    ensures IsValidEmail("a@b.c.")
  {
    var s := "a@b.com";
    assert s[1] == '@' && s[3] == '.' && AtomRun(s, 0, 1) && AtomRun(s, 2, 3) && AtomRun(s, 4, 7);
    var t := "a@b.c.";
    assert t[1] == '@' && t[3] == '.' && AtomRun(t, 0, 1) && AtomRun(t, 2, 3) && AtomRun(t, 4, 6);
  }

  /** Addresses the form rejects: no `@`; no dot in the domain; a dot only at
      the domain's start; an empty local part; a space; two `@`s. */
  lemma RejectedExamples()
    ensures !IsValidEmail("not-an-email")
    ensures !IsValidEmail("a@b")
    ensures !IsValidEmail("a@.com")
    ensures !IsValidEmail("@b.com")
    ensures !IsValidEmail("a b@c.com")
    ensures !IsValidEmail("a@@b.com")
  {
    RejectNoAt();
    RejectNoDot();
    RejectLeadingDot();
    RejectEmptyLocal();
    RejectSpace();
    RejectDoubleAt();
  }

  lemma RejectNoAt()
    ensures !IsValidEmail("not-an-email")
  {
    var s := "not-an-email";
    assert forall k | 0 <= k < |s| :: s[k] != '@';
  }

  lemma RejectNoDot()
    ensures !IsValidEmail("a@b")
  {
    ValidEmailIffWellFormed("a@b");
    assert IndexOf("a@b", '@') == 1;
  }

  lemma RejectLeadingDot()
    ensures !IsValidEmail("a@.com")
  {
    ValidEmailIffWellFormed("a@.com");
    assert IndexOf("a@.com", '@') == 1;
    assert DomainPart("a@.com") == ".com";
  }

  lemma RejectEmptyLocal()
    ensures !IsValidEmail("@b.com")
  {
    ValidEmailIffWellFormed("@b.com");
    assert IndexOf("@b.com", '@') == 0;
  }

  lemma RejectSpace()
    ensures !IsValidEmail("a b@c.com")
  {
    ValidEmailIffWellFormed("a b@c.com");
    assert "a b@c.com"[1] == ' ';
  }

  lemma RejectDoubleAt()
    ensures !IsValidEmail("a@@b.com")
  {
    ValidEmailIffWellFormed("a@@b.com");
    OccursOnce("a@@b.com", '@', 1);
    assert "a@@b.com"[2] == '@';
  }
}
