/**
 * Versions: splitting a version string into segments and the total order on versions.
 *
 * A version string splits into numeric segments (runs of digits, compared by value) and
 * alphabetic segments (runs of any other non-separator characters, compared as strings).
 * The separators '.', '_' and '-' only end a run. Two versions compare segment by segment;
 * a numeric segment beats an alphabetic one, and when one version is a prefix of the other
 * the longer one is greater.
 */
module Versions {

  datatype Segment = Num(n: nat) | Alpha(s: string)

  /** A version is its segment sequence; the text it was parsed from plays no part in comparisons. */
  datatype Version = Version(segments: seq<Segment>)

  // ---------------------------------------------------------------------------------------
  // Character classes and runs
  // ---------------------------------------------------------------------------------------

  predicate IsDigit(c: char) { '0' <= c <= '9' }

  predicate IsSeparator(c: char) { c == '.' || c == '_' || c == '-' }

  /** A character that belongs to an alphabetic segment. */
  predicate IsOther(c: char) { !IsDigit(c) && !IsSeparator(c) }

  /** Length of the longest prefix of `s` made of digits. */
  function DigitRun(s: string): (n: nat)
    ensures n <= |s|
  {
    if s == [] || !IsDigit(s[0]) then 0 else 1 + DigitRun(s[1..])
  }

  /** The digit run is the longest prefix made of digits. */
  lemma {:induction false} DigitRunMaximal(s: string)
    ensures forall i :: 0 <= i < DigitRun(s) ==> IsDigit(s[i])
    ensures DigitRun(s) < |s| ==> !IsDigit(s[DigitRun(s)])
  {
    if s != [] && IsDigit(s[0]) {
      DigitRunMaximal(s[1..]);
    }
  }

  /** Length of the longest prefix of `s` made of characters that are neither digits nor separators. */
  function OtherRun(s: string): (n: nat)
    ensures n <= |s|
  {
    if s == [] || !IsOther(s[0]) then 0 else 1 + OtherRun(s[1..])
  }

  /** The other-character run is the longest prefix made of characters that are neither digits nor separators. */
  lemma {:induction false} OtherRunMaximal(s: string)
    ensures forall i :: 0 <= i < OtherRun(s) ==> IsOther(s[i])
    ensures OtherRun(s) < |s| ==> !IsOther(s[OtherRun(s)])
  {
    if s != [] && IsOther(s[0]) {
      OtherRunMaximal(s[1..]);
    }
  }

  function DigitOf(c: char): nat
  {
    if IsDigit(c) then c as int - '0' as int else 0
  }

  /** The number a string of decimal digits denotes, read left to right. */
  function DigitValue(ds: string): nat
  {
    if ds == [] then 0 else DigitValue(ds[..|ds| - 1]) * 10 + DigitOf(ds[|ds| - 1])
  }

  /** A segment the tokenizer can produce: an alphabetic segment is a non-empty run of other characters. */
  predicate WellFormedSegment(x: Segment)
  {
    match x
    case Num(_) => true
    case Alpha(s) => s != [] && forall i :: 0 <= i < |s| ==> IsOther(s[i])
  }

  predicate WellFormedSegments(segs: seq<Segment>)
  {
    forall i :: 0 <= i < |segs| ==> WellFormedSegment(segs[i])
  }

  // ---------------------------------------------------------------------------------------
  // Tokenizer
  // ---------------------------------------------------------------------------------------

  /** Length of the token at the start of a non-empty string: one separator, or a maximal run. */
  function TokenLength(s: string): (n: nat)
    requires s != []
    ensures 0 < n <= |s|
  {
    if IsSeparator(s[0]) then 1 else if IsDigit(s[0]) then DigitRun(s) else OtherRun(s)
  }

  /** What the token at the start of a non-empty string contributes: nothing for a separator. */
  function TokenSegments(s: string): seq<Segment>
    requires s != []
  {
    var n := TokenLength(s);
    if IsSeparator(s[0]) then []
    else if IsDigit(s[0]) then [Num(DigitValue(s[..n]))]
    else [Alpha(s[..n])]
  }

  /**
   * Splits a version string into segments: separators are dropped, a maximal digit run becomes
   * a numeric segment and a maximal run of other characters an alphabetic one.
   */
  function Tokenize(s: string): (r: seq<Segment>)
    ensures |r| <= |s|
    decreases |s|
  {
    if s == [] then [] else TokenSegments(s) + Tokenize(s[TokenLength(s)..])
  }

  /** A version parsed from text: its segments are well formed, and there are no more of them than characters. */
  function ParseVersion(s: string): (v: Version)
    ensures WellFormedSegments(v.segments) && |v.segments| <= |s|
  {
    TokenizeWellFormed(s);
    Version(Tokenize(s))
  }

  /** Every segment the tokenizer produces is well formed. */
  lemma {:induction false} TokenizeWellFormed(s: string)
    ensures WellFormedSegments(Tokenize(s))
    decreases |s|
  {
    if s != [] {
      OtherRunMaximal(s);
      TokenizeWellFormed(s[TokenLength(s)..]);
    }
  }

  // ---------------------------------------------------------------------------------------
  // Order
  // ---------------------------------------------------------------------------------------

  /** Lexicographic order on strings by character code; a proper prefix is smaller. */
  predicate StrLt(s: string, t: string)
  {
    if s == [] then t != []
    else if t == [] then false
    else if s[0] == t[0] then StrLt(s[1..], t[1..])
    else s[0] < t[0]
  }

  /** Segment order: numbers by value, alphabetic segments as strings, any number above any alphabetic segment. */
  predicate SegLt(x: Segment, y: Segment)
  {
    match (x, y)
    case (Num(m), Num(n)) => m < n
    case (Alpha(s), Alpha(t)) => StrLt(s, t)
    case (Alpha(_), Num(_)) => true
    case (Num(_), Alpha(_)) => false
  }

  /** The first differing segment decides; if one sequence is a prefix of the other, the longer is greater. */
  predicate SegsLt(a: seq<Segment>, b: seq<Segment>)
  {
    if a == [] then b != []
    else if b == [] then false
    else if a[0] == b[0] then SegsLt(a[1..], b[1..])
    else SegLt(a[0], b[0])
  }

  /** Version order: no version is below itself, and of two versions at most one is below the other. */
  predicate Lt(a: Version, b: Version): (r: bool)
    ensures r ==> a != b
    ensures r ==> !SegsLt(b.segments, a.segments)
  {
    var r := SegsLt(a.segments, b.segments);
    SegsLtIrreflexive(a.segments);
    if r then SegsLtAsymmetric(a.segments, b.segments); r else r
  }

  /**
   * The reference reading of version order: after a common prefix of `k` segments, either `a`
   * ends while `b` goes on, or the next segment of `a` is below that of `b`.
   */
  predicate FirstDifferenceLt(a: seq<Segment>, b: seq<Segment>)
  {
    exists k :: 0 <= k <= |a| && k <= |b| && a[..k] == b[..k] &&
      ((k == |a| && k < |b|) || (k < |a| && k < |b| && SegLt(a[k], b[k])))
  }

  predicate Le(a: Version, b: Version)
  {
    a == b || Lt(a, b)
  }

  predicate Gt(a: Version, b: Version)
  {
    Lt(b, a)
  }

  predicate Ge(a: Version, b: Version)
  {
    Le(b, a)
  }

  // ---------------------------------------------------------------------------------------
  // Order laws
  // ---------------------------------------------------------------------------------------

  lemma {:induction false} StrLtIrreflexive(s: string)
    ensures !StrLt(s, s)
  {
    if s != [] {
      StrLtIrreflexive(s[1..]);
    }
  }

  lemma {:induction false} StrLtTransitive(s: string, t: string, u: string)
    requires StrLt(s, t) && StrLt(t, u)
    ensures StrLt(s, u)
  {
    if s != [] && t != [] && u != [] && s[0] == t[0] && t[0] == u[0] {
      StrLtTransitive(s[1..], t[1..], u[1..]);
    }
  }

  lemma {:induction false} StrLtTotal(s: string, t: string)
    ensures s == t || StrLt(s, t) || StrLt(t, s)
  {
    if s != [] && t != [] && s[0] == t[0] {
      StrLtTotal(s[1..], t[1..]);
      if s[1..] == t[1..] {
        assert s == [s[0]] + s[1..] && t == [t[0]] + t[1..];
      }
    }
  }

  lemma {:induction false} StrLtAsymmetric(s: string, t: string)
    requires StrLt(s, t)
    ensures !StrLt(t, s)
  {
    if s != [] && t != [] && s[0] == t[0] {
      StrLtAsymmetric(s[1..], t[1..]);
    }
  }

  lemma SegLtIrreflexive(x: Segment)
    ensures !SegLt(x, x)
  {
    if x.Alpha? {
      StrLtIrreflexive(x.s);
    }
  }

  lemma SegLtTransitive(x: Segment, y: Segment, z: Segment)
    requires SegLt(x, y) && SegLt(y, z)
    ensures SegLt(x, z)
  {
    if x.Alpha? && y.Alpha? && z.Alpha? {
      StrLtTransitive(x.s, y.s, z.s);
    }
  }

  lemma SegLtTotal(x: Segment, y: Segment)
    ensures x == y || SegLt(x, y) || SegLt(y, x)
  {
    if x.Alpha? && y.Alpha? {
      StrLtTotal(x.s, y.s);
    }
  }

  lemma SegLtAsymmetric(x: Segment, y: Segment)
    requires SegLt(x, y)
    ensures !SegLt(y, x)
  {
    if x.Alpha? && y.Alpha? {
      StrLtAsymmetric(x.s, y.s);
    }
  }

  lemma {:induction false} SegsLtIrreflexive(a: seq<Segment>)
    ensures !SegsLt(a, a)
  {
    if a != [] {
      SegsLtIrreflexive(a[1..]);
    }
  }

  lemma {:induction false} SegsLtTransitive(a: seq<Segment>, b: seq<Segment>, c: seq<Segment>)
    requires SegsLt(a, b) && SegsLt(b, c)
    ensures SegsLt(a, c)
  {
    if a != [] && b != [] && c != [] {
      if a[0] == b[0] && b[0] == c[0] {
        SegsLtTransitive(a[1..], b[1..], c[1..]);
      } else if a[0] == b[0] {
        assert SegLt(b[0], c[0]);
      } else if b[0] == c[0] {
        assert SegLt(a[0], b[0]);
      } else {
        SegLtTransitive(a[0], b[0], c[0]);
        if a[0] == c[0] {
          SegLtIrreflexive(a[0]);
        }
      }
    }
  }

  lemma {:induction false} SegsLtTotal(a: seq<Segment>, b: seq<Segment>)
    ensures a == b || SegsLt(a, b) || SegsLt(b, a)
  {
    if a != [] && b != [] {
      if a[0] == b[0] {
        SegsLtTotal(a[1..], b[1..]);
        if a[1..] == b[1..] {
          assert a == [a[0]] + a[1..] && b == [b[0]] + b[1..];
        }
      } else {
        SegLtTotal(a[0], b[0]);
      }
    }
  }

  lemma {:induction false} SegsLtAsymmetric(a: seq<Segment>, b: seq<Segment>)
    requires SegsLt(a, b)
    ensures !SegsLt(b, a)
  {
    if a != [] && b != [] {
      if a[0] == b[0] {
        SegsLtAsymmetric(a[1..], b[1..]);
      } else {
        SegLtAsymmetric(a[0], b[0]);
      }
    }
  }

  /** Version order is the first-difference order on segments. */
  lemma LtAtFirstDifference(a: Version, b: Version)
    ensures Lt(a, b) <==> FirstDifferenceLt(a.segments, b.segments)
  {
    SegsLtAtFirstDifference(a.segments, b.segments);
  }

  lemma {:induction false} SegsLtAtFirstDifference(a: seq<Segment>, b: seq<Segment>)
    ensures SegsLt(a, b) <==> FirstDifferenceLt(a, b)
  {
    if a == [] {
      if b != [] {
        assert a[..0] == b[..0];
      }
    } else if b == [] {
    } else if a[0] == b[0] {
      SegsLtAtFirstDifference(a[1..], b[1..]);
      FirstDifferenceShift(a, b);
    } else {
      if FirstDifferenceLt(a, b) {
        var k :| 0 <= k <= |a| && k <= |b| && a[..k] == b[..k] &&
          ((k == |a| && k < |b|) || (k < |a| && k < |b| && SegLt(a[k], b[k])));
      } else {
        assert a[..0] == b[..0];
      }
    }
  }

  /** Dropping a common first segment leaves the first-difference order unchanged. */
  lemma FirstDifferenceShift(a: seq<Segment>, b: seq<Segment>)
    requires a != [] && b != [] && a[0] == b[0]
    ensures FirstDifferenceLt(a, b) <==> FirstDifferenceLt(a[1..], b[1..])
  {
    if FirstDifferenceLt(a, b) {
      FirstDifferenceDrop(a, b);
    }
    if FirstDifferenceLt(a[1..], b[1..]) {
      FirstDifferenceAdd(a, b);
    }
  }

  lemma FirstDifferenceDrop(a: seq<Segment>, b: seq<Segment>)
    requires a != [] && b != [] && a[0] == b[0] && FirstDifferenceLt(a, b)
    ensures FirstDifferenceLt(a[1..], b[1..])
  {
    var k :| 0 <= k <= |a| && k <= |b| && a[..k] == b[..k] &&
      ((k == |a| && k < |b|) || (k < |a| && k < |b| && SegLt(a[k], b[k])));
    if k == 0 {
      SegLtIrreflexive(a[0]);
    } else {
      assert a[1..][..k - 1] == a[..k][1..] && b[1..][..k - 1] == b[..k][1..];
      assert a[1..][..k - 1] == b[1..][..k - 1];
    }
  }

  lemma FirstDifferenceAdd(a: seq<Segment>, b: seq<Segment>)
    requires a != [] && b != [] && a[0] == b[0] && FirstDifferenceLt(a[1..], b[1..])
    ensures FirstDifferenceLt(a, b)
  {
    var a', b' := a[1..], b[1..];
    var j :| 0 <= j <= |a'| && j <= |b'| && a'[..j] == b'[..j] &&
      ((j == |a'| && j < |b'|) || (j < |a'| && j < |b'| && SegLt(a'[j], b'[j])));
    assert a[..j + 1] == [a[0]] + a'[..j] && b[..j + 1] == [b[0]] + b'[..j];
    assert a[..j + 1] == b[..j + 1];
    assert a[j + 1..] == a'[j..] && b[j + 1..] == b'[j..];
  }

  lemma LtIrreflexive(a: Version)
    ensures !Lt(a, a)
  {
    SegsLtIrreflexive(a.segments);
  }

  lemma LtTransitive(a: Version, b: Version, c: Version)
    requires Lt(a, b) && Lt(b, c)
    ensures Lt(a, c)
  {
    SegsLtTransitive(a.segments, b.segments, c.segments);
  }

  lemma LtAsymmetric(a: Version, b: Version)
    requires Lt(a, b)
    ensures !Lt(b, a)
  {
    SegsLtAsymmetric(a.segments, b.segments);
  }

  /** Exactly one of a < b, a == b, a > b holds. */
  lemma Trichotomy(a: Version, b: Version)
    ensures Lt(a, b) || a == b || Lt(b, a)
    ensures !(Lt(a, b) && a == b) && !(Lt(b, a) && a == b) && !(Lt(a, b) && Lt(b, a))
  {
    SegsLtTotal(a.segments, b.segments);
    LtIrreflexive(a);
    if Lt(a, b) {
      LtAsymmetric(a, b);
    }
  }

  /**
   * The six comparison operators agree with one another, as each assertion helper of the
   * version tests checks: <= is < or ==, > is the converse of <, >= the converse of <=, and
   * != the negation of ==.
   */
  lemma ComparisonsAgree(a: Version, b: Version)
    ensures Le(a, b) <==> !Gt(a, b)
    ensures Ge(a, b) <==> !Lt(a, b)
    ensures Lt(a, b) ==> Le(a, b) && a != b && !Gt(a, b) && !Ge(a, b)
    ensures Gt(a, b) ==> Ge(a, b) && a != b && !Lt(a, b) && !Le(a, b)
    ensures a == b ==> Le(a, b) && Ge(a, b) && !Lt(a, b) && !Gt(a, b)
  {
    Trichotomy(a, b);
  }

  lemma LeTransitive(a: Version, b: Version, c: Version)
    requires Le(a, b) && Le(b, c)
    ensures Le(a, c)
  {
    if Lt(a, b) && Lt(b, c) {
      LtTransitive(a, b, c);
    }
  }

  lemma LeAntisymmetric(a: Version, b: Version)
    requires Le(a, b) && Le(b, a)
    ensures a == b
  {
    Trichotomy(a, b);
  }

  // ---------------------------------------------------------------------------------------
  // The rules the version tests exercise, stated for all versions
  // ---------------------------------------------------------------------------------------

  /** Appending any non-empty tail, numeric or alphabetic, gives a strictly greater version. */
  lemma {:induction false} ExtensionIsGreater(prefix: seq<Segment>, tail: seq<Segment>)
    requires tail != []
    ensures Lt(Version(prefix), Version(prefix + tail))
  {
    if prefix != [] {
      assert (prefix + tail)[1..] == prefix[1..] + tail;
      ExtensionIsGreater(prefix[1..], tail);
    }
  }

  /** At the first position where they differ, a numeric segment beats an alphabetic one, whatever follows. */
  lemma {:induction false} NumberBeatsAlpha(prefix: seq<Segment>, s: string, n: nat, x: seq<Segment>, y: seq<Segment>)
    ensures Lt(Version(prefix + [Alpha(s)] + x), Version(prefix + [Num(n)] + y))
    ensures !Lt(Version(prefix + [Num(n)] + y), Version(prefix + [Alpha(s)] + x))
  {
    var a, b := prefix + [Alpha(s)] + x, prefix + [Num(n)] + y;
    if prefix == [] {
      assert a[0] == Alpha(s) && b[0] == Num(n);
    } else {
      assert a[0] == b[0] == prefix[0];
      assert a[1..] == prefix[1..] + [Alpha(s)] + x;
      assert b[1..] == prefix[1..] + [Num(n)] + y;
      NumberBeatsAlpha(prefix[1..], s, n, x, y);
    }
  }

  /** At the first position where they differ, two numeric segments decide by value, whatever follows. */
  lemma {:induction false} NumbersByValue(prefix: seq<Segment>, m: nat, n: nat, x: seq<Segment>, y: seq<Segment>)
    requires m < n
    ensures Lt(Version(prefix + [Num(m)] + x), Version(prefix + [Num(n)] + y))
  {
    var a, b := prefix + [Num(m)] + x, prefix + [Num(n)] + y;
    if prefix == [] {
      assert a[0] == Num(m) && b[0] == Num(n);
    } else {
      assert a[0] == b[0] == prefix[0];
      assert a[1..] == prefix[1..] + [Num(m)] + x;
      assert b[1..] == prefix[1..] + [Num(n)] + y;
      NumbersByValue(prefix[1..], m, n, x, y);
    }
  }

  // ---------------------------------------------------------------------------------------
  // Tokenizer laws
  // ---------------------------------------------------------------------------------------

  /** Two strings of equal length whose characters agree except where both are separators. */
  predicate SameUpToSeparators(s: string, t: string)
  {
    |s| == |t| && forall i :: 0 <= i < |s| ==> s[i] == t[i] || (IsSeparator(s[i]) && IsSeparator(t[i]))
  }

  lemma {:induction false} SameUpToSeparatorsRuns(s: string, t: string)
    requires SameUpToSeparators(s, t)
    ensures DigitRun(s) == DigitRun(t) && OtherRun(s) == OtherRun(t)
    decreases |s|
  {
    if s != [] {
      SameUpToSeparatorsSuffix(s, t, 1);
      SameUpToSeparatorsRuns(s[1..], t[1..]);
    }
  }

  lemma SameUpToSeparatorsSuffix(s: string, t: string, k: nat)
    requires SameUpToSeparators(s, t) && k <= |s|
    ensures SameUpToSeparators(s[k..], t[k..])
  {
    forall i | 0 <= i < |s[k..]|
      ensures s[k..][i] == t[k..][i] || (IsSeparator(s[k..][i]) && IsSeparator(t[k..][i]))
    {
      assert s[k..][i] == s[i + k] && t[k..][i] == t[i + k];
    }
  }

  /** The first token of two strings that agree up to separators is the same. */
  lemma SameUpToSeparatorsToken(s: string, t: string)
    requires s != [] && SameUpToSeparators(s, t)
    ensures TokenLength(s) == TokenLength(t) && TokenSegments(s) == TokenSegments(t)
  {
    SameUpToSeparatorsRuns(s, t);
    DigitRunMaximal(s);
    OtherRunMaximal(s);
    var n := TokenLength(s);
    if !IsSeparator(s[0]) {
      assert s[..n] == t[..n] by {
        forall i | 0 <= i < n ensures s[i] == t[i] {
          assert !IsSeparator(s[i]);
        }
      }
    }
  }

  /** Which separator is used makes no difference: "2_0" and "2.0" tokenize alike. */
  lemma {:induction false} SeparatorsInterchangeable(s: string, t: string)
    requires SameUpToSeparators(s, t)
    ensures Tokenize(s) == Tokenize(t)
    decreases |s|
  {
    if s != [] {
      SameUpToSeparatorsToken(s, t);
      SameUpToSeparatorsSuffix(s, t, TokenLength(s));
      SeparatorsInterchangeable(s[TokenLength(s)..], t[TokenLength(s)..]);
    }
  }

  lemma LeadingZeroValue(ds: string)
    ensures DigitValue(['0'] + ds) == DigitValue(ds)
    decreases |ds|
  {
    if ds != [] {
      var zs := ['0'] + ds;
      assert zs[..|zs| - 1] == ['0'] + ds[..|ds| - 1];
      LeadingZeroValue(ds[..|ds| - 1]);
    }
  }

  lemma DigitRunStopsInPrefix(s: string, t: string)
    requires DigitRun(s) < |s|
    ensures DigitRun(s + t) == DigitRun(s)
  {
    if IsDigit(s[0]) {
      assert (s + t)[1..] == s[1..] + t;
      DigitRunStopsInPrefix(s[1..], t);
    }
  }

  lemma OtherRunStopsInPrefix(s: string, t: string)
    requires OtherRun(s) < |s|
    ensures OtherRun(s + t) == OtherRun(s)
  {
    if IsOther(s[0]) {
      assert (s + t)[1..] == s[1..] + t;
      OtherRunStopsInPrefix(s[1..], t);
    }
  }

  lemma SliceOfConcat(s: string, t: string, n: nat)
    requires n <= |s|
    ensures (s + t)[..n] == s[..n]
    ensures (s + t)[n..] == s[n..] + t
  {
  }

  /** A token that ends before the end of `s`, or a separator, is not affected by what follows `s`. */
  lemma TokenClosedInPrefix(s: string, t: string)
    requires s != []
    requires IsSeparator(s[0]) || TokenLength(s) < |s|
    ensures TokenLength(s + t) == TokenLength(s)
    ensures TokenSegments(s + t) == TokenSegments(s)
  {
    assert (s + t)[0] == s[0];
    if !IsSeparator(s[0]) {
      if IsDigit(s[0]) {
        DigitRunStopsInPrefix(s, t);
      } else {
        OtherRunStopsInPrefix(s, t);
      }
      SliceOfConcat(s, t, TokenLength(s));
    }
  }

  /** A string that is empty or ends with a separator tokenizes independently of what follows it. */
  lemma {:induction false} TokenizeSplitsAtSeparator(s: string, t: string)
    requires s == [] || IsSeparator(s[|s| - 1])
    ensures Tokenize(s + t) == Tokenize(s) + Tokenize(t)
    decreases |s|, 1
  {
    if s == [] {
      assert s + t == t;
    } else {
      TokenizeSplitsAfterToken(s, t);
    }
  }

  /** The inductive step of the lemma above: the first token, then the rest. */
  lemma {:induction false} TokenizeSplitsAfterToken(s: string, t: string)
    requires s != [] && IsSeparator(s[|s| - 1])
    ensures Tokenize(s + t) == Tokenize(s) + Tokenize(t)
    decreases |s|, 0
  {
    var rest := s[TokenLength(s)..];
    SplitsStep(s, t);
    TokenizeSplitsAtSeparator(rest, t);
    SegmentsAssociate(TokenSegments(s), Tokenize(rest), Tokenize(t));
  }

  lemma SegmentsAssociate(a: seq<Segment>, b: seq<Segment>, c: seq<Segment>)
    ensures (a + b) + c == a + (b + c)
  {
  }

  /** One step of the proof above: the first token, and what is left after it. */
  lemma SplitsStep(s: string, t: string)
    requires s != [] && IsSeparator(s[|s| - 1])
    ensures var rest := s[TokenLength(s)..];
      (rest == [] || IsSeparator(rest[|rest| - 1])) &&
      Tokenize(s + t) == TokenSegments(s) + Tokenize(rest + t) &&
      Tokenize(s) == TokenSegments(s) + Tokenize(rest)
  {
    TokenEndsBeforeSeparator(s);
    TokenizeStep(s, t);
  }

  /** A string ending with a separator is not one single run. */
  lemma TokenEndsBeforeSeparator(s: string)
    requires s != [] && IsSeparator(s[|s| - 1])
    ensures IsSeparator(s[0]) || TokenLength(s) < |s|
  {
    DigitRunMaximal(s);
    OtherRunMaximal(s);
  }

  /** The first token of `s + t`, when it closes inside `s`, is the first token of `s`. */
  lemma TokenizeStep(s: string, t: string)
    requires s != []
    requires IsSeparator(s[0]) || TokenLength(s) < |s|
    ensures Tokenize(s + t) == TokenSegments(s) + Tokenize(s[TokenLength(s)..] + t)
  {
    TokenClosedInPrefix(s, t);
    SliceOfConcat(s, t, TokenLength(s));
  }

  /**
   * A leading zero of a digit run is ignored wherever the run starts: at the start of the string,
   * after a separator or after a letter ("10.0001" equals "10.001", "p01" equals "p1").
   */
  lemma ZeroPaddingIgnored(s: string, t: string)
    requires s == [] || !IsDigit(s[|s| - 1])
    requires t != [] && IsDigit(t[0])
    ensures Tokenize(s + ['0'] + t) == Tokenize(s + t)
  {
    var zt := ['0'] + t;
    assert s + ['0'] + t == s + zt;
    if s == [] || IsSeparator(s[|s| - 1]) {
      TokenizeSplitsAtSeparator(s, zt);
      TokenizeSplitsAtSeparator(s, t);
    } else {
      TokenizeSplitsBeforeDigit(s, zt);
      TokenizeSplitsBeforeDigit(s, t);
    }
    ZeroTokenizes(t);
  }

  /** A string ending with a letter tokenizes independently of a digit run that follows it. */
  lemma {:induction false} TokenizeSplitsBeforeDigit(s: string, t: string)
    requires s != [] && IsOther(s[|s| - 1]) && t != [] && IsDigit(t[0])
    ensures Tokenize(s + t) == Tokenize(s) + Tokenize(t)
    decreases |s|, 1
  {
    if IsSeparator(s[0]) || TokenLength(s) < |s| {
      TokenizeSplitsBeforeDigitStep(s, t);
    } else {
      WholeOtherRun(s);
      PieceToken(s, t);
      assert s[..|s|] == s && s[|s|..] == [];
    }
  }

  lemma {:induction false} TokenizeSplitsBeforeDigitStep(s: string, t: string)
    requires s != [] && IsOther(s[|s| - 1]) && t != [] && IsDigit(t[0])
    requires IsSeparator(s[0]) || TokenLength(s) < |s|
    ensures Tokenize(s + t) == Tokenize(s) + Tokenize(t)
    decreases |s|, 0
  {
    var rest := s[TokenLength(s)..];
    TokenizeStep(s, t);
    assert rest != [] && rest[|rest| - 1] == s[|s| - 1];
    TokenizeSplitsBeforeDigit(rest, t);
    SegmentsAssociate(TokenSegments(s), Tokenize(rest), Tokenize(t));
  }

  /** A string ending with a letter that is one single run is a run of letters. */
  lemma WholeOtherRun(s: string)
    requires s != [] && IsOther(s[|s| - 1]) && !IsSeparator(s[0]) && TokenLength(s) == |s|
    ensures IsOther(s[0]) && AllOther(s) && OtherRun(s) == |s|
  {
    DigitRunMaximal(s);
    OtherRunMaximal(s);
  }

  lemma ZeroTokenizes(t: string)
    requires t != [] && IsDigit(t[0])
    ensures Tokenize(['0'] + t) == Tokenize(t)
  {
    var zt := ['0'] + t;
    var n := DigitRun(t);
    assert zt[1..] == t;
    assert TokenLength(zt) == n + 1 && TokenLength(t) == n;
    assert TokenSegments(zt) == TokenSegments(t) by {
      assert zt[..n + 1] == ['0'] + t[..n];
      LeadingZeroValue(t[..n]);
    }
    assert zt[n + 1..] == t[n..];
  }

  // ---------------------------------------------------------------------------------------
  // Tokenizing a string given as a sequence of whole tokens
  // ---------------------------------------------------------------------------------------

  predicate AllDigits(s: string)
  {
    forall i :: 0 <= i < |s| ==> IsDigit(s[i])
  }

  predicate AllOther(s: string)
  {
    forall i :: 0 <= i < |s| ==> IsOther(s[i])
  }

  /** A whole token: one separator, a run of digits, or a run of other characters. */
  predicate IsPiece(p: string)
  {
    (|p| == 1 && IsSeparator(p[0])) || (p != [] && AllDigits(p)) || (p != [] && AllOther(p))
  }

  /** What a whole token contributes to the segments. */
  function PieceSegments(p: string): seq<Segment>
    requires IsPiece(p)
  {
    if IsSeparator(p[0]) then [] else if IsDigit(p[0]) then [Num(DigitValue(p))] else [Alpha(p)]
  }

  /** The text `t` that follows the token `p` does not continue it. */
  predicate Stops(p: string, t: string)
    requires p != []
  {
    t == [] || IsSeparator(p[0]) || (IsDigit(p[0]) && !IsDigit(t[0])) || (IsOther(p[0]) && !IsOther(t[0]))
  }

  /** A whole token that the following text does not continue is tokenized on its own. */
  lemma PieceToken(p: string, t: string)
    requires IsPiece(p) && Stops(p, t)
    ensures Tokenize(p + t) == PieceSegments(p) + Tokenize(t)
  {
    var s := p + t;
    assert s[0] == p[0];
    SliceOfConcat(p, t, |p|);
    assert p[..|p|] == p;
    if IsSeparator(p[0]) {
      assert s[1..] == t;
    } else if IsDigit(p[0]) {
      DigitRunAppend(p, t);
      assert DigitRun(t) == 0;
    } else {
      OtherRunAppend(p, t);
      assert OtherRun(t) == 0;
    }
  }

  // ---------------------------------------------------------------------------------------
  // Rendering, the tokenizer's inverse on well-formed segments
  // ---------------------------------------------------------------------------------------

  function DigitChar(d: nat): char
    requires d < 10
  {
    ('0' as int + d) as char
  }

  /** Shortest decimal spelling of n ("0" for zero). */
  function NatToDigits(n: nat): (ds: string)
    ensures ds != []
    ensures forall i :: 0 <= i < |ds| ==> IsDigit(ds[i])
  {
    if n < 10 then [DigitChar(n)] else NatToDigits(n / 10) + [DigitChar(n % 10)]
  }

  lemma {:induction false} NatToDigitsValue(n: nat)
    ensures DigitValue(NatToDigits(n)) == n
  {
    var ds := NatToDigits(n);
    if n >= 10 {
      NatToDigitsValue(n / 10);
      assert ds[..|ds| - 1] == NatToDigits(n / 10);
    } else {
      assert ds[..0] == [];
    }
  }

  function RenderSegment(x: Segment): string
  {
    match x
    case Num(n) => NatToDigits(n)
    case Alpha(s) => s
  }

  /** The segments joined by '.'. */
  function RenderSegments(segs: seq<Segment>): string
  {
    if segs == [] then ""
    else if |segs| == 1 then RenderSegment(segs[0])
    else RenderSegment(segs[0]) + "." + RenderSegments(segs[1..])
  }

  function Render(v: Version): string
  {
    RenderSegments(v.segments)
  }

  lemma {:induction false} DigitRunAppend(ds: string, t: string)
    requires forall i :: 0 <= i < |ds| ==> IsDigit(ds[i])
    ensures DigitRun(ds + t) == |ds| + DigitRun(t)
  {
    if ds != [] {
      assert (ds + t)[1..] == ds[1..] + t;
      DigitRunAppend(ds[1..], t);
    } else {
      assert ds + t == t;
    }
  }

  lemma {:induction false} OtherRunAppend(s: string, t: string)
    requires forall i :: 0 <= i < |s| ==> IsOther(s[i])
    ensures OtherRun(s + t) == |s| + OtherRun(t)
  {
    if s != [] {
      assert (s + t)[1..] == s[1..] + t;
      OtherRunAppend(s[1..], t);
    } else {
      assert s + t == t;
    }
  }

  /** A rendered segment followed by nothing or by a separator tokenizes back to that segment. */
  lemma TokenizeRenderSegment(x: Segment, t: string)
    requires WellFormedSegment(x)
    requires t == [] || IsSeparator(t[0])
    ensures Tokenize(RenderSegment(x) + t) == [x] + Tokenize(t)
  {
    var r := RenderSegment(x);
    SliceOfConcat(r, t, |r|);
    assert r[..|r|] == r;
    assert TokenLength(r + t) == |r| && TokenSegments(r + t) == [x] by {
      TokenOfRenderedSegment(x, t);
    }
  }

  lemma TokenOfRenderedSegment(x: Segment, t: string)
    requires WellFormedSegment(x)
    requires t == [] || IsSeparator(t[0])
    ensures TokenLength(RenderSegment(x) + t) == |RenderSegment(x)|
    ensures TokenSegments(RenderSegment(x) + t) == [x]
  {
    var r := RenderSegment(x);
    SliceOfConcat(r, t, |r|);
    assert (r + t)[0] == r[0];
    assert r[..|r|] == r;
    match x
    case Num(n) =>
      DigitRunAppend(r, t);
      NatToDigitsValue(n);
    case Alpha(_) =>
      OtherRunAppend(r, t);
  }

  /** Rendering then tokenizing gives back every sequence of well-formed segments. */
  lemma {:induction false} TokenizeRender(segs: seq<Segment>)
    requires WellFormedSegments(segs)
    ensures Tokenize(RenderSegments(segs)) == segs
  {
    if |segs| == 1 {
      TokenizeRenderSegment(segs[0], "");
      assert RenderSegment(segs[0]) + "" == RenderSegment(segs[0]);
    } else if |segs| > 1 {
      TokenizeRenderFirst(segs);
      TokenizeRender(segs[1..]);
    }
  }

  /** The first rendered segment and its '.' tokenize to that segment alone. */
  lemma TokenizeRenderFirst(segs: seq<Segment>)
    requires |segs| > 1 && WellFormedSegments(segs)
    ensures Tokenize(RenderSegments(segs)) == [segs[0]] + Tokenize(RenderSegments(segs[1..]))
  {
    var tail := RenderSegments(segs[1..]);
    var rest := "." + tail;
    assert RenderSegments(segs) == RenderSegment(segs[0]) + rest;
    TokenizeRenderSegment(segs[0], rest);
    TokenizeSeparator('.', tail);
  }

  lemma TokenizeSeparator(c: char, t: string)
    requires IsSeparator(c)
    ensures Tokenize([c] + t) == Tokenize(t)
  {
    assert ([c] + t)[1..] == t;
  }

  lemma ParseRender(v: Version)
    requires WellFormedSegments(v.segments)
    ensures ParseVersion(Render(v)) == v
  {
    TokenizeRender(v.segments);
  }
}
