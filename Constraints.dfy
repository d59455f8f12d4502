/**
 * Constraints as written in recipes and on the command line, and the `ver` entry point that
 * turns text into a version, a range or a list. A list of strings is also accepted; each
 * string is parsed and its elements are inserted, in order, into one list.
 */
module Constraints {
  import opened Wrappers
  import opened Versions
  import opened Ranges
  import opened VersionLists
  import opened Text

  datatype Constraint = Single(v: Version) | Span(r: Range) | List(elements: seq<Range>)

  datatype ParseError =
    | EmptyToken(text: string)      // a comma-separated piece with nothing in it
    | MalformedRange(token: string) // a piece with more than one ':'

  // ---------------------------------------------------------------------------------------
  // Parsing
  // ---------------------------------------------------------------------------------------

  /** An empty side of a range is an absent bound. */
  function Bound(s: string): Option<Version>
  {
    if s == [] then None else Some(ParseVersion(s))
  }

  /**
   * One comma-free piece: a single version, or a range when it holds one ':' (white space
   * around the piece and around the ':' is ignored).
   */
  function ParseElement(token: string): (r: Result<Constraint, ParseError>)
    ensures r.Err? <==> Trim(token) == [] || Count(Trim(token), ':') >= 2
    ensures r.Ok? ==> !r.value.List?
    ensures r.Ok? && Count(Trim(token), ':') == 0 ==> r.value == Single(ParseVersion(Trim(token)))
    ensures r.Ok? && Count(Trim(token), ':') == 1 ==> r.value.Span?
  {
    var t := Trim(token);
    var parts := Split(t, ':');
    if t == [] then Err(EmptyToken(token))
    else if |parts| == 1 then
      SplitWithout(t, ':');
      Ok(Single(ParseVersion(t)))
    else if |parts| == 2 then Ok(Span(Range(Bound(Trim(parts[0])), Bound(Trim(parts[1])))))
    else Err(MalformedRange(token))
  }

  /**
   * A piece with one ':' is the range whose bounds are the two sides of that ':', each with its
   * white space removed; an empty side leaves that bound open.
   */
  lemma ParseElementRange(token: string)
    requires Trim(token) != [] && Count(Trim(token), ':') == 1
    ensures exists lo: string, hi: string :: (Trim(token) == lo + ":" + hi && ':' !in lo && ':' !in hi &&
      ParseElement(token) == Ok(Span(Range(Bound(Trim(lo)), Bound(Trim(hi))))))
  {
    var t := Trim(token);
    var parts := Split(t, ':');
    SplitJoin(t, ':');
    assert parts[1..] == [parts[1]];
    assert t == parts[0] + ":" + parts[1];
  }

  /** The range a single version or range stands for in a list. */
  function ElementRange(c: Constraint): Range
    requires !c.List?
  {
    if c.Single? then Point(c.v) else c.r
  }

  /** Some piece does not parse. */
  predicate SomePieceFails(tokens: seq<string>)
  {
    exists i :: 0 <= i < |tokens| && ParseElement(tokens[i]).Err?
  }

  /** Every comma-separated piece of the text, parsed; the first failing piece is the error. */
  function ParseTokens(tokens: seq<string>): (r: Result<seq<Range>, ParseError>)
    ensures r.Err? <==> SomePieceFails(tokens)
    ensures r.Ok? ==> |r.value| == |tokens|
    ensures r.Ok? ==> forall i :: 0 <= i < |tokens| ==> r.value[i] == ElementRange(ParseElement(tokens[i]).value)
  {
    if tokens == [] then Ok([])
    else
      match ParseElement(tokens[0])
      case Err(e) => Err(e)
      case Ok(c) =>
        assert forall i :: 0 < i < |tokens| ==> tokens[i] == tokens[1..][i - 1];
        match ParseTokens(tokens[1..])
        case Err(e) => Err(e)
        case Ok(rest) =>
          var out := [ElementRange(c)] + rest;
          assert forall i :: 0 < i < |out| ==> out[i] == rest[i - 1];
          Ok(out)
  }

  /**
   * `ver(text)`: a version, a range or, when the text holds a ',', the canonical list built from
   * its pieces in order.
   */
  function Parse(s: string): (r: Result<Constraint, ParseError>)
    ensures Count(s, ',') == 0 ==> r == ParseElement(s)
    ensures Count(s, ',') > 0 && r.Ok? ==> r.value.List?
  {
    var tokens := Split(s, ',');
    if |tokens| == 1 then
      SplitWithout(s, ',');
      ParseElement(s)
    else
      var pieces := ParseTokens(tokens);
      if pieces.Err? then Err(pieces.error) else Ok(List(FromSeq(pieces.value)))
  }

  /** Text with a ',' fails to parse exactly when one of its comma-separated pieces does. */
  lemma ParseErrors(s: string)
    requires Count(s, ',') > 0
    ensures Parse(s).Err? <==> SomePieceFails(Split(s, ','))
  {
    var tokens := Split(s, ',');
    assert |tokens| != 1;
    assert Parse(s).Err? <==> ParseTokens(tokens).Err?;
  }

  /** Every constraint takes part in comparisons, containment and overlap as the list of its elements. */
  function AsList(c: Constraint): seq<Range>
  {
    match c
    case Single(v) => [Point(v)]
    case Span(r) => [r]
    case List(l) => l
  }

  /** The elements of every string's constraint, one string after another. */
  function ParseAll(strings: seq<string>): (r: Result<seq<Range>, ParseError>)
    ensures r.Err? <==> SomeStringFails(strings)
  {
    if strings == [] then Ok([])
    else
      match Parse(strings[0])
      case Err(e) => Err(e)
      case Ok(c) =>
        assert forall i :: 0 < i < |strings| ==> strings[i] == strings[1..][i - 1];
        match ParseAll(strings[1..])
        case Err(e) => Err(e)
        case Ok(rest) => Ok(AsList(c) + rest)
  }

  /** Some string does not parse. */
  predicate SomeStringFails(strings: seq<string>)
  {
    exists i :: 0 <= i < |strings| && Parse(strings[i]).Err?
  }

  /** Some parsed string holds the version. */
  predicate SomeStringHolds(strings: seq<string>, v: Version)
    requires !SomeStringFails(strings)
  {
    exists i :: 0 <= i < |strings| && ContainsVersion(AsList(Parse(strings[i]).value), v)
  }

  /** The elements of all the strings hold a version exactly when the elements of one string do. */
  lemma {:induction false} ParseAllMembers(strings: seq<string>, v: Version)
    requires ParseAll(strings).Ok?
    ensures ContainsVersion(ParseAll(strings).value, v) <==> SomeStringHolds(strings, v)
  {
    if strings != [] {
      ParseAllMembers(strings[1..], v);
      ParseAllMembersStep(strings, v);
    }
  }

  lemma ParseAllMembersStep(strings: seq<string>, v: Version)
    requires strings != [] && ParseAll(strings).Ok?
    requires ContainsVersion(ParseAll(strings[1..]).value, v) <==> SomeStringHolds(strings[1..], v)
    ensures ContainsVersion(ParseAll(strings).value, v) <==> SomeStringHolds(strings, v)
  {
    var first := AsList(Parse(strings[0]).value);
    var rest := ParseAll(strings[1..]).value;
    assert ParseAll(strings).value == first + rest;
    ContainsVersionAppend(first, rest, v);
    assert forall i :: 0 < i < |strings| ==> strings[i] == strings[1..][i - 1];
    if SomeStringHolds(strings[1..], v) {
      var i :| 0 <= i < |strings[1..]| && ContainsVersion(AsList(Parse(strings[1..][i]).value), v);
      assert ContainsVersion(AsList(Parse(strings[i + 1]).value), v);
    }
  }

  /** `ver(list)`: every string is parsed, and all of their elements go into one list. */
  function ParseList(strings: seq<string>): (r: Result<Constraint, ParseError>)
    ensures r.Err? <==> SomeStringFails(strings)
    ensures r.Ok? ==> r.value.List?
  {
    match ParseAll(strings)
    case Err(e) => Err(e)
    case Ok(rs) => Ok(List(FromSeq(rs)))
  }

  // ---------------------------------------------------------------------------------------
  // The operations on parsed constraints
  // ---------------------------------------------------------------------------------------

  /** `a < b`: no constraint is below itself, and of two constraints at most one is below the other. */
  function Less(a: Constraint, b: Constraint): (r: bool)
    ensures r ==> AsList(a) != AsList(b) && !ListLt(AsList(b), AsList(a))
  {
    ListLtTrichotomy(AsList(a), AsList(b));
    ListLt(AsList(a), AsList(b))
  }

  /** `a == b`: the same constraint is exactly the one neither below nor above. */
  function Same(a: Constraint, b: Constraint): (r: bool)
    ensures r <==> !Less(a, b) && !Less(b, a)
  {
    ListLtTrichotomy(AsList(a), AsList(b));
    AsList(a) == AsList(b)
  }

  /** `needle in haystack`: every version of the needle is in the haystack, and ":" holds everything. */
  function In(needle: Constraint, haystack: Constraint): (r: bool)
    ensures r ==> forall v :: ContainsVersion(AsList(needle), v) ==> ContainsVersion(AsList(haystack), v)
    ensures haystack == Span(Everything()) ==> r
  {
    ContainsListSoundAll(AsList(haystack), AsList(needle));
    EverythingListAbsorbs(AsList(needle));
    ContainsList(AsList(haystack), AsList(needle))
  }

  /** `a.overlaps(b)`: constraints of well-formed ranges overlap exactly when they share a version. */
  function ConstraintOverlaps(a: Constraint, b: Constraint): (o: bool)
    ensures AllWellFormed(AsList(a)) && AllWellFormed(AsList(b)) ==>
      (o <==> exists v :: ContainsVersion(AsList(a), v) && ContainsVersion(AsList(b), v))
  {
    if AllWellFormed(AsList(a)) && AllWellFormed(AsList(b)) then
      ListOverlapsIffCommonVersion(AsList(a), AsList(b));
      ListOverlaps(AsList(a), AsList(b))
    else
      ListOverlaps(AsList(a), AsList(b))
  }

  // ---------------------------------------------------------------------------------------
  // Laws
  // ---------------------------------------------------------------------------------------

  /** Between two versions, `Less` is version order. */
  lemma LessOnVersions(v: Version, w: Version)
    ensures Less(Single(v), Single(w)) <==> Lt(v, w)
    ensures Same(Single(v), Single(w)) <==> v == w
  {
    ListLtSingletons(Point(v), Point(w));
    RangeLtPoints(v, w);
  }

  /** Between ranges and versions, `Less` is range order with a version as the range v:v. */
  lemma LessOnRanges(a: Range, b: Range, v: Version)
    ensures Less(Span(a), Span(b)) <==> RangeLt(a, b)
    ensures Less(Span(a), Single(v)) <==> RangeLt(a, Point(v))
    ensures Less(Single(v), Span(a)) <==> RangeLt(Point(v), a)
  {
    ListLtSingletons(a, b);
    ListLtSingletons(a, Point(v));
    ListLtSingletons(Point(v), a);
  }

  /** Exactly one of a < b, a same as b, b < a holds, and < is transitive. */
  lemma ConstraintOrder(a: Constraint, b: Constraint, c: Constraint)
    ensures Less(a, b) || Same(a, b) || Less(b, a)
    ensures !(Less(a, b) && Less(b, a)) && !(Less(a, b) && Same(a, b))
    ensures Less(a, b) && Less(b, c) ==> Less(a, c)
  {
    ListLtTrichotomy(AsList(a), AsList(b));
    if Less(a, b) && Less(b, c) {
      ListLtTransitive(AsList(a), AsList(b), AsList(c));
    }
  }

  /** A version is in a constraint exactly when some element of it holds the version. */
  lemma VersionIn(v: Version, haystack: Constraint)
    ensures In(Single(v), haystack) <==> ContainsVersion(AsList(haystack), v)
  {
    ContainsPointElement(AsList(haystack), v);
  }

  /** A version is in a range exactly when it lies between the bounds. */
  lemma VersionInRange(v: Version, r: Range)
    ensures In(Single(v), Span(r)) <==> InRange(r, v)
  {
    ContainsPoint(r, v);
  }

  lemma ConstraintOverlapsSymmetric(a: Constraint, b: Constraint)
    ensures ConstraintOverlaps(a, b) <==> ConstraintOverlaps(b, a)
  {
    ListOverlapsSymmetric(AsList(a), AsList(b));
  }

  /** Some parsed piece holds the version. */
  predicate SomePieceHolds(tokens: seq<string>, v: Version)
    requires forall i :: 0 <= i < |tokens| ==> ParseElement(tokens[i]).Ok?
  {
    exists i :: 0 <= i < |tokens| && InRange(ElementRange(ParseElement(tokens[i]).value), v)
  }

  /**
   * A parsed list of well-formed pieces is canonical and holds exactly the versions that some
   * piece holds.
   */
  lemma ParsedList(s: string, v: Version)
    requires Count(s, ',') > 0 && Parse(s).Ok?
    requires AllWellFormed(ParseTokens(Split(s, ',')).value)
    ensures Parse(s).value.List? && Canonical(Parse(s).value.elements)
    ensures ContainsVersion(Parse(s).value.elements, v) <==> SomePieceHolds(Split(s, ','), v)
  {
    var tokens := Split(s, ',');
    var rs := ParseTokens(tokens).value;
    assert Parse(s).value.elements == FromSeq(rs);
    FromSeqCanonical(rs);
    FromSeqMembers(rs, v);
    PiecesMembers(tokens, v);
  }

  /**
   * `ver(list)` of strings whose elements are well-formed ranges is canonical and holds exactly
   * the versions that one of the strings holds.
   */
  lemma ParsedStrings(strings: seq<string>, v: Version)
    requires ParseList(strings).Ok?
    requires AllWellFormed(ParseAll(strings).value)
    ensures Canonical(ParseList(strings).value.elements)
    ensures ContainsVersion(ParseList(strings).value.elements, v) <==> SomeStringHolds(strings, v)
  {
    var rs := ParseAll(strings).value;
    assert ParseList(strings).value.elements == FromSeq(rs);
    FromSeqCanonical(rs);
    FromSeqMembers(rs, v);
    ParseAllMembers(strings, v);
  }

  lemma PiecesMembers(tokens: seq<string>, v: Version)
    requires ParseTokens(tokens).Ok?
    ensures ContainsVersion(ParseTokens(tokens).value, v) <==> SomePieceHolds(tokens, v)
  {
    var rs := ParseTokens(tokens).value;
    if ContainsVersion(rs, v) {
      var i :| 0 <= i < |rs| && InRange(rs[i], v);
      assert InRange(ElementRange(ParseElement(tokens[i]).value), v);
    }
    if SomePieceHolds(tokens, v) {
      var i :| 0 <= i < |tokens| && InRange(ElementRange(ParseElement(tokens[i]).value), v);
      assert InRange(rs[i], v);
    }
  }
}
