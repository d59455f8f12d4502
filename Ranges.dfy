/**
 * Ranges: a pair of optional inclusive bounds. An absent lower bound lies below every version
 * and an absent upper bound above every version, so the range ":" holds everything. A single
 * version v takes part in range algebra as the range v:v.
 */
module Ranges {
  import opened Wrappers
  import opened Versions

  datatype Range = Range(lo: Option<Version>, hi: Option<Version>)

  function Point(v: Version): Range
  {
    Range(Some(v), Some(v))
  }

  /** The range ":" with no bounds. */
  function Everything(): Range
  {
    Range(None, None)
  }

  // ---------------------------------------------------------------------------------------
  // Bounds
  // ---------------------------------------------------------------------------------------

  predicate AtOrAboveLower(lo: Option<Version>, v: Version)
  {
    lo.None? || Le(lo.value, v)
  }

  predicate AtOrBelowUpper(v: Version, hi: Option<Version>)
  {
    hi.None? || Le(v, hi.value)
  }

  /** Lower bound `a` is at or below lower bound `b` (absent is lowest). */
  predicate LowerLe(a: Option<Version>, b: Option<Version>)
  {
    a.None? || (b.Some? && Le(a.value, b.value))
  }

  /** Upper bound `a` is at or below upper bound `b` (absent is highest). */
  predicate UpperLe(a: Option<Version>, b: Option<Version>)
  {
    b.None? || (a.Some? && Le(a.value, b.value))
  }

  /** A lower bound at or below an upper bound; an absent bound on either side always qualifies. */
  predicate LowerAtOrBelowUpper(lo: Option<Version>, hi: Option<Version>)
  {
    lo.None? || hi.None? || Le(lo.value, hi.value)
  }

  function MinLower(a: Option<Version>, b: Option<Version>): Option<Version>
  {
    if LowerLe(a, b) then a else b
  }

  function MaxUpper(a: Option<Version>, b: Option<Version>): Option<Version>
  {
    if UpperLe(a, b) then b else a
  }

  // ---------------------------------------------------------------------------------------
  // Range operations
  // ---------------------------------------------------------------------------------------

  /**
   * Both bounds inclusive; absent bounds are the infinities. A range that holds any version at
   * all is not inverted, and ":" holds every version.
   */
  predicate InRange(r: Range, v: Version): (b: bool)
    ensures b ==> WellFormed(r)
    ensures r == Everything() ==> b
  {
    var b := AtOrAboveLower(r.lo, v) && AtOrBelowUpper(v, r.hi);
    if b && r.lo.Some? && r.hi.Some? then
      LeTransitive(r.lo.value, v, r.hi.value);
      b
    else b
  }

  /** The range is not inverted. Ranges are not checked for this when they are built. */
  predicate WellFormed(r: Range)
  {
    LowerAtOrBelowUpper(r.lo, r.hi)
  }

  /**
   * `inner in outer`: the outer range's bounds enclose the inner range's bounds. An open side of
   * the inner range needs an open side of the outer one, and a range that encloses a well-formed
   * range is itself well formed.
   */
  predicate Contains(outer: Range, inner: Range): (b: bool)
    ensures b ==> (inner.lo.None? ==> outer.lo.None?) && (inner.hi.None? ==> outer.hi.None?)
    ensures b && WellFormed(inner) ==> WellFormed(outer)
  {
    var b := LowerLe(outer.lo, inner.lo) && UpperLe(inner.hi, outer.hi);
    if b && WellFormed(inner) && outer.lo.Some? && outer.hi.Some? then
      LeTransitive(outer.lo.value, inner.lo.value, inner.hi.value);
      LeTransitive(outer.lo.value, inner.hi.value, outer.hi.value);
      b
    else b
  }

  /** The inclusive-interval intersection test: two ranges overlap unless one lies strictly before the other. */
  predicate Overlaps(a: Range, b: Range): (o: bool)
    ensures o <==> !StrictlyBefore(a, b) && !StrictlyBefore(b, a)
  {
    BoundsMeet(a.lo, b.hi);
    BoundsMeet(b.lo, a.hi);
    LowerAtOrBelowUpper(a.lo, b.hi) && LowerAtOrBelowUpper(b.lo, a.hi)
  }

  /** A lower bound fails to reach an upper bound exactly when the upper bound lies strictly below it. */
  lemma BoundsMeet(lo: Option<Version>, hi: Option<Version>)
    ensures LowerAtOrBelowUpper(lo, hi) <==> !(hi.Some? && lo.Some? && Lt(hi.value, lo.value))
  {
    if lo.Some? && hi.Some? {
      Trichotomy(lo.value, hi.value);
    }
  }

  /** The smallest range enclosing both: it contains each of them. */
  function Merge(a: Range, b: Range): (m: Range)
    ensures Contains(m, a) && Contains(m, b)
  {
    LowerLeTotal(a.lo, b.lo);
    UpperLeTotal(a.hi, b.hi);
    Range(MinLower(a.lo, b.lo), MaxUpper(a.hi, b.hi))
  }

  /** Every version of `a` lies strictly below every version of `b`. */
  predicate StrictlyBefore(a: Range, b: Range)
  {
    a.hi.Some? && b.lo.Some? && Lt(a.hi.value, b.lo.value)
  }

  /**
   * Ranges sort by lower bound (absent first), then by upper bound (absent last): a smaller range
   * never has the higher lower bound, and a strictly lower lower bound decides.
   */
  predicate RangeLt(a: Range, b: Range): (r: bool)
    ensures r ==> LowerLe(a.lo, b.lo)
    ensures a.lo.Some? && b.lo.Some? && Lt(a.lo.value, b.lo.value) ==> r
  {
    var r := (a.lo != b.lo && LowerLe(a.lo, b.lo)) || (a.lo == b.lo && a.hi != b.hi && UpperLe(a.hi, b.hi));
    if a.lo.Some? then LtIrreflexive(a.lo.value); r else r
  }

  // ---------------------------------------------------------------------------------------
  // Bound laws
  // ---------------------------------------------------------------------------------------

  lemma LowerLeTransitive(a: Option<Version>, b: Option<Version>, c: Option<Version>)
    requires LowerLe(a, b) && LowerLe(b, c)
    ensures LowerLe(a, c)
  {
    if a.Some? {
      LeTransitive(a.value, b.value, c.value);
    }
  }

  lemma UpperLeTransitive(a: Option<Version>, b: Option<Version>, c: Option<Version>)
    requires UpperLe(a, b) && UpperLe(b, c)
    ensures UpperLe(a, c)
  {
    if c.Some? {
      LeTransitive(a.value, b.value, c.value);
    }
  }

  lemma LowerLeTotal(a: Option<Version>, b: Option<Version>)
    ensures LowerLe(a, b) || LowerLe(b, a)
    ensures LowerLe(a, b) && LowerLe(b, a) ==> a == b
  {
    if a.Some? && b.Some? {
      Trichotomy(a.value, b.value);
    }
  }

  lemma UpperLeTotal(a: Option<Version>, b: Option<Version>)
    ensures UpperLe(a, b) || UpperLe(b, a)
    ensures UpperLe(a, b) && UpperLe(b, a) ==> a == b
  {
    if a.Some? && b.Some? {
      Trichotomy(a.value, b.value);
    }
  }

  // ---------------------------------------------------------------------------------------
  // Containment
  // ---------------------------------------------------------------------------------------

  /** A version is in a range exactly when the range contains the point range of that version. */
  lemma ContainsPoint(r: Range, v: Version)
    ensures Contains(r, Point(v)) <==> InRange(r, v)
  {
  }

  /** A point range holds exactly its own version. */
  lemma PointHoldsOnlyItself(v: Version, w: Version)
    ensures InRange(Point(v), w) <==> v == w
  {
    if InRange(Point(v), w) {
      LeAntisymmetric(v, w);
    }
  }

  /** Containment of ranges is sound: every version of the inner range is in the outer one. */
  lemma ContainsSound(outer: Range, inner: Range, v: Version)
    requires Contains(outer, inner) && InRange(inner, v)
    ensures InRange(outer, v)
  {
    if outer.lo.Some? {
      LeTransitive(outer.lo.value, inner.lo.value, v);
    }
    if outer.hi.Some? {
      LeTransitive(v, inner.hi.value, outer.hi.value);
    }
  }

  /**
   * For a range with a lower bound, containment is exactly inclusion of the versions it holds.
   * An open upper bound is covered because no version is the greatest.
   */
  lemma ContainsExact(outer: Range, inner: Range)
    requires inner.lo.Some? && WellFormed(inner)
    ensures Contains(outer, inner) <==> forall v :: InRange(inner, v) ==> InRange(outer, v)
  {
    if forall v :: InRange(inner, v) ==> InRange(outer, v) {
      assert InRange(inner, inner.lo.value);
      if inner.hi.Some? {
        assert InRange(inner, inner.hi.value);
      } else if outer.hi.Some? {
        var w := AboveBoth(inner.lo.value, outer.hi.value);
        assert InRange(inner, w);
        LtAsymmetric(outer.hi.value, w);
        assert false;
      }
    } else {
      var v :| InRange(inner, v) && !InRange(outer, v);
      if Contains(outer, inner) {
        ContainsSound(outer, inner, v);
      }
    }
  }

  /** A version above two given versions: no version is the greatest. */
  lemma AboveBoth(a: Version, b: Version) returns (w: Version)
    ensures Lt(a, w) && Lt(b, w)
  {
    Trichotomy(a, b);
    var top := if Lt(a, b) then b else a;
    w := Version(top.segments + [Num(0)]);
    ExtensionIsGreater(top.segments, [Num(0)]);
    if Lt(a, b) {
      LtTransitive(a, b, w);
    } else if a != b {
      LtTransitive(b, a, w);
    }
  }

  lemma ContainsReflexive(r: Range)
    ensures Contains(r, r)
  {
  }

  lemma ContainsTransitive(a: Range, b: Range, c: Range)
    requires Contains(a, b) && Contains(b, c)
    ensures Contains(a, c)
  {
    LowerLeTransitive(a.lo, b.lo, c.lo);
    UpperLeTransitive(c.hi, b.hi, a.hi);
  }

  lemma ContainsAntisymmetric(a: Range, b: Range)
    requires Contains(a, b) && Contains(b, a)
    ensures a == b
  {
    LowerLeTotal(a.lo, b.lo);
    UpperLeTotal(a.hi, b.hi);
  }

  /** The range ":" contains every range and every version. */
  lemma EverythingContainsAll(r: Range, v: Version)
    ensures Contains(Everything(), r)
    ensures InRange(Everything(), v)
    ensures Overlaps(Everything(), r) && Overlaps(r, Everything())
  {
  }

  // ---------------------------------------------------------------------------------------
  // Overlap
  // ---------------------------------------------------------------------------------------

  lemma OverlapsSymmetric(a: Range, b: Range)
    ensures Overlaps(a, b) <==> Overlaps(b, a)
  {
  }

  /** A version that lies in both ranges, if they overlap. */
  function CommonWitness(a: Range, b: Range): Version
  {
    if a.lo.Some? && b.lo.Some? then (if Le(a.lo.value, b.lo.value) then b.lo.value else a.lo.value)
    else if a.lo.Some? then a.lo.value
    else if b.lo.Some? then b.lo.value
    else if a.hi.Some? && b.hi.Some? then (if Le(a.hi.value, b.hi.value) then a.hi.value else b.hi.value)
    else if a.hi.Some? then a.hi.value
    else if b.hi.Some? then b.hi.value
    else Version([])
  }

  lemma CommonWitnessInBoth(a: Range, b: Range)
    requires WellFormed(a) && WellFormed(b) && Overlaps(a, b)
    ensures InRange(a, CommonWitness(a, b)) && InRange(b, CommonWitness(a, b))
  {
    var w := CommonWitness(a, b);
    if a.lo.Some? && b.lo.Some? {
      Trichotomy(a.lo.value, b.lo.value);
      if Le(a.lo.value, b.lo.value) {
        assert w == b.lo.value;
      } else {
        assert w == a.lo.value;
        assert Le(b.lo.value, a.lo.value);
        if b.hi.Some? {
          LeTransitive(b.lo.value, a.lo.value, b.hi.value);
        }
      }
    } else if !a.lo.Some? && !b.lo.Some? && a.hi.Some? && b.hi.Some? {
      Trichotomy(a.hi.value, b.hi.value);
    }
  }

  /** For well-formed ranges, overlapping means sharing a version. */
  lemma OverlapsIffCommonVersion(a: Range, b: Range)
    requires WellFormed(a) && WellFormed(b)
    ensures Overlaps(a, b) <==> exists v :: InRange(a, v) && InRange(b, v)
  {
    if Overlaps(a, b) {
      CommonWitnessInBoth(a, b);
    }
    if v :| InRange(a, v) && InRange(b, v) {
      if a.lo.Some? && b.hi.Some? {
        LeTransitive(a.lo.value, v, b.hi.value);
      }
      if b.lo.Some? && a.hi.Some? {
        LeTransitive(b.lo.value, v, a.hi.value);
      }
    }
  }

  /** Ranges that lie strictly one before the other do not overlap. */
  lemma StrictlyBeforeDisjoint(a: Range, b: Range)
    requires StrictlyBefore(a, b)
    ensures !Overlaps(a, b) && !Overlaps(b, a)
  {
    Trichotomy(a.hi.value, b.lo.value);
  }

  /** Well-formed ranges that do not overlap lie strictly one before the other. */
  lemma DisjointSeparated(a: Range, b: Range)
    requires WellFormed(a) && WellFormed(b) && !Overlaps(a, b)
    ensures StrictlyBefore(a, b) || StrictlyBefore(b, a)
  {
    if a.hi.Some? && b.lo.Some? && !Le(b.lo.value, a.hi.value) {
      Trichotomy(b.lo.value, a.hi.value);
    } else {
      Trichotomy(a.lo.value, b.hi.value);
    }
  }

  lemma StrictlyBeforeTransitive(a: Range, b: Range, c: Range)
    requires StrictlyBefore(a, b) && WellFormed(b) && StrictlyBefore(b, c)
    ensures StrictlyBefore(a, c)
  {
    if b.lo.value == b.hi.value {
      LtTransitive(a.hi.value, b.lo.value, c.lo.value);
    } else {
      LtTransitive(a.hi.value, b.lo.value, b.hi.value);
      LtTransitive(a.hi.value, b.hi.value, c.lo.value);
    }
  }

  lemma StrictlyBeforeAsymmetric(a: Range, b: Range)
    requires WellFormed(a) && WellFormed(b) && StrictlyBefore(a, b)
    ensures !StrictlyBefore(b, a)
  {
    if StrictlyBefore(b, a) {
      StrictlyBeforeTransitive(a, b, a);
      assert Lt(a.hi.value, a.lo.value);
      Trichotomy(a.lo.value, a.hi.value);
    }
  }

  lemma StrictlyBeforeIrreflexive(a: Range)
    requires WellFormed(a)
    ensures !StrictlyBefore(a, a)
  {
    if a.lo.Some? && a.hi.Some? {
      Trichotomy(a.lo.value, a.hi.value);
    }
  }

  /** Enlarging two overlapping ranges keeps them overlapping. */
  lemma OverlapsGrow(a: Range, b: Range, a': Range, b': Range)
    requires Overlaps(a, b) && Contains(a', a) && Contains(b', b)
    ensures Overlaps(a', b')
  {
    if a'.lo.Some? && b'.hi.Some? {
      LeTransitive(a'.lo.value, a.lo.value, b.hi.value);
      LeTransitive(a'.lo.value, b.hi.value, b'.hi.value);
    }
    if b'.lo.Some? && a'.hi.Some? {
      LeTransitive(b'.lo.value, b.lo.value, a.hi.value);
      LeTransitive(b'.lo.value, a.hi.value, a'.hi.value);
    }
  }

  /** A well-formed range overlaps every range that contains it. */
  lemma ContainedOverlaps(outer: Range, inner: Range)
    requires WellFormed(inner) && Contains(outer, inner)
    ensures Overlaps(outer, inner)
  {
    var v := CommonWitness(inner, inner);
    CommonWitnessInBoth(inner, inner);
    ContainsSound(outer, inner, v);
    OverlapsIffCommonVersion(inner, inner);
    if outer.lo.Some? && inner.hi.Some? {
      LeTransitive(outer.lo.value, v, inner.hi.value);
    }
    if inner.lo.Some? && outer.hi.Some? {
      LeTransitive(inner.lo.value, v, outer.hi.value);
    }
  }

  // ---------------------------------------------------------------------------------------
  // Merge
  // ---------------------------------------------------------------------------------------

  /** The merge is the least range that encloses both. */
  lemma MergeLeast(a: Range, b: Range, f: Range)
    requires Contains(f, a) && Contains(f, b)
    ensures Contains(f, Merge(a, b))
  {
  }

  lemma MergeWellFormed(a: Range, b: Range)
    requires WellFormed(a)
    ensures WellFormed(Merge(a, b))
  {
    var m := Merge(a, b);
    if m.lo.Some? && m.hi.Some? {
      LeTransitive(m.lo.value, a.lo.value, a.hi.value);
      LeTransitive(m.lo.value, a.hi.value, m.hi.value);
    }
  }

  /** Merging two overlapping well-formed ranges adds no version that was in neither. */
  lemma MergeIsUnion(a: Range, b: Range, v: Version)
    requires WellFormed(a) && WellFormed(b) && Overlaps(a, b)
    ensures InRange(Merge(a, b), v) <==> InRange(a, v) || InRange(b, v)
  {
    if InRange(a, v) {
      ContainsSound(Merge(a, b), a, v);
    } else if InRange(b, v) {
      ContainsSound(Merge(a, b), b, v);
    } else if InRange(Merge(a, b), v) {
      MergeIsUnionGap(a, b, v);
    }
  }

  lemma MergeIsUnionGap(a: Range, b: Range, v: Version)
    requires WellFormed(a) && WellFormed(b) && Overlaps(a, b)
    requires InRange(Merge(a, b), v)
    ensures InRange(a, v) || InRange(b, v)
  {
    LowerLeTotal(a.lo, b.lo);
    UpperLeTotal(a.hi, b.hi);
    if !InRange(a, v) {
      if !AtOrAboveLower(a.lo, v) {
        // v lies below a, so the merge's lower bound is b's and v is at most b's upper bound.
        Trichotomy(a.lo.value, v);
        assert LowerLe(b.lo, a.lo) && b.lo != a.lo;
        if b.hi.Some? {
          if a.hi.Some? {
            LeTransitive(v, a.lo.value, a.hi.value);
            if !UpperLe(a.hi, b.hi) {
              assert Le(v, a.hi.value);
            }
          }
          LeTransitive(v, a.lo.value, b.hi.value);
        }
      } else {
        // v lies above a, so the merge's upper bound is b's and v is at least b's lower bound.
        Trichotomy(v, a.hi.value);
        if b.lo.Some? {
          LeTransitive(b.lo.value, a.hi.value, v);
        }
      }
    }
  }

  // ---------------------------------------------------------------------------------------
  // The order of ranges
  // ---------------------------------------------------------------------------------------

  lemma RangeLtIrreflexive(a: Range)
    ensures !RangeLt(a, a)
  {
  }

  lemma RangeLtTransitive(a: Range, b: Range, c: Range)
    requires RangeLt(a, b) && RangeLt(b, c)
    ensures RangeLt(a, c)
  {
    LowerLeTotal(a.lo, b.lo);
    LowerLeTotal(b.lo, c.lo);
    LowerLeTotal(a.lo, c.lo);
    UpperLeTotal(a.hi, b.hi);
    UpperLeTotal(b.hi, c.hi);
    UpperLeTotal(a.hi, c.hi);
    if a.lo != b.lo && b.lo != c.lo {
      LowerLeTransitive(a.lo, b.lo, c.lo);
    } else if a.lo == b.lo && b.lo == c.lo {
      UpperLeTransitive(a.hi, b.hi, c.hi);
    }
  }

  /** Range order is total: any two different ranges are ordered one way round. */
  lemma RangeLtTrichotomy(a: Range, b: Range)
    ensures RangeLt(a, b) || a == b || RangeLt(b, a)
    ensures !(RangeLt(a, b) && RangeLt(b, a))
  {
    LowerLeTotal(a.lo, b.lo);
    UpperLeTotal(a.hi, b.hi);
  }

  /** On point ranges, range order is version order. */
  lemma RangeLtPoints(v: Version, w: Version)
    ensures RangeLt(Point(v), Point(w)) <==> Lt(v, w)
  {
    Trichotomy(v, w);
  }
}
