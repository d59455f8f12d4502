/**
 * Version lists: canonical sequences of ranges (a single version is the range v:v). A list is
 * built by inserting its elements one at a time into the empty list; every insertion merges
 * the new element with everything it overlaps and keeps the list sorted.
 */
module VersionLists {
  import opened Wrappers
  import opened Versions
  import opened Ranges

  predicate AllWellFormed(s: seq<Range>)
  {
    forall i :: 0 <= i < |s| ==> WellFormed(s[i])
  }

  /**
   * Canonical form: every element is a well-formed range, and each element lies strictly
   * before every later one, so the list is sorted and no two elements overlap or touch.
   */
  predicate Canonical(l: seq<Range>)
  {
    AllWellFormed(l) && forall i, j :: 0 <= i < j < |l| ==> StrictlyBefore(l[i], l[j])
  }

  // ---------------------------------------------------------------------------------------
  // Construction
  // ---------------------------------------------------------------------------------------

  /**
   * Inserts one element, merging it with every element it overlaps: the list grows by at most
   * one element, and is never empty afterwards.
   */
  function Insert(l: seq<Range>, e: Range): (r: seq<Range>)
    ensures 1 <= |r| <= |l| + 1
    decreases |l|
  {
    if l == [] then [e]
    else if Overlaps(l[0], e) then Insert(l[1..], Merge(l[0], e))
    else if StrictlyBefore(e, l[0]) then [e] + l
    else [l[0]] + Insert(l[1..], e)
  }

  /** The list built by inserting the elements of `s`, first to last, into the empty list. */
  function FromSeq(s: seq<Range>): (r: seq<Range>)
    ensures |r| <= |s| && (r == [] <==> s == [])
  {
    if s == [] then [] else Insert(FromSeq(s[..|s| - 1]), s[|s| - 1])
  }

  // ---------------------------------------------------------------------------------------
  // Queries
  // ---------------------------------------------------------------------------------------

  /** `v in l` for a version: some element holds it. */
  function ContainsVersion(l: seq<Range>, v: Version): (b: bool)
    ensures b <==> exists i :: 0 <= i < |l| && InRange(l[i], v)
  {
    if l == [] then false
    else if InRange(l[0], v) then true
    else
      var b := ContainsVersion(l[1..], v);
      assert forall i :: 0 < i < |l| ==> l[i] == l[1..][i - 1];
      b
  }

  /** `r in l` for a range: a single element encloses it. */
  function ContainsRange(l: seq<Range>, r: Range): (b: bool)
    ensures b <==> exists i :: 0 <= i < |l| && Contains(l[i], r)
  {
    if l == [] then false
    else if Contains(l[0], r) then true
    else
      var b := ContainsRange(l[1..], r);
      assert forall i :: 0 < i < |l| ==> l[i] == l[1..][i - 1];
      b
  }

  /** `n in h` for two lists: each element of `n` is enclosed by a single element of `h`. */
  function ContainsList(h: seq<Range>, n: seq<Range>): (b: bool)
    ensures b <==> forall j :: 0 <= j < |n| ==> ContainsRange(h, n[j])
  {
    if n == [] then true
    else
      var b := ContainsRange(h, n[0]) && ContainsList(h, n[1..]);
      assert forall j :: 0 < j < |n| ==> n[j] == n[1..][j - 1];
      b
  }

  /** Some element of `l` overlaps `r`. */
  function OverlapsAny(l: seq<Range>, r: Range): (b: bool)
    ensures b <==> exists j :: 0 <= j < |l| && Overlaps(l[j], r)
  {
    if l == [] then false
    else if Overlaps(l[0], r) then true
    else
      var b := OverlapsAny(l[1..], r);
      assert forall i :: 0 < i < |l| ==> l[i] == l[1..][i - 1];
      b
  }

  /** Two lists overlap when some element of one overlaps some element of the other. */
  function ListOverlaps(a: seq<Range>, b: seq<Range>): (o: bool)
    ensures o <==> exists i, j :: 0 <= i < |a| && 0 <= j < |b| && Overlaps(a[i], b[j])
  {
    if a == [] then false
    else if OverlapsAny(b, a[0]) then
      OverlapsSymmetricAll(b, a[0]);
      true
    else
      var o := ListOverlaps(a[1..], b);
      assert forall i :: 0 < i < |a| ==> a[i] == a[1..][i - 1];
      OverlapsSymmetricAll(b, a[0]);
      o
  }

  lemma OverlapsSymmetricAll(b: seq<Range>, x: Range)
    ensures forall j :: 0 <= j < |b| ==> (Overlaps(b[j], x) <==> Overlaps(x, b[j]))
  {
  }

  /**
   * Lists compare lexicographically, element by element in range order. No list is below
   * itself, and the empty list is below exactly the non-empty lists.
   */
  function ListLt(a: seq<Range>, b: seq<Range>): (r: bool)
    ensures r ==> a != b && b != []
    ensures a == [] && b != [] ==> r
  {
    if a == [] then b != []
    else if b == [] then false
    else if a[0] == b[0] then ListLt(a[1..], b[1..])
    else RangeLt(a[0], b[0])
  }

  // ---------------------------------------------------------------------------------------
  // Insertion keeps the list canonical and adds exactly the new element's versions
  // ---------------------------------------------------------------------------------------

  lemma MergeAfter(p: Range, a: Range, b: Range)
    requires StrictlyBefore(p, a) && StrictlyBefore(p, b)
    ensures StrictlyBefore(p, Merge(a, b))
  {
  }

  /** A range that lies before the list and before the new element lies before the result. */
  lemma {:induction false} InsertStaysAfter(l: seq<Range>, e: Range, p: Range)
    requires forall k :: 0 <= k < |l| ==> StrictlyBefore(p, l[k])
    requires StrictlyBefore(p, e)
    ensures forall k :: 0 <= k < |Insert(l, e)| ==> StrictlyBefore(p, Insert(l, e)[k])
    decreases |l|
  {
    if l == [] {
    } else if Overlaps(l[0], e) {
      MergeAfter(p, l[0], e);
      InsertStaysAfter(l[1..], Merge(l[0], e), p);
    } else if StrictlyBefore(e, l[0]) {
    } else {
      InsertStaysAfter(l[1..], e, p);
    }
  }

  lemma {:induction false} InsertCanonical(l: seq<Range>, e: Range)
    requires Canonical(l) && WellFormed(e)
    ensures Canonical(Insert(l, e))
    decreases |l|
  {
    if l == [] {
    } else if Overlaps(l[0], e) {
      MergeWellFormed(l[0], e);
      InsertCanonical(l[1..], Merge(l[0], e));
    } else if StrictlyBefore(e, l[0]) {
      forall k | 0 < k < |l|
        ensures StrictlyBefore(e, l[k])
      {
        StrictlyBeforeTransitive(e, l[0], l[k]);
      }
      var r := [e] + l;
      assert forall i, j :: 0 < i < j < |r| ==> r[i] == l[i - 1] && r[j] == l[j - 1];
    } else {
      DisjointSeparated(l[0], e);
      InsertCanonical(l[1..], e);
      InsertStaysAfter(l[1..], e, l[0]);
      var t := Insert(l[1..], e);
      var r := [l[0]] + t;
      assert forall j :: 0 < j < |r| ==> r[j] == t[j - 1];
    }
  }

  lemma ContainsVersionCons(x: Range, l: seq<Range>, v: Version)
    ensures ContainsVersion([x] + l, v) <==> InRange(x, v) || ContainsVersion(l, v)
  {
    assert ([x] + l)[1..] == l;
  }

  /** A version is in two lists put end to end exactly when it is in one of them. */
  lemma ContainsVersionAppend(a: seq<Range>, b: seq<Range>, v: Version)
    ensures ContainsVersion(a + b, v) <==> ContainsVersion(a, v) || ContainsVersion(b, v)
  {
    if ContainsVersion(a, v) {
      var i :| 0 <= i < |a| && InRange(a[i], v);
      assert (a + b)[i] == a[i];
    }
    if ContainsVersion(b, v) {
      var i :| 0 <= i < |b| && InRange(b[i], v);
      assert (a + b)[|a| + i] == b[i];
    }
    if ContainsVersion(a + b, v) {
      var i :| 0 <= i < |a + b| && InRange((a + b)[i], v);
      if i >= |a| {
        assert b[i - |a|] == (a + b)[i];
      } else {
        assert a[i] == (a + b)[i];
      }
    }
  }

  /** After inserting `e`, a version is in the list exactly when it was in it or in `e`. */
  lemma {:induction false} InsertMembers(l: seq<Range>, e: Range, v: Version)
    requires AllWellFormed(l) && WellFormed(e)
    ensures ContainsVersion(Insert(l, e), v) <==> ContainsVersion(l, v) || InRange(e, v)
    decreases |l|
  {
    if l == [] {
    } else {
      ContainsVersionCons(l[0], l[1..], v);
      assert [l[0]] + l[1..] == l;
      if Overlaps(l[0], e) {
        MergeWellFormed(l[0], e);
        MergeIsUnion(l[0], e, v);
        InsertMembers(l[1..], Merge(l[0], e), v);
      } else if StrictlyBefore(e, l[0]) {
        ContainsVersionCons(e, l, v);
      } else {
        InsertMembers(l[1..], e, v);
        ContainsVersionCons(l[0], Insert(l[1..], e), v);
      }
    }
  }

  lemma {:induction false} FromSeqCanonical(s: seq<Range>)
    requires AllWellFormed(s)
    ensures Canonical(FromSeq(s))
  {
    if s != [] {
      FromSeqCanonical(s[..|s| - 1]);
      InsertCanonical(FromSeq(s[..|s| - 1]), s[|s| - 1]);
    }
  }

  /** The built list holds exactly the versions held by some element of the input. */
  lemma {:induction false} FromSeqMembers(s: seq<Range>, v: Version)
    requires AllWellFormed(s)
    ensures ContainsVersion(FromSeq(s), v) <==> ContainsVersion(s, v)
  {
    if s != [] {
      var init := s[..|s| - 1];
      FromSeqMembers(init, v);
      FromSeqCanonical(init);
      InsertMembers(FromSeq(init), s[|s| - 1], v);
      assert forall i :: 0 <= i < |init| ==> init[i] == s[i];
    }
  }

  // ---------------------------------------------------------------------------------------
  // Canonical form is unique: it depends only on the set of elements inserted
  // ---------------------------------------------------------------------------------------

  /**
   * A way to build a range from a set of ranges by merging overlapping pieces. A leaf denotes
   * one member of the set; a join denotes the merge of its children, when they overlap.
   */
  datatype Tree = Leaf(r: Range) | Join(left: Tree, right: Tree)

  function Eval(t: Tree, rs: set<Range>): Option<Range>
  {
    match t
    case Leaf(r) => if r in rs then Some(r) else None
    case Join(a, b) =>
      var x := Eval(a, rs);
      var y := Eval(b, rs);
      if x.Some? && y.Some? && Overlaps(x.value, y.value) then Some(Merge(x.value, y.value)) else None
  }

  ghost predicate Generated(x: Range, rs: set<Range>)
  {
    exists t :: Eval(t, rs) == Some(x)
  }

  ghost predicate AllGenerated(l: seq<Range>, rs: set<Range>)
  {
    forall i :: 0 <= i < |l| ==> Generated(l[i], rs)
  }

  /** Every range of `rs` is enclosed by a single element of `l`. */
  ghost predicate Covers(l: seq<Range>, rs: set<Range>)
  {
    forall r :: r in rs ==> ContainsRange(l, r)
  }

  /** `l` is a canonical list made from, and enclosing, the ranges of `rs`. */
  ghost predicate Characterizes(l: seq<Range>, rs: set<Range>)
  {
    Canonical(l) && Covers(l, rs) && AllGenerated(l, rs)
  }

  ghost predicate SetWellFormed(rs: set<Range>)
  {
    forall r :: r in rs ==> WellFormed(r)
  }

  ghost function Elements(s: seq<Range>): set<Range>
  {
    set x | x in s
  }

  lemma {:induction false} EvalGrows(t: Tree, rs: set<Range>, rs': set<Range>)
    requires rs <= rs' && Eval(t, rs).Some?
    ensures Eval(t, rs') == Eval(t, rs)
  {
    match t
    case Leaf(r) =>
    case Join(a, b) =>
      EvalGrows(a, rs, rs');
      EvalGrows(b, rs, rs');
  }

  /** Whatever a tree builds from a canonical list's covered set lies within one element. */
  lemma {:induction false} TreeInside(t: Tree, rs: set<Range>, l: seq<Range>)
    requires Canonical(l) && Covers(l, rs) && Eval(t, rs).Some?
    ensures ContainsRange(l, Eval(t, rs).value)
  {
    match t
    case Leaf(r) =>
    case Join(a, b) =>
      TreeInside(a, rs, l);
      TreeInside(b, rs, l);
      var x := Eval(a, rs).value;
      var y := Eval(b, rs).value;
      var i :| 0 <= i < |l| && Contains(l[i], x);
      var j :| 0 <= j < |l| && Contains(l[j], y);
      OverlapsGrow(x, y, l[i], l[j]);
      MergeLeast(x, y, l[i]);
  }

  /** In a canonical list no element encloses a different one. */
  lemma EnclosedElementIsSame(l: seq<Range>, i: int, k: int)
    requires Canonical(l) && 0 <= i < |l| && 0 <= k < |l| && Contains(l[k], l[i])
    ensures i == k
  {
    ContainedOverlaps(l[k], l[i]);
  }

  /** Two lists characterising the same set have the same elements. */
  lemma SameElements(l1: seq<Range>, l2: seq<Range>, rs: set<Range>)
    requires Characterizes(l1, rs) && Characterizes(l2, rs)
    ensures forall x :: x in l1 ==> x in l2
  {
    forall x | x in l1
      ensures x in l2
    {
      var i :| 0 <= i < |l1| && l1[i] == x;
      assert Generated(l1[i], rs);
      var t :| Eval(t, rs) == Some(x);
      TreeInside(t, rs, l2);
      var j :| 0 <= j < |l2| && Contains(l2[j], x);
      assert Generated(l2[j], rs);
      var u :| Eval(u, rs) == Some(l2[j]);
      TreeInside(u, rs, l1);
      var k :| 0 <= k < |l1| && Contains(l1[k], l2[j]);
      ContainsTransitive(l1[k], l2[j], x);
      EnclosedElementIsSame(l1, i, k);
      ContainsAntisymmetric(x, l2[j]);
    }
  }

  /** Two canonical lists with the same elements are equal. */
  lemma {:induction false} SortedUnique(l1: seq<Range>, l2: seq<Range>)
    requires Canonical(l1) && Canonical(l2)
    requires forall x :: x in l1 <==> x in l2
    ensures l1 == l2
    decreases |l1|
  {
    if l2 != [] {
      assert l2[0] in l1;
    }
    if l1 != [] {
      assert l1[0] in l2;
    }
    if l1 != [] {
      var j :| 0 <= j < |l2| && l2[j] == l1[0];
      var k :| 0 <= k < |l1| && l1[k] == l2[0];
      if j > 0 {
        if k > 0 {
          StrictlyBeforeAsymmetric(l2[0], l1[0]);
        } else {
          StrictlyBeforeIrreflexive(l2[0]);
        }
      }
      assert l1[0] == l2[0];
      forall x
        ensures x in l1[1..] <==> x in l2[1..]
      {
        if x in l1[1..] {
          var i :| 1 <= i < |l1| && l1[i] == x;
          StrictlyBeforeIrreflexive(l1[0]);
          assert x in l2;
        }
        if x in l2[1..] {
          var i :| 1 <= i < |l2| && l2[i] == x;
          StrictlyBeforeIrreflexive(l2[0]);
          assert x in l1;
        }
      }
      SortedUnique(l1[1..], l2[1..]);
      assert l1 == [l1[0]] + l1[1..];
      assert l2 == [l2[0]] + l2[1..];
    }
  }

  /** A canonical list is determined by the set of ranges it characterises. */
  lemma CharacterizationUnique(l1: seq<Range>, l2: seq<Range>, rs: set<Range>)
    requires Characterizes(l1, rs) && Characterizes(l2, rs)
    ensures l1 == l2
  {
    SameElements(l1, l2, rs);
    SameElements(l2, l1, rs);
    SortedUnique(l1, l2);
  }

  /** Each element of the old list and the new element end up inside one element of the result. */
  lemma {:induction false} InsertEncloses(l: seq<Range>, e: Range)
    ensures forall i :: 0 <= i < |l| ==> ContainsRange(Insert(l, e), l[i])
    ensures ContainsRange(Insert(l, e), e)
    decreases |l|
  {
    if l == [] {
      ContainsReflexive(e);
    } else if Overlaps(l[0], e) {
      var m := Merge(l[0], e);
      var r := Insert(l[1..], m);
      InsertEncloses(l[1..], m);
      assert forall i :: 0 < i < |l| ==> l[i] == l[1..][i - 1];
      var j :| 0 <= j < |r| && Contains(r[j], m);
      ContainsTransitive(r[j], m, l[0]);
      ContainsTransitive(r[j], m, e);
    } else if StrictlyBefore(e, l[0]) {
      var r := [e] + l;
      ContainsReflexive(e);
      assert Contains(r[0], e);
      forall i | 0 <= i < |l|
        ensures ContainsRange(r, l[i])
      {
        ContainsReflexive(l[i]);
        assert Contains(r[i + 1], l[i]);
      }
    } else {
      var t := Insert(l[1..], e);
      var r := [l[0]] + t;
      InsertEncloses(l[1..], e);
      ContainsReflexive(l[0]);
      assert Contains(r[0], l[0]);
      forall i | 0 < i < |l|
        ensures ContainsRange(r, l[i])
      {
        assert l[i] == l[1..][i - 1];
        var j :| 0 <= j < |t| && Contains(t[j], l[i]);
        assert r[j + 1] == t[j];
      }
      var j :| 0 <= j < |t| && Contains(t[j], e);
      assert r[j + 1] == t[j];
    }
  }

  /** Each element of the result is built by merging old elements and the new one. */
  lemma {:induction false} InsertGenerated(l: seq<Range>, e: Range, rs: set<Range>)
    requires AllGenerated(l, rs) && Generated(e, rs)
    ensures AllGenerated(Insert(l, e), rs)
    decreases |l|
  {
    if l == [] {
    } else if Overlaps(l[0], e) {
      assert Generated(l[0], rs);
      var a :| Eval(a, rs) == Some(l[0]);
      var b :| Eval(b, rs) == Some(e);
      assert Eval(Join(a, b), rs) == Some(Merge(l[0], e));
      assert forall i :: 0 < i < |l| ==> l[i] == l[1..][i - 1];
      InsertGenerated(l[1..], Merge(l[0], e), rs);
    } else if StrictlyBefore(e, l[0]) {
      var r := [e] + l;
      assert forall i :: 0 < i < |r| ==> r[i] == l[i - 1];
    } else {
      assert forall i :: 0 < i < |l| ==> l[i] == l[1..][i - 1];
      InsertGenerated(l[1..], e, rs);
      var t := Insert(l[1..], e);
      assert forall i :: 0 < i < |t| + 1 ==> ([l[0]] + t)[i] == t[i - 1];
    }
  }

  lemma GeneratedGrows(l: seq<Range>, rs: set<Range>, rs': set<Range>)
    requires AllGenerated(l, rs) && rs <= rs'
    ensures AllGenerated(l, rs')
  {
    forall i | 0 <= i < |l|
      ensures Generated(l[i], rs')
    {
      assert Generated(l[i], rs);
      var t :| Eval(t, rs) == Some(l[i]);
      EvalGrows(t, rs, rs');
    }
  }

  /** Inserting `e` into a list characterising `rs` yields a list characterising `rs + {e}`. */
  lemma InsertCharacterizes(l: seq<Range>, e: Range, rs: set<Range>)
    requires Characterizes(l, rs) && WellFormed(e)
    ensures Characterizes(Insert(l, e), rs + {e})
  {
    var r := Insert(l, e);
    InsertCanonical(l, e);
    InsertEncloses(l, e);
    forall x | x in rs + {e}
      ensures ContainsRange(r, x)
    {
      if x != e {
        var i :| 0 <= i < |l| && Contains(l[i], x);
        var j :| 0 <= j < |r| && Contains(r[j], l[i]);
        ContainsTransitive(r[j], l[i], x);
      }
    }
    GeneratedGrows(l, rs, rs + {e});
    assert Eval(Leaf(e), rs + {e}) == Some(e);
    InsertGenerated(l, e, rs + {e});
  }

  lemma {:induction false} FromSeqCharacterizes(s: seq<Range>)
    requires AllWellFormed(s)
    ensures Characterizes(FromSeq(s), Elements(s))
  {
    if s != [] {
      var init := s[..|s| - 1];
      FromSeqCharacterizes(init);
      InsertCharacterizes(FromSeq(init), s[|s| - 1], Elements(init));
      assert s == init + [s[|s| - 1]];
      assert Elements(s) == Elements(init) + {s[|s| - 1]};
    }
  }

  /**
   * Order independence: inputs with the same elements, in any order and with any repetition,
   * build the same canonical list.
   */
  lemma FromSeqOrderIndependent(s1: seq<Range>, s2: seq<Range>)
    requires AllWellFormed(s1) && AllWellFormed(s2)
    requires forall x :: x in s1 <==> x in s2
    ensures FromSeq(s1) == FromSeq(s2)
  {
    FromSeqCharacterizes(s1);
    FromSeqCharacterizes(s2);
    assert Elements(s1) == Elements(s2);
    CharacterizationUnique(FromSeq(s1), FromSeq(s2), Elements(s1));
  }

  /** In particular, every permutation of the input builds the same list. */
  lemma FromSeqPermutation(s1: seq<Range>, s2: seq<Range>)
    requires AllWellFormed(s1) && multiset(s1) == multiset(s2)
    ensures FromSeq(s1) == FromSeq(s2)
  {
    forall x
      ensures x in s1 <==> x in s2
    {
      assert x in s1 <==> x in multiset(s1);
      assert x in s2 <==> x in multiset(s2);
    }
    forall i | 0 <= i < |s2|
      ensures WellFormed(s2[i])
    {
      assert s2[i] in multiset(s2);
    }
    FromSeqOrderIndependent(s1, s2);
  }

  /** A canonical list characterizes its own elements. */
  lemma CanonicalCharacterizesItself(l: seq<Range>)
    requires Canonical(l)
    ensures Characterizes(l, Elements(l))
  {
    forall r | r in Elements(l)
      ensures ContainsRange(l, r)
    {
      var i :| 0 <= i < |l| && l[i] == r;
      ContainsReflexive(l[i]);
    }
    forall i | 0 <= i < |l|
      ensures Generated(l[i], Elements(l))
    {
      assert Eval(Leaf(l[i]), Elements(l)) == Some(l[i]);
    }
  }

  /** Re-inserting the elements of a canonical list rebuilds that very list. */
  lemma CanonicalFixpoint(l: seq<Range>)
    requires Canonical(l)
    ensures FromSeq(l) == l
  {
    FromSeqCharacterizes(l);
    CanonicalCharacterizesItself(l);
    CharacterizationUnique(FromSeq(l), l, Elements(l));
  }

  /** Building a list twice changes nothing the second time. */
  lemma FromSeqIdempotent(s: seq<Range>)
    requires AllWellFormed(s)
    ensures FromSeq(FromSeq(s)) == FromSeq(s)
  {
    FromSeqCanonical(s);
    CanonicalFixpoint(FromSeq(s));
  }

  /** Inserting an element that a single element already encloses leaves a canonical list as it is. */
  lemma InsertEnclosedNoChange(l: seq<Range>, e: Range)
    requires Canonical(l) && WellFormed(e) && ContainsRange(l, e)
    ensures Insert(l, e) == l
  {
    var rs := Elements(l);
    CanonicalCharacterizesItself(l);
    InsertCharacterizes(l, e, rs);
    GeneratedGrows(l, rs, rs + {e});
    assert Covers(l, rs + {e});
    CharacterizationUnique(Insert(l, e), l, rs + {e});
  }

  // ---------------------------------------------------------------------------------------
  // Properties of the queries
  // ---------------------------------------------------------------------------------------

  /** A canonical list is sorted by lower bound, absent lower bounds first. */
  lemma CanonicalSortedByLower(l: seq<Range>, i: int, j: int)
    requires Canonical(l) && 0 <= i < j < |l|
    ensures LowerLe(l[i].lo, l[j].lo) && l[i].lo != l[j].lo
  {
    assert StrictlyBefore(l[i], l[j]);
    if l[i].lo.Some? {
      LeTransitive(l[i].lo.value, l[i].hi.value, l[i].hi.value);
      Trichotomy(l[i].lo.value, l[i].hi.value);
      if l[i].lo.value != l[i].hi.value {
        LtTransitive(l[i].lo.value, l[i].hi.value, l[j].lo.value);
      }
      LtIrreflexive(l[j].lo.value);
    }
  }

  /** A version is in the list exactly when its point range is in the list. */
  lemma ContainsPointElement(l: seq<Range>, v: Version)
    ensures ContainsRange(l, Point(v)) <==> ContainsVersion(l, v)
  {
    forall i | 0 <= i < |l|
      ensures Contains(l[i], Point(v)) <==> InRange(l[i], v)
    {
      ContainsPoint(l[i], v);
    }
  }

  /** Containment of lists is sound: every version of the needle list is in the haystack list. */
  lemma ContainsListSound(h: seq<Range>, n: seq<Range>, v: Version)
    requires ContainsList(h, n) && ContainsVersion(n, v)
    ensures ContainsVersion(h, v)
  {
    var j :| 0 <= j < |n| && InRange(n[j], v);
    assert ContainsRange(h, n[j]);
    var i :| 0 <= i < |h| && Contains(h[i], n[j]);
    ContainsSound(h[i], n[j], v);
  }

  /** Every version of a contained list is in the containing list. */
  lemma ContainsListSoundAll(h: seq<Range>, n: seq<Range>)
    ensures ContainsList(h, n) ==> forall v :: ContainsVersion(n, v) ==> ContainsVersion(h, v)
  {
    if ContainsList(h, n) {
      forall v | ContainsVersion(n, v)
        ensures ContainsVersion(h, v)
      {
        ContainsListSound(h, n, v);
      }
    }
  }

  lemma ListOverlapsSymmetric(a: seq<Range>, b: seq<Range>)
    ensures ListOverlaps(a, b) <==> ListOverlaps(b, a)
  {
    if ListOverlaps(a, b) {
      var i, j :| 0 <= i < |a| && 0 <= j < |b| && Overlaps(a[i], b[j]);
      OverlapsSymmetric(a[i], b[j]);
    }
    if ListOverlaps(b, a) {
      var j, i :| 0 <= j < |b| && 0 <= i < |a| && Overlaps(b[j], a[i]);
      OverlapsSymmetric(a[i], b[j]);
    }
  }

  /** Lists of well-formed ranges overlap exactly when some version is in both. */
  lemma ListOverlapsIffCommonVersion(a: seq<Range>, b: seq<Range>)
    requires AllWellFormed(a) && AllWellFormed(b)
    ensures ListOverlaps(a, b) <==> exists v :: ContainsVersion(a, v) && ContainsVersion(b, v)
  {
    if ListOverlaps(a, b) {
      var i, j :| 0 <= i < |a| && 0 <= j < |b| && Overlaps(a[i], b[j]);
      OverlapsIffCommonVersion(a[i], b[j]);
      var v :| InRange(a[i], v) && InRange(b[j], v);
      assert ContainsVersion(a, v) && ContainsVersion(b, v);
    }
    if v :| ContainsVersion(a, v) && ContainsVersion(b, v) {
      var i :| 0 <= i < |a| && InRange(a[i], v);
      var j :| 0 <= j < |b| && InRange(b[j], v);
      OverlapsIffCommonVersion(a[i], b[j]);
    }
  }

  /** The list ":" overlaps every non-empty list and contains every list. */
  lemma EverythingListAbsorbs(l: seq<Range>)
    ensures ListOverlaps([Everything()], l) <==> l != []
    ensures ContainsList([Everything()], l)
  {
    if l != [] {
      EverythingContainsAll(l[0], Version([]));
    }
    forall j | 0 <= j < |l|
      ensures ContainsRange([Everything()], l[j])
    {
      EverythingContainsAll(l[j], Version([]));
    }
  }

  /** A list built from ":" followed by any well-formed ranges is ":" alone. */
  lemma {:induction false} EverythingAbsorbsInsertions(s: seq<Range>)
    requires AllWellFormed(s)
    ensures FromSeq([Everything()] + s) == [Everything()]
  {
    var l := [Everything()] + s;
    if s == [] {
      assert l[..0] == [];
    } else {
      var init := s[..|s| - 1];
      assert l[..|l| - 1] == [Everything()] + init;
      EverythingAbsorbsInsertions(init);
      EverythingContainsAll(s[|s| - 1], Version([]));
      InsertEnclosedNoChange([Everything()], s[|s| - 1]);
    }
  }

  // ---------------------------------------------------------------------------------------
  // The order of lists
  // ---------------------------------------------------------------------------------------

  lemma {:induction false} ListLtTransitive(a: seq<Range>, b: seq<Range>, c: seq<Range>)
    requires ListLt(a, b) && ListLt(b, c)
    ensures ListLt(a, c)
  {
    if a != [] && c != [] {
      if a[0] == b[0] && b[0] == c[0] {
        ListLtTransitive(a[1..], b[1..], c[1..]);
      } else if a[0] != b[0] && b[0] != c[0] {
        RangeLtTransitive(a[0], b[0], c[0]);
        RangeLtIrreflexive(a[0]);
      }
    }
  }

  lemma {:induction false} ListLtTrichotomy(a: seq<Range>, b: seq<Range>)
    ensures ListLt(a, b) || a == b || ListLt(b, a)
    ensures !(ListLt(a, b) && ListLt(b, a))
  {
    if a != [] && b != [] {
      if a[0] == b[0] {
        ListLtTrichotomy(a[1..], b[1..]);
        if a[1..] == b[1..] {
          assert a == [a[0]] + a[1..] && b == [b[0]] + b[1..];
        }
      } else {
        RangeLtTrichotomy(a[0], b[0]);
      }
    }
  }

  /** One-element lists compare as their elements do. */
  lemma ListLtSingletons(x: Range, y: Range)
    ensures ListLt([x], [y]) <==> RangeLt(x, y)
  {
    if x == y {
      RangeLtIrreflexive(x);
      assert [x][1..] == [];
    }
  }
}
