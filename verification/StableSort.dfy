/** Stable sorting by a comparator, as a function, and the proof that nothing else
    deserves the name: a sorted sequence that keeps the order inside every class of
    equivalent elements is the result. */
module StableSort {
  import opened Options

  ghost predicate StrictWeakOrder<T(!new)>(less: (T, T) -> bool) {
    && (forall a :: !less(a, a))
    && (forall a, b, c :: less(a, b) && less(b, c) ==> less(a, c))
    && (forall a, b, c :: !less(a, b) && !less(b, c) ==> !less(a, c))
  }

  function Insert<T>(less: (T, T) -> bool, e: T, s: seq<T>): (r: seq<T>)
    ensures |r| == |s| + 1
  {
    if s == [] || !less(s[0], e) then [e] + s else [s[0]] + Insert(less, e, s[1..])
  }

  function Sort<T>(less: (T, T) -> bool, s: seq<T>): (r: seq<T>)
    ensures |r| == |s|
  {
    if s == [] then [] else Insert(less, s[0], Sort(less, s[1..]))
  }

  function Filter<T>(keep: T -> bool, s: seq<T>): seq<T> {
    if s == [] then []
    else if keep(s[0]) then [s[0]] + Filter(keep, s[1..])
    else Filter(keep, s[1..])
  }

  ghost predicate Sorted<T>(less: (T, T) -> bool, s: seq<T>) {
    forall i, j | 0 <= i < j < |s| :: !less(s[j], s[i])
  }

  predicate Equivalent<T>(less: (T, T) -> bool, a: T, b: T) {
    !less(a, b) && !less(b, a)
  }

  /** The elements of s equivalent to e, in their order. */
  function Class<T>(less: (T, T) -> bool, e: T, s: seq<T>): seq<T> {
    if s == [] then []
    else if Equivalent(less, e, s[0]) then [s[0]] + Class(less, e, s[1..])
    else Class(less, e, s[1..])
  }

  /** Every class of equivalent elements is in the same order in a as in b. */
  ghost predicate SameOrderWithinClasses<T(!new)>(less: (T, T) -> bool, a: seq<T>, b: seq<T>) {
    forall c :: Class(less, c, a) == Class(less, c, b)
  }

  lemma {:induction false} ClassMembers<T>(less: (T, T) -> bool, e: T, s: seq<T>)
    ensures forall x :: x in Class(less, e, s) <==> x in s && Equivalent(less, e, x)
  {
    if s != [] {
      ClassMembers(less, e, s[1..]);
    }
  }

  lemma ClassOfCons<T>(less: (T, T) -> bool, c: T, e: T, s: seq<T>)
    ensures Class(less, c, [e] + s) == (if Equivalent(less, c, e) then [e] else []) + Class(less, c, s)
  {
    assert ([e] + s)[1..] == s;
  }

  lemma {:induction false} InsertMembers<T>(less: (T, T) -> bool, e: T, s: seq<T>)
    ensures forall x :: x in Insert(less, e, s) <==> x == e || x in s
  {
    if s != [] && less(s[0], e) {
      InsertMembers(less, e, s[1..]);
    }
  }

  lemma {:induction false} InsertSorted<T(!new)>(less: (T, T) -> bool, e: T, s: seq<T>)
    requires StrictWeakOrder(less) && Sorted(less, s)
    ensures Sorted(less, Insert(less, e, s))
  {
    if s != [] {
      if less(s[0], e) {
        InsertSorted(less, e, s[1..]);
        InsertMembers(less, e, s[1..]);
        var rest := Insert(less, e, s[1..]);
        forall x | x in rest ensures !less(x, s[0]) {}
      } else {
        forall x | x in s ensures !less(x, e) {
          assert !less(x, s[0]);
        }
      }
    }
  }

  lemma {:induction false} InsertClass<T(!new)>(less: (T, T) -> bool, e: T, s: seq<T>, c: T)
    requires StrictWeakOrder(less)
    ensures Class(less, c, Insert(less, e, s)) == Class(less, c, [e] + s)
  {
    if s != [] && less(s[0], e) {
      var rest := s[1..];
      InsertClass(less, e, rest, c);
      ClassOfCons(less, c, s[0], Insert(less, e, rest));
      ClassOfCons(less, c, e, rest);
      ClassOfCons(less, c, e, s);
      assert !Equivalent(less, c, e) || !Equivalent(less, c, s[0]);
    }
  }

  lemma {:induction false} SortIsStable<T(!new)>(less: (T, T) -> bool, s: seq<T>)
    requires StrictWeakOrder(less)
    ensures Sorted(less, Sort(less, s))
    ensures SameOrderWithinClasses(less, Sort(less, s), s)
  {
    if s != [] {
      SortIsStable(less, s[1..]);
      InsertSorted(less, s[0], Sort(less, s[1..]));
      forall c ensures Class(less, c, Sort(less, s)) == Class(less, c, s) {
        InsertClass(less, s[0], Sort(less, s[1..]), c);
        ClassOfCons(less, c, s[0], Sort(less, s[1..]));
      }
    }
  }

  lemma {:induction false} FilterMembers<T>(keep: T -> bool, s: seq<T>)
    ensures forall x :: x in Filter(keep, s) <==> x in s && keep(x)
  {
    if s != [] {
      FilterMembers(keep, s[1..]);
    }
  }

  lemma SameEmptiness<T(!new)>(less: (T, T) -> bool, a: seq<T>, b: seq<T>)
    requires forall c :: !less(c, c)
    requires SameOrderWithinClasses(less, a, b)
    ensures b == [] ==> a == []
  {
    if a != [] {
      ClassMembers(less, a[0], a);
      ClassMembers(less, a[0], b);
      assert a[0] in Class(less, a[0], b);
    }
  }

  lemma {:induction false} SortedUnique<T(!new)>(less: (T, T) -> bool, a: seq<T>, b: seq<T>)
    requires StrictWeakOrder(less) && Sorted(less, a) && Sorted(less, b)
    requires SameOrderWithinClasses(less, a, b)
    ensures a == b
  {
    SameEmptiness(less, a, b);
    SameEmptiness(less, b, a);
    if a != [] {
      HeadLeast(less, a, b);
      HeadLeast(less, b, a);
      assert Class(less, a[0], a)[0] == a[0] && Class(less, a[0], b)[0] == b[0];
      forall c ensures Class(less, c, a[1..]) == Class(less, c, b[1..]) {
        var head := if Equivalent(less, c, a[0]) then [a[0]] else [];
        assert Class(less, c, a) == head + Class(less, c, a[1..]);
        assert Class(less, c, b) == head + Class(less, c, b[1..]);
        assert (head + Class(less, c, a[1..]))[|head|..] == Class(less, c, a[1..]);
        assert (head + Class(less, c, b[1..]))[|head|..] == Class(less, c, b[1..]);
      }
      SortedUnique(less, a[1..], b[1..]);
    }
  }

  /** b has an element equivalent to a's head, so b's head is not above it. */
  lemma HeadLeast<T(!new)>(less: (T, T) -> bool, a: seq<T>, b: seq<T>)
    requires StrictWeakOrder(less) && Sorted(less, b) && a != [] && b != []
    requires Class(less, a[0], a) == Class(less, a[0], b)
    ensures !less(a[0], b[0])
  {
    ClassMembers(less, a[0], a);
    ClassMembers(less, a[0], b);
    assert a[0] in Class(less, a[0], b);
  }

  /** Any stable sort computes this function. */
  lemma StableSortUnique<T(!new)>(less: (T, T) -> bool, s: seq<T>, r: seq<T>)
    requires StrictWeakOrder(less)
    ensures r == Sort(less, s) <==> Sorted(less, r) && SameOrderWithinClasses(less, r, s)
  {
    SortIsStable(less, s);
    if Sorted(less, r) && SameOrderWithinClasses(less, r, s) {
      forall c ensures Class(less, c, r) == Class(less, c, Sort(less, s)) {
        assert Class(less, c, r) == Class(less, c, s) == Class(less, c, Sort(less, s));
      }
      SortedUnique(less, r, Sort(less, s));
    }
  }

  lemma {:induction false} SortMembers<T>(less: (T, T) -> bool, s: seq<T>)
    ensures multiset(Sort(less, s)) == multiset(s)
  {
    if s != [] {
      SortMembers(less, s[1..]);
      InsertMultiset(less, s[0], Sort(less, s[1..]));
      assert s == [s[0]] + s[1..];
    }
  }

  lemma {:induction false} InsertMultiset<T>(less: (T, T) -> bool, e: T, s: seq<T>)
    ensures multiset(Insert(less, e, s)) == multiset{e} + multiset(s)
  {
    if s != [] && less(s[0], e) {
      InsertMultiset(less, e, s[1..]);
      assert s == [s[0]] + s[1..];
    }
  }

  // ----- patching the first hit of a sorted, filtered sequence -----

  /** a stands somewhere before b. */
  ghost predicate Before<T>(s: seq<T>, a: T, b: T) {
    exists i, j :: 0 <= i < j < |s| && s[i] == a && s[j] == b
  }

  lemma BeforeCons<T>(h: T, t: seq<T>, a: T, b: T)
    ensures Before([h] + t, a, b) <==> (h == a && b in t) || Before(t, a, b)
  {
    var s := [h] + t;
    if h == a && b in t {
      var k :| 0 <= k < |t| && t[k] == b;
      assert s[0] == a && s[k + 1] == b;
    }
    if Before(t, a, b) {
      var i, j :| 0 <= i < j < |t| && t[i] == a && t[j] == b;
      assert s[i + 1] == a && s[j + 1] == b;
    }
    if Before(s, a, b) {
      var i, j :| 0 <= i < j < |s| && s[i] == a && s[j] == b;
      assert t[j - 1] == b;
      if i > 0 {
        assert t[i - 1] == a;
      }
    }
  }

  lemma {:induction false} ClassKeepsOrder<T>(less: (T, T) -> bool, e: T, s: seq<T>, a: T, b: T)
    requires Equivalent(less, e, a) && Equivalent(less, e, b)
    ensures Before(Class(less, e, s), a, b) <==> Before(s, a, b)
  {
    if s != [] {
      ClassKeepsOrder(less, e, s[1..], a, b);
      ClassMembers(less, e, s[1..]);
      BeforeCons(s[0], s[1..], a, b);
      BeforeCons(s[0], Class(less, e, s[1..]), a, b);
      assert s == [s[0]] + s[1..];
    }
  }

  lemma {:induction false} FilterKeepsOrder<T>(keep: T -> bool, s: seq<T>, a: T, b: T)
    requires keep(a) && keep(b)
    ensures Before(Filter(keep, s), a, b) <==> Before(s, a, b)
  {
    if s != [] {
      FilterKeepsOrder(keep, s[1..], a, b);
      FilterMembers(keep, s[1..]);
      BeforeCons(s[0], s[1..], a, b);
      BeforeCons(s[0], Filter(keep, s[1..]), a, b);
      assert s == [s[0]] + s[1..];
    }
  }

  /** Elements kept and not told apart stand as they stood. */
  lemma SortKeepsOrder<T(!new)>(less: (T, T) -> bool, keep: T -> bool, s: seq<T>, a: T, b: T)
    requires StrictWeakOrder(less) && keep(a) && keep(b) && Equivalent(less, a, b)
    ensures Before(Sort(less, Filter(keep, s)), a, b) <==> Before(s, a, b)
  {
    var kept := Filter(keep, s);
    SortIsStable(less, kept);
    ClassKeepsOrder(less, a, Sort(less, kept), a, b);
    ClassKeepsOrder(less, a, kept, a, b);
    FilterKeepsOrder(keep, s, a, b);
  }

  lemma {:induction false} FilterCounts<T>(keep: T -> bool, s: seq<T>, x: T)
    ensures multiset(Filter(keep, s))[x] == if keep(x) then multiset(s)[x] else 0
  {
    if s != [] {
      FilterCounts(keep, s[1..], x);
      assert s == [s[0]] + s[1..];
    }
  }

  function FirstHit<T>(hit: T -> bool, s: seq<T>): Option<T> {
    if s == [] then None else if hit(s[0]) then Some(s[0]) else FirstHit(hit, s[1..])
  }

  function PatchFirst<T>(hit: T -> bool, f: T -> T, s: seq<T>): (r: seq<T>)
    ensures |r| == |s|
  {
    if s == [] then []
    else if hit(s[0]) then [f(s[0])] + s[1..]
    else [s[0]] + PatchFirst(hit, f, s[1..])
  }

  /** The comparator cannot tell f(a) from a. */
  ghost predicate Unseen<T(!new)>(less: (T, T) -> bool, f: T -> T) {
    forall a, b :: less(f(a), b) == less(a, b) && less(b, f(a)) == less(b, a)
  }

  lemma {:induction false} FirstHitIsMember<T>(hit: T -> bool, s: seq<T>)
    ensures FirstHit(hit, s).None? ==> forall x | x in s :: !hit(x)
    ensures FirstHit(hit, s).Some? ==> hit(FirstHit(hit, s).value) && FirstHit(hit, s).value in s
  {
    if s != [] && !hit(s[0]) {
      FirstHitIsMember(hit, s[1..]);
    }
  }

  /** Element j is the first that is hit. */
  ghost predicate FirstHitAt<T>(hit: T -> bool, s: seq<T>, j: nat) {
    j < |s| && hit(s[j]) && forall k | 0 <= k < j :: !hit(s[k])
  }

  /** The patch falls on the first element hit and on no other. */
  lemma {:induction false} PatchLands<T>(hit: T -> bool, f: T -> T, s: seq<T>, j: nat)
    requires j < |s|
    ensures PatchFirst(hit, f, s)[j] == if FirstHitAt(hit, s, j) then f(s[j]) else s[j]
  {
    if !hit(s[0]) && j > 0 {
      PatchLands(hit, f, s[1..], j - 1);
      assert FirstHitAt(hit, s, j) ==> FirstHitAt(hit, s[1..], j - 1);
      if FirstHitAt(hit, s[1..], j - 1) {
        forall k | 0 <= k < j ensures !hit(s[k]) {
          assert k > 0 ==> s[k] == s[1..][k - 1];
        }
      }
    }
  }

  lemma {:induction false} PatchChangesNothing<T>(hit: T -> bool, f: T -> T, s: seq<T>)
    ensures PatchFirst(hit, f, s) == s <==>
            FirstHit(hit, s).None? || f(FirstHit(hit, s).value) == FirstHit(hit, s).value
  {
    if s != [] {
      assert [s[0]] + s[1..] == s;
      if !hit(s[0]) {
        PatchChangesNothing(hit, f, s[1..]);
      }
    }
  }

  lemma {:induction false} PatchAt<T>(hit: T -> bool, f: T -> T, s: seq<T>, i: nat)
    requires i <= |s|
    requires forall j | 0 <= j < i :: !hit(s[j])
    requires i == |s| || hit(s[i])
    ensures PatchFirst(hit, f, s) == if i == |s| then s else s[i := f(s[i])]
  {
    if i > 0 {
      PatchAt(hit, f, s[1..], i - 1);
    } else if s != [] {
      assert s[0 := f(s[0])] == [f(s[0])] + s[1..];
    }
  }

  lemma SortHasHit<T>(less: (T, T) -> bool, hit: T -> bool, s: seq<T>)
    ensures FirstHit(hit, Sort(less, s)).None? <==> FirstHit(hit, s).None?
  {
    FirstHitIsMember(hit, s);
    FirstHitIsMember(hit, Sort(less, s));
    SortMembers(less, s);
    assert forall x :: x in s <==> x in multiset(s);
    assert forall x :: x in Sort(less, s) <==> x in multiset(s);
  }

  lemma {:induction false} PatchMultiset<T>(hit: T -> bool, f: T -> T, s: seq<T>)
    requires FirstHit(hit, s).Some?
    ensures var e := FirstHit(hit, s).value;
            multiset(PatchFirst(hit, f, s)) + multiset{e} == multiset(s) + multiset{f(e)}
  {
    assert s == [s[0]] + s[1..];
    assert multiset(s) == multiset{s[0]} + multiset(s[1..]);
    if !hit(s[0]) {
      PatchMultiset(hit, f, s[1..]);
      assert PatchFirst(hit, f, s) == [s[0]] + PatchFirst(hit, f, s[1..]);
      var e := FirstHit(hit, s[1..]).value;
      assert multiset(PatchFirst(hit, f, s[1..])) + multiset{e} == multiset(s[1..]) + multiset{f(e)};
      var patched := multiset(PatchFirst(hit, f, s[1..]));
      assert multiset(PatchFirst(hit, f, s)) == multiset{s[0]} + patched;
      assert multiset{s[0]} + (patched + multiset{e}) == multiset{s[0]} + (multiset(s[1..]) + multiset{f(e)});
      assert FirstHit(hit, s) == Some(e);
      assert multiset(s) + multiset{f(e)} == multiset{s[0]} + (multiset(s[1..]) + multiset{f(e)});
      assert multiset(PatchFirst(hit, f, s)) + multiset{e} == multiset{s[0]} + (patched + multiset{e});
    } else {
      assert multiset(PatchFirst(hit, f, s)) == multiset{f(s[0])} + multiset(s[1..]);
    }
  }

  lemma {:induction false} FilterPatch<T(!new)>(keep: T -> bool, hit: T -> bool, f: T -> T, s: seq<T>)
    requires forall a :: keep(f(a)) == keep(a)
    requires FirstHit(hit, s).Some?
    ensures keep(FirstHit(hit, s).value) ==>
              && FirstHit(hit, Filter(keep, s)) == FirstHit(hit, s)
              && Filter(keep, PatchFirst(hit, f, s)) == PatchFirst(hit, f, Filter(keep, s))
    ensures !keep(FirstHit(hit, s).value) ==> Filter(keep, PatchFirst(hit, f, s)) == Filter(keep, s)
  {
    var patched := PatchFirst(hit, f, s);
    if hit(s[0]) {
      assert patched[1..] == s[1..];
      if keep(s[0]) {
        assert Filter(keep, s)[1..] == Filter(keep, s[1..]);
      }
    } else {
      FilterPatch(keep, hit, f, s[1..]);
      assert patched[1..] == PatchFirst(hit, f, s[1..]);
      if keep(s[0]) {
        assert Filter(keep, s)[1..] == Filter(keep, s[1..]);
      }
    }
  }

  lemma {:induction false} FilterWithoutHit<T>(keep: T -> bool, hit: T -> bool, s: seq<T>)
    requires FirstHit(hit, s).None?
    ensures FirstHit(hit, Filter(keep, s)).None?
  {
    if s != [] {
      FilterWithoutHit(keep, hit, s[1..]);
      if keep(s[0]) {
        assert Filter(keep, s)[1..] == Filter(keep, s[1..]);
      }
    }
  }

  /** Inserting a hit that no other hit is below puts it in front of all of them. */
  lemma {:induction false} InsertFirstHit<T(!new)>(less: (T, T) -> bool, hit: T -> bool, f: T -> T, e: T, s: seq<T>)
    requires Unseen(less, f) && hit(e)
    requires forall w | w in s && hit(w) :: !less(w, e)
    ensures Insert(less, f(e), s) == PatchFirst(hit, f, Insert(less, e, s))
    ensures FirstHit(hit, Insert(less, e, s)) == Some(e)
  {
    if s != [] && less(s[0], e) {
      InsertFirstHit(less, hit, f, e, s[1..]);
      assert Insert(less, e, s)[1..] == Insert(less, e, s[1..]);
    } else {
      assert Insert(less, e, s)[1..] == s;
    }
  }

  /** Inserting an element that is not a hit commutes with patching the first hit. */
  lemma {:induction false} InsertOther<T(!new)>(less: (T, T) -> bool, hit: T -> bool, f: T -> T, e: T, s: seq<T>)
    requires Unseen(less, f) && !hit(e)
    ensures Insert(less, e, PatchFirst(hit, f, s)) == PatchFirst(hit, f, Insert(less, e, s))
    ensures FirstHit(hit, Insert(less, e, s)) == FirstHit(hit, s)
  {
    if s == [] {
      assert Insert(less, e, s)[1..] == [];
    } else if less(s[0], e) {
      InsertOther(less, hit, f, e, s[1..]);
      assert Insert(less, e, s)[1..] == Insert(less, e, s[1..]);
      if hit(s[0]) {
        assert PatchFirst(hit, f, s)[1..] == s[1..];
      } else {
        assert PatchFirst(hit, f, s)[1..] == PatchFirst(hit, f, s[1..]);
      }
    } else {
      assert Insert(less, e, s)[1..] == s;
    }
  }

  lemma {:induction false} SortPatch<T(!new)>(less: (T, T) -> bool, hit: T -> bool, f: T -> T, s: seq<T>)
    requires Unseen(less, f) && FirstHit(hit, s).Some?
    requires forall w | w in s && hit(w) :: !less(w, FirstHit(hit, s).value)
    ensures Sort(less, PatchFirst(hit, f, s)) == PatchFirst(hit, f, Sort(less, s))
    ensures FirstHit(hit, Sort(less, s)) == FirstHit(hit, s)
  {
    var rest := s[1..];
    SortMembers(less, rest);
    if hit(s[0]) {
      assert PatchFirst(hit, f, s)[1..] == rest;
      forall w | w in Sort(less, rest) && hit(w) ensures !less(w, s[0]) {
        assert w in multiset(rest);
      }
      InsertFirstHit(less, hit, f, s[0], Sort(less, rest));
    } else {
      SortPatch(less, hit, f, rest);
      assert PatchFirst(hit, f, s)[1..] == PatchFirst(hit, f, rest);
      InsertOther(less, hit, f, s[0], Sort(less, rest));
    }
  }

  /** In a sorted sequence no hit is below the first one. */
  lemma {:induction false} FirstHitLeast<T(!new)>(less: (T, T) -> bool, hit: T -> bool, s: seq<T>)
    requires StrictWeakOrder(less) && Sorted(less, s) && FirstHit(hit, s).Some?
    ensures forall w | w in s && hit(w) :: !less(w, FirstHit(hit, s).value)
  {
    if !hit(s[0]) {
      FirstHitLeast(less, hit, s[1..]);
    }
  }

  /** Patching the first hit before sorting and after sorting give the same sequence exactly
      when sorting brings no other hit in front of the first one, or when the patch changes
      neither of the two. */
  lemma SortPatchExactly<T(!new)>(less: (T, T) -> bool, hit: T -> bool, f: T -> T, s: seq<T>, e: T, v: T)
    requires StrictWeakOrder(less) && Unseen(less, f)
    requires FirstHit(hit, s) == Some(e) && FirstHit(hit, Sort(less, s)) == Some(v)
    ensures Sort(less, PatchFirst(hit, f, s)) == PatchFirst(hit, f, Sort(less, s)) <==>
            !less(v, e) || (f(v) == v && f(e) == e)
  {
    SortMembers(less, s);
    SortIsStable(less, s);
    FirstHitLeast(less, hit, Sort(less, s));
    FirstHitIsMember(hit, s);
    if !less(v, e) {
      forall w | w in s && hit(w) ensures !less(w, e) {
        assert w in multiset(s) && w in Sort(less, s);
        assert !less(w, v);
      }
      SortPatch(less, hit, f, s);
    } else {
      SortPatchApart(less, hit, f, s, e, v);
    }
  }

  lemma SortPatchApart<T(!new)>(less: (T, T) -> bool, hit: T -> bool, f: T -> T, s: seq<T>, e: T, v: T)
    requires StrictWeakOrder(less) && less(v, e)
    requires FirstHit(hit, s) == Some(e) && FirstHit(hit, Sort(less, s)) == Some(v)
    ensures Sort(less, PatchFirst(hit, f, s)) == PatchFirst(hit, f, Sort(less, s)) <==> f(v) == v && f(e) == e
  {
    var before, after := PatchFirst(hit, f, s), PatchFirst(hit, f, Sort(less, s));
    PatchMultiset(hit, f, s);
    PatchMultiset(hit, f, Sort(less, s));
    SortMembers(less, s);
    SortMembers(less, before);
    if f(v) == v && f(e) == e {
      PatchChangesNothing(hit, f, s);
      PatchChangesNothing(hit, f, Sort(less, s));
    }
    if Sort(less, before) == after {
      ExchangeNothing(multiset(before), multiset(s), e, f(e), v, f(v));
    }
  }

  lemma ExchangeNothing<T>(patched: multiset<T>, all: multiset<T>, e: T, e': T, v: T, v': T)
    requires patched + multiset{e} == all + multiset{e'}
    requires patched + multiset{v} == all + multiset{v'}
    requires e != v
    ensures e == e' && v == v'
  {
    assert (patched + multiset{e})[e] == (all + multiset{e'})[e];
    assert (patched + multiset{v})[e] == (all + multiset{v'})[e];
    assert (patched + multiset{e})[v] == (all + multiset{e'})[v];
    assert (patched + multiset{v})[v] == (all + multiset{v'})[v];
  }
}
