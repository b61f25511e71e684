/** `Array.prototype.sort` with a comparator, as a stable insertion sort.

    The comparator returns the sign the sort acts on (a JavaScript `NaN`
    result counts as 0). For a consistent comparator (section 23.1.3.30 of
    ECMA-262, "SortCompare" and "consistent comparator") a stable sort has
    exactly one possible result, so this insertion sort computes what the
    engine's sort computes. For an inconsistent comparator the engine's order
    is implementation-defined; the model then promises only a permutation. */
module StableSort {
  import opened Seqs

  /** `cmp`, restricted to the values `ok` accepts, is a consistent
      comparator: antisymmetric in sign and transitive. */
  ghost predicate Consistent<T(!new)>(cmp: (T, T) -> int, ok: T -> bool) {
    && (forall a, b :: ok(a) && ok(b) ==> cmp(a, b) == -cmp(b, a))
    && (forall a, b, c :: ok(a) && ok(b) && ok(c) && cmp(a, b) <= 0 && cmp(b, c) <= 0 ==> cmp(a, c) <= 0)
  }

  ghost predicate AllOk<T(!new)>(s: seq<T>, ok: T -> bool) {
    forall i :: 0 <= i < |s| ==> ok(s[i])
  }

  /** No later element should have come before an earlier one. */
  ghost predicate Sorted<T(!new)>(s: seq<T>, cmp: (T, T) -> int) {
    forall i, j :: 0 <= i < j < |s| ==> cmp(s[i], s[j]) <= 0
  }

  ghost predicate StrictlySorted<T(!new)>(s: seq<T>, cmp: (T, T) -> int) {
    forall i, j :: 0 <= i < j < |s| ==> cmp(s[i], s[j]) < 0
  }

  /** Puts `x` before the first element it may precede. */
  function Insert<T(!new)>(x: T, s: seq<T>, cmp: (T, T) -> int): (r: seq<T>)
    ensures multiset(r) == multiset(s) + multiset{x}
    ensures |r| == |s| + 1
  {
    if s == [] then [x]
    else if cmp(x, s[0]) <= 0 then [x] + s
    else
      assert s == [s[0]] + s[1..];
      [s[0]] + Insert(x, s[1..], cmp)
  }

  /** `s.sort(cmp)` on a copy of `s`. */
  function Sort<T(!new)>(s: seq<T>, cmp: (T, T) -> int): (r: seq<T>)
    ensures multiset(r) == multiset(s)
    ensures |r| == |s|
  {
    if s == [] then []
    else
      assert s == [s[0]] + s[1..];
      Insert(s[0], Sort(s[1..], cmp), cmp)
  }

  lemma {:induction false} MemberOfPermutation<T(!new)>(a: seq<T>, b: seq<T>, i: int)
    requires multiset(a) == multiset(b) && 0 <= i < |a|
    ensures a[i] in b
  {
    assert a[i] in multiset(a);
  }

  lemma {:induction false} PermutationAllOk<T(!new)>(a: seq<T>, b: seq<T>, ok: T -> bool)
    requires multiset(a) == multiset(b) && AllOk(b, ok)
    ensures AllOk(a, ok)
  {
    forall i | 0 <= i < |a|
      ensures ok(a[i])
    {
      MemberOfPermutation(a, b, i);
    }
  }

  /** Putting `x` in front of a sorted `s` that it may precede keeps it sorted. */
  lemma {:induction false} ConsSorted<T(!new)>(x: T, s: seq<T>, cmp: (T, T) -> int)
    requires Sorted(s, cmp)
    requires forall j :: 0 <= j < |s| ==> cmp(x, s[j]) <= 0
    ensures Sorted([x] + s, cmp)
  {
    var r := [x] + s;
    forall i, j | 0 <= i < j < |r|
      ensures cmp(r[i], r[j]) <= 0
    {
      assert r[j] == s[j - 1];
      if i > 0 {
        assert r[i] == s[i - 1];
      }
    }
  }

  lemma {:induction false} InsertSorted<T(!new)>(x: T, s: seq<T>, cmp: (T, T) -> int, ok: T -> bool)
    requires Consistent(cmp, ok) && ok(x) && AllOk(s, ok) && Sorted(s, cmp)
    ensures Sorted(Insert(x, s, cmp), cmp)
  {
    if s == [] {
    } else if cmp(x, s[0]) > 0 {
      var t := Insert(x, s[1..], cmp);
      InsertSorted(x, s[1..], cmp, ok);
      assert cmp(s[0], x) < 0;
      forall j | 0 <= j < |t|
        ensures cmp(s[0], t[j]) <= 0
      {
        assert t[j] in multiset(s[1..]) + multiset{x};
        if t[j] != x {
          assert t[j] in s[1..];
        }
      }
      ConsSorted(s[0], t, cmp);
    } else {
      PrecedesAll(x, s, cmp, ok);
      ConsSorted(x, s, cmp);
    }
  }

  /** With a consistent comparator the result is sorted. */
  lemma {:induction false} SortSorted<T(!new)>(s: seq<T>, cmp: (T, T) -> int, ok: T -> bool)
    requires Consistent(cmp, ok) && AllOk(s, ok)
    ensures Sorted(Sort(s, cmp), cmp)
  {
    if s != [] {
      SortSorted(s[1..], cmp, ok);
      PermutationAllOk(Sort(s[1..], cmp), s[1..], ok);
      InsertSorted(s[0], Sort(s[1..], cmp), cmp, ok);
    }
  }

  /** Sorting what is already in order changes nothing, so sorting twice
      gives what sorting once gives. */
  lemma {:induction false} SortOfSorted<T(!new)>(s: seq<T>, cmp: (T, T) -> int)
    requires Sorted(s, cmp)
    ensures Sort(s, cmp) == s
  {
    if s != [] {
      SortOfSorted(s[1..], cmp);
      assert [s[0]] + s[1..] == s;
    }
  }

  lemma {:induction false} SortIdempotent<T(!new)>(s: seq<T>, cmp: (T, T) -> int, ok: T -> bool)
    requires Consistent(cmp, ok) && AllOk(s, ok)
    ensures Sort(Sort(s, cmp), cmp) == Sort(s, cmp)
  {
    SortSorted(s, cmp, ok);
    SortOfSorted(Sort(s, cmp), cmp);
  }

  /** An element that may precede the head of a sorted sequence may precede
      all of it. */
  lemma {:induction false} PrecedesAll<T(!new)>(x: T, s: seq<T>, cmp: (T, T) -> int, ok: T -> bool)
    requires Consistent(cmp, ok) && ok(x) && AllOk(s, ok) && Sorted(s, cmp)
    requires s != [] && cmp(x, s[0]) <= 0
    ensures forall j :: 0 <= j < |s| ==> cmp(x, s[j]) <= 0
  {
    forall j | 0 < j < |s|
      ensures cmp(x, s[j]) <= 0
    {
      assert cmp(s[0], s[j]) <= 0;
    }
  }

  lemma {:induction false} SortedTail<T(!new)>(s: seq<T>, cmp: (T, T) -> int, ok: T -> bool)
    requires s != [] && AllOk(s, ok) && Sorted(s, cmp)
    ensures AllOk(s[1..], ok) && Sorted(s[1..], cmp)
  {
    forall i, j | 0 <= i < j < |s| - 1
      ensures cmp(s[1..][i], s[1..][j]) <= 0
    {
      assert s[1..][i] == s[i + 1] && s[1..][j] == s[j + 1];
    }
  }

  lemma {:induction false} StrictlySortedTail<T(!new)>(s: seq<T>, cmp: (T, T) -> int, ok: T -> bool)
    requires s != [] && AllOk(s, ok) && StrictlySorted(s, cmp)
    ensures AllOk(s[1..], ok) && StrictlySorted(s[1..], cmp)
  {
    forall i, j | 0 <= i < j < |s| - 1
      ensures cmp(s[1..][i], s[1..][j]) < 0
    {
      assert s[1..][i] == s[i + 1] && s[1..][j] == s[j + 1];
    }
  }

  /** Under the hypotheses of `SortedUnique` the two heads agree. */
  lemma {:induction false} HeadsAgree<T(!new)>(r: seq<T>, a: seq<T>, cmp: (T, T) -> int, ok: T -> bool)
    requires Consistent(cmp, ok) && AllOk(a, ok)
    requires multiset(r) == multiset(a) && a != []
    requires Sorted(r, cmp) && StrictlySorted(a, cmp)
    ensures |r| == |a| && r[0] == a[0]
  {
    assert |r| == |multiset(r)| == |a|;
    MemberOfPermutation(r, a, 0);
    MemberOfPermutation(a, r, 0);
    var k :| 0 <= k < |a| && a[k] == r[0];
    var j :| 0 <= j < |r| && r[j] == a[0];
  }

  lemma {:induction false} TailMultiset<T>(r: seq<T>, a: seq<T>)
    requires r != [] && a != [] && r[0] == a[0] && multiset(r) == multiset(a)
    ensures multiset(r[1..]) == multiset(a[1..])
  {
    assert r == [r[0]] + r[1..];
    assert a == [a[0]] + a[1..];
    assert multiset(r[1..]) == multiset(r) - multiset{r[0]};
    assert multiset(a[1..]) == multiset(a) - multiset{a[0]};
  }

  /** A sorted sequence and a strictly sorted one holding the same elements
      are equal: a strict order leaves a sort no choice. */
  lemma {:induction false} SortedUnique<T(!new)>(r: seq<T>, a: seq<T>, cmp: (T, T) -> int, ok: T -> bool)
    requires Consistent(cmp, ok) && AllOk(a, ok)
    requires multiset(r) == multiset(a)
    requires Sorted(r, cmp) && StrictlySorted(a, cmp)
    ensures r == a
  {
    if a == [] {
      assert |r| == |multiset(r)| == 0;
    } else {
      HeadsAgree(r, a, cmp, ok);
      TailMultiset(r, a);
      PermutationAllOk(r, a, ok);
      SortedTail(r, cmp, ok);
      StrictlySortedTail(a, cmp, ok);
      SortedUnique(r[1..], a[1..], cmp, ok);
      assert r == [r[0]] + r[1..] && a == [a[0]] + a[1..];
    }
  }

  /** Whether an element is dropped from the sorted sequence does not affect
      where the others go. */
  lemma {:induction false} FilterInsertDropped<T(!new)>(x: T, s: seq<T>, cmp: (T, T) -> int, p: T -> bool)
    requires !p(x)
    ensures Filter(Insert(x, s, cmp), p) == Filter(s, p)
  {
    if s != [] && cmp(x, s[0]) > 0 {
      FilterInsertDropped(x, s[1..], cmp, p);
      var ins := Insert(x, s[1..], cmp);
      assert Insert(x, s, cmp) == [s[0]] + ins;
      assert ([s[0]] + ins)[1..] == ins;
    } else if s != [] {
      assert Insert(x, s, cmp) == [x] + s;
      assert ([x] + s)[1..] == s;
    }
  }

  /** Inserting a kept element commutes with filtering. */
  lemma {:induction false} FilterInsertKept<T(!new)>(x: T, s: seq<T>, cmp: (T, T) -> int, p: T -> bool, ok: T -> bool)
    requires p(x) && Consistent(cmp, ok) && ok(x) && AllOk(s, ok) && Sorted(s, cmp)
    ensures Filter(Insert(x, s, cmp), p) == Insert(x, Filter(s, p), cmp)
  {
    if s == [] {
    } else if cmp(x, s[0]) <= 0 {
      FilterInsertFront(x, s, cmp, p, ok);
    } else {
      SortedTail(s, cmp, ok);
      FilterInsertKept(x, s[1..], cmp, p, ok);
      FilterInsertBehind(x, s, cmp, p);
    }
  }

  /** `x` goes in front of a sorted `s`, and so in front of what the filter
      keeps of it. */
  lemma {:induction false} FilterInsertFront<T(!new)>(x: T, s: seq<T>, cmp: (T, T) -> int, p: T -> bool, ok: T -> bool)
    requires p(x) && Consistent(cmp, ok) && ok(x) && AllOk(s, ok) && Sorted(s, cmp)
    requires s != [] && cmp(x, s[0]) <= 0
    ensures Filter(Insert(x, s, cmp), p) == Insert(x, Filter(s, p), cmp)
  {
    assert Insert(x, s, cmp) == [x] + s;
    assert ([x] + s)[1..] == s;
    var f := Filter(s, p);
    if f != [] {
      PrecedesAll(x, s, cmp, ok);
      var j :| 0 <= j < |s| && s[j] == f[0];
      assert cmp(x, f[0]) <= 0;
    }
  }

  /** `x` goes behind `s[0]`: the filter's verdict on `s[0]` comes first on
      both sides. */
  lemma {:induction false} FilterInsertBehind<T(!new)>(x: T, s: seq<T>, cmp: (T, T) -> int, p: T -> bool)
    requires s != [] && cmp(x, s[0]) > 0
    requires Filter(Insert(x, s[1..], cmp), p) == Insert(x, Filter(s[1..], p), cmp)
    ensures Filter(Insert(x, s, cmp), p) == Insert(x, Filter(s, p), cmp)
  {
    var ins := Insert(x, s[1..], cmp);
    assert Insert(x, s, cmp) == [s[0]] + ins;
    assert ([s[0]] + ins)[1..] == ins;
    if p(s[0]) {
      var f := Filter(s[1..], p);
      assert Filter(s, p) == [s[0]] + f;
      assert ([s[0]] + f)[1..] == f;
      assert Insert(x, [s[0]] + f, cmp) == [s[0]] + Insert(x, f, cmp);
    } else {
      assert Filter(s, p) == Filter(s[1..], p);
    }
  }

  /** Because the sort is stable, filtering a sorted sequence gives what
      sorting the filtered input gives. */
  lemma {:induction false} SortFilterCommute<T(!new)>(s: seq<T>, cmp: (T, T) -> int, p: T -> bool, ok: T -> bool)
    requires Consistent(cmp, ok) && AllOk(s, ok)
    ensures Filter(Sort(s, cmp), p) == Sort(Filter(s, p), cmp)
  {
    if s != [] {
      var t := Sort(s[1..], cmp);
      SortFilterCommute(s[1..], cmp, p, ok);
      if p(s[0]) {
        SortSorted(s[1..], cmp, ok);
        PermutationAllOk(t, s[1..], ok);
        FilterInsertKept(s[0], t, cmp, p, ok);
      } else {
        FilterInsertDropped(s[0], t, cmp, p);
      }
    }
  }

  /** Under a consistent comparator the first element of the sorted list
      may precede every element of the input. */
  lemma {:induction false} SortFirstIsLeast<T(!new)>(s: seq<T>, cmp: (T, T) -> int, ok: T -> bool)
    requires Consistent(cmp, ok) && AllOk(s, ok) && s != []
    ensures Sort(s, cmp)[0] in s
    ensures forall i :: 0 <= i < |s| ==> cmp(Sort(s, cmp)[0], s[i]) <= 0
  {
    var r := Sort(s, cmp);
    SortSorted(s, cmp, ok);
    MemberOfPermutation(r, s, 0);
    forall i | 0 <= i < |s|
      ensures cmp(r[0], s[i]) <= 0
    {
      MemberOfPermutation(s, r, i);
      var j :| 0 <= j < |r| && r[j] == s[i];
      if j == 0 {
        assert cmp(r[0], r[0]) == -cmp(r[0], r[0]);
      }
    }
  }
}
