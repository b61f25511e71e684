/** Counting occurrences by key, as the statistics page does with
    `reduce((acc, x) => { acc[x] = (acc[x] || 0) + 1; return acc; }, {})`:
    one entry per distinct key, in order of first occurrence. */
module Tally {

  /** A key and how often it occurred. */
  datatype Entry<K> = Entry(key: K, count: nat)

  /** No key has two entries. */
  ghost predicate DistinctKeys<K>(t: seq<Entry<K>>) {
    forall i, j :: 0 <= i < j < |t| ==> t[i].key != t[j].key
  }

  /** `k` has an entry. */
  predicate HasKey<K(==)>(t: seq<Entry<K>>, k: K) {
    exists i | 0 <= i < |t| :: t[i].key == k
  }

  /** The index of `k`'s entry, or `|t|` when there is none. */
  function FindKey<K(==)>(t: seq<Entry<K>>, k: K): (i: nat)
    ensures i <= |t|
    ensures i < |t| ==> t[i].key == k
    ensures i == |t| ==> !HasKey(t, k)
  {
    if t == [] then 0
    else if t[0].key == k then 0
    else 1 + FindKey(t[1..], k)
  }

  /** Counts one more occurrence of `k`. */
  function Bump<K(==)>(t: seq<Entry<K>>, k: K): seq<Entry<K>> {
    var i := FindKey(t, k);
    if i < |t| then t[i := Entry(k, t[i].count + 1)] else t + [Entry(k, 1)]
  }

  /** Every entry's count is the number of occurrences of its key. */
  ghost predicate CountsMatch<K(!new)>(t: seq<Entry<K>>, s: seq<K>) {
    forall i :: 0 <= i < |t| ==> t[i].count == multiset(s)[t[i].key]
  }

  /** Every element of `s` has an entry. */
  ghost predicate Covers<K(!new)>(t: seq<Entry<K>>, s: seq<K>) {
    forall j :: 0 <= j < |s| ==> HasKey(t, s[j])
  }

  /** The tally of `s`. */
  function Count<K(==,!new)>(s: seq<K>): (t: seq<Entry<K>>)
    ensures DistinctKeys(t)
    ensures CountsMatch(t, s)
    ensures Covers(t, s)
    ensures forall i :: 0 <= i < |t| ==> t[i].count >= 1
  {
    if s == [] then []
    else
      var init := s[..|s| - 1];
      var x := s[|s| - 1];
      assert s == init + [x];
      BumpFacts(Count(init), init, x);
      Bump(Count(init), x)
  }

  lemma {:induction false} BumpFacts<K(!new)>(t: seq<Entry<K>>, s: seq<K>, x: K)
    requires DistinctKeys(t) && CountsMatch(t, s) && Covers(t, s)
    ensures var r := Bump(t, x);
      DistinctKeys(r) && CountsMatch(r, s + [x]) && Covers(r, s + [x])
  {
    var r := Bump(t, x);
    var i := FindKey(t, x);
    assert multiset(s + [x]) == multiset(s) + multiset{x};
    if i == |t| {
      assert x !in s;
      assert r[|t|].key == x;
    }
    forall j | 0 <= j < |s| + 1
      ensures HasKey(r, (s + [x])[j])
    {
      if j < |s| {
        var k :| 0 <= k < |t| && t[k].key == s[j];
        assert r[k].key == s[j];
      } else if i < |t| {
        assert r[i].key == x;
      } else {
        assert r[|t|].key == x;
      }
    }
  }

  /** When every counted element satisfies `p`, so does every key. */
  lemma {:induction false} CountKeysSatisfy<K(!new)>(s: seq<K>, p: K -> bool)
    requires forall j :: 0 <= j < |s| ==> p(s[j])
    ensures forall i :: 0 <= i < |Count(s)| ==> p(Count(s)[i].key)
  {
    var t := Count(s);
    forall i | 0 <= i < |t|
      ensures p(t[i].key)
    {
      assert multiset(s)[t[i].key] >= 1;
      assert t[i].key in s;
    }
  }

  /** A value found at two positions occurs at least twice. */
  lemma {:induction false} TwoPositions<T>(s: seq<T>, i: int, j: int)
    requires 0 <= i < j < |s| && s[i] == s[j]
    ensures multiset(s)[s[i]] >= 2
  {
    assert s == s[..j] + ([s[j]] + s[j + 1..]);
    assert s[i] in s[..j];
  }

  /** A value found at one position only occurs once. */
  lemma {:induction false} OnlyAt<T>(s: seq<T>, p: int)
    requires 0 <= p < |s|
    requires forall r :: 0 <= r < |s| && r != p ==> s[r] != s[p]
    ensures multiset(s)[s[p]] == 1
  {
    assert s == s[..p] + ([s[p]] + s[p + 1..]);
    assert s[p] !in s[..p];
    assert s[p] !in s[p + 1..];
  }

  /** Reordering a tally keeps its keys distinct. */
  lemma {:induction false} DistinctKeysPermutation<K(!new)>(a: seq<Entry<K>>, b: seq<Entry<K>>)
    requires multiset(a) == multiset(b) && DistinctKeys(a)
    ensures DistinctKeys(b)
  {
    forall i, j | 0 <= i < j < |b|
      ensures b[i].key != b[j].key
    {
      if b[i].key == b[j].key {
        assert b[i] in multiset(a) && b[j] in multiset(a);
        var p :| 0 <= p < |a| && a[p] == b[i];
        var q :| 0 <= q < |a| && a[q] == b[j];
        if p == q {
          TwoPositions(b, i, j);
          OnlyAt(a, p);
        }
      }
    }
  }

  /** The sum of all counts. */
  function Total<K>(t: seq<Entry<K>>): nat {
    if t == [] then 0 else t[0].count + Total(t[1..])
  }

  lemma {:induction false} TotalAppend<K>(t: seq<Entry<K>>, e: Entry<K>)
    ensures Total(t + [e]) == Total(t) + e.count
  {
    if t != [] {
      assert (t + [e])[1..] == t[1..] + [e];
      TotalAppend(t[1..], e);
    }
  }

  lemma {:induction false} TotalUpdate<K>(t: seq<Entry<K>>, i: int, e: Entry<K>)
    requires 0 <= i < |t|
    ensures Total(t[i := e]) == Total(t) - t[i].count + e.count
  {
    if i > 0 {
      assert t[i := e][1..] == t[1..][i - 1 := e];
      TotalUpdate(t[1..], i - 1, e);
    }
  }

  /** Bumping adds one to the total. */
  lemma {:induction false} BumpTotal<K>(t: seq<Entry<K>>, k: K)
    ensures Total(Bump(t, k)) == Total(t) + 1
  {
    var i := FindKey(t, k);
    if i < |t| {
      TotalUpdate(t, i, Entry(k, t[i].count + 1));
    } else {
      TotalAppend(t, Entry(k, 1));
    }
  }

  /** The counts of a tally add up to the number of elements counted. */
  lemma {:induction false} CountTotal<K(!new)>(s: seq<K>)
    ensures Total(Count(s)) == |s|
  {
    if s != [] {
      var init := s[..|s| - 1];
      CountTotal(init);
      BumpTotal(Count(init), s[|s| - 1]);
    }
  }

  /** An element that does not occur gets no entry. */
  lemma {:induction false} CountHasOnlyElements<K(!new)>(s: seq<K>, k: K)
    requires k !in s
    ensures !HasKey(Count(s), k)
  {
  }

  /** The keys of a tally, as a set, are the elements counted. */
  lemma {:induction false} CountKeys<K(!new)>(s: seq<K>)
    ensures (set e | e in Count(s) :: e.key) == (set x | x in s)
  {
    var t := Count(s);
    forall x | x in s
      ensures x in (set e | e in t :: e.key)
    {
      var j :| 0 <= j < |s| && s[j] == x;
      var i :| 0 <= i < |t| && t[i].key == x;
    }
    forall e | e in t
      ensures e.key in s
    {
      var i :| 0 <= i < |t| && t[i] == e;
      assert e.count >= 1;
    }
  }

  /** A tally has one entry per distinct element. */
  lemma {:induction false} CountSize<K(!new)>(s: seq<K>)
    ensures |Count(s)| == |set x | x in s|
  {
    var t := Count(s);
    CountKeys(s);
    DistinctKeysCard(t);
  }

  lemma {:induction false} DistinctKeysCard<K>(t: seq<Entry<K>>)
    requires DistinctKeys(t)
    ensures |set e | e in t :: e.key| == |t|
  {
    if t != [] {
      var rest := t[1..];
      DistinctKeysTail(t);
      DistinctKeysCard(rest);
      KeySetCons(t);
    }
  }

  lemma {:induction false} DistinctKeysTail<K>(t: seq<Entry<K>>)
    requires t != [] && DistinctKeys(t)
    ensures DistinctKeys(t[1..])
  {
    var rest := t[1..];
    forall i, j | 0 <= i < j < |rest|
      ensures rest[i].key != rest[j].key
    {
      assert rest[i] == t[i + 1] && rest[j] == t[j + 1];
    }
  }

  /** The keys of a tally with distinct keys are its first key and, apart
      from it, the keys of the rest. */
  lemma {:induction false} KeySetCons<K>(t: seq<Entry<K>>)
    requires t != [] && DistinctKeys(t)
    ensures var ks := set e | e in t[1..] :: e.key;
      t[0].key !in ks && (set e | e in t :: e.key) == {t[0].key} + ks
  {
    var rest := t[1..];
    var ks := set e | e in rest :: e.key;
    forall e | e in rest
      ensures e.key != t[0].key
    {
      var i :| 0 <= i < |rest| && rest[i] == e;
      assert t[i + 1] == e;
    }
    forall e | e in t
      ensures e == t[0] || e in rest
    {
      var i :| 0 <= i < |t| && t[i] == e;
      if i > 0 {
        assert rest[i - 1] == e;
      }
    }
    forall e | e in rest
      ensures e in t
    {
      var i :| 0 <= i < |rest| && rest[i] == e;
      assert t[i + 1] == e;
    }
  }
}
