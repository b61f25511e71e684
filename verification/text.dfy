/** The string primitives the core uses: JavaScript's whitespace class,
    `toLowerCase`, `trim`, `includes`, `join` and `split`. */
module Text {

  /** JavaScript's WhiteSpace and LineTerminator code points: what `trim`
      removes and what the regular-expression class `\s` matches. */
  predicate IsSpace(c: char) {
    || c == ' '
    || ('\t' <= c <= '\r')
    || c == '\U{A0}' || c == '\U{1680}'
    || ('\U{2000}' <= c <= '\U{200A}')
    || c == '\U{2028}' || c == '\U{2029}' || c == '\U{202F}' || c == '\U{205F}'
    || c == '\U{3000}' || c == '\U{FEFF}'
  }

  ghost predicate AllSpace(s: string) {
    forall i :: 0 <= i < |s| ==> IsSpace(s[i])
  }

  /** `toLowerCase` on one character (ASCII letters only). */
  function LowerChar(c: char): char {
    if 'A' <= c <= 'Z' then (c as int + 32) as char else c
  }

  /** `s.toLowerCase()`. */
  function Lower(s: string): (r: string)
    ensures |r| == |s|
    ensures forall i :: 0 <= i < |s| ==> r[i] == LowerChar(s[i])
  {
    if s == "" then "" else [LowerChar(s[0])] + Lower(s[1..])
  }

  lemma {:induction false} LowerConcat(a: string, b: string)
    ensures Lower(a + b) == Lower(a) + Lower(b)
  {
    assert Lower(a + b) == Lower(a) + Lower(b);
  }

  /** `sub` occurs in `s` starting at index `i`. */
  predicate OccursAt(s: string, sub: string, i: int) {
    0 <= i && i + |sub| <= |s| && s[i..i + |sub|] == sub
  }

  /** `s.includes(sub)`: `sub` occurs in `s` at some position. */
  predicate Contains(s: string, sub: string) {
    exists i | 0 <= i <= |s| - |sub| :: OccursAt(s, sub, i)
  }

  lemma {:induction false} ContainsInConcat(a: string, b: string, sub: string)
    ensures Contains(a, sub) ==> Contains(a + b, sub)
    ensures Contains(b, sub) ==> Contains(a + b, sub)
  {
    if Contains(a, sub) {
      var i :| 0 <= i <= |a| - |sub| && OccursAt(a, sub, i);
      assert (a + b)[i..i + |sub|] == a[i..i + |sub|];
      assert OccursAt(a + b, sub, i);
    }
    if Contains(b, sub) {
      var j :| 0 <= j <= |b| - |sub| && OccursAt(b, sub, j);
      assert (a + b)[|a| + j..|a| + j + |sub|] == b[j..j + |sub|];
      assert OccursAt(a + b, sub, |a| + j);
    }
  }

  /** Index of the first character at or after `i` that is not whitespace. */
  function SkipSpaces(s: string, i: nat): (j: nat)
    requires i <= |s|
    ensures i <= j <= |s|
    ensures forall k :: i <= k < j ==> IsSpace(s[k])
    ensures j < |s| ==> !IsSpace(s[j])
    decreases |s| - i
  {
    if i < |s| && IsSpace(s[i]) then SkipSpaces(s, i + 1) else i
  }

  /** One past the last character before `j`, and not before `lo`, that is not whitespace. */
  function SkipSpacesBack(s: string, lo: nat, j: nat): (e: nat)
    requires lo <= j <= |s|
    ensures lo <= e <= j
    ensures forall k :: e <= k < j ==> IsSpace(s[k])
    ensures e > lo ==> !IsSpace(s[e - 1])
    decreases j
  {
    if j > lo && IsSpace(s[j - 1]) then SkipSpacesBack(s, lo, j - 1) else j
  }

  /** `s.trim()`: the slice of `s` left once leading and trailing
      whitespace is removed. */
  function Trim(s: string): (r: string)
    ensures exists i, j :: 0 <= i <= j <= |s| && r == s[i..j] && AllSpace(s[..i]) && AllSpace(s[j..])
    ensures r == "" || (!IsSpace(r[0]) && !IsSpace(r[|r| - 1]))
    ensures r == "" <==> AllSpace(s)
  {
    var i := SkipSpaces(s, 0);
    var j := SkipSpacesBack(s, i, |s|);
    assert AllSpace(s[..i]) && AllSpace(s[j..]);
    s[i..j]
  }

  /** `parts.join(sep)`. */
  function Join(parts: seq<string>, sep: string): string {
    if parts == [] then ""
    else if |parts| == 1 then parts[0]
    else parts[0] + sep + Join(parts[1..], sep)
  }

  lemma {:induction false} JoinConcat(a: seq<string>, b: seq<string>, sep: string)
    requires a != [] && b != []
    ensures Join(a + b, sep) == Join(a, sep) + sep + Join(b, sep)
  {
    if |a| == 1 {
      assert (a + b)[1..] == b;
    } else {
      assert (a + b)[1..] == a[1..] + b;
      JoinConcat(a[1..], b, sep);
    }
  }

  /** Index of the first `c` at or after `i`, if any. */
  function IndexOf(s: string, c: char, i: nat): (r: nat)
    requires i <= |s|
    ensures i <= r <= |s|
    ensures forall k :: i <= k < r ==> s[k] != c
    ensures r < |s| ==> s[r] == c
    decreases |s| - i
  {
    if i == |s| || s[i] == c then i else IndexOf(s, c, i + 1)
  }

  /** `s.split(c)` for a one-character separator: empty pieces are kept,
      and the empty string splits into one empty piece. */
  function SplitChar(s: string, c: char): (r: seq<string>)
    ensures |r| >= 1
    ensures forall k :: 0 <= k < |r| ==> c !in r[k]
    decreases |s|
  {
    var k := IndexOf(s, c, 0);
    if k == |s| then [s] else [s[..k]] + SplitChar(s[k + 1..], c)
  }

  /** `s` with every occurrence of `c` replaced by `d`. */
  function Replace(s: string, c: char, d: char): (r: string)
    ensures |r| == |s|
    ensures forall i :: 0 <= i < |s| ==> r[i] == if s[i] == c then d else s[i]
  {
    if s == "" then "" else [if s[0] == c then d else s[0]] + Replace(s[1..], c, d)
  }

  lemma {:induction false} ReplaceConcat(a: string, b: string, c: char, d: char)
    ensures Replace(a + b, c, d) == Replace(a, c, d) + Replace(b, c, d)
  {
    assert Replace(a + b, c, d) == Replace(a, c, d) + Replace(b, c, d);
  }

  lemma {:induction false} JoinCons(p: string, tail: seq<string>, sep: string)
    requires tail != []
    ensures Join([p] + tail, sep) == p + sep + Join(tail, sep)
  {
    assert ([p] + tail)[1..] == tail;
  }

  /** Replacing in `pre + [c] + rest`, where `pre` holds no `c`. */
  lemma {:induction false} ReplaceAtSeparator(pre: string, rest: string, c: char, d: char)
    requires c !in pre
    ensures Replace(pre + [c] + rest, c, d) == pre + [d] + Replace(rest, c, d)
  {
    ReplaceConcat(pre + [c], rest, c, d);
    ReplaceConcat(pre, [c], c, d);
    var r := Replace(pre, c, d);
    assert forall i :: 0 <= i < |pre| ==> r[i] == pre[i];
    assert r == pre;
    assert Replace([c], c, d) == [d];
  }

  /** Splitting on `c` and joining with `d` replaces every `c` by `d`
      (`title.split(' ').join('+')`). */
  lemma {:induction false} SplitJoinReplaces(s: string, c: char, d: char)
    ensures Join(SplitChar(s, c), [d]) == Replace(s, c, d)
    decreases |s|
  {
    var k := IndexOf(s, c, 0);
    if k == |s| {
      assert forall i :: 0 <= i < |s| ==> s[i] != c;
    } else {
      SplitJoinReplaces(s[k + 1..], c, d);
      SplitJoinStep(s, c, d, k);
    }
  }

  /** At the first `c`, both sides emit the piece before it and `d`. */
  lemma {:induction false} SplitJoinStep(s: string, c: char, d: char, k: nat)
    requires k == IndexOf(s, c, 0) < |s|
    requires Join(SplitChar(s[k + 1..], c), [d]) == Replace(s[k + 1..], c, d)
    ensures Join(SplitChar(s, c), [d]) == Replace(s, c, d)
  {
    var pre, rest := s[..k], s[k + 1..];
    assert SplitChar(s, c) == [pre] + SplitChar(rest, c);
    JoinCons(pre, SplitChar(rest, c), [d]);
    assert s == pre + [c] + rest;
    ReplaceAtSeparator(pre, rest, c, d);
  }
}
