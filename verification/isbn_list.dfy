/** The batch form's ISBN list: splitting the typed text into ISBNs
    (`split(/[\s,]+/)` followed by dropping blank pieces) and appending
    pasted text to it. */
module IsbnList {
  import opened Seqs
  import opened Text

  /** A character of the class `[\s,]`. */
  predicate IsSep(c: char) {
    IsSpace(c) || c == ','
  }

  ghost predicate AllSep(s: string) {
    forall i :: 0 <= i < |s| ==> IsSep(s[i])
  }

  ghost predicate NoSep(s: string) {
    forall i :: 0 <= i < |s| ==> !IsSep(s[i])
  }

  /** Index of the first separator at or after `i`, or `|s|`. */
  function WordEnd(s: string, i: nat): (k: nat)
    requires i <= |s|
    ensures i <= k <= |s|
    ensures forall j :: i <= j < k ==> !IsSep(s[j])
    ensures k < |s| ==> IsSep(s[k])
    decreases |s| - i
  {
    if i == |s| || IsSep(s[i]) then i else WordEnd(s, i + 1)
  }

  /** Index of the first non-separator at or after `i`, or `|s|`: the end
      of the run of separators starting at `i`. */
  function RunEnd(s: string, i: nat): (k: nat)
    requires i <= |s|
    ensures i <= k <= |s|
    ensures forall j :: i <= j < k ==> IsSep(s[j])
    ensures k < |s| ==> !IsSep(s[k])
    decreases |s| - i
  {
    if i < |s| && IsSep(s[i]) then RunEnd(s, i + 1) else i
  }

  /** `s.split(/[\s,]+/)`: the pieces between maximal runs of separators.
      A leading or trailing run gives an empty piece, and the empty string
      gives one empty piece. */
  function SplitRuns(s: string): (r: seq<string>)
    ensures |r| >= 1
    ensures forall k :: 0 <= k < |r| ==> NoSep(r[k])
    decreases |s|
  {
    var i := WordEnd(s, 0);
    if i == |s| then [s]
    else
      var j := RunEnd(s, i);
      [s[..i]] + SplitRuns(s[j..])
  }

  /** `isbn.trim() !== ''`. */
  function NonBlank(): string -> bool {
    (x: string) => Trim(x) != ""
  }

  /** The ISBNs of the typed list, in order. */
  function Tokens(s: string): (r: seq<string>)
    ensures forall k :: 0 <= k < |r| ==> r[k] != "" && NoSep(r[k])
  {
    Filter(SplitRuns(s), NonBlank())
  }

  /** The words of `s`, read left to right: separators are skipped and a
      word runs up to the next separator. An independent definition of
      what `Tokens` should produce. */
  function Words(s: string): (r: seq<string>)
    decreases |s|
  {
    if s == "" then []
    else if IsSep(s[0]) then Words(s[1..])
    else
      var k := WordEnd(s, 0);
      [s[..k]] + Words(s[k..])
  }

  /** Leading separators do not change the words. */
  lemma {:induction false} WordsSkip(s: string, j: nat)
    requires j <= |s| && AllSep(s[..j])
    ensures Words(s) == Words(s[j..])
  {
    if j > 0 {
      var u, t := s[..j], s[1..][..j - 1];
      assert IsSep(u[0]);
      assert forall i :: 0 <= i < |t| ==> t[i] == u[i + 1];
      WordsSkip(s[1..], j - 1);
      assert s[1..][j - 1..] == s[j..];
    }
  }

  /** Splitting on runs and dropping blank pieces yields exactly the
      words. */
  lemma {:induction false} TokensAreWords(s: string)
    ensures Tokens(s) == Words(s)
    decreases |s|
  {
    var i := WordEnd(s, 0);
    if i == |s| {
      LastPiece(s);
    } else {
      var j := RunEnd(s, i);
      TokensAreWords(s[j..]);
      TokensStep(s, i, j);
      WordsStep(s, i, j);
    }
  }

  /** Text without a separator is one token and one word, or none when it
      is empty. */
  lemma {:induction false} LastPiece(s: string)
    requires WordEnd(s, 0) == |s|
    ensures Tokens(s) == Words(s)
  {
    if s != "" {
      assert !IsSpace(s[0]);
      assert Words(s) == [s[..|s|]] + Words(s[|s|..]);
      assert s[..|s|] == s;
    }
  }

  /** The split's first piece is a token unless it is empty. */
  lemma {:induction false} TokensStep(s: string, i: nat, j: nat)
    requires i == WordEnd(s, 0) < |s| && j == RunEnd(s, i)
    ensures Tokens(s) == (if i == 0 then [] else [s[..i]]) + Tokens(s[j..])
  {
    var rest := SplitRuns(s[j..]);
    assert SplitRuns(s) == [s[..i]] + rest;
    FilterConcat([s[..i]], rest, NonBlank());
    if i == 0 {
      assert Trim(s[..0]) == "";
    } else {
      assert !IsSpace(s[..i][0]);
    }
  }

  /** The first word, if any, ends where the first run of separators
      starts, and the run is skipped. */
  lemma {:induction false} WordsStep(s: string, i: nat, j: nat)
    requires i == WordEnd(s, 0) < |s| && j == RunEnd(s, i)
    ensures Words(s) == (if i == 0 then [] else [s[..i]]) + Words(s[j..])
  {
    SkipRun(s, i, j);
    if i == 0 {
      assert s[0..] == s;
    } else {
      assert Words(s) == [s[..i]] + Words(s[i..]);
    }
  }

  /** Skipping a run of separators inside `s` does not change the words
      after it. */
  lemma {:induction false} SkipRun(s: string, i: nat, j: nat)
    requires i <= j <= |s|
    requires forall k :: i <= k < j ==> IsSep(s[k])
    ensures Words(s[i..]) == Words(s[j..])
  {
    var t := s[i..];
    var run := t[..j - i];
    assert forall k :: 0 <= k < |run| ==> run[k] == s[i + k];
    WordsSkip(t, j - i);
    assert t[j - i..] == s[j..];
  }

  /** A word on its own is its only word. */
  lemma {:induction false} WordsOfWord(w: string)
    requires w != "" && NoSep(w)
    ensures Words(w) == [w]
  {
    assert WordEnd(w, 0) == |w|;
    assert w[..|w|] == w;
  }

  /** Separators alone have no words. */
  lemma {:induction false} WordsOfSeparators(s: string)
    requires AllSep(s)
    ensures Words(s) == []
  {
    assert s[..|s|] == s;
    WordsSkip(s, |s|);
  }

  /** Words on either side of a non-empty run of separators stay apart:
      the words of `a + m + b` are those of `a` followed by those of `b`. */
  lemma {:induction false} WordsConcat(a: string, m: string, b: string)
    requires m != "" && AllSep(m)
    ensures Words(a + m + b) == Words(a) + Words(b)
    decreases |a|
  {
    var s := a + m + b;
    if a == "" {
      assert s == m + b;
      assert s[..|m|] == m;
      WordsSkip(s, |m|);
      assert s[|m|..] == b;
    } else if IsSep(a[0]) {
      assert s[1..] == a[1..] + m + b;
      WordsConcat(a[1..], m, b);
    } else {
      var k := WordEnd(a, 0);
      FirstWordOfConcat(a, m, b);
      WordsConcat(a[k..], m, b);
    }
  }

  /** A word at the start of `a` is also the first word of `a + m + b`. */
  lemma {:induction false} FirstWordOfConcat(a: string, m: string, b: string)
    requires a != "" && !IsSep(a[0]) && m != "" && AllSep(m)
    ensures var k := WordEnd(a, 0);
      Words(a + m + b) == [a[..k]] + Words(a[k..] + m + b)
  {
    var s := a + m + b;
    var k := WordEnd(a, 0);
    assert IsSep(s[|a|]);
    assert forall j :: 0 <= j < k ==> s[j] == a[j];
    assert k < |a| ==> s[k] == a[k];
    assert WordEnd(s, 0) == k;
    assert s[..k] == a[..k];
    assert s[k..] == a[k..] + m + b;
  }

  /** Surrounding separators, such as the whitespace `trim` removes, do not
      change the words. */
  lemma {:induction false} WordsOfTrim(s: string)
    ensures Words(Trim(s)) == Words(s)
  {
    var i, j :| 0 <= i <= j <= |s| && Trim(s) == s[i..j] && AllSpace(s[..i]) && AllSpace(s[j..]);
    WordsOfSlice(s, i, j);
  }

  lemma {:induction false} WordsOfSlice(s: string, i: nat, j: nat)
    requires i <= j <= |s| && AllSpace(s[..i]) && AllSpace(s[j..])
    ensures Words(s[i..j]) == Words(s)
  {
    var t, q := s[i..j], s[j..];
    assert AllSep(s[..i]) && AllSep(q);
    WordsSkip(s, i);
    assert s[i..] == t + q;
    if q != "" {
      WordsConcat(t, q, "");
      assert t + q + "" == t + q;
      WordsOfSeparators("");
    } else {
      assert s[i..] == t;
    }
  }

  /** `handlePaste`: the pasted text, trimmed, is appended to the list,
      after ", " unless the list is blank; blank pasted text changes
      nothing. */
  function Paste(list: string, clip: string): (r: string)
    ensures AllSpace(clip) ==> r == list
    ensures !AllSpace(clip) ==> |r| > |list| && r[..|list|] == list
  {
    var pasted := Trim(clip);
    if pasted == "" then list
    else list + (if Trim(list) == "" then "" else ", ") + pasted
  }

  /** Pasting appends the pasted ISBNs after the listed ones. */
  lemma {:induction false} PasteAppendsTokens(list: string, clip: string)
    ensures Tokens(Paste(list, clip)) == Tokens(list) + Tokens(clip)
  {
    TokensAreWords(Paste(list, clip));
    TokensAreWords(list);
    TokensAreWords(clip);
    PasteWords(list, clip);
  }

  lemma {:induction false} PasteWords(list: string, clip: string)
    ensures Words(Paste(list, clip)) == Words(list) + Words(clip)
  {
    var pasted := Trim(clip);
    WordsOfTrim(clip);
    if pasted == "" {
      WordsOfSeparators(pasted);
    } else if Trim(list) == "" {
      AppendToBlank(list, pasted);
    } else {
      assert AllSep(", ");
      WordsConcat(list, ", ", pasted);
    }
  }

  lemma {:induction false} AppendToBlank(list: string, pasted: string)
    requires AllSpace(list)
    ensures Words(list + "" + pasted) == Words(list) + Words(pasted)
  {
    assert AllSep(list);
    WordsOfSeparators(list);
    var r := list + "" + pasted;
    assert r[..|list|] == list;
    WordsSkip(r, |list|);
    assert r[|list|..] == pasted;
  }

  /** Joining ISBNs with ", " and splitting the result gives the ISBNs
      back. */
  lemma {:induction false} JoinTokensRoundTrip(isbns: seq<string>)
    requires forall k :: 0 <= k < |isbns| ==> isbns[k] != "" && NoSep(isbns[k])
    ensures Tokens(Join(isbns, ", ")) == isbns
  {
    TokensAreWords(Join(isbns, ", "));
    JoinWords(isbns);
  }

  lemma {:induction false} JoinWords(isbns: seq<string>)
    requires forall k :: 0 <= k < |isbns| ==> isbns[k] != "" && NoSep(isbns[k])
    ensures Words(Join(isbns, ", ")) == isbns
  {
    if |isbns| == 1 {
      WordsOfWord(isbns[0]);
    } else if |isbns| > 1 {
      JoinWords(isbns[1..]);
      assert AllSep(", ");
      WordsConcat(isbns[0], ", ", Join(isbns[1..], ", "));
      WordsOfWord(isbns[0]);
    }
  }
}
