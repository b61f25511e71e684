/** The catalog normaliser of `src/core/src/core/helpers.js`: it turns a
    catalog volume's free-text category strings into one genre label and a
    non-fiction flag, and it normalises ISBN input. */
module Catalog {
  import opened Wrappers
  import opened Seqs
  import opened Text

  /** The label used when no category yields a usable part. */
  const Fallback: string := "General"

  /** Lower-case parts that are never used as a genre. */
  const Forbidden: seq<string> :=
    ["fiction", "non-fiction", "general", "biography & autobiography", "comics & graphic novels", "books"]

  /** Substrings that mark a volume as non-fiction. */
  const Keywords: seq<string> :=
    ["biography", "autobiography", "history", "science", "business",
     "psychology", "self-help", "memoir", "true crime", "nonfiction"]

  // ---------------------------------------------------------------------------
  // Splitting a category on " / " and " > "
  // ---------------------------------------------------------------------------

  /** One of the two category separators, `" / "` or `" > "`, starts at `i`. */
  predicate SeparatorAt(s: string, i: int) {
    0 <= i && i + 3 <= |s| && (s[i..i + 3] == " / " || s[i..i + 3] == " > ")
  }

  ghost predicate NoSeparator(s: string) {
    forall i :: !SeparatorAt(s, i)
  }

  /** The leftmost separator at or after `i`, or `|s|` when there is none. */
  function FirstSeparator(s: string, i: nat): (k: nat)
    requires i <= |s|
    ensures i <= k <= |s|
    ensures forall j :: i <= j < k ==> !SeparatorAt(s, j)
    ensures k < |s| ==> SeparatorAt(s, k)
    ensures k == |s| ==> forall j :: i <= j ==> !SeparatorAt(s, j)
    decreases |s| - i
  {
    if i + 3 > |s| then |s|
    else if SeparatorAt(s, i) then i
    else FirstSeparator(s, i + 1)
  }

  /** A prefix that ends before the leftmost separator holds no separator. */
  lemma {:induction false} PrefixBeforeSeparator(s: string, k: nat)
    requires k <= |s|
    requires forall j :: 0 <= j < k ==> !SeparatorAt(s, j)
    ensures NoSeparator(s[..k])
  {
    forall i | SeparatorAt(s[..k], i)
      ensures false
    {
      assert s[..k][i..i + 3] == s[i..i + 3];
      assert SeparatorAt(s, i);
    }
  }

  /** `category.split(/ \/ | > /)`: the pieces between leftmost,
      non-overlapping separators. */
  function CategoryParts(s: string): (r: seq<string>)
    ensures |r| >= 1
    ensures forall k :: 0 <= k < |r| ==> NoSeparator(r[k])
    decreases |s|
  {
    var k := FirstSeparator(s, 0);
    PrefixBeforeSeparator(s, k);
    if k == |s| then [s] else [s[..k]] + CategoryParts(s[k + 3..])
  }

  /** The separators `CategoryParts` consumed, left to right. */
  function CategorySeparators(s: string): (r: seq<string>)
    ensures forall k :: 0 <= k < |r| ==> r[k] == " / " || r[k] == " > "
    decreases |s|
  {
    var k := FirstSeparator(s, 0);
    if k == |s| then [] else [s[k..k + 3]] + CategorySeparators(s[k + 3..])
  }

  /** `parts[0] + seps[0] + parts[1] + ... + parts[n]`. */
  function Rejoin(parts: seq<string>, seps: seq<string>): string
    requires |parts| == |seps| + 1
  {
    if seps == [] then parts[0] else parts[0] + seps[0] + Rejoin(parts[1..], seps[1..])
  }

  /** Splitting loses nothing: the parts, put back together with the
      separators between them, give the category string again. */
  lemma {:induction false} CategorySplitRoundTrip(s: string)
    ensures |CategoryParts(s)| == |CategorySeparators(s)| + 1
    ensures Rejoin(CategoryParts(s), CategorySeparators(s)) == s
    decreases |s|
  {
    var k := FirstSeparator(s, 0);
    if k < |s| {
      CategorySplitRoundTrip(s[k + 3..]);
      assert s == s[..k] + s[k..k + 3] + s[k + 3..];
    }
  }

  /** A category with no separator in it is a single part: `"A/B"` stays whole. */
  lemma {:induction false} UnseparatedCategoryIsOnePart(s: string)
    requires NoSeparator(s)
    ensures CategoryParts(s) == [s]
  {
  }

  // ---------------------------------------------------------------------------
  // parseGenre
  // ---------------------------------------------------------------------------

  /** A trimmed, non-empty part whose lower-case form is not forbidden. */
  predicate IsGenrePart(p: string) {
    p != "" && Lower(p) !in Forbidden
  }

  ghost predicate Trimmed(p: string) {
    p == "" || (!IsSpace(p[0]) && !IsSpace(p[|p| - 1]))
  }

  /** The usable parts of one category, in order. */
  function CategoryCandidates(c: string): (r: seq<string>)
    ensures forall k :: 0 <= k < |r| ==> IsGenrePart(r[k]) && Trimmed(r[k])
  {
    var trimmed := Map(CategoryParts(c), Trim);
    assert forall k :: 0 <= k < |trimmed| ==> Trimmed(trimmed[k]);
    Filter(trimmed, IsGenrePart)
  }

  /** The usable parts of all categories, in encounter order. */
  function Candidates(cats: seq<string>): (r: seq<string>)
    ensures forall k :: 0 <= k < |r| ==> IsGenrePart(r[k]) && Trimmed(r[k])
  {
    if cats == [] then [] else CategoryCandidates(cats[0]) + Candidates(cats[1..])
  }

  lemma {:induction false} CandidatesAppend(cats: seq<string>, c: string)
    ensures Candidates(cats + [c]) == Candidates(cats) + CategoryCandidates(c)
  {
    if cats == [] {
      assert Candidates([c]) == CategoryCandidates(c) + Candidates([]);
    } else {
      assert (cats + [c])[1..] == cats[1..] + [c];
      CandidatesAppend(cats[1..], c);
    }
  }

  /** `parseGenre(categories)`. */
  function ParseGenre(categories: Option<seq<string>>): (r: string)
    ensures r != ""
    ensures r == Fallback || (IsGenrePart(r) && Trimmed(r))
    ensures categories.None? ==> r == Fallback
  {
    if categories.None? || |categories.value| == 0 then Fallback
    else
      var genres := Candidates(categories.value);
      if |genres| > 0 then genres[|genres| - 1] else Fallback
  }

  /** The fallback is itself forbidden, so it is never a candidate part. */
  lemma {:induction false} FallbackIsForbidden()
    ensures !IsGenrePart(Fallback)
  {
    assert Lower(Fallback) == "general" == Forbidden[2];
  }

  /** The fallback comes back exactly when no category has a usable part;
      otherwise the result is the last usable part. */
  lemma {:induction false} ParseGenreIsLastCandidate(cats: seq<string>)
    ensures ParseGenre(Some(cats)) == Fallback <==> Candidates(cats) == []
    ensures Candidates(cats) != [] ==> ParseGenre(Some(cats)) == Candidates(cats)[|Candidates(cats)| - 1]
  {
    var g := Candidates(cats);
    if g != [] {
      assert cats != [];
      assert ParseGenre(Some(cats)) == g[|g| - 1];
      LastCandidateIsNotFallback(g);
    } else {
      assert ParseGenre(Some(cats)) == Fallback;
    }
  }

  /** A usable part is never the fallback. */
  lemma {:induction false} LastCandidateIsNotFallback(g: seq<string>)
    requires g != [] && IsGenrePart(g[|g| - 1])
    ensures g[|g| - 1] != Fallback
  {
    FallbackIsForbidden();
  }

  /** Last one wins: appending a category with a usable part makes its last
      usable part the genre; appending one without leaves the genre alone. */
  lemma {:induction false} ParseGenreAppend(cats: seq<string>, c: string)
    ensures CategoryCandidates(c) != [] ==>
      ParseGenre(Some(cats + [c])) == ParseGenre(Some([c]))
    ensures CategoryCandidates(c) == [] ==>
      ParseGenre(Some(cats + [c])) == ParseGenre(Some(cats))
  {
    CandidatesAppend(cats, c);
    CandidatesAppend([], c);
    assert [] + [c] == [c];
  }

  lemma {:induction false} ParseGenreExamples()
    ensures ParseGenre(None) == "General"
    ensures ParseGenre(Some([])) == "General"
  {
  }

  // ---------------------------------------------------------------------------
  // isNonFiction
  // ---------------------------------------------------------------------------

  /** Some keyword occurs in `text`. */
  predicate HasKeyword(text: string) {
    exists k | k in Keywords :: Contains(text, k)
  }

  lemma {:induction false} HasKeywordConcat(x: string, y: string)
    ensures HasKeyword(x) || HasKeyword(y) ==> HasKeyword(x + y)
  {
    if HasKeyword(x) {
      var k :| k in Keywords && Contains(x, k);
      ContainsInConcat(x, y, k);
    } else if HasKeyword(y) {
      var k :| k in Keywords && Contains(y, k);
      ContainsInConcat(x, y, k);
    }
  }

  /** `isNonFiction(categories)`: some keyword occurs in the lower-cased,
      space-joined categories. */
  function IsNonFiction(categories: Option<seq<string>>): (r: bool)
    ensures categories.None? || categories.value == [] ==> !r
    ensures categories.Some? && categories.value != [] ==>
      (r <==> exists k :: k in Keywords && Contains(Lower(Join(categories.value, " ")), k))
  {
    if categories.None? || |categories.value| == 0 then false
    else HasKeyword(Lower(Join(categories.value, " ")))
  }

  /** Adding categories never turns a non-fiction volume into fiction: the
      joined text keeps its old prefix. */
  lemma {:induction false} IsNonFictionMonotone(a: seq<string>, b: seq<string>)
    ensures IsNonFiction(Some(a)) ==> IsNonFiction(Some(a + b))
  {
    if a != [] && b != [] {
      JoinConcat(a, b, " ");
      assert Join(a + b, " ") == Join(a, " ") + (" " + Join(b, " "));
      LowerConcat(Join(a, " "), " " + Join(b, " "));
      HasKeywordConcat(Lower(Join(a, " ")), Lower(" " + Join(b, " ")));
    } else if b == [] {
      assert a + b == a;
    }
  }

  /** A keyword inside any single category marks the whole list non-fiction. */
  lemma {:induction false} KeywordInCategory(cats: seq<string>, i: int)
    requires 0 <= i < |cats| && HasKeyword(Lower(cats[i]))
    ensures IsNonFiction(Some(cats))
  {
    if |cats| == 1 {
      assert Join(cats, " ") == cats[0];
    } else {
      var head, rest := cats[0], cats[1..];
      JoinConcat([head], rest, " ");
      assert [head] + rest == cats;
      assert Join(cats, " ") == head + (" " + Join(rest, " "));
      LowerConcat(head, " " + Join(rest, " "));
      LowerConcat(" ", Join(rest, " "));
      assert Lower(" " + Join(rest, " ")) == Lower(" ") + Lower(Join(rest, " "));
      if i == 0 {
        HasKeywordConcat(Lower(head), Lower(" " + Join(rest, " ")));
      } else {
        KeywordInCategory(rest, i - 1);
        HasKeywordConcat(Lower(" "), Lower(Join(rest, " ")));
        HasKeywordConcat(Lower(head), Lower(" " + Join(rest, " ")));
      }
    }
  }

  /** Keyword matches may span a category boundary. */
  lemma {:induction false} KeywordAcrossCategories()
    ensures IsNonFiction(Some(["true", "crime"]))
  {
    var text := Lower(Join(["true", "crime"], " "));
    assert text == "true crime";
    assert OccursAt(text, "true crime", 0);
    assert Contains(text, "true crime");
  }

  lemma {:induction false} IsNonFictionExamples()
    ensures !IsNonFiction(None)
    ensures !IsNonFiction(Some([]))
    ensures IsNonFiction(Some(["History"]))
  {
    var text := Lower(Join(["History"], " "));
    assert text == "history";
    assert OccursAt(text, "history", 0);
    assert Contains(text, "history");
  }

  // ---------------------------------------------------------------------------
  // sanitizeIsbn
  // ---------------------------------------------------------------------------

  /** Characters `sanitizeIsbn` keeps: everything but `-` and whitespace. */
  predicate KeptInIsbn(c: char) {
    c != '-' && !IsSpace(c)
  }

  /** `isbn.replace(/[-\s]/g, '')`. */
  function SanitizeIsbn(isbn: string): (r: string)
    ensures |r| <= |isbn|
    ensures forall i :: 0 <= i < |r| ==> KeptInIsbn(r[i])
    ensures forall c :: KeptInIsbn(c) ==> multiset(r)[c] == multiset(isbn)[c]
  {
    FilterMultiset(isbn, KeptInIsbn);
    Filter(isbn, KeptInIsbn)
  }

  /** Sanitising works piecewise, so kept characters keep their order. */
  lemma {:induction false} SanitizeConcat(a: string, b: string)
    ensures SanitizeIsbn(a + b) == SanitizeIsbn(a) + SanitizeIsbn(b)
  {
    FilterConcat(a, b, KeptInIsbn);
  }

  lemma {:induction false} SanitizeIdempotent(isbn: string)
    ensures SanitizeIsbn(SanitizeIsbn(isbn)) == SanitizeIsbn(isbn)
  {
    FilterIdempotent(isbn, KeptInIsbn);
  }

  /** A string with nothing to strip is returned unchanged. */
  lemma {:induction false} SanitizeClean(isbn: string)
    requires forall i :: 0 <= i < |isbn| ==> KeptInIsbn(isbn[i])
    ensures SanitizeIsbn(isbn) == isbn
  {
    FilterKeepsAll(isbn, KeptInIsbn);
  }

  /** Sanitising one character keeps it exactly when it is not `-` or whitespace. */
  lemma {:induction false} SanitizeCons(c: char, rest: string)
    ensures SanitizeIsbn([c] + rest) == (if KeptInIsbn(c) then [c] else []) + SanitizeIsbn(rest)
  {
    assert ([c] + rest)[1..] == rest;
  }
}
