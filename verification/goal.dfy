/** The reading-goal banner shown above a year's list: the progress
    percentage and the one message that applies. */
module Goal {
  import opened Wrappers

  /** The message the banner shows. */
  datatype Progress =
    | Achieved              // "Goal achieved! 🎉"
    | Short(left: int)      // "You were N book(s) short."
    | SetFor(year: int)     // "Goal set for Y."
    | ToGo(left: int)       // "N more to go!"

  /** `GoalProgress`'s choice of message for `count` books read in `year`
      against `goal`, when the clock says it is `currentYear`. */
  function Select(count: int, goal: int, year: int, currentYear: int): (p: Progress)
    ensures p.Achieved? <==> count >= goal
    ensures p.Short? <==> count < goal && year < currentYear
    ensures p.SetFor? <==> count < goal && year > currentYear
    ensures p.ToGo? <==> count < goal && year == currentYear
    ensures p.Short? || p.ToGo? ==> p.left == goal - count > 0
    ensures p.SetFor? ==> p.year == year
  {
    var booksLeft := goal - count;
    if booksLeft <= 0 then Achieved
    else if year < currentYear then Short(booksLeft)
    else if year > currentYear then SetFor(year)
    else ToGo(booksLeft)
  }

  // ---------------------------------------------------------------------
  // Printing numbers as template literals do.
  // ---------------------------------------------------------------------

  function DigitChar(d: int): (c: char)
    requires 0 <= d < 10
    ensures '0' <= c <= '9' && c as int - '0' as int == d
  {
    ('0' as int + d) as char
  }

  predicate IsDigit(c: char) {
    '0' <= c <= '9'
  }

  /** The decimal digits of `n`, without leading zeros. */
  function NatToString(n: nat): (s: string)
    ensures |s| >= 1
    ensures forall i :: 0 <= i < |s| ==> IsDigit(s[i])
    ensures s[0] == '0' <==> n == 0
    decreases n
  {
    if n < 10 then [DigitChar(n)] else NatToString(n / 10) + [DigitChar(n % 10)]
  }

  /** `String(n)` for an integer. */
  function IntToString(n: int): (s: string)
    ensures |s| >= 1
    ensures n < 0 <==> s[0] == '-'
  {
    if n < 0 then "-" + NatToString(-n) else NatToString(n)
  }

  /** The value of a string of decimal digits, read left to right. */
  function DigitsValue(s: string): int
    requires forall i :: 0 <= i < |s| ==> IsDigit(s[i])
  {
    if s == "" then 0 else DigitsValue(s[..|s| - 1]) * 10 + (s[|s| - 1] as int - '0' as int)
  }

  /** `parseInt` on what `IntToString` produces. */
  function ParseDecimal(s: string): int
    requires |s| >= 1
    requires s[0] == '-' ==> forall i :: 1 <= i < |s| ==> IsDigit(s[i])
    requires s[0] != '-' ==> forall i :: 0 <= i < |s| ==> IsDigit(s[i])
  {
    if s[0] == '-' then -DigitsValue(s[1..]) else DigitsValue(s)
  }

  lemma {:induction false} NatToStringValue(n: nat)
    ensures DigitsValue(NatToString(n)) == n
    decreases n
  {
    var s := NatToString(n);
    if n >= 10 {
      NatToStringValue(n / 10);
      assert s[..|s| - 1] == NatToString(n / 10);
    }
  }

  /** The printed number reads back as the same number. */
  lemma {:induction false} IntToStringRoundTrip(n: int)
    ensures var s := IntToString(n);
      && (s[0] == '-' ==> forall i :: 1 <= i < |s| ==> IsDigit(s[i]))
      && (s[0] != '-' ==> forall i :: 0 <= i < |s| ==> IsDigit(s[i]))
      && ParseDecimal(s) == n
  {
    if n < 0 {
      NatToStringValue(-n);
      assert IntToString(n)[1..] == NatToString(-n);
    } else {
      NatToStringValue(n);
    }
  }

  /** The banner text. */
  function Render(p: Progress): (s: string)
    ensures p.Achieved? ==> s == "Goal achieved! \U{1F389}"
  {
    match p
    case Achieved => "Goal achieved! \U{1F389}"
    case Short(n) => "You were " + IntToString(n) + " " + (if n == 1 then "book" else "books") + " short."
    case SetFor(y) => "Goal set for " + IntToString(y) + "."
    case ToGo(n) => IntToString(n) + " more to go!"
  }

  /** The "short" message uses the singular exactly when one book is
      missing. */
  lemma {:induction false} ShortSingular(n: int)
    ensures var s := Render(Short(n));
      (|s| >= 12 && s[|s| - 12..] == " book short.") <==> n == 1
  {
    var s := Render(Short(n));
    var t := " book short.";
    if n != 1 {
      assert s[|s| - 12..] == "books short." != t;
    }
  }

  /** Different numbers print differently. */
  lemma {:induction false} IntToStringInjective(a: int, b: int)
    ensures IntToString(a) == IntToString(b) ==> a == b
  {
    IntToStringRoundTrip(a);
    IntToStringRoundTrip(b);
  }

  /** A printed number starts with a minus sign or a digit. */
  lemma {:induction false} IntToStringStart(n: int)
    ensures IntToString(n)[0] == '-' || IsDigit(IntToString(n)[0])
  {
    if n >= 0 {
      assert IsDigit(NatToString(n)[0]);
    }
  }

  /** The banner text determines the message and its number: different
      messages never render alike. */
  lemma {:induction false} RenderInjective(p: Progress, q: Progress)
    ensures Render(p) == Render(q) ==> p == q
  {
    if Render(p) == Render(q) {
      RenderMarker(p);
      RenderMarker(q);
      match p
      case Achieved =>
      case Short(n) => ShortInjective(n, q.left);
      case SetFor(y) => SetForInjective(y, q.year);
      case ToGo(n) => ToGoInjective(n, q.left);
    }
  }

  lemma {:induction false} ShortInjective(n: int, m: int)
    ensures Render(Short(n)) == Render(Short(m)) ==> n == m
  {
    if Render(Short(n)) == Render(Short(m)) {
      if (n == 1) != (m == 1) {
        ShortSingular(n);
        ShortSingular(m);
      } else {
        var w := " " + (if n == 1 then "book" else "books") + " short.";
        assert Render(Short(n)) == "You were " + IntToString(n) + w;
        assert Render(Short(m)) == "You were " + IntToString(m) + w;
        SameFrame("You were ", IntToString(n), w, IntToString(m), w);
        IntToStringInjective(n, m);
      }
    }
  }

  /** Equal texts with the same prefix and equally long suffixes have the
      same middle. */
  lemma {:induction false} SameFrame(a: string, x: string, w: string, y: string, w': string)
    requires a + x + w == a + y + w' && |w| == |w'|
    ensures x == y
  {
    MiddleOf(a, x, w);
    MiddleOf(a, y, w');
  }

  lemma {:induction false} SetForInjective(y: int, z: int)
    ensures Render(SetFor(y)) == Render(SetFor(z)) ==> y == z
  {
    if Render(SetFor(y)) == Render(SetFor(z)) {
      MiddleOf("Goal set for ", IntToString(y), ".");
      MiddleOf("Goal set for ", IntToString(z), ".");
      IntToStringInjective(y, z);
    }
  }

  lemma {:induction false} ToGoInjective(n: int, m: int)
    ensures Render(ToGo(n)) == Render(ToGo(m)) ==> n == m
  {
    if Render(ToGo(n)) == Render(ToGo(m)) {
      var x, y := IntToString(n), IntToString(m);
      assert x == (x + " more to go!")[..|x + " more to go!"| - 12];
      assert y == (y + " more to go!")[..|y + " more to go!"| - 12];
      IntToStringInjective(n, m);
    }
  }

  /** Which message a banner shows can be read off its first and sixth
      characters. */
  lemma {:induction false} RenderMarker(p: Progress)
    ensures var s := Render(p);
      && |s| > 5
      && (p.Achieved? <==> s[0] == 'G' && s[5] == 'a')
      && (p.SetFor? <==> s[0] == 'G' && s[5] == 's')
      && (p.Short? <==> s[0] == 'Y')
  {
    match p
    case Achieved =>
    case Short(n) =>
    case SetFor(y) =>
    case ToGo(n) =>
      IntToStringStart(n);
  }

  /** The middle of `a + x + b`, between the lengths of `a` and `b`, is `x`. */
  lemma {:induction false} MiddleOf(a: string, x: string, b: string)
    ensures (a + x + b)[|a|..|a + x + b| - |b|] == x
  {
  }

  // ---------------------------------------------------------------------
  // The progress bar.
  // ---------------------------------------------------------------------

  /** `Math.min((count / goal) * 100, 100)`, with `None` for `NaN` (no
      books against a goal of 0). */
  function Percentage(count: nat, goal: int): (r: Option<real>)
    ensures r.None? <==> goal == 0 && count == 0
    ensures r.Some? ==> r.value <= 100.0
    ensures goal > 0 ==> r.Some? && 0.0 <= r.value
  {
    if goal == 0 then (if count == 0 then None else Some(100.0))
    else
      var p := (count as real / goal as real) * 100.0;
      Some(if p < 100.0 then p else 100.0)
  }

  /** With a positive goal the bar is full exactly when the goal is
      achieved. */
  lemma {:induction false} FullIffAchieved(count: nat, goal: int, year: int, currentYear: int)
    requires goal > 0
    ensures Percentage(count, goal) == Some(100.0) <==> Select(count, goal, year, currentYear).Achieved?
  {
    var p := (count as real / goal as real) * 100.0;
    if count < goal {
      assert count as real / goal as real < 1.0;
    } else {
      assert count as real / goal as real >= 1.0;
    }
  }
}
