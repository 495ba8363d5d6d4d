/** Tab expansion, done once as text (the cached rendering of a row) and once as
arithmetic (the terminal column of the cursor). */
module KiloRender {
  import opened KiloView

  /** A tab is at least one space and ends in front of a column whose number is
      divisible by eight, columns being counted from one. */
  function TabWidth(col: nat): (w: nat)
    ensures 1 <= w <= 8 && (col + w + 1) % 8 == 0
  {
    8 - (col + 1) % 8
  }

  /** No earlier column would do: the next stop is the first one after `col`. */
  lemma TabStopsAtFirst(col: nat, u: nat)
    requires 1 <= u < TabWidth(col)
    ensures (col + u + 1) % 8 != 0
  {}

  lemma TabStopForm(col: nat)
    ensures col + TabWidth(col) == 8 * ((col + 1) / 8) + 7
  {}

  function Spaces(n: nat): (s: string)
    ensures |s| == n && forall i :: 0 <= i < n ==> s[i] == ' '
  {
    seq(n, _ => ' ')
  }

  function Expand(chars: string): string {
    if chars == "" then ""
    else
      var head := Expand(chars[..|chars| - 1]);
      var c := chars[|chars| - 1];
      if c == TAB then head + Spaces(TabWidth(|head|)) else head + [c]
  }

  function TabCount(chars: string): nat {
    if chars == "" then 0
    else TabCount(chars[..|chars| - 1]) + (if chars[|chars| - 1] == TAB then 1 else 0)
  }

  /** The rendering fits into what UpdateRow allocates for it, terminator included. */
  lemma {:induction false} ExpandFits(chars: string)
    ensures |chars| <= |Expand(chars)| < |chars| + 8 * TabCount(chars) + 1
  {
    if chars != "" {
      ExpandFits(chars[..|chars| - 1]);
    }
  }

  lemma {:induction false} TabCountPrefix(chars: string, n: nat)
    requires n <= |chars|
    ensures TabCount(chars[..n]) <= TabCount(chars)
    decreases |chars| - n
  {
    if n < |chars| {
      assert chars[..n + 1][..n] == chars[..n];
      TabCountPrefix(chars, n + 1);
    } else {
      assert chars[..n] == chars;
    }
  }

  /** An expansion holds no tab, and a row without tabs is its own expansion. */
  lemma {:induction false} ExpandHasNoTabs(chars: string)
    ensures TAB !in Expand(chars)
    ensures Expand(chars) == chars <==> TAB !in chars
  {
    if chars != "" {
      var init, c := chars[..|chars| - 1], chars[|chars| - 1];
      assert chars == init + [c];
      ExpandHasNoTabs(init);
      ExpandFits(init);
      if c != TAB && Expand(chars) == chars {
        assert Expand(chars)[..|chars| - 1] == init;
      }
    }
  }

  // ----- columns ---------------------------------------------------------

  /** The column reached by printing `s` from column `start`, columns counted from 0. */
  function Columns(start: nat, s: string): nat {
    if s == "" then start
    else
      var col := Columns(start, s[..|s| - 1]);
      if s[|s| - 1] == TAB then col + TabWidth(col) else col + 1
  }

  lemma {:induction false} ExpandIsColumns(s: string)
    ensures |Expand(s)| == Columns(0, s)
  {
    if s != "" {
      ExpandIsColumns(s[..|s| - 1]);
    }
  }

  lemma {:induction false} ColumnsConcat(start: nat, a: string, b: string)
    ensures Columns(start, a + b) == Columns(Columns(start, a), b)
  {
    if b == "" {
      assert a + b == a;
    } else {
      assert (a + b)[..|a + b| - 1] == a + b[..|b| - 1];
      ColumnsConcat(start, a, b[..|b| - 1]);
    }
  }

  lemma {:induction false} ColumnsWithoutTabs(start: nat, s: string)
    requires TAB !in s
    ensures Columns(start, s) == start + |s|
  {
    if s != "" {
      ColumnsWithoutTabs(start, s[..|s| - 1]);
    }
  }

  /** Starting a whole number of tab stops further right shifts everything by as much. */
  lemma {:induction false} ColumnsShift(start: nat, k: nat, s: string)
    ensures Columns(start + 8 * k, s) == Columns(start, s) + 8 * k
  {
    if s != "" {
      ColumnsShift(start, k, s[..|s| - 1]);
      var col := Columns(start, s[..|s| - 1]);
      assert (col + 8 * k + 1) % 8 == (col + 1) % 8;
    }
  }

  function FirstTab(s: string): nat
    requires TAB in s
    ensures FirstTab(s) < |s| && s[FirstTab(s)] == TAB && TAB !in s[..FirstTab(s)]
  {
    if s[0] == TAB then 0 else 1 + FirstTab(s[1..])
  }

  /** The column, counted from one, on which the terminal shows character number `at` of
      a row of which the first `coloff` cells of the rendering are scrolled away. */
  function ShownColumn(chars: string, coloff: nat, at: nat): int
    requires at <= |chars|
  {
    1 + |Expand(chars[..at])| - coloff
  }

  /** The column RefreshScreen computes: it expands only the characters from `coloff` on,
      and from column one. */
  function ComputedColumn(chars: string, coloff: nat, at: nat): int
    requires coloff <= at <= |chars|
  {
    1 + Columns(0, chars[coloff..at])
  }

  /** The row as the cursor sees it from `at`: with blanks up to there. */
  function SpacedTo(chars: string, at: nat): (s: string)
    ensures |s| >= at && chars <= s
  {
    if at <= |chars| then chars else chars + Spaces(at - |chars|)
  }

  lemma UnscrolledColumnIsShown(chars: string, at: nat)
    requires at <= |chars|
    ensures ComputedColumn(chars, 0, at) == ShownColumn(chars, 0, at)
  {
    assert chars[0..at] == chars[..at];
    ExpandIsColumns(chars[..at]);
  }

  /** In a scrolled row the two agree exactly when, without a tab between the left edge
      and the cursor, the scrolled-away part is no wider than its characters; with one,
      when the first such tab ends `coloff` columns further in the whole row than it
      does counted from the edge. */
  lemma ScrolledColumnIsShown(chars: string, coloff: nat, at: nat)
    requires coloff <= at <= |chars|
    ensures var edge := |Expand(chars[..coloff])|; var s := chars[coloff..at];
            ComputedColumn(chars, coloff, at) == ShownColumn(chars, coloff, at) <==>
            if TAB !in s then edge == coloff
            else
              var t := FirstTab(s);
              edge + t + TabWidth(edge + t) == coloff + t + TabWidth(t)
  {
    var s := chars[coloff..at];
    var edge := |Expand(chars[..coloff])|;
    ShownFromEdge(chars, coloff, at);
    if TAB !in s {
      ColumnsWithoutTabs(0, s);
      ColumnsWithoutTabs(edge, s);
    } else {
      AfterFirstTab(edge, s);
    }
  }

  lemma ShownFromEdge(chars: string, coloff: nat, at: nat)
    requires coloff <= at <= |chars|
    ensures |Expand(chars[..at])| == Columns(|Expand(chars[..coloff])|, chars[coloff..at])
  {
    assert chars[..at] == chars[..coloff] + chars[coloff..at];
    ExpandIsColumns(chars[..at]);
    ExpandIsColumns(chars[..coloff]);
    ColumnsConcat(0, chars[..coloff], chars[coloff..at]);
  }

  lemma UpToFirstTab(start: nat, s: string) returns (n: nat)
    requires TAB in s
    ensures var t := FirstTab(s);
            Columns(start, s[..t + 1]) == 8 * n + 7 == start + t + TabWidth(start + t)
    ensures 8 * n <= start + FirstTab(s) + 1 <= 8 * n + 7
  {
    var t := FirstTab(s);
    assert s[..t + 1][..t] == s[..t];
    ColumnsWithoutTabs(start, s[..t]);
    TabStopForm(start + t);
    n := (start + t + 1) / 8;
  }

  lemma StopsApart(m: nat, k: nat, s: string)
    requires m <= k
    ensures Columns(8 * k + 7, s) - Columns(8 * m + 7, s) == 8 * k - 8 * m
  {
    ColumnsShift(8 * m + 7, k - m, s);
    assert 8 * m + 7 + 8 * (k - m) == 8 * k + 7;
  }

  lemma AfterFirstTab(edge: nat, s: string)
    requires TAB in s
    ensures var t := FirstTab(s);
            Columns(edge, s) - Columns(0, s) == (edge + t + TabWidth(edge + t)) - (t + TabWidth(t))
  {
    var t := FirstTab(s);
    var head, tail := s[..t + 1], s[t + 1..];
    assert s == head + tail;
    ColumnsConcat(0, head, tail);
    ColumnsConcat(edge, head, tail);
    var m := UpToFirstTab(0, s);
    var k := UpToFirstTab(edge, s);
    StopsApart(m, k, tail);
  }

  /** A tab and a word as wide as the screen: after End the first letter of the word has
      scrolled away with the tab, and the computed column is not the shown one. */
  lemma TabMisplacesCursor(v: View, word: string)
    requires v.Sane() && v.rows == [[TAB] + word] && v.FileRow() == 0 && |word| == v.screencols && TAB !in word
    ensures var w := Press(v, End); var chars := [TAB] + word;
      w.coloff == 2 && w.FileCol() == |chars| && ComputedColumn(chars, 2, |chars|) != ShownColumn(chars, 2, |chars|)
  {
    var chars := [TAB] + word;
    assert chars[..2][..1] == chars[..1] && chars[..1][..0] == "";
    assert |Expand(chars[..1])| == TabWidth(0);
    assert chars[1] in word;
    assert |Expand(chars[..2])| == TabWidth(0) + 1;
    assert chars[2..] == word[1..] && chars[2..|chars|] == chars[2..];
    ScrolledColumnIsShown(chars, 2, |chars|);
  }
}
