/** The row filter (`process_table_data`): one pass over a page's cells with a
    one-cell lookback, emitting a download candidate for every cell whose text
    carries the hold status and the year token and whose preceding cell's first
    anchor has an `href`.

    The hold string and the year token are parameters. The source hands them to
    `re.match` as regular expressions; this model reads them as literal text
    (a prefix test and a substring test), which is what `re.match` does for
    patterns without metacharacters, such as "Hold", "-24-" and "-21-". */
module RowFilter {
  import opened Text
  import opened Cells
  import opened Filenames

  /** A pattern without regular-expression metacharacters, which `re.match`
      treats as literal text. The model reads every pattern this way. */
  predicate IsLiteral(pattern: string) {
    forall i :: 0 <= i < |pattern| ==> pattern[i] !in ".^$*+?{}[]\\|()"
  }

  /** The text test of one cell: `re.match(hold, text)` (anchored at the start)
      and `re.match(".*" + year + ".*", text, re.DOTALL)` (anywhere, across line
      breaks). */
  predicate RowMatches(text: string, hold: string, year: string) {
    StartsWith(text, hold) && Contains(text, year)
  }

  /** Cell `i` yields a candidate: it is not the first cell, its text matches,
      and the cell before it has a first anchor with an `href`. */
  predicate Selected(cells: seq<Cell>, i: int, hold: string, year: string) {
    0 < i < |cells| && RowMatches(cells[i].text, hold, year) && HasHref(cells[i - 1])
  }

  /** The candidate for the cell `current` when the lookback holds `previous`:
      the previous cell's `href` and the sanitised name built from both cells. */
  function Candidate(previous: Cell, current: Cell): Link
    requires HasHref(previous)
  {
    Link(Href(previous), Sanitize(current.text, previous))
  }

  /** The candidate cell `i` yields. */
  function LinkFor(cells: seq<Cell>, i: int): Link
    requires 0 < i < |cells| && HasHref(cells[i - 1])
  {
    Candidate(cells[i - 1], cells[i])
  }

  /** What one iteration adds for the cell `current` when the lookback holds
      `previous`. */
  function Step(previous: Cell, current: Cell, hold: string, year: string): seq<Link> {
    if RowMatches(current.text, hold, year) && HasHref(previous) then [Candidate(previous, current)] else []
  }

  /** The scan of `process_table_data` for any per-cell emission `emit`: every
      cell but the first contributes `emit(previous, current)`, in cell order.
      The first cell has no lookback and contributes nothing. */
  function Scan(cells: seq<Cell>, emit: (Cell, Cell) -> seq<Link>): seq<Link>
    decreases |cells|
  {
    if |cells| < 2 then []
    else Scan(cells[..|cells| - 1], emit) + emit(cells[|cells| - 2], cells[|cells| - 1])
  }

  /** The emission of the row filter for given patterns. */
  function Emit(hold: string, year: string): (Cell, Cell) -> seq<Link> {
    (previous, current) => Step(previous, current, hold, year)
  }

  /** The candidates of a page, in cell order. */
  function Filter(cells: seq<Cell>, hold: string, year: string): seq<Link> {
    Scan(cells, Emit(hold, year))
  }

  /** Each cell adds at most one candidate and the first adds none, so a page
      of n cells yields at most max(0, n - 1) candidates. */
  lemma {:induction false} FilterLength(cells: seq<Cell>, hold: string, year: string)
    ensures |Filter(cells, hold, year)| <= if |cells| == 0 then 0 else |cells| - 1
    decreases |cells|
  {
    if |cells| >= 2 {
      FilterLength(cells[..|cells| - 1], hold, year);
    }
  }

  /** The selected indices below `n`, ascending: an independent description of
      which cells the filter reports. */
  function SelectedBelow(cells: seq<Cell>, n: nat, hold: string, year: string): seq<int>
    requires n <= |cells|
  {
    if n == 0 then []
    else SelectedBelow(cells, n - 1, hold, year) + (if Selected(cells, n - 1, hold, year) then [n - 1] else [])
  }

  /** All selected indices of the page, ascending. */
  function SelectedIndices(cells: seq<Cell>, hold: string, year: string): seq<int> {
    SelectedBelow(cells, |cells|, hold, year)
  }

  /** The index list holds exactly the selected cells below `n`, in strictly
      increasing order. */
  lemma {:induction false} SelectedBelowSpec(cells: seq<Cell>, n: nat, hold: string, year: string)
    requires n <= |cells|
    ensures forall i :: i in SelectedBelow(cells, n, hold, year) <==> 0 <= i < n && Selected(cells, i, hold, year)
    ensures forall j, k :: 0 <= j < k < |SelectedBelow(cells, n, hold, year)| ==>
      SelectedBelow(cells, n, hold, year)[j] < SelectedBelow(cells, n, hold, year)[k]
    decreases n
  {
    if n > 0 {
      SelectedBelowSpec(cells, n - 1, hold, year);
      var r := SelectedBelow(cells, n - 1, hold, year);
      var s := SelectedBelow(cells, n, hold, year);
      if Selected(cells, n - 1, hold, year) {
        assert s == r + [n - 1];
        forall j, k | 0 <= j < k < |s| ensures s[j] < s[k] {
          assert s[j] == r[j] && r[j] in r;
          if k < |r| {
            assert s[k] == r[k];
          }
        }
      } else {
        assert s == r;
      }
    }
  }

  /** The filter over the first `n` cells reports, position by position, the
      candidate of each selected index below `n`. */
  lemma {:induction false} FilterPrefixIsSelected(cells: seq<Cell>, n: nat, hold: string, year: string)
    requires n <= |cells|
    ensures |Filter(cells[..n], hold, year)| == |SelectedBelow(cells, n, hold, year)|
    ensures forall k :: 0 <= k < |SelectedBelow(cells, n, hold, year)| ==>
      Selected(cells, SelectedBelow(cells, n, hold, year)[k], hold, year) &&
      Filter(cells[..n], hold, year)[k] == LinkFor(cells, SelectedBelow(cells, n, hold, year)[k])
    decreases n
  {
    if n == 1 {
      assert !Selected(cells, 0, hold, year);
    } else if n >= 2 {
      FilterPrefixIsSelected(cells, n - 1, hold, year);
      var p := cells[..n];
      assert p[..|p| - 1] == cells[..n - 1];
      assert p[|p| - 2] == cells[n - 2] && p[|p| - 1] == cells[n - 1];
      var f := Filter(cells[..n - 1], hold, year);
      var idx := SelectedBelow(cells, n - 1, hold, year);
      var step := Step(cells[n - 2], cells[n - 1], hold, year);
      var fp := Filter(p, hold, year);
      var sel := SelectedBelow(cells, n, hold, year);
      assert fp == f + step;
      if Selected(cells, n - 1, hold, year) {
        assert step == [LinkFor(cells, n - 1)];
        assert sel == idx + [n - 1];
      } else {
        assert step == [];
        assert sel == idx;
      }
      forall k | 0 <= k < |sel|
        ensures Selected(cells, sel[k], hold, year) && fp[k] == LinkFor(cells, sel[k])
      {
        if k < |idx| {
          assert sel[k] == idx[k] && fp[k] == f[k];
        } else {
          assert Selected(cells, n - 1, hold, year);
          assert sel[k] == n - 1 && fp[k] == step[0];
        }
      }
    }
  }

  /** The filter reports, in order, exactly the candidates of the selected
      cells: one entry per selected index, nothing for any other cell. */
  lemma FilterIsSelected(cells: seq<Cell>, hold: string, year: string)
    ensures |Filter(cells, hold, year)| == |SelectedIndices(cells, hold, year)|
    ensures forall k :: 0 <= k < |SelectedIndices(cells, hold, year)| ==>
      Selected(cells, SelectedIndices(cells, hold, year)[k], hold, year) &&
      Filter(cells, hold, year)[k] == LinkFor(cells, SelectedIndices(cells, hold, year)[k])
    ensures forall i :: i in SelectedIndices(cells, hold, year) <==> Selected(cells, i, hold, year)
    ensures forall j, k :: 0 <= j < k < |SelectedIndices(cells, hold, year)| ==>
      SelectedIndices(cells, hold, year)[j] < SelectedIndices(cells, hold, year)[k]
  {
    FilterPrefixIsSelected(cells, |cells|, hold, year);
    SelectedBelowSpec(cells, |cells|, hold, year);
    assert cells[..|cells|] == cells;
  }

  /** A candidate is reported exactly when some selected cell yields it. */
  lemma FilterMembership(cells: seq<Cell>, hold: string, year: string, l: Link)
    ensures l in Filter(cells, hold, year) <==>
      exists i :: Selected(cells, i, hold, year) && l == LinkFor(cells, i)
  {
    FilterIsSelected(cells, hold, year);
    var idx := SelectedIndices(cells, hold, year);
    if l in Filter(cells, hold, year) {
      var k :| 0 <= k < |Filter(cells, hold, year)| && Filter(cells, hold, year)[k] == l;
      assert Selected(cells, idx[k], hold, year) && l == LinkFor(cells, idx[k]);
    }
    if exists i :: Selected(cells, i, hold, year) && l == LinkFor(cells, i) {
      var i :| Selected(cells, i, hold, year) && l == LinkFor(cells, i);
      assert i in idx;
      var k :| 0 <= k < |idx| && idx[k] == i;
      assert Filter(cells, hold, year)[k] == l;
    }
  }

  /** The lookback is always the immediately preceding cell, even when that
      cell matched itself: two matching cells in a row each take the `href`
      of the cell just before them. */
  lemma LookbackSlides(a: Cell, b: Cell, c: Cell, hold: string, year: string)
    requires HasHref(a) && HasHref(b)
    requires RowMatches(b.text, hold, year) && RowMatches(c.text, hold, year)
    ensures Filter([a, b, c], hold, year) ==
      [Link(Href(a), Sanitize(b.text, a)), Link(Href(b), Sanitize(c.text, b))]
  {
    var e := Emit(hold, year);
    assert [a, b, c][..2] == [a, b];
    assert [a, b][..1] == [a];
    assert Scan([a, b], e) == Scan([a], e) + e(a, b);
    assert Scan([a, b, c], e) == Scan([a, b], e) + e(b, c);
  }

  /** The scan needs no more than one cell of lookback: cut a page after cell
      `m - 1`, and the scan is that of the front part followed by that of the
      back part started one cell early, at the lookback cell. */
  lemma {:induction false} ScanSplit(cells: seq<Cell>, m: nat, emit: (Cell, Cell) -> seq<Link>)
    requires 1 <= m <= |cells|
    ensures Scan(cells, emit) == Scan(cells[..m], emit) + Scan(cells[m - 1..], emit)
    decreases |cells|
  {
    if m == |cells| {
      assert cells[..m] == cells;
      assert |cells[m - 1..]| == 1;
    } else {
      var init := cells[..|cells| - 1];
      ScanSplit(init, m, emit);
      assert init[..m] == cells[..m];
      var back := cells[m - 1..];
      assert back[..|back| - 1] == init[m - 1..];
      assert back[|back| - 2] == cells[|cells| - 2] && back[|back| - 1] == cells[|cells| - 1];
      var a, b := Scan(cells[..m], emit), Scan(init[m - 1..], emit);
      var step := emit(cells[|cells| - 2], cells[|cells| - 1]);
      assert Scan(cells, emit) == (a + b) + step;
      assert Scan(back, emit) == b + step;
      ConcatAssoc(a, b, step);
    }
  }

  /** The same cut for the row filter, stated on two pieces of a page: the back
      piece is filtered with the last cell of the front piece as its lookback. */
  lemma FilterAppend(front: seq<Cell>, back: seq<Cell>, hold: string, year: string)
    requires front != []
    ensures Filter(front + back, hold, year) ==
      Filter(front, hold, year) + Filter([front[|front| - 1]] + back, hold, year)
  {
    var cells := front + back;
    ScanSplit(cells, |front|, Emit(hold, year));
    assert cells[..|front|] == front;
    assert cells[|front| - 1..] == [front[|front| - 1]] + back;
  }

  /** `process_table_data`: walk the cells keeping the previous one, and append
      a candidate whenever the current cell matches and the previous cell's
      first anchor has an `href`. */
  method ProcessTableData(cells: seq<Cell>, hold: string, year: string) returns (links: seq<Link>)
    ensures links == Filter(cells, hold, year)
  {
    var previous: Option<Cell> := None;
    links := [];
    for i := 0 to |cells|
      invariant previous == if i == 0 then None else Some(cells[i - 1])
      invariant links == Filter(cells[..i], hold, year)
    {
      var td := cells[i];
      var html := td.text;
      if StartsWith(html, hold) && Contains(html, year) {
        if previous.Some? {
          var tagA := previous.value.firstAnchor;
          if tagA.Some? && tagA.value.href.Some? {
            links := links + [Link(tagA.value.href.value, Sanitize(html, previous.value))];
          }
        }
      }
      var next := cells[..i + 1];
      assert next[..|next| - 1] == cells[..i];
      previous := Some(td);
    }
    assert cells[..|cells|] == cells;
  }

  /** The status test is anchored: a text with anything before the hold string
      does not match, whatever follows. */
  lemma HoldIsPrefixTest()
    ensures !RowMatches("On Hold -24-", "Hold", "-24-")
  {
    assert "On Hold -24-"[..4][0] != "Hold"[0];
  }

  /** Only the first anchor of the preceding cell is consulted: when it has no
      `href`, the row is skipped. */
  lemma FirstAnchorOnly(text: string, current: Cell, hold: string, year: string)
    ensures Filter([Cell(text, Some(Anchor(None))), current], hold, year) == []
  {
    var cells := [Cell(text, Some(Anchor(None))), current];
    assert cells[..1] == [cells[0]];
    assert Scan(cells, Emit(hold, year)) == Scan([cells[0]], Emit(hold, year)) + Step(cells[0], current, hold, year);
  }
}
