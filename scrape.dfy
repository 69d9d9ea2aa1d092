/** The table-reading loop of `check_domains_ninjamvp`. The browser steps
    before it are not modelled; each result row arrives as the texts of
    its cells. */
module Scrape {
  import opened Text

  /** The cell texts of one table row. */
  type Row = seq<string>

  /** A row with at least two cells gives a result; shorter rows are
      skipped. */
  predicate HasStatus(row: Row) {
    |row| >= 2
  }

  /** The lookup key of a row: its first cell, stripped and lower-cased. */
  function RowKey(row: Row): string
    requires HasStatus(row)
  {
    Lower(Strip(row[0]))
  }

  /** The status text of a row: its second cell, stripped. */
  function RowStatus(row: Row): string
    requires HasStatus(row)
  {
    Strip(row[1])
  }

  /** A key is the lower-cased first cell with only its surrounding
      whitespace removed; it has no whitespace at its ends and is already
      lower-cased, so it is what `d.lower()` gives for the domain `d` it
      names. A status is the second cell with only its surrounding
      whitespace removed. */
  lemma RowCells(row: Row)
    requires HasStatus(row)
    ensures Stripped(RowKey(row)) && Lower(RowKey(row)) == RowKey(row)
    ensures StripsAt(Lower(row[0]), RowKey(row), LeadingSpaces(row[0]))
    ensures Stripped(RowStatus(row)) && StripsAt(row[1], RowStatus(row), LeadingSpaces(row[1]))
  {
    StripSpec(row[0]);
    LowerStripped(Strip(row[0]));
    LowerIdempotent(Strip(row[0]));
    LowerStripsAt(row[0], Strip(row[0]), LeadingSpaces(row[0]));
    StripSpec(row[1]);
  }

  /** The results the loop has built after reading `rows` in order. */
  ghost function Collected(rows: seq<Row>): map<string, string>
    decreases |rows|
  {
    if rows == [] then map[]
    else
      var before := Collected(rows[..|rows| - 1]);
      var row := rows[|rows| - 1];
      if HasStatus(row) then before[RowKey(row) := RowStatus(row)] else before
  }

  /** Row `i` gives a result for key `k`. */
  ghost predicate RowFor(rows: seq<Row>, i: int, k: string) {
    0 <= i < |rows| && HasStatus(rows[i]) && RowKey(rows[i]) == k
  }

  /** Reading one more row. */
  lemma CollectedStep(rows: seq<Row>, n: int)
    requires 0 <= n < |rows|
    ensures Collected(rows[..n + 1]) ==
      if HasStatus(rows[n]) then Collected(rows[..n])[RowKey(rows[n]) := RowStatus(rows[n])]
      else Collected(rows[..n])
  {
    var done := rows[..n + 1];
    assert done[..n] == rows[..n] && done[n] == rows[n];
  }

  /** The loop over the result rows: rows with fewer than two cells are
      skipped, every other row stores its status under its key, and a later
      row overwrites an earlier one with the same key. */
  method CollectResults(rows: seq<Row>) returns (results: map<string, string>)
    ensures results == Collected(rows)
  {
    results := map[];
    for n := 0 to |rows|
      invariant results == Collected(rows[..n])
    {
      CollectedStep(rows, n);
      var cells := rows[n];
      if |cells| >= 2 {
        var domainCell := Lower(Strip(cells[0]));
        var statusCell := Strip(cells[1]);
        results := results[domainCell := statusCell];
      }
    }
    assert rows[..|rows|] == rows;
  }

  /** A key has a result exactly when some row with at least two cells
      carries it. */
  lemma {:induction false} CollectedKeys(rows: seq<Row>, k: string)
    ensures k in Collected(rows) <==> exists i :: RowFor(rows, i, k)
    decreases |rows|
  {
    if rows != [] {
      var last := |rows| - 1;
      var init := rows[..last];
      CollectedKeys(init, k);
      if HasStatus(rows[last]) && RowKey(rows[last]) == k {
        assert RowFor(rows, last, k);
      }
      if exists i :: RowFor(init, i, k) {
        var i :| RowFor(init, i, k);
        assert RowFor(rows, i, k);
      }
      if exists i :: RowFor(rows, i, k) {
        var i :| RowFor(rows, i, k);
        if i < last {
          assert RowFor(init, i, k);
        }
      }
    }
  }

  /** The last row carrying a key decides its status. */
  lemma {:induction false} CollectedLastWins(rows: seq<Row>, i: int, k: string)
    requires RowFor(rows, i, k)
    requires forall j | i < j < |rows| :: !RowFor(rows, j, k)
    ensures k in Collected(rows) && Collected(rows)[k] == RowStatus(rows[i])
    decreases |rows|
  {
    var last := |rows| - 1;
    var init := rows[..last];
    if i == last {
      assert Collected(rows) == Collected(init)[k := RowStatus(rows[i])];
    } else {
      assert !RowFor(rows, last, k);
      forall j | i < j < |init| ensures !RowFor(init, j, k) {
        assert !RowFor(rows, j, k);
      }
      assert RowFor(init, i, k);
      CollectedLastWins(init, i, k);
      assert init[i] == rows[i];
    }
  }
}
