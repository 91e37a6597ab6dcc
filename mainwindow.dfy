/**
 * The table bookkeeping of the current main window: restarting a scrape,
 * `add_row` filling the next row of the results table, and `filter_table`
 * computing which rows stay visible, with the favourites filter and the
 * `valid_rows` list it keeps between calls.
 */
module MainWindow {
  import opened Wrappers
  import Table

  /** The search terms of one `filter_table` call: the favourites when that filter is on, then the typed text if any. */
  function Filters(favorites: seq<string>, favesChecked: bool, text: string): seq<string>
  {
    (if favesChecked then favorites else []) + (if |text| > 0 then [text] else [])
  }

  /** The rows `valid_rows` already holds when the matching starts: reset when there are no filters or no list yet. */
  function Kept(validRows: Option<seq<nat>>, filtering: bool): seq<nat>
  {
    if !filtering || validRows.None? then [] else validRows.value
  }

  /** The loop of `add_row` over the items of a row: `setItem(r, cols, item)` and one column on, in a table of `r + 1` rows. */
  method PutItems(cells: Table.Cells, r: nat, texts: seq<string>) returns (cols: nat, out: Table.Cells)
    ensures cols == |texts| && out == Table.PutRow(cells, r + 1, r, texts)
  {
    cols, out := 0, cells;
    while cols < |texts|
      invariant cols <= |texts|
      invariant out == Table.PutRow(cells, r + 1, r, texts[..cols])
    {
      Table.PutRowSnoc(cells, r + 1, r, texts, cols);
      out := Table.SetItem(out, r + 1, r, cols, texts[cols]);
      cols := cols + 1;
    }
    assert texts[..cols] == texts;
  }

  class TVLinker {
    /** `self.rows` and `self.cols`: the next row to fill and the column reached in it. */
    var rows: nat
    var cols: nat
    /** The table: its row count, its cells and its hidden rows. */
    var rowCount: nat
    var cells: Table.Cells
    var hidden: set<nat>
    /** `self.valid_rows`, None before the first filtering. */
    var validRows: Option<seq<nat>>
    var favorites: seq<string>
    /** Whether the favourites button is checked. */
    var favesChecked: bool

    /**
     * Rows are only ever added at the bottom, so the counter runs at most one
     * behind the table (after a row too short for its tooltip), and nothing
     * lies outside the table.
     */
    predicate Valid()
      reads this
    {
      rows <= rowCount <= rows + 1
      && (forall x :: x in hidden ==> x < rowCount)
      && (forall p: (nat, nat) :: p in cells ==> p.0 < rowCount && p.1 < Table.Columns)
    }

    constructor(favorites: seq<string>, favesChecked: bool)
      ensures Valid()
      ensures rows == 0 && cells == map[] && hidden == {} && validRows == None
      ensures this.favorites == favorites && this.favesChecked == favesChecked
    {
      rows, cols, rowCount := 0, 0, 0;
      cells, hidden, validRows := map[], {}, None;
      this.favorites, this.favesChecked := favorites, favesChecked;
    }

    /** `start_scraping`: the counter back to 0, the table cleared and emptied. */
    method StartScraping()
      modifies this
      ensures Valid()
      ensures rows == 0 && cells == map[] && hidden == {}
      ensures cols == old(cols) && validRows == old(validRows) && favorites == old(favorites) && favesChecked == old(favesChecked)
    {
      rows := 0;
      cells := map[];
      rowCount := 0;
      hidden := {};
    }

    /**
     * `add_row`: ignored once the scrape thread is asked to stop; otherwise
     * `cols` is reset, the table grows to `rows + 1` rows, the items go into
     * row `rows` column by column (the title indented), and `rows` moves on.
     * Every item's tooltip reads `row[1]`, so a one-item row raises
     * `IndexError` after the row count has grown and before any item is set.
     */
    method AddRow(row: seq<string>, interrupted: bool) returns (raised: Option<string>)
      requires Valid()
      modifies this
      ensures Valid()
      ensures interrupted ==> raised == None && rows == old(rows) && cols == old(cols)
                              && rowCount == old(rowCount) && cells == old(cells)
      ensures !interrupted ==> rowCount == old(rows) + 1 && cols == (if |row| == 1 then 0 else |row|)
      ensures !interrupted && |row| == 1 ==> raised == Some("IndexError") && rows == old(rows) && cells == old(cells)
      ensures !interrupted && |row| != 1 ==> raised == None && rows == old(rows) + 1
                                             && cells == Table.AppendRow(old(cells), old(rows), Table.Decorate(row))
      ensures hidden == old(hidden) && validRows == old(validRows)
      ensures favorites == old(favorites) && favesChecked == old(favesChecked)
    {
      raised := None;
      if !interrupted {
        cols := 0;
        rowCount := rows + 1;
        if |row| == 1 {
          return Some("IndexError");
        }
        var base := Table.Truncate(cells, rows + 1);
        var texts := Table.Decorate(row);
        var c, out := PutItems(base, rows, texts);
        Table.AppendRowBounds(cells, rows, texts);
        cells, cols := out, c;
        rows := rows + 1;
      }
    }

    /**
     * `filter_table(text)` as written. The favourites list is the filter
     * list itself, so the typed text is appended to it; `valid_rows` keeps
     * the rows of earlier calls unless there are no filters; with no
     * filters every row is shown, otherwise exactly the listed rows.
     */
    method FilterTable(text: string)
      requires Valid()
      modifies this
      ensures Valid()
      ensures var filters := Filters(old(favorites), favesChecked, text);
              favorites == (if favesChecked then filters else old(favorites))
              && validRows == Some(Kept(old(validRows), |filters| > 0) + Table.AllMatches(cells, rowCount, filters))
              && hidden == Table.HiddenRows(rowCount, |filters| > 0, validRows.value)
      ensures rows == old(rows) && cols == old(cols) && cells == old(cells) && favesChecked == old(favesChecked)
    {
      var filters := if favesChecked then favorites else [];
      if |text| > 0 {
        filters := filters + [text];
        if favesChecked {
          favorites := filters;
        }
      }
      var valid := Kept(validRows, |filters| > 0);
      valid := CollectMatches(valid, filters);
      validRows := Some(valid);
      ShowRows(|filters| > 0, valid);
    }

    /**
     * `filter_table(text)` as it is evidently meant: the favourites list is
     * left alone and only the rows matching this call's filters are listed.
     */
    method FilterTableFresh(text: string)
      requires Valid()
      modifies this
      ensures Valid()
      ensures var filters := Filters(favorites, favesChecked, text);
              validRows == Some(Table.AllMatches(cells, rowCount, filters))
              && hidden == Table.HiddenRows(rowCount, |filters| > 0, validRows.value)
      ensures rows == old(rows) && cols == old(cols) && cells == old(cells)
      ensures favorites == old(favorites) && favesChecked == old(favesChecked)
    {
      var filters := Filters(favorites, favesChecked, text);
      var valid := CollectMatches([], filters);
      assert [] + Table.AllMatches(cells, rowCount, filters) == Table.AllMatches(cells, rowCount, filters);
      validRows := Some(valid);
      ShowRows(|filters| > 0, valid);
    }

    /** The loops over the filters and their `findItems` results, appending each row found. */
    method CollectMatches(start: seq<nat>, filters: seq<string>) returns (valid: seq<nat>)
      ensures valid == start + Table.AllMatches(cells, rowCount, filters)
    {
      valid := start;
      ghost var acc: seq<nat> := [];
      var i := 0;
      while i < |filters|
        invariant i <= |filters|
        invariant acc == Table.AllMatches(cells, rowCount, filters[..i]) && valid == start + acc
      {
        var found := Table.Matches(cells, rowCount, filters[i]);
        valid := AppendRows(valid, found);
        Table.AllMatchesSnoc(cells, rowCount, filters, i);
        ConcatAssoc(start, acc, found);
        acc := acc + found;
        i := i + 1;
      }
      assert filters[..i] == filters;
    }

    /** The inner loop of `filter_table`: each row `findItems` returned appended in turn. */
    static method AppendRows(start: seq<nat>, found: seq<nat>) returns (valid: seq<nat>)
      ensures valid == start + found
    {
      valid := start;
      var j := 0;
      while j < |found|
        invariant j <= |found|
        invariant valid == start + found[..j]
      {
        assert found[..j + 1] == found[..j] + [found[j]];
        valid := valid + [found[j]];
        j := j + 1;
      }
      assert found[..j] == found;
    }

    /** The loop over the rows: all shown without filters, otherwise shown exactly when listed. */
    method ShowRows(filtering: bool, valid: seq<nat>)
      requires Valid()
      modifies this
      ensures Valid()
      ensures hidden == Table.HiddenRows(rowCount, filtering, valid)
      ensures rows == old(rows) && cols == old(cols) && rowCount == old(rowCount) && cells == old(cells)
      ensures validRows == old(validRows) && favorites == old(favorites) && favesChecked == old(favesChecked)
    {
      var row: nat := 0;
      var h := hidden;
      while row < rowCount
        invariant row <= rowCount
        invariant forall x: nat :: x in h <==> if x < row then filtering && x !in valid else x in hidden
      {
        if !filtering {
          h := h - {row};
        } else if row !in valid {
          h := h + {row};
        } else {
          h := h - {row};
        }
        row := row + 1;
      }
      assert forall x: nat :: x in h <==> x in Table.HiddenRows(rowCount, filtering, valid);
      hidden := h;
    }
  }

  /** With fresh matches, a row is shown exactly when there are no filters or one of its cells matches one of them. */
  lemma FreshFilterShows(cells: Table.Cells, rowCount: nat, filters: seq<string>, x: nat)
    requires x < rowCount
    ensures x !in Table.HiddenRows(rowCount, |filters| > 0, Table.AllMatches(cells, rowCount, filters)) <==>
            |filters| == 0 || exists k :: 0 <= k < |filters| && Table.RowMatches(cells, x, filters[k])
  {
    Table.AllMatchesSpec(cells, rowCount, filters);
  }

  /** A table whose only row reads `a`. */
  const RowA: Table.Cells := map[(0, 0) := "a"]

  lemma RowAMatches()
    ensures Table.RowMatches(RowA, 0, "a") && !Table.RowMatches(RowA, 0, "ab")
  {
    assert Table.CellMatches("a", "a");
    assert !Table.CellMatches("a", "ab");
    assert (0, 0) in RowA;
  }

  /**
   * As written, searching `a` and then `ab` leaves the row `a` shown,
   * although it does not contain `ab`: the first search's match is kept.
   */
  lemma StaleMatchShown()
    ensures var first := Kept(None, true) + Table.AllMatches(RowA, 1, ["a"]);
            var second := Kept(Some(first), true) + Table.AllMatches(RowA, 1, ["ab"]);
            0 !in Table.HiddenRows(1, true, second) && !Table.RowMatches(RowA, 0, "ab")
  {
    RowAMatches();
    Table.AllMatchesSpec(RowA, 1, ["a"]);
    assert ["a"][0] == "a";
  }

  /**
   * As written, with the favourites filter on, a search for `text` adds it to
   * the favourites, so clearing the search still filters by it.
   */
  lemma SearchBecomesFavorite(favorites: seq<string>, text: string)
    requires |text| > 0
    ensures Filters(Filters(favorites, true, text), true, "") == favorites + [text]
  {
  }

  /** Left alone, the favourites give the same filters once the search is cleared. */
  lemma ClearedSearchFavorites(favorites: seq<string>)
    ensures Filters(favorites, true, "") == favorites
  {
  }
}
