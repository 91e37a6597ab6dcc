/**
 * The earliest main window, `main.py`, which scrapes in the window itself:
 * pages 1 to `maxpages - 1`, the table grown page by page and filled row by
 * row with the raw cell texts, the search filter, and the metabar text.
 */
module EarlyWindow {
  import opened Wrappers
  import Strings
  import Table
  import LegacyThreads
  import Workers

  /** The default `maxpages` of `scrape_links`. */
  const DefaultPages: nat := 20

  /** The row built for one post: the cell texts as they are, only `TV-` taken out of the format. */
  function EarlyRow(p: LegacyThreads.LegacyPost): (r: seq<string>)
    ensures |r| == Table.Columns
    ensures r[..3] == [p.size, p.href, p.title] && r[3] == Strings.ReplaceAll(p.format, LegacyThreads.RatingTag, "")
  {
    [p.size, p.href, p.title, Strings.ReplaceAll(p.format, LegacyThreads.RatingTag, "")]
  }

  /** The bytes parsed: any failure of the `lxml` parse falls back to a second read of the response, which is empty. */
  function EarlyParsed(lxmlFails: bool, body: seq<byte>): seq<byte>
  {
    if lxmlFails then [] else body
  }

  /** The rows of pages 1 to `n`, `site(p)` being the body of page `p`. */
  function EarlyPageRows(site: nat -> seq<byte>, parse: seq<byte> -> seq<LegacyThreads.LegacyPost>, lxmlFails: bool, n: nat)
    : seq<seq<string>>
  {
    if n == 0 then []
    else EarlyPageRows(site, parse, lxmlFails, n - 1) + LegacyThreads.PostRows(EarlyRow, parse(EarlyParsed(lxmlFails, site(n))))
  }

  lemma EarlyPageRowsNext(site: nat -> seq<byte>, parse: seq<byte> -> seq<LegacyThreads.LegacyPost>, lxmlFails: bool, n: nat)
    ensures EarlyPageRows(site, parse, lxmlFails, n + 1)
            == EarlyPageRows(site, parse, lxmlFails, n) + LegacyThreads.PostRows(EarlyRow, parse(EarlyParsed(lxmlFails, site(n + 1))))
  {
  }

  /** Every page parsed by `lxml` contributes one row per `posts_table`. */
  lemma {:induction false} EarlyRowCount(site: nat -> seq<byte>, parse: seq<byte> -> seq<LegacyThreads.LegacyPost>, n: nat)
    ensures |EarlyPageRows(site, parse, false, n)| == LegacyThreads.PostCount(site, parse, n)
    decreases n
  {
    if n > 0 {
      EarlyRowCount(site, parse, n - 1);
    }
  }

  /** As written, a failing `lxml` parse leaves every page without rows. */
  lemma {:induction false} EarlyFallbackScrapesNothing(site: nat -> seq<byte>, parse: seq<byte> -> seq<LegacyThreads.LegacyPost>, n: nat)
    requires parse([]) == []
    ensures EarlyPageRows(site, parse, true, n) == []
    decreases n
  {
    if n > 0 {
      EarlyFallbackScrapesNothing(site, parse, n - 1);
      assert LegacyThreads.PostRows(EarlyRow, parse(EarlyParsed(true, site(n)))) == [];
    }
  }

  /** The table holds exactly the given rows, row `r` in row `r`, the title indented, nothing else. */
  ghost predicate Shows(cells: Table.Cells, rows: seq<seq<string>>)
  {
    (forall p: (nat, nat) :: p in cells <==> p.0 < |rows| && p.1 < |rows[p.0]| && p.1 < Table.Columns)
    && (forall p: (nat, nat) :: p in cells && p.0 < |rows| && p.1 < |rows[p.0]| ==> cells[p] == Table.Decorate(rows[p.0])[p.1])
  }

  /** Filling the next row of a table showing `rows` makes it show one row more. */
  lemma ShowsStep(cells: Table.Cells, rowCount: nat, rows: seq<seq<string>>, row: seq<string>)
    requires Shows(cells, rows) && |rows| < rowCount
    ensures Shows(Table.PutRow(cells, rowCount, |rows|, Table.Decorate(row)), rows + [row])
  {
    var out := Table.PutRow(cells, rowCount, |rows|, Table.Decorate(row));
    Table.PutRowSpec(cells, rowCount, |rows|, Table.Decorate(row));
    var next := rows + [row];
    forall p: (nat, nat)
      ensures p in out <==> p.0 < |next| && p.1 < |next[p.0]| && p.1 < Table.Columns
    {
      if p.0 < |rows| {
        assert next[p.0] == rows[p.0];
      }
    }
    forall p: (nat, nat) | p in out && p.0 < |next| && p.1 < |next[p.0]|
      ensures out[p] == Table.Decorate(next[p.0])[p.1]
    {
      if p.0 < |rows| {
        assert next[p.0] == rows[p.0];
      }
    }
  }

  /** The item loop: `setItem(r, col, item)` for each item in turn, the title indented. */
  method FillItems(cells: Table.Cells, rowCount: nat, r: nat, row: seq<string>) returns (out: Table.Cells)
    ensures out == Table.PutRow(cells, rowCount, r, Table.Decorate(row))
  {
    var texts := Table.Decorate(row);
    out := cells;
    var col := 0;
    while col < |texts|
      invariant col <= |texts|
      invariant out == Table.PutRow(cells, rowCount, r, texts[..col])
    {
      Table.PutRowSnoc(cells, rowCount, r, texts, col);
      out := Table.SetItem(out, rowCount, r, col, texts[col]);
      col := col + 1;
    }
    assert texts[..col] == texts;
  }

  /** The loop over the `posts_table`s of one page, on a table already grown by their number, `row` counting the rows. */
  method FillPage(cells: Table.Cells, rowCount: nat, ghost rows: seq<seq<string>>, row: nat, posts: seq<LegacyThreads.LegacyPost>)
    returns (out: Table.Cells, next: nat)
    requires Shows(cells, rows) && row == |rows| && rowCount == |rows| + |posts|
    ensures Shows(out, rows + LegacyThreads.PostRows(EarlyRow, posts)) && next == rowCount
  {
    out, next := cells, row;
    ghost var done := rows;
    var k := 0;
    while k < |posts|
      invariant k <= |posts| && next == row + k
      invariant done == rows + LegacyThreads.PostRows(EarlyRow, posts[..k]) && Shows(out, done) && |done| == next
    {
      ShowsStep(out, rowCount, done, EarlyRow(posts[k]));
      out := FillItems(out, rowCount, next, EarlyRow(posts[k]));
      LegacyThreads.PostRowsSnoc(EarlyRow, posts, k);
      ConcatAssoc(rows, LegacyThreads.PostRows(EarlyRow, posts[..k]), [EarlyRow(posts[k])]);
      done := done + [EarlyRow(posts[k])];
      next := next + 1;
      k := k + 1;
    }
    assert posts[..k] == posts;
  }

  /** A row is listed for a term exactly when one of its cells matches, so the empty term lists every row holding a cell. */
  lemma EmptySearchMatchesFilledRows(cells: Table.Cells, x: nat)
    ensures Table.RowMatches(cells, x, "") <==> exists c :: 0 <= c < Table.Columns && (x, c) in cells
  {
    assert Strings.Lower("") == "";
    forall c | 0 <= c < Table.Columns && (x, c) in cells
      ensures Table.CellMatches(cells[(x, c)], "")
    {
      var t := Strings.Lower(cells[(x, c)]);
      assert t[..0] == "";
    }
  }

  /** After `filter_table(text)` a row is shown exactly when one of its cells matches the text. */
  lemma EarlyFilterShows(cells: Table.Cells, rowCount: nat, text: string, x: nat)
    requires x < rowCount
    ensures x !in Table.HiddenRows(rowCount, true, Table.Matches(cells, rowCount, text)) <==> Table.RowMatches(cells, x, text)
  {
    Table.MatchesSpec(cells, rowCount, text);
  }

  /**
   * The page loop of `scrape_links` on an emptied table. The server answers
   * the first `okPages` requests and `urlopen` raises on the next one, which
   * ends the scrape with the rows of the pages before. Returns the pages
   * requested, the cells, the row count and whether the loop raised.
   */
  method ScrapePages(maxpages: int, site: nat -> seq<byte>, parse: seq<byte> -> seq<LegacyThreads.LegacyPost>, lxmlFails: bool,
                     okPages: nat)
    returns (requested: seq<nat>, table: Table.Cells, count: nat, raised: bool)
    ensures var n := if maxpages > 1 then maxpages - 1 else 0;
            var rows := EarlyPageRows(site, parse, lxmlFails, Workers.ReadPages(okPages, n));
            raised == Workers.ScrapeRaises(okPages, n) && requested == Workers.RequestedPages(okPages, n)
            && count == |rows| && Shows(table, rows)
  {
    count, table, raised := 0, map[], false;
    ghost var rows: seq<seq<string>> := [];
    var row: nat := 0;
    requested := [];
    var page: nat := 1;
    while page < maxpages
      invariant 1 <= page && page - 1 <= okPages && (maxpages > 1 ==> page <= maxpages) && (maxpages <= 1 ==> page == 1)
      invariant requested == Workers.PageNumbers(page - 1) && !raised
      invariant rows == EarlyPageRows(site, parse, lxmlFails, page - 1)
      invariant Shows(table, rows) && row == |rows| && count == row
    {
      requested := requested + [page];
      if page - 1 == okPages {
        raised := true;
        return;
      }
      var posts := parse(EarlyParsed(lxmlFails, site(page)));
      count := count + |posts|;
      table, row := FillPage(table, count, rows, row, posts);
      EarlyPageRowsNext(site, parse, lxmlFails, page - 1);
      rows := rows + LegacyThreads.PostRows(EarlyRow, posts);
      page := page + 1;
    }
  }

  class EarlyTVLinker {
    /** `self.meta_template`, read from the settings. */
    const metaTemplate: string
    var rowCount: nat
    var cells: Table.Cells
    var hidden: set<nat>
    var metaText: string

    predicate Valid()
      reads this
    {
      (forall x :: x in hidden ==> x < rowCount)
      && (forall p: (nat, nat) :: p in cells ==> p.0 < rowCount && p.1 < Table.Columns)
    }

    constructor(metaTemplate: string)
      ensures Valid()
      ensures this.metaTemplate == metaTemplate && rowCount == 0 && cells == map[] && hidden == {}
      ensures metaText == Table.MetaText(metaTemplate, 0)
    {
      this.metaTemplate := metaTemplate;
      rowCount, cells, hidden := 0, map[], {};
      metaText := Table.MetaText(metaTemplate, 0);
    }

    /**
     * `scrape_links(maxpages)`: the table emptied, then pages 1 to
     * `maxpages - 1` each grow the table by their `posts_table` count and fill
     * those rows in order; the metabar shows the final count. `okPages` is
     * as in `ScrapePages`: when a request raises, the metabar keeps the
     * count of its last refresh, made after the last item set, if any.
     * Returns the page numbers requested and whether the scrape raised.
     */
    method ScrapeLinks(maxpages: int, site: nat -> seq<byte>, parse: seq<byte> -> seq<LegacyThreads.LegacyPost>, lxmlFails: bool,
                       okPages: nat)
      returns (requested: seq<nat>, raised: bool)
      requires Valid()
      modifies this
      ensures Valid()
      ensures var n := if maxpages > 1 then maxpages - 1 else 0;
              var rows := EarlyPageRows(site, parse, lxmlFails, Workers.ReadPages(okPages, n));
              raised == Workers.ScrapeRaises(okPages, n) && requested == Workers.RequestedPages(okPages, n)
              && rowCount == |rows| && Shows(cells, rows) && hidden == {}
      ensures metaText == if !raised || rowCount > 0 then Table.MetaText(metaTemplate, rowCount) else old(metaText)
    {
      var table, count;
      requested, table, count, raised := ScrapePages(maxpages, site, parse, lxmlFails, okPages);
      rowCount, cells, hidden := count, table, {};
      if !raised || rowCount > 0 {
        metaText := Table.MetaText(metaTemplate, rowCount);
      }
    }

    /** `filter_table(text)`: the rows of the matching cells listed afresh, every other row hidden, the metabar refreshed. */
    method FilterTable(text: string)
      requires Valid()
      modifies this
      ensures Valid()
      ensures hidden == Table.HiddenRows(rowCount, true, Table.Matches(cells, rowCount, text))
      ensures metaText == Table.MetaText(metaTemplate, rowCount)
      ensures rowCount == old(rowCount) && cells == old(cells)
    {
      var found := Table.Matches(cells, rowCount, text);
      var valid: seq<nat> := [];
      var j := 0;
      while j < |found|
        invariant j <= |found| && valid == found[..j]
      {
        assert found[..j + 1] == found[..j] + [found[j]];
        valid := valid + [found[j]];
        j := j + 1;
      }
      assert found[..j] == found;
      var h := hidden;
      var r: nat := 0;
      while r < rowCount
        invariant r <= rowCount
        invariant forall x: nat :: x in h <==> if x < r then x !in valid else x in hidden
      {
        if r !in valid {
          h := h + {r};
        } else {
          h := h - {r};
        }
        r := r + 1;
      }
      assert forall x: nat :: x in h <==> x in Table.HiddenRows(rowCount, true, valid);
      hidden := h;
      metaText := Table.MetaText(metaTemplate, rowCount);
    }
  }
}
