/**
 * The four-column results table of the main window: cells by (row, column),
 * how a scraped row is written into it, and `findItems(term, MatchContains)`,
 * which lists the row of every cell whose text contains the term regardless
 * of case (Qt walks column by column; the model lists the same rows in row
 * order).
 */
module Table {
  import Strings

  /** Every generation of the window builds its table with four columns. */
  const Columns: nat := 4

  type Cells = map<(nat, nat), string>

  /** `setRowCount(n)`: the rows from `n` on disappear with their cells. */
  function Truncate(cells: Cells, n: nat): (r: Cells)
    ensures forall p :: p in r <==> p in cells && p.0 < n
    ensures forall p :: p in r ==> r[p] == cells[p]
  {
    map p | p in cells && p.0 < n :: cells[p]
  }

  /** Shrinking the table twice leaves what shrinking it once to the smaller count leaves. */
  lemma TruncateTwice(cells: Cells, n: nat, m: nat)
    ensures Truncate(Truncate(cells, n), m) == Truncate(cells, if n < m then n else m)
  {
  }

  /** Keeping at least as many rows as the table fills changes nothing. */
  lemma TruncateKeeps(cells: Cells, n: nat)
    requires forall p :: p in cells ==> p.0 < n
    ensures Truncate(cells, n) == cells
  {
  }

  /** `setItem(r, c, item)`: ignored outside the table. */
  function SetItem(cells: Cells, rowCount: nat, r: nat, c: nat, text: string): Cells
  {
    if r < rowCount && c < Columns then cells[(r, c) := text] else cells
  }

  /** The cell texts of a scraped row as the newest window shows them: the title (column 2) indented by two spaces. */
  function Decorate(row: seq<string>): (r: seq<string>)
    ensures |r| == |row|
    ensures forall k :: 0 <= k < |row| ==> r[k] == (if k == 2 then "  " + row[k] else row[k])
  {
    seq(|row|, k requires 0 <= k < |row| => if k == 2 then "  " + row[k] else row[k])
  }

  /** The two spaces a title cell starts with. */
  const Indent: string := "  "

  /** Reading a row back from its cell texts: the indent taken off the title when it has one. */
  function Undecorate(texts: seq<string>): seq<string>
  {
    seq(|texts|, k requires 0 <= k < |texts| =>
      if k == 2 && |texts[k]| >= |Indent| && texts[k][..|Indent|] == Indent then texts[k][|Indent|..] else texts[k])
  }

  /** The cell texts keep the whole row: reading them back gives it again. */
  lemma UndecorateDecorate(row: seq<string>)
    ensures Undecorate(Decorate(row)) == row
  {
    var texts := Decorate(row);
    forall k | 0 <= k < |row|
      ensures Undecorate(texts)[k] == row[k]
    {
      if k == 2 {
        assert texts[k] == Indent + row[k];
        assert texts[k][..|Indent|] == Indent && texts[k][|Indent|..] == row[k];
      }
    }
  }

  /** Different rows are never shown alike. */
  lemma DecorateInjective(a: seq<string>, b: seq<string>)
    requires Decorate(a) == Decorate(b)
    ensures a == b
  {
    UndecorateDecorate(a);
    UndecorateDecorate(b);
  }

  /** The cells after `setItem(r, c, texts[c])` for each index `c` of the texts in turn, in a table of `rowCount` rows. */
  function PutRow(cells: Cells, rowCount: nat, r: nat, texts: seq<string>): Cells
  {
    if |texts| == 0 then cells
    else SetItem(PutRow(cells, rowCount, r, texts[..|texts| - 1]), rowCount, r, |texts| - 1, texts[|texts| - 1])
  }

  /** Only the cells of row `r` inside the table change, column `c` taking `texts[c]`; every other cell is kept. */
  lemma {:induction false} PutRowSpec(cells: Cells, rowCount: nat, r: nat, texts: seq<string>)
    ensures var out := PutRow(cells, rowCount, r, texts);
            (forall p: (nat, nat) :: p in out <==> p in cells || (r < rowCount && p.0 == r && p.1 < |texts| && p.1 < Columns))
            && (forall p: (nat, nat) :: p in out ==> out[p] == if r < rowCount && p.0 == r && p.1 < |texts| && p.1 < Columns then texts[p.1] else cells[p])
    decreases |texts|
  {
    if |texts| > 0 {
      var init, last := texts[..|texts| - 1], |texts| - 1;
      PutRowSpec(cells, rowCount, r, init);
      var before, out := PutRow(cells, rowCount, r, init), PutRow(cells, rowCount, r, texts);
      assert out == SetItem(before, rowCount, r, last, texts[last]);
      forall p: (nat, nat) | p in out
        ensures out[p] == if r < rowCount && p.0 == r && p.1 < |texts| && p.1 < Columns then texts[p.1] else cells[p]
      {
        if p != (r, last) && p.1 < last {
          assert init[p.1] == texts[p.1];
        }
      }
    }
  }

  lemma PutRowSnoc(cells: Cells, rowCount: nat, r: nat, texts: seq<string>, i: nat)
    requires i < |texts|
    ensures PutRow(cells, rowCount, r, texts[..i + 1]) == SetItem(PutRow(cells, rowCount, r, texts[..i]), rowCount, r, i, texts[i])
  {
    assert texts[..i + 1][..i] == texts[..i];
  }

  /** `add_row` on a table of `r` rows: one more row, filled from the texts. */
  function AppendRow(cells: Cells, r: nat, texts: seq<string>): Cells
  {
    PutRow(Truncate(cells, r + 1), r + 1, r, texts)
  }

  /** The new row holds the first four texts, every earlier row keeps its cells, and no later row has any. */
  lemma AppendRowSpec(cells: Cells, r: nat, texts: seq<string>)
    ensures var out := AppendRow(cells, r, texts);
            (forall c :: 0 <= c < |texts| && c < Columns ==> (r, c) in out && out[(r, c)] == texts[c])
            && (forall p: (nat, nat) :: p.0 < r ==> (p in out <==> p in cells) && (p in out ==> out[p] == cells[p]))
            && (forall p: (nat, nat) :: p in out ==> p.0 <= r)
  {
    PutRowSpec(Truncate(cells, r + 1), r + 1, r, texts);
  }

  /** A table whose cells all lie in its four columns keeps them there, and gains no row past `r`. */
  lemma AppendRowBounds(cells: Cells, r: nat, texts: seq<string>)
    requires forall p: (nat, nat) :: p in cells ==> p.1 < Columns
    ensures forall p: (nat, nat) :: p in AppendRow(cells, r, texts) ==> p.0 <= r && p.1 < Columns
  {
    PutRowSpec(Truncate(cells, r + 1), r + 1, r, texts);
  }

  /** `MatchContains`: the cell text contains the term, ignoring the case of ASCII letters. */
  predicate CellMatches(text: string, term: string)
  {
    Strings.Contains(Strings.Lower(text), Strings.Lower(term))
  }

  /** Some cell of row `r` matches. */
  predicate RowMatches(cells: Cells, r: nat, term: string)
  {
    exists c :: 0 <= c < Columns && (r, c) in cells && CellMatches(cells[(r, c)], term)
  }

  /** One entry `r` for every matching cell of row `r` from column `c` on. */
  function RowHits(cells: Cells, r: nat, c: nat, term: string): (hits: seq<nat>)
    ensures forall k :: 0 <= k < |hits| ==> hits[k] == r
    ensures |hits| > 0 <==> exists d :: c <= d < Columns && (r, d) in cells && CellMatches(cells[(r, d)], term)
    decreases Columns - c
  {
    if c >= Columns then []
    else (if (r, c) in cells && CellMatches(cells[(r, c)], term) then [r] else []) + RowHits(cells, r, c + 1, term)
  }

  /** The rows of the matching cells of rows `r` up to `rowCount`, in table order. */
  function MatchesFrom(cells: Cells, r: nat, rowCount: nat, term: string): seq<nat>
    decreases rowCount - r
  {
    if r >= rowCount then [] else RowHits(cells, r, 0, term) + MatchesFrom(cells, r + 1, rowCount, term)
  }

  /**
   * The rows of `[item.row() for item in table.findItems(term, Qt.MatchContains)]`:
   * the same rows, each once per matching cell, listed in row order rather
   * than Qt's column order; callers only test membership.
   */
  function Matches(cells: Cells, rowCount: nat, term: string): seq<nat>
  {
    MatchesFrom(cells, 0, rowCount, term)
  }

  lemma {:induction false} MatchesFromMember(cells: Cells, r: nat, rowCount: nat, term: string, x: nat)
    ensures x in MatchesFrom(cells, r, rowCount, term) <==> r <= x < rowCount && RowMatches(cells, x, term)
    decreases rowCount - r, 1
  {
    if r < rowCount {
      MatchesFromStep(cells, r, rowCount, term, x);
    } else {
      assert MatchesFrom(cells, r, rowCount, term) == [];
    }
  }

  lemma {:induction false} MatchesFromStep(cells: Cells, r: nat, rowCount: nat, term: string, x: nat)
    requires r < rowCount
    ensures x in MatchesFrom(cells, r, rowCount, term) <==> r <= x < rowCount && RowMatches(cells, x, term)
    decreases rowCount - r, 0
  {
    MatchesFromMember(cells, r + 1, rowCount, term, x);
    RowHitsMember(cells, r, term, x);
    assert MatchesFrom(cells, r, rowCount, term) == RowHits(cells, r, 0, term) + MatchesFrom(cells, r + 1, rowCount, term);
  }

  lemma RowHitsMember(cells: Cells, r: nat, term: string, x: nat)
    ensures x in RowHits(cells, r, 0, term) <==> x == r && RowMatches(cells, r, term)
  {
    var hits := RowHits(cells, r, 0, term);
    if x in hits {
      var k :| 0 <= k < |hits| && hits[k] == x;
    }
    if RowMatches(cells, r, term) {
      assert hits[0] == r;
    }
  }

  /** A row is listed by `findItems` exactly when it exists and one of its cells matches. */
  lemma MatchesSpec(cells: Cells, rowCount: nat, term: string)
    ensures forall x: nat :: x in Matches(cells, rowCount, term) <==> x < rowCount && RowMatches(cells, x, term)
  {
    forall x: nat
      ensures x in Matches(cells, rowCount, term) <==> x < rowCount && RowMatches(cells, x, term)
    {
      MatchesFromMember(cells, 0, rowCount, term, x);
    }
  }

  /** The rows collected for every search term in turn. */
  function AllMatches(cells: Cells, rowCount: nat, terms: seq<string>): seq<nat>
  {
    if |terms| == 0 then [] else AllMatches(cells, rowCount, terms[..|terms| - 1]) + Matches(cells, rowCount, terms[|terms| - 1])
  }

  lemma AllMatchesSnoc(cells: Cells, rowCount: nat, terms: seq<string>, i: nat)
    requires i < |terms|
    ensures AllMatches(cells, rowCount, terms[..i + 1]) == AllMatches(cells, rowCount, terms[..i]) + Matches(cells, rowCount, terms[i])
  {
    assert terms[..i + 1][..i] == terms[..i];
  }

  /** A row is collected exactly when it exists and matches one of the terms. */
  lemma {:induction false} AllMatchesSpec(cells: Cells, rowCount: nat, terms: seq<string>)
    ensures forall x: nat :: x in AllMatches(cells, rowCount, terms) <==>
                        x < rowCount && exists k :: 0 <= k < |terms| && RowMatches(cells, x, terms[k])
    decreases |terms|
  {
    if |terms| > 0 {
      var init := terms[..|terms| - 1];
      AllMatchesSpec(cells, rowCount, init);
      MatchesSpec(cells, rowCount, terms[|terms| - 1]);
      forall x: nat | x < rowCount && exists k :: 0 <= k < |terms| && RowMatches(cells, x, terms[k])
        ensures x in AllMatches(cells, rowCount, terms)
      {
        var k :| 0 <= k < |terms| && RowMatches(cells, x, terms[k]);
        if k < |terms| - 1 {
          assert init[k] == terms[k];
        }
      }
      forall x | x in AllMatches(cells, rowCount, init)
        ensures exists k :: 0 <= k < |terms| && RowMatches(cells, x, terms[k])
      {
        var k :| 0 <= k < |init| && RowMatches(cells, x, init[k]);
        assert terms[k] == init[k];
      }
    }
  }

  /** The rows hidden once every row is shown when there are no filters, and otherwise shown exactly when listed. */
  function HiddenRows(rowCount: nat, filtering: bool, valid: seq<nat>): (h: set<nat>)
    ensures forall x: nat :: x in h <==> filtering && x < rowCount && x !in valid
  {
    if filtering then set x: nat | x < rowCount && x !in valid else {}
  }

  const Placeholder: string := "%s"

  /** `update_metabar`: the label's template with every `%s` replaced by the decimal row count. */
  function MetaText(template: string, rowCount: nat): string
  {
    Strings.ReplaceAll(template, Placeholder, Strings.NatToString(rowCount))
  }

  /** A template holding one `%s`, with no `%` before it, shows the row count in its place. */
  lemma MetaTextOf(prefix: string, suffix: string, rowCount: nat)
    requires '%' !in prefix && !Strings.Contains(suffix, Placeholder)
    ensures MetaText(prefix + Placeholder + suffix, rowCount) == prefix + Strings.NatToString(rowCount) + suffix
  {
    var n := Strings.NatToString(rowCount);
    var t := Placeholder + suffix;
    assert prefix + Placeholder + suffix == prefix + t;
    forall i: nat | i < |prefix|
      ensures !Strings.MatchAt(prefix + t, Placeholder, i)
    {
      if i + 2 <= |prefix + t| {
        assert (prefix + t)[i..i + 2][0] == prefix[i];
      }
    }
    Strings.ReplaceSkips(prefix, t, Placeholder, n);
    Strings.ReplaceFront(Placeholder, suffix, n);
    Strings.ReplaceAbsent(suffix, Placeholder, n);
  }
}
