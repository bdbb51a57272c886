/**
 * The metadata sheet and the two readers over it (load_items and
 * is_duplicate_image), as functions of the sheet's rows. Each stored row is
 * [url, category, style, hash]; the first row of the sheet is a header.
 *
 * Both readers unpack every row they reach into exactly four fields, so a
 * row of any other length raises; load_items also raises when a row that
 * passes the style filter names a category outside the fixed list.
 */
module Metadata {

  import opened Wrappers

  /** One line of the sheet, as its cells. */
  type Row = seq<string>

  /** A category-to-URLs table, as load_items builds it. */
  type Groups = map<string, seq<string>>

  const Categories: seq<string> := ["\U{c1}o", "Qu\U{1ea7}n", "Gi\U{e0}y", "Ph\U{1ee5} ki\U{1ec7}n"]

  /** The exceptions a scan of the rows can raise. */
  datatype ScanError =
      /** unpacking a row that does not have four cells (ValueError) */
    | WrongFieldCount(count: nat)
      /** looking up a category that is not a key of the table (KeyError) */
    | UnknownCategory(category: string)

  /** Whether a row was found with the hash looked for, and its URL. */
  datatype Lookup = Found(url: string) | NotFound

  function Url(row: Row): string requires |row| == 4 { row[0] }
  function Category(row: Row): string requires |row| == 4 { row[1] }
  function Style(row: Row): string requires |row| == 4 { row[2] }
  function Hash(row: Row): string requires |row| == 4 { row[3] }

  /** load_all_metadata: every row of the sheet except the first. */
  function Records(cells: seq<Row>): seq<Row> {
    if cells == [] then [] else cells[1..]
  }

  /** The style filter is a truthiness test: no filter and the empty string both select every row. */
  predicate Filtering(filter: Option<string>) {
    filter.Some? && filter.value != ""
  }

  predicate Passes(row: Row, filter: Option<string>)
    requires |row| == 4
  {
    !Filtering(filter) || Style(row) == filter.value
  }

  /** The table load_items starts from: every category, each with no URLs. */
  function EmptyGroups(): (g: Groups)
    ensures g.Keys == set c | c in Categories
    ensures forall c :: c in g ==> g[c] == []
  {
    map c | c in Categories :: []
  }

  /** The exception a row raises in load_items, if any. */
  function RowError(row: Row, filter: Option<string>): Option<ScanError> {
    if |row| != 4 then Some(WrongFieldCount(|row|))
    else if Passes(row, filter) && Category(row) !in Categories then Some(UnknownCategory(Category(row)))
    else None
  }

  /** One iteration of load_items' loop. */
  function Step(items: Groups, row: Row, filter: Option<string>): Result<Groups, ScanError> {
    if |row| != 4 then Err(WrongFieldCount(|row|))
    else if !Passes(row, filter) then Ok(items)
    else if Category(row) !in items then Err(UnknownCategory(Category(row)))
    else Ok(items[Category(row) := items[Category(row)] + [Url(row)]])
  }

  /** load_items(style_filter) over the given rows: the loop run over all of them, in order. */
  function Collect(rows: seq<Row>, filter: Option<string>): Result<Groups, ScanError>
    decreases |rows|
  {
    if rows == [] then Ok(EmptyGroups())
    else
      match Collect(rows[..|rows| - 1], filter)
      case Err(e) => Err(e)
      case Ok(items) => Step(items, rows[|rows| - 1], filter)
  }

  /** Whether a row's URL belongs in the list of `cat`. */
  predicate Selected(row: Row, filter: Option<string>, cat: string) {
    |row| == 4 && Passes(row, filter) && Category(row) == cat
  }

  /** Reference definition: the URLs of the selected rows of `cat`, in table order. */
  function UrlsIn(rows: seq<Row>, filter: Option<string>, cat: string): seq<string> {
    if rows == [] then []
    else (if Selected(rows[0], filter, cat) then [Url(rows[0])] else []) + UrlsIn(rows[1..], filter, cat)
  }

  /** is_duplicate_image(h) over the given rows: the first row whose hash is h wins. */
  function FindHash(rows: seq<Row>, h: string): Result<Lookup, ScanError> {
    if rows == [] then Ok(NotFound)
    else if |rows[0]| != 4 then Err(WrongFieldCount(|rows[0]|))
    else if Hash(rows[0]) == h then Ok(Found(Url(rows[0])))
    else FindHash(rows[1..], h)
  }

  // ---------------------------------------------------------------- the sheet

  /**
   * Appending to a sheet that has its header row adds exactly that row at the
   * end of what load_all_metadata returns; on a sheet without any row, the
   * appended row takes the header's place and is not returned.
   */
  lemma RecordsAfterAppend(cells: seq<Row>, row: Row)
    ensures cells != [] ==> Records(cells + [row]) == Records(cells) + [row]
    ensures cells == [] ==> Records(cells + [row]) == []
  {
    if cells != [] {
      assert (cells + [row])[1..] == cells[1..] + [row];
    }
  }

  // ---------------------------------------------------------------- load_items

  lemma CollectLast(rows: seq<Row>, row: Row, filter: Option<string>)
    ensures Collect(rows + [row], filter) ==
      if Collect(rows, filter).Err? then Collect(rows, filter)
      else Step(Collect(rows, filter).value, row, filter)
  {
    assert (rows + [row])[..|rows|] == rows;
  }

  /** Once load_items has raised on a prefix of the rows, the rows after it change nothing. */
  lemma {:induction false} CollectErrorPersists(rows: seq<Row>, k: nat, filter: Option<string>)
    requires k <= |rows| && Collect(rows[..k], filter).Err?
    ensures Collect(rows, filter) == Collect(rows[..k], filter)
    decreases |rows| - k
  {
    if k < |rows| {
      assert rows[..k + 1] == rows[..k] + [rows[k]];
      CollectLast(rows[..k], rows[k], filter);
      CollectErrorPersists(rows, k + 1, filter);
    } else {
      assert rows[..k] == rows;
    }
  }

  /** Whatever rows it reads, a table load_items returns has exactly the fixed categories as keys. */
  lemma {:induction false} CollectKeys(rows: seq<Row>, filter: Option<string>)
    ensures Collect(rows, filter).Ok? ==> Collect(rows, filter).value.Keys == set c | c in Categories
    decreases |rows|
  {
    if rows != [] {
      CollectKeys(rows[..|rows| - 1], filter);
    }
  }

  /** An empty sheet gives every category, each with an empty list. */
  lemma EmptyTableGivesEmptyLists(filter: Option<string>)
    ensures Collect([], filter).Ok?
    ensures Collect([], filter).value.Keys == set c | c in Categories
    ensures forall c :: c in Categories ==> Collect([], filter).value[c] == []
  {
  }

  /** load_items succeeds exactly when no row raises. */
  lemma {:induction false} CollectOkIff(rows: seq<Row>, filter: Option<string>)
    ensures Collect(rows, filter).Ok? <==> forall i :: 0 <= i < |rows| ==> RowError(rows[i], filter) == None
    decreases |rows|
  {
    if rows != [] {
      var init := rows[..|rows| - 1];
      CollectOkIff(init, filter);
      CollectKeys(init, filter);
      assert forall i :: 0 <= i < |init| ==> init[i] == rows[i];
    }
  }

  /** When load_items raises, it raises the exception of the first row that raises. */
  lemma {:induction false} CollectFailsAtFirstBadRow(rows: seq<Row>, filter: Option<string>)
    requires Collect(rows, filter).Err?
    ensures exists i :: (0 <= i < |rows|
      && (forall j :: 0 <= j < i ==> RowError(rows[j], filter) == None)
      && RowError(rows[i], filter) == Some(Collect(rows, filter).error))
    decreases |rows|
  {
    var init := rows[..|rows| - 1];
    assert forall j :: 0 <= j < |init| ==> init[j] == rows[j];
    if Collect(init, filter).Err? {
      CollectFailsAtFirstBadRow(init, filter);
      var i :| 0 <= i < |init|
        && (forall j :: 0 <= j < i ==> RowError(init[j], filter) == None)
        && RowError(init[i], filter) == Some(Collect(init, filter).error);
      assert RowError(rows[i], filter) == Some(Collect(rows, filter).error);
    } else {
      CollectOkIff(init, filter);
      CollectKeys(init, filter);
      var i := |rows| - 1;
      assert forall j :: 0 <= j < i ==> RowError(rows[j], filter) == None;
    }
  }

  lemma {:induction false} UrlsInAppend(a: seq<Row>, b: seq<Row>, filter: Option<string>, cat: string)
    ensures UrlsIn(a + b, filter, cat) == UrlsIn(a, filter, cat) + UrlsIn(b, filter, cat)
    decreases |a|
  {
    if a != [] {
      assert (a + b)[0] == a[0];
      assert (a + b)[1..] == a[1..] + b;
      UrlsInAppend(a[1..], b, filter, cat);
    } else {
      assert a + b == b;
    }
  }

  /**
   * Grouping: when load_items succeeds, the list of each category is exactly
   * the URLs of the rows of that category passing the filter, in table order.
   */
  lemma {:induction false} CollectGroups(rows: seq<Row>, filter: Option<string>)
    requires Collect(rows, filter).Ok?
    ensures forall c :: c in Categories ==>
      (c in Collect(rows, filter).value && Collect(rows, filter).value[c] == UrlsIn(rows, filter, c))
    decreases |rows|
  {
    CollectKeys(rows, filter);
    if rows != [] {
      var init, last := rows[..|rows| - 1], rows[|rows| - 1];
      assert rows == init + [last];
      CollectGroups(init, filter);
      CollectKeys(init, filter);
      forall c | c in Categories
        ensures Collect(rows, filter).value[c] == UrlsIn(rows, filter, c)
      {
        UrlsInAppend(init, [last], filter, c);
      }
    }
  }

  /** Each URL under `cat` comes from a row of category `cat` that passes the filter. */
  lemma {:induction false} UrlsInSound(rows: seq<Row>, filter: Option<string>, cat: string, u: string)
    requires u in UrlsIn(rows, filter, cat)
    ensures exists i :: 0 <= i < |rows| && Selected(rows[i], filter, cat) && Url(rows[i]) == u
    decreases |rows|
  {
    if !(Selected(rows[0], filter, cat) && Url(rows[0]) == u) {
      UrlsInSound(rows[1..], filter, cat, u);
      var i :| 0 <= i < |rows[1..]| && Selected(rows[1..][i], filter, cat) && Url(rows[1..][i]) == u;
      assert rows[i + 1] == rows[1..][i];
    }
  }

  /** Each row selected for `cat` has its URL under `cat`. */
  lemma {:induction false} UrlsInComplete(rows: seq<Row>, filter: Option<string>, i: nat)
    requires i < |rows| && |rows[i]| == 4 && Passes(rows[i], filter)
    ensures Url(rows[i]) in UrlsIn(rows, filter, Category(rows[i]))
    decreases i
  {
    if i > 0 {
      assert rows[1..][i - 1] == rows[i];
      UrlsInComplete(rows[1..], filter, i - 1);
    }
  }

  /** Without a filter, every row's URL is listed under its own category. */
  lemma UnfilteredListsEveryRow(rows: seq<Row>, i: nat)
    requires Collect(rows, None).Ok? && i < |rows|
    ensures |rows[i]| == 4 && Category(rows[i]) in Collect(rows, None).value
    ensures Url(rows[i]) in Collect(rows, None).value[Category(rows[i])]
  {
    CollectOkIff(rows, None);
    assert RowError(rows[i], None) == None;
    CollectGroups(rows, None);
    UrlsInComplete(rows, None, i);
  }

  /** A URL listed under a style is also listed, under the same category, without the filter. */
  lemma {:induction false} FilteredWithinUnfiltered(rows: seq<Row>, filter: Option<string>, cat: string, u: string)
    requires u in UrlsIn(rows, filter, cat)
    ensures u in UrlsIn(rows, None, cat)
    decreases |rows|
  {
    if Selected(rows[0], filter, cat) && Url(rows[0]) == u {
      assert Selected(rows[0], None, cat);
    } else {
      FilteredWithinUnfiltered(rows[1..], filter, cat, u);
    }
  }

  /** If the styled read raises, so does the unfiltered one; the converse does not hold. */
  lemma UnfilteredFailsWhenFilteredFails(rows: seq<Row>, filter: Option<string>)
    requires Collect(rows, filter).Err?
    ensures Collect(rows, None).Err?
  {
    CollectOkIff(rows, filter);
    CollectOkIff(rows, None);
    var i :| 0 <= i < |rows| && RowError(rows[i], filter) != None;
    assert RowError(rows[i], None) != None;
  }

  // ---------------------------------------------------------------- is_duplicate_image

  /** Every row before row i has four cells and a hash other than h: the loop gets past them. */
  predicate PassedBefore(rows: seq<Row>, h: string, i: nat)
    requires i <= |rows|
  {
    forall j :: 0 <= j < i ==> |rows[j]| == 4 && Hash(rows[j]) != h
  }

  lemma PassedBeforeTail(rows: seq<Row>, h: string, i: nat)
    requires 0 < i <= |rows| && |rows[0]| == 4 && Hash(rows[0]) != h
    ensures PassedBefore(rows, h, i) <==> PassedBefore(rows[1..], h, i - 1)
  {
    assert forall j :: 0 < j < i ==> rows[j] == rows[1..][j - 1];
  }

  /**
   * The lookup finds u exactly when some row i has the hash, u is its URL,
   * and every row before i has four cells and a different hash.
   */
  lemma {:induction false} FindHashFound(rows: seq<Row>, h: string, u: string)
    ensures FindHash(rows, h) == Ok(Found(u)) <==>
      exists i :: 0 <= i < |rows| && |rows[i]| == 4 && Hash(rows[i]) == h && Url(rows[i]) == u &&
        PassedBefore(rows, h, i)
    decreases |rows|
  {
    if rows != [] {
      FindHashFound(rows[1..], h, u);
      if FindHash(rows, h) == Ok(Found(u)) && !(|rows[0]| == 4 && Hash(rows[0]) == h) {
        var i :| 0 <= i < |rows[1..]| && |rows[1..][i]| == 4 && Hash(rows[1..][i]) == h &&
          Url(rows[1..][i]) == u && PassedBefore(rows[1..], h, i);
        PassedBeforeTail(rows, h, i + 1);
        assert rows[i + 1] == rows[1..][i];
      }
      if exists i :: 0 <= i < |rows| && |rows[i]| == 4 && Hash(rows[i]) == h && Url(rows[i]) == u &&
          PassedBefore(rows, h, i) {
        var i :| 0 <= i < |rows| && |rows[i]| == 4 && Hash(rows[i]) == h && Url(rows[i]) == u &&
          PassedBefore(rows, h, i);
        if i > 0 {
          PassedBeforeTail(rows, h, i);
          assert rows[1..][i - 1] == rows[i];
        }
      }
    }
  }

  /** The lookup reports no duplicate exactly when every row has four cells and none has the hash. */
  lemma {:induction false} FindHashNotFound(rows: seq<Row>, h: string)
    ensures FindHash(rows, h) == Ok(NotFound) <==> PassedBefore(rows, h, |rows|)
    decreases |rows|
  {
    if rows != [] {
      FindHashNotFound(rows[1..], h);
      if |rows[0]| == 4 && Hash(rows[0]) != h {
        PassedBeforeTail(rows, h, |rows|);
      }
    }
  }

  /** The lookup raises exactly when a row without four cells comes before any row with the hash. */
  lemma {:induction false} FindHashFails(rows: seq<Row>, h: string)
    ensures FindHash(rows, h).Err? <==>
      exists i :: 0 <= i < |rows| && |rows[i]| != 4 && PassedBefore(rows, h, i)
    ensures FindHash(rows, h).Err? ==> FindHash(rows, h).error.WrongFieldCount?
    decreases |rows|
  {
    if rows != [] {
      FindHashFails(rows[1..], h);
      if FindHash(rows, h).Err? && |rows[0]| == 4 {
        var i :| 0 <= i < |rows[1..]| && |rows[1..][i]| != 4 && PassedBefore(rows[1..], h, i);
        PassedBeforeTail(rows, h, i + 1);
        assert rows[i + 1] == rows[1..][i];
      }
      if exists i :: 0 <= i < |rows| && |rows[i]| != 4 && PassedBefore(rows, h, i) {
        var i :| 0 <= i < |rows| && |rows[i]| != 4 && PassedBefore(rows, h, i);
        if i > 0 {
          PassedBeforeTail(rows, h, i);
          assert rows[1..][i - 1] == rows[i];
        }
      }
    }
  }

  /** After a lookup that found nothing, a row appended at the end is the only candidate. */
  lemma {:induction false} FindHashAfterAppend(rows: seq<Row>, row: Row, h: string)
    requires FindHash(rows, h) == Ok(NotFound)
    ensures FindHash(rows + [row], h) == FindHash([row], h)
    decreases |rows|
  {
    if rows != [] {
      assert (rows + [row])[1..] == rows[1..] + [row];
      FindHashAfterAppend(rows[1..], row, h);
    }
  }
}
