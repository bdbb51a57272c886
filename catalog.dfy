/**
 * The closet catalog: the metadata sheet as mutable state, the readers and the
 * writer over it, the upload page's check-and-store sequence and the outfit
 * suggestion. Every reader is proved against the function of the rows that
 * specifies it (module Metadata); what the catalog promises is proved about
 * those functions.
 */
module Closet {

  import opened Wrappers
  import opened ImageHash
  import opened DriveUpload
  import opened Metadata

  /** How one pass of the upload page ends. */
  datatype StoreOutcome =
      /** the hash was already in the sheet: its first row's URL is shown, nothing is written */
    | Duplicate(url: string)
      /** the image was uploaded and its row appended */
    | Stored(url: string)
      /** every upload attempt failed: the error is shown, nothing is written */
    | UploadFailed(error: string)
      /** the duplicate check itself raised: the page stops there */
    | ScanFailed(scanError: ScanError)

  /**
   * The upload page's check-and-store as a function of the sheet before it:
   * hash the PNG bytes, look the hash up, and on a miss upload with the
   * default retry count and then append the new row.
   */
  function CheckAndStore(cells: seq<Row>, sha256: Bytes -> Digest, img: Bytes, category: string,
                         style: string, outcomes: seq<Attempt>): (StoreOutcome, seq<Row>)
    requires DefaultRetry < |outcomes|
  {
    var h := GetImageHash(sha256, img);
    match FindHash(Records(cells), h)
    case Err(e) => (ScanFailed(e), cells)
    case Ok(Found(u)) => (Duplicate(u), cells)
    case Ok(NotFound) =>
      NegativeRetryReturnsNone(outcomes, DefaultRetry);
      match Upload(outcomes, DefaultRetry).result
      case Returned(u) => (Stored(u), cells + [[u, category, style, h]])
      case Raised(e) => (UploadFailed(e), cells)
  }

  /** A stored row: four cells and one of the fixed categories. */
  predicate WellFormed(row: Row) {
    |row| == 4 && Category(row) in Categories
  }

  /**
   * The state the catalog is meant to be in: a header row, then well-formed
   * rows whose hashes are pairwise distinct (the deduplication invariant).
   */
  predicate ValidSheet(cells: seq<Row>) {
    && cells != []
    && (forall i :: 0 <= i < |Records(cells)| ==> WellFormed(Records(cells)[i]))
    && (forall i, j :: 0 <= i < j < |Records(cells)| ==> Hash(Records(cells)[i]) != Hash(Records(cells)[j]))
  }

  /** Which of the two lists each category of an outfit was drawn from (the outfit loop of the suggestion page). */
  ghost predicate IsOutfit(outfit: map<string, string>, items: Groups, fallback: Groups)
    requires forall c :: c in Categories ==> c in items && c in fallback
  {
    && (forall c :: c in outfit <==> c in Categories && (items[c] != [] || fallback[c] != []))
    && (forall c :: c in outfit ==>
          if items[c] != [] then outfit[c] in items[c] else outfit[c] in fallback[c])
  }

  /**
   * One URL per category, drawn from the styled list, or from the unfiltered
   * list when the styled one is empty; a category with neither is left out.
   * random.choice is an arbitrary choice here.
   */
  method PickOutfit(items: Groups, fallback: Groups) returns (outfit: map<string, string>)
    requires forall c :: c in Categories ==> c in items && c in fallback
    ensures IsOutfit(outfit, items, fallback)
  {
    outfit := map[];
    for k := 0 to |Categories|
      invariant forall c :: c in outfit <==>
        c in Categories && c in Categories[..k] && (items[c] != [] || fallback[c] != [])
      invariant forall c :: c in outfit ==>
        if items[c] != [] then outfit[c] in items[c] else outfit[c] in fallback[c]
    {
      var cat := Categories[k];
      assert Categories[..k + 1] == Categories[..k] + [cat];
      if items[cat] != [] {
        assert items[cat][0] in items[cat];
        var u :| u in items[cat];
        outfit := outfit[cat := u];
      } else if fallback[cat] != [] {
        assert fallback[cat][0] in fallback[cat];
        var u :| u in fallback[cat];
        outfit := outfit[cat := u];
      }
    }
    assert Categories[..|Categories|] == Categories;
  }

  /** The metadata sheet, header row included, as the spreadsheet holds it. */
  class Catalog {
    var cells: seq<Row>

    constructor (sheet: seq<Row>)
      ensures cells == sheet
    {
      cells := sheet;
    }

    /** load_all_metadata */
    method LoadAllMetadata() returns (rows: seq<Row>)
      ensures rows == Records(cells)
    {
      rows := if cells == [] then [] else cells[1..];
    }

    /** save_item_to_sheet: append_row adds one row at the end and changes nothing else. */
    method SaveItemToSheet(url: string, category: string, style: string, imgHash: string)
      modifies this
      ensures cells == old(cells) + [[url, category, style, imgHash]]
    {
      cells := cells + [[url, category, style, imgHash]];
    }

    /** load_items(style_filter) */
    method LoadItems(filter: Option<string>) returns (r: Result<Groups, ScanError>)
      ensures r == Collect(Records(cells), filter)
    {
      var rows := LoadAllMetadata();
      var items := EmptyGroups();
      var i := 0;
      while i < |rows|
        invariant 0 <= i <= |rows|
        invariant Collect(rows[..i], filter) == Ok(items)
      {
        var row := rows[i];
        assert rows[..i + 1] == rows[..i] + [row];
        CollectLast(rows[..i], row, filter);
        if |row| != 4 {
          CollectErrorPersists(rows, i + 1, filter);
          return Err(WrongFieldCount(|row|));
        }
        var url, cat, style := row[0], row[1], row[2];
        if !Filtering(filter) || style == filter.value {
          if cat !in items {
            CollectErrorPersists(rows, i + 1, filter);
            return Err(UnknownCategory(cat));
          }
          items := items[cat := items[cat] + [url]];
        }
        i := i + 1;
      }
      assert rows[..i] == rows;
      r := Ok(items);
    }

    /** is_duplicate_image(img_hash) */
    method IsDuplicateImage(h: string) returns (r: Result<Lookup, ScanError>)
      ensures r == FindHash(Records(cells), h)
    {
      var rows := LoadAllMetadata();
      for i := 0 to |rows|
        invariant FindHash(rows[i..], h) == FindHash(rows, h)
      {
        var row := rows[i];
        if |row| != 4 {
          return Err(WrongFieldCount(|row|));
        }
        if row[3] == h {
          return Ok(Found(row[0]));
        }
        assert rows[i..][1..] == rows[i + 1..];
      }
      r := Ok(NotFound);
    }

    /** The upload page's check-and-store, given the PNG bytes and what each upload attempt meets. */
    method StoreImage(sha256: Bytes -> Digest, img: Bytes, category: string, style: string,
                      outcomes: seq<Attempt>) returns (outcome: StoreOutcome)
      requires DefaultRetry < |outcomes|
      modifies this
      ensures (outcome, cells) == CheckAndStore(old(cells), sha256, img, category, style, outcomes)
    {
      var imgHash := GetImageHash(sha256, img);
      var lookup := IsDuplicateImage(imgHash);
      match lookup
      case Err(e) =>
        outcome := ScanFailed(e);
      case Ok(Found(u)) =>
        outcome := Duplicate(u);
      case Ok(NotFound) =>
        // the file name with its random suffix only names the object on Drive
        var run := UploadToDrive(outcomes, DefaultRetry);
        NegativeRetryReturnsNone(outcomes, DefaultRetry);
        match run.result
        case Returned(fileUrl) =>
          SaveItemToSheet(fileUrl, category, style, imgHash);
          outcome := Stored(fileUrl);
        case Raised(e) =>
          outcome := UploadFailed(e);
    }

    /**
     * The outfit page: the styled lists, then the unfiltered ones (either read
     * may raise), then one pick per category.
     */
    method SuggestOutfit(style: string) returns (r: Result<map<string, string>, ScanError>)
      ensures r.Ok? <==> Collect(Records(cells), None).Ok?
      ensures r.Err? && Collect(Records(cells), Some(style)).Err? ==>
        r.error == Collect(Records(cells), Some(style)).error
      ensures r.Err? && Collect(Records(cells), Some(style)).Ok? ==>
        r.error == Collect(Records(cells), None).error
      ensures r.Ok? ==> forall c :: c in r.value <==> c in Categories && UrlsIn(Records(cells), None, c) != []
      ensures r.Ok? ==> forall c :: c in r.value ==>
        if UrlsIn(Records(cells), Some(style), c) != [] then r.value[c] in UrlsIn(Records(cells), Some(style), c)
        else r.value[c] in UrlsIn(Records(cells), None, c)
    {
      var rows := LoadAllMetadata();
      var items := LoadItems(Some(style));
      if items.Err? {
        UnfilteredFailsWhenFilteredFails(rows, Some(style));
        return Err(items.error);
      }
      var fallback := LoadItems(None);
      if fallback.Err? {
        return Err(fallback.error);
      }
      CollectGroups(rows, Some(style));
      CollectGroups(rows, None);
      var outfit := PickOutfit(items.value, fallback.value);
      forall c | c in Categories && items.value[c] != []
        ensures fallback.value[c] != []
      {
        FilteredWithinUnfiltered(rows, Some(style), c, items.value[c][0]);
      }
      r := Ok(outfit);
    }
  }

  // ---------------------------------------------------------------- properties of check-and-store

  /** A hit reports the URL of the first row with the image's hash and writes nothing. */
  lemma DuplicateReportsFirstMatch(cells: seq<Row>, sha256: Bytes -> Digest, img: Bytes, category: string,
                                   style: string, outcomes: seq<Attempt>)
    requires DefaultRetry < |outcomes|
    requires CheckAndStore(cells, sha256, img, category, style, outcomes).0.Duplicate?
    ensures CheckAndStore(cells, sha256, img, category, style, outcomes).1 == cells
    ensures var rows, h, u := Records(cells), GetImageHash(sha256, img),
                              CheckAndStore(cells, sha256, img, category, style, outcomes).0.url;
      exists i :: 0 <= i < |rows| && |rows[i]| == 4 && Hash(rows[i]) == h && Url(rows[i]) == u &&
        PassedBefore(rows, h, i)
  {
    var h := GetImageHash(sha256, img);
    FindHashFound(Records(cells), h, CheckAndStore(cells, sha256, img, category, style, outcomes).0.url);
  }

  /**
   * A miss followed by a successful upload appends exactly the row
   * (url, category, style, hash), where no earlier row had the hash and the
   * URL is the view URL of the first attempt that got through.
   */
  lemma StoredAppendsOneRow(cells: seq<Row>, sha256: Bytes -> Digest, img: Bytes, category: string,
                            style: string, outcomes: seq<Attempt>)
    requires DefaultRetry < |outcomes|
    requires CheckAndStore(cells, sha256, img, category, style, outcomes).0.Stored?
    ensures var u := CheckAndStore(cells, sha256, img, category, style, outcomes).0.url;
      && CheckAndStore(cells, sha256, img, category, style, outcomes).1 ==
           cells + [[u, category, style, GetImageHash(sha256, img)]]
      && PassedBefore(Records(cells), GetImageHash(sha256, img), |Records(cells)|)
      && exists k :: 0 <= k <= DefaultRetry && outcomes[k].Created? && u == ViewUrl(outcomes[k].fileId) &&
           forall j :: 0 <= j < k ==> !outcomes[j].Created?
  {
    FindHashNotFound(Records(cells), GetImageHash(sha256, img));
    UploadReturnsFirstSuccess(outcomes, DefaultRetry);
  }

  /** When every upload attempt fails the sheet is left as it was, and no row had the hash. */
  lemma UploadFailureWritesNothing(cells: seq<Row>, sha256: Bytes -> Digest, img: Bytes, category: string,
                                   style: string, outcomes: seq<Attempt>)
    requires DefaultRetry < |outcomes|
    ensures CheckAndStore(cells, sha256, img, category, style, outcomes).0.UploadFailed? <==>
      && FindHash(Records(cells), GetImageHash(sha256, img)) == Ok(NotFound)
      && forall k :: 0 <= k <= DefaultRetry ==> !outcomes[k].Created?
    ensures !CheckAndStore(cells, sha256, img, category, style, outcomes).0.Stored? ==>
      CheckAndStore(cells, sha256, img, category, style, outcomes).1 == cells
  {
    UploadRaisesLastError(outcomes, DefaultRetry);
  }

  /**
   * Submitting the same image again after it was stored finds the stored row:
   * the second pass reports a duplicate with the first pass's URL and writes
   * nothing, whatever category, style and upload outcomes it is given.
   */
  lemma ResubmitIsDuplicate(cells: seq<Row>, sha256: Bytes -> Digest, img: Bytes,
                            category1: string, style1: string, outcomes1: seq<Attempt>,
                            category2: string, style2: string, outcomes2: seq<Attempt>)
    requires DefaultRetry < |outcomes1| && DefaultRetry < |outcomes2|
    requires cells != []
    requires CheckAndStore(cells, sha256, img, category1, style1, outcomes1).0.Stored?
    ensures var (first, after) := CheckAndStore(cells, sha256, img, category1, style1, outcomes1);
      CheckAndStore(after, sha256, img, category2, style2, outcomes2) == (Duplicate(first.url), after)
  {
    var (first, after) := CheckAndStore(cells, sha256, img, category1, style1, outcomes1);
    var h := GetImageHash(sha256, img);
    var row := [first.url, category1, style1, h];
    assert after == cells + [row];
    RecordsAfterAppend(cells, row);
    FindHashAfterAppend(Records(cells), row, h);
  }

  /**
   * On a sheet without a header row, the first image stored becomes the
   * header: submitting it again does not find it.
   */
  lemma HeaderlessSheetForgetsFirstItem(sha256: Bytes -> Digest, img: Bytes, category: string, style: string,
                                        outcomes1: seq<Attempt>, outcomes2: seq<Attempt>)
    requires DefaultRetry < |outcomes1| && DefaultRetry < |outcomes2|
    requires CheckAndStore([], sha256, img, category, style, outcomes1).0.Stored?
    ensures var after := CheckAndStore([], sha256, img, category, style, outcomes1).1;
      !CheckAndStore(after, sha256, img, category, style, outcomes2).0.Duplicate?
  {
    var after := CheckAndStore([], sha256, img, category, style, outcomes1).1;
    RecordsAfterAppend([], after[0]);
    assert after == [] + [after[0]];
  }

  /** On a valid sheet neither reader raises. */
  lemma ValidSheetReadsCleanly(cells: seq<Row>, filter: Option<string>, h: string)
    requires ValidSheet(cells)
    ensures Collect(Records(cells), filter).Ok?
    ensures FindHash(Records(cells), h).Ok?
  {
    CollectOkIff(Records(cells), filter);
    FindHashFails(Records(cells), h);
  }

  /**
   * Storing one of the fixed categories keeps the sheet valid: in particular a
   * sequence of check-and-store passes never stores the same hash twice.
   */
  lemma CheckAndStorePreservesValidSheet(cells: seq<Row>, sha256: Bytes -> Digest, img: Bytes, category: string,
                                         style: string, outcomes: seq<Attempt>)
    requires DefaultRetry < |outcomes|
    requires ValidSheet(cells) && category in Categories
    ensures ValidSheet(CheckAndStore(cells, sha256, img, category, style, outcomes).1)
  {
    var (outcome, after) := CheckAndStore(cells, sha256, img, category, style, outcomes);
    if outcome.Stored? {
      var h := GetImageHash(sha256, img);
      var row := [outcome.url, category, style, h];
      var rows := Records(cells);
      FindHashNotFound(rows, h);
      RecordsAfterAppend(cells, row);
      assert Records(after) == rows + [row];
      assert Records(after)[|rows|] == row;
      assert forall i :: 0 <= i < |rows| ==> Records(after)[i] == rows[i];
    }
  }
}
