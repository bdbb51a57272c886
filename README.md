# Closet catalog: deduplicated image store over a metadata sheet

This project models the logic of the "Mix & Match Anti-Duplicate" closet app
(`app.py`) and proves properties of that model in Dafny. Users photograph a
clothing item. The app hashes the PNG bytes with SHA-256 and looks the hash up
in a Google Sheet. When the hash is new, the app uploads the image to Google
Drive and appends a row `(url, category, style, hash)` to the sheet. The same
sheet is then read back to list the closet by category and to suggest an
outfit.

Modules:

- `Wrappers` (`wrappers.dfy`): `Option` and `Result`. `Result` carries the
  exception the Python code would raise.
- `ImageHash` (`image_hash.dfy`): `get_image_hash`. SHA-256 is a parameter
  (`sha256: Bytes -> Digest`, 32 bytes). `hexdigest()` is modelled exactly, as
  64 lower-case hexadecimal characters, with its inverse.
- `DriveUpload` (`drive_upload.dfy`): the retry loop of `upload_to_drive`. The
  Drive client is replaced by a sequence saying what each attempt meets: the
  create step fails, the permission step fails, or both succeed with a file id.
- `Metadata` (`metadata.dfy`): the sheet's rows and the functions that specify
  `load_all_metadata`, `load_items` and `is_duplicate_image`, with their lemmas.
- `Closet` (`catalog.dfy`): class `Catalog`. Its field `cells` holds every row
  of the sheet, header included. `LoadItems` and `IsDuplicateImage` are loops
  proved equal to `Collect` and `FindHash`; `LoadAllMetadata` and
  `SaveItemToSheet` state the scan and the new sheet directly. The module also
  has the upload page's check-and-store sequence (`StoreImage`, specified by
  `CheckAndStore`) and the outfit page (`SuggestOutfit`, `PickOutfit`).

Behaviour as the code has it:

- Malformed rows are not skipped. Both readers unpack every row they reach into
  exactly four fields, so a row of any other length raises (`WrongFieldCount`).
- `load_items` also raises on a row that passes the style filter and whose
  category is not one of `CATEGORIES` (`UnknownCategory`). A row that the filter
  drops is never looked up, so it cannot raise this error.
- `is_duplicate_image` stops at the first row with the hash. Rows after it are
  never unpacked.
- The style filter is a truthiness test: both `None` and `""` select every row.
- With a negative `retry`, `upload_to_drive` makes no attempt and returns
  `None`. The upload page always uses the default `retry=2`, so this case
  cannot reach it.
- `load_all_metadata` drops the first row of the sheet whatever that row holds.
  On a sheet with no header row, the first image stored takes the header's
  place and is never found again (`HeaderlessSheetForgetsFirstItem`). The proof
  that re-submitting an image finds it needs a header row.

## Model

| member | source | states |
|---|---|---|
| ImageHash.GetImageHash | app.py:20-21 | the image hash is 64 lower-case hexadecimal characters |
| ImageHash.HexDigest | app.py:21 | hexdigest spells a digest in two hexadecimal digits per byte |
| ImageHash.UnhexHexDigest | app.py:21 | reading the hexdigest back gives the digest: no two digests share a spelling |
| ImageHash.HexDigestUnhex | app.py:21 | every even-length lower-case hexadecimal string is the hexdigest of the bytes it spells |
| ImageHash.SameHashIffSameDigest | app.py:20-21 | two images get equal hash strings if and only if SHA-256 gives them equal digests |
| DriveUpload.UploadToDrive | app.py:33-66 | the retry loop returns exactly what the specification function `Upload` gives for the same attempt outcomes and retry count |
| DriveUpload.RunFromSpec | app.py:39-66 | from any attempt on: the attempt count stays within bounds, every earlier attempt failed, None is never returned, a returned URL belongs to the last attempt made, a raise happens only at the last allowed attempt |
| DriveUpload.AttemptBound | app.py:39 | at most retry + 1 attempts are made; at least one when retry >= 0 and none when retry < 0 |
| DriveUpload.NegativeRetryReturnsNone | app.py:39-66 | the upload returns None if and only if retry is negative |
| DriveUpload.UploadReturnsFirstSuccess | app.py:39-61 | a URL is returned if and only if one of the first retry + 1 attempts got through both steps; the URL is the view URL of the first such attempt, after which nothing else is attempted |
| DriveUpload.UploadRaisesLastError | app.py:63-65 | an error is raised if and only if retry >= 0 and all retry + 1 attempts failed; then all of them were made and the last one's error is raised |
| DriveUpload.ViewUrlRoundTrip | app.py:52-60 | a stored URL is the fixed view prefix followed by the file id, the id can be read back from it, and it is never empty |
| DriveUpload.SuccessOnThirdAttempt | app.py:33-66 | two failures then a success: with retry 2 the third attempt succeeds; with retry 1 the second error is raised after two attempts |
| Metadata.RecordsAfterAppend | app.py:79-87 | appending to a sheet that has a header adds exactly that row at the end of the scan; on an empty sheet the appended row is taken as the header |
| Metadata.EmptyGroups | app.py:92 | the starting table has exactly the fixed categories as keys, each with an empty list |
| Metadata.CollectKeys | app.py:92-99 | whatever the rows, a table load_items returns has exactly the fixed categories as keys |
| Metadata.EmptyTableGivesEmptyLists | app.py:90-99 | no rows give every category an empty list |
| Metadata.CollectOkIff | app.py:94-97 | load_items succeeds if and only if every row has four cells and every row that passes the filter has a known category |
| Metadata.CollectFailsAtFirstBadRow | app.py:94-97 | when load_items raises, it raises the error of the first offending row, and all rows before it are fine |
| Metadata.CollectErrorPersists | app.py:94-97 | once load_items has raised on some row, the rows after it do not change the result |
| Metadata.UrlsInAppend | app.py:94-97 | the list of a category over two row ranges is the first range's list followed by the second's: the lists keep table order |
| Metadata.CollectGroups | app.py:94-97 | on success, each category's list is exactly the URLs of the rows of that category passing the filter, in table order |
| Metadata.UrlsInSound | app.py:94-97 | every URL listed under a category comes from a row of that category that passes the filter |
| Metadata.UrlsInComplete | app.py:94-97 | every row that passes the filter has its URL listed under its own category |
| Metadata.UnfilteredListsEveryRow | app.py:94-97 | without a filter, every row's URL is listed under its own category |
| Metadata.FilteredWithinUnfiltered | app.py:95-97 | a URL listed for a style is also listed, under the same category, without the filter |
| Metadata.UnfilteredFailsWhenFilteredFails | app.py:95-97 | if the styled read raises, the unfiltered read raises too |
| Metadata.FindHashFound | app.py:103-107 | the lookup returns (True, u) if and only if some row has the hash with URL u, and every row before it has four cells and a different hash |
| Metadata.FindHashNotFound | app.py:103-108 | the lookup returns (False, None) if and only if every row has four cells and no row has the hash |
| Metadata.FindHashFails | app.py:104-105 | the lookup raises, always a wrong-field-count error, if and only if a row without four cells comes before any row with the hash |
| Metadata.FindHashAfterAppend | app.py:103-108 | after a lookup that found nothing, the lookup over the rows plus one more row depends on that last row alone |
| Closet.PickOutfit | app.py:198-204 | an outfit has exactly the categories whose styled or unfiltered list is non-empty; each pick is from the styled list when it is non-empty, otherwise from the unfiltered list |
| Closet.Catalog.LoadAllMetadata | app.py:84-87 | the scan returns every row of the sheet except the first |
| Closet.Catalog.SaveItemToSheet | app.py:79-81 | appending adds the row (url, category, style, hash) at the end and changes nothing else |
| Closet.Catalog.LoadItems | app.py:90-99 | the loop returns exactly what `Collect` gives for the scanned rows and the filter, including which error is raised |
| Closet.Catalog.IsDuplicateImage | app.py:103-108 | the loop with early return gives exactly what `FindHash` gives for the scanned rows |
| Closet.Catalog.StoreImage | app.py:145-165 | the upload page's outcome and the sheet after it are exactly what `CheckAndStore` gives for the sheet before it |
| Closet.Catalog.SuggestOutfit | app.py:193-204 | the outfit page fails if and only if the unfiltered read fails, and reports the first read's error; otherwise the keys are exactly the categories with a non-empty unfiltered list, and each pick comes from the styled list if that is non-empty, else from the unfiltered list |
| Closet.DuplicateReportsFirstMatch | app.py:148-152 | a duplicate hit reports the URL of the first row with the image's hash and writes nothing |
| Closet.StoredAppendsOneRow | app.py:153-162 | a store appends exactly one row (url, category, style, hash); no earlier row had the hash; the URL is the view URL of the first attempt that got through |
| Closet.UploadFailureWritesNothing | app.py:157-165 | the upload fails if and only if the hash was new and every allowed attempt failed; every outcome other than a store leaves the sheet unchanged |
| Closet.ResubmitIsDuplicate | app.py:145-165 | on a sheet with a header, submitting an image again after it was stored reports a duplicate carrying the first URL and writes nothing |
| Closet.HeaderlessSheetForgetsFirstItem | app.py:81-86 | on a sheet with no rows, the first image stored is not found when it is submitted again |
| Closet.ValidSheetReadsCleanly | app.py:94-107 | on a sheet of well-formed rows, neither load_items nor the duplicate lookup raises |
| Closet.CheckAndStorePreservesValidSheet | app.py:145-165 | storing a fixed category keeps the sheet valid: well-formed rows with pairwise distinct hashes |

## Left out

- The Streamlit user interface: page routing, widgets, columns and image display (app.py:13, app.py:112-211).
- Decoding with PIL and re-encoding as PNG (app.py:135-143). These are library calls, so the PNG bytes are an input.
- SHA-256 itself (app.py:21). It is a parameter of the model, a total deterministic function that returns 32 bytes.
- The Google Drive, Sheets and gspread clients and the credentials (app.py:25-30, app.py:46-58, app.py:70-76).
  - The sheet is the `cells` field.
  - Each upload attempt's outcome is given in advance. The caller must supply one for every allowed attempt.
  - Reading and appending rows are taken to succeed. A network failure of `append_row` after a successful upload is not modelled.
  - Padding by gspread of short rows to the sheet's width is not modelled. Rows are taken as stored.
- Files left behind on Drive are not tracked. When the create step succeeds and the permission step raises, the retry makes a new file. `PermissionFailed` records the left-behind file's id, but no lemma is about it.
- `time.sleep(1)` between attempts (app.py:66): it is timing only.
- The random suffix of the Drive file name (app.py:155): the name only labels the object on Drive.
- `random.choice` (app.py:202-204): an arbitrary choice (`:|`) with no distribution.
- The commented-out local-file revision (app.py:213-342): it is never executed.
- Races between independent sessions writing the same sheet. The model is sequential, so its distinct-hash invariant holds only when one writer runs at a time.
- The display order of the outfit (Python dict insertion order): the outfit is a map.
- The path where `upload_to_drive` returns `None` and `None` is then saved: the upload page always passes retry 2, so `CheckAndStore` has no such branch.
