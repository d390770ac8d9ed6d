# Hotel menu catalog — a Dafny model

This project models the logic of a Django application that keeps hotel menus. It covers:

- **Ingestion.** Spreadsheet uploads arrive through the web form (`upload_xlsx_view`) and the token API (`UploadMenuAPI` with `import_xlsx_to_db`). The model includes:
  - the `.xlsx` name gate and the derivation of the hotel name from the file name;
  - header normalisation and alias lookup;
  - the per-row mapping and the category tokens, with their case-insensitive reuse;
  - the replacement of a hotel's items;
  - the upsert/merge rule of the import;
  - the hotel logo.
- **The image download decision** (`download_image`). The HTTP reply is an abstract value: unreachable, or a status, content type and write outcome. The model includes the early rejections, the extension table, the file name and the relative path.
- **The catalog mutations.** These are visibility toggle, setting or clearing the auto or manual category, case-insensitive creation of a manual category, single delete, and bulk delete with its counter.
- **The read side.** This covers:
  - the unified dish listing, one entry per trimmed name with one hotel entry per item;
  - the hotel menu page, grouped under each item's first category or `"Uncategorized"`;
  - the page count;
  - the random-sample decision;
  - the serializers: image and logo precedence, the two category lists, and the visible-only hotel menu.
- **The schema constraints and the hotel form.** The constraints are unique hotel names, unique category and manual-category names, a unique `(hotel, item_name)` pair, visibility defaulting to true, and the cascade on hotel delete. The form is `HotelForm.clean_name`.

The database is a value `Schema.Store` with five parts: hotels, items, categories, manual categories and a next-key counter. `Schema.Valid` states the model constraints, plus "every link names an existing row" and "every key is below the counter".

Each endpoint is a function from store to store. Its properties are proved as lemmas, the chief one being that `Valid` is preserved. The class `Catalog.Catalog` holds the same tables as fields. Its methods update those fields in place. Each method carries the loops of the source:
- the bulk-delete counter;
- the category loop of a row;
- the web and import row loops.

Each method's contract ties its new state and reply to the function on `Store`. The two grouping loops of the listing are `Listing.GroupBy`, and the field loop of the merge is `Importer.MergeFields`. Both are proved against their fold functions.

Foreign code is passed in as function-typed parameters, bundled in `Upload.Env`:
- `slugify` (any function whose results consist of `[a-z0-9-]`);
- `float()` on a cell;
- the network fetch.

The store stands in for the database. Primary keys come from one counter; rows read "in database order" are taken in ascending key order.

## Model

| member | source | states |
|---|---|---|
| FileNames.UpperCaseExtensionPasses | menuapp/views.py:91-93 | the gate compares the lower-cased name against `.xlsx`, so `X.XLSX` is accepted |
| FileNames.WebHotelNameAfterLastPrefix | menuapp/views.py:96-101 | with `menu_data_` in the name, the hotel name is the text after its last occurrence, with `.xlsx` removed and stripped; without it, the whole name with `.xlsx` removed and stripped |
| FileNames.WebHotelNameOfPlainFile | menuapp/views.py:99-101 | `base.xlsx` without the prefix and without dots gives `strip(base)` |
| FileNames.WebHotelNameOfPrefixed | menuapp/views.py:97-98 | `menu_data_` + b gives b with `.xlsx` removed and stripped |
| FileNames.WebKeepsUpperCaseExtension | menuapp/views.py:91-101 | an accepted `menu_data_b.XLSX` keeps `.XLSX` in the web hotel name, because the replace is case-sensitive |
| FileNames.ApiCutsExtension | menuapp/views.py:486 | `splitext` cuts the five-character extension of an accepted name |
| FileNames.SplitExtRejoins | menuapp/views.py:486 | the root and the extension `splitext` returns put back together give the name |
| FileNames.DotlessBaseHasNoSuffix | menuapp/views.py:493-495 | a file saved in the upload directory under a name without a dot has no extension |
| FileNames.KeptExtension | menuapp/views.py:493-495 | a file saved as `<stem>.xlsx`, the stem free of slashes and not starting with a dot, has the extension `.xlsx` in any case |
| FileNames.ApiHotelNameNonEmpty | menuapp/views.py:486-489 | the API hotel name of a non-empty file name is never empty (fallback to the root) |
| FileNames.ApiOfPrefixedUpperCase | menuapp/views.py:486-489 | the API gives `b` for `menu_data_b.XLSX` |
| FileNames.UpperCaseExtensionDivergence | menuapp/views.py:96-101 | for the same accepted `menu_data_b.XLSX`, the web view names the hotel `b.XLSX` and the API names it `b` |
| Headers.WebHeaders | menuapp/views.py:130 | the web header list is no longer than the header row (empty cells dropped) |
| Headers.TruthyColumns | menuapp/views.py:130 | every listed column is a column of the header row holding a truthy cell |
| Headers.TruthyColumnsOrdered | menuapp/views.py:130 | the truthy columns are listed in strictly increasing order, and every truthy column is listed |
| Headers.WebHeadersCompacts | menuapp/views.py:130 | the web header list is the import header list with the falsy cells' entries removed, in order: its `p`-th entry is the entry of the `p`-th truthy column |
| Headers.ImportHeaders | menuapp/views.py:391 | the import header list has one entry per cell: the normalised text, or `''` for a falsy cell |
| Headers.IndexOf | menuapp/views.py:134 | `list.index`: none iff absent, else the first position holding the value |
| Headers.FindCol | menuapp/views.py:132-136 | none iff no alias occurs; otherwise the first position of the first alias, in list order, that occurs |
| Headers.ImportColumnIsAligned | menuapp/views.py:391-403 | a column the import finds is the sheet column whose normalised header is one of the aliases |
| Headers.BlankHeaderShiftsWebColumns | menuapp/views.py:130-144 | a blank first header cell leaves the web header list and all six resolved positions unchanged, so they are counted in the compacted list |
| Headers.WebHeadersWithoutBlanks | menuapp/views.py:130 | without falsy header cells the two header lists coincide |
| Rows.RowName | menuapp/views.py:165-168 | a row is used iff the name column is resolved and the raw name cell is truthy; the name is then the stripped text |
| Rows.BlankNameIsKept | menuapp/views.py:165-168 | a whitespace-only name cell passes the test and becomes `""` |
| Rows.Price | menuapp/views.py:171-176 | no price column or an empty cell gives no price; otherwise the price is the result of `float()` |
| Rows.Tokens | menuapp/views.py:183 | dropping empty pieces never adds tokens |
| Rows.TokensConcat | menuapp/views.py:183 | the tokens of two runs of pieces are the tokens of the first followed by those of the second |
| Rows.TokensOfPiece | menuapp/views.py:183 | one piece gives its stripped text as a token iff that text is non-empty |
| Rows.CategoryTokensAreTokens | menuapp/views.py:179-183 | every category token is non-empty, stripped and free of commas |
| Rows.TokensRoundTrip | menuapp/views.py:179-183 | joining clean tokens with `,` and splitting them back gives the same tokens |
| Rows.WebText | menuapp/views.py:189-195 | a web text field is present iff its cell is non-empty, and is then the stripped text |
| Rows.ReadWebRow | menuapp/views.py:163-195 | a web row is read iff its name is; its fields are name, price, category tokens, description and image URL as above |
| Rows.ImportText | menuapp/views.py:420-422 | an import text field is present iff its cell is truthy, and is then the stripped text |
| Rows.ReadImportRow | menuapp/views.py:407-422 | an import row is read iff its name is; its fields are as above |
| Rows.EmptyTextCell | menuapp/views.py:189-190 | an empty-string cell gives `""` in the web upload but nothing in the import |
| ImageFetch.Extension | menuapp/utils.py:32-39 | jpg when the content type mentions jpeg or jpg; otherwise png if it mentions png; otherwise gif if it mentions gif; otherwise jpg. Each of the four cases is stated as an implication |
| ImageFetch.LastSegment | menuapp/utils.py:47 | the last `/`-separated segment contains no `/`, and it is either the whole URL or what follows some `/` of it |
| ImageFetch.Download | menuapp/utils.py:11-23 | an empty URL, an unreachable URL or a 4xx/5xx status gives no file |
| ImageFetch.DownloadOutcome | menuapp/utils.py:11-61 | a path comes back iff the URL is non-empty, the reply arrives with a status outside 400-599 and an image content type, and the write succeeds; the path is then `menu_images/<slug>/<slugified last segment or slugified hotel name>.<ext>` |
| ImageFetch.StoredFileIsImage | menuapp/utils.py:26-29 | a stored file always came with a content type that contains `image` |
| Schema.EmptyIsValid | menuapp/models.py:6-62 | the empty database meets every constraint |
| Schema.DownloadFolderIsUploadFolder | menuapp/models.py:35-39 | the folder `download_image` writes to is `hotel_image_upload_path`'s folder whenever the slug is non-empty |
| Schema.DeleteHotelCascades | menuapp/models.py:28 | deleting a hotel removes all of its items, keeps every other item, and keeps the constraints |
| Lookup.GetOrCreateIexact | menuapp/views.py:185 | `get_or_create(name__iexact=…)`: two case-insensitive matches fail; one is reused unchanged; none creates a row with the given spelling under the next key |
| Lookup.GetOrCreateKeepsUnique | menuapp/models.py:17 | the lookup keeps names unique and leaves existing rows as they were |
| Lookup.GetOrCreateIdempotent | menuapp/views.py:185 | a second lookup of the same name finds what the first made or found |
| Lookup.CaseInsensitiveReuse | menuapp/views.py:185 | a stored name that equals the token ignoring case is reused |
| Lookup.AtMostOneHotelNamed | menuapp/models.py:7 | unique hotel names mean at most one hotel per exact name |
| Lookup.GetOrCreateHotel | menuapp/views.py:103 | the hotel returned bears the name; it is new (next key, no logo) iff no hotel has exactly that name; items and categories are untouched |
| Lookup.GetOrCreateHotelValid | menuapp/views.py:103 | getting or creating the hotel keeps the constraints |
| Upload.ResolveCategory | menuapp/views.py:185 | one category lookup on the categories table |
| Upload.ResolveTokens | menuapp/views.py:184-186 | the loop yields at most one key per token, and exactly one per token when no lookup failed |
| Upload.ResolveTokensStops | menuapp/views.py:184-186 | once a lookup has raised, the later tokens are not looked at |
| Upload.ResolveTokensFacts | menuapp/views.py:184-186 | the loop keeps the constraints, only adds categories, and each key names a category equal to its token ignoring case |
| Upload.CreateItem | menuapp/views.py:202-209 | an item is inserted under the next key iff the hotel has no item of that name; otherwise nothing changes |
| Upload.CreateItemFacts | menuapp/models.py:47 | creation keeps the constraints, including the unique `(hotel, item_name)` pair |
| Upload.RowItem | menuapp/views.py:197-211 | the created item belongs to the hotel, bears the row's name, is visible, links the resolved categories, and has no manual categories |
| Upload.UploadRowFacts | menuapp/views.py:163-214 | a row keeps the constraints and only adds rows, and any new item belongs to the hotel |
| Upload.UploadRowsFacts | menuapp/views.py:163-214 | so does the whole row loop |
| Upload.RepeatedNameIsSkipped | menuapp/views.py:202-214 | a row that repeats a name already present for the hotel changes no item |
| Upload.Logo | menuapp/views.py:147-157 | the logo step changes at most the logo of that hotel |
| Upload.SetLogo | menuapp/views.py:153-155 | the logo is set only when a file was stored |
| Upload.LogoValid | menuapp/views.py:147-157 | the logo step keeps the constraints |
| Upload.ReplaceItemsFacts | menuapp/views.py:159-214 | after clearing and loading, none of the hotel's earlier items remain, other hotels' items are kept, and every item of the hotel is new |
| Upload.UploadFacts | menuapp/views.py:85-214 | a missing or non-xlsx file changes nothing; an upload keeps the constraints, names the hotel after the file, and replaces only that hotel's items |
| Upload.UploadRowInserts | menuapp/views.py:202-209 | a read row whose categories resolve and whose name the hotel lacks adds its item under the next key, after the category step |
| Upload.UploadRowStep | menuapp/views.py:164-214 | one row leaves the items as they were or inserts one item of the hotel under a key at least the old counter and below the new one |
| Upload.UploadRowsInserts | menuapp/views.py:163-214 | the row loop's items are the old items updated by its insertions, at increasing keys in row order |
| Upload.ApplyFacts | menuapp/views.py:163-214 | after the insertions the keys are the old keys plus the inserted ones; each inserted key holds its item; other keys keep theirs |
| Upload.ReplacedItemsAreInserted | menuapp/views.py:159-214 | after clearing and the row loop, the hotel's items are exactly the inserted ones, each under its key, in row order |
| Upload.LoadCreatesRows | menuapp/views.py:147-214 | after the logo, the clearing and the row loop, the hotel holds exactly the items its qualifying rows created |
| Upload.UploadCreatesRows | menuapp/views.py:85-214 | after a web upload, the hotel holds exactly the items its qualifying rows created, at increasing keys in row order |
| Importer.Assign | menuapp/views.py:449 | `setattr` changes the one field and nothing else |
| Importer.MergeFields | menuapp/views.py:441-452 | the `changed` loop computes the merge: see the next row |
| Importer.MergeFacts | menuapp/views.py:441-452 | the merge raises iff a key that is not a field has a truthy value; otherwise a field is overwritten iff its key is offered a truthy value, and `changed` holds iff some such value differed |
| Importer.UnchangedMergeKeepsItem | menuapp/views.py:451-452 | an unchanged merge leaves the item as it was |
| Importer.Defaults | menuapp/views.py:428-437 | the item created takes the offered value of each field named by a key, starts visible, and has no category links |
| Importer.ImportRecordCreates | menuapp/views.py:428-456 | an item is created iff the hotel has none of that name and every key is a field; a refused creation changes nothing |
| Importer.ImportRecordFacts | menuapp/views.py:428-456 | a record keeps the constraints, touches only that hotel's items, and adds exactly one item when it creates |
| Importer.ImportRowsFacts | menuapp/views.py:405-460 | `rows_processed` counts every row, skipped ones included; the hotel gains exactly `items_created` items |
| Importer.ImportFacts | menuapp/views.py:380-460 | the import keeps the constraints, processes every row, leaves the hotel with exactly `items_created` items, all new, and keeps other hotels' items |
| Importer.RepeatedNameMerges | menuapp/views.py:428-454 | a row whose name the hotel already has never counts as created |
| Importer.WrittenKeysCreateNothing | menuapp/views.py:428-437 | with the `defaults` as written (a `category` key), the import creates no item at all |
| Importer.CorrectedKeysCreate | menuapp/views.py:428-437 | without the `category` key, a row with a new name creates its item |
| Importer.ApiUploadFacts | menuapp/views.py:477-502 | for any field map and saved name, the API upload changes nothing unless it imports; it then names the hotel from the file and reports the number of items the hotel now has |
| Importer.LoadWorkbook | menuapp/views.py:382 | the workbook opens iff the path has an extension openpyxl accepts and the bytes hold a sheet |
| Importer.ApiImportFacts | menuapp/views.py:380-460 | the import of the saved copy keeps the constraints; a copy that does not load is a server error and changes nothing; otherwise the reply counts the hotel's items |
| Importer.WrittenKeysApiImportsNothing | menuapp/views.py:428-437 | with the field map as written, an API upload that imports reports 0 items and leaves the hotel empty |
| Importer.SlugOfNameNeverImports | menuapp/views.py:495-501 | with the copy saved under `slugify(file.name)`, every accepted upload is a server error and the database is unchanged |
| Importer.SavedPathAccepted | menuapp/views.py:495 | the corrected saved name passes openpyxl's extension check |
| Importer.KeepExtensionImports | menuapp/views.py:495-501 | with the corrected saved name, an accepted upload whose workbook opens is imported under the API hotel name |
| Mutations.Toggle | menuapp/views.py:628-636 | the reply is "not found" iff the key is missing |
| Mutations.ToggleFacts | menuapp/views.py:628-636 | a missing item changes nothing; otherwise only that item's visibility changes, to the truthiness of `visible` (default true), and the constraints are kept |
| Mutations.ToggleIdempotent | menuapp/views.py:628-636 | sending the same toggle twice equals sending it once |
| Mutations.CreateManualCategory | menuapp/views.py:643-651 | the reply is the empty-name error iff the stripped name is empty; otherwise the stripped name is looked up |
| Mutations.RegisterManualFacts | menuapp/views.py:647-651 | a category is created, under that spelling and the next key, iff none matches ignoring case; a single match is reported; only the manual table changes; constraints kept |
| Mutations.RegisterManualIdempotent | menuapp/views.py:647 | repeating the request reports the existing category |
| Mutations.CreateManualIgnoresPadding | menuapp/views.py:643 | surrounding whitespace does not change the outcome |
| Mutations.KeyOf | menuapp/views.py:664 | a category id is usable as a key only as an integral number |
| Mutations.UpdateCategory | menuapp/views.py:675-677 | a missing item fails and changes nothing |
| Mutations.UpdateCategoryFacts | menuapp/views.py:655-677 | only one link set of one item changes: set to the one row when the id is truthy and exists, cleared when falsy; a missing row fails and changes nothing; another `type` changes nothing; constraints kept |
| Mutations.DeleteItem | menuapp/views.py:682-694 | the reply is success iff the item exists; exactly that item is removed and nothing else changes |
| Mutations.RemoveItemsValid | menuapp/views.py:692 | deleting items keeps the constraints |
| Mutations.BulkDeleteStore | menuapp/views.py:700-715 | the bulk delete removes exactly the requested items and changes nothing else |
| Mutations.BulkDeleteCount | menuapp/views.py:700-715 | the count is the number of distinct requested keys that named an item, which is at most the number of keys sent |
| Catalog.Catalog.constructor | menuapp/models.py:6-62 | an empty database that meets the constraints |
| Catalog.Catalog.Toggle | menuapp/views.py:628-636 | new tables and reply equal `Mutations.Toggle` of the old tables; constraints kept |
| Catalog.Catalog.UpdateCategory | menuapp/views.py:655-677 | new tables and reply equal `Mutations.UpdateCategory`; constraints kept |
| Catalog.Catalog.CreateManualCategory | menuapp/views.py:643-651 | new tables and reply equal `Mutations.CreateManualCategory`; constraints kept |
| Catalog.Catalog.Register | menuapp/views.py:647-651 | the manual table, key counter and reply after the case-insensitive `get_or_create` equal `Mutations.RegisterManual`; constraints kept |
| Catalog.Catalog.DeleteItem | menuapp/views.py:682-694 | new tables and reply equal `Mutations.DeleteItem`; constraints kept |
| Catalog.Catalog.BulkDelete | menuapp/views.py:700-715 | the loop with its counter leaves the tables and count of `Mutations.BulkDelete`; constraints kept |
| Catalog.Catalog.ResolveTokens | menuapp/views.py:184-186 | the category loop leaves the tables, keys and flag of `Upload.ResolveTokens` |
| Catalog.Catalog.CreateItem | menuapp/views.py:202-209 | inserts as `Upload.CreateItem` does |
| Catalog.Catalog.UploadRow | menuapp/views.py:164-214 | one web row, as `Upload.UploadRow` |
| Catalog.Catalog.UploadRows | menuapp/views.py:163-214 | the web row loop, as `Upload.UploadRows`; constraints kept |
| Catalog.Catalog.ImportRow | menuapp/views.py:407-458 | one import row, as `Importer.ImportRowStep` |
| Catalog.Catalog.ImportRecord | menuapp/views.py:428-456 | the get-or-create and merge, as `Importer.ImportRecord` |
| Catalog.Catalog.ImportRows | menuapp/views.py:405-460 | the import row loop with both counters, as `Importer.ImportRows`; constraints kept |
| Catalog.Catalog.GetOrCreateHotel | menuapp/views.py:103 | as `Lookup.GetOrCreateHotel` |
| Catalog.Catalog.ClearHotel | menuapp/views.py:160 | removes the hotel's items, as `Schema.ClearHotel` |
| Catalog.Catalog.Logo | menuapp/views.py:147-157 | as `Upload.Logo` |
| Catalog.Catalog.UploadXlsx | menuapp/views.py:85-214 | the whole web upload, as `Upload.Upload`; constraints kept |
| Catalog.Catalog.Import | menuapp/views.py:380-460 | the whole import, as `Importer.Import`; constraints kept |
| Catalog.Catalog.ApiUpload | menuapp/views.py:477-502 | the API upload, as `Importer.ApiUpload` for the same field map and saved name; constraints kept |
| Listing.GroupBy | menuapp/views.py:544-546 | the `defaultdict` loop computes `Group`, whose shape the next rows state |
| Listing.GroupShape | menuapp/views.py:544-546 | keys are distinct, in first-occurrence order, each with the non-empty run of items of that key in input order, and no other key has items |
| Listing.GroupTotal | menuapp/views.py:544-546 | the groups together hold exactly the input items |
| Listing.WithFacts | menuapp/views.py:546 | a group holds only items of its key, and is empty iff no item has that key |
| Listing.WithHead | menuapp/views.py:552 | a group's first item is the first input item with that key |
| Listing.VisibleItems | menuapp/views.py:532-538 | the listing reads exactly the visible items: each listed item is visible, every visible item is listed, and there are as many entries as visible items |
| Listing.DishImage | menuapp/views.py:565-567 | the dish image is the remote URL when non-empty, else `/media/` + the stored file, else none |
| Listing.HotelRefs | menuapp/views.py:555-559 | one hotel entry per item of the group, in order |
| Listing.UnifiedOnePerName | menuapp/views.py:544-570 | one dish per distinct trimmed name, and every item's trimmed name has a dish |
| Listing.UnifiedHotelCount | menuapp/views.py:544-570 | the hotel entries of all dishes number exactly the items listed |
| Listing.UnifiedDish | menuapp/views.py:549-570 | a dish's hotel list is its group's, and its name, price, description, image and manual categories come from the first item of that name |
| Listing.HotelItems | menuapp/views.py:67 | the hotel page reads exactly that hotel's items: each listed item is the hotel's, every item of the hotel is listed, and there are as many entries as the hotel has items |
| Listing.FirstCategoryName | menuapp/views.py:70-71 | `"Uncategorized"` without categories, else the least category name (categories are ordered by name) |
| Listing.HotelMenuSorted | menuapp/views.py:65-76 | section headings strictly ascend, and each section holds the non-empty run of the hotel's items filed under it |
| Listing.HotelMenuPage | menuapp/views.py:65-76 | the page is missing (404) iff the hotel is; otherwise it is the grouped menu |
| Listing.HotelMenuCovers | menuapp/views.py:68-72 | every item of the hotel appears under its first category name |
| Order.SortedNames | menuapp/models.py:20-21 | names in ascending order, each once, exactly the given set |
| Order.AscendingIsSortedNames | menuapp/models.py:20-21 | an ascending list of distinct names is the sorted list of its set |
| Paging.EffectiveSize | menuapp/views.py:509-511 | the page size served: a positive `page_size` capped at 50, else 15 |
| Paging.PageCountIsLeast | menuapp/views.py:509-514 | the corrected page count is the least number of pages of the served size that hold every dish |
| Paging.TotalPagesWithoutParameter | menuapp/views.py:514 | without `page_size`, `total_pages` is right |
| Paging.TotalPagesIgnoresPageSize | menuapp/views.py:514 | with 100 dishes and `page_size=50`, 2 pages are served but `total_pages` is 7 |
| Paging.RandomChoice | menuapp/views.py:610-619 | no items gives the empty list; a count at least the total gives every item; a smaller non-negative count samples that many; a negative count raises |
| Paging.RandomRequest | menuapp/views.py:612 | a `count` that is not an integer is a server error; a missing one is 10; otherwise the decision uses the integer given |
| Paging.RandomDefaultsToTen | menuapp/views.py:612-621 | without `count` the endpoint returns `min(total, 10)` items |
| Paging.RandomReturnsAtMostTotal | menuapp/views.py:612-621 | the endpoint never returns more items than it has, and returns exactly `count` when it has that many |
| Serializers.ItemImage | menuapp/serializers.py:16-31 | the stored file under the media URL first, then the remote URL as given, then the placeholder under the media URL |
| Serializers.ItemImageNeverEmpty | menuapp/serializers.py:30-31 | an item's image is never null or empty |
| Serializers.CategoryNames | menuapp/serializers.py:33-34 | exactly the linked categories' names, ascending |
| Serializers.ManualNames | menuapp/serializers.py:36-37 | exactly the linked manual categories' names, ascending |
| Serializers.CategoryListsIndependent | menuapp/serializers.py:33-37 | each list depends only on its own links and its own table |
| Serializers.LogoUrl | menuapp/serializers.py:47-52 | null exactly when the hotel has no logo, else the media URL + the logo path |
| Serializers.HotelDetailMenu | menuapp/serializers.py:70-73 | exactly the hotel's visible items, each once in key order, each entry the serialized view of its own item |
| Serializers.HotelViewOf | menuapp/serializers.py:40-52 | `menu_count` counts all the hotel's items, at least the visible ones; the logo is null iff there is none, and otherwise the media URL followed by the stored path; the id and name are the hotel's |
| Forms.CleanName | menuapp/forms.py:23-28 | the result is the trimmed name, rejected iff another hotel's name equals it ignoring case |
| Forms.EditedHotelExcluded | menuapp/forms.py:26 | editing hotel k validates as a new hotel would against all the other hotels |
| Forms.ResavingOwnNamePasses | menuapp/forms.py:26 | re-saving a hotel under its own name in any casing passes when no other hotel bears it |
| Forms.PaddingDoesNotEvade | menuapp/forms.py:25-26 | surrounding whitespace changes neither the verdict nor the name |
| Forms.AcceptedNameKeepsNamesUnique | menuapp/forms.py:23-28 | a name accepted for a new hotel keeps hotel names unique |
| Text.Strip | menuapp/views.py:168 | `str.strip()` leaves no whitespace at either end |
| Text.StripIgnoresPadding | menuapp/views.py:168 | whitespace padding does not change the stripped text |
| Text.Lower | menuapp/views.py:130 | `lower()` keeps the length and lowers each character |

## Left out

- Workbook loading is modelled only through openpyxl's extension check on the saved path (`Importer.LoadWorkbook`). The parsing itself, the pandas re-save fallback, and the writing and removal of temporary files are left out. A sheet is a header row plus data rows of cells. Bytes that do not open as a workbook are `None`.
- `os.makedirs` and the chunked write of the uploaded file are taken to succeed in both upload views. `MEDIA_ROOT` is the parameter `dir` of `Importer.ApiUpload`.
- The HTTP request is left out, as is the chunked write of the image. A fetch is a parameter returning an abstract reply.
- `os.remove` of image files on delete is left out. It is a filesystem effect.
- `slugify` and `float()` are parameters. `Rows.Price` does not model `float()` raising (which gives no price). It takes the parameter's result as given.
- Prices are unbounded reals. The model leaves out the `Decimal(10, 3)` storage, its rounding and comparison, the `"%.3f KD"` price text of the listing, and `max_length` limits.
- Case-insensitive comparison (`iexact`, `lower()`) is ASCII-only. Case folding outside ASCII is left out.
- `random.shuffle` of the dishes and the members `random.sample` picks are left out. Only the decision and the sample size are modelled.
- Pagination links and the slicing of pages are left out.
- `transaction.atomic` and concurrent uploads are left out.
- `build_absolute_uri` is left out: URLs are relative.
- These are left out as framework plumbing:
  - login, logout, dashboard and render views;
  - the add/edit hotel and item views;
  - URL routing;
  - the admin;
  - the API-key middleware and `AllowedApp`;
  - flash messages, including the web upload's `imported` count in its success message.
- Category ids arrive as JSON. Only integral numbers are taken as keys. The ORM applies `int()` to a lookup value, so it also accepts a string id such as `"3"`, the JSON `true` (category 1) and a fractional number such as `3.7` (category 3). All three fail here. Bulk-delete ids are taken to be keys.
- `Paging.PageCount`: for 0 dishes the count is 0, while Django's paginator still serves one empty page (`allow_empty_first_page`). The corrected count is the least number of pages that hold every dish, and says nothing about that empty page.
- `Paging.EffectiveSize`: the page size that the pagination library takes from `page_size` is a property of the framework, not of this repository. The model states its documented rule.
- `ImageFetch.Download`: `raise_for_status` rejects 4xx and 5xx statuses only. The code is followed, so a 3xx reply that reaches the view is accepted.
- `ImageFetch.Download`: `os.makedirs` of the image folder (menuapp/utils.py:44) is taken to succeed. It sits outside any `try` of `download_image`, so if it raised, the caller's handler would catch it: the web or import row would be dropped, or the logo left unchanged. The model does not capture that failure.
- `Listing.HotelRefOf`: an item whose hotel is missing shows as a nameless hotel. A consistent store never holds one.
- `Listing.FirstCategoryName`: a real category named `Uncategorized` shares its heading with uncategorised items, as in the source.
- `Upload.UploadFacts`: the model does not track the web view's local `imported` counter. It is never incremented and only reaches a message.

## Findings

| source | as written | input that shows it | evidently intended | confidence | as-written member | corrected member |
|---|---|---|---|---|---|---|
| menuapp/views.py:428-437 | `get_or_create(..., defaults={...'category': category...})` names a field that `MenuItem` does not declare. The ORM raises `FieldError` whenever it has to create, and the row handler swallows it. | Any import that names a row the hotel does not have. Every row qualifies, since the hotel's items were deleted just before. `items_created` is 0 and the hotel ends up empty. | Create the item from the declared fields | not executed | Importer.WrittenKeysCreateNothing | Importer.CorrectedKeysCreate |
| menuapp/views.py:495 | `tmp_file = os.path.join(tmp_dir, slugify(file.name))`: python-slugify turns the dot of `.xlsx` into a hyphen, so the saved copy has no extension. openpyxl's `load_workbook` then refuses the path (it accepts only `.xlsx`, `.xlsm`, `.xltx` and `.xltm`) and raises outside any handler. | `menu_data_Grand.xlsx` is saved as `uploads/menu-data-grand-xlsx`; `load_workbook` raises and the reply is a 500, with the database unchanged | Save the copy under a name that keeps the `.xlsx` extension | not executed; rests on the behaviour of openpyxl and python-slugify, which are outside this repository | Importer.SlugOfNameNeverImports | Importer.KeepExtensionImports |
| menuapp/views.py:514 | `total_pages = ceil(count / self.page_size)` uses the class default of 15 even when the request's `page_size` changed the page size | 100 dishes requested with `page_size=50`: 2 pages are served, but `total_pages` is 7 | The least number of pages of the served size that hold every dish | not executed | Paging.TotalPagesIgnoresPageSize | Paging.PageCountIsLeast |

The API upload in the model (`Importer.ApiUpload`, `Catalog.Catalog.ApiUpload`) takes two choices as parameters: the field map and the rule that names the saved copy. The endpoint as written is the instance with `Importer.WrittenKeys` and `Importer.SlugOfName`. `Importer.SlugOfNameNeverImports` shows that it never imports, and `Importer.WrittenKeysApiImportsNothing` shows that even with a loadable copy it would report 0 items and leave the hotel empty. The corrected instance uses `Importer.CorrectedKeys` and `Importer.KeepExtension`. `Importer.ApiUploadFacts` holds for every instance.
