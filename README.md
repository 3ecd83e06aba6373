# Post service spreadsheet import/export, modelled in Dafny

This project models the core of `PostServiceImpl`, the "Post" CRUD service of a
Spring Boot application (posts have an id, a title and a description). Four
parts are modelled and verified:

- **Cell coercion** (`getCellValueAsString`). The workbook is an abstract table.
  A `Sheet` is a name plus a sequence of optional rows. A `Row` maps column
  numbers to cells. A `Cell` is `Str`, `Num`, `Bool`, `Blank` or `Other`.
- **Spreadsheet upload** (`uploadPostsFromExcel`). The steps are:
  1. the empty-file gate;
  2. the case-sensitive `.xlsx`/`.xls` filename gate;
  3. opening the workbook;
  4. the header-skipping row loop that collects candidate posts and the
     indices of rows skipped for a missing title;
  5. the "no valid posts" gate;
  6. the loop that saves each candidate through `createNewPost`;
  7. the returned count.
- **Export table** (`generatePostsExcelFile`). It builds the header row and one
  row per post of `getAllPosts`. The model states the table, not its bytes.
- **CRUD** (`getAllPosts`, `getPostById`, `createNewPost`). These run over an
  in-memory repository. The repository holds a map from id to
  (title, description), the ids in insertion order, and a counter that `save`
  uses to hand out fresh ids.

Modules:

- `Wrappers`: Option, Result, Outcome.
- `JavaText`: `String.trim`, `endsWith` and `String.valueOf(long)`. It also has
  a decimal reader, which is used only to state that `String.valueOf(long)`
  loses no information.
- `Spreadsheet`: cells, rows, sheets and the cell coercion.
- `PostStore`: the DTO, the entity, the errors and the repository class.
- `ExcelImport`: the gates, the row scan specification, the row loop and the
  lemmas about the scan.
- `ExcelExport`: the export table and what re-importing it gives.
- `PostService`: the `PostServiceImpl` class.

Two behaviours of the code are worth stating up front:

- **Importing an export does not give the posts back.** The export writes the
  id, title and description to columns 0, 1 and 2
  (PostServiceImpl.java:74-76). The import reads the title from column 0 and
  the description from column 1 (PostServiceImpl.java:116-117). So a
  re-imported post has the decimal id as its title and the trimmed old title
  as its description, and the old description is dropped.
  `ExcelExport.ReimportOfExport` proves this for every export, and
  `ExcelExport.ReimportIsNotIdentity` shows it on a concrete post.
- **The extension error's message** is "File must be an Excel file (.xlsx or
  .xls)" (PostServiceImpl.java:102).

Calls into code that is not visible become parameters:

- A repository save that throws is the `fault` flag of
  `PostRepository.Save` and `createNewPost`.
- For the upload, it is `failAt`: the index of the first candidate whose save
  throws, if any.
- Opening the workbook and taking its first sheet is the `content` field of
  the uploaded file: the first sheet; `Rejected(message)`, an
  IllegalArgumentException from that step, which the upload re-throws
  unchanged (PostServiceImpl.java:143-144); or `Unreadable`, an IOException
  (PostServiceImpl.java:145-147).

## Model

| member | source | states |
|---|---|---|
| `Spreadsheet.CellValueAsStringFacts` | src/main/java/com/example/demo4/SecurityApp/services/PostServiceImpl.java:151-168 | `CellValueAsString` (`getCellValueAsString`) gives null exactly for a missing, blank or other cell; a string cell gives its trimmed text; a numeric cell gives a decimal text that parses back to its number; a boolean gives "true"/"false"; every text returned is already trimmed |
| `Spreadsheet.NumericCellHasText` | src/main/java/com/example/demo4/SecurityApp/services/PostServiceImpl.java:159-160 | a numeric cell always yields a non-blank text, so it always passes the title check |
| `JavaText.Trim` | src/main/java/com/example/demo4/SecurityApp/services/PostServiceImpl.java:158 | the trimmed text is no longer than the input and, when non-empty, starts and ends with a character above U+0020 |
| `JavaText.TrimFacts` | src/main/java/com/example/demo4/SecurityApp/services/PostServiceImpl.java:158 | trim keeps one contiguous slice of the input and cuts off only characters at or below U+0020 on either side |
| `JavaText.TrimEmptyIff` | src/main/java/com/example/demo4/SecurityApp/services/PostServiceImpl.java:119 | `title.trim().isEmpty()` holds exactly when every character of the title is at or below U+0020 |
| `JavaText.TrimIdempotent` | src/main/java/com/example/demo4/SecurityApp/services/PostServiceImpl.java:119 | trimming an already trimmed title changes nothing |
| `JavaText.TrimKeepsTrimmed` | src/main/java/com/example/demo4/SecurityApp/services/PostServiceImpl.java:158 | a text that starts and ends with a kept character is its own trim |
| `JavaText.LeadingCount` | src/main/java/com/example/demo4/SecurityApp/services/PostServiceImpl.java:158 | counts exactly the removable characters before the first kept one |
| `JavaText.TrailingCount` | src/main/java/com/example/demo4/SecurityApp/services/PostServiceImpl.java:158 | counts exactly the removable characters after the last kept one |
| `JavaText.NatToDecimal` | src/main/java/com/example/demo4/SecurityApp/services/PostServiceImpl.java:160 | the digits of a natural number: non-empty, all digits, no leading zero |
| `JavaText.NatToDecimalRoundTrip` | src/main/java/com/example/demo4/SecurityApp/services/PostServiceImpl.java:160 | reading the digits back gives the number |
| `JavaText.LongToString` | src/main/java/com/example/demo4/SecurityApp/services/PostServiceImpl.java:160 | `String.valueOf(long)` is non-empty, contains no removable character, and starts with '-' exactly for negative numbers |
| `JavaText.LongToStringRoundTrip` | src/main/java/com/example/demo4/SecurityApp/services/PostServiceImpl.java:160 | the decimal text of a number parses back to that number |
| `JavaText.LongToStringInjective` | src/main/java/com/example/demo4/SecurityApp/services/PostServiceImpl.java:160 | distinct numbers give distinct texts |
| `JavaText.LongToStringIsTrimmed` | src/main/java/com/example/demo4/SecurityApp/services/PostServiceImpl.java:160 | the decimal text is unchanged by trim |
| `JavaText.EndsWithIff` | src/main/java/com/example/demo4/SecurityApp/services/PostServiceImpl.java:101 | `EndsWith` (`String.endsWith`) holds exactly when the text is some prefix followed by the suffix |
| `ExcelImport.ExcelFileNameIff` | src/main/java/com/example/demo4/SecurityApp/services/PostServiceImpl.java:100-103 | `IsExcelFileName`, the extension gate, accepts exactly the names made of some text followed by ".xlsx" or by ".xls", and refuses a null name |
| `ExcelImport.ExtensionGateExamples` | src/main/java/com/example/demo4/SecurityApp/services/PostServiceImpl.java:100-103 | ".xlsx" and ".xls" names pass; "data.txt", an upper-case ".XLSX" and a null name fail |
| `ExcelImport.HasTitleIff` | src/main/java/com/example/demo4/SecurityApp/services/PostServiceImpl.java:116-119 | `HasTitle`, the title check: a numeric or boolean first cell always passes; a string cell passes exactly when it holds a character above U+0020; a missing, blank or other cell never passes |
| `ExcelImport.CandidateFacts` | src/main/java/com/example/demo4/SecurityApp/services/PostServiceImpl.java:116-128 | `ToCandidate`, the post a titled row becomes, has no id, a trimmed non-empty title, and a trimmed description |
| `ExcelImport.CandidateFields` | src/main/java/com/example/demo4/SecurityApp/services/PostServiceImpl.java:116-126 | the candidate's title is the text of cell 0 and its description the text of cell 1, as `getCellValueAsString` gives each (trimmed string, decimal number, "true"/"false"); the description is "" when cell 1 is missing, blank or of another kind |
| `ExcelImport.CollectPosts` | src/main/java/com/example/demo4/SecurityApp/services/PostServiceImpl.java:110-129 | the row loop yields exactly the candidates and warnings of the row-scan specification for the sheet |
| `ExcelImport.ScanSheetFacts` | src/main/java/com/example/demo4/SecurityApp/services/PostServiceImpl.java:111-129 | `ScanSheet`, the loop over rows 1..lastRowNum: the candidates are the titled data rows in row order; every present data row gives one candidate or one warning; the warnings are exactly the present untitled data rows, in increasing order |
| `ExcelImport.ScanUpToCandidates` | src/main/java/com/example/demo4/SecurityApp/services/PostServiceImpl.java:111-128 | `ScanUpTo`, the lists after rows 1..n-1: its candidates are the filter-and-map of those rows |
| `ExcelImport.ScanUpToWarnings` | src/main/java/com/example/demo4/SecurityApp/services/PostServiceImpl.java:111-122 | `ScanUpTo`: a warning exists for index j exactly when row j (1 <= j < n) exists and has no title; warnings increase and stay below n |
| `ExcelImport.ScanUpToCount` | src/main/java/com/example/demo4/SecurityApp/services/PostServiceImpl.java:111-129 | candidates plus warnings equal the number of existing rows visited; absent rows count as neither |
| `ExcelImport.VisitShape` | src/main/java/com/example/demo4/SecurityApp/services/PostServiceImpl.java:112-128 | `Visit`, one turn of the loop, appends the row's candidate, or its index as a warning, or nothing for an absent row |
| `ExcelImport.AcceptedAppend` | src/main/java/com/example/demo4/SecurityApp/services/PostServiceImpl.java:128 | the filter-and-map reading of the rows extends row by row at the end |
| `ExcelImport.PresentCountAppend` | src/main/java/com/example/demo4/SecurityApp/services/PostServiceImpl.java:114 | the count of existing rows extends row by row at the end |
| `ExcelImport.AcceptedAreTitled` | src/main/java/com/example/demo4/SecurityApp/services/PostServiceImpl.java:119-128 | every candidate has no id and a trimmed non-empty title |
| `ExcelImport.HeaderIgnored` | src/main/java/com/example/demo4/SecurityApp/services/PostServiceImpl.java:110-111 | row 0 is never read: replacing it does not change the scan |
| `ExcelImport.BlankTitleOnlyRow` | src/main/java/com/example/demo4/SecurityApp/services/PostServiceImpl.java:119-122 | a sheet whose only data row has no title (no first cell, a blank or other cell, or a whitespace-only string such as "   ") gives no candidate and one warning for row 1 |
| `ExcelImport.MiddleRowWithoutTitle` | src/main/java/com/example/demo4/SecurityApp/services/PostServiceImpl.java:111-129 | with three data rows where row 2 fails the title check (for example a blank or whitespace-only title), rows 1 and 3 become the candidates and row 2 is the only warning |
| `ExcelExport.ExportLayout` | src/main/java/com/example/demo4/SecurityApp/services/PostServiceImpl.java:62-76 | `IsExportOf` (built from `HeaderRow` and `PostRow`) read cell by cell: sheet "Posts"; row 0 holds "ID", "Title", "Description"; row j holds id, title and description of post j-1 in columns 0, 1, 2; no cell beyond column 2; no row after row N |
| `ExcelExport.ExportedRowIsCandidate` | src/main/java/com/example/demo4/SecurityApp/services/PostServiceImpl.java:116-126 | an exported post row always passes the title check and becomes (decimal id, trimmed title) |
| `ExcelExport.ScanOfExportUpTo` | src/main/java/com/example/demo4/SecurityApp/services/PostServiceImpl.java:111-129 | scanning a prefix of an export gives the reimported posts of that prefix and no warning |
| `ExcelExport.ReimportOfExport` | src/main/java/com/example/demo4/SecurityApp/services/PostServiceImpl.java:74-117 | re-importing an export of N posts gives N candidates and no warning; candidate k has title = decimal id of post k and description = trimmed title of post k |
| `ExcelExport.ReimportedTitlesDistinct` | src/main/java/com/example/demo4/SecurityApp/services/PostServiceImpl.java:74-117 | posts with distinct ids, as `getAllPosts` gives, come back from their export with distinct titles |
| `ExcelExport.ReimportIsNotIdentity` | src/main/java/com/example/demo4/SecurityApp/services/PostServiceImpl.java:74-117 | the post (1, "Hello", "World") comes back as ("1", "Hello"), not as itself |
| `PostStore.FieldsOfAllAppend` | src/main/java/com/example/demo4/SecurityApp/services/PostServiceImpl.java:136-138 | the fields stored for `a + b` are those stored for `a` followed by those for `b`; the save loop relies on this step by step |
| `PostStore.AppendedTrans` | src/main/java/com/example/demo4/SecurityApp/services/PostServiceImpl.java:136-138 | two successive appends to the store are one append of both lists, in order |
| `PostStore.PostRepository.FindAll` | src/main/java/com/example/demo4/SecurityApp/services/PostServiceImpl.java:37 | `findAll` lists every stored post once: each stored id appears, ids strictly increase (insertion order), and each listed post carries its stored fields |
| `PostStore.PostRepository.FindByIdMatchesFindAll` | src/main/java/com/example/demo4/SecurityApp/services/PostServiceImpl.java:37-52 | `findById` finds an id exactly when `findAll` lists it, and returns the very post listed |
| `PostStore.PostRepository.Save` | src/main/java/com/example/demo4/SecurityApp/services/PostServiceImpl.java:46 | `save` stores the fields under an id not used before and appends that id to the order; a failing save changes nothing |
| `PostService.PostServiceImpl.GetAllPosts` | src/main/java/com/example/demo4/SecurityApp/services/PostServiceImpl.java:35-41 | one DTO per stored post, in repository order, carrying its id and stored fields; ids strictly increase, so they are distinct |
| `PostService.PostServiceImpl.GetPostById` | src/main/java/com/example/demo4/SecurityApp/services/PostServiceImpl.java:50-55 | succeeds exactly for a stored id and returns its stored title and description; otherwise NotFound("Post not found with id " + id) |
| `PostService.PostServiceImpl.GetPostByIdMatchesGetAllPosts` | src/main/java/com/example/demo4/SecurityApp/services/PostServiceImpl.java:35-55 | `getPostById` succeeds exactly for an id that `getAllPosts` lists, and returns the very DTO listed |
| `PostService.PostServiceImpl.CreateNewPost` | src/main/java/com/example/demo4/SecurityApp/services/PostServiceImpl.java:44-47 | stores the input's title and description under a fresh id (any input id is ignored), appends it to the order, and returns exactly the saved record; a failing save propagates and stores nothing |
| `PostService.PostServiceImpl.GeneratePostsExcelFile` | src/main/java/com/example/demo4/SecurityApp/services/PostServiceImpl.java:58-77 | a sheet named "Posts" with N+1 rows: the header ["ID","Title","Description"], then row k holds (id, title, description) of the k-th post of getAllPosts; nothing is modified |
| `PostService.PostServiceImpl.SaveAll` | src/main/java/com/example/demo4/SecurityApp/services/PostServiceImpl.java:136-138 | each candidate is saved once, in order; the store grows by exactly the saved candidates; at the first failing save the error propagates, earlier saves remain and later ones are not attempted |
| `PostService.PostServiceImpl.UploadPostsFromExcel` | src/main/java/com/example/demo4/SecurityApp/services/PostServiceImpl.java:95-149 | an empty file fails with "File is empty" before anything else; a null or non-.xlsx/.xls name then fails with the Excel-file error; a workbook step that throws IllegalArgumentException fails with that message unchanged, and an unreadable workbook fails with the read error; each of these leaves the store unchanged and warns nothing; otherwise the warnings are the scan's; with no candidate the upload fails with "No valid posts found in Excel file" and nothing is saved; else the candidates are saved in order and the count of candidates is returned, unless a save fails, whose error is returned after the earlier saves |

## Left out

- Apache POI is not modelled. That covers workbook construction, `workbook.write`, `getSheetAt` and `autoSizeColumn`. The workbook is an abstract table. An uploaded file carries the outcome of opening it: its first sheet, `Rejected` or `Unreadable`.
- What POI does with a given upload is library behaviour that is not visible. The model takes its outcome as input: a legacy `.xls` file given to the XSSF reader, or a workbook without a sheet, is `Rejected` with POI's IllegalArgumentException message and the upload fails with that message unchanged (PostServiceImpl.java:143-144); an IOException is `Unreadable` and gives `ReadFailed` (PostServiceImpl.java:145-147). Any other unchecked exception from POI matches neither catch (PostServiceImpl.java:143, :145), propagates unchanged, and is not modelled.
- The "Failed to generate Excel file" wrapping of an `IOException` during export is not modelled. The export table is always produced.
- The message text of "Failed to read Excel file: ..." is not modelled. A read failure is the opaque error `ReadFailed`.
- Spreadsheet.CellValueAsStringFacts: a numeric cell carries the integer its double is cast to. Doubles and the saturation of the `(long)` cast beyond 64 bits are not modelled.
- Ids are unbounded integers. Java `Long` overflow of the id counter is not modelled.
- ExcelExport.ReimportOfExport: the export writes the id through `setCellValue(double)` (PostServiceImpl.java:74), so an id above 2^53 in magnitude is not written exactly. The model writes the exact integer, so this lemma, `ExcelExport.ExportedRowIsCandidate` and `ExcelExport.ReimportedTitlesDistinct` state the title is `LongToString(id)` for every id, whereas the code gives that only for ids up to 2^53.
- ModelMapper's reflective mapping is a field copy (`FieldsOf`, `ToDto`).
- PostService.PostServiceImpl.CreateNewPost: the model drops a caller-supplied id (`FieldsOf`) and always stores under a fresh id, whereas the code maps the DTO's id into the entity it hands to `save` (PostServiceImpl.java:45-46); what JPA's `save` does with an entity that already carries an id (an update or merge) is not modelled.
- The JPA repository is an in-memory store. It hands out ids from a counter and `findAll` returns insertion order. Persistence, transactions and concurrency are not modelled. A failing save is an input flag.
- SLF4J logging is not modelled. Row warnings are an output list of row indices. The final "Successfully uploaded" log line is not modelled.
- Titles and descriptions are non-null strings. A null field in a DTO on the direct create path, and a null `postId`, are not modelled.
- PostController.java is HTTP routing, headers and exception-to-status mapping. It is not part of this model.
- PostService.java only declares the interface. It is not part of this model.
