# Textract response formatter and document helpers, in Dafny

This project models the block-graph normalisation at the heart of the OCR
repository. That is the `ResponseFormatter` class, which turns an Amazon
Textract response into a page-indexed document: the text of each page,
the blocks of each page, the tables of each page as row → column → text
maps, and the key/value form pairs. It also models the path fields, the
page count and the page-file padding of the `Document` class.

There are two copies of the formatter:

- `ocr/lambdas/aws/aws_response_formatter.py` builds `key_map`,
  `value_map` and `forms`, and renders a SELECTED checkbox as "X ".
- `OCR/aws_response_formatter.py` does neither.

The model is one formatter parameterised by `Variant = WithForms | WordsOnly`.
Each difference between the copies is an explicit branch on the variant.

How the model is laid out:

- `wrappers.dfy`, `dicts.dfy`, `py_strings.dfy`: Python's semantics,
  written out:
  - `Result` carries the exception a line raises (`KeyError("Text")`,
    `IndexError`, the bare `raise`, and the unbound local in
    `_find_value_block`);
  - `Dict` is a dictionary that remembers insertion order. It models
    `blocks_map`, `key_map` and `value_map`: the order in which
    `key_map.items()` visits the key blocks decides which of two key blocks
    with the same text is stored last, and so which value the form keeps;
  - `str.split`, `str.join`, `str.replace`, `str * n`, `str(n)` and
    string `<`.
- `blocks.dfy`: the response, its blocks and their relationships.
  Every field the code reads with `block["X"]` that a block may lack is an
  `Option`, so that each KeyError can be modelled.
- The specification functions, one module per component:
  - `block_index.dfy`: `blocks_map`, `key_map` and `value_map`;
  - `page_segmenter.dfy`: `_get_per_page`, as a fold over the blocks;
  - `block_text.dfy`: `_get_block_text`;
  - `tables.dfy`: `_get_table`, the tables list and the `pages_tables`
    grouping;
  - `forms.dfy`: `_find_value_block` and `_get_kv_relationship`;
  - `formatting.dfy`: the whole constructor as a function from the AWS
    OCR object to the attributes it sets, or to the exception it raises.
- `response_formatter.dfy`: the class `ResponseFormatter`. It has the
  source's attributes as fields, and its loops as methods. Each method
  is proved to compute the specification function above it, including on
  every error path.
- `ocr_document.dfy`: `Document.__init__`'s path fields, `_get_num_pages`
  and `add_ceros`. `NewDocument` is the constructor as written;
  `CorrectedDocument` differs only in the page count.

Behaviour of the code worth knowing:

- The page count from `DocumentMetadata` is never compared with the
  number of PAGE blocks. `pages_text` has one entry more than there are
  PAGE blocks after the first position
  (`PageSegmenter.SegmentLength`). That is one entry per PAGE block only
  when the first block is a PAGE block
  (`PageSegmenter.PageCountFromFirstPage`).
- Duplicate block ids are not detected. The last block wins
  (`BlockIndex.IndexLastWins`). A KEY block and a VALUE block that share
  an id land in both `key_map` and `value_map`
  (`BlockIndex.OverlapWithDuplicateIds`).
- The code does not reject a table whose page is outside
  `1..num_pages`:
  - `pages_tables[page - 1]` is Python indexing, so page 0 and negative
    pages land in lists counted from the end
    (`Tables.PageZeroLandsLast`);
  - only pages outside `1-num_pages..num_pages` raise IndexError
    (`Tables.GroupSucceeds`).
- A response without "Blocks" is not reported the same way in the two
  copies:
  - the forms copy executes a bare `raise` (`MissingBlocks`);
  - the other copy raises KeyError.
- `Document`'s page count is 1 for every file, PDFs included
  (`OcrDocument.NumPagesAlwaysOne`, and "## Findings" below).
- An unknown child id raises KeyError. So does a missing "Text",
  "RowIndex", "ColumnIndex", "SelectionStatus", "Relationships" or
  "EntityTypes".
  A key block without a VALUE id fails on the unbound local
  `value_block`.

## Model

| member | source | states |
|---|---|---|
| `BlockIndex.Index` | ocr/lambdas/aws/aws_response_formatter.py:25 | `blocks_map` is a well-formed dictionary whose ids are exactly the ids of the blocks |
| `BlockIndex.IndexLastWins` | ocr/lambdas/aws/aws_response_formatter.py:25 | each id maps to the last block that carries it |
| `BlockIndex.IndexValuesUnique` | OCR/aws_response_formatter.py:21 | with unique ids, iterating the map yields the blocks themselves in block order |
| `BlockIndex.KeyMap` | ocr/lambdas/aws/aws_response_formatter.py:28-32 | `key_map` is built exactly when every KEY_VALUE_SET block has "EntityTypes", else KeyError("EntityTypes") |
| `BlockIndex.ValueMap` | ocr/lambdas/aws/aws_response_formatter.py:34-39 | `value_map` is built exactly when every KEY_VALUE_SET block has "EntityTypes", else KeyError("EntityTypes") |
| `BlockIndex.KeyValueCover` | ocr/lambdas/aws/aws_response_formatter.py:28-39 | together the two maps hold the id of every KEY_VALUE_SET block and of no other block |
| `BlockIndex.KeyValuePartition` | ocr/lambdas/aws/aws_response_formatter.py:31 | with unique ids, a KEY_VALUE_SET block is in `key_map` iff "KEY" is among its entity types, in `value_map` iff not, and the maps are disjoint |
| `BlockIndex.KeyMapOrder` | ocr/lambdas/aws/aws_response_formatter.py:120 | with unique ids, `key_map.items()` visits the key blocks in block order |
| `BlockIndex.OverlapWithDuplicateIds` | ocr/lambdas/aws/aws_response_formatter.py:37-38 | a KEY block and a VALUE block sharing an id land in both maps |
| `PageSegmenter.Segment` | ocr/lambdas/aws/aws_response_formatter.py:65-82 | `_get_per_page`: the loop over the blocks, then the last page appended unconditionally |
| `PageSegmenter.SegmentFirst` | ocr/lambdas/aws/aws_response_formatter.py:68-79 | the first block opens the first page, and lands on it when it carries text |
| `PageSegmenter.SegmentSnoc` | ocr/lambdas/aws/aws_response_formatter.py:69-79 | each later block lands by the pages so far: a PAGE block opens a new, empty page; a text block is appended to the last page and its text plus a space to the last page's text; any other block changes nothing |
| `PageSegmenter.TwoPagesTwoWords` | ocr/lambdas/aws/aws_response_formatter.py:65-82 | PAGE, WORD a, PAGE, WORD b gives the pages [a] and [b] with texts "a " and "b " |
| `PageSegmenter.RunLength` | ocr/lambdas/aws/aws_response_formatter.py:69-79 | after any prefix the loop has closed one page per PAGE block after the first position |
| `PageSegmenter.RunOpen` | ocr/lambdas/aws/aws_response_formatter.py:76-78 | the open page holds only non-PAGE blocks with text, and its text is theirs, each followed by a space |
| `PageSegmenter.RunTexts` | ocr/lambdas/aws/aws_response_formatter.py:70-75 | every closed page holds only text blocks and its text is theirs |
| `PageSegmenter.RunFlatten` | ocr/lambdas/aws/aws_response_formatter.py:69-79 | closed pages plus the open page are the text blocks of the prefix, in order |
| `PageSegmenter.SegmentLength` | ocr/lambdas/aws/aws_response_formatter.py:65-82 | `pages_text` and `pages_response` have one more entry than there are PAGE blocks after the first position |
| `PageSegmenter.SegmentContents` | ocr/lambdas/aws/aws_response_formatter.py:65-82 | the pages, concatenated, are exactly the non-PAGE blocks with text, in order, and each page's text is theirs |
| `PageSegmenter.PageBreaksCount` | ocr/lambdas/aws/aws_response_formatter.py:71 | the page breaks are the PAGE blocks, less one when the first block is a PAGE block |
| `PageSegmenter.PageCountFromFirstPage` | OCR/aws_response_formatter.py:46-62 | when the blocks start with a PAGE block there is exactly one page per PAGE block |
| `PageSegmenter.SinglePageWithoutPageBlocks` | OCR/aws_response_formatter.py:61-62 | without PAGE blocks there is exactly one, possibly empty, page |
| `Formatter.ResponseFormatter.GetPerPage` | ocr/lambdas/aws/aws_response_formatter.py:65-82 | the loop appends exactly the pages of the segmentation to `pages_text` and `pages_response` |
| `BlockText.TextOf` | ocr/lambdas/aws/aws_response_formatter.py:84-96 | `_get_block_text`: "" for a block without "Relationships", else the text its CHILD ids contribute, or the KeyError the source raises |
| `BlockText.IdsTextSucceeds` | ocr/lambdas/aws/aws_response_formatter.py:89-95 | the text is read exactly when every CHILD id is known and each word has "Text" and each selection element (forms copy) has "SelectionStatus" |
| `BlockText.IdsTextFailureSticks` | ocr/lambdas/aws/aws_response_formatter.py:89-90 | the first failing child decides the error, whatever follows |
| `BlockText.IdsTextAppend` | ocr/lambdas/aws/aws_response_formatter.py:89-95 | the text of two runs of children is the first run's text followed by the second's |
| `BlockText.ChildStep` | ocr/lambdas/aws/aws_response_formatter.py:89-95 | one more child id extends the text by its contribution, or its error is the error of the whole block |
| `BlockText.WordsOnlyText` | OCR/aws_response_formatter.py:87-96 | in the words-only copy the text is the WORD children's texts, each followed by one space, in order |
| `BlockText.VariantsAgree` | ocr/lambdas/aws/aws_response_formatter.py:93-95 | both copies read the same text when no selection element is SELECTED |
| `BlockText.SelectedAddsMark` | ocr/lambdas/aws/aws_response_formatter.py:93-95 | a SELECTED selection element adds exactly "X " in the forms copy |
| `BlockText.TwoWordsInOrder` | ocr/lambdas/aws/aws_response_formatter.py:84-96 | a cell with words "Total" and "Due" reads "Total Due " in both copies |
| `BlockText.OneWordText` | ocr/lambdas/aws/aws_response_formatter.py:84-96 | a block whose only CHILD is a word reads as that word and one space |
| `BlockText.UnknownChildFails` | ocr/lambdas/aws/aws_response_formatter.py:90 | a CHILD id missing from `blocks_map` makes the text fail |
| `Formatter.ResponseFormatter.GetBlockText` | ocr/lambdas/aws/aws_response_formatter.py:84-96 | the loop returns the block's text, or the KeyError the source raises, as the specification function gives it |
| `Tables.FillCells` | ocr/lambdas/aws/aws_response_formatter.py:101-108 | the loop over a table's CHILD ids: each CELL's text stored at its (RowIndex, ColumnIndex), other blocks skipped, or the first KeyError |
| `Tables.TableOf` | ocr/lambdas/aws/aws_response_formatter.py:98-109 | `_get_table`: the page ("Page", else 1) and the filled table, or KeyError("Relationships") and the cells' errors |
| `Tables.Put` | ocr/lambdas/aws/aws_response_formatter.py:106-108 | `setdefault(row, {})[col] = text` adds the row, stores the text at (row, col) and keeps every other cell |
| `Tables.FillCellsSucceeds` | ocr/lambdas/aws/aws_response_formatter.py:101-108 | the cells are filled exactly when every child id is known and every CELL child has its text, RowIndex and ColumnIndex |
| `Tables.FillCellsFailureSticks` | ocr/lambdas/aws/aws_response_formatter.py:103-104 | the first failing child decides the table's error |
| `Tables.CellStepAt` | ocr/lambdas/aws/aws_response_formatter.py:103-108 | one more child id takes the table one step further, or its error is the error of the whole table |
| `Tables.FillCellsKeys` | ocr/lambdas/aws/aws_response_formatter.py:105-108 | the table's (row, col) pairs and its rows are exactly those of its CELL children |
| `Tables.FillCellsValues` | ocr/lambdas/aws/aws_response_formatter.py:105-108 | each (row, col) holds the text of the last CELL child at those indices |
| `Tables.GetTableContents` | ocr/lambdas/aws/aws_response_formatter.py:98-109 | a built table has the block's "Page" (1 when absent), exactly the rows and cells of its CELL children, and the last such child's text in each cell |
| `Tables.TwoByTwoTable` | ocr/lambdas/aws/aws_response_formatter.py:98-109 | four one-word cells A, B, C, D at (1,1), (1,2), (2,1), (2,2) build the table {1: {1: "A ", 2: "B "}, 2: {1: "C ", 2: "D "}} |
| `Tables.TwoByTwoCells` | ocr/lambdas/aws/aws_response_formatter.py:101-108 | filling those four cells stores each word at its indices, in order |
| `Tables.TwoByTwoPuts` | ocr/lambdas/aws/aws_response_formatter.py:106-108 | the four stores build two rows of two columns |
| `Formatter.ResponseFormatter.GetTable` | ocr/lambdas/aws/aws_response_formatter.py:98-109 | the loop returns the page and table, or the KeyError the source raises, as the specification function gives it |
| `Tables.TablesOf` | ocr/lambdas/aws/aws_response_formatter.py:50-54 | the tables are built exactly when every TABLE block's table is, one per TABLE block, in order |
| `Tables.TablesOfFailureSticks` | ocr/lambdas/aws/aws_response_formatter.py:50-54 | the first TABLE block that fails decides the error |
| `Tables.TablesOfFailsAt` | ocr/lambdas/aws/aws_response_formatter.py:50-54 | a failing TABLE block after succeeding ones makes the whole list fail with its error |
| `Formatter.ResponseFormatter.CollectTables` | ocr/lambdas/aws/aws_response_formatter.py:50-54 | the loop returns `_get_table` of every TABLE block in block order, or the first error |
| `Tables.PyIndex` | ocr/lambdas/aws/aws_response_formatter.py:58 | Python indexing accepts -n..n-1 and counts negative indices from the end |
| `Tables.GroupByPage` | ocr/lambdas/aws/aws_response_formatter.py:56-58 | a successful grouping has one list per page, none for a negative count |
| `Tables.GroupSucceeds` | ocr/lambdas/aws/aws_response_formatter.py:56-58 | grouping fails exactly when some table's page is outside 1-num_pages..num_pages |
| `Tables.GroupFailsWithIndexError` | ocr/lambdas/aws/aws_response_formatter.py:58 | the only error grouping raises is IndexError |
| `Tables.GroupByPageContents` | ocr/lambdas/aws/aws_response_formatter.py:56-58 | with every page in 1..num_pages, list p-1 holds exactly the tables of page p, in order |
| `Tables.GroupKeepsAll` | ocr/lambdas/aws/aws_response_formatter.py:56-60 | every table lands in exactly one list: the lists read one after the other hold the same tables as `tables`, each as often (a multiset equality), and `num_tables` tables in all |
| `Tables.PageBeyondCountFails` | ocr/lambdas/aws/aws_response_formatter.py:58 | a table on a page beyond num_pages raises IndexError |
| `Tables.PageZeroLandsLast` | ocr/lambdas/aws/aws_response_formatter.py:58 | a table on page 0 lands in the last page's list |
| `Formatter.ResponseFormatter.GroupTables` | ocr/lambdas/aws/aws_response_formatter.py:56-58 | the loop leaves `pages_tables` equal to the grouping, or reports its IndexError |
| `Forms.ValueBlockOf` | ocr/lambdas/aws/aws_response_formatter.py:112-117 | `_find_value_block`: the block of the last VALUE id, KeyError for a missing "Relationships" or unknown id, or the unbound `value_block` |
| `Forms.FormsOf` | ocr/lambdas/aws/aws_response_formatter.py:119-124 | the loop of `_get_kv_relationship`: `forms[key text] = value text` for each key block in turn, or the first error |
| `Forms.LastValueSpec` | ocr/lambdas/aws/aws_response_formatter.py:113-117 | the search succeeds iff every VALUE id is in `value_map`, and it keeps the block of the last one |
| `Forms.LastValueFailureSticks` | ocr/lambdas/aws/aws_response_formatter.py:115-116 | the first VALUE id missing from `value_map` decides the error |
| `Forms.LastValueStep` | ocr/lambdas/aws/aws_response_formatter.py:113-116 | one more VALUE id extends the search, and a failure there fails the whole search |
| `Forms.FindValueBlockSpec` | ocr/lambdas/aws/aws_response_formatter.py:112-117 | a value block is found iff the key block has relationships, at least one VALUE id, and every VALUE id in `value_map`; it is the last one's block |
| `Forms.KeyWithoutValueFails` | ocr/lambdas/aws/aws_response_formatter.py:117 | a key block with no VALUE id fails on the unbound `value_block` |
| `Formatter.ResponseFormatter.FindValueBlock` | ocr/lambdas/aws/aws_response_formatter.py:112-117 | the loop returns the value block, or the error the source raises, as the specification function gives it |
| `Forms.FormsFailureSticks` | ocr/lambdas/aws/aws_response_formatter.py:120-124 | the first key block that fails decides the error |
| `Forms.FormsSucceed` | ocr/lambdas/aws/aws_response_formatter.py:119-124 | forms are built exactly when every key block has a value block and both texts can be read |
| `Forms.FormsStep` | ocr/lambdas/aws/aws_response_formatter.py:121-124 | one more key block stores its key text mapped to its value text |
| `Forms.FormsKeys` | ocr/lambdas/aws/aws_response_formatter.py:119-124 | the forms' keys are exactly the texts of the key blocks |
| `Forms.FormsValues` | ocr/lambdas/aws/aws_response_formatter.py:119-124 | each key text maps to the value text of the last key block reading it |
| `Forms.SingleForm` | ocr/lambdas/aws/aws_response_formatter.py:119-124 | a single resolving key block gives a one-entry form from its text to its value's text |
| `Forms.NameAliceForm` | ocr/lambdas/aws/aws_response_formatter.py:111-124 | a key block reading "Name" with a VALUE block reading "Alice" gives the form {"Name ": "Alice "} |
| `Formatter.ResponseFormatter.GetKvRelationship` | ocr/lambdas/aws/aws_response_formatter.py:111-124 | the loop leaves `forms` equal to the forms of the key blocks in `key_map` order, or reports the first error |
| `Formatting.Format` | ocr/lambdas/aws/aws_response_formatter.py:3-61 | `ResponseFormatter(Aws_ocr)`: the attributes the constructor ends with, or the exception it raises |
| `Formatting.SelectResponse` | ocr/lambdas/aws/aws_response_formatter.py:6-16 | the analysis response wins, then the text response; with neither the formatter refuses to build |
| `Formatting.ResponseBlocks` | OCR/aws_response_formatter.py:20 | the blocks are read iff "Blocks" is present; otherwise the forms copy re-raises and the other raises KeyError |
| `Formatting.NumPages` | ocr/lambdas/aws/aws_response_formatter.py:46 | the page count is DocumentMetadata's Pages, taken unchecked, or the KeyError for the missing key |
| `Formatting.KeyValueMaps` | ocr/lambdas/aws/aws_response_formatter.py:27-39 | only the forms copy builds the two maps, and it fails exactly when some KEY_VALUE_SET block lacks "EntityTypes" |
| `Formatting.Base` | ocr/lambdas/aws/aws_response_formatter.py:24-46 | the base build keeps the response type and the blocks |
| `Formatting.TablesStage` | ocr/lambdas/aws/aws_response_formatter.py:50-60 | the tables stage keeps the response type and the blocks |
| `Formatting.FormsStage` | ocr/lambdas/aws/aws_response_formatter.py:61 | the forms stage keeps the response type and the blocks |
| `Formatting.Analyse` | ocr/lambdas/aws/aws_response_formatter.py:48-61 | the analysis stage keeps the response type and the blocks |
| `Formatting.FormatBlocks` | ocr/lambdas/aws/aws_response_formatter.py:22-61 | the build from the blocks on keeps the response type and the blocks |
| `Formatting.ResponseSelection` | ocr/lambdas/aws/aws_response_formatter.py:6-22 | with no response the build fails; a build has the selected response's type and blocks; an analysis response without "Blocks" fails in both copies |
| `Formatting.AnalyseKeeps` | ocr/lambdas/aws/aws_response_formatter.py:48-61 | the analysis step leaves every attribute of the base build unchanged and sets forms only in the forms copy |
| `Formatting.AnalyseTables` | ocr/lambdas/aws/aws_response_formatter.py:50-60 | an analysis has one table per TABLE block, `num_tables` of them, one list per page, the lists holding exactly those tables (as a multiset), every page one Python indexing accepts, and, when every page is in 1..`num_pages`, list p-1 holding the tables of page p in block order |
| `Formatting.FormatKeeps` | ocr/lambdas/aws/aws_response_formatter.py:3-61 | a build's `blocks_map`, pages and key/value maps are those of its own blocks, and forms exist iff forms copy and analysis |
| `Formatting.FormatPages` | ocr/lambdas/aws/aws_response_formatter.py:25-46 | a build indexes every block by id and splits the text blocks into PAGE-break-plus-one pages with their texts |
| `Formatting.FormatTables` | ocr/lambdas/aws/aws_response_formatter.py:48-60 | a text build has no tables, no forms and empty `pages_tables`; an analysis build has one list per page holding exactly its tables (as a multiset), and, when every page is in 1..`num_pages`, list p-1 holds the tables of page p in block order |
| `Formatting.FormatForms` | ocr/lambdas/aws/aws_response_formatter.py:27-61 | key/value maps exist iff forms copy, forms iff forms copy and analysis, and the maps cover the KEY_VALUE_SET blocks |
| `Formatter.ResponseFormatter.constructor` | ocr/lambdas/aws/aws_response_formatter.py:3-25 | the new formatter holds the response, its type, its blocks and their `blocks_map`, and nothing else yet |
| `Formatter.ResponseFormatter.Build` | ocr/lambdas/aws/aws_response_formatter.py:27-61 | the rest of the constructor leaves the attributes the specification gives, or fails with its error |
| `Formatter.ResponseFormatter.BuildBase` | ocr/lambdas/aws/aws_response_formatter.py:27-46 | key/value maps, pages and page count as the base build gives them, or its error |
| `Formatter.ResponseFormatter.BuildAnalysis` | ocr/lambdas/aws/aws_response_formatter.py:48-61 | tables, `pages_tables`, `num_tables` and forms as the analysis gives them, or its error |
| `Formatter.ResponseFormatter.BuildTables` | ocr/lambdas/aws/aws_response_formatter.py:50-60 | tables, `pages_tables` and `num_tables` as the tables stage gives them, or its error |
| `Formatter.NewResponseFormatter` | ocr/lambdas/aws/aws_response_formatter.py:3-61 | `ResponseFormatter(Aws_ocr)` builds a fresh object with exactly the specified attributes, keeps the copy it was built as and the selected response (analysis first, then text), or raises the specified error |
| `PyStrings.Split` | ocr/ocr_document.py:10 | a split has at least one piece and no piece contains the separator |
| `PyStrings.JoinSplit` | ocr/ocr_document.py:11 | joining the pieces of a split gives the string back |
| `PyStrings.SplitJoin` | ocr/ocr_document.py:11 | splitting a join of separator-free pieces gives the pieces back |
| `PyStrings.Repeat` | ocr/ocr_document.py:39 | `c * n` has n characters, all c, and none when n is at most 0 |
| `PyStrings.ValueOfString` | ocr/ocr_document.py:49 | `str(n)` denotes n |
| `OcrDocument.Filename` | ocr/ocr_document.py:10 | the file name contains no "/" |
| `OcrDocument.Folder` | ocr/ocr_document.py:11 | the folder is never empty and ends in "/" |
| `OcrDocument.Extension` | ocr/ocr_document.py:12 | the extension contains no "." |
| `OcrDocument.Name` | ocr/ocr_document.py:13 | the name is the file name with every ".extension" removed |
| `OcrDocument.NumPagesAsWritten` | ocr/ocr_document.py:31-35 | `_get_num_pages` as written: the PDF's page count when the extension equals ".pdf", else 1 |
| `OcrDocument.NumPages` | ocr/ocr_document.py:31-35 | `_get_num_pages` corrected: the PDF's page count when the extension equals "pdf", else 1 |
| `OcrDocument.NewDocument` | ocr/ocr_document.py:8-15 | `Document(file_path)` as written: it keeps the path, its file name holds no "/", its extension no ".", and its folder ends in "/" |
| `OcrDocument.CorrectedDocument` | ocr/ocr_document.py:8-15 | `Document(file_path)` with the corrected page count and every other field as written |
| `OcrDocument.FilenameSpec` | ocr/ocr_document.py:10 | the file name is what follows the last "/" and contains no "/" |
| `OcrDocument.FolderSpec` | ocr/ocr_document.py:11 | the folder ends in "/", folder and file name rebuild the path, and a bare file name has folder "/" |
| `OcrDocument.ExtensionSpec` | ocr/ocr_document.py:12 | the extension is what follows the last "." of the whole path and contains no "." |
| `OcrDocument.PathRoundTrip` | ocr/ocr_document.py:10-11 | dir + "/" + file gives back file as the file name and dir + "/" as the folder |
| `OcrDocument.ExtensionOfSuffix` | ocr/ocr_document.py:12 | a path ending in "." + ext has extension ext |
| `OcrDocument.NameOfPlainFile` | ocr/ocr_document.py:13 | stem.ext loses exactly ".ext" to give the name stem |
| `OcrDocument.PlainPath` | ocr/ocr_document.py:8-15 | a path dir/stem.ext gives file name stem.ext, folder dir/, extension ext, name stem and, as written, one page |
| `OcrDocument.NoDotQuirk` | ocr/ocr_document.py:12-13 | a path without "." has the whole path as its extension and the file name as its name |
| `OcrDocument.NumPagesAlwaysOne` | ocr/ocr_document.py:31-35 | as written, every document has one page, PDFs included, because no extension equals ".pdf" |
| `OcrDocument.PdfPagesCounted` | ocr/ocr_document.py:31-33 | corrected, a path ending in ".pdf" gets the page count the PDF reports |
| `OcrDocument.OtherFilesOnePage` | ocr/ocr_document.py:34-35 | corrected, a file that is not a PDF still has one page |
| `OcrDocument.AddCeros` | ocr/ocr_document.py:38-39 | `add_ceros` left-pads with zeros only, keeps `num` whole at the end, and has the larger of the two lengths |
| `OcrDocument.PaddedPage` | ocr/ocr_document.py:49 | a padded page number has the width of the page count and still denotes the page |
| `OcrDocument.PaddedOrder` | ocr/ocr_document.py:38-39 | padded page numbers compare as strings exactly as the pages compare as numbers |
| `OcrDocument.PageFileOrder` | ocr/ocr_document.py:49-50 | the page files of one split sort in page order |

## Left out

- The AWS, Google and Tika OCR classes and the `ocr.py` dispatch are left out: they are network calls and polling loops. The AWS OCR object enters the model as a value holding its two optional responses.
- `table_to_pandas` and `tables_to_xlsx` are left out: they build pandas data frames and write Excel files.
- `_get_blocks_per_page` in `OCR/aws_response_formatter.py` is left out: nothing calls it.
- `split_pdf_in_pages`, `open_file` and `_pdf_to_jpg` are left out. They read and write files and start processes. Only the naming of the page files (`add_ceros`) is modelled.
- The `print` before the bare `raise` is left out.
- The formatter's `Aws_ocr` attribute is left out. The response it selects is kept, as the constant field `response`.
- `forms` and each table's row → column dictionaries are Dafny maps. Their contents are modelled, but not the order in which their keys were inserted, which is the order a caller iterating them would see.
- PdfFileReader's page count becomes a parameter of `NewDocument` and `CorrectedDocument`.
- `NewDocument` models the constructor as written, so its page count is always 1. `CorrectedDocument` models the evident intent and is used only by the lemmas about the corrected page count.
- `Document`'s `pages_text`, `text`, `pages_response` and `pages_tables` are left out: they are set to None.
- Python evaluates `cell["RowIndex"]` after `self._get_block_text(cell)`, and `cell["ColumnIndex"]` after `setdefault`. The model keeps that order of errors. The entry `setdefault` creates before a missing ColumnIndex raises is not modelled, because the exception discards the table.
- Every block is assumed to carry "Id" and "BlockType", and every relationship "Type" and "Ids". A missing one would raise KeyError (`relationship["Type"]` and `relationship["Ids"]` at ocr/lambdas/aws/aws_response_formatter.py:88-89, 102-103 and 114-115, and OCR/aws_response_formatter.py:78-79 and 91-92); the model does not raise it.
- Formatter.ResponseFormatter.GetKvRelationship: requires the forms copy and both maps, which is what the constructor guarantees when it calls it.
- Formatter.ResponseFormatter.BuildAnalysis: requires that `forms` is still unset and that the forms copy has both maps, which is what `BuildBase` leaves.

## Findings

| source | as written | input that shows it | evidently intended | confidence | as-written member | corrected member |
|---|---|---|---|---|---|---|
| ocr/ocr_document.py:32 | `_get_num_pages` compares the extension with '.pdf', but the extension is taken after the last "." and never contains one | "scan.pdf" with 5 pages gets `num_pages` 1 | compare with 'pdf', so that a PDF gets the page count PdfFileReader reports | not executed | `OcrDocument.NumPagesAlwaysOne` | `OcrDocument.PdfPagesCounted` |
