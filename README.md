# WikiText pipeline: raw → staging → curated, in Dafny

This project models the data logic of a three-stage text pipeline and proves
properties about it:

1. **Raw** (`build/unpack_to_raw.py`, `unpack_data`). Visits the `train`, `test` and
   `dev` splits of an input directory in that order, and each split's files in
   listing order. It reads the `text` column of every regular `.arrow` file (IPC
   file format first, then IPC stream format) and every `.parquet` file. It keeps
   the non-null, non-blank cells stripped, writes them one per line
   (`text + '\n'`), and uploads the result as one object. It uploads nothing when
   nothing was collected.
2. **Staging** (`src/preprocess_to_staging.py`, `preprocess_to_staging`). Downloads
   that object and splits it on `'\n'`. It keeps the stripped non-blank lines and
   drops repeats, keeping the first occurrence. Then it truncates the MySQL
   `texts` table and inserts the lines in batches of 1000, committing after each
   batch. A failed truncate is only a warning. A failed batch is rolled back and
   ends the stage.
3. **Curated** (`src/process_to_curated.py`, `process_to_curated`). Empties the
   MongoDB collection and walks the staged rows in cursor order. It tokenizes
   each text, skipping rows whose tokenization raises, and builds one document
   per remaining row (`token_count = len(tokens)`, `source = "mysql"`). Documents
   go through a buffer that is flushed with `insert_many` whenever it holds
   `batch_size` documents, and once more at the end if anything is left.

Modules, one per file:

- `Wrappers`: `Option`.
- `Text`: Python's `str.isspace` set, `str.strip()`, `split('\n')` / `'\n'.join`,
  and the comprehension `[s.strip() for s in xs if s.strip()]`.
- `Batching`: `range(0, n, size)` slicing and the flush-when-full discipline,
  which produces the same slices.
- `ObjectStorage`: the S3 bucket as a map.
- `UnpackToRaw`, `PreprocessToStaging`, `ProcessToCurated`: the three stages.
- `Pipeline`: how the stages compose.

The foreign parts are parameters:

- the Arrow/Parquet decoders (a `Contents` record saying what each decoder makes
  of a file);
- the tokenizer (`tokenize: string -> Option<seq<int>>`, where `None` means it
  raised);
- the clock (`now(j)`);
- the outcome of every network or database call (`bool` / `Option` arguments).

The table, the collection and the object store are classes whose methods change
them in place.

`build/unpack_to_raw.py:107` re-raises before the removal at lines 110-112,
so a failed upload leaves the scratch file behind. The model has no file
system and records only that a failed upload changes no object.

## Model

| member | source | states |
|---|---|---|
| Text.IsSpace | src/preprocess_to_staging.py:45 | the characters `str.isspace()` accepts, which are what `strip()` removes (also at `build/unpack_to_raw.py:58` and `:75`): the 29 code points listed in `SpaceCodePoints` |
| Text.TrimEnd | src/preprocess_to_staging.py:45 | the right-hand half of `strip()`: trailing characters in Python's `isspace` set are dropped, one at a time from the end |
| Text.Strip | src/preprocess_to_staging.py:45 | `str.strip()` with no argument: leading whitespace is dropped, then trailing whitespace (the same `strip()` is used at `build/unpack_to_raw.py:58` and `:75`) |
| Text.TrimEndSpec | src/preprocess_to_staging.py:45 | the right-stripped text is a prefix of the input, what it drops is all whitespace, and it does not end in whitespace |
| Text.StripSpec | src/preprocess_to_staging.py:45 | `strip()` leaves no whitespace at either end; it is empty exactly when the input is all whitespace; it leaves an already-stripped text unchanged; it adds no character |
| Text.StripIsInfix | src/preprocess_to_staging.py:45 | `strip()` returns the infix of the input that remains once all-whitespace runs are cut from both ends |
| Text.SplitLines | src/preprocess_to_staging.py:41 | `split('\n')` yields exactly (number of `'\n'`) + 1 pieces, none of which holds `'\n'` |
| Text.SplitWithoutNewline | src/preprocess_to_staging.py:41 | a text without `'\n'` splits into itself alone |
| Text.SplitAtFirstNewline | src/preprocess_to_staging.py:41 | splitting `p + '\n' + rest`, where `p` has no `'\n'`, gives `p` followed by the pieces of `rest` |
| Text.SplitJoin | src/preprocess_to_staging.py:41 | splitting `'\n'.join(pieces)` gives the pieces back, for a non-empty list of pieces without `'\n'` |
| Text.JoinSplit | src/preprocess_to_staging.py:41 | joining the pieces of a split with `'\n'` gives the text back |
| Text.StripNonBlank | src/preprocess_to_staging.py:45 | the cleaned lines are no more numerous than the lines |
| Text.StripNonBlankClean | src/preprocess_to_staging.py:45 | each cleaned line is non-empty and equal to its own strip |
| Text.StripAll | src/preprocess_to_staging.py:45 | element k of `[s.strip() for s in xs]` is `xs[k].strip()` |
| Text.StripNonBlankIsNonEmptyStripped | src/preprocess_to_staging.py:45 | the cleaned lines are, in order, the non-empty elements of the stripped lines (an in-order subsequence) |
| Text.StripNonBlankMembers | src/preprocess_to_staging.py:45 | a text is among the cleaned lines exactly when it is non-empty and is the strip of some line |
| Text.StripNonBlankOfClean | src/preprocess_to_staging.py:45 | a list of non-empty stripped texts is left unchanged by cleaning |
| Text.StripNonBlankIdempotent | src/preprocess_to_staging.py:45 | cleaning twice is cleaning once |
| Text.StripNonBlankAppend | src/preprocess_to_staging.py:45 | cleaning a concatenation is concatenating the cleaned parts |
| Batching.Batches | src/preprocess_to_staging.py:116-117 | the list `[s[i:i + size] for i in range(0, len(s), size)]`: empty for an empty list, one slice when `s` fits, otherwise `s[:size]` followed by the slices of `s[size:]` |
| Batching.BatchesShape | src/preprocess_to_staging.py:116-117 | the slices `s[i:i+size]` for `i` in `range(0, len(s), size)` concatenate back to `s`; each is non-empty with at most `size` elements, and all but the last hold exactly `size` |
| Batching.BatchesCons | src/preprocess_to_staging.py:116-117 | the first slice is `s[:size]` (or all of `s`), followed by the slices of the remainder |
| Batching.BatchesFrom | src/preprocess_to_staging.py:116-117 | the slices of `s[i:]` start with `s[i:min(i + size, len(s))]` and continue from there |
| Batching.BatchAt | src/preprocess_to_staging.py:116-117 | slice k is `s[k*size : min((k+1)*size, len(s))]` |
| Batching.BatchesPrefix | src/preprocess_to_staging.py:116-121 | the first k slices together are `s[:min(k*size, len(s))]`: what batches 0..k-1 wrote |
| Batching.BatchesAfterFull | src/process_to_curated.py:137-147 | full slices at the front are kept as they are, and slicing continues after them |
| Batching.SingleBatch | src/process_to_curated.py:145-146 | a non-empty list no longer than one slice is one slice |
| Batching.NextFlush | src/process_to_curated.py:137-147 | when the flushed full batches plus the buffer are a prefix of all documents, and the buffer is full or reaches the end, the buffer is the next slice |
| ObjectStorage.ObjectStore.Put | build/unpack_to_raw.py:102-107 | a successful upload stores the body under bucket and key; a failed one changes no object |
| ObjectStorage.ObjectStore.Get | src/preprocess_to_staging.py:31-37 | the download returns the stored text exactly when the key exists |
| UnpackToRaw.EndsWith | build/unpack_to_raw.py:38 | `str.endswith`: the name's last characters are the suffix (`.arrow` here, `.parquet` at line 67) |
| UnpackToRaw.ReadArrow | build/unpack_to_raw.py:42-49 | the IPC file reader's table when it succeeds; otherwise what the IPC stream reader makes of the same file |
| UnpackToRaw.ReadParquet | build/unpack_to_raw.py:70 | what `pq.read_table` makes of the file |
| UnpackToRaw.Present | build/unpack_to_raw.py:58 | the `text and` filter: null cells and empty strings are dropped, order kept |
| UnpackToRaw.CleanColumn | build/unpack_to_raw.py:58 | no more values are kept from a column than it has cells |
| UnpackToRaw.ParsedTexts | build/unpack_to_raw.py:55-62 | a table with a `text` column yields its cleaned column; a missing column or a reader that raised yields nothing |
| UnpackToRaw.EntryTexts | build/unpack_to_raw.py:33-81 | a non-file entry and a name with neither suffix yield nothing; `.arrow` is tried before `.parquet` |
| UnpackToRaw.ListingTexts | build/unpack_to_raw.py:30-81 | a split's texts are its entries' texts in listing order |
| UnpackToRaw.SplitTexts | build/unpack_to_raw.py:25-27 | a split that does not exist or is not a directory yields nothing (lines 82-83) |
| UnpackToRaw.SplitsTexts | build/unpack_to_raw.py:24-83 | `all_texts` after the `for subfolder in subfolders` loop has visited the given splits: their texts in the order visited |
| UnpackToRaw.CorpusTexts | build/unpack_to_raw.py:18-83 | `all_texts`: the texts of train, then test, then dev |
| UnpackToRaw.ParsedTextsClean | build/unpack_to_raw.py:55-58 | every value kept from a parsed column is non-empty with no whitespace at either end |
| UnpackToRaw.CleanColumnMembers | build/unpack_to_raw.py:58 | a value is kept exactly when it is the non-empty strip of some non-null cell |
| UnpackToRaw.CollectTexts | build/unpack_to_raw.py:18-83 | the loop over the splits collects exactly the corpus: train, test, dev, each split in listing order |
| UnpackToRaw.CollectSplit | build/unpack_to_raw.py:27-83 | one split's pass extends the collected texts by exactly that split's texts; a missing split or a non-directory adds nothing |
| UnpackToRaw.ReadEntry | build/unpack_to_raw.py:33-81 | one listing entry yields exactly its cleaned `text` column when it is a readable `.arrow` or `.parquet` file, and nothing otherwise |
| UnpackToRaw.SplitsInOrder | build/unpack_to_raw.py:21-24 | visiting the split list in order is train, then test, then dev |
| UnpackToRaw.ListingTextsAppend | build/unpack_to_raw.py:30-81 | the texts of two listings in a row are the texts of the first, then those of the second |
| UnpackToRaw.EntryBlock | build/unpack_to_raw.py:56-59 | each file's texts form one contiguous block between the texts of the files before it and after it |
| UnpackToRaw.SilentEntryIgnored | build/unpack_to_raw.py:34-81 | an entry that yields nothing (not a file, wrong suffix, unreadable, no `text` column) can be removed without changing the result, so it does not abort the run |
| UnpackToRaw.EntryTextsSource | build/unpack_to_raw.py:34-73 | only regular files named `.arrow` or `.parquet` whose read produced a `text` column contribute |
| UnpackToRaw.StreamOnlyAfterFileFailure | build/unpack_to_raw.py:42-49 | when the IPC file reader succeeds, the stream reader's behaviour does not matter |
| UnpackToRaw.MissingSplitIsEmpty | build/unpack_to_raw.py:27-83 | a missing or non-directory split contributes what an empty directory would |
| UnpackToRaw.ListingTextsClean | build/unpack_to_raw.py:58-76 | every text collected from a listing is non-empty and stripped |
| UnpackToRaw.CorpusTextsClean | build/unpack_to_raw.py:58-76 | every text of the corpus is non-empty and stripped |
| UnpackToRaw.Serialized | build/unpack_to_raw.py:95-97 | the file content: each text followed by `'\n'`, in order |
| UnpackToRaw.WriteLines | build/unpack_to_raw.py:95-97 | the write loop produces the serialized corpus: each text followed by `'\n'` |
| UnpackToRaw.SerializedAppend | build/unpack_to_raw.py:95-97 | serializing a concatenation is concatenating the serializations |
| UnpackToRaw.SerializedLength | build/unpack_to_raw.py:95-97 | the file's length is the sum of `len(t) + 1` |
| UnpackToRaw.SerializedIsJoin | build/unpack_to_raw.py:95-97 | the file is `'\n'.join(texts + [''])` |
| UnpackToRaw.SplitSerialized | build/unpack_to_raw.py:95-97 | splitting the file on `'\n'` gives the texts and one trailing empty string, when no text holds `'\n'` |
| UnpackToRaw.UnpackData | build/unpack_to_raw.py:85-114 | nothing is uploaded exactly when nothing was collected; otherwise the serialized corpus is stored under the output name, or the failure is reported and no object changes |
| PreprocessToStaging.Dedup | src/preprocess_to_staging.py:49-54 | the unique lines have no duplicates, hold exactly the values of the cleaned lines, and are no more numerous |
| PreprocessToStaging.DedupLines | src/preprocess_to_staging.py:49-54 | the `seen`-set loop computes the order-preserving dedup |
| PreprocessToStaging.DedupFirstOccurrences | src/preprocess_to_staging.py:49-54 | the unique lines are a subsequence of the cleaned lines (increasing positions), each at its first occurrence |
| PreprocessToStaging.DedupOfDistinct | src/preprocess_to_staging.py:49-54 | a list without repeats is unchanged by the dedup |
| PreprocessToStaging.DedupIdempotent | src/preprocess_to_staging.py:49-54 | deduplicating the unique lines returns them unchanged |
| PreprocessToStaging.DedupExample | src/preprocess_to_staging.py:49-54 | `["b","a","b","c"]` becomes `["b","a","c"]` |
| PreprocessToStaging.StagedLines | src/preprocess_to_staging.py:41-54 | the lines the stage loads contain no duplicates |
| PreprocessToStaging.StagedLinesClean | src/preprocess_to_staging.py:45-54 | every staged line is non-empty and equal to its own strip |
| PreprocessToStaging.StagedLinesMembers | src/preprocess_to_staging.py:41-54 | a line is staged exactly when it is the non-empty strip of some piece of the raw text between line feeds |
| PreprocessToStaging.NumberRows | src/preprocess_to_staging.py:117-119 | the rows an `INSERT INTO texts (text)` of a batch adds: the batch's texts in order, with AUTO_INCREMENT ids counting up from the next id |
| PreprocessToStaging.NumberRowsSplit | src/preprocess_to_staging.py:116-121 | numbering the lines in two parts gives the numbering of the whole: the second part's ids continue where the first part's stop |
| PreprocessToStaging.TextColumn | src/preprocess_to_staging.py:117-119 | the `text` column of the table, row by row |
| PreprocessToStaging.StagingTable.constructor | src/preprocess_to_staging.py:81-90 | `CREATE TABLE` makes an empty table whose next id is 1 |
| PreprocessToStaging.StagingTable.Truncate | src/preprocess_to_staging.py:100-105 | a successful truncate empties the table and restarts ids at 1; a failed one leaves it as it was |
| PreprocessToStaging.StagingTable.InsertBatch | src/preprocess_to_staging.py:117-128 | a committed batch appends its texts with consecutive fresh ids; a rolled-back batch leaves the rows as they were and never moves the next id back |
| PreprocessToStaging.TextColumnAppend | src/preprocess_to_staging.py:117-119 | the text column after an insert is the old column followed by the batch |
| PreprocessToStaging.CommittedBatch | src/preprocess_to_staging.py:117-121 | after a committed batch, the earlier rows are untouched and the table holds the lines up to the batch's end |
| PreprocessToStaging.IdsDistinct | src/preprocess_to_staging.py:81-86 | ids that increase along the table are pairwise distinct (primary key) |
| PreprocessToStaging.NextBatch | src/preprocess_to_staging.py:116-117 | the batch a loop turn inserts is the next slice of `range(0, n, 1000)` |
| PreprocessToStaging.NextPrefix | src/preprocess_to_staging.py:116-121 | the batches done so far cover exactly the lines before the next one |
| PreprocessToStaging.LoadingStep | src/preprocess_to_staging.py:116-121 | a committed batch moves the loop state on by one slice |
| PreprocessToStaging.LoadingStopped | src/preprocess_to_staging.py:119-130 | when batch k fails, exactly batches 0..k-1, i.e. `lines[:1000*k]`, are in the table |
| PreprocessToStaging.LoadingFinished | src/preprocess_to_staging.py:116-124 | when the loop ends, every slice went in and the table holds all lines |
| PreprocessToStaging.LoadBatches | src/preprocess_to_staging.py:111-130 | on success `total_inserted == len(unique_lines)` and the table holds its old rows then the lines, in order, with consecutive ids from the old next id. On failure at batch k the earlier batches stay committed with those ids, batch k is rolled back, and no later batch is tried |
| PreprocessToStaging.PreprocessToStaging | src/preprocess_to_staging.py:27-130 | a missing object or an unreachable database changes nothing. Otherwise the table holds the staged lines, on top of the old rows only when the truncate failed, or the lines of the batches before the failing one. After a successful truncate the rows are the lines with ids 1, 2, …; after a failed one they continue from the old next id |
| ProcessToCurated.MakeDocument | src/process_to_curated.py:122-133 | a document keeps the row's id and text and the tokens; `token_count == len(tokens)`, `source == "mysql"`, `tokenizer` is the model name |
| ProcessToCurated.Documents | src/process_to_curated.py:104-135 | no more documents than rows |
| ProcessToCurated.DocumentsWellFormed | src/process_to_curated.py:123-133 | every built document is well formed as above |
| ProcessToCurated.DocumentsStep | src/process_to_curated.py:104-135 | one more row appends its document when the tokenizer accepts its text, and changes nothing when it raises |
| ProcessToCurated.DocumentsCount | src/process_to_curated.py:105-135 | there are exactly as many documents as rows that tokenized |
| ProcessToCurated.DocumentsFromRows | src/process_to_curated.py:105-135 | document k is built from row idx[k] with its tokens and timestamp; the idx increase (cursor order); every row that tokenized has its document, and only those rows do |
| ProcessToCurated.DocumentIdsDistinct | src/process_to_curated.py:123-124 | rows with distinct ids give documents with distinct ids |
| ProcessToCurated.DocumentsPrefix | src/process_to_curated.py:105-135 | the documents built from the first j rows are a prefix of all documents |
| ProcessToCurated.FlushSize | src/process_to_curated.py:138 | the buffer length at which `len(documents_batch) >= batch_size` first holds: `batch_size`, or 1 when `batch_size` is 1 or less |
| ProcessToCurated.Written | src/process_to_curated.py:139 | an ordered `insert_many` that raises after writing `w` documents has written `min(w, len(batch))` of them |
| ProcessToCurated.Migrator.constructor | src/process_to_curated.py:101-102 | `documents_batch = []` and `total_inserted = 0`, with no `insert_many` call made yet and the collection as it was found |
| ProcessToCurated.Migrator.Flush | src/process_to_curated.py:139-142 | a successful `insert_many` appends the whole buffer, counts it and empties the buffer; a failed one appends only the documents it wrote before raising |
| ProcessToCurated.Migrator.AddDocument | src/process_to_curated.py:135-142 | after an append (and flush when full) every flushed batch holds `batch_size` documents, the buffer is short of one, and flushed + buffer are the documents so far; or the run stopped at a failing call |
| ProcessToCurated.Migrator.AddRow | src/process_to_curated.py:105-142 | one row's iteration: a row the tokenizer rejects leaves the state as it was, which is the state for the documents of one more row; otherwise its document is added as by AddDocument |
| ProcessToCurated.Migrator.FinalFlush | src/process_to_curated.py:145-147 | the remainder is flushed only when non-empty; then the flushed batches are exactly the slices of all documents |
| ProcessToCurated.Migrator.Migrate | src/process_to_curated.py:86-155 | the collection is cleared first; on success it holds exactly the built documents, `total_inserted` is their number, and the `insert_many` arguments are their consecutive slices of `max(batch_size, 1)`. On failure at call c it holds the earlier slices and what call c wrote |
| Pipeline.StagedFromSerialized | src/preprocess_to_staging.py:41-54 | for clean texts without `'\n'`, the staging stage's cleaning of the serialized texts is just their dedup |
| Pipeline.CorpusToStaging | build/unpack_to_raw.py:85-97 | the uploaded corpus reaches the staging table as its distinct texts in corpus order, when no text holds `'\n'` |
| Pipeline.SerializedLineFeeds | build/unpack_to_raw.py:95-97 | the file holds one `'\n'` per text plus those inside the texts |
| Pipeline.SerializedPieces | src/preprocess_to_staging.py:41 | splitting the file gives one piece per text, one per embedded `'\n'`, and a final empty piece |
| Pipeline.CursorIdsDistinct | src/process_to_curated.py:61-105 | the cursor over `SELECT id, text FROM texts` returns the staging table's rows in some order (no `ORDER BY`); in any such order the rows' ids are pairwise distinct, because the table's ids are ascending (`id INT AUTO_INCREMENT PRIMARY KEY` at `src/preprocess_to_staging.py:82`) |
| Pipeline.StagedDocumentIdsDistinct | src/process_to_curated.py:105-124 | documents built from the staging table's rows never share an id, whatever order the cursor returns the rows in |

## Left out

- The S3 transport (`boto3`, endpoint configuration) is left out. An upload is `ObjectStore.Put` with its success as a parameter. A download fails only when the key is missing; network errors on download are not distinguished.
- A split that passes the existence test at `build/unpack_to_raw.py:27` but cannot be listed (a `PermissionError`, or a directory removed after the test) is not modelled. `os.listdir` at line 30 is outside every `try`, so in the code such a split aborts `unpack_data` before any upload. The model's `SplitPath` is either a listed directory or not a directory.
- The scratch text file (`os.makedirs`, writing to `temp/`, `os.remove`) is left out: the model has no file system. The file content is modelled as the string `WriteLines` produces. That a failed upload leaves the file behind (see above) is therefore not represented.
- The Arrow and Parquet decoders and `to_pandas` are foreign code. What each decoder makes of a file is given as data (`Contents`), including whether it raised.
- Cells that are neither strings nor null are left out; the model's column holds only strings or nulls. In the code they behave in three ways:
  - A falsy non-string cell (`0`, `0.0`, `False`) fails the `text and` test at `build/unpack_to_raw.py:58` and is skipped, like an empty string.
  - A `bytes` cell passes `bytes.strip()` and lands in `all_texts`. Then `text + '\n'` at line 97 raises `TypeError` outside any `try`, so `unpack_data` aborts before the upload.
  - Any other truthy non-string cell (an `int`, say) makes `.strip()` raise `AttributeError` and the exception is caught by the `try` at lines 40-64 for `.arrow` files or at lines 69-81 for `.parquet` files, so that file contributes nothing.
- UTF-8 encoding and decoding are left out. Texts are sequences of Unicode code points, and the object holds exactly the written string.
- Whitespace is Python's `str.isspace` set, written out as code points. Python's `strip()` uses this set, so no abstract predicate is needed.
- MySQL and MongoDB connections, cursors, `CREATE TABLE IF NOT EXISTS` and the `created_at` column are left out. So are `SELECT COUNT(*)`, the sample and aggregate verification queries (read-only, and their errors are only printed), and the float average. Connecting and creating the table are one `connects` flag. The MySQL query, the tokenizer load, the Mongo connection and `delete_many` are one `ready` flag. A `delete_many` that fails partway could leave the collection partly deleted; the model does not represent that: when `ready` is false the collection is unchanged, and when it is true the collection is emptied.
- The cursor order of `SELECT id, text FROM texts` has no `ORDER BY`. SQL then promises no order (InnoDB usually returns a plain table scan in primary-key order, but that is not guaranteed). The model takes the rows in whatever order they are given.
- PreprocessToStaging.StagingTable.InsertBatch: on a rolled-back batch, the model moves the next id forward by the batch size. The contract promises only that it does not move back, which is all MySQL promises about AUTO_INCREMENT after a rollback.
- A failed `executemany` writes nothing, because the statement is rolled back before the error propagates. A failed `insert_many` writes a prefix of its batch of any length (ordered insert). Which documents fail is a parameter.
- The tokenizer (`AutoTokenizer`, `truncation`, `padding`, `max_length=128`) is a parameter, and the model does not assume the 128-token bound. The timestamp `datetime.utcnow().isoformat()` is the parameter `now(j)`.
- A non-integer `batch_size` is left out. A `batch_size` of 0 or less behaves as 1, as the source's `>=` test makes it.
- All `print` output and the command-line entry points (`argparse` defaults such as `batch_size=100`) are left out.
- `tests/sql_test_curated.py`, `tests/sql_test_staging.py`, `try_sqlite.py` and `dataset.py` are connectivity and download scripts with no logic of their own, and are not part of this model.
