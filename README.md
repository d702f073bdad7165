# Shipment-status conversion scripts, modelled in Dafny

This project models the two conversion scripts of `python-scripts`:

- **Training-record builder** (`scripts/openai_training_data_csv_to_jsonl.py`). Rows of a labelled CSV
  file (`status`, `status_type`, `substatus_type`) become one chat record per row, written as one
  line of JSON each (JSON Lines). Every record holds three messages:
  - a system prompt listing the valid (status type, substatus type) pairs of a fixed taxonomy;
  - a user message quoting the status;
  - an assistant message whose content is the JSON text of the three fields, with
    `substatus_type` normalised (`"null"`, `"None"` and `""` become JSON `null`).
- **Classification-result flattener** (`scripts/status_classifier_response_json_to_csv.py`). The
  `classified_statuses` lists of the `.json` documents of a folder become one CSV table. Missing
  fields take defaults. A missing or null `substatus_type` is written as an empty cell.

Modules:

| file | module | what it holds |
|---|---|---|
| `wrappers.dfy` | `Wrappers` | `Option` (also Python's `str \| None`), `Result`, `Outcome` |
| `seqs.dfy` | `Seqs` | a sequence built element by element (`Mapped`) |
| `text.dfy` | `Text` | `str.join`, `str.split` on one character, `startswith`/`endswith`, newline-terminated lines, containment |
| `pytext.dfy` | `PyText` | `str()` of `str \| None` (as an f-string does) and `repr()` of strings and lists |
| `json.dfy` | `Json` | `json.dumps` of strings, `null`, objects and arrays with `ensure_ascii` escaping, and a reader of JSON string literals used to state that the encoding loses nothing |
| `training_records.dfy` | `TrainingRecords` | the taxonomy, its flattening and the prompt; the column check; the normalisation; the record of a row; the output loop (`Convert`); the read-back of the output |
| `classifier_csv.dfy` | `ClassifierCsv` | the `.json` filter; extraction with defaults; the nested collection loops (`CollectStatuses`); the CSV writer (`WriteCsv`); the whole run (`Run`); the read-back of the table |

Inputs arrive already parsed:
- a CSV row is a `map<string, Option<string>>`, mapping header names to cells, with `None` for a cell the row lacks;
- a JSON document is a `Document` whose fields are `Missing`, `Null` or `Str(s)`.

The outputs are the exact texts the scripts write to their files, with `\n` line endings as on POSIX.

## Model

| member | source | states |
|---|---|---|
| TrainingRecords.StatusCategories | scripts/openai_training_data_csv_to_jsonl.py:24-50 | the taxonomy dictionary, keys and lists in the order written; its content is stated by `TaxonomyPairs` |
| TrainingRecords.StatusPairs | scripts/openai_training_data_csv_to_jsonl.py:53 | the flattened taxonomy; its contract is stated by `StatusPairsLength`, `StatusPairsAppend`, `StatusPairsAt` and `StatusPairsMember` below |
| TrainingRecords.StatusPairsLength | scripts/openai_training_data_csv_to_jsonl.py:53 | flattening yields one pair per substatus entry of the taxonomy |
| TrainingRecords.StatusPairsAppend | scripts/openai_training_data_csv_to_jsonl.py:53 | flattening keeps key order: the pairs of earlier keys come before those of later keys |
| TrainingRecords.StatusPairsAt | scripts/openai_training_data_csv_to_jsonl.py:53 | the j-th entry of the i-th key sits at the index after all earlier keys' entries plus j (key order, then list order) |
| TrainingRecords.StatusPairsMember | scripts/openai_training_data_csv_to_jsonl.py:53 | a pair is listed if and only if its status type is a key whose list holds its substatus type |
| TrainingRecords.TaxonomyPairs | scripts/openai_training_data_csv_to_jsonl.py:24-53 | the taxonomy flattens to 21 pairs: Exception pairs first, `("Info", None)` at 11, `("Transit", None)` at 12, `("Transit", "Pick Up Confirmed")` last |
| TrainingRecords.SystemPrompt | scripts/openai_training_data_csv_to_jsonl.py:56-58 | the fixed instruction followed by the `repr` of the pair list; its contract is stated by `SystemPromptListsPairs` |
| TrainingRecords.SystemPromptListsPairs | scripts/openai_training_data_csv_to_jsonl.py:56-58 | the system prompt starts with the fixed instruction and contains the `repr` of every valid pair |
| TrainingRecords.ReprPair | scripts/openai_training_data_csv_to_jsonl.py:57 | `repr` of one (status type, substatus type) tuple; `SystemPromptListsPairs` states that each pair's `repr` appears in the prompt |
| TrainingRecords.ReprPairs | scripts/openai_training_data_csv_to_jsonl.py:57 | `repr` of the pair list; stated by `PyText.ReprListLists` and `SystemPromptListsPairs` |
| PyText.ReprStr | scripts/openai_training_data_csv_to_jsonl.py:57 | `repr` of a string that needs no escaping: the string between single quotes; the simplification is under "## Left out" |
| PyText.ReprOptional | scripts/openai_training_data_csv_to_jsonl.py:57 | `repr` of a `str \| None`: `None`, or the string's `repr` |
| PyText.ReprList | scripts/openai_training_data_csv_to_jsonl.py:57 | `repr` of a list: `[`, the elements' `repr`s separated by `, `, then `]`; `ReprListLists` states that it keeps its lead and shows every element |
| PyText.ReprListLists | scripts/openai_training_data_csv_to_jsonl.py:57 | text ending in the `repr` of a list keeps its lead and contains every element's `repr` |
| TrainingRecords.RequiredFields | scripts/openai_training_data_csv_to_jsonl.py:64 | the three required column names; `CheckColumns` states the check made with them |
| TrainingRecords.CheckColumns | scripts/openai_training_data_csv_to_jsonl.py:64-74 | the run passes if and only if there is a first row holding all three columns; no rows is the empty-input error; otherwise the error names the first row's keys |
| TrainingRecords.Cell | scripts/openai_training_data_csv_to_jsonl.py:77-79 | `row.get(key)`: the cell, or `None` when the row lacks the column; `BuildRecord` states that the user message shows the status cell verbatim (`None` when absent) and `NormalizeSubstatus` what happens to the substatus cell |
| TrainingRecords.NormalizeSubstatus | scripts/openai_training_data_csv_to_jsonl.py:81-82 | the result is null if and only if the cell is missing or exactly `"null"`, `"None"` or `""`; any other value passes through unchanged |
| TrainingRecords.UserContent | scripts/openai_training_data_csv_to_jsonl.py:87 | the user message of a row; what it holds is stated in `BuildRecord`'s contract (the status verbatim between backquotes, `None` when absent) |
| PyText.Format | scripts/openai_training_data_csv_to_jsonl.py:87 | `str()` as an f-string applies it: a string as it is, `None` as the four letters `None`; `BuildRecord` states the user text built with it, and the name and type cells of scripts/status_classifier_response_json_to_csv.py:54 use it too (`ClassifierCsv.Cells`, `ClassifierCsv.TwoDocumentsOneRow`) |
| TrainingRecords.BuildRecord | scripts/openai_training_data_csv_to_jsonl.py:77-94 | three messages: system with the prompt, user with ``Classify the status: `…` `` quoting the status verbatim (`None` when the row lacks it), assistant whose JSON text reads back as the row's status, status type and normalised substatus type |
| TrainingRecords.RowPayload | scripts/openai_training_data_csv_to_jsonl.py:77-92 | the dictionary given to `json.dumps`: status and status type as read, substatus type normalised; `BuildRecord` states that the assistant text reads back as it |
| TrainingRecords.EncodePayload | scripts/openai_training_data_csv_to_jsonl.py:88-92 | the assistant's JSON text; its contract is stated by `PayloadRoundTrip` (reads back as the payload) and `PayloadPrintable` |
| TrainingRecords.PayloadRoundTrip | scripts/openai_training_data_csv_to_jsonl.py:88-92 | the assistant's JSON text reads back as exactly the payload it encodes |
| TrainingRecords.PayloadPrintable | scripts/openai_training_data_csv_to_jsonl.py:88-92 | the assistant's JSON text is printable ASCII |
| TrainingRecords.EncodeMessage | scripts/openai_training_data_csv_to_jsonl.py:86-88 | `json.dumps` of one role/content dictionary; `MessageRoundTrip` states that it reads back as the message |
| TrainingRecords.MessageRoundTrip | scripts/openai_training_data_csv_to_jsonl.py:85-93 | one `{"role", "content"}` object reads back as its message, whatever text follows it |
| TrainingRecords.MessagePrintable | scripts/openai_training_data_csv_to_jsonl.py:86-88 | one message's JSON text is printable ASCII |
| TrainingRecords.ItemsRoundTrip | scripts/openai_training_data_csv_to_jsonl.py:85-93 | a non-empty list of encoded messages reads back as those messages, in order, through its closing bracket |
| TrainingRecords.EncodeRecord | scripts/openai_training_data_csv_to_jsonl.py:84-96 | one output line's JSON text; its contract is stated by `RecordRoundTrip` and `RecordPrintable` |
| TrainingRecords.RecordRoundTrip | scripts/openai_training_data_csv_to_jsonl.py:84-96 | one output line reads back as exactly the record it encodes |
| TrainingRecords.RecordPrintable | scripts/openai_training_data_csv_to_jsonl.py:96 | an output line is printable ASCII, so it holds no line break |
| TrainingRecords.Records | scripts/openai_training_data_csv_to_jsonl.py:76-94 | one record per row, in row order, each the record of that row |
| TrainingRecords.Lines | scripts/openai_training_data_csv_to_jsonl.py:96 | one line per record, in order, each the JSON text of that record |
| TrainingRecords.JsonlText | scripts/openai_training_data_csv_to_jsonl.py:96 | the output file's text; its contract is stated by `JsonlTextStep`, `Convert` and `JsonlRoundTrip` |
| TrainingRecords.JsonlTextStep | scripts/openai_training_data_csv_to_jsonl.py:96 | handling one more row appends exactly that row's line and a newline |
| TrainingRecords.JsonlTextAppend | scripts/openai_training_data_csv_to_jsonl.py:96 | one more row at the end of the input appends exactly that row's line and a newline to the output |
| TrainingRecords.Convert | scripts/openai_training_data_csv_to_jsonl.py:67-96 | the outcome is the column check's; on failure the (already truncated) output is empty; on success it is every row's line, each followed by `\n`, all with the prompt built from the taxonomy |
| TrainingRecords.LinesRoundTrip | scripts/openai_training_data_csv_to_jsonl.py:96 | lines each holding a record read back as those records |
| TrainingRecords.JsonlRoundTrip | scripts/openai_training_data_csv_to_jsonl.py:76-96 | the output splits into exactly one line per row, in row order, each reading back as that row's record |
| Json.HexDigit | scripts/openai_training_data_csv_to_jsonl.py:88 | a hexadecimal digit is a decimal digit or a lowercase letter, printable, and reads back as its value |
| Json.Hex4 | scripts/openai_training_data_csv_to_jsonl.py:88 | the four hex digits of a `\uXXXX` escape, each written by `HexDigit` and so lowercase, are printable and read back as the code unit |
| Json.SurrogatePair | scripts/openai_training_data_csv_to_jsonl.py:88 | a code point beyond the BMP splits into a high and a low surrogate that recombine to it |
| Json.EscapeChar | scripts/openai_training_data_csv_to_jsonl.py:88 | the `ensure_ascii` escape of any character is printable ASCII |
| Json.ParseEscapeChar | scripts/openai_training_data_csv_to_jsonl.py:88 | reading the escape of a character gives back that character, whatever follows |
| Json.ParseBodyEscape | scripts/openai_training_data_csv_to_jsonl.py:88 | an escaped string, then a closing quote, reads back as the string |
| Json.Escape | scripts/openai_training_data_csv_to_jsonl.py:88-91 | the body of a `json.dumps` string with `ensure_ascii`; stated by `ParseBodyEscape`, `EscapePrintable` and `EscapePlain` |
| Json.Quote | scripts/openai_training_data_csv_to_jsonl.py:88-91 | `json.dumps` of a `str`; stated by `ParseStringQuote` (reads back) and `QuotePrintable` |
| Json.ParseStringQuote | scripts/openai_training_data_csv_to_jsonl.py:88 | `json.dumps` of a string reads back as that string, whatever follows |
| Json.Nullable | scripts/openai_training_data_csv_to_jsonl.py:89-91 | `json.dumps` of a `str \| None`: `null` or the quoted string; stated by `ParseNullableRoundTrip` and `NullablePrintable` |
| Json.ParseNullableRoundTrip | scripts/openai_training_data_csv_to_jsonl.py:89-91 | `json.dumps` of a `str \| None` reads back as that value, whatever follows |
| Json.EscapePrintable | scripts/openai_training_data_csv_to_jsonl.py:96 | the escaped text of any string is printable ASCII |
| Json.EscapePlain | scripts/openai_training_data_csv_to_jsonl.py:88 | printable ASCII without `"` or `\` is written unchanged |
| Json.KeyIsQuote | scripts/openai_training_data_csv_to_jsonl.py:84-92 | a plain key is written as the general string encoding writes it |
| TrainingRecords.ScriptKeysPlain | scripts/openai_training_data_csv_to_jsonl.py:84-92 | every key the script writes (`messages`, `role`, `content`, `status`, `status_type`, `substatus_type`) is written as the general string encoding writes it |
| Json.Member | scripts/openai_training_data_csv_to_jsonl.py:84-92 | one `"key": value` entry of a dictionary; stated by `ObjectLayout3` and `MemberPrintable` |
| Json.Object | scripts/openai_training_data_csv_to_jsonl.py:84-94 | `json.dumps` of a dictionary: `{`, entries separated by `, `, `}`; stated by `ObjectLayout3`, `ObjectPrintable` and the round trips of payload, message and record |
| Json.Array | scripts/openai_training_data_csv_to_jsonl.py:85-93 | `json.dumps` of a list: `[`, items separated by `, `, `]`; stated by `ArrayPrintable` and `TrainingRecords.ItemsRoundTrip` |
| Json.ObjectLayout3 | scripts/openai_training_data_csv_to_jsonl.py:88-92 | a three-entry object is `{`, each `"key": value` separated by `, `, then `}` |
| Json.ObjectPrintable | scripts/openai_training_data_csv_to_jsonl.py:96 | an object of printable entries is printable |
| Json.ArrayPrintable | scripts/openai_training_data_csv_to_jsonl.py:96 | an array of printable items is printable |
| Text.TerminatedAppend | scripts/openai_training_data_csv_to_jsonl.py:96 | writing one more line appends it and its terminator |
| Text.TerminatedSplit | scripts/openai_training_data_csv_to_jsonl.py:96 | terminated lines without the terminator split back into exactly those lines and an empty remainder |
| ClassifierCsv.JsonFiles | scripts/status_classifier_response_json_to_csv.py:28 | every kept name ends with `.json`, and no more names are kept than listed |
| Text.EndsWith | scripts/status_classifier_response_json_to_csv.py:28 | `str.endswith`; `ClassifierCsv.JsonFilesMember` states the filter made with it |
| ClassifierCsv.JsonFilesMember | scripts/status_classifier_response_json_to_csv.py:28 | a name is kept if and only if it is listed and ends with `.json` |
| ClassifierCsv.JsonFilesAppend | scripts/status_classifier_response_json_to_csv.py:28 | filtering keeps the relative order of the names |
| ClassifierCsv.Get | scripts/status_classifier_response_json_to_csv.py:42-44 | `dict.get` with a default: the default only for an absent key; an explicit `null` is `None` |
| ClassifierCsv.Extract | scripts/status_classifier_response_json_to_csv.py:41-44 | the tuple of one status object; its contract is stated by `ExtractDefaults` |
| ClassifierCsv.ExtractDefaults | scripts/status_classifier_response_json_to_csv.py:42-44 | name and type are `""` if and only if absent or empty; substatus is `None` if and only if absent or `null` |
| ClassifierCsv.ExtractAll | scripts/status_classifier_response_json_to_csv.py:41-45 | one tuple per status object, in list order |
| ClassifierCsv.DocTuples | scripts/status_classifier_response_json_to_csv.py:40-45 | the tuples of one document; its contract is stated by `CollectedSingle` (none without the key, one per entry, failure on `null`) |
| ClassifierCsv.Collected | scripts/status_classifier_response_json_to_csv.py:35-45 | the collected tuples of all files; its contract is stated by `CollectStatuses`, `CollectedPrefix`, `CollectedAppend`, `CollectedSingle`, `CollectedCount` and `CollectedFailure` |
| ClassifierCsv.CollectStatuses | scripts/status_classifier_response_json_to_csv.py:35-45 | the nested loops produce exactly `Collected`: the tuples of every file in order, or the first file whose list is `null` |
| ClassifierCsv.CollectedPrefix | scripts/status_classifier_response_json_to_csv.py:35-41 | once a file stops the run, the files after it change nothing |
| ClassifierCsv.CollectedSnoc | scripts/status_classifier_response_json_to_csv.py:35-45 | reading one more file appends that file's tuples, or stops with that file when its list is `null`; an earlier failure stands |
| ClassifierCsv.CollectedAppend | scripts/status_classifier_response_json_to_csv.py:35-45 | the tuples of two batches of files are those of the first batch followed by those of the second; the first failure wins |
| ClassifierCsv.CollectedSingle | scripts/status_classifier_response_json_to_csv.py:40-45 | a document without `classified_statuses` contributes no tuple; a list contributes one per entry; a `null` one stops the run |
| ClassifierCsv.CollectedCount | scripts/status_classifier_response_json_to_csv.py:35-45 | on success the number of tuples is the sum of the list lengths |
| ClassifierCsv.CollectedFailure | scripts/status_classifier_response_json_to_csv.py:40-41 | the run stops if and only if some list is `null`, and it names the first such file |
| ClassifierCsv.HeaderRow | scripts/status_classifier_response_json_to_csv.py:51 | the header line without its newline; `HeaderText` states what is written for it |
| ClassifierCsv.HeaderText | scripts/status_classifier_response_json_to_csv.py:51 | the header alone is written as `status_name,status_type,substatus_type` and one newline |
| ClassifierCsv.SubstatusCell | scripts/status_classifier_response_json_to_csv.py:53 | a `None` substatus is written as the empty string, a string as itself |
| ClassifierCsv.Cells | scripts/status_classifier_response_json_to_csv.py:53-54 | the three cell texts of a tuple; name and type are written by `PyText.Format` (a string as it is, `None` as `None`), the substatus by `SubstatusCell` |
| ClassifierCsv.CsvRow | scripts/status_classifier_response_json_to_csv.py:54 | one quoted line without its newline; its contract is stated by `RowSplit` and `RowRoundTrip`, and its lack of escaping by `CellBoundaryAmbiguous` |
| ClassifierCsv.CsvRows | scripts/status_classifier_response_json_to_csv.py:52-55 | one row per tuple, in order |
| ClassifierCsv.CsvText | scripts/status_classifier_response_json_to_csv.py:50-55 | the table's text; its contract is stated by `CsvTextStep`, `WriteCsv`, `CsvRoundTrip` and `LineBreakAmbiguous` |
| ClassifierCsv.WriteCsv | scripts/status_classifier_response_json_to_csv.py:50-55 | the written text is the header line, then each tuple's quoted line |
| ClassifierCsv.Run | scripts/status_classifier_response_json_to_csv.py:28-55 | the whole script: the table of the `.json` files' tuples, or the name of the file that stops it |
| ClassifierCsv.RowSplit | scripts/status_classifier_response_json_to_csv.py:54 | a row of plain cells splits on `"` into its three cells and two commas |
| ClassifierCsv.SplitCells | scripts/status_classifier_response_json_to_csv.py:54 | three quote-free cells, quoted and separated by commas, split on `"` back into the cells and the two commas |
| ClassifierCsv.RowRoundTrip | scripts/status_classifier_response_json_to_csv.py:54 | a row of plain cells reads back as its cells |
| ClassifierCsv.RowsRoundTrip | scripts/status_classifier_response_json_to_csv.py:52-55 | rows of plain cells read back as their cells, in order |
| ClassifierCsv.CsvRoundTrip | scripts/status_classifier_response_json_to_csv.py:50-55 | the table reads back as the header and then each tuple's cells, one line per tuple and in order, when no cell holds `"` or a line break |
| ClassifierCsv.CellBoundaryAmbiguous | scripts/status_classifier_response_json_to_csv.py:54 | cells are not escaped: for any cells, a first cell ending in `","` plus more text and the split of the same text across the first two cells are different tuples with the same table text |
| ClassifierCsv.LineBreakAmbiguous | scripts/status_classifier_response_json_to_csv.py:54-55 | for any cells, a last cell holding `"`, a line break and quoted cells gives the same table text as two tuples |
| ClassifierCsv.CsvTextStep | scripts/status_classifier_response_json_to_csv.py:54-55 | writing one more tuple appends exactly its row and a newline |
| ClassifierCsv.TwoDocumentsOneRow | scripts/status_classifier_response_json_to_csv.py:35-55 | a document with one status whose substatus is `null`, then one without `classified_statuses`, give the header and the single line `"A","Transit",""` |

## Left out

- File and directory I/O is not modelled:
  - opening files, including the `utf-8-sig` byte-order-mark handling;
  - `os.makedirs` and `os.listdir`: the listing is an input sequence, in whatever order the system gives it;
  - `json.load`: the documents are an input map from file name to parsed `Document`.
- Progress and completion printing is terminal output with no effect on the files.
- `csv.DictReader` parsing of quoted CSV is not modelled; rows arrive as maps. A row with more cells than the header puts the extras under the key `None`. Rows here have string keys only, so that case is not represented. It does not affect the three required columns.
- `json.load` results other than those modelled are not represented. These raise or behave as Python does, outside the model:
  - a top level that is not an object;
  - list entries that are not objects;
  - field values that are neither strings nor `null` (numbers, lists).
- PyText.ReprStr: `repr` is modelled as the string between single quotes, without Python's escaping or quote choice for strings holding `'`, `\` or non-printable characters; every string of the taxonomy needs none.
- Json.Key: object keys are written between double quotes without escaping; every key the scripts use is a plain identifier, and `Json.KeyIsQuote` proves this agrees with the general string encoding.
- The JSON reader (`Json.ParseString` and the record decoders) is a partner for the round-trip lemmas, not a general JSON parser. In strings it reads the short escapes (including `\/`), `\u` escapes with hex digits in either case (a surrogate pair combined into one character, a lone surrogate rejected) and any unescaped character other than a control character. Objects must use exactly the separators `", "` and `": "` that `json.dumps` writes; other whitespace, other key orders and other value types are rejected.
- Python strings may hold lone surrogates, Dafny `char` values may not; such strings are not represented.
- The concrete text of the system prompt (the `repr` of all 21 pairs) is not evaluated in the proofs. It is stated through `SystemPromptListsPairs` (fixed lead, every pair's `repr` present) and `TaxonomyPairs`.
- Behaviour of the code that a reader may not expect, modelled as the code has it:
  - An input with no data rows fails while formatting the error message (`reader[0]` raises IndexError), not with the column error. It is modelled as the distinct error `EmptyInput`.
  - The output file is opened, and so emptied, before the column check, so a failing run leaves it empty.
  - An explicit JSON `null` `status_name` or `status_type` gets no default: it is written as the four letters `None`. Only `substatus_type` renders `None` as an empty cell.
  - A document whose `classified_statuses` is `null` stops the whole run with a TypeError before the CSV file is opened; it is not treated as an empty list.
  - A row whose `status` cell is missing produces the user message ``Classify the status: `None` ``.
- Where the scripts' docstrings and their code differ, the model follows the code:
  - scripts/openai_training_data_csv_to_jsonl.py:16 says only an empty or `'null'` substatus becomes null; line 82 also maps `"None"` (`TrainingRecords.NormalizeSubstatus`).
  - scripts/status_classifier_response_json_to_csv.py:6 says every file must have `classified_statuses`; line 40 treats a missing key as an empty list (`ClassifierCsv.DocTuples`, `ClassifierCsv.CollectedSingle`).
- TrainingRecords.JsonlText: the JSONL file is opened without `newline=''`, so on Windows Python writes each `\n` as `\r\n`; the model gives the POSIX text, where `\n` is written unchanged.
