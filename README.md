# finance-tracker import, ledger and rules pipeline in Dafny

This project models how finance-tracker builds and categorises its ledger:

- **Parsing.** The Itaú and Nubank importers read an OFX (SGML) statement. They take every `<STMTTRN>…</STMTTRN>` block and read the `DTPOSTED`, `TRNAMT`, `MEMO`/`NAME`, `FITID` tags, plus `REFNUM` and `CHECKNUM` for Itaú.
- **Coercion.** The date comes from the leading `YYYYMMDD` and the amount from the decimal text. A row that fails either is dropped.
- **Type and identity.** Each row's type comes from the sign of the amount. Its `tx_id` is the hash of an external reference, or of a composite key when the reference is empty.
- **Merge.** `append_to_ledger` merges the batch into the persisted ledger, keeping the first row per `tx_id`, so rows already in the ledger win.
- **Rules.** `load_rules` coerces priorities, sorts the rules and compiles their patterns. `apply_rules` runs the rules in priority order. A rule only writes category, subcategory and type into rows whose category is still a default.

Layout, one module per file:

- `wrappers.dfy`: `Option` and `Result`.
- `text.dfy`: Python's `str.strip` over Latin-1 whitespace, ASCII lower-casing, and decimal digit strings.
- `ofx.dfy`: the non-greedy, case-insensitive block scan of `re.findall` and the `tag` lookup.
- `coerce.dfy`: `_coerce_date` and `_coerce_amount`, with amounts as exact decimals.
- `ledger.dfy`: the transaction record, `tx_id`, keep-first deduplication, the merge, and the ledger file as a class.
- `canon.dfy`: `dropna` over the coerced columns, shared by both importers.
- `itau.dfy`: the Itaú importer.
- `nubank.dfy`: the Nubank importer.
- `rules.dfy`: `load_rules` and `apply_rules`.

The importers and `apply_rules` are written as methods over sequences, one loop per pandas column step. Each is proved equal to a specification function. The properties are lemmas about those functions.

The rule functions take a cell reading. `AsWritten` reads an empty rule cell as `str(NaN)`, which is `nan`; the `apply_rules` methods use it. `Intended` reads an empty cell as the empty text. The rule lemmas (first match wins, one-shot, idempotence, nothing else changes) hold for both readings.

The Itaú importer merges by the string `tx_id`. The Nubank importer merges on the id cells as `read_csv` reads them back. Both are modelled as written.

Inputs, clocks and external code are parameters:

- The statement text and the file name are parameters; no file is read.
- A `KeyFormat` value holds `str(Timestamp)`, `str(float)` and `hash_pandas_object`; the model assumes nothing about them beyond their types.
- The regular-expression engine of the rule patterns is represented by two predicates:
  - `compiles(pattern)` stands for `re.compile` succeeding;
  - `matches(pattern, description)` stands for `search` finding the pattern.

## Model

| member | source | states |
|---|---|---|
| Text.Strip | scripts/import_itau_ofx.py:20 | the result has no leading or trailing whitespace, is no longer than the input, and is the input itself when that is already trimmed |
| Text.StripIsTrimmedSlice | scripts/import_itau_ofx.py:20 | the result is a contiguous slice of the input with only whitespace before and after it |
| Text.StripEmptyIff | scripts/import_itau_ofx.py:87 | a cell strips to the empty text exactly when it is all whitespace |
| Text.StripIdempotent | scripts/apply_rules.py:30-32 | stripping twice is stripping once |
| Text.DecimalString | scripts/import_itau_ofx.py:104 | `str()` of an unsigned integer is a non-empty digit string without leading zero whose value is the integer |
| Text.DecimalStringInjective | scripts/import_itau_ofx.py:104 | distinct integers have distinct decimal strings, and back |
| Text.PadDigitsOfValue | scripts/import_itau_ofx.py:44-47 | a fixed-width digit group is recovered exactly by re-rendering its value at that width |
| Ofx.Scan | scripts/import_itau_ofx.py:14 | every span found starts at or after the resume point, has room for its opening tag before its closing tag, and ends inside the text |
| Ofx.Blocks | scripts/import_itau_ofx.py:14 | one aggregate per span found, each fitting in the text together with its two tags |
| Ofx.NoBlocksIff | scripts/import_itau_ofx.py:14 | the block scan finds nothing exactly when no `<STMTTRN>` is followed by a `</STMTTRN>` |
| Ofx.ScanFramed | scripts/import_itau_ofx.py:14 | every block found sits between an opening and a closing tag, matched case-insensitively |
| Ofx.ScanOrdered | scripts/import_itau_ofx.py:14 | blocks come in file order and do not overlap |
| Ofx.ScanEndsAtFirstClose | scripts/import_itau_ofx.py:14 | each block ends at the first closing tag after its opening tag (non-greedy `.*?`) |
| Ofx.ScanLeftmost | scripts/import_itau_ofx.py:14 | no opening tag is skipped before a block starts |
| Ofx.ScanComplete | scripts/import_itau_ofx.py:14 | after the last block no complete open/close pair remains |
| Ofx.BlockHasNoClose | scripts/import_itau_ofx.py:14 | no block contains a closing tag |
| Ofx.Tag | scripts/import_itau_ofx.py:18-20 | a tag value holds no `<`, CR or LF, is stripped, and is empty when the tag does not occur |
| Ofx.TagReadsFirstOccurrence | scripts/import_itau_ofx.py:18-20 | the value is the stripped run after the first case-insensitive occurrence of `<NAME>` |
| Ofx.FindTagLeftmost | scripts/import_itau_ofx.py:19 | `re.search` finds the leftmost occurrence of the tag |
| Coerce.CoerceDate | scripts/import_itau_ofx.py:43-48 | a coerced date is a real calendar date whose `YYYYMMDD` rendering is the first eight characters of DTPOSTED |
| Coerce.CoerceDateOfStamp | scripts/import_nubank_ofx.py:38-46 | the stamp of any valid date followed by any time or zone text coerces back to that date |
| Coerce.CoerceDateIff | scripts/import_itau_ofx.py:43-48 | DTPOSTED coerces to a date exactly when the date is valid and its stamp prefixes the text |
| Coerce.CoerceDateExample | scripts/import_nubank_ofx.py:23 | `20240115120000[-03:EST]` coerces to 15 January 2024 |
| Coerce.CoerceAmount | scripts/import_itau_ofx.py:51-55 | blank text is not a number, and a negative amount has a leading `-` |
| Coerce.ParseDecimalOfFormat | scripts/import_itau_ofx.py:51-55 | parsing the rendering of a decimal gives that decimal back |
| Coerce.CoerceAmountOfFormat | scripts/import_itau_ofx.py:51-55 | `_coerce_amount` of a rendered decimal is that decimal (round trip) |
| Coerce.CoerceAmountNegativeIff | scripts/import_itau_ofx.py:51-55 | a coerced amount is negative exactly when the stripped text starts with `-` and is not zero |
| Coerce.CoerceAmountExample | scripts/import_nubank_ofx.py:24 | `-45.90` coerces to minus 45.90 |
| Ledger.KindOf | scripts/import_itau_ofx.py:91 | expense exactly when the amount is negative, income exactly when it is not |
| Ledger.TxId | scripts/import_itau_ofx.py:104 | `tx_id` is the canonical decimal string of the key's 64-bit hash |
| Ledger.TxIdSameIff | scripts/import_itau_ofx.py:104 | two keys get the same `tx_id` exactly when their hashes agree, so equal keys always do |
| Ledger.CompositeKey | scripts/import_itau_ofx.py:96-103 | the composite key ends in `\|` and the bank name |
| Ledger.KeepFirstFrom | scripts/import_itau_ofx.py:123 | deduplication keeps only rows of the input whose id was not seen before |
| Ledger.KeepFirst | scripts/import_itau_ofx.py:123 | `drop_duplicates(keep="first")` never adds rows and always keeps the first row |
| Ledger.KeepFirstFromAppend | scripts/import_itau_ofx.py:121-123 | deduplicating a concatenation dedups the first part, then the second part against the first part's ids |
| Ledger.KeepFirstIsFirstOccurrences | scripts/import_itau_ofx.py:123 | `drop_duplicates(keep="first")` keeps exactly the rows whose id does not occur earlier |
| Ledger.KeepFirstFromIds | scripts/import_itau_ofx.py:123 | the kept rows have unique ids, and every unseen id of the input is present |
| Ledger.KeepFirstFromOfUnique | scripts/import_itau_ofx.py:123 | rows with unique, unseen ids are kept unchanged |
| Ledger.KeepFirstFromAllSeen | scripts/import_itau_ofx.py:123 | rows whose ids were all seen are all dropped |
| Ledger.Merge | scripts/import_itau_ofx.py:117-125 | the merge holds at most the old rows plus the batch, and the first old row stays first |
| Ledger.MergeOldFirst | scripts/import_itau_ofx.py:117-123 | the merge is the deduplicated prior ledger followed by the new rows whose ids it does not hold |
| Ledger.MergeKeepsExisting | scripts/import_itau_ofx.py:117-123 | a prior ledger with unique ids survives the merge unchanged, as a prefix, so existing rows win |
| Ledger.MergeIds | scripts/import_itau_ofx.py:117-125 | the merged ledger has unique ids, and its ids are exactly the prior ids plus the batch ids |
| Ledger.MergeIdempotent | scripts/import_itau_ofx.py:117-125 | importing the same batch a second time leaves the ledger as it is |
| Ledger.Dedup | scripts/import_itau_ofx.py:123-125 | the deduplication loop computes the keep-first rows |
| Ledger.LedgerFile.constructor | scripts/import_itau_ofx.py:117 | the ledger file starts as the given prior contents, if any |
| Ledger.LedgerFile.Append | scripts/import_itau_ofx.py:109-127 | the persisted ledger becomes the merge of its old contents with the batch |
| Canon.Stage | scripts/import_itau_ofx.py:69-91 | a row survives exactly when both date and amount coerced; then it carries them, the description, the source, the file name, no category and the sign-derived type |
| Canon.Staged | scripts/import_itau_ofx.py:90 | `dropna` never adds rows |
| Canon.DropNa | scripts/import_itau_ofx.py:90-91 | the `dropna` and type loop computes the staged rows |
| Canon.StagedAppend | scripts/import_itau_ofx.py:90 | `dropna` distributes over concatenation, so order is preserved |
| Canon.StagedRows | scripts/import_itau_ofx.py:69-91 | every surviving row comes from a coerced input row and has the bank as source, the file name, no category and the type of its sign |
| Canon.StagedEmptyIff | scripts/import_itau_ofx.py:90 | the result is empty exactly when no row coerces both fields |
| ItauImport.RawOf | scripts/import_itau_ofx.py:22-38 | DTPOSTED, TRNAMT, FITID, CHECKNUM and REFNUM are their tag values; the memo is MEMO when that is not empty and NAME otherwise, so it is empty only when both are |
| ItauImport.RawRowsOfIndex | scripts/import_itau_ofx.py:17-38 | one record per block, the i-th read from the i-th block |
| ItauImport.ParseOfx | scripts/import_itau_ofx.py:10-40 | the parsing loop yields the records of the blocks, in order |
| ItauImport.CoerceColumns | scripts/import_itau_ofx.py:69-88 | the column step computes the coerced rows, including the REFNUM\|CHECKNUM fallback written under an empty FITID |
| ItauImport.AssignIds | scripts/import_itau_ofx.py:93-104 | each row gets the `tx_id` of its key, and nothing else changes |
| ItauImport.ImportSpec | scripts/import_itau_ofx.py:58-106 | the import fails exactly when the statement has no aggregate, and otherwise yields at most one row per aggregate |
| ItauImport.Import | scripts/import_itau_ofx.py:58-106 | the importer returns the error for a statement without blocks, and otherwise the canonical rows |
| ItauImport.ImportInto | scripts/import_itau_ofx.py:154-155 | an empty statement leaves the ledger untouched; otherwise the ledger becomes the merge with the imported rows |
| ItauImport.ImportFailsIff | scripts/import_itau_ofx.py:66-67 | the import fails exactly when the text holds no open/close block pair |
| ItauImport.StageOf | scripts/import_itau_ofx.py:69-91 | a record yields a row exactly when DTPOSTED and TRNAMT both coerce, and the row holds those values |
| ItauImport.ExternalIdNotEmpty | scripts/import_itau_ofx.py:75-88 | the Itaú external id is never empty |
| ItauImport.ExternalIdDegenerateIff | scripts/import_itau_ofx.py:82-88 | the external id is `\|` exactly when FITID is literally `\|` or FITID, REFNUM and CHECKNUM are all blank |
| ItauImport.ExternalId | scripts/import_itau_ofx.py:75-88 | the external id is never empty; it is the stripped FITID, or, when that is blank, a `REFNUM\|CHECKNUM` pair holding the separator |
| ItauImport.KeyOf | scripts/import_itau_ofx.py:93-103 | the hash key is never empty or `\|`; it is the external id or the composite key |
| ItauImport.KeyIsReferenceIff | scripts/import_itau_ofx.py:93-103 | the row keeps the external id, and the hash key is that id exactly when FITID is not `\|` and FITID, REFNUM and CHECKNUM are not all blank; otherwise the key is the composite key of date, description, amount and `itau` |
| ItauImport.SameKeySameTxId | scripts/import_itau_ofx.py:104 | rows with the same key get the same `tx_id` |
| ItauImport.ExampleReferences | scripts/import_itau_ofx.py:82-88 | an empty FITID with REFNUM `R1` and CHECKNUM `C1` gives external id `R1\|C1` |
| ItauImport.FitidExample | scripts/import_itau_ofx.py:69-104 | the sample record survives and its key is the FITID `ABC123` |
| ItauImport.FallbackExample | scripts/import_itau_ofx.py:93-104 | with an empty FITID, the key is `R1\|C1` |
| NubankImport.RawOf | scripts/import_nubank_ofx.py:23-33 | DTPOSTED, TRNAMT and FITID are their tag values; the memo is MEMO when that is not empty and NAME otherwise, so it is empty only when both are |
| NubankImport.RawRowsOfIndex | scripts/import_nubank_ofx.py:18-33 | one record per block, the i-th read from the i-th block |
| NubankImport.ParseOfx | scripts/import_nubank_ofx.py:10-35 | the parsing loop yields the records of the blocks, in order |
| NubankImport.CoerceColumns | scripts/import_nubank_ofx.py:71-78 | the column step computes the coerced rows |
| NubankImport.AssignIds | scripts/import_nubank_ofx.py:83-94 | each row gets the `tx_id` of its key, and nothing else changes |
| NubankImport.ImportSpec | scripts/import_nubank_ofx.py:59-96 | the import fails exactly when the statement has no aggregate, and otherwise yields at most one row per aggregate |
| NubankImport.Import | scripts/import_nubank_ofx.py:59-96 | the importer returns the error for a statement without blocks, and otherwise the canonical rows |
| NubankImport.ImportInto | scripts/import_nubank_ofx.py:99-118 | an empty statement leaves the ledger untouched; otherwise the ledger becomes this importer's own merge, as written, with the imported rows |
| NubankImport.AppendAsWritten | scripts/import_nubank_ofx.py:99-118 | the ledger becomes the keep-first dedup of old rows then new rows, on the id cells as `read_csv` returns them |
| NubankImport.DedupCells | scripts/import_nubank_ofx.py:114 | the dedup loop over id cells keeps the first row of each cell |
| NubankImport.ImportFailsIff | scripts/import_nubank_ofx.py:68-69 | the import fails exactly when the text holds no open/close block pair |
| NubankImport.StageOf | scripts/import_nubank_ofx.py:71-81 | a record yields a row exactly when DTPOSTED and TRNAMT both coerce, and the row holds those values |
| NubankImport.KeyIsReferenceIff | scripts/import_nubank_ofx.py:83-93 | the hash key is the stripped FITID exactly when that is not empty; otherwise it is the composite key of date, description, amount and `nubank` |
| NubankImport.KeyOf | scripts/import_nubank_ofx.py:83-93 | the hash key is never empty; it is the stripped FITID or the composite key |
| NubankImport.SameKeySameTxId | scripts/import_nubank_ofx.py:94 | rows with the same key get the same `tx_id` |
| NubankImport.ReadIdCells | scripts/import_nubank_ofx.py:109 | `read_csv` without a dtype turns an all-digit id column into numbers and otherwise keeps strings |
| NubankImport.KeepFirstCells | scripts/import_nubank_ofx.py:114 | `drop_duplicates` on the cells as read never adds rows, and keeps the first row when its cell is new |
| NubankImport.KeepFirstCellsAppend | scripts/import_nubank_ofx.py:113-114 | deduplicating a concatenation dedups the first part, then the second part against the first part's cells |
| NubankImport.KeepFirstCellsIsFirstOccurrences | scripts/import_nubank_ofx.py:114 | keep-first on cells keeps exactly the rows whose cell is unseen and occurs at no earlier row |
| NubankImport.KeptCellsDistinct | scripts/import_nubank_ofx.py:114 | the surviving cells are pairwise distinct, and they are exactly the cells not seen before |
| NubankImport.KeepFirstCellsOfStrings | scripts/import_nubank_ofx.py:114 | on string cells, keep-first on cells is keep-first on `tx_id` |
| NubankImport.MergeAsWritten | scripts/import_nubank_ofx.py:108-116 | the merge as written holds at most the old rows plus the batch, and the first old row stays first |
| NubankImport.MergeAsWrittenOldFirst | scripts/import_nubank_ofx.py:108-114 | old rows come first; a new row survives only when no old cell and no earlier new row has its cell |
| NubankImport.MergeAsWrittenOfStrings | scripts/import_nubank_ofx.py:108-116 | when the stored ids read back as text, the merge as written is the string-keyed merge |
| NubankImport.MergeAsWrittenOfNumbers | scripts/import_nubank_ofx.py:108-114 | when the stored ids read back as numbers, the batch is deduplicated only against itself, never against old rows |
| NubankImport.TxIdIsDecimal | scripts/import_nubank_ofx.py:94 | every `tx_id` is a canonical decimal numeral |
| NubankImport.DecimalIdsDistinct | scripts/import_nubank_ofx.py:109 | distinct canonical numerals read back as distinct numbers |
| NubankImport.KeepFirstCellsOfDistinct | scripts/import_nubank_ofx.py:114 | deduplicating on pairwise distinct, unseen cells keeps every row |
| NubankImport.ReimportDuplicates | scripts/import_nubank_ofx.py:108-114 | as written, re-importing a ledger's own rows doubles them, where the intended merge leaves it unchanged |
| Rules.Truncate | scripts/apply_rules.py:12 | `astype(int)` truncates toward zero |
| Rules.ToInt64 | scripts/apply_rules.py:12 | `astype(int)` keeps a value of the int64 range, maps the uint64 range into int64, and preserves the value modulo 2^64 |
| Rules.PriorityOf | scripts/apply_rules.py:12 | a priority cell gets the default 9999 unless it holds a number |
| Rules.PriorityOfDefault | scripts/apply_rules.py:12 | an empty priority, or one that is not a plain decimal, becomes 9999 |
| Rules.PriorityOfInteger | scripts/apply_rules.py:12 | an integer priority below 2^53 in magnitude is kept as it is |
| Rules.PriorityOfUnsignedWraps | scripts/apply_rules.py:11-12 | a priority from 2^63 to below 2^64, read as uint64, wraps to a negative priority |
| Rules.Insert | scripts/apply_rules.py:13 | inserting adds exactly that rule to the multiset of rules |
| Rules.InsertSorted | scripts/apply_rules.py:13 | inserting into a sorted list keeps it sorted |
| Rules.SortByPriority | scripts/apply_rules.py:13 | `sort_values("priority")` gives ascending priorities and a permutation of the rules |
| Rules.LoadRules | scripts/apply_rules.py:10-16 | on success the rules are sorted, a permutation of the loaded rows, and all compile; it fails exactly when the priority or pattern column is missing or some pattern does not compile |
| Rules.LoadedCompileIff | scripts/apply_rules.py:15 | every loaded pattern compiles exactly when every pattern cell, as `astype(str)` reads it, compiles |
| Rules.SortedCompileIff | scripts/apply_rules.py:13-15 | compiling after sorting fails exactly when compiling before sorting would |
| Rules.HintType | scripts/apply_rules.py:44-45 | a hint sets the type exactly when it names one of the four types, and then it sets that one |
| Rules.Eligible | scripts/apply_rules.py:39 | the default `Uncategorized` is open to rules, and any other non-empty category is settled |
| Rules.Update | scripts/apply_rules.py:34-45 | one rule changes only category, subcategory and type, and changes a row only when the rule is not skipped, its pattern matches and the row is eligible |
| Rules.Run | scripts/apply_rules.py:28-45 | one-shot: a row whose category is not a default is never changed by the rules |
| Rules.DefaultsFill | scripts/apply_rules.py:20-24 | a missing category or subcategory column is filled with `Uncategorized`, which leaves the row open to every rule; an existing column and every other field are unchanged |
| Rules.CopyWithDefaults | scripts/apply_rules.py:20-24 | the copy-and-default step computes the defaulted rows |
| Rules.ApplyRule | scripts/apply_rules.py:29-45 | one rule pass updates each row as that rule alone would, with cells read by `str()` as written: skip on a blank category, mask, category, subcategory with fallback, and type hint |
| Rules.ApplyRules | scripts/apply_rules.py:19-47 | the rule loop runs, on every defaulted row, the rules in order, with cells read as written |
| Rules.ApplySpec | scripts/apply_rules.py:19-47 | `apply_rules` returns one row per input row |
| Rules.RunSnoc | scripts/apply_rules.py:28 | trying one more rule after a list of rules is one more update |
| Rules.RunKeepsOtherFields | scripts/apply_rules.py:41-45 | the rules change only category, subcategory and type |
| Rules.RunNoMatch | scripts/apply_rules.py:34-39 | a row no applicable rule matches keeps its default category and its sign-derived type |
| Rules.FirstMatchWins | scripts/apply_rules.py:28-45 | the first applicable matching rule decides an eligible row, and later rules change nothing |
| Rules.RunIgnoresKind | scripts/apply_rules.py:44-45 | a row's prior type affects the outcome only by being carried along when no hint overrides it |
| Rules.RunIdempotent | scripts/apply_rules.py:28-45 | running the rules on their own result changes nothing |
| Rules.ApplyIdempotent | scripts/apply_rules.py:19-47 | applying the rules to their own result returns it unchanged |
| Rules.ApplyKeepsRows | scripts/apply_rules.py:19-47 | rows, their order and every field but category, subcategory and type survive |
| Rules.PriorityWins | scripts/apply_rules.py:13 | of two rules matching the same row, the lower priority is sorted first and decides the row |
| Rules.UberAsWritten | scripts/apply_rules.py:30-45 | as written, rule `UBER` with category `Transport` and empty subcategory and hint sets category `Transport`, subcategory `nan`, and leaves the type |
| Rules.UberExample | scripts/apply_rules.py:30-45 | read as intended, the same rule sets both category and subcategory to `Transport` and leaves the type |
| Rules.ExampleCells | scripts/apply_rules.py:30-32 | category `Transport` reads as `Transport` both ways; an empty subcategory reads `nan` as written and falls back to `Transport` as intended; an empty hint names no type |
| Rules.BlankCellsAsWritten | scripts/apply_rules.py:30-31 | as written, an empty category cell reads as `nan` and the rule applies, where the intended reading skips it; an empty subcategory cell reads as `nan`, where the intended reading falls back to the category |

## Left out

- Reading and writing files is not modelled: the statement is text and the ledger a value. This covers the Latin-1 decode, `main`, inbox file selection, CSV and parquet writing, and the parquet mirror whose failure is ignored.
- `pd.to_datetime` re-parsing of stored dates on load and the CSV round trip of cells are not modelled. For example, an empty description written and read back becomes NaN.
- Coerce.CoerceDate accepts every valid date with a four-digit year from 0001. pandas turns dates outside its nanosecond range (1677-09-21 to 2262-04-11) into NaT; that range is not modelled.
- Coerce.CoerceAmount reads plain decimals only, as exact values. Python's `float` also accepts exponents, `inf`, `nan` and `_` digit separators, and rounds to binary floating point. The model drops rows whose amount uses these forms. The source keeps them, except `nan`.
- The hash, `str(Timestamp)` and `str(float)` are parameters, so the concrete text of a composite key and the concrete `tx_id` values are not modelled. Only their structure and stability are.
- The regular-expression engine is not modelled: pattern compilation and search are the `compiles` and `matches` parameters.
- Rules.SortByPriority promises sorted order and a permutation only. `sort_values` uses a sort that is not stable, so the relative order of equal priorities is not specified.
- Rules.LoadRules reports a bad pattern without saying which one, and does not model an unreadable rule file. The code raises on the first pattern that does not compile, rather than skipping the row with a warning.
- Rules.PriorityOfInteger holds for integers below 2^53 in magnitude only. When any priority cell is blank or not an integer, pandas reads the column as float64, and larger integers round to the nearest double; the model keeps them exact.
- Rules.Truncate truncates the exact decimal. pandas first rounds the cell to a double, so `0.99999999999999999999` becomes 1.0 and gives priority 1, where the model gives 0.
- Rules.ToInt64 models only the wrap-around of a `uint64` column (values from 2^63 to below 2^64 in an all-integer column). A value outside both 64-bit ranges, or any such value in a float64 column, has no defined result under `astype(int)`; the model keeps the value.
- Rules.PriorityOfDefault and Rules.PriorityOf read a priority cell with the plain decimal grammar of the amounts. `pd.to_numeric` also accepts exponents (`1e2` is 100), which the model gives the default 9999. It also accepts `inf`, on which `astype(int)` raises; the model gives that the default too.
- Rules.PatternText renders an empty pattern cell as the pattern `nan`, as `astype(str)` does.
- A per-row count of dropped rows is not produced, because the code does not produce one.
- Strip covers the Latin-1 whitespace `str.strip` removes, and Lower is ASCII lower-casing. This is exact for the Latin-1 statement text. Rule cells holding other Unicode whitespace or upper-case letters outside ASCII are not modelled.
- The `type` column is the four-valued TxType. A ledger cell holding any other text is not modelled.

## Findings

| source | as written | input that shows it | evidently intended | confidence | as-written member | corrected member |
|---|---|---|---|---|---|---|
| scripts/import_nubank_ofx.py:109-114 | `read_csv` without a dtype reads the stored `tx_id` column as integers, while new rows carry string ids, so `drop_duplicates` never matches an old row against a new one | a ledger holding one imported row, re-imported from the same statement: the row appears twice | dedup by the string `tx_id`, as the Itaú importer does with `dtype` and `astype(str)`, so re-imports add nothing | medium, not executed | NubankImport.ReimportDuplicates | Ledger.MergeIdempotent |
| scripts/apply_rules.py:30-31 | `str()` of an empty category or subcategory cell is `nan`, so a rule without category is applied and assigns category `nan`, and a blank subcategory assigns `nan` | a rules file row `UBER,1,Transport,,` gives subcategory `nan` for an Uber trip | a blank cell reads as empty: the rule is skipped, or the subcategory falls back to the category | high, not executed | Rules.UberAsWritten | Rules.UberExample |
