# Locale builder model

This is a Dafny model of the merge in `build_locale.py` (pathfinder-translation). The script runs in three steps:

1. It loads every gettext catalog of one language directory into a dictionary keyed by each entry's `msgctxt`. Each record keeps the source text, the target text, the fuzzy flag and a location prefix. The prefix is the catalog file's first letter, upper-cased, followed by the 1-based entry number.
2. It walks the `strings` list of every `.json` locale file in the input directory and replaces each entry's `Value` with one of two texts:
   - the translation, when the record's target is not empty;
   - the record's source text, when the target is empty.

   In numbering mode (`-n`), it appends `" (prefix)"` when the key is not in the exclusion set and the record's source differs from its target. It counts `total`, `translated` and `missing` entries across all files, and records missing keys in `missing_dict`.
3. It writes each merged document under `"zhCN"` followed by the input name without its first four characters.

The model has three modules, one per part:

- `Catalogs` (`catalogs.dfy`) covers `TranslationEntry` and `str(i + 1)` with its read-back. It also holds the entry prefix and the catalog loop. The loop is a method with nested loops, `LoadTranslations`. It is proved equal to the fold `CatalogMap`, and the lemmas state what that fold contains.
- `LocaleMerge` (`locale_merge.dfy`) covers the per-entry merge (`MergeEntry`), the four kinds of entry (skipped, missing, with a target, fallback) and the counters (`Tally`). The in-place loop over a document's `strings` is `MergeStrings`. Its body, which handles one entry, is `MergeAt`. Both work on an `array`, and `MergeStrings` is proved equal to `MergedEntries` and `Tallied`.
- `BuildLocale` (`build_locale.dfy`) covers the `.json` filter and the output name. It also holds the loop over the input directory (`ProcessDirectory`) and a whole run (`Run`). In `ProcessDirectory`, each document is loaded into a fresh array, as `json.load` does, and is merged in place. The counters carry over from file to file.

Parts of the run are inputs to the model rather than modelled code:

- the directory listings, in listing order: a sequence of `Catalog` values and a sequence of `InputFile` values;
- the parsed catalogs;
- the parsed JSON documents;
- the exclusion set fetched over HTTP: a parameter of `Run`, used only in numbering mode, as in the script.

The script's behaviour is modelled as written, including two corner cases:

- An entry whose record has an empty target, and whose source is not empty, falls back to the source and is still annotated in numbering mode (`FallbackIsAnnotated`).
- The output name always starts with `"zhCN"`, whatever language was given.

## Model

| member | source | states |
|---|---|---|
| `Catalogs.Decimal` | build_locale.py:87 | `str(i + 1)`: at least one character, digits only, and no leading zero unless the number is 0 |
| `Catalogs.ParseDecimalOfDecimal` | build_locale.py:87 | the decimal rendering of an entry number reads back as that number, so it loses nothing |
| `Catalogs.EntryPrefixParts` | build_locale.py:84-87 | the prefix is the upper-cased first letter of the file name followed by the digits of the 1-based entry number, with no leading zero |
| `Catalogs.EntryPrefixInjective` | build_locale.py:84-87 | two entries of one catalog file get the same prefix exactly when they are the same entry |
| `Catalogs.AddEntriesKeys` | build_locale.py:85-87 | after a file's entries are stored, a key is present exactly when it was present before or is the `msgctxt` of one of those entries |
| `Catalogs.AddEntriesKeeps` | build_locale.py:85-87 | a key that none of the stored entries has keeps its earlier record |
| `Catalogs.AddEntriesLast` | build_locale.py:85-87 | within one file, the last entry with a given key is the record kept for that key |
| `Catalogs.CatalogMapKeys` | build_locale.py:79-87 | a key is in the dictionary exactly when some entry of some catalog has it as `msgctxt` |
| `Catalogs.CatalogMapLastWins` | build_locale.py:79-87 | the record kept for a key is the one built from its last occurrence, in a later file or later in the same file, with that file's letter and that entry's number |
| `Catalogs.LoadTranslations` | build_locale.py:79-87 | the nested loading loop builds exactly the dictionary `CatalogMap` describes |
| `LocaleMerge.MergeEntry` | build_locale.py:110-133 | only `Value` changes. Skipped entries (empty `Key` or `Value`) and missing keys are left unchanged. With a non-empty target the value starts with the target; with an empty target it starts with the source. Text follows exactly when `n` is set, the key is not excluded and source differs from target, and it is then `" (prefix)"` |
| `LocaleMerge.MergedEntries` | build_locale.py:110-133 | the merged `strings` list has the same length and order, and every entry keeps its `Key` and its other fields |
| `LocaleMerge.KindsPartition` | build_locale.py:111-128 | every entry is exactly one of skipped, missing, with a non-empty target, or fallback |
| `LocaleMerge.TallyCounts` | build_locale.py:112-126 | `total` grows by the number of entries that are not skipped, `translated` by those whose record's target is not empty (`TranslationEntry.translated`, lines 26-27), `missing` by those without a record |
| `LocaleMerge.CounterInvariant` | build_locale.py:96-126 | from zero, `translated + missing <= total`, and `total - translated - missing` is exactly the number of fallback entries |
| `LocaleMerge.TalliedAppend` | build_locale.py:96-126 | counting two lists one after the other equals counting their concatenation |
| `LocaleMerge.MissingDictKeys` | build_locale.py:117-120 | a key is in `missing_dict` exactly when some counted entry with that key had no record |
| `LocaleMerge.MissingDictLast` | build_locale.py:117-120 | `missing_dict[key]` holds the original `Value` of the last missing entry with that key |
| `LocaleMerge.MergeAt` | build_locale.py:111-133 | one pass of the loop body leaves every other entry alone, turns the entry at the index into its merge, and moves the counters on by that entry: `total` for a counted entry, `missing` and `missing_dict[key] = Value` for a key without a record, `translated` for a non-empty target |
| `LocaleMerge.MergeStrings` | build_locale.py:110-133 | the in-place loop leaves the array equal to `MergedEntries` of its old contents and returns the counters `Tallied` gives |
| `LocaleMerge.UnannotatedWhenFlagOff` | build_locale.py:124-133 | without `-n`, a matched entry's value is exactly the target, or the source when the target is empty |
| `LocaleMerge.FallbackIsAnnotated` | build_locale.py:127-131 | with `-n`, a non-excluded entry whose record has an empty target and a non-empty source becomes `source + " (prefix)"` |
| `LocaleMerge.SameTextNeverAnnotated` | build_locale.py:130-131 | a record whose target equals its source never gets the annotation |
| `LocaleMerge.GreetScenarios` | build_locale.py:110-133 | "GREET"/"Hello" with target "Bonjour" and prefix "A1" gives "Bonjour" without `-n`, "Bonjour (A1)" with it, and "Bonjour" when excluded. Without a record the entry is unchanged, is counted as missing and is recorded in `missing_dict` |
| `BuildLocale.OutputNameRestores` | build_locale.py:135 | the output name starts with "zhCN", and putting back the input's first four characters restores the input name |
| `BuildLocale.OutputNameKeepsExtension` | build_locale.py:135 | a ".json" name of at least nine characters keeps its length and its extension |
| `BuildLocale.OutputNameIgnoresCode` | build_locale.py:135 | names that differ only in their first four characters get the same output name |
| `BuildLocale.OutputNameOfBareExtension` | build_locale.py:104-105 | the name ".json" is processed, and its output name "zhCNn" no longer ends in ".json" |
| `BuildLocale.JsonInputsExact` | build_locale.py:103-105 | a file is processed exactly when it is in the listing and its name ends in ".json" |
| `BuildLocale.JsonInputsAppend` | build_locale.py:103-105 | the filter keeps listing order: the files processed from a listing split in two are those of the first part followed by those of the second |
| `BuildLocale.DirectoryOutputsAt` | build_locale.py:103-136 | the j-th file written is the j-th processed input, with its `strings` merged and its name rewritten |
| `BuildLocale.DirectoryTallyFlat` | build_locale.py:96-133 | the counters run across files: after the directory, they equal the counters of all processed entries taken as one list |
| `BuildLocale.DirectoryCounters` | build_locale.py:96-133 | after a whole directory, `translated + missing <= total` |
| `BuildLocale.ProcessDirectory` | build_locale.py:103-136 | the directory loop writes exactly `DirectoryOutputs` and ends with the counters `DirectoryTally` gives |
| `BuildLocale.Run` | build_locale.py:79-136 | a run merges with the dictionary built from the catalogs, uses the exclusion set only in numbering mode, starts the counters from zero and ends with `translated + missing <= total` |

## Left out

- Argument parsing, and the checks that the language and input directories exist, with their message and exit code 1 (lines 30-45, 70-76). These are command-line plumbing. The model assumes both directories exist.
- The exclusion-list fetch (`load_exclude_keyset`, lines 48-59). It needs HTTP and a CSV reader. Its result is the `fetchedExclusions` parameter of `Run`.
- Catalog parsing with polib, directory listing, and reading and writing JSON (lines 83, 103, 107-108, 135-136). These are a foreign library and file I/O. Catalogs, listings and documents are given as Dafny values, and written files are returned as `OutputFile` values. The JSON formatting options (`ensure_ascii=False`, `indent=2`) are not modelled. Neither is the order `os.listdir` returns, which is arbitrary and is taken as given.
- The closing percentage report (line 138). It uses floating-point division and fails when `total` is 0.
- The fuzzy flag. It is stored in every record and never read, so it is kept as a field with no behaviour.
- Catalog entries without a `msgctxt`. polib gives `None` for them, and the script stores them under the key `None`, which no JSON key can match. The model takes `msgctxt` as a string.
- Entries that lack a `Key` or `Value` field, and fields that are not strings. A missing `Key` always raises `KeyError` (line 111). A missing `Value` raises only when `Key` is non-empty, because the test at line 112 stops at an empty `Key`; an entry with an empty `Key` and no `Value` is skipped and written back unchanged. The model takes both fields as strings that are always present, and skips an entry when either is empty.
- Catalogs.EntryPrefixParts: upper-cases ASCII letters only. Python's `str.upper` also maps other letters, some of them to two characters. Catalog file names are assumed non-empty, since a directory listing never holds an empty name.
- LocaleMerge.MergeStrings and BuildLocale.ProcessDirectory: `missing_dict` is an insertion-ordered dictionary in the script and a `map` in the model. Its order only matters to the dump, which is commented out.
- BuildLocale.ProcessDirectory: assumes that no file a run writes is an input the same run reads later, for example because the output directory is separate. The script reads each input only when it reaches it (lines 107-108), after earlier outputs were written (lines 135-136), and every `xxxx.json` input is written to `zhCN.json`. With `-o` equal to `-i`, a later `zhCN.json` in the listing would be read back already merged and its entries counted again; the model merges and counts the listed documents as they were.
