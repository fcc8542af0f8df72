# i18n-utils, modelled in Dafny

i18n-utils moves gettext translations between PO catalogs and spreadsheets.
This project models its core in Dafny and proves what that core promises.

- `msgtoxls` exports the catalogs of several locales to one translation sheet.
  - It collects the entries into a table keyed by `(context, key, is_plural)`, with one slot per requested locale.
  - It sorts the keys by context and lower-cased key.
  - It writes a title, column headers and one percentage formula per locale.
  - It writes one row per key: context, key, plural marker, a status code and a text per locale, a comment cell, and the occurrence references folded per file.
- `msgfromxls` reads such a sheet back.
  - It matches each row against a priority-ordered list of catalogs, some of them read-only.
  - A match in a writable catalog is brought up to date, filled in or overwritten.
  - A singular row that matches nothing writable may be appended to the first writable catalog. A row that only matches a read-only entry counts as matching nothing.
  - Every writable catalog is then saved, unless the run only pretends.
- `normalization` rewrites a PO file into a canonical form.
  - Each `#: ` reference line becomes one line per reference.
  - The header becomes a comment block.
  - The entries follow the metadata entry, sorted by `msgid`.
- `memoize` caches what a callable returns for each argument list.

The modules:

- `Wrappers`: Option and Result.
- `Text`: the Python `str` operations the tools use.
- `Sorting`: Python's stable `sorted`.
- `Catalog`: the polib entry.
- `Sheet`: the worksheet.
- One module per source file: `MsgToXls`, `MsgFromXls`, `Normalization` and `Memoize`.
- `RoundTrip`: connects the export to the import.

How the source is modelled:

- State that the source updates in place is a class.
  - The worksheet is `Sheet.Worksheet`.
  - A loaded PO file is `MsgFromXls.PoFile`.
  - The memoizing closure and its cache are `Memoize.Memoized`.
- Loops are methods, proved equal to a specification function. The properties are proved as lemmas about that function.
- A Python exception is a `Failure` value, and the model says where it is raised.

## Model

| member | source | states |
|---|---|---|
| `Text.StripPadded` | i18n_utils/cli/msgfromxls.py:48-50 | `strip()` of whitespace, a stripped text and whitespace gives back exactly that text |
| `Text.IsSpace` | i18n_utils/cli/msgfromxls.py:48-50 | the characters `\s` and `strip()` treat as whitespace |
| `Text.LeadingSpace` | i18n_utils/cli/msgfromxls.py:48 | `^\s*` matches the longest all-whitespace prefix |
| `Text.TrailingSpace` | i18n_utils/cli/msgfromxls.py:49 | `\s*$` matches the longest all-whitespace suffix |
| `Text.Strip` | i18n_utils/cli/msgtoxls.py:154 | `strip()` leaves neither end whitespace |
| `Text.StripIdempotent` | i18n_utils/cli/msgtoxls.py:154 | `strip()` applied twice is `strip()` once |
| `Text.SplitLength` | i18n_utils/normalization.py:12 | `split(sep)` gives one more piece than the text has separators |
| `Text.Split` | i18n_utils/normalization.py:15 | `split(sep)` returns at least one piece, and no piece holds the separator |
| `Text.IndexOf` | i18n_utils/cli/msgfromxls.py:22 | `split(':', 1)` cuts at the first colon |
| `Text.SplitJoin` | i18n_utils/normalization.py:20 | `split` undoes `join` when no piece holds the separator |
| `Text.JoinSplit` | i18n_utils/normalization.py:12 | `join` undoes `split`, for every text |
| `Text.SortedSet` | i18n_utils/cli/msgtoxls.py:70 | `sorted` of a set: the same elements, strictly increasing |
| `Text.StrictlySortedUnique` | i18n_utils/cli/msgtoxls.py:72 | two strictly sorted sequences with the same elements are equal, so `sorted` of a set is determined |
| `Text.StrLeTotal` | i18n_utils/cli/msgtoxls.py:189 | Python's string comparison is total |
| `Text.StrLeTransitive` | i18n_utils/cli/msgtoxls.py:189 | Python's string comparison is transitive |
| `Text.StrLeAntisymmetric` | i18n_utils/cli/msgtoxls.py:189 | strings that compare both ways are equal |
| `Text.Lower` | i18n_utils/cli/msgtoxls.py:189 | `key.lower()` keeps the length of the key |
| `Text.Upper` | i18n_utils/cli/msgtoxls.py:226 | `l.upper()` keeps the length of the locale |
| `Text.DecimalString` | i18n_utils/cli/msgtoxls.py:209 | `'{}'.format(n)` writes at least one digit and only digits |
| `Text.DecimalRoundTrip` | i18n_utils/cli/msgtoxls.py:209 | the digits `'{}'.format(n)` writes denote `n` |
| `Text.DecimalInjective` | i18n_utils/cli/msgtoxls.py:209 | different counts are written differently |
| `Text.IntString` | i18n_utils/cli/msgfromxls.py:115 | `str(n)` of an integer: non-empty, no surrounding whitespace, digits after a minus sign for a negative number |
| `Sorting.SortIsPermutation` | i18n_utils/normalization.py:41 | `sorted` returns a permutation of its input |
| `Sorting.SortedResult` | i18n_utils/normalization.py:41 | under a key drawn from a total order, `sorted` returns its input in order |
| `Sorting.SortIsStable` | i18n_utils/cli/msgtoxls.py:189 | elements with equal keys keep their input order |
| `Catalog.FirstIndex` | i18n_utils/cli/msgfromxls.py:204-205 | the position `list.remove` looks for: it holds `f`, and no earlier position does |
| `Catalog.RemoveFirst` | i18n_utils/cli/msgfromxls.py:204-205 | `flags.remove('fuzzy')` is the list without its first `'fuzzy'`, the other flags kept in order |
| `Catalog.RemoveFirstCount` | i18n_utils/cli/msgfromxls.py:204-205 | the removal takes away exactly one copy of the flag and nothing else |
| `Sheet.PyIndex` | i18n_utils/cli/msgfromxls.py:109-115 | `row[i]` is defined exactly for `-len <= i < len`, and a negative index counts from the end |
| `Sheet.Coord` | i18n_utils/cli/msgtoxls.py:31-34 | `coord(col, row)`: the column's letters, then the row number; `Sheet.CoordInjective` proves distinct cells get distinct names |
| `Sheet.Blank` | i18n_utils/cli/msgtoxls.py:60 | `[''] * width` has `width` cells, each an empty string |
| `Sheet.PlacedCells` | i18n_utils/cli/msgtoxls.py:60 | writing a row sets exactly its cells and leaves every other cell as it was |
| `Sheet.PlacedTwice` | i18n_utils/cli/msgtoxls.py:60-129 | filling the blank row `add_row` appended gives the same sheet as appending the filled row |
| `Sheet.Worksheet.constructor` | i18n_utils/cli/msgtoxls.py:22 | a new sheet has no cells and no rows |
| `Sheet.Worksheet.Put` | i18n_utils/cli/msgtoxls.py:197-198 | `ws.cell(...).value = v` sets that cell only, and the sheet reaches down to its row |
| `Sheet.Worksheet.Append` | i18n_utils/cli/msgtoxls.py:60 | `ws.append` fills the row below the lowest row from column 1 on |
| `Sheet.Worksheet.Overwrite` | i18n_utils/cli/msgtoxls.py:81-129 | assigning the cells of an existing row replaces exactly those cells and adds no row |
| `Sheet.CoordInjective` | i18n_utils/cli/msgtoxls.py:31-34 | two cells get the same `coord` name only if they are the same cell, when column letters are unique and hold no digit |
| `MsgToXls.Touch` | i18n_utils/cli/msgtoxls.py:139 | reading a missing key of the defaultdict adds it last with `[None] * n`; reading a present key changes nothing |
| `MsgToXls.KeepsSingular` | i18n_utils/cli/msgtoxls.py:161-168 | the intended test of an occupied singular slot; `MsgToXls.StepKeepsSettled` proves a translated entry is never replaced |
| `MsgToXls.KeepsPlural` | i18n_utils/cli/msgtoxls.py:183-185 | an occupied plural slot keeps its entry when `msgstr_plural[1]`, stripped, is not empty; `MsgToXls.KeepsIffShown` ties it to the shown text |
| `MsgToXls.SingularSlotAsWrittenLosesTranslation` | i18n_utils/cli/msgtoxls.py:161-168 | as written, a translated plural entry in a singular slot is overwritten or the export raises `UnboundLocalError`; the intended test keeps it |
| `MsgToXls.SingularSlotAsWrittenKeepsUntranslated` | i18n_utils/cli/msgtoxls.py:161-168 | as written, an untranslated plural entry in a singular slot can block a translated one; the intended test lets it in |
| `MsgToXls.KeepsSingularAgrees` | i18n_utils/cli/msgtoxls.py:161-168 | for an empty slot or a singular entry, the code as written and the intended test decide alike |
| `MsgToXls.Step` | i18n_utils/cli/msgtoxls.py:148-187 | one entry's step, with the corrected singular-slot test `KeepsSingular`, keeps every key once, in insertion order, each with one slot per locale |
| `MsgToXls.PluralStep` | i18n_utils/cli/msgtoxls.py:176-187 | the plural half of a step keeps the table valid; `MsgToXls.PluralStepFillsUnsettled` states what it fills |
| `MsgToXls.CollectEntries` | i18n_utils/cli/msgtoxls.py:148-187 | the loop over one catalog's entries keeps the table valid |
| `MsgToXls.Position` | i18n_utils/cli/msgtoxls.py:147 | `locales.index(l)` is the first position holding `l` |
| `MsgToXls.CollectCatalogs` | i18n_utils/cli/msgtoxls.py:141-187 | the loop over the folders' catalogs keeps the table valid |
| `MsgToXls.EntriesFailurePersists` | i18n_utils/cli/msgtoxls.py:148-187 | an exception ends the entry loop: later entries change nothing |
| `MsgToXls.CatalogsFailurePersists` | i18n_utils/cli/msgtoxls.py:141-187 | an exception ends the catalog loop: later catalogs change nothing |
| `MsgToXls.TouchPutWellFormed` | i18n_utils/cli/msgtoxls.py:154-170 | storing a fitting entry in its row keeps every row occupied and every entry in its own row and column |
| `MsgToXls.KeptRowExists` | i18n_utils/cli/msgtoxls.py:156-168 | a slot that can keep its entry belongs to a row that already existed |
| `MsgToXls.StepWellFormed` | i18n_utils/cli/msgtoxls.py:148-187 | a step keeps the table well formed: no obsolete entry, no untranslated key-locale entry, no empty row, each entry under its context and stripped msgid |
| `MsgToXls.StepKeepsSettledAt` | i18n_utils/cli/msgtoxls.py:161-170 | a step leaves a slot of its own column alone when the entry there keeps it |
| `MsgToXls.PluralStepWellFormed` | i18n_utils/cli/msgtoxls.py:176-187 | a plural entry stored in its plural row fits that row |
| `MsgToXls.StepGrows` | i18n_utils/cli/msgtoxls.py:148-187 | a step only adds rows, after the existing ones, and writes only in its own locale's column |
| `MsgToXls.PluralStepGrows` | i18n_utils/cli/msgtoxls.py:176-187 | the plural half of a step only adds rows and writes only in its own column |
| `MsgToXls.StepKeepsSettled` | i18n_utils/cli/msgtoxls.py:161-168 | for the corrected singular-slot test, the first translated entry of a slot wins: no later entry replaces it |
| `MsgToXls.StepFillsUnsettled` | i18n_utils/cli/msgtoxls.py:154-170 | an entry that passes the filters takes its singular row's slot exactly when no translated entry holds it |
| `MsgToXls.PluralStepFillsUnsettled` | i18n_utils/cli/msgtoxls.py:176-187 | the plural half registers the row `(ctx, msgid_plural.strip(), True)`, and afterwards the slot holds the entry exactly when no entry with a non-empty stripped `msgstr_plural[1]` held it, or it held this entry already |
| `MsgToXls.StepFillsPluralUnsettled` | i18n_utils/cli/msgtoxls.py:154-187 | a plural entry that takes its singular row's slot also registers its plural row, and afterwards that slot holds the entry exactly when no form-1 translation held it, or it held this entry already |
| `MsgToXls.PluralStepKeepsSingular` | i18n_utils/cli/msgtoxls.py:176-187 | the plural half of a step leaves every singular row alone |
| `MsgToXls.EntriesWellFormed` | i18n_utils/cli/msgtoxls.py:148-187 | the loop over one catalog keeps the table well formed |
| `MsgToXls.CatalogsWellFormed` | i18n_utils/cli/msgtoxls.py:141-187 | the loop over the catalogs keeps the table well formed |
| `MsgToXls.CollectedWellFormed` | i18n_utils/cli/msgtoxls.py:139-187 | the exported table has no obsolete entry, no untranslated key-locale entry and no empty row, and each entry sits in the row of its context and stripped msgid or msgid_plural |
| `MsgToXls.EntriesGrow` | i18n_utils/cli/msgtoxls.py:145-187 | the entries of one catalog fill only the column of its locale |
| `MsgToXls.EntriesKeepSettled` | i18n_utils/cli/msgtoxls.py:148-187 | no later entry of a catalog replaces a translated one |
| `MsgToXls.CatalogsKeepSettled` | i18n_utils/cli/msgtoxls.py:141-187 | no later catalog replaces a translated entry |
| `MsgToXls.RowLeTotalPreorder` | i18n_utils/cli/msgtoxls.py:189 | the sort key `(ctx, key.lower())` orders rows totally, up to ties |
| `MsgToXls.CtxLe` | i18n_utils/cli/msgtoxls.py:189 | Python 2's order on contexts, `None` first; `MsgToXls.RowLeTotalPreorder` proves it total |
| `MsgToXls.RowLe` | i18n_utils/cli/msgtoxls.py:189 | the comparison of the sort keys `(ctx, key.lower())`; `MsgToXls.ExportOrder` sorts by it |
| `MsgToXls.SortedRows` | i18n_utils/cli/msgtoxls.py:189 | the sorted items are the table's keys |
| `MsgToXls.ExportOrder` | i18n_utils/cli/msgtoxls.py:189 | the rows are in sort-key order and are the table's rows, each once; equal sort keys keep insertion order; their number is the number of distinct keys |
| `MsgToXls.KeepsIffShown` | i18n_utils/cli/msgtoxls.py:43-51 | a slot keeps its entry during collection exactly when `get_str` shows a non-empty text for it, and both raise `KeyError` alike |
| `MsgToXls.DisplayText` | i18n_utils/cli/msgtoxls.py:43-51 | `get_str`: the stripped `msgstr_plural[1]` of a plural row, else the stripped singular text; `KeyError` on a missing plural form |
| `MsgToXls.Texts` | i18n_utils/cli/msgtoxls.py:75 | one text per slot, when no slot raises |
| `MsgToXls.TextsSpec` | i18n_utils/cli/msgtoxls.py:75 | the texts exist exactly when every occupied slot shows one, and are those texts, `''` for an empty slot |
| `MsgToXls.LocaleCell` | i18n_utils/cli/msgtoxls.py:98-120 | one locale's status and text; `MsgToXls.LocaleCellSpec` states each status |
| `MsgToXls.LocaleCellSpec` | i18n_utils/cli/msgtoxls.py:98-120 | a current translation, with non-empty text, not fuzzy and not obsolete, shows status 2 with its text in every column, the key column included; otherwise status 2 shows the key in the key column; 1 a fuzzy translation; 0 an empty text outside the key column |
| `MsgToXls.FirstPresent` | i18n_utils/cli/msgtoxls.py:53-58 | the first occupied slot, or none when every slot is empty |
| `MsgToXls.Marker` | i18n_utils/cli/msgtoxls.py:53-58 | the plural marker; `MsgToXls.PluralMarker` proves the loop computes it |
| `MsgToXls.SlotOccurrences` | i18n_utils/cli/msgtoxls.py:64 | the occurrences of the occupied slots, and only those |
| `MsgToXls.Group` | i18n_utils/cli/msgtoxls.py:65-67 | `occurrences_dict`; `MsgToXls.GroupSpec` proves each path maps to exactly its line numbers |
| `MsgToXls.GroupSpec` | i18n_utils/cli/msgtoxls.py:65-67 | each path with an occurrence maps to exactly the set of its line numbers |
| `MsgToXls.SummaryLines` | i18n_utils/cli/msgtoxls.py:72 | one summary line per path |
| `MsgToXls.OccurrenceSummary` | i18n_utils/cli/msgtoxls.py:64-72 | the summary is the distinct paths in increasing order, each with its distinct line numbers in increasing order, joined by newlines |
| `MsgToXls.OccurrenceLineOneLine` | i18n_utils/cli/msgtoxls.py:69-70 | a path's summary line holds no newline when no occurrence does |
| `MsgToXls.OccurrenceSummaryLines` | i18n_utils/cli/msgtoxls.py:72 | the summary splits back into one line per distinct path |
| `MsgToXls.Flatten` | i18n_utils/cli/msgtoxls.py:97-120 | two cells per locale |
| `MsgToXls.FlattenAt` | i18n_utils/cli/msgtoxls.py:99-119 | locale `i`'s status is cell `2i` and its text cell `2i + 1` |
| `MsgToXls.LocaleCells` | i18n_utils/cli/msgtoxls.py:98-120 | one status and text per locale |
| `MsgToXls.RowValues` | i18n_utils/cli/msgtoxls.py:60 | a row has `2n + 5 + left` cells |
| `MsgToXls.RowValuesAt` | i18n_utils/cli/msgtoxls.py:60-129 | the row holds blanks, context, key, marker, the locale pairs, an empty comment and the occurrences, in that order |
| `MsgToXls.ExportRow` | i18n_utils/cli/msgtoxls.py:42-129 | a row `add_row` completes has `2n + 5 + left` cells |
| `MsgToXls.ExportRowFails` | i18n_utils/cli/msgtoxls.py:75 | `add_row` raises exactly when an occupied slot has no text to show |
| `MsgToXls.ExportRowLayout` | i18n_utils/cli/msgtoxls.py:60-129 | each locale's status and text sit under that locale's header, and the comment and the occurrences under theirs |
| `MsgToXls.PluralMarker` | i18n_utils/cli/msgtoxls.py:53-58 | the loop's marker: `'P'` for a plural row, else `'p'` when the first occupied slot is plural, else `'s'` |
| `MsgToXls.FoldOccurrences` | i18n_utils/cli/msgtoxls.py:65-67 | the loop builds `occurrences_dict` as `Group` describes it |
| `MsgToXls.FillRow` | i18n_utils/cli/msgtoxls.py:81-129 | filling the blank row cell by cell gives the row `RowValues` lays out |
| `MsgToXls.AddRow` | i18n_utils/cli/msgtoxls.py:42-129 | `add_row` appends one row holding the exported values; on `KeyError` the blank row stays behind |
| `MsgToXls.AddEntry` | i18n_utils/cli/msgtoxls.py:148-187 | the in-place update for one entry is `Step` |
| `MsgToXls.AddCatalog` | i18n_utils/cli/msgtoxls.py:148-187 | the loop over one catalog's entries is `CollectEntries` |
| `MsgToXls.Collect` | i18n_utils/cli/msgtoxls.py:139-187 | the collection loops build the table `CollectCatalogs` describes |
| `MsgToXls.Formulas` | i18n_utils/cli/msgtoxls.py:212-230 | one formula per locale |
| `MsgToXls.LocaleHeader` | i18n_utils/cli/msgtoxls.py:216-230 | one locale's `CONCATENATE` formula, counting the status cells equal to 2 below its header |
| `MsgToXls.Headers` | i18n_utils/cli/msgtoxls.py:196-239 | the header cells; `MsgToXls.HeaderLayout` places each of them |
| `MsgToXls.HeaderLayout` | i18n_utils/cli/msgtoxls.py:196-239 | title two rows above the headers; then context, key with the entry count, each locale's formula over its status column, comment and occurrences; nothing else changes |
| `MsgToXls.HeaderCellsLayout` | i18n_utils/cli/msgtoxls.py:197-239 | the header cells sit where `HeaderLayout` says, whatever the title and key texts |
| `MsgToXls.RowResults` | i18n_utils/cli/msgtoxls.py:242-243 | one outcome per key |
| `MsgToXls.Finish` | i18n_utils/cli/msgtoxls.py:242-243 | the sheet after the row loop; `MsgToXls.WriteRowsStop` and `MsgToXls.FinishLayout` state what it holds |
| `MsgToXls.WriteRowsStop` | i18n_utils/cli/msgtoxls.py:242-243 | the row loop stops exactly at the first row that raises, after writing its blank row |
| `MsgToXls.WriteRowsCells` | i18n_utils/cli/msgtoxls.py:242-243 | when no row raises, the `j`-th row lands `j` rows below the first, and the rows above are untouched |
| `MsgToXls.FinishLayout` | i18n_utils/cli/msgtoxls.py:242-243 | a successful export wrote every row below the headers and left the headers alone |
| `MsgToXls.WriteSheetRows` | i18n_utils/cli/msgtoxls.py:189-243 | when no row raises, the sheet gains one row per key, in export order, as `ExportRow` lays it out |
| `MsgToXls.WriteSheetHeaders` | i18n_utils/cli/msgtoxls.py:196-243 | the headers survive the rows; the key header counts the distinct keys; each formula heads its status column |
| `MsgToXls.WriteSheet` | i18n_utils/cli/msgtoxls.py:189-243 | headers, then rows; `MsgToXls.WriteSheetRows` and `MsgToXls.WriteSheetHeaders` state its result |
| `MsgToXls.Translations` | i18n_utils/cli/msgtoxls.py:132-243 | the export as a whole; `MsgToXls.TranslationsSucceed` states its outcomes |
| `MsgToXls.TranslationsSucceed` | i18n_utils/cli/msgtoxls.py:132-243 | proof step of `MsgToXls.AddTranslations`, unfolding `Translations` once: the export raises only what collection raises, a `ValueError` for an unrequested key locale, or a row's `KeyError`; otherwise it writes the sheet of the collected table, whose content `MsgToXls.WriteSheetRows` and `MsgToXls.WriteSheetHeaders` state |
| `MsgToXls.ResumeShown` | i18n_utils/cli/msgtoxls.py:242-243 | proof step of `MsgToXls.AddRows`: one unfolding of the row loop for a row that can be shown, which is written while the export goes on below it |
| `MsgToXls.ResumeRaised` | i18n_utils/cli/msgtoxls.py:242-243 | proof step of `MsgToXls.AddRows`: one unfolding of the row loop for a row that raises, which leaves its blank row and ends the export with its exception |
| `MsgToXls.ResumeDone` | i18n_utils/cli/msgtoxls.py:242-243 | proof step of `MsgToXls.AddRows`: the row loop's exit, where every row is written and the export has succeeded |
| `MsgToXls.WriteLocaleHeaders` | i18n_utils/cli/msgtoxls.py:212-231 | the loop writes each locale's formula, left to right, and adds no row |
| `MsgToXls.WriteHeaders` | i18n_utils/cli/msgtoxls.py:196-239 | the header cells are the ones `Headers` describes |
| `MsgToXls.AddTranslations` | i18n_utils/cli/msgtoxls.py:132-243 | `add_translations_wb`, with the corrected singular-slot test, leaves the sheet and the outcome that `Translations` describes |
| `MsgToXls.AddRows` | i18n_utils/cli/msgtoxls.py:242-243 | the loop over the sorted keys leaves the sheet that `Finish` describes |
| `MsgToXls.AddRowAt` | i18n_utils/cli/msgtoxls.py:242-243 | one pass writes row `j` just below the lowest row |
| `MsgFromXls.FolderArgumentRoundTrip` | i18n_utils/cli/msgfromxls.py:22-24 | every folder path, colons included, survives `split(':', 1)`, and the prefix decides read-only |
| `MsgFromXls.SplitFolderArgumentInverse` | i18n_utils/cli/msgfromxls.py:22-24 | an argument that passes the assert is exactly a prefix, a colon and a path |
| `MsgFromXls.SplitFolderArgument` | i18n_utils/cli/msgfromxls.py:22-24 | `split(':', 1)` and the `rw`/`ro` assert; `MsgFromXls.FolderArgumentRoundTrip` is its inverse |
| `MsgFromXls.Get` | i18n_utils/cli/msgfromxls.py:35-40 | `get()` succeeds exactly when the plural index exists, or for a singular entry when the multiplicity is 0 |
| `MsgFromXls.NormalizeWhitespace` | i18n_utils/cli/msgfromxls.py:42-50 | the result is exactly the source text's leading whitespace, the stripped value and the source text's trailing whitespace; `None` stays `None` |
| `MsgFromXls.NormalizeWhitespaceIdempotent` | i18n_utils/cli/msgfromxls.py:42-50 | normalizing twice is normalizing once |
| `MsgFromXls.NormalizeWhitespaceExample` | i18n_utils/cli/msgfromxls.py:48-50 | documentation only, an instance of `MsgFromXls.NormalizeWhitespace`: source `"  Hello\n"` and value `"bonjour"` give `"  bonjour\n"` |
| `MsgFromXls.SetThenGet` | i18n_utils/cli/msgfromxls.py:52-56 | `get()` returns what `set()` stored, and no other field or plural form changes |
| `MsgFromXls.WithMsgStr` | i18n_utils/cli/msgfromxls.py:52-56 | `set(value)`: the plural form or the singular text; `MsgFromXls.SetThenGet` proves `get()` returns it |
| `MsgFromXls.PoFile.constructor` | i18n_utils/cli/msgfromxls.py:27 | a loaded catalog holds what its file holds |
| `MsgFromXls.PoFile.Save` | i18n_utils/cli/msgfromxls.py:141 | `save()` writes the entries to the file and changes no entry |
| `MsgFromXls.PoFile.Append` | i18n_utils/cli/msgfromxls.py:135 | `append` adds the entry last and leaves the file alone |
| `MsgFromXls.PoFile.HandleEntry` | i18n_utils/cli/msgfromxls.py:192-227 | `handle_entry` replaces the entry by what `Reconcile` makes of it, or raises with nothing changed |
| `MsgFromXls.Stores` | i18n_utils/cli/msgfromxls.py:133 | the `(read_only, po)` pairs as values |
| `MsgFromXls.Matches` | i18n_utils/cli/msgfromxls.py:150-153 | `find`'s test: not obsolete unless obsolete entries are included, stripped msgid or msgid_plural equal, same context |
| `MsgFromXls.FirstMatch` | i18n_utils/cli/msgfromxls.py:144-155 | `find` returns the first entry that matches, and no earlier entry matches; none when no entry matches |
| `MsgFromXls.Find` | i18n_utils/cli/msgfromxls.py:144-155 | the loop returns the position `FirstMatch` names |
| `MsgFromXls.FirstHit` | i18n_utils/cli/msgfromxls.py:168-172 | the first catalog in which `find` succeeds, and no earlier catalog has a match |
| `MsgFromXls.FirstHitFindsAny` | i18n_utils/cli/msgfromxls.py:168-172 | a pass finds something exactly when some catalog has a match |
| `MsgFromXls.Search` | i18n_utils/cli/msgfromxls.py:160-174 | the two passes of `find_entry`; `MsgFromXls.SearchFindsFirst` and `MsgFromXls.SearchFindsAny` state what they find |
| `MsgFromXls.SearchFindsFirst` | i18n_utils/cli/msgfromxls.py:158-174 | nothing is found exactly when nothing matches; a current match is preferred; in either pass the result is the first match of the first catalog holding one |
| `MsgFromXls.SearchFindsAny` | i18n_utils/cli/msgfromxls.py:165-174 | the two passes find something exactly when some entry, current or obsolete, matches, and what they find matches |
| `MsgFromXls.Locate` | i18n_utils/cli/msgfromxls.py:158-189 | a writable match names an entry that exists |
| `MsgFromXls.LocateSpec` | i18n_utils/cli/msgfromxls.py:158-189 | a writable match is a matching entry, in plural form 1 for a `'P'` row; a read-only match reports whether the row's translation differs |
| `MsgFromXls.ScanCatalogs` | i18n_utils/cli/msgfromxls.py:168-172 | the loop over the catalogs finds `FirstHit` |
| `MsgFromXls.FindEntry` | i18n_utils/cli/msgfromxls.py:158-189 | `find_entry` reports what `Locate` describes |
| `MsgFromXls.ReconcileFails` | i18n_utils/cli/msgfromxls.py:192-195 | `handle_entry` raises exactly when `get()` does |
| `MsgFromXls.Reconcile` | i18n_utils/cli/msgfromxls.py:192-227 | `handle_entry` on one entry; the `MsgFromXls.Reconcile…` lemmas state each branch |
| `MsgFromXls.ReconcileUpToDate` | i18n_utils/cli/msgfromxls.py:195-207 | an up-to-date slot is re-padded, or cleared when blank; `fuzzy` goes unless the row is fuzzy; the entry is no longer obsolete |
| `MsgFromXls.ReconcileUntranslated` | i18n_utils/cli/msgfromxls.py:209-217 | an untranslated entry takes the row's text with the source's whitespace; `fuzzy` goes unless the row is fuzzy; `obsolete` is kept |
| `MsgFromXls.SetKeepsFlags` | i18n_utils/cli/msgfromxls.py:213-215 | dropping `fuzzy` or clearing `obsolete` after `set()` keeps what was set |
| `MsgFromXls.ReconcileChanged` | i18n_utils/cli/msgfromxls.py:219-227 | a translated entry takes the row's text exactly as the cell holds it, and nothing else changes |
| `MsgFromXls.ReconcileAdoptsRow` | i18n_utils/cli/msgfromxls.py:192-227 | whatever the outcome, a non-blank row's text ends up in the slot up to surrounding whitespace, and the entry keeps its msgid, plural msgid, context and occurrences |
| `MsgFromXls.FirstWritable` | i18n_utils/cli/msgfromxls.py:133-136 | the first catalog that is not read-only, and every earlier one is read-only |
| `MsgFromXls.TextCell` | i18n_utils/cli/msgfromxls.py:109-112 | a text cell's value: empty reads as `None`, a column past the row raises |
| `MsgFromXls.IntValue` | i18n_utils/cli/msgfromxls.py:115 | `int()` of a string: ASCII digits after an optional sign, whitespace around them |
| `MsgFromXls.IntValueOfIntString` | i18n_utils/cli/msgfromxls.py:115 | `int()` reads back `str(n)` for every integer, whatever whitespace surrounds it |
| `MsgFromXls.IntValueOfPlus` | i18n_utils/cli/msgfromxls.py:115 | `int()` accepts a plus sign |
| `MsgFromXls.IntValueRejects` | i18n_utils/cli/msgfromxls.py:115 | `int()` raises on whitespace alone or a bare sign |
| `MsgFromXls.FlagCell` | i18n_utils/cli/msgfromxls.py:115 | `int(cell.value)` of the status cell: a number as it is, a string through `int()`, an empty cell raises |
| `MsgFromXls.ReadRow` | i18n_utils/cli/msgfromxls.py:109-115 | the context (empty reads as `None`), key, marker, translation and status of a row; `RoundTrip.ReadRowValues` states them |
| `MsgFromXls.ApplyLookup` | i18n_utils/cli/msgfromxls.py:122-136 | a writable match is reconciled; otherwise a singular row the user adds is appended, as the corrected entry `NewRowEntry` with its context, to the first writable catalog |
| `MsgFromXls.ProcessRow` | i18n_utils/cli/msgfromxls.py:117-136 | one row; `MsgFromXls.ProcessRowKeepsReadOnly` and `MsgFromXls.ProcessRowEntryCounts` state what it changes |
| `MsgFromXls.ImportRows` | i18n_utils/cli/msgfromxls.py:108-136 | the rows in order, stopping at the first exception; `MsgFromXls.ImportKeepsReadOnly` states what it keeps |
| `MsgFromXls.ProcessRowKeepsReadOnly` | i18n_utils/cli/msgfromxls.py:118-136 | a row changes no read-only catalog |
| `MsgFromXls.ImportKeepsReadOnly` | i18n_utils/cli/msgfromxls.py:108-136 | an import changes no read-only catalog |
| `MsgFromXls.EmptyRowIgnored` | i18n_utils/cli/msgfromxls.py:118-120 | a row without key and translation changes nothing |
| `MsgFromXls.UnmatchedPluralRowNotAdded` | i18n_utils/cli/msgfromxls.py:125-126 | an unmatched plural row is never added |
| `MsgFromXls.ProcessRowEntryCounts` | i18n_utils/cli/msgfromxls.py:122-136 | a row changes no catalog's entry count, except that a singular row without a writable match, once the user adds it, appends one entry to the first writable catalog |
| `MsgFromXls.ReadOnlyMatchAppended` | i18n_utils/cli/msgfromxls.py:122-136 | a singular row whose only match is read-only takes the add branch, as `find_entry` then returns no entry |
| `MsgFromXls.AppendedIsLocated` | i18n_utils/cli/msgfromxls.py:128-136 | after the append, `find_entry` on the same row finds the new entry |
| `MsgFromXls.OnlyMatchIsAppended` | i18n_utils/cli/msgfromxls.py:133-136 | when nothing matched before, the appended entry is the only possible match afterwards |
| `MsgFromXls.AddedRowIsFound` | i18n_utils/cli/msgfromxls.py:125-136 | for the corrected entry, an added row is appended once, to the first writable catalog, and a second import finds it instead of adding it again |
| `MsgFromXls.AddedRowAsWrittenIsLost` | i18n_utils/cli/msgfromxls.py:128-132 | as written, the appended entry has no context, so a row with a context still finds nothing afterwards |
| `MsgFromXls.AppendFirstWritable` | i18n_utils/cli/msgfromxls.py:133-136 | the loop appends to the first writable catalog only, and writes no file |
| `MsgFromXls.ReconcileIn` | i18n_utils/cli/msgfromxls.py:123-124 | `handle_entry` on the catalog objects does what `ReconcileAt` describes, and writes no file |
| `MsgFromXls.ImportRow` | i18n_utils/cli/msgfromxls.py:108-136 | one row on the catalog objects does what `ProcessRow` describes, and writes no file |
| `MsgFromXls.SaveAll` | i18n_utils/cli/msgfromxls.py:138-141 | unless pretending, each writable catalog's file gets its entries; read-only files stay |
| `MsgFromXls.Import` | i18n_utils/cli/msgfromxls.py:108-141 | the catalogs end as `ImportRows` says, with an added row appended as the corrected entry; a writable file holds its new entries unless pretending; read-only files, and every file after an exception, stay untouched |
| `Normalization.ReferenceLines` | i18n_utils/normalization.py:15-16 | one `#: ` line per reference |
| `Normalization.OnePerLine` | i18n_utils/normalization.py:12-18 | the lines after the loop; `Normalization.PlainLinesKept` and `Normalization.LineCount` state them |
| `Normalization.Normalized` | i18n_utils/normalization.py:9-20 | `one_occurrence_per_line`; `Normalization.NormalizedIdempotent` proves it idempotent |
| `Normalization.OneOccurrencePerLine` | i18n_utils/normalization.py:9-20 | the loop computes `Normalized` |
| `Normalization.PlainLinesKept` | i18n_utils/normalization.py:17-18 | lines that are not references come out unchanged and in order |
| `Normalization.LineCount` | i18n_utils/normalization.py:12-18 | every space after a `#: ` prefix starts a line of its own |
| `Normalization.ReferenceLineSplit` | i18n_utils/normalization.py:13-16 | a reference line becomes reference lines with one reference each, and these give the line back |
| `Normalization.OnePerLineShape` | i18n_utils/normalization.py:12-18 | every output line is one the function leaves alone |
| `Normalization.OnePerLineSettled` | i18n_utils/normalization.py:12-18 | lines that are not references, or hold no space after the `#: ` prefix, come out unchanged |
| `Normalization.NormalizedIdempotent` | i18n_utils/normalization.py:9-20 | normalizing a normalized text changes nothing |
| `Normalization.EntryToUnicode` | i18n_utils/normalization.py:23-24 | the rendered entry with one reference per line, already normalized |
| `Normalization.CommentLine` | i18n_utils/normalization.py:34-37 | every header line becomes a line starting with `#` |
| `Normalization.HeaderComments` | i18n_utils/normalization.py:32-37 | the header's comment block; `Normalization.HeaderCommentLines` counts its lines |
| `Normalization.HeaderCommentLines` | i18n_utils/normalization.py:32-37 | each header line gives exactly one comment line, and the block ends with a line break |
| `Normalization.MsgidLeTotalPreorder` | i18n_utils/normalization.py:41 | the key `msgid` orders entries totally, up to ties |
| `Sorting.StableSort` | i18n_utils/normalization.py:41 | Python's `sorted`; `Sorting.SortIsPermutation`, `Sorting.SortedResult` and `Sorting.SortIsStable` state it |
| `Normalization.FileOrder` | i18n_utils/normalization.py:40-41 | the metadata entry comes first |
| `Normalization.FileOrderSorted` | i18n_utils/normalization.py:41 | after it, the entries are in non-decreasing `msgid` order |
| `Normalization.FileOrderPermutation` | i18n_utils/normalization.py:41 | after it come exactly the file's entries |
| `Normalization.FileOrderStable` | i18n_utils/normalization.py:41 | entries with equal `msgid`s keep the file's order |
| `Normalization.RenderedEntry` | i18n_utils/normalization.py:42-43 | entry `k` is rendered in place `k` at the file's wrap width, then normalized |
| `Normalization.RenderedEntries` | i18n_utils/normalization.py:42-43 | one rendered text per entry |
| `Normalization.FileHeaderLines` | i18n_utils/normalization.py:32-37 | the comment block has one line per header line |
| `Normalization.MetadataFirst` | i18n_utils/normalization.py:40-46 | the comment block is followed by the rendered metadata entry |
| `Normalization.HeaderBlock` | i18n_utils/normalization.py:32-37 | the loop builds the comment block |
| `Normalization.FileText` | i18n_utils/normalization.py:28-46 | what `__unicode__` returns; `Normalization.Unicode` proves the method computes it |
| `Normalization.RenderAll` | i18n_utils/normalization.py:42-43 | the loop renders every entry in turn |
| `Normalization.Unicode` | i18n_utils/normalization.py:28-46 | `__unicode__` returns the comment block, then the rendered entries joined by line breaks |
| `Memoize.Memoized.constructor` | i18n_utils/utils.py:4-5 | the cache starts empty and nothing has been invoked |
| `Memoize.Memoized.Call` | i18n_utils/utils.py:8-12 | a hit returns the cached value and changes nothing; a miss invokes the callable once and caches its value; the callable runs once per cached key |
| `Memoize.CallTwice` | i18n_utils/utils.py:8-12 | equal arguments get equal results, the second call invokes nothing, and the cache only grows |
| `RoundTrip.ReadRowValues` | i18n_utils/cli/msgfromxls.py:109-116 | reading a row at a locale's columns gives the context, key, marker, text and status the row holds |
| `RoundTrip.ExportedRowReadsBack` | i18n_utils/cli/msgfromxls.py:108-116 | an exported row reads back as the context (empty reads as none), key, marker, shown text and status code the export wrote |

## Left out

- Styles, column widths, merged cells, grid lines, conditional formatting, freezing, protection and row heights are left out. This includes `num_lines` and `wrap` in `msgtoxls.py`. They decide how the sheet looks, not what it holds.
- The sheet title `'Translations'` and the workbook's creation, loading and saving are left out. They are openpyxl I/O.
- `get_column_letter` is the parameter `letters`. openpyxl is not part of this model.
- Click parsing is left out. So are the interactive column prompts of `msgfromxls.main`, every message printed, and `hr`. They are terminal I/O.
- The answer to `click.confirm` is the parameter `confirm`.
- Catalog discovery with `glob` and reading with `polib.pofile` are left out. A catalog is given as its entries.
- polib's rendering of one entry, `metadata_as_entry()` and `translated()` are parameters. polib is not part of this model.
- The value a memoized callable returns is the parameter `computed`. The callable is code this model cannot see.
- In `memoize`, keyword arguments are a sequence in call order, because the cache key depends on that order. The cache shared as `obj.cache` is the field `cache`. `functools.wraps` is left out.
- Choosing the sheet and skipping the `--skip` rows and the header row are left out. The import is given the data rows. Column options stay 1-based, as the user gives them.
- `MsgToXls.ExportOrder` orders contexts as Python 2 does: `None` before every string. Python 3 would raise `TypeError` when comparing them. Equal sort keys keep insertion order, as Python 3.7 dicts do.
- `MsgToXls.LocaleHeader` keeps the `COUNTIF` range that ends one row past the data, as written.
- `Text.Lower` and `Text.Upper` map ASCII letters only.
- `Normalization.FileOrder` sorts by `msgid`, as the code does.
- Entries are values addressed by catalog and position. Two catalogs sharing one polib entry object is not modelled.
- `MsgToXls.Step` tests an occupied singular slot with the corrected `KeepsSingular`, not with the stale `msgstr` of lines 161-168 as written (see Findings). So `CollectEntries`, `CollectCatalogs`, `Collect`, `Translations`, `AddTranslations` and their lemmas describe the intended program on inputs where the two tests differ. `MsgToXls.KeepsSingularAgrees` shows the two tests decide alike whenever the slot is empty or holds a singular entry, so the programs differ only when a plural entry occupies a singular slot.
- `MsgFromXls.ApplyLookup` appends the corrected `NewRowEntry`, which keeps the row's context, not the context-less entry that `msgctx=` at lines 128-132 produces (see Findings). So `ProcessRow`, `ImportRows`, `ImportRow`, `Import` and their lemmas describe the intended program for an added row with a context. For a row without one, the two entries are equal.
- `MsgFromXls.TextCell` raises `UnsupportedCell` for a number in the context, key, marker or translation column. Python carries the number on: `find` never matches it, but it can still reach `polib.POEntry` or `MsgStr.set`, whose handling of a non-string is polib's and is not part of this model.
- `MsgFromXls.FlagCell` reads strings with ASCII digits only. Python's `int()` also accepts other Unicode decimal digits, and Python 3 accepts `_` between digits. A spreadsheet number is an integer here; a fractional one, which `int()` truncates, is not modelled.
- `Text.IsSpace` is Python 3's whitespace, which Python 3's `str.strip()` and `re`'s `\s` share. The code is Python 2 code. There, `re` without the `UNICODE` flag matches only ASCII whitespace in `normalize_whitespace`, so a non-ASCII space around a msgid is not carried over as the model says.
- `Normalization.ReferenceLines` builds the `#: ` lines as Python 3 does. Under Python 2, `'#: {}'` is a byte string, and `format` raises `UnicodeEncodeError` when the reference holds a non-ASCII character. The model has no such error.
- `Memoize.Memoized.Call` has a callable that always returns. When the callable raises, Python caches nothing and the exception propagates. Unhashable arguments raise `TypeError` before the cache is consulted. Neither case is modelled.

## Findings

| source | as written | input that shows it | evidently intended | confidence | as-written member | corrected member |
|---|---|---|---|---|---|---|
| i18n_utils/cli/msgtoxls.py:161-168 | line 163 computes `msgstr_plural[0].strip()` and discards it, so line 167 tests the `msgstr` of an earlier singular entry, or raises `UnboundLocalError` when there was none | a plural entry `file`/`files` translated `fichier`/`fichiers` holds a singular slot, and the last singular slot examined held an untranslated entry: the next entry for that slot overwrites the translation | assign that value to `msgstr` and test it | high, not executed | `MsgToXls.KeepsSingularAsWritten` | `MsgToXls.KeepsSingular` |
| i18n_utils/cli/msgfromxls.py:128-132 | `polib.POEntry(..., msgctx=ctx or None)` passes a keyword polib does not read, so the new entry has no context | a row with context `menu`, key `Open`, marker `s`, matching nothing, added with `--add`: the next import still finds nothing and adds it again | `msgctxt=ctx or None` | high, not executed | `MsgFromXls.NewRowEntryAsWritten` | `MsgFromXls.NewRowEntry` |

- `MsgToXls.SingularSlotAsWrittenLosesTranslation` and `MsgToXls.SingularSlotAsWrittenKeepsUntranslated` exhibit the first finding.
- `MsgToXls.KeepsSingularAgrees` shows the two readings agree everywhere else.
- `MsgToXls.StepKeepsSettled` proves the intended property of the corrected test: a translated entry is never replaced.
- `MsgFromXls.AddedRowAsWrittenIsLost` exhibits the second finding.
- `MsgFromXls.AddedRowIsFound` proves the intended property of the corrected entry.
