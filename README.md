# SQL grading core, modelled in Dafny

This project models the core of an SQL practice and grading service. It has
five parts:

- **SQL validator** (`services/sqlValidationService.js`). It strips `--` and
  block comments and collapses whitespace. It enforces a raw length limit
  of 10,000 UTF-16 code units and a limit of 20 statements. It splits the text on
  `;` and rejects any submission whose lower-cased text matches a blocked,
  word-bounded pattern.
- **Result normalizer** (`services/resultNormalizer.js`). It canonicalises
  column names (trim, lower-case, whitespace runs to `_`, non-word
  characters dropped). It canonicalises values (null and undefined to null,
  strings trimmed, integers kept, other numbers rounded to six decimals).
  It then sorts the rows in place with `rowComparator`.
- **Result comparator** (`services/resultComparator.js`). It normalizes both
  sides, parsing expected JSON text first. It then checks the row count and
  compares the rows position by position with `deepEqual`, where two numbers
  are equal within `1e-6`.
- **Execution engine** (`engine/SqliteExecutionEngine.js`). A class with
  the fields `db`, `dbPath`, `lastSelectResult` and `active`:
  - `init` opens and seeds a fresh database;
  - `execute` runs statements one by one and keeps the rows of the last
    query;
  - `destroy` closes the database and deletes its file.
- **Engine registry** (`services/engineRegistry.js`). A module-level map
  from question id to engine.

Files, one module each:

- `wrappers.dfy`: `Option` and `Result`.
- `js_strings.dfy`: the JavaScript string operations the code calls. These
  are `\s`, `\w`, `trim`, `toLowerCase`, `replace(/\s+/g, c)`, `split`,
  `length` in UTF-16 code units, and the string order of `sort()` and `<`
  (compared here by code point).
- `js_values.dfy`: the values a row holds, and `<` on them.
- `sorting.dfy`: `Array.prototype.sort(comparefn)` as a stable insertion
  sort. It has a function specification and an in-place array method proved
  against it.
- `sql_validation.dfy`, `result_normalizer.dfy`, `result_comparator.dfy`,
  `execution_engine.dfy`, `engine_registry.dfy`: one file per source file.

SQLite, `JSON.parse`, the file system, `crypto.randomUUID` and
`process.cwd()` are not modelled. They appear as parameters:

- SQLite is a record of functions over an abstract database state: the
  state of a fresh file, `exec`, and `all`.
- `JSON.parse` is a function that gives `None` where it throws.
- The UUID and the working directory are arguments of `init`.
- Whether the database file exists is a boolean field.

Some behaviours of the code are easy to miss, and the model keeps them:

- **Re-initialisation.** `init` checks only `active`
  (`engine/SqliteExecutionEngine.js:27`), so `init` after `destroy` opens a
  new database. `DestroyThenInit` shows this.
- **Failed `init`.** A failed `init` leaves the engine inactive with its
  database open.
- **Result shape.** `execute` returns only the last query's rows.
- **Registry.** `setEngine` overwrites the entry without destroying the
  engine it replaces.

## Model

| member | source | states |
|---|---|---|
| SqlValidation.InvalidInputRejected | services/sqlValidationService.js:69-71 | A non-string value and the empty string are rejected with "Invalid SQL input", before any other check. |
| SqlValidation.OversizedRejected | services/sqlValidationService.js:73-75 | Raw text over 10,000 UTF-16 code units is rejected as too large, whatever it contains, before comments are stripped. |
| SqlValidation.AstralTextCountsTwice | services/sqlValidationService.js:73-75 | Text made only of characters above U+FFFF is too large once it has more than 5,000 of them, since `length` counts each twice. |
| SqlValidation.BmpTextCountsOnce | services/sqlValidationService.js:73-75 | For text within the Basic Multilingual Plane, the size limit is exactly 10,000 characters. |
| JsStrings.Utf16Length | services/sqlValidationService.js:73 | `length` counts one or two code units per character, so it lies between the character count and twice it. |
| SqlValidation.ValidateWith | services/sqlValidationService.js:68-104 | `validateSql` with the stripping step as a parameter. The checks run in the source's order: non-string or empty input, raw length, empty after stripping, statement count, blocked patterns. |
| SqlValidation.CheckStripped | services/sqlValidationService.js:81-103 | The checks after stripping and collapsing: empty text, more than 20 statements, a blocked pattern, in that order; otherwise the statements. |
| SqlValidation.ValidateSqlAsWritten | services/sqlValidationService.js:68-104 | `validateSql` with `stripComments` as written. |
| SqlValidation.ValidateSql | services/sqlValidationService.js:68-104 | `validateSql` with the corrected comment stripper (see Findings). |
| SqlValidation.CleanAccepted | services/sqlValidationService.js:100-103 | Text that passes every check is accepted with the statements split from the stripped, collapsed text. |
| SqlValidation.RejectionCauses | services/sqlValidationService.js:68-98 | Each rejection has the cause its message names. "Invalid SQL input" comes exactly from a non-string or empty input. "Too large" comes exactly from non-empty text over the limit. "Too many statements" implies more than 20 statements. "Not allowed" implies at most 20 statements and a blocked pattern. |
| SqlValidation.CheckStrippedEmpty | services/sqlValidationService.js:81-83 | The post-stripping checks say "Empty SQL statement" exactly for empty text. |
| SqlValidation.CollapseEmpty | services/sqlValidationService.js:78 | The collapsed, trimmed text is empty exactly when the text was whitespace only. |
| SqlValidation.CommentOnlyRejected | services/sqlValidationService.js:78-83 | Within the length limit, the verdict is "Empty SQL statement" exactly when the comment-stripped text is all whitespace. |
| SqlValidation.TooManyRejected | services/sqlValidationService.js:86-89 | More than 20 non-empty `;`-statements are rejected, before and regardless of the blocked patterns. |
| SqlValidation.BlockedRejected | services/sqlValidationService.js:92-98 | When the statement count is within the limit, any blocked pattern in the lower-cased collapsed text rejects the whole submission with the one fixed message. |
| SqlValidation.ShortTextNotBlocked | services/sqlValidationService.js:30-47 | Every blocked pattern is at least four characters long, so shorter text matches none. |
| SqlValidation.SeparatorsOnlyAccepted | services/sqlValidationService.js:58-63 | A submission of only `;` passes validation with an empty statement list, under both comment strippers. |
| SqlValidation.AcceptedStatements | services/sqlValidationService.js:78-103 | On acceptance, the statements are the trimmed, non-empty `;`-pieces of the stripped, collapsed text. There are at most 20 of them, the text passed the denylist, and each statement is well formed and matches no blocked pattern on its own. |
| SqlValidation.StatementWellFormed | services/sqlValidationService.js:58-63 | Each statement split from collapsed text is non-empty, has no `;`, no space at either end, and only single spaces. |
| SqlValidation.StatementFenced | services/sqlValidationService.js:58-63 | Each statement is a slice of the text bounded by non-word characters or the text's ends. |
| SqlValidation.MatchLifts | services/sqlValidationService.js:92-98 | A pattern match inside such a slice is a match in the whole text, so no returned statement escapes the check. |
| SqlValidation.StripLineComments | services/sqlValidationService.js:14 | `replace(/--.*$/gm, "")`: each `--` and the rest of its line are removed, and the line terminator is kept. |
| SqlValidation.StripBlockComments | services/sqlValidationService.js:15 | `replace(/\/\*[\s\S]*?\*\//g, "")`: each comment opener up to the first closer after it is removed, and an unclosed opener stays. |
| SqlValidation.StripComments | services/sqlValidationService.js:13-17 | `stripComments`: one line-comment pass, then one block-comment pass. |
| SqlValidation.NoComments | services/sqlValidationService.js:13-17 | The text has no `--` and no closed block comment. |
| SqlValidation.Collapse | services/sqlValidationService.js:78 | `replace(/\s+/g, " ").trim()` on the stripped text. |
| SqlValidation.SplitStatements | services/sqlValidationService.js:58-63 | `splitStatements`: the trimmed, non-empty pieces of `split(";")`, in order. |
| SqlValidation.NonEmptyTrimmed | services/sqlValidationService.js:61-62 | `.map((s) => s.trim()).filter(Boolean)`: the trimmed pieces that are not empty, in their order. |
| SqlValidation.Blocked | services/sqlValidationService.js:30-98 | Some pattern of `BLOCKED_PATTERNS`, as a word-bounded phrase, occurs in the text. |
| SqlValidation.MatchesAt | services/sqlValidationService.js:30-47 | A pattern `\b<phrase>\b` matches at offset `i`: the phrase is there, with no word character just before or just after it. |
| SqlValidation.Matches | services/sqlValidationService.js:92-93 | `pattern.test(normalized)`: the phrase matches at some offset. |
| SqlValidation.OneStatement | services/sqlValidationService.js:58-63 | Collapsed text without `;` is left as it is by collapsing, and is one statement: itself. |
| SqlValidation.SplitPieceAt | services/sqlValidationService.js:60 | Every piece of `split(";")` sits in the text between separators or the text's ends. |
| JsStrings.Split | services/sqlValidationService.js:60 | `split(d)` gives at least one piece, and no piece holds `d`; with JoinSplit and SplitJoin it is the inverse of joining with `d`. |
| JsStrings.JoinSplit | services/sqlValidationService.js:60 | Joining the pieces of `split(d)` with `d` gives the text back. |
| JsStrings.SplitJoin | services/sqlValidationService.js:60 | Splitting a join of `d`-free pieces gives the pieces back. |
| JsStrings.Trim | services/sqlValidationService.js:61 | `trim` gives the part of the text between leading and trailing whitespace. The result is empty exactly for all-whitespace text and otherwise has no whitespace at either end. |
| JsStrings.TrimIdempotent | services/sqlValidationService.js:61 | Trimming twice is trimming once. |
| JsStrings.ReplaceSpaceRuns | services/sqlValidationService.js:78 | After `replace(/\s+/g, c)`, every whitespace character left is `c`, no two whitespace characters are adjacent, and the first character is kept or replaced. Where each run goes is stated by the next four lemmas. |
| JsStrings.ReplaceSpaceRunsKeepsText | services/sqlValidationService.js:78 | Only whitespace changes: with whitespace and `c` removed, the result and the input are the same text. |
| JsStrings.ReplaceSpaceRunsSingle | services/sqlValidationService.js:78 | Text whose only whitespace is single `c` characters is left as it is. |
| JsStrings.ReplaceSpaceRunsAllSpace | services/sqlValidationService.js:78 | A non-empty run of whitespace on its own becomes exactly one `c`. |
| JsStrings.ReplaceSpaceRunsAppend | services/sqlValidationService.js:78 | The replacement works run by run: text cut next to a non-space character, or at either end, is replaced side by side, and the two results are joined. |
| JsStrings.ReplaceSpaceRunsBetween | services/sqlValidationService.js:78 | A whitespace run between two non-space characters becomes one `c` in its place, so `attach   database` collapses to `attach database`. |
| JsStrings.Lower | services/sqlValidationService.js:79 | `toLowerCase`, character by character on the ASCII letters, keeping the length. |
| JsStrings.LowerTrim | services/sqlValidationService.js:78-79 | Lower-casing and trimming commute. |
| JsStrings.LowerIdempotent | services/sqlValidationService.js:79 | Lower-casing twice is lower-casing once. |
| SqlValidation.FromLineEnd | services/sqlValidationService.js:14 | `.*$` in multiline mode stops at the first line terminator: the rest of the text is kept from there. |
| SqlValidation.BlockEnd | services/sqlValidationService.js:15 | The lazy `[\s\S]*?\*\/` ends at the first `*/` after the opener, and finds none when there is none. |
| SqlValidation.StripLineShrinks | services/sqlValidationService.js:14 | Removing line comments never lengthens the text, and strictly shortens it when it starts with `--`. |
| SqlValidation.StripBlockShrinks | services/sqlValidationService.js:15 | Removing block comments never lengthens the text, and strictly shortens it when it starts with a closed comment. |
| SqlValidation.StripCommentsShrinks | services/sqlValidationService.js:13-17 | `stripComments` never lengthens the text, and leaves it unchanged when the length is unchanged. |
| SqlValidation.LineFixpointHasNoDashes | services/sqlValidationService.js:14 | Text that the line pass leaves unchanged has no `--`. |
| SqlValidation.BlockFixpointHasNoComment | services/sqlValidationService.js:15 | Text that the block pass leaves unchanged has no `/*` with a `*/` after it. |
| SqlValidation.CommentSmuggling | services/sqlValidationService.js:13-17 | Between any two words, one pass turns ` //**/* */` into a space and a block comment, and the corrected stripper leaves only the space. |
| SqlValidation.SmuggledAccepted | services/sqlValidationService.js:68-104 | As written, `validateSql` accepts `WITH //**/* */RECURSIVE`, in any letter case, as one statement that still holds the leftover comment. |
| SqlValidation.SmuggledCaught | services/sqlValidationService.js:68-104 | The corrected `validateSql` rejects the same text as not allowed. |
| SqlValidation.SmuggledNotBlocked | services/sqlValidationService.js:30-98 | `with /* */recursive` matches no blocked pattern. |
| SqlValidation.CommentJoinsWords | services/sqlValidationService.js:13-17 | Both strippers delete an empty block comment between two words without leaving a separator, joining the words. |
| SqlValidation.JoinedAccepted | services/sqlValidationService.js:68-104 | Both strippers let `WITH/**/RECURSIVE`, in any letter case, through as the single statement `WITHRECURSIVE`. |
| SqlValidation.JoinedNotBlocked | services/sqlValidationService.js:30-98 | `withrecursive` matches no blocked pattern. |
| SqlValidation.StripCommentsFully | services/sqlValidationService.js:13-17 | The corrected stripper repeats both passes until nothing changes; its result has no `--` and no closed block comment. |
| SqlValidation.CollapseSingleSpaced | services/sqlValidationService.js:78 | Collapsed text holds only single spaces. |
| SqlValidation.LowerStripComments | services/sqlValidationService.js:13-17 | Stripping comments commutes with lower-casing. |
| SqlValidation.LowerStripCommentsFully | services/sqlValidationService.js:13-17 | The corrected stripper commutes with lower-casing too. |
| SqlValidation.LowerCollapse | services/sqlValidationService.js:78 | Collapsing whitespace commutes with lower-casing. |
| SqlValidation.LowerSplitStatements | services/sqlValidationService.js:58-63 | Splitting into statements commutes with lower-casing each statement. |
| SqlValidation.LowerCheckStripped | services/sqlValidationService.js:79-103 | The empty, count and denylist checks give the same error on lower-cased text, or the same statements lower-cased. |
| SqlValidation.CaseInsensitive | services/sqlValidationService.js:78-79 | With a stripper that commutes with lower-casing, lower-casing the input changes only the case of the returned statements. |
| SqlValidation.ValidateSqlCaseInsensitive | services/sqlValidationService.js:68-104 | `validateSql`, as written and corrected, rejects lower-cased input with the same error or accepts it with the statements lower-cased. |
| ResultNormalizer.KeepWordChars | services/resultNormalizer.js:50 | `replace(/[^\w]/g, "")` keeps only word characters, drawn from the input, and leaves an all-word-character string unchanged. |
| ResultNormalizer.KeepWordCharsChar | services/resultNormalizer.js:50 | A single character is kept exactly when it is a word character. |
| ResultNormalizer.KeepWordCharsAppend | services/resultNormalizer.js:50 | Removal works character by character: on `s + t` it gives the result on `s` followed by the result on `t`, so every word character is kept, in order. |
| ResultNormalizer.NormalizeColumnName | services/resultNormalizer.js:44-51 | A normalized column name contains only `[a-z0-9_]`. |
| ResultNormalizer.NormalizeColumnNameFixpoints | services/resultNormalizer.js:44-51 | A name is left unchanged exactly when it is made of `[a-z0-9_]`. |
| ResultNormalizer.NormalizeColumnNameIdempotent | services/resultNormalizer.js:44-51 | Normalizing a normalized name changes nothing. |
| ResultNormalizer.RoundHalfAway | services/resultNormalizer.js:60 | The integer `toFixed` picks is within one half of the scaled value. |
| ResultNormalizer.Round6 | services/resultNormalizer.js:60 | `Number(x.toFixed(6))` is within 5e-7 of `x`. |
| ResultNormalizer.Round6Idempotent | services/resultNormalizer.js:60 | Rounding a rounded number changes nothing. |
| ResultNormalizer.NormalizeValue | services/resultNormalizer.js:53-68 | Null and undefined map to null, and nothing else does. A number stays a number within 5e-7, and an integer is unchanged. A string is trimmed. Booleans and objects pass through. |
| ResultNormalizer.NormalizeValueFixpoints | services/resultNormalizer.js:53-68 | A value is left unchanged exactly when it is already normal (not undefined, an integer or a six-decimal number, a trimmed string, or anything else). |
| ResultNormalizer.NormalizeValueIdempotent | services/resultNormalizer.js:53-68 | `normalizeValue` always yields a normal value, so applying it twice is applying it once. |
| ResultNormalizer.Assign | services/resultNormalizer.js:28 | `normalizedRow[normalizedKey] = normalizedValue` over the pairs in order, so a later pair overwrites an earlier one with the same name. |
| ResultNormalizer.AssignSource | services/resultNormalizer.js:25-29 | Assigning names in order yields an object whose keys are the names assigned, each holding the value of the last assignment to it. |
| ResultNormalizer.NormalizedRow | services/resultNormalizer.js:20-31 | The object the `rows.map` callback builds: the normalized name and value of each key, assigned in sorted key order. |
| ResultNormalizer.NormalizeRow | services/resultNormalizer.js:20-31 | The key loop builds the same object as assigning the normalized entries of the sorted keys in order. |
| ResultNormalizer.NormalizedRowNames | services/resultNormalizer.js:23-29 | The keys of a normalized row are exactly the normalized names of the row's keys. |
| ResultNormalizer.LaterKeyWins | services/resultNormalizer.js:23-29 | When several keys normalize to one name, the value kept is that of the key that sorts last. |
| ResultNormalizer.NormalizedRowIsNormal | services/resultNormalizer.js:20-31 | Every key of a normalized row is a normal name and every value is a normal value. |
| ResultNormalizer.AssignNormal | services/resultNormalizer.js:20-31 | A row that is already normal is rebuilt exactly as it was. |
| ResultNormalizer.NormalizedRowFixpoints | services/resultNormalizer.js:20-31 | A row is left unchanged exactly when it is normal. |
| ResultNormalizer.NormalizedRowIdempotent | services/resultNormalizer.js:20-31 | Normalizing a normalized row changes nothing. |
| ResultNormalizer.CompareFrom | services/resultNormalizer.js:76-87 | The comparator's loop returns -1, 0 or 1. |
| ResultNormalizer.RowCompare | services/resultNormalizer.js:70-88 | `rowComparator` returns -1, 0 or 1. |
| ResultNormalizer.CompareFromZero | services/resultNormalizer.js:76-87 | The loop returns 0 exactly when both rows agree at every key visited. |
| ResultNormalizer.RowCompareZero | services/resultNormalizer.js:70-88 | `rowComparator` returns 0 exactly when the rows agree at every column, a missing column reading as undefined. |
| ResultNormalizer.RowCompareZeroDefined | services/resultNormalizer.js:70-88 | On rows holding no undefined, `rowComparator` returns 0 exactly when the rows are equal. |
| ResultNormalizer.CompareFromFirst | services/resultNormalizer.js:76-87 | The first visited key whose values differ decides the loop's result. |
| ResultNormalizer.FirstDifferingColumn | services/resultNormalizer.js:70-88 | The first column, in sorted order, where the rows differ decides. A null there in `a` gives -1; a null only in `b` gives 1; otherwise -1 exactly when `a`'s value is `<` `b`'s. |
| ResultNormalizer.CompareFromAntisymmetric | services/resultNormalizer.js:76-87 | On comparable columns, swapping the rows negates the loop's result. |
| ResultNormalizer.RowCompareAntisymmetric | services/resultNormalizer.js:70-88 | On rows whose columns hold comparable values, `rowComparator(b, a) == -rowComparator(a, b)`. |
| ResultNormalizer.FirstDifference | services/resultNormalizer.js:70-88 | Rows that `rowComparator` does not call equal have a first column, in sorted order, where their values differ. |
| ResultNormalizer.RowCompareTransitive | services/resultNormalizer.js:70-88 | Under the modelled `<`, `rowComparator` is transitive on any rows: `a` before `b` and `b` before `c` puts `a` before `c`. |
| ResultNormalizer.RowCompareAsymmetric | services/resultNormalizer.js:70-88 | `rowComparator` never puts each of two rows before the other. |
| ResultNormalizer.RowComparePartialOrder | services/resultNormalizer.js:70-88 | On normal rows (names of `[a-z0-9_]`, normalized values, hence no undefined), `rowComparator(x, y) <= 0` is a partial order under the modelled `<`: rows each at most the other are equal, and it is transitive. |
| JsValues.JsLess | services/resultNormalizer.js:84 | `<` on two strings is the string order, on numbers and booleans it is numeric, and on anything else it is false. |
| JsValues.JsLessTransitive | services/resultNormalizer.js:84 | `<` on the modelled values is transitive. |
| ResultNormalizer.AllComparableAntisymmetric | services/resultNormalizer.js:35 | On pairwise comparable rows the comparator is antisymmetric, as the sort needs. |
| ResultNormalizer.NormalizedRows | services/resultNormalizer.js:19-32 | The `rows.map` step: each row normalized, in input order. |
| ResultNormalizer.Normalized | services/resultNormalizer.js:8-38 | What `normalizeResult` returns: `[]` for a non-array, otherwise the mapped rows sorted by `rowComparator`. |
| ResultNormalizer.MapRows | services/resultNormalizer.js:19-32 | The `rows.map` loop fills a fresh array with the normalized rows, in order. |
| ResultNormalizer.NormalizeResult | services/resultNormalizer.js:8-38 | `normalizeResult` returns `[]` for a non-array and for an empty array. Otherwise it returns the rows normalized one by one, then sorted by `rowComparator`. |
| ResultNormalizer.NormalizedCanonical | services/resultNormalizer.js:8-38 | The output depends only on which normalized rows there are, not on their order. Two inputs whose rows normalize to the same multiset give the same output, when those rows are pairwise comparable. |
| ResultNormalizer.NormalizedRowsAt | services/resultNormalizer.js:19-32 | Position `i` of the mapped rows is row `i` normalized. |
| ResultNormalizer.NormalizedShape | services/resultNormalizer.js:8-38 | A non-array gives no rows. An array gives exactly as many rows as it has, and they are a permutation of its rows normalized one by one. |
| ResultNormalizer.NormalizedSorted | services/resultNormalizer.js:35 | When the normalized rows are pairwise comparable, the output is in `rowComparator` order. |
| ResultNormalizer.NormalizedRowsNormal | services/resultNormalizer.js:19-32 | Every mapped row is already in normal form. |
| ResultNormalizer.NormalizedRowsOfNormal | services/resultNormalizer.js:19-32 | Mapping rows that are already normal changes nothing. |
| ResultNormalizer.NormalizeResultIdempotent | services/resultNormalizer.js:8-38 | When the normalized rows are pairwise comparable, normalizing the output again gives it back. |
| Sorting.Insert | services/resultNormalizer.js:35 | One step of the insertion sort: `x` moves left past every element it compares as less than, giving one element more. |
| Sorting.SortBy | services/resultNormalizer.js:35 | The sort: each element in turn inserted into the sorted prefix before it, keeping the length. |
| Sorting.InsertPermutes | services/resultNormalizer.js:35 | Inserting an element adds it and keeps every other element. |
| Sorting.SortByPermutes | services/resultNormalizer.js:35 | The sort is a permutation of its input. |
| Sorting.InsertSorted | services/resultNormalizer.js:35 | Inserting into a sorted sequence keeps it sorted, when the comparator is antisymmetric on the elements. |
| Sorting.SortBySorted | services/resultNormalizer.js:35 | The sort's output is sorted when the comparator is antisymmetric on the input. |
| Sorting.SortByOfSorted | services/resultNormalizer.js:35 | Sorting a sequence already in order leaves it as it is. |
| Sorting.SortedUnique | services/resultNormalizer.js:35 | Under a partial order (antisymmetric and transitive), two sorted sequences with the same elements are equal. |
| Sorting.SortInPlace | services/resultNormalizer.js:35 | The in-place array sort leaves the array holding the insertion sort of its old contents. |
| Sorting.InsertAt | services/resultNormalizer.js:35 | One pass moves `a[i]` left past every element it compares as less than, leaving the rest of the array alone. |
| Sorting.ShiftGreater | services/resultNormalizer.js:35 | The loop of that pass: the elements of the sorted prefix that `x` compares as less than move one place right, and the gap left is where `Insert` puts `x`. |
| JsStrings.StrLt | services/resultNormalizer.js:74 | The default string order of `sort()`: character by character by code point, with a proper prefix first. |
| JsStrings.SortedKeys | services/resultNormalizer.js:23 | `Object.keys(row).sort()` lists every key exactly once, in strictly increasing code-point order. |
| JsStrings.StrLtTrichotomy | services/resultNormalizer.js:74 | The string order of `sort()` and `<` is total and irreflexive. |
| JsStrings.StrLtTransitive | services/resultNormalizer.js:74 | The string order is transitive. |
| JsValues.JsLessAsymmetric | services/resultNormalizer.js:84 | `<` never holds both ways. |
| JsValues.JsLessTotal | services/resultNormalizer.js:84 | On two distinct non-null values of one kind, `<` holds one way. |
| ResultComparator.NormalizeExpected | services/resultComparator.js:50-67 | `normalizeExpected`: a falsy value gives `[]`; text is parsed first; a non-array fails; an array is normalized. |
| ResultComparator.ValueEqual | services/resultComparator.js:86-97 | `valueEqual`: strict equality, null only with null, and numbers within `1e-6`. |
| ResultComparator.DeepEqual | services/resultComparator.js:72-84 | `deepEqual`: the same number of keys, and every key of `a` in `b` with a `valueEqual` value. |
| ResultComparator.RowsEqualFrom | services/resultComparator.js:24-36 | The row loop from position `i` on: no position whose rows are not `deepEqual`. |
| ResultComparator.Judge | services/resultComparator.js:13-40 | The count check, then the row loop, on the two normalized sides. |
| ResultComparator.CompareResults | services/resultComparator.js:8-41 | `compareResults`: normalize both sides, then judge, or fail with `normalizeExpected`'s error. |
| ResultComparator.ExpectArray | services/resultComparator.js:62-66 | A non-array throws "Expected output must be an array"; an array is normalized. |
| ResultComparator.FalsyExpectedEmpty | services/resultComparator.js:51 | A falsy expected value, the empty string among them, gives an empty result set. |
| ResultComparator.ExpectedTextErrors | services/resultComparator.js:54-64 | Text that does not parse throws "Expected output must be valid JSON". Text that parses to a non-array throws the array error. Text that parses to an array is normalized. |
| ResultComparator.NormalizeExpectedOutcomes | services/resultComparator.js:50-67 | `normalizeExpected` fails only with one of its two messages, and exactly for unparsable text or a non-array. |
| ResultComparator.ValueEqualMeaning | services/resultComparator.js:86-97 | Null equals only null. Two numbers are equal exactly when they differ by less than 1e-6. Any other pair needs strict equality. |
| ResultComparator.ValueEqualSymmetric | services/resultComparator.js:86-97 | `valueEqual` is symmetric. |
| ResultComparator.DeepEqualMeaning | services/resultComparator.js:72-84 | `deepEqual` holds exactly when both rows have the same key set and `valueEqual` values at every key. |
| ResultComparator.DeepEqualSymmetric | services/resultComparator.js:72-84 | `deepEqual` is symmetric. |
| ResultComparator.DeepEqualReflexive | services/resultComparator.js:72-84 | Every row is `deepEqual` to itself. |
| ResultComparator.RowsEqualFromMeaning | services/resultComparator.js:24-36 | The row loop finds no mismatch exactly when every position is `deepEqual`. |
| ResultComparator.CountMismatchFails | services/resultComparator.js:13-21 | Different normalized row counts fail with "Row count mismatch", carrying both normalized sides. |
| ResultComparator.DataMismatchFails | services/resultComparator.js:24-36 | With equal counts, a position whose rows are not `deepEqual` fails with "Row data mismatch", carrying both sides. |
| ResultComparator.PassedMeaning | services/resultComparator.js:8-41 | The comparison passes exactly when the expected side normalizes, the counts agree, and every position is `deepEqual`. |
| ResultComparator.NonArrayActualEmpty | services/resultComparator.js:10 | A non-array actual output, such as a failed run's `null`, counts as no rows. |
| ResultComparator.FalsyExpectedMatchesEmpty | services/resultComparator.js:8-51 | A falsy expected output passes exactly against actual outputs that normalize to no rows. |
| ResultComparator.SelfComparePasses | services/resultComparator.js:8-41 | Any rows compared with themselves pass, given directly or as JSON text that parses to them. |
| ExecutionEngine.DbPath | engine/SqliteExecutionEngine.js:31-36 | The database file is `question_<id>_<uuid>.db` in the `tmp` directory under the working directory: the path starts with `<cwd>/tmp/question_` and ends in `.db`. |
| ExecutionEngine.DbPathDistinct | engine/SqliteExecutionEngine.js:31-36 | For one directory and one question, UUIDs of equal length name the same file exactly when they are equal, so each `init` with a new UUID gets its own file. |
| ExecutionEngine.IsQueryCaseInsensitive | engine/SqliteExecutionEngine.js:68-70 | Whether a statement is read as a query does not depend on letter case. |
| ExecutionEngine.IsQueryIgnoresPadding | engine/SqliteExecutionEngine.js:68-70 | Whether a statement is read as a query does not depend on surrounding whitespace. |
| ExecutionEngine.IsQuery | engine/SqliteExecutionEngine.js:68-70 | A statement is a query when, trimmed and lower-cased, it starts with `select` or `with`. |
| ExecutionEngine.KeywordLeads | engine/SqliteExecutionEngine.js:68-70 | After leading whitespace, a word that lower-cases to a keyword is what the trimmed, lower-cased statement starts with. |
| ExecutionEngine.KeywordIsQuery | engine/SqliteExecutionEngine.js:68-70 | Any statement that, after leading whitespace, starts with `select` or `with` in any letter case is read as a query, whatever follows. |
| ExecutionEngine.OtherLeadIsNotQuery | engine/SqliteExecutionEngine.js:68-70 | A statement whose first non-space character is neither `s` nor `w`, in any case, is executed, not read. |
| ExecutionEngine.Step | engine/SqliteExecutionEngine.js:67-77 | One statement: a query is read with `all` and its rows become the last rows; anything else is run with `exec`; a failure stops the run. |
| ExecutionEngine.RunStatements | engine/SqliteExecutionEngine.js:66-90 | The statements run in order up to the first failure, carrying the database state and the last query's rows. |
| ExecutionEngine.RunAppend | engine/SqliteExecutionEngine.js:67-77 | Running `a + b` runs `a`, then, unless `a` stopped, runs `b` from the state and last rows `a` ended with. |
| ExecutionEngine.FailureStopsRun | engine/SqliteExecutionEngine.js:66-90 | Once a statement fails, the statements after it do not run. |
| ExecutionEngine.RunWithoutQueries | engine/SqliteExecutionEngine.js:72-76 | Statements none of which is a query leave the last query's rows as they were. |
| ExecutionEngine.RunEndingInQuery | engine/SqliteExecutionEngine.js:72-83 | When the final statement is a query that succeeds, its rows are the output. |
| ExecutionEngine.ResultOf | engine/SqliteExecutionEngine.js:79-90 | On success the result is `success:true`, `error:null`, and the last query's rows or `[]`. On failure it is `success:false`, `output:null`, and the error message. |
| ExecutionEngine.SqliteExecutionEngine.constructor | engine/SqliteExecutionEngine.js:9-17 | A new engine is inactive, with no database, no path and no last result. |
| ExecutionEngine.SqliteExecutionEngine.Init | engine/SqliteExecutionEngine.js:26-53 | On an active engine, `init` throws "Engine already initialized" and changes nothing. Otherwise it sets the path and opens the database, runs the pragmas and the seed, and becomes active exactly when both succeed. |
| ExecutionEngine.SqliteExecutionEngine.Execute | engine/SqliteExecutionEngine.js:59-91 | On an inactive engine, `execute` throws "Engine not initialized or already destroyed" and changes nothing. Otherwise it runs the statements in order up to the first failure. The database keeps the effects of every statement that ran, `lastSelectResult` holds the last query's rows, and the result is built from the run. |
| ExecutionEngine.SqliteExecutionEngine.Destroy | engine/SqliteExecutionEngine.js:98-115 | Without a database, `destroy` changes nothing, so it is idempotent. Otherwise it ends with no database, no path, no file and the engine inactive. |
| ExecutionEngine.InitState | engine/SqliteExecutionEngine.js:38-50 | The database state after `init`: a fresh file, then the pragmas, then the seed when there is one, up to the first failure. |
| ExecutionEngine.InitOutcome | engine/SqliteExecutionEngine.js:38-52 | How `init` ends: the pragmas' error, the seed's error, or success when both run (an empty seed is skipped). |
| ExecutionEngine.DestroyThenInit | engine/SqliteExecutionEngine.js:26-53 | After `destroy`, `init` opens a new database and succeeds or fails as a fresh `init` does. |
| EngineRegistry.Lookup | services/engineRegistry.js:3-5 | `get` finds the stored engine exactly when the key is present. |
| EngineRegistry.SetMeaning | services/engineRegistry.js:7-9 | `set` stores the engine under its key and leaves every other key's entry unchanged. |
| EngineRegistry.RemoveMeaning | services/engineRegistry.js:11-13 | `delete` leaves the key absent, changes no other key, and on an absent key changes nothing. |
| EngineRegistry.Apply | services/engineRegistry.js:7-13 | One `setEngine` or `removeEngine` on the map. |
| EngineRegistry.Replay | services/engineRegistry.js:1-13 | A sequence of changes applied in order to the map. |
| EngineRegistry.LastWrite | services/engineRegistry.js:1-13 | The engine most recently set under a key, or nothing if it was removed since. |
| EngineRegistry.ReplayLastWrite | services/engineRegistry.js:1-13 | After any sequence of sets and removes, `get` gives the engine most recently set under the key, or nothing if it was removed since. |
| EngineRegistry.SetOverwrites | services/engineRegistry.js:7-9 | Setting a key twice leaves the same registry as setting only the second engine: the first is dropped, and nothing destroys it. |
| EngineRegistry.Registry.GetEngine | services/engineRegistry.js:3-5 | `getEngine` returns the stored engine or nothing. |
| EngineRegistry.Registry.SetEngine | services/engineRegistry.js:7-9 | `setEngine` overwrites the key's entry and changes nothing else. It does not destroy the engine it replaces. |
| EngineRegistry.Registry.RemoveEngine | services/engineRegistry.js:11-13 | `removeEngine` drops the key and changes nothing else. |

## Left out

- Characters are Unicode scalar values. The string order of `sort()` and `<`
  compares them as code points, whereas JavaScript compares UTF-16 code
  units. The two orders differ only above U+FFFF.
- StripCommentsFully: like the code, it deletes comments without leaving a
  separator, so `WITH/**/RECURSIVE` becomes the one word `WITHRECURSIVE`.
  The returned statements are cut from the stripped text, so the denylist
  and SQLite both receive that one word and no pattern is bypassed
  (CommentJoinsWords, JoinedAccepted). The corrected stripper changes only
  how the comments that a single pass leaves behind are handled.
- `toLowerCase` is modelled on the ASCII letters only. Other letters keep
  their case.
- Numbers are exact reals. NaN, the infinities and -0 are not represented.
  `Number(x.toFixed(6))` is modelled as rounding half away from zero on the
  exact value, which is not the binary value JavaScript rounds. The `1e-6`
  tolerance is the exact real 10^-6.
- `<` is modelled on two strings, and on numbers and booleans. Strings
  against numbers, objects, and undefined are never less than anything.
  Objects, arrays and buffers are one `Ref` kind, compared by identity.
  JavaScript converts a string compared with a number to a number, and
  that makes `rowComparator` cyclic on a mixed column: for rows with
  `c` equal to `"10"`, `"9"` and `10`, the first sorts before the second,
  the second before the third, and the third before the first. So
  RowCompareTransitive and RowComparePartialOrder hold only for the
  modelled `<`.
- ResultNormalizer.RowCompare: a column missing from one row is read as
  `undefined`. In the code, `a[key]` also finds inherited properties, and
  after normalization `constructor` is such a name: the code reads
  Object's constructor function there, which `<` compares as its source
  text, so it can order two rows differently from the model.
- ResultNormalizer.NormalizedSorted: proved only when every two normalized
  rows are comparable, column by column. On mixed-type columns,
  `rowComparator` is not antisymmetric and no order is promised.
- ResultNormalizer.NormalizedCanonical: proved under the same
  comparability condition. It needs the output to be sorted.
- ResultNormalizer.NormalizeResultIdempotent: proved under the same
  comparability condition, for the same reason.
- The engine's V8 sort is a binary insertion sort plus TimSort. The model
  sorts by linear insertion, moving an element left while it compares as
  less. The two agree whenever the comparator is consistent, and may differ
  on inconsistent comparators. Stability of the sort is not stated.
- Array elements are all row objects. Non-object elements and a column
  named `__proto__`, which assignment treats specially, are not modelled.
  `key in b` also finds inherited keys such as `constructor`; such a key
  never has a `valueEqual` value in a row, so `deepEqual` is unaffected.
- `JSON.parse` is a parameter, and its grammar (RFC 8259) is not modelled.
- The SQLite semantics of `exec` and `all` are not modelled. A failing call
  leaves the database state unchanged, so partial effects of a failing
  multi-statement seed script are not modelled either.
- Opening the database file (`new Database`) is taken to succeed.
- File system effects are one "file exists" flag. These are not modelled:
  `mkdirSync`, the WAL and SHM files, a file leaked when `init` runs again
  over a failed `init`, and path normalisation by `path.join`.
- `crypto.randomUUID` and `process.cwd()` are parameters of `init`.
- `async`, the promise each method returns, and concurrent use of the
  registry are not modelled; every call runs to completion alone.
- `normalizeSql` (services/sqlValidationService.js:22-24) is never called,
  and is not modelled.
- The `SqlValidationError` class is reduced to its message.

## Findings

| source | as written | input that shows it | evidently intended | confidence | as-written member | corrected member |
|---|---|---|---|---|---|---|
| services/sqlValidationService.js:13-17 | One pass of the `--` replace and one pass of the block-comment replace. Removing a comment can join the characters around it into a new comment opener, which the single pass never revisits. | `WITH //**/* */RECURSIVE`: removing the empty comment after the first `/` leaves `WITH /* */RECURSIVE`. SQLite ignores the comment and reads `WITH RECURSIVE`. The denylist sees `with /* */recursive`, which has no word-bounded `with recursive`. So the text is accepted, although the recursive-CTE pattern is meant to block it. | Strip until no comment is left, so that the denylist sees the text without comments. | high, not executed | SqlValidation.SmuggledAccepted | SqlValidation.SmuggledCaught |
