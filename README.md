# Transfer grid: import parser, public-key classifier and row editing

This project models the logic of a small web front end for bank transfers. An operator loads
transfer records from a pipe-delimited text file, edits them in a grid, and attaches a public key.
Three parts are modelled, and properties of each are proved:

- **The import parser** (`parseRows`), in `data_import.dfy`, module `DataImport`. It trims the
  file text and splits it into lines. It drops blank lines and skips the header line. It splits
  each data line on `|` and rejects a line with fewer than 11 columns. It builds one record per
  line, with:
  - an id `"<clock>-<index>"`;
  - trimmed text fields;
  - amounts from `parseFloat(...) || 0`;
  - the currency normalised to one of `MXN`, `USD`, `EUR`, `CAD`, case-insensitively, with
    `MXP` taken as `MXN`;
  - the type falling back to `Transferencia`.

  `ParseRows` keeps the source's imperative form: an indexed loop with an early exit. It is
  proved equal to the recursive specification `ParseLines`, and lemmas about `ParseLines` give
  the meaning of the result:
  - exactly when it succeeds or fails, and with which error;
  - the count, order and contents of the rows;
  - distinct ids and closed currency and type codes.
- **The public-key classifier** (`validateKey`), in `public_key_uploader.dfy`, module
  `PublicKeyUploader`. Its two regular expressions are written as "a match exists at these
  positions". The lemmas prove:
  - the verdict depends only on the trimmed text;
  - a private-key or certificate marker always wins;
  - PEM blocks and OpenSSH key lines are accepted;
  - blank texts, and one-line keys of an unknown algorithm, are rejected.
- **The grid's row list** (`addRow`, `deleteRow`, `updateRow`, `handleImportRows`), in
  `editable_table.dfy`, module `EditableTable`. A `Table` class holds the `rows` state, and each
  handler assigns a new list computed by a pure function (`Without`, `UpdateWhere`,
  concatenation). Lemmas prove that only the intended rows and fields change, plus idempotence,
  order and the preservation of known codes.

Shared pieces:
- `wrappers.dfy` holds `Option` and `Result`.
- `text.dfy` holds the string operations of JavaScript the source relies on: `trim`, `split`,
  `toUpperCase`, substring search, and decimal rendering of a number.
- `transactions.dfy` holds the record type and field access by name.

The wall clock (`Date.now()`) and `parseFloat` are parameters of the model:
- `clock: nat -> nat` gives, for data line `i`, what `Date.now()` reads while the import loop
  handles that line. Each row reads the clock anew, so the rows of one import may carry different
  readings in their ids.
- `addRow` reads the clock once; there it is the parameter `now: nat`.
- `parseFloat: string -> Option<real>` returns `None` where JavaScript yields `NaN`.

Behaviours of the code a reader may not expect; the model follows the code:

- **Error line numbers.** The number in "line N is malformed" is the position of the line among
  the *non-blank* lines, plus one. It is not the position in the original file
  (src/components/DataImport.tsx:17, 24). `ParseLinesFirstMalformed` states the number the code
  reports.
- **PEM markers.** The PEM begin and end markers may carry different prefixes (`RSA ` or `EC `).
  The match is not anchored; it may start anywhere in the text
  (src/components/PublicKeyUploader.tsx:18). `PemBlockAccepted` takes the two markers as
  independent parameters.
- **SSH key lines.** The gap `\s+` between the algorithm and the key may contain line breaks, so
  an SSH "line" may span lines (src/components/PublicKeyUploader.tsx:19). `SshMatchAt` allows
  this.
- **Finite amounts.** Amounts are not guaranteed to be finite: `parseFloat("Infinity")` is kept.
  The model's `parseFloat` returns reals, so this case is not represented.

## Model

| member | source | states |
|---|---|---|
| Text.Trim | src/components/PublicKeyUploader.tsx:16 | `String.prototype.trim` on ASCII whitespace (defined; TrimSpan, TrimEnds and TrimIdempotent state its properties) |
| Text.TrimSpan | src/components/DataImport.tsx:17 | `trim` removes only leading and trailing whitespace and keeps one contiguous slice; the slice starts and ends with non-blanks when non-empty |
| Text.TrimEnds | src/components/DataImport.tsx:21 | a trimmed text is empty or neither starts nor ends with whitespace |
| Text.TrimUnchanged | src/components/DataImport.tsx:21 | a text without blank ends is left alone by `trim` |
| Text.TrimIdempotent | src/components/DataImport.tsx:21 | trimming twice is trimming once |
| Text.TrimEmptyIff | src/components/DataImport.tsx:17 | `l.trim().length > 0` fails exactly for all-whitespace lines |
| Text.Split | src/components/DataImport.tsx:23 | `split` yields at least one piece and no piece contains the separator |
| Text.JoinSplit | src/components/DataImport.tsx:23 | joining the pieces of `split` with the separator gives back the text |
| Text.SplitJoin | src/components/DataImport.tsx:23 | splitting pieces joined by a separator they do not contain gives back the pieces |
| Text.ToUpper | src/components/DataImport.tsx:26 | upper-casing keeps the length |
| Text.ToUpperNoLower | src/components/DataImport.tsx:26 | upper-casing leaves a text without lower-case letters unchanged |
| Text.ToUpperIdempotent | src/components/DataImport.tsx:26 | upper-casing twice is upper-casing once |
| Text.ContainsTrim | src/components/PublicKeyUploader.tsx:16-17 | a marker without blank ends occurs in the trimmed text exactly when it occurs in the text |
| Text.NatToString | src/components/DataImport.tsx:34 | the decimal rendering of a number is non-empty, all digits, and one digit exactly below 10 |
| Text.NatToStringInjective | src/components/DataImport.tsx:34 | different numbers render differently |
| Transactions.OrZero | src/components/DataImport.tsx:36 | `parseFloat(x) \|\| 0`: a failed parse gives 0, a number is kept |
| Transactions.Get | src/types/transactions.ts:1-14 | `row[field]` is a number for `importe` and `iva` and text for the other ten fields |
| Transactions.Set | src/components/EditableTable.tsx:64 | `{ ...row, [field]: value }` gives the named field the value and keeps every other field |
| Transactions.RowsEqualByFields | src/types/transactions.ts:1-14 | a record is determined by its twelve fields |
| DataImport.SplitLines | src/components/DataImport.tsx:17 | splitting on `\r?\n` gives at least one line, and no line holds a `\n` |
| DataImport.JoinSplitLines | src/components/DataImport.tsx:17 | joining the lines with the text's own line breaks (`\n` or `\r\n`) gives back the text |
| DataImport.SplitJoinLines | src/components/DataImport.tsx:17 | splitting lines joined by `\n` or `\r\n` gives back the lines, when no line holds a `\n` and none before a bare `\n` ends with `\r` |
| DataImport.NonBlank | src/components/DataImport.tsx:17 | the filter keeps exactly the non-blank lines, and nothing it keeps is blank |
| DataImport.NonBlankAppend | src/components/DataImport.tsx:17 | filtering a concatenation filters each part and keeps them in order |
| DataImport.NonBlankSingle | src/components/DataImport.tsx:17 | a single line is kept exactly when it is not blank |
| DataImport.NonBlankUnchanged | src/components/DataImport.tsx:17 | a list without blank lines passes the filter unchanged |
| DataImport.Lines | src/components/DataImport.tsx:17 | the lines the parser works on are the trimmed text split at line breaks, blank lines dropped: none is blank and none holds a `\n` |
| DataImport.Columns | src/components/DataImport.tsx:21-23 | the columns of a line are the pieces of the trimmed line between `\|` characters: at least one, none holding a `\|`, and joined by `\|` they give back the trimmed line |
| DataImport.NormalizeDivisa | src/components/DataImport.tsx:25-30 | the normalised currency is always one of `MXN`, `USD`, `EUR`, `CAD` |
| DataImport.NormalizeDivisaMeaning | src/components/DataImport.tsx:25-30 | a code in any case gives that code, `MXP` in any case gives `MXN`, anything else gives `MXN` |
| DataImport.NormalizeDivisaIdempotent | src/components/DataImport.tsx:25-30 | normalising a normalised currency changes nothing |
| DataImport.NormalizeDivisaFallbackExamples | src/components/DataImport.tsx:25-30 | `mxp`, `MXP`, `xyz` and the empty value give `MXN` |
| DataImport.NormalizeDivisaCodeExamples | src/components/DataImport.tsx:25-30 | `usd`, `EUR`, `cad` give `USD`, `EUR`, `CAD` |
| DataImport.NormalizeTipo | src/components/DataImport.tsx:31-45 | the type is always one of the four; an exact match of the trimmed column is kept, anything else becomes `Transferencia` |
| DataImport.RowId | src/components/DataImport.tsx:34 | the id is the clock reading in decimal, a `-`, and the line index in decimal (defined; RowIdInjective states its property) |
| DataImport.RowIdInjective | src/components/DataImport.tsx:34 | the id `"<clock>-<index>"` determines both the clock reading and the index |
| DataImport.ColumnTable | src/components/DataImport.tsx:23 | one column list per line |
| DataImport.MakeRow | src/components/DataImport.tsx:31-46 | the record of data line `i` always has a known currency and type; its body maps columns 0-10 in order, with id `"<clock(i)>-<i>"` (ParseLinesFields and MakeRowLeadingColumns state the field mapping) |
| DataImport.ParseFrom | src/components/DataImport.tsx:20-47 | the loop from line `i` on: one row per remaining line on success, else the malformed-line error with a number between `i + 1` and the line count |
| DataImport.ParseLines | src/components/DataImport.tsx:18-47 | the result of the parser on its non-blank lines: `\|lines\| - 1` rows on success, and a malformed-line number between 2 and the line count on failure |
| DataImport.ParseRows | src/components/DataImport.tsx:16-49 | the loop, with its blank-line skip and early exit, returns exactly `ParseLines` of the non-blank lines |
| DataImport.ParseFromSuccess | src/components/DataImport.tsx:20-47 | the loop from line `i` succeeds iff every later line has 11 columns, and then yields one row per line, in order |
| DataImport.ParseFromFailure | src/components/DataImport.tsx:24 | a failure names the first line, from `i` on, with fewer than 11 columns |
| DataImport.ColumnTableLengths | src/components/DataImport.tsx:24 | a line's column count reaches 11 exactly when the line has all columns |
| DataImport.ParseLinesSuccess | src/components/DataImport.tsx:16-49 | parsing succeeds iff there are two or more lines and every data line has 11 columns; then there are `\|lines\| - 1` rows, row `k` built from line `k + 1` |
| DataImport.ParseLinesNoData | src/components/DataImport.tsx:18 | the no-data error occurs exactly when fewer than two non-blank lines remain |
| DataImport.ParseLinesFirstMalformed | src/components/DataImport.tsx:24 | the malformed-line error carries `m + 1` exactly when data line `m` is the first with fewer than 11 columns |
| DataImport.FirstMalformedUnique | src/components/DataImport.tsx:24 | there is at most one first malformed line |
| DataImport.ParseFromOutcome | src/components/DataImport.tsx:24 | whether the loop fails, and how, does not depend on how rows are built |
| DataImport.ParseFromAgree | src/components/DataImport.tsx:20-47 | two column tables with the same long lines and the same rows built give the same result |
| DataImport.MakeRowLeadingColumns | src/components/DataImport.tsx:33-46 | a row depends only on the first 11 columns of its line |
| DataImport.ParseLinesIgnoresHeaderAndExtraColumns | src/components/DataImport.tsx:20-46 | the header line and columns past the eleventh do not affect the result |
| DataImport.ParseLinesOutcomeIgnoresNumbers | src/components/DataImport.tsx:36-43 | success or failure, and the error, do not depend on how numbers parse |
| DataImport.DistinctLinesDistinctIds | src/components/DataImport.tsx:34 | rows built from different line indexes get different ids |
| DataImport.ParseLinesIdsDistinct | src/components/DataImport.tsx:34 | the ids of one import are pairwise distinct |
| DataImport.ParseLinesKnownCodes | src/components/DataImport.tsx:39-45 | every imported row has a known currency and a known type |
| DataImport.ParseLinesFields | src/components/DataImport.tsx:33-46 | row `k` has id `"<clock>-<k+1>"`, the trimmed text columns in order, and 0 for an amount that does not parse |
| PublicKeyUploader.HasRejectionMarker | src/components/PublicKeyUploader.tsx:17 | `/PRIVATE KEY/` and `/BEGIN CERTIFICATE/`: a literal, case-sensitive occurrence anywhere (defined; RejectionMarkerInTrim and RejectionMarkerWins state its properties) |
| PublicKeyUploader.PemMatchAt | src/components/PublicKeyUploader.tsx:18 | the PEM regular expression matches `s[i..l]`: a begin marker, at least one character of any kind, an end marker, prefixes chosen independently (defined; PemMatchHasTail and PemBlockAccepted state its properties) |
| PublicKeyUploader.PemPattern | src/components/PublicKeyUploader.tsx:18 | `pemRegex.test`: some PEM match exists, unanchored (defined; PemInTrim and PemNeedsPublicKeyTail state its properties) |
| PublicKeyUploader.CommentAt | src/components/PublicKeyUploader.tsx:19 | the optional `\s+.+`: blanks, then a non-empty comment without line terminators reaching the end of a line (defined; KeyLineTailInTrim states its property) |
| PublicKeyUploader.KeyLineTail | src/components/PublicKeyUploader.tsx:19 | what may follow the key before `$`: the end of a line, or a comment (defined; KeyLineTailInTrim states its property) |
| PublicKeyUploader.SshMatchAt | src/components/PublicKeyUploader.tsx:19 | the SSH regular expression in multi-line mode matches from a line start: algorithm, `\s+`, base64 key, optional comment, line end (defined; SshMatchOfPieces and SshSingleLineStartsWithAlgorithm state its properties) |
| PublicKeyUploader.SshPattern | src/components/PublicKeyUploader.tsx:19 | `sshRegex.test`: some SSH match exists (defined; SshSurvivesTrim and SshKeyLineMatches state its properties) |
| PublicKeyUploader.ValidateKey | src/components/PublicKeyUploader.tsx:15-21 | an accepted text has no rejection marker and holds a PEM block or an SSH key line once trimmed |
| PublicKeyUploader.RejectionMarkerInTrim | src/components/PublicKeyUploader.tsx:16-17 | trimming neither adds nor removes a rejection marker |
| PublicKeyUploader.PemFromTrim | src/components/PublicKeyUploader.tsx:16-18 | a PEM block in the trimmed text is a PEM block of the text |
| PublicKeyUploader.PemIntoTrim | src/components/PublicKeyUploader.tsx:16-18 | a PEM block of the text survives trimming |
| PublicKeyUploader.PemInTrim | src/components/PublicKeyUploader.tsx:16-18 | a PEM block is found in the trimmed text exactly when it is found in the text |
| PublicKeyUploader.KeyLineTailInTrim | src/components/PublicKeyUploader.tsx:19 | the end of an SSH key line, with or without comment, still matches after trailing blanks are cut |
| PublicKeyUploader.SshMatchInSpan | src/components/PublicKeyUploader.tsx:19 | an SSH match inside the trimmed span is a match of the trimmed text |
| PublicKeyUploader.SshSurvivesTrim | src/components/PublicKeyUploader.tsx:16-19 | an SSH key line of the text is an SSH key line of the trimmed text |
| PublicKeyUploader.ValidateKeyDependsOnTrim | src/components/PublicKeyUploader.tsx:16 | `validateKey(trim(s)) == validateKey(s)` |
| PublicKeyUploader.ValidateKeyMeaning | src/components/PublicKeyUploader.tsx:15-21 | accepted iff no rejection marker anywhere and a PEM block anywhere or an SSH key line in the trimmed text |
| PublicKeyUploader.RejectionMarkerWins | src/components/PublicKeyUploader.tsx:17 | `PRIVATE KEY` or `BEGIN CERTIFICATE` anywhere rejects the text, whatever else it holds |
| PublicKeyUploader.PatternAccepted | src/components/PublicKeyUploader.tsx:17-20 | without a marker, a PEM block or an SSH key line anywhere is accepted |
| PublicKeyUploader.PemBlockAccepted | src/components/PublicKeyUploader.tsx:18 | any begin marker, non-empty content and any end marker, chosen independently, are accepted in a marker-free text |
| PublicKeyUploader.SshMatchOfPieces | src/components/PublicKeyUploader.tsx:19 | algorithm, blanks, key and optional comment at consecutive positions of a line make an SSH match |
| PublicKeyUploader.SshKeyLineMatches | src/components/PublicKeyUploader.tsx:19 | an OpenSSH key line on a line of its own matches the SSH pattern |
| PublicKeyUploader.SshKeyLineAccepted | src/components/PublicKeyUploader.tsx:19-20 | an OpenSSH key line with or without comment on its own line is accepted in a marker-free text |
| PublicKeyUploader.Ed25519KeyAccepted | src/components/PublicKeyUploader.tsx:19-20 | `ssh-ed25519 AAAA` is accepted |
| PublicKeyUploader.Ed25519KeyWithCommentAccepted | src/components/PublicKeyUploader.tsx:19-20 | `ssh-ed25519 AAAA me` is accepted |
| PublicKeyUploader.BlankRejected | src/components/PublicKeyUploader.tsx:16-20 | an empty or all-blank text is rejected |
| PublicKeyUploader.BeginMarkerTail | src/components/PublicKeyUploader.tsx:18 | every begin marker ends with `PUBLIC KEY-----` |
| PublicKeyUploader.PemMatchHasTail | src/components/PublicKeyUploader.tsx:18 | a PEM match holds `PUBLIC KEY-----` at the end of its begin marker |
| PublicKeyUploader.PemNeedsPublicKeyTail | src/components/PublicKeyUploader.tsx:18 | no PEM block without the text `PUBLIC KEY-----` |
| PublicKeyUploader.SshSingleLineStartsWithAlgorithm | src/components/PublicKeyUploader.tsx:19 | in a one-line text an SSH key line must start at the beginning with a known algorithm |
| PublicKeyUploader.NoLineTerminatorInTrim | src/components/PublicKeyUploader.tsx:16 | trimming a one-line text keeps it one line |
| PublicKeyUploader.UnknownKeyRejected | src/components/PublicKeyUploader.tsx:18-20 | a one-line text with no PEM marker and no known algorithm at its start is rejected |
| PublicKeyUploader.DsaKeyRejected | src/components/PublicKeyUploader.tsx:19-20 | `ssh-dss AAAA` is rejected |
| EditableTable.InitialRow | src/components/EditableTable.tsx:19-34 | the starting row has id `1`, known codes, amount 5000 and VAT 0 |
| EditableTable.BlankRow | src/components/EditableTable.tsx:37-50 | a new row has the given id, empty text, zero amounts, `MXN` and `Transferencia` |
| EditableTable.Without | src/components/EditableTable.tsx:55 | deleting keeps exactly the rows whose id differs, never lengthening the list |
| EditableTable.WithoutAppend | src/components/EditableTable.tsx:55 | deleting from a concatenation deletes from each part, in order |
| EditableTable.WithoutSingle | src/components/EditableTable.tsx:55 | a single row is dropped exactly when it carries the id |
| EditableTable.WithoutAbsent | src/components/EditableTable.tsx:55 | deleting an absent id leaves the list unchanged |
| EditableTable.WithoutIdempotent | src/components/EditableTable.tsx:55 | deleting the same id twice is deleting it once |
| EditableTable.WithoutCommutes | src/components/EditableTable.tsx:55 | deleting two ids gives the same list in either order |
| EditableTable.UpdateWhere | src/components/EditableTable.tsx:62-66 | the update keeps the length, leaves rows with another id alone and gives matching rows the value |
| EditableTable.UpdateWhereCells | src/components/EditableTable.tsx:62-66 | only field `f` of the matching rows changes; every other cell keeps its value |
| EditableTable.UpdateWhereAbsent | src/components/EditableTable.tsx:62-66 | updating an absent id leaves the list unchanged |
| EditableTable.UpdateWhereIdempotent | src/components/EditableTable.tsx:62-66 | writing the same value twice is writing it once |
| EditableTable.UpdateWhereKeepsIds | src/components/EditableTable.tsx:62-66 | updating a field other than the id keeps every id |
| EditableTable.WithoutKeepsKnownCodes | src/components/EditableTable.tsx:55 | deleting keeps the remaining rows' codes known |
| EditableTable.UpdateWhereKeepsKnownCodes | src/components/EditableTable.tsx:179-190 | an update with a value the drop-downs offer keeps every row's codes known |
| EditableTable.UpdateWhereAcceptsUnknownCurrency | src/components/EditableTable.tsx:62-66 | `updateRow` itself does not check codes: an unknown currency is stored |
| EditableTable.Table.constructor | src/components/EditableTable.tsx:19-34 | the grid starts with the one sample row |
| EditableTable.Table.AddRow | src/components/EditableTable.tsx:36-52 | the list becomes the old list plus one blank row with the clock reading as id |
| EditableTable.Table.DeleteRow | src/components/EditableTable.tsx:54-55 | the list becomes `Without(old list, id)` |
| EditableTable.Table.UpdateRow | src/components/EditableTable.tsx:62-66 | the list becomes `UpdateWhere(old list, id, field, value)` |
| EditableTable.Table.EditAmount | src/components/EditableTable.tsx:156 | the amount and VAT editors (also line 220) store the parsed number, 0 for the matching rows when the input does not parse |
| EditableTable.Table.HandleImportRows | src/components/EditableTable.tsx:82-83 | the imported list replaces the whole list |
| EditableTable.Table.ImportText | src/components/DataImport.tsx:55-61 | a successful parse replaces the list and reports the row count; a failed one leaves the list as it was and reports the error |
| EditableTable.AddRowKeepsKnownCodes | src/components/EditableTable.tsx:36-51 | appending a blank row keeps the codes known |
| EditableTable.ImportedRowsHaveKnownCodes | src/components/EditableTable.tsx:82-83 | the list right after a successful import has known codes |

## Left out

- File reading, drag and drop, and the upload handlers are left out. They are asynchronous I/O
  and DOM events (src/components/DataImport.tsx:51-68, src/components/PublicKeyUploader.tsx:23-40).
  Only the parse-then-replace step of the import handler is modelled, in `Table.ImportText`.
- Rendering, the `isDragging`, `fileName` and `keyName` display state, and every notification
  (`toast`) are left out. Their message texts are also left out; errors are the `ImportError`
  values `NoData` and `MalformedLine(n)`.
- `onSaveJwt`, `handleSave` and `handleExport` are left out. They only check for an empty token
  or show a notification.
- `parseFloat` is a parameter. Its number syntax, rounding, `Infinity` and the longest-prefix
  rule are not modelled; amounts are unbounded reals, not IEEE doubles.
- `Date.now()` is the parameter `clock` in the import and `now` in `addRow`. No claim is made that ids from `addRow` are unique
  among existing or imported rows, because the code does not ensure it.
- `trim`, `\s` and `toUpperCase` cover ASCII only. Unicode whitespace such as U+00A0 and U+FEFF,
  and non-ASCII case mapping, are not modelled.
- Line terminators are `\n` and `\r`. U+2028 and U+2029, which JavaScript also treats as line
  ends for `^`, `$` and `.`, are not modelled.
- EditableTable.Table.UpdateRow: requires the value to have the field's declared kind (a number
  for `importe` and `iva`, text otherwise). JavaScript would store a number in a text field if a
  caller passed one; every editor in the grid passes the declared kind.
