# GL Translate core, modelled in Dafny

This project models the logic at the heart of the gateway-language
translation suite, a browser application in which translators pick an
original resource repository on a Gitea server (Door43), get a translation
repository provisioned for their language, and edit its files side by side
with the originals. Three pieces of that application are modelled and
proved here:

* **Target-file resolution and TSV validation** (`src/core/TargetFile.context.js`).
  The source file's path is looked up in the source repository's
  `manifest.yaml` to find its project identifier. That identifier is then
  looked up in the target repository's manifest to find the target file's
  path. Each lookup succeeds only when exactly one project matches. Once a
  `.tsv` target file is loaded, its header row and the column count of
  every later row are checked. A notice is produced for each faulty line,
  and each notice links to the line in the server's blame view.
  Modules: `ManifestResolver` (`manifest_resolver.dfy`) and `TsvValidator`
  (`tsv_validator.dfy`).
* **CSV export** (`src/core/csvMaker.js`). `addRow` escapes the cells of a
  row in place and pushes the row onto the table. `toCSV` writes a
  byte-order mark, then each row joined by commas and ended by CRLF.
  Modules: `CsvMaker` (`csv_maker.dfy`) and `CsvReader` (`csv_reader.dfy`).
  `CsvReader` is an independent reader following section 2 of RFC 4180,
  against which the export is proved to round-trip.
* **Application state** (`src/App.js`). This covers the global slots, the
  `cleanup` and `onOriginalRepository` transitions, and the guard that
  provisions the translation repository. It also covers that repository's
  derived name and the rule that keeps the translation blob on the same
  file path as the original blob. Module: `AppState` (`app_state.dfy`).

Supporting modules:

* `Wrappers` holds `Option`.
* `Seqs` holds `filter` and the "exactly one match" reading of
  `filter(...).length == 1`.
* `Strings` holds the JavaScript string operations the code relies on, with
  their properties: `split`, `join`, `trimEnd`, `endsWith`, `replace` (first
  occurrence), `replaceAll`, and number-to-decimal conversion.
* `Gitea` holds the repository and file records the server returns.

JavaScript's `undefined` is modelled as `Option.None`. `===` between two
possibly-undefined values is therefore equality of `Option`s: an absent
identifier matches a project whose identifier is absent, just as
`undefined === undefined` holds.

## Model

| member | source | states |
|---|---|---|
| ManifestResolver.IdentifierByFilePath | src/core/TargetFile.context.js:79-100 | No manifest or no `projects` gives nothing. Exactly one project whose path is the file path or "./" + the file path gives that project's identifier. Zero or several such projects give nothing. |
| ManifestResolver.FilePathByIdentifier | src/core/TargetFile.context.js:62-77 | No manifest or no `projects` gives nothing. Exactly one project with an equal (possibly absent) identifier gives that project's path. Zero or several give nothing. |
| ManifestResolver.TargetFilePath | src/core/TargetFile.context.js:44-60 | The result is absent when the source repository, the source file or the target repository is missing. It is also absent when the target manifest or its projects are missing. |
| ManifestResolver.TargetFilePathIsUniqueChain | src/core/TargetFile.context.js:44-100 | A found target path is the path of exactly one target project carrying the identifier that the source lookup returned. That identifier is either the one of the single source project owning the file's path, or, when no single source project owns it, the missing identifier, which then matches the one target project without an identifier. |
| ManifestResolver.TargetFilePathFollowsIdentifier | src/core/TargetFile.context.js:52-55 | When the source path and the identifier each match exactly one project, the result is the target project's path. |
| ManifestResolver.MissingIdentifierMatchesUnnamedProject | src/core/TargetFile.context.js:68-73 | When the source lookup finds nothing, the target project that is the only one lacking an identifier still resolves, because undefined equals undefined. |
| ManifestResolver.AmbiguousPathResolvesToNothing | src/core/TargetFile.context.js:88-97 | Two projects claiming the same file path (directly or with "./") leave the identifier unresolved. |
| ManifestResolver.ResolutionExample | src/core/TargetFile.context.js:44-100 | "tn_GEN.tsv", owned by project "gen", resolves to the target's "./tn_GEN.tsv". |
| Seqs.FilterIsSingleton | src/core/TargetFile.context.js:68-71 | The filtered list has length 1 exactly when one element passes the filter, and then it holds that element. |
| Strings.TrimEnd | src/core/TargetFile.context.js:127 | The result is a prefix of the input that is empty or ends in a non-whitespace character, and everything cut off is whitespace. |
| Strings.TrimEndIgnoresTrailingWhitespace | src/core/TargetFile.context.js:127 | Appending whitespace does not change what `trimEnd` returns. |
| Strings.Split | src/core/TargetFile.context.js:129 | Splitting on a character gives one more piece than there are separators, and no piece contains the separator. |
| Strings.JoinSplit | src/core/TargetFile.context.js:129 | Joining the pieces of a split with the separator gives back the input. |
| Strings.SplitJoin | src/core/TargetFile.context.js:142 | Splitting a separator-joined list of separator-free pieces gives back the list. |
| Strings.ReplaceFirst | src/core/TargetFile.context.js:125 | Without an occurrence the input is unchanged. Otherwise only the first occurrence is replaced. |
| Strings.ReplaceAll | src/core/TargetFile.context.js:136 | The length grows by (replacement length - 1) per occurrence, and an input without the character is unchanged. |
| Strings.NatToStringRoundTrip | src/core/TargetFile.context.js:141-146 | The decimal text of a line number reads back as that number. |
| TsvValidator.HeaderShape | src/core/TargetFile.context.js:131-136 | The expected header has 9 tab-separated columns. The header message lists the nine names separated by ", ". |
| TsvValidator.Rows | src/core/TargetFile.context.js:127-129 | As written, the rows are at least one line-feed-free piece, and joined by line feeds they give the trimmed document back. |
| TsvValidator.BlameLink | src/core/TargetFile.context.js:125 | The link is the file's URL with its first "/src/" replaced by "/blame/"; a URL without "/src/" is kept unchanged. |
| TsvValidator.ColumnCount | src/core/TargetFile.context.js:142-143 | A row's column count is its number of tabs plus one. |
| TsvValidator.LastRowNotEmpty | src/core/TargetFile.context.js:127-129 | After `trimEnd` and `split`, the last row is empty only when it is the only row. |
| TsvValidator.TrailingWhitespaceAddsNoRows | src/core/TargetFile.context.js:127-129 | Trailing whitespace in the file adds no rows. |
| TsvValidator.HeaderNotice | src/core/TargetFile.context.js:132-137 | A bad header gives the line-1 notice, linked to `#L1`, with the header message. |
| TsvValidator.RowNotice | src/core/TargetFile.context.js:141-155 | A row at index i with n ≠ 9 columns gives a notice for line i+1, linked to `#L` plus that number, saying "Not enough columns" (n < 9) or "Too many columns" (n > 9) and found n. |
| TsvValidator.IssuesAreTheBadLines | src/core/TargetFile.context.js:132-156 | There is a header issue exactly when row 0 differs from the header. Every later row with a column count other than 9 has an issue for its line, and every column issue names such a row with its true count. |
| TsvValidator.IssuesInLineOrder | src/core/TargetFile.context.js:140-156 | Issues come out in strictly increasing line order, header first. |
| TsvValidator.NoticesInLineOrder | src/core/TargetFile.context.js:140-156 | The notices' line-number texts read as strictly increasing numbers. |
| TsvValidator.IssueCount | src/core/TargetFile.context.js:126-157 | The number of issues is one for a bad header plus the number of badly sized rows. |
| TsvValidator.WellFormedRowsHaveNoIssues | src/core/TargetFile.context.js:131-157 | The right header and 9 columns on every later row give no issues. |
| TsvValidator.CheckHeader | src/core/TargetFile.context.js:131-137 | Appends the header notice to the notices so far exactly when the first row is not the header. |
| TsvValidator.CheckRow | src/core/TargetFile.context.js:141-155 | Appends a notice for the row's line exactly when the row does not split into nine columns. |
| TsvValidator.CheckRows | src/core/TargetFile.context.js:126-157 | The header check followed by the loop over later rows gives exactly the notices of the rows' issues, in line order. |
| TsvValidator.CollectNotices | src/core/TargetFile.context.js:125-157 | The file's notices are exactly the notices of its issues, linked to the `/blame/` form of its URL. The rows are split with the corrected split of the Findings. |
| TsvValidator.ValidationPass | src/core/TargetFile.context.js:119-168 | A missing file or content reports not validated. An already validated file reports nothing. A non-`.tsv` file validates. A `.tsv` file validates when its rows (corrected split) have no issues, and otherwise reports exactly their notices as critical errors. |
| TsvValidator.TrimEndDropsEmptyLastCell | src/core/TargetFile.context.js:127-143 | A header followed by one nine-cell row whose last cell is empty and whose eighth cell ends in a non-whitespace character is reported as a row of 8 columns at line 2. Each further empty cell at the end of the row costs one more column. |
| TsvValidator.DropTrailingBlankRows | src/core/TargetFile.context.js:127-129 | The corrected row split drops only whole trailing blank lines and keeps every earlier row. |
| TsvValidator.TrimLineEnd | src/core/TargetFile.context.js:127 | The corrected trim of the last row is the longest prefix not ending in whitespace other than a tab. Everything it cuts off is such whitespace. |
| TsvValidator.TrimLineEndKeepsColumns | src/core/TargetFile.context.js:127-143 | Trimming the last row never changes its column count. |
| TsvValidator.IntendedRowsIgnoreTrailingBlankLines | src/core/TargetFile.context.js:127-129 | Under the corrected split, trailing blank lines add no rows. The other rows are kept as written, and the last one loses only its trailing non-tab whitespace. |
| TsvValidator.IntendedAcceptsWellFormed | src/core/TargetFile.context.js:127-157 | Under the corrected split, a well-formed file followed by blank lines has no issues. |
| TsvValidator.IntendedRowsAgreeWithRows | src/core/TargetFile.context.js:127-129 | The corrected split and the split as written give the same rows in one case: the last line ends in non-tab whitespace such as a carriage return or spaces (or in none), whatever blank lines follow. |
| TsvValidator.HeaderLineWithCrLf | src/core/TargetFile.context.js:127-132 | A header-only file ended by CRLF has no issues, both as written and under the correction. |
| TsvValidator.HeaderWithStrayTab | src/core/TargetFile.context.js:127-137 | A header line followed by a stray tab has no issues as written, because `trimEnd` removes the tab, but under the correction the kept tab makes it a bad header. |
| TsvValidator.IntendedKeepsEmptyLastCell | src/core/TargetFile.context.js:127-143 | Under the corrected split, the 9-column row with an empty final cell has no issue. |
| CsvMaker.EscapeCell | src/core/csvMaker.js:33-45 | A cell holding a quote, a line feed, a carriage return or a comma is written between quotes with its own quotes doubled. Any other cell is written unchanged. |
| CsvMaker.AddRow | src/core/csvMaker.js:19-51 | The row array is overwritten with its escaped cells, and that same array is pushed at the end of the table. Earlier rows are unchanged when the row was not already in the table. |
| CsvMaker.SerializeAppendRow | src/core/csvMaker.js:71-74 | Serialising one more row appends that row's comma-joined, CRLF-ended line. |
| CsvMaker.ToCSV | src/core/csvMaker.js:53-76 | The output is the byte-order mark followed by each row's cells joined by commas and ended by CRLF, in table order. |
| CsvMaker.EmptyTable | src/core/csvMaker.js:69-75 | An empty table exports as the byte-order mark alone. |
| CsvReader.ReadEscapedCell | src/core/csvMaker.js:33-47 | An RFC 4180 reader recovers every escaped cell exactly, whatever it contains. |
| CsvReader.ReadEscapedRow | src/core/csvMaker.js:31-48 | The reader recovers a non-empty row from its escaped, comma-joined, CRLF-ended line. |
| CsvReader.CsvRoundTrip | src/core/csvMaker.js:19-76 | Exporting rows that each have at least one cell, escaped as `addRow` does, reads back as exactly those rows. |
| AppState.ResourceSuffix | src/App.js:83-85 | `split('_').slice(1).join('_')` of a name is everything after its first "_", and empty when it has none. |
| AppState.TranslationRepoName | src/App.js:83-85 | The translation repository name is the language id, "_", and everything after the original name's first "_". An original name without "_" gives the language id followed by "_". |
| AppState.TranslationRepoNameExample | src/App.js:83-85 | "en_tn" becomes "fr_tn" for French. |
| AppState.App.constructor | src/App.js:32-34 | The app starts with sections on, the font at 100% and every slot empty. |
| AppState.App.Cleanup | src/App.js:66-72 | Empties exactly the translation file, translation blob, original file, original blob and translation repository; every other slot is unchanged. |
| AppState.App.OnOriginalRepository | src/App.js:74-80 | Always stores the new repository. It clears the five slots when the new one is absent, or when it replaces a present repository with a different full name; otherwise they are unchanged. |
| AppState.App.EnsureRepoRequest | src/App.js:83-93 | The provisioning request has the signed-in user as owner and the original's description. Its repository name is the language id, "_" and the original name's part after its first "_", or the language id and "_" alone when that name has no "_". |
| AppState.App.NeedsTranslationRepository | src/App.js:96 | The population guard: signed in, an original repository and a language chosen, and no translation repository yet. |
| AppState.App.PopulateTranslationRepository | src/App.js:94-98 | Only when signed in, with an original repository and a language but no translation repository, the provisioned repository is stored. The guard is off afterwards. |
| AppState.App.SyncTranslationBlob | src/App.js:99-104 | With an original blob, a missing translation blob or one on another path becomes the original blob, and afterwards both are on the same path. Without an original blob nothing changes. |

## Left out

- Parsing `manifest.yaml`: the parsed `projects` list is an input. The code's failure modes (a parse error, or empty content parsing to nothing and then reading `projects` of it) are not modelled as results.
- Fetching files and manifests (`useFile`, `fetchManifest`), and the React contexts: file and manifest states are optional inputs.
- The `validate` action (src/core/TargetFile.context.js:113-117) is not part of this model. It is an asynchronous call into an external content-validation library.
- TsvValidator.CollectNotices: splits the rows with the corrected `IntendedRows` (see Findings), not with `trimEnd` then `split`. The split as written is `TsvValidator.Rows`. The two give the same rows unless the document is blank or the trailing whitespace of its last non-blank line contains a tab. For a blank document both report only the bad header. `TsvValidator.IntendedRowsAgreeWithRows` proves the agreement.
- TsvValidator.ValidationPass: reports over the same corrected split as `TsvValidator.CollectNotices`. It differs from the source only for a file whose last non-blank line has a tab in its trailing whitespace. There it keeps the empty cells after that tab, where the source drops them. The correction therefore also rejects files the source validates: a header line followed by a stray tab is reported as a bad header (`TsvValidator.HeaderWithStrayTab`), and a nine-cell last row followed by a stray tab is reported as having 10 columns, where the source trims the tab and counts 9.
- Scheduling: when `useEffect` fires and React re-renders. `TsvValidator.ValidationPass` models one run of the effect body, and its `Outcome` says which callback is invoked with what.
- All `console.log` output.
- `download` (src/core/csvMaker.js:5-16) is not part of this model. It is browser DOM work and file I/O.
- `src/core/state.defaults.js` holds only constants built from an environment variable.
- `src/App.js`: the JSX, the `FilePopulator` elements, the drawer, the slider and the theme UI, `toggleSectionable`, the font-size handlers, and the server and repository-list configuration passed to `setGlobal`.
- The `ensureRepo` network call: its answer is the parameter of `AppState.App.PopulateTranslationRepository`. The `config` credentials it is also given are not modelled.
- AppState.App.PopulateTranslationRepository: models the guard, `ensureRepo` and `setTranslationRepository` as one atomic step. Three behaviours of the awaited call are not captured:
  - While the call is pending the guard stays on, so every re-render in between calls `ensureRepo` again.
  - A late answer is stored unconditionally, even after `cleanup` or `onOriginalRepository` has cleared the slot for another original repository.
  - An answer of `undefined` would leave the guard on. The parameter is always a repository, which is why the guard is off afterwards.
- React setters take effect on the next render, so within one render the handlers read the slot values of that render. The model applies each update at once; `OnOriginalRepository` reads the previous repository before storing the new one, as the handler does.
- Strings are sequences of Unicode characters, not UTF-16 code units. `trimEnd` uses the ECMAScript whitespace and line-terminator set.
- CsvMaker.AddRow: the table contents are stated as "old contents plus the escaped row" only when the pushed array is not already a row of the table. Pushing the same array twice makes both entries alias the re-escaped array, as in JavaScript.
- CsvReader.CsvRoundTrip: requires every row to have at least one cell. An empty row is written as a bare CRLF and reads back as one empty cell.

## Findings

| source | as written | input that shows it | evidently intended | confidence | as-written member | corrected member |
|---|---|---|---|---|---|---|
| src/core/TargetFile.context.js:127-143 | `trimEnd` removes all trailing whitespace of the file, including the tabs before empty final cells of the last row. A nine-cell last row whose last cell is empty and whose eighth cell ends in a non-whitespace character is then split into 8 columns and reported as "Not enough columns"; each further empty trailing cell costs one more column. | The header line, a line feed, then a 9-column row whose last cell (OccurrenceNote) is empty, e.g. "GEN\t1\t1\tabcd\t\t\t1\tquote\t". | Trailing blank lines and the trailing spaces, carriage returns and other non-tab whitespace of the last row are ignored, but its tabs are kept. A row with an empty last cell then counts 9 columns, and the file validates. The correction also reports a stray tab after the last row, which the source silently trims: a header line followed by a tab becomes a bad header, and a nine-cell last row followed by a tab counts 10 columns. | not executed | TsvValidator.TrimEndDropsEmptyLastCell | TsvValidator.IntendedKeepsEmptyLastCell |
