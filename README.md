# ads2bibtex in Dafny

ads2bibtex keeps a BibTeX file in step with an ADS library. It polls the
library, exports its entries through the ADS API, appends a file of
additional BibTeX entries and rewrites the output whenever the library's
modification time or the additional file changes. Optionally it also
writes a "raw file" that lists each bibcode with its authors and title.
The package also has helpers that read bibcode lists and pull ADS
citation keys out of LaTeX sources.

This project models that core and proves properties of the model.

| file | models |
|---|---|
| `outcomes.dfy` | `Option`, `Result`, and the errors the program raises |
| `strings.dfy` | Python string operations the core relies on: `split`, `join`, `strip`, `find`, `isdigit`, `\s`, `\w`, and string sorting |
| `journal.dfy` | `JOURNAL_MACRO`, `_expand_macros`, `change_journal_name` |
| `journaltable.dfy` | facts about the `JOURNAL_MACRO` table itself: well-formedness, prefix order, and what it does to `\apjl` and `\apj` |
| `bibfiles.dfy` | the text processing of `read_sort_bib_ads` and `read_bib_add` |
| `export.dfy` | the export request of `query_ads` and how its reply is treated |
| `rawfile.dfy` | `make_rawfile` |
| `citekeys.dfy` | the regex scan of `extract_cite_keys` |
| `reconcile.dfy` | the polling loop of `ads2bib` and the added/deleted lists of `print_infostr` |

## How the model is built

**Regex substitutions** are modelled as explicit leftmost, non-overlapping
scans. This covers `re.sub`, `re.findall` and `finditer`. Each match
length is defined by hand, following Python's greedy matching and
backtracking for the particular pattern.

**Macro expansion.** `_expand_macros` is a method whose loop over the
table is proved equal to a fold `MacroFold`: one replace-all per table
entry, in table order. A second semantics, `Expand`, is a single scan
that replaces each macro by the first entry whose name follows the
backslash. For a well-formed table the two are proved equal
(`MacroFoldIsExpand`).

**The table.** `JOURNAL_MACRO` is written in six consecutive groups, in the
insertion order of the dict. A full name longer than 24 characters is
written as a concatenation of shorter literals split at word boundaries;
the text is that of the dict. Its well-formedness and prefix order are
proved group by group and then for the joined table
(`journaltable.dfy`). With these, `MacroFoldIsExpand` and
`FirstMatchIsLongest` apply to the table itself (`FullStyleIsExpand`,
`JournalMacroTakesLongest`).

**The polling loop** (`ads2bib.py` lines 110-179):
- What the world answers during an iteration is its input, a `Poll`:
  - the additional file, or `None` when it is absent;
  - the library reply: a listing, a reply that is not JSON, or JSON
    without the fields;
  - the "export" fields of the two export replies.
- `Step` is the pure semantics of one iteration. `Iterate` and its
  helper methods follow the script statement by statement and are proved
  equal to `Step`.
- `Run` is the `for` loop, proved equal to `RunFrom`.
- Each iteration reports, as a `StepOut`:
  - the requests it posted;
  - what it wrote to the output file and to the raw file;
  - whether it was skipped.
  An exception that ends the program is reported as the run's `halt`.

**The journal style** is part of the settings (`Config.style`).
`Settings` builds it with `JournalStyle`, which is `change_journal_name`
with the style name fixed. The ISO-4 abbreviation step is a parameter,
`iso4`.

## Where the code and its documentation disagree

The model follows the code in each case:
- **A comment in a bibcode file** is the regex `\s?[#%](.)*\s?\n`. It
  starts at any `#` or `%`, including one in the middle of a line. It
  takes at most one blank before the marker and at most one newline
  after the line end. It is not a whole comment line.
- **The additional file's keys** come from `@\w+{(.+),` on the text as
  read. `.+` is greedy, so a key runs up to the last comma of its line.
  A commented-out entry still yields its key
  (`CommentedEntryStillKeyed`).
- **`_bibs.replace(' ', '')`** discards its result, so blanks inside a
  bibcode line stay.

## Model

| member | source | states |
|---|---|---|
| Journal.ReplaceAllAbsent | ads2bibtex/core.py:120 | re.sub of a macro pattern leaves a text without the pattern's leading backslash unchanged |
| Journal.ReplaceAllKeepsPrefix | ads2bibtex/core.py:120 | re.sub passes a backslash-free prefix through unchanged and substitutes only in the text after it |
| Journal.ExpandMacros | ads2bibtex/core.py:118-121 | The loop over JOURNAL_MACRO gives the table-order fold of replace-all passes, and leaves text without a backslash unchanged |
| Journal.MacroFoldNoBackslash | ads2bibtex/core.py:118-121 | No macro table changes a text that holds no backslash |
| Journal.MacroFoldAppend | ads2bibtex/core.py:119-120 | Expanding with a concatenated table is expanding with the first part, then with the second |
| Journal.MacroFoldIsExpand | ads2bibtex/core.py:118-121 | For a well-formed table, repeated replace-all equals one left-to-right scan that replaces each macro by the first entry whose name follows the backslash |
| Journal.FirstMatchIsLongest | ads2bibtex/core.py:15-17 | In a table where no name is a proper prefix of a later name, the first entry that matches is the longest entry that matches |
| Journal.ChangeJournalName | ads2bibtex/core.py:124-132 | "ads" returns the text unchanged; "full" expands the macros; "iso4" expands them, then abbreviates; every other name, and only those, fails with UnknownJournal(name) |
| Journal.ChangeJournalNameNoMacro | ads2bibtex/core.py:124-130 | On text without a backslash, "full" is the identity and "iso4" only abbreviates |
| Journal.ChangeJournalNameEmpty | ads2bibtex/core.py:124-128 | The "ads" and "full" styles map the empty text to the empty text |
| JournalTable.JournalMacroWellFormed | ads2bibtex/core.py:18-80 | Every one of the 61 entries of JOURNAL_MACRO has a nonempty lower-case name and a nonempty full name that starts with a capital letter and holds no backslash |
| JournalTable.JournalMacroPrefixOrdered | ads2bibtex/core.py:15-80 | In JOURNAL_MACRO no name is a proper prefix of a name listed after it, which is the ordering the comment above the table asks for |
| JournalTable.NamesOrdered | ads2bibtex/core.py:15-17 | A table whose name column passes the character-by-character check is prefix ordered (the check is exact: ProperPrefixIsPrefix) |
| JournalTable.ProperPrefixIsPrefix | ads2bibtex/core.py:15-17 | The character-by-character test accepts a pair of names exactly when the first is a proper prefix of the second |
| JournalTable.PrefixOrderedAppend | ads2bibtex/core.py:18-80 | Two prefix-ordered groups of entries whose names start with letters from disjoint ranges are prefix ordered when joined |
| JournalTable.FullStyleIsExpand | ads2bibtex/core.py:118-130 | For every text, change_journal_name with "full" returns the single left-to-right expansion with JOURNAL_MACRO, and with "iso4" it abbreviates that expansion |
| JournalTable.JournalMacroTakesLongest | ads2bibtex/core.py:15-17 | Wherever several names of JOURNAL_MACRO follow a backslash, the entry substituted is the one with the longest name |
| JournalTable.ExpandApjl | ads2bibtex/core.py:15-23 | In any text, "\apjl" after a backslash-free prefix becomes "Astrophysical Journal, Letters" (not the apj name followed by "l"), and the rest of the text is expanded in turn; with FullStyleIsExpand this is what the "full" style writes |
| JournalTable.ExpandApj | ads2bibtex/core.py:23-25 | In any text, "\apj" not followed by "l" or "s" becomes "Astrophysical Journal", and the rest of the text is expanded in turn |
| JournalTable.NamedPrefixPairsOrdered | ads2bibtex/core.py:15-17 | apjl/apjs come before apj, aapr/aaps before aap and nat/nar before na, at the table positions given, and the shorter names are proper prefixes of the longer |
| JournalTable.MisorderedTableDoublesL | ads2bibtex/core.py:15-17 | With apj placed before apjl, "\apjl" becomes "Astrophysical Journall", the failure the table comment warns about |
| BibFiles.SubAddsNewlines | ads2bibtex/core.py:154-158 | Each of the three substitutions introduces no character except newlines |
| BibFiles.SubRemovesCommas | ads2bibtex/core.py:156 | After the comma pass, no comma is left |
| BibFiles.SubRemovesMarkers | ads2bibtex/core.py:152-154 | Once a newline is appended, the comment pass leaves no '#' or '%' |
| BibFiles.SubKeepsPlain | ads2bibtex/core.py:154-158 | A plain line (nonempty, with no newline, comma or marker, not ending in a blank) passes through each substitution unchanged, whatever follows it |
| BibFiles.NonEmpty | ads2bibtex/core.py:162 | Every string kept is nonempty and is one of the pieces; a list with no empty piece is returned unchanged |
| BibFiles.NonEmptyMembers | ads2bibtex/core.py:162 | A string is in the result exactly when it is a nonempty piece of the input, and every nonempty string occurs as often as in the input |
| BibFiles.NonEmptyAppend | ads2bibtex/core.py:162 | The filter keeps the order: filtering a concatenation gives the filtered first part followed by the filtered second part |
| BibFiles.Bibcodes | ads2bibtex/core.py:152-162 | Every bibcode read is nonempty and holds no newline, comma, '#' or '%' |
| BibFiles.ReadSortBibAds | ads2bibtex/core.py:149-167 | Returns [] for a missing file. Otherwise the entries are nonempty and have no separators. With sort set they are sorted and a permutation of the file's bibcodes; without it they are in file order |
| BibFiles.BibcodesOfPlainLines | ads2bibtex/core.py:152-164 | A file of plain lines joined by newlines reads back as exactly those lines, in order |
| BibFiles.EmptyFileHasNoBibcodes | ads2bibtex/core.py:152-162 | An empty file yields no bibcodes |
| BibFiles.CommentLineDropped | ads2bibtex/core.py:154 | A leading comment line is dropped and the plain lines after it are read as they are |
| BibFiles.CommaSeparatedLine | ads2bibtex/core.py:156 | "b1, b2" on one line reads as the two bibcodes b1 and b2 |
| BibFiles.WordRunIsMaximal | ads2bibtex/core.py:188 | `\w+` takes only word characters and stops at the first other character |
| BibFiles.LastCommaIsLast | ads2bibtex/core.py:188 | The greedy `(.+),` ends at the comma after which no comma follows, and finds none on a line without one |
| BibFiles.KeyMatch | ads2bibtex/core.py:188 | A match captures a nonempty key without a newline, and consumes a positive length within the text |
| BibFiles.KeyMatchOfEntry | ads2bibtex/core.py:188 | On "@type{key,tail" with no comma in tail, the match captures key and ends after its comma |
| BibFiles.BibKeys | ads2bibtex/core.py:188 | Every key found is nonempty and holds no newline |
| BibFiles.BibKeysSkipsText | ads2bibtex/core.py:188 | Text without '@' before an entry contributes no keys |
| BibFiles.BibKeysOfEntry | ads2bibtex/core.py:188 | An entry line contributes its key, then the scan continues with the following lines |
| BibFiles.ReadBibAdd | ads2bibtex/core.py:180-192 | A missing file gives ("", []); otherwise the text as read and the keys of that same unstripped text |
| BibFiles.CommentedEntryStillKeyed | ads2bibtex/core.py:185-188 | An entry behind "% " still contributes its key, because the stripped copy is discarded |
| Export.ExportRequest | ads2bibtex/core.py:230-239 | The bibcodes go under "bibcode". Each of the 17 named formats posts to url + format with "format" left as given. Any other string posts to url + "custom" and is sent under "format". No other option is added or changed |
| Export.RequestedFormatRoundTrip | ads2bibtex/core.py:232-239 | The format asked for can be read back from the request, whichever endpoint it goes to |
| Export.CustomNotNamed | ads2bibtex/core.py:232-236 | "custom" is not one of the named formats, so a custom request is never mistaken for a named one |
| Export.ReusedOptionsGiveSameRequest | ads2bibtex/core.py:230-235 | Reusing the options dict that an earlier call updated in place gives the same request as fresh options |
| Export.QueryAds | ads2bibtex/core.py:230-249 | Posts the export request. A reply without "export" is an error; otherwise the text goes through the journal style |
| Export.QueryAdsKeepsAdsText | ads2bibtex/core.py:244-249 | In the default "ads" style, the exported text is returned unchanged |
| Rawfile.Lasts | ads2bibtex/core.py:296-297 | The last names are nonempty, brace-free pieces of the author field |
| Rawfile.LastsOfBracedName | ads2bibtex/core.py:296-297 | "{Last}, F. and ..." yields Last, then the names of the rest |
| Rawfile.AuthorLabel | ads2bibtex/core.py:298-303 | One name stays as it is; two or three are joined with "+"; more than three give the first name, "+" and the count of the others; no name is an IndexError |
| Rawfile.AuthorLabelDecodes | ads2bibtex/core.py:298-303 | Splitting a label at "+" gives back up to three names; for more than three it gives the first name and the number of the others |
| Rawfile.AddLine | ads2bibtex/core.py:289-305 | The line is stripped; a stripped line starting with "@", "author =" or "title =" is handled as an entry, author or title line, tested in that order; any other line leaves the columns as they are. The only error is IndexError; at most one element is appended to each column and none removed; bibcodes stay 19 characters long; no newline enters |
| Rawfile.EntryLine | ads2bibtex/core.py:290-293 | Fails, with IndexError, exactly when the line has no "{"; otherwise authors and titles are unchanged and at most one bibcode of 19 characters is appended |
| Rawfile.EntryLineKey | ads2bibtex/core.py:290-293 | On "@type{key,rest" the key before the first comma is appended exactly when it is 19 characters long; otherwise the columns are unchanged |
| Rawfile.AuthorLine | ads2bibtex/core.py:294-303 | A line without " = {" is an IndexError, the only error there is; on success exactly one label is appended to the authors and bibcodes and titles are unchanged |
| Rawfile.AuthorLineOf | ads2bibtex/core.py:294-303 | On "... = {X}," the label of the braced last names of X is appended, and a field with no braced name is an IndexError |
| Rawfile.AuthorLineOneName | ads2bibtex/core.py:294-303 | The ADS line `author = {{Last}, F.},` appends Last |
| Rawfile.TitleLine | ads2bibtex/core.py:304-305 | Fails, with IndexError, exactly when the line has no "{"; on success exactly one title is appended and bibcodes and authors are unchanged |
| Rawfile.TitleLineOf | ads2bibtex/core.py:304-305 | The title appended is the text after the first "{" up to the next one, less its last three characters |
| Rawfile.TitleLineQuoted | ads2bibtex/core.py:304-305 | The ADS line `title = "{T}",` with no brace in T appends T |
| Rawfile.CollectColumns | ads2bibtex/core.py:285-305 | After all the lines, every bibcode collected is 19 characters long; lines without newlines give fields without newlines |
| Rawfile.FailureSticks | ads2bibtex/core.py:288-305 | The first failing line fails the whole pass with its error |
| Rawfile.CollectNext | ads2bibtex/core.py:288-305 | Each further line is one more AddLine on the columns of the lines before it |
| Rawfile.MakeRawfile | ads2bibtex/core.py:284-309 | The loop over the lines followed by the writing loop produces the reference text RawfileText |
| Rawfile.WriteRows | ads2bibtex/core.py:307-309 | Writes exactly the rows of zip(bibs, auths, tits), each ended by a newline |
| Rawfile.RowLines | ads2bibtex/core.py:308-309 | Row k is "bib  # auth || tit" built from the k-th element of each column |
| Rawfile.RowsAreLines | ads2bibtex/core.py:308-309 | When no field holds a newline, the written text splits into exactly those rows, with nothing after the last newline |
| Rawfile.RawfileTextRows | ads2bibtex/core.py:284-309 | A raw file has one "bib  # auth || title" line for each position that all three columns have, and only 19-character bibcodes |
| CiteKeys.ValidKeys | ads2bibtex/core.py:320-324 | Every key kept is 19 characters long and starts with four digits, and there are never more keys than pieces |
| CiteKeys.ValidKeysMembers | ads2bibtex/core.py:320-324 | A string is kept exactly when it is the stripped text of some piece and it is 19 characters long starting with four digits |
| CiteKeys.ValidKeysAppend | ads2bibtex/core.py:321-324 | The pieces are taken in order: the keys of a concatenation of pieces are the keys of the first part followed by those of the second |
| CiteKeys.ValidKeysOne | ads2bibtex/core.py:322-324 | A single piece gives its stripped text when that is a valid key, and nothing otherwise |
| CiteKeys.KeysOf | ads2bibtex/core.py:320-324 | Every key taken from a citation argument is valid |
| CiteKeys.KeysOfArgument | ads2bibtex/core.py:320-324 | The loop over the comma-separated pieces gives KeysOf of the argument |
| CiteKeys.ExtractCiteKeys | ads2bibtex/core.py:316-325 | The finditer loop gives the keys of the left-to-right scan CiteKeys |
| CiteKeys.KeysAreValid | ads2bibtex/core.py:323-324 | Every key extracted is 19 characters long and starts with four digits |
| CiteKeys.CommentAt | ads2bibtex/core.py:316 | A comment match consumes the '%' and at least one more character, staying within the text |
| CiteKeys.HeadAt | ads2bibtex/core.py:316 | A citation command head, `\cite{` at its shortest, is at least 6 characters long |
| CiteKeys.CitationAt | ads2bibtex/core.py:316 | A citation match is nonempty and stays within the text |
| CiteKeys.TokenAt | ads2bibtex/core.py:316 | Every match is nonempty and stays within the text, so the scan makes progress |
| CiteKeys.LineEndStops | ads2bibtex/core.py:316 | The `.+` of a comment stops at a newline or at the end of the text |
| CiteKeys.CommentSkipsLine | ads2bibtex/core.py:316 | An unescaped '%' with more text on its line is a comment; the scan resumes at the end of that line |
| CiteKeys.EscapedPercentIsText | ads2bibtex/core.py:316 | A '%' right after a backslash matches nothing, and the scan moves on by one character |
| CiteKeys.BackslashIsText | ads2bibtex/core.py:316 | A backslash followed by neither 'n' nor 'c' starts no citation |
| CiteKeys.CitationOfKey | ads2bibtex/core.py:316-324 | `\cite{k}`, `\citep{k}`, `\nocite{k}` or `\nocitep{k}` with a plain key k contributes k; the scan continues after the '}' |
| CiteKeys.EscapedPercentKeepsCitation | ads2bibtex/core.py:316-324 | In "\% \cite{k}", the citation is still found |
| CiteKeys.CommentHidesCitation | ads2bibtex/core.py:316-324 | In "% \cite{k}", the citation is not found |
| Reconcile.Added | ads2bibtex/scripts/ads2bib.py:28 | x is in the result exactly when it is in new and not in old; the result is no longer than new |
| Reconcile.Deleted | ads2bibtex/scripts/ads2bib.py:29 | x is in the result exactly when it is in old and not in new |
| Reconcile.AddedIsSubsequence | ads2bibtex/scripts/ads2bib.py:28 | The added elements keep the order they have in new |
| Reconcile.AddedCounts | ads2bibtex/scripts/ads2bib.py:28 | An element missing from old is added as many times as it occurs in new; other elements not at all |
| Reconcile.NothingAdded | ads2bibtex/scripts/ads2bib.py:28 | If every element of new is in old, nothing is added |
| Reconcile.NothingChanged | ads2bibtex/scripts/ads2bib.py:28-29 | Between equal lists, nothing is added and nothing is deleted |
| Reconcile.Init | ads2bibtex/scripts/ads2bib.py:110-131 | A library reply that is not JSON, or lacks the fields, stops the setup with that error. After a listing the setup succeeds exactly when the first export does; a reply without "export" gives ExportMissing and a failing restyling gives its error. On success the state holds the listing, the additional file and its keys, the first export, and update set |
| Reconcile.Remember | ads2bibtex/scripts/ads2bib.py:151-155 | The new additional file and keys are remembered. update becomes set exactly when either differs from the last ones. The library side is untouched |
| Reconcile.StepSkipped | ads2bibtex/scripts/ads2bib.py:133-140 | An iteration is skipped exactly when it is not the first and the library reply is not JSON |
| Reconcile.MalformedHalts | ads2bibtex/scripts/ads2bib.py:133-140 | A later library reply without the fields ends the run with that error, before anything is posted or written and with the state unchanged |
| Reconcile.Iterate | ads2bibtex/scripts/ads2bib.py:133-177 | The loop body, run statement by statement, has the effect Step gives |
| Reconcile.FetchFiles | ads2bibtex/scripts/ads2bib.py:144-177 | The timestamp test and what follows it have the effect Fetch gives |
| Reconcile.RefetchFiles | ads2bibtex/scripts/ads2bib.py:145-149 | The refetch and what follows it have the effect Refetch gives |
| Reconcile.FinishFiles | ads2bibtex/scripts/ads2bib.py:151-177 | The additional-file test and the writes have the effect Finish gives |
| Reconcile.WriteFiles | ads2bibtex/scripts/ads2bib.py:157-177 | The writes and the progress print have the effect Write gives |
| Reconcile.Run | ads2bibtex/scripts/ads2bib.py:132-179 | The for loop over range(num_iter) gives the run RunFrom |
| Reconcile.RunLength | ads2bibtex/scripts/ads2bib.py:132 | A run performs at most num_iter iterations |
| Reconcile.RunLengthPolls | ads2bibtex/scripts/ads2bib.py:132 | A run performs no more iterations than there are polls |
| Reconcile.RunLengthFull | ads2bibtex/scripts/ads2bib.py:132 | With enough polls and no exception, exactly num_iter iterations are performed |
| Reconcile.WriteKeepsState | ads2bibtex/scripts/ads2bib.py:157-173 | The writes change no loop variable and only append requests |
| Reconcile.FinishState | ads2bibtex/scripts/ads2bib.py:151-173 | From line 151 on, the library side is kept and the additional file just read is remembered |
| Reconcile.WriteWrites | ads2bibtex/scripts/ads2bib.py:157-159 | The output is written exactly when update is set; without a raw file, nothing is posted |
| Reconcile.WriteContent | ads2bibtex/scripts/ads2bib.py:158-164 | The output is the library export followed by the additional file. If restyling fails, only the export is written and the error ends the run |
| Reconcile.WriteRaw | ads2bibtex/scripts/ads2bib.py:169-172 | A raw file is written only with the output, from one export request in the raw format for the bibcodes held |
| Reconcile.FinishWrites | ads2bibtex/scripts/ads2bib.py:151-158 | The output is written exactly when update was set or the additional file (text or keys) changed |
| Reconcile.FinishContent | ads2bibtex/scripts/ads2bib.py:151-164 | The content written from line 151 on is the export held, followed by the additional file |
| Reconcile.FinishRaw | ads2bibtex/scripts/ads2bib.py:169-172 | From line 151 on, a raw file comes from the raw-format request for the bibcodes held |
| Reconcile.FirstIterationWrites | ads2bibtex/scripts/ads2bib.py:131-159 | Iteration 0 after the setup always writes the output and keeps the library side |
| Reconcile.RunStartsWithWrite | ads2bibtex/scripts/ads2bib.py:129-159 | After a successful setup, the first iteration of a run writes the output file |
| Reconcile.QuietPollWritesNothing | ads2bibtex/scripts/ads2bib.py:136-157 | A later poll with the same timestamp and the same additional file writes nothing, posts nothing, and only clears update |
| Reconcile.NewTimestampRefetches | ads2bibtex/scripts/ads2bib.py:144-149 | A new timestamp refetches the export for the listed bibcodes, remembers them and the timestamp, and writes |
| Reconcile.ChangedAddsWrite | ads2bibtex/scripts/ads2bib.py:151-158 | A change in the additional file's text or keys writes and is remembered; the library side is unchanged |
| Reconcile.SameTimestampMissesNewBibs | ads2bibtex/scripts/ads2bib.py:144-149 | New bibcodes under an unchanged timestamp go unnoticed: the old list and export are kept and nothing is written |
| Reconcile.UndecodableSkips | ads2bibtex/scripts/ads2bib.py:135-139 | A library reply that is not JSON skips the iteration: the state is unchanged, and nothing is written or posted |
| Reconcile.FetchContent | ads2bibtex/scripts/ads2bib.py:144-164 | The content written after the timestamp test is the export held, followed by the additional file |
| Reconcile.WrittenContent | ads2bibtex/scripts/ads2bib.py:157-166 | The output is bibtex_ads plus the additional file, as it is with add_as_is or else restyled. An unknown style writes bibtex_ads only and ends the run |
| Reconcile.WrittenInJournalStyle | ads2bibtex/scripts/ads2bib.py:158-164 | With a named style, the additional file is written through change_journal_name; with add_as_is or "ads", it is written unchanged |
| Reconcile.FetchRaw | ads2bibtex/scripts/ads2bib.py:144-172 | A raw file written after the timestamp test comes from the raw-format request for the bibcodes held |
| Reconcile.RefetchRaw | ads2bibtex/scripts/ads2bib.py:145-172 | After a refetch, a raw file comes from the raw-format request for the new bibcodes |
| Strings.Split | ads2bibtex/core.py:161 | `split` on one character gives at least one piece, no piece holds the separator, and joining the pieces with it gives back the text |
| Strings.SplitJoin | ads2bibtex/core.py:161 | Splitting a join of separator-free pieces gives back exactly those pieces |
| Strings.Strip | ads2bibtex/core.py:289 | `strip` returns a slice of the text with only whitespace cut from both ends, and the result neither starts nor ends with whitespace |
| Strings.StripNoSpace | ads2bibtex/core.py:322 | A text without whitespace is returned as it is |
| Strings.SortStrings | ads2bibtex/core.py:163-164 | `sort` returns a sorted permutation of the list |
| Strings.LexLeTotal | ads2bibtex/core.py:163-164 | The string order is total |
| Reconcile.RawFileFollowsOutput | ads2bibtex/scripts/ads2bib.py:169-172 | In any iteration, a raw file is written only with the output, and the last request is the raw-format export of the bibcodes the output was written from |

## Left out

- **Network, files and clocks are not modelled.**
  - The HTTP calls, the API token (`_check_token`), file reads and
    writes, `time.sleep`, `datetime.now` and the coloured prints are
    absent.
  - File contents and API replies are inputs.
  - Errors from reading a file are not modelled.
  - What is written is reported, not written.
- **ISO-4 abbreviation.** `_iso4fy_journals` (`core.py` lines 98-115) is
  the parameter `iso4`. It needs the external `iso4`/`nltk` abbreviation
  code.
- **`query_lib`** (lines 252-281) is reduced to its outcome, a
  `LibraryReply`: a listing, a reply that is not JSON, or one without the
  fields. The library name serves only for printing.
- **JSON encoding** of the options is not modelled. Options are a map
  from keys to strings or bibcode lists.
- **Character classes are ASCII only:**
  - `\s` is space, tab, newline, carriage return, form feed and vertical
    tab;
  - `\w` is letters, digits and `_`;
  - `isdigit` is 0 to 9.
  Python's Unicode classes are not.
- **Reconcile.Run** covers only as many iterations as polls are given: a
  run also stops when the polls run out. `RunLengthFull` covers the full
  `num_iter` iterations.
- **`time.sleep(args.dtime)`** is not modelled, so a negative `dtime`
  (a ValueError) is not an error in the model.
- **The info print** at lines 175-177 is modelled only for its
  ZeroDivisionError when `info_interval` is 0.
- **Unused code is left out:**
  - the `except FileNotFoundError` at lines 165-166 of `ads2bib.py`,
    which nothing inside the `try` can raise;
  - the comment-stripped `_adds2` at lines 185-187 of `core.py`, whose
    value is overwritten.
- **Cite keys.** The look-behind `(?<!\\)` is modelled as a test of the
  character before the scan position. The properties of
  `extract_cite_keys` are stated for positions in a text and for small
  example texts, not for arbitrary surrounding text.
- **Unused files.** `ads2bibtex/scripts/tex2bib.py` and `setup.py` are
  not part of this model.
