# Telescope Array author list, in Dafny

This project models the author-list generator of the Telescope Array
collaboration (`Author/formats/`), and proves properties of that model. The
generator reads the collaboration's author spreadsheet, exported as CSV. It then
numbers the institutions in the order the list meets them, and writes the list
in one of four formats:

- plain LaTeX;
- the LaTeX `authblk` package;
- a one-line arXiv author field;
- AASTeX 6.2.

The files follow the source:

- `text.dfy` (module `Text`) holds the Python 2 string primitives the code relies on: `str.strip`, `str.replace` on one character, `str(n)`, and joining with a separator.
- `sorting.dfy` (module `Sorting`) models Python's `sorted()` on strings and on integers. Python 2 orders byte strings code unit by code unit. Because every total order has exactly one sorted permutation of a list, the sort it is modelled with is the sort Python performs.
- `brace_groups.dfy` (module `BraceGroups`) models the institutions field `{A} {B}`. It gives `re.split('\} *\{', field)` as a leftmost-first scan, and `strip('{}')` on every piece.
- `ta_auth.dfy` (module `TaAuth`) models the base class `ta_auth` as a `class` whose `authorData` field `ReadAuthor` appends to. It holds `readAuthor`, `sort_and_number_institutions`, `get_author_institution_numbers`, and the specification functions for the numbering:
  - `Walk`: the names, author by author, each author's names sorted.
  - `Legend`: the names in first-appearance order.
  - `NumbersOf`: the numbers on one author's line.
- `plain_latex.dfy`, `authblk.dfy`, `arxiv.dfy` and `aastex.dfy` model the four `dump` methods. Each is a method with the source's loops, counters and concatenations. Printing a line is modelled as appending it to the returned `seq<string>`, and each method is proved equal to a function that gives the whole output.

An exception in the source becomes a `Result` or an `Option`:

- a file without rows;
- a row with fewer than seven fields;
- `inst_dict[name]` on a missing name.

## Model

| member | source | states |
|---|---|---|
| `Text.Strip` | Author/formats/ta_auth.py:111-115 | the stripped field neither starts nor ends with a character `strip()` removes |
| `Text.StripCuts` | Author/formats/ta_auth.py:111-115 | `strip()` returns a contiguous run of its input, and everything it cut at either end is whitespace |
| `Text.StripPadded` | Author/formats/ta_auth.py:85 | stripping is determined: any padding of stripped characters around a middle that neither starts nor ends with one strips back to that middle |
| `Text.Replace` | Author/formats/plain_latex.py:53 | `replace(' ', '~')` keeps the length, turns every `from` into `to` and leaves every other character as it was |
| `Text.ReplaceBack` | Author/formats/plain_latex.py:53 | when the surname holds no `~`, replacing back restores it, and the result holds a `~` exactly when the surname held a space |
| `Text.NatToString` | Author/formats/plain_latex.py:65 | `str(j)` is a non-empty string of decimal digits with no leading zero |
| `Text.NatToStringValue` | Author/formats/plain_latex.py:65 | reading the digits of `str(j)` back gives `j`, so distinct numbers print differently |
| `Text.SplitOnJoin` | Author/formats/plain_latex.py:62-66 | splitting a comma-joined list on the comma gives the list back when no part holds a comma |
| `Text.JoinPrefixComplete` | Author/formats/arxiv.py:34-36 | writing `, ` after every part except the last gives exactly `', '.join(parts)` |
| `Sorting.InsertionSort` | Author/formats/ta_auth.py:91 | the sort returns a sorted permutation of its input |
| `Sorting.SortedUnique` | Author/formats/ta_auth.py:91 | two sorted lists with the same elements are equal, so any correct sort returns what `sorted()` returns |
| `Sorting.StrLeqTotalOrder` | Author/formats/ta_auth.py:136 | Python 2's ordering of strings is total, transitive and antisymmetric |
| `Sorting.SortStrings` | Author/formats/ta_auth.py:136 | `sorted(l)` on names is sorted and a permutation of `l` |
| `Sorting.SortNats` | Author/formats/ta_auth.py:91 | `sorted(inst_num)` is ascending and a permutation of `inst_num` |
| `BraceGroups.FirstSeparatorFrom` | Author/formats/ta_auth.py:84 | the match found is `}`, the longest run of spaces, then `{`, and no match starts earlier; when none is found there is none at all |
| `BraceGroups.SplitGroups` | Author/formats/ta_auth.py:84 | `re.split` always returns at least one piece |
| `BraceGroups.StripEachAt` | Author/formats/ta_auth.py:84-85 | name `k` is piece `k` with its braces stripped |
| `BraceGroups.InstitutionNames` | Author/formats/ta_auth.py:83-85 | every field, the empty one included, has at least one name |
| `BraceGroups.SingleGroup` | Author/formats/ta_auth.py:84-85 | a field with no `}`-spaces-`{` separator is one name, its outer braces stripped |
| `BraceGroups.FieldBodyNames` | Author/formats/ta_auth.py:84-85 | the groups after the opening brace read back as the names written, for any spacing between each pair of groups |
| `BraceGroups.BraceFieldRoundTrip` | Author/formats/ta_auth.py:84-85 | `{A} {B}{C} …` reads back as exactly the names written, in order, whatever number of spaces separates each pair of neighbouring groups |
| `TaAuth.AuthorOfRow` | Author/formats/ta_auth.py:111-117 | the tuple a data row becomes: columns 0, 2, 3, 5 and 6 stripped, and the sort key `surname,initials`. `AuthorOfRowTrimmed` and `AuthorOfRowIgnoresColumns` prove what it keeps and drops, and `ReadAuthor` appends exactly these tuples |
| `TaAuth.AuthorOfRowTrimmed` | Author/formats/ta_auth.py:111-117 | every field of the tuple is stripped, and the sort key is surname, comma, initials |
| `TaAuth.AuthorOfRowIgnoresColumns` | Author/formats/ta_auth.py:111-115 | the given-name column, the institution-code column and any column after the seventh do not reach the tuple |
| `TaAuth.WellFormedPrefix` | Author/formats/ta_auth.py:110-115 | the rows before the first short row all have seven fields, and the row it stops at has fewer |
| `TaAuth.AuthorsOfRows` | Author/formats/ta_auth.py:110-122 | there is one tuple per row read |
| `TaAuth.TaAuth.constructor` | Author/formats/ta_auth.py:19-24 | a new formatter has an empty author list and the file names it was given |
| `TaAuth.TaAuth.ReadAuthor` | Author/formats/ta_auth.py:93-122 | skips the header row, then appends one tuple per row, in file order, after what the list held. A short row stops the read with `ShortRow` naming it, the earlier rows already appended. A file without rows is `EmptyFile` and changes nothing |
| `TaAuth.FirstAppearances` | Author/formats/ta_auth.py:141-146 | the names kept once each hold no duplicate and hold exactly the names of the walk |
| `TaAuth.Walk` | Author/formats/ta_auth.py:131-137 | the list `institutions` that the first loop builds: each author's names sorted, authors in list order. `SortAndNumberInstitutions` is proved to build it, and `WalkNames` proves it holds exactly the authors' names |
| `TaAuth.WalkCovers` | Author/formats/ta_auth.py:132-137 | every brace-group name of every author is met by the walk (one direction of `WalkNames`) |
| `TaAuth.WalkNames` | Author/formats/ta_auth.py:131-137 | a name is in the walk exactly when some author's institutions field holds it, so the walk adds no name of its own |
| `TaAuth.NumberingOf` | Author/formats/ta_auth.py:139-146 | the dictionary numbers the legend: its keys are the legend's names, and name `k` has value `k + 1` |
| `TaAuth.NumberingUnique` | Author/formats/ta_auth.py:139-146 | only one dictionary numbers a given legend, so the result is determined by the walk order |
| `TaAuth.NumberingIsBijection` | Author/formats/ta_auth.py:141-146 | the values are exactly 1..len(dict), and no two names share one |
| `TaAuth.NumberingStep` | Author/formats/ta_auth.py:143-146 | a new name gets the next number, and a name seen before leaves the dictionary unchanged |
| `TaAuth.FirstAppearanceOrder` | Author/formats/ta_auth.py:143-146 | one name has a smaller number than another exactly when the walk meets it first |
| `TaAuth.Lookups` | Author/formats/ta_auth.py:87-89 | `inst_dict[j]` for each name in order. `GetAuthorInstitutionNumbers` is proved to build it before sorting, and `LookupsSnoc` gives its loop step |
| `TaAuth.LookupsSnoc` | Author/formats/ta_auth.py:88-89 | one more lookup appends `inst_dict[j]` to the numbers so far |
| `TaAuth.AuthorNumbers` | Author/formats/ta_auth.py:87-91 | an author's numbers are ascending and a permutation of the lookups of the author's names |
| `TaAuth.Legend` | Author/formats/ta_auth.py:139-148 | the institutions in the order they are numbered. `NumberingOf` and `SortAndNumberInstitutions` show the dictionary gives legend name `k` the number `k + 1`, and `FirstAppearanceOrder` shows the legend is in order of first appearance |
| `TaAuth.NumbersOf` | Author/formats/ta_auth.py:76-91 | the numbers printed for author `i`: the list numbering's values for that author's names, sorted. `InstitutionNumbers` is proved to compute it, and `AuthorNumbersResolve` and `AuthorNumbersCover` prove it names exactly the author's institutions |
| `TaAuth.AuthorNumbersResolve` | Author/formats/ta_auth.py:76-91 | there is one number per brace group, and every number names a legend entry that is one of the author's institutions |
| `TaAuth.AuthorNumberResolves` | Author/formats/ta_auth.py:76-91 | one number of an author's line lies in 1..len(legend) and names one of that author's institutions |
| `TaAuth.AuthorNumbersCover` | Author/formats/ta_auth.py:87-91 | every institution of an author is in the legend, and the number the dictionary gives it is on the author's line |
| `TaAuth.NumbersOfLookups` | Author/formats/ta_auth.py:87-91 | an author's numbers are the dictionary's values for that author's names, in some order |
| `TaAuth.AuthorNamesNumbered` | Author/formats/ta_auth.py:131-148 | the dictionary holds every name of every author and is the list's numbering |
| `TaAuth.LookupIsNumbersOf` | Author/formats/ta_auth.py:87-91 | any ascending list of the author's lookups is the author's numbers |
| `TaAuth.WalkOnlyInstitutions` | Author/formats/ta_auth.py:132-137 | the walk looks at the institutions column only |
| `TaAuth.NumbersOnlyInstitutions` | Author/formats/ta_auth.py:132-137 | authors that agree on their institutions get the same legend and the same numbers |
| `TaAuth.NumberListRoundTrip` | Author/formats/plain_latex.py:60-66 | split on commas, the number list gives back exactly the decimal forms of the numbers, one piece per number, each denoting its number |
| `TaAuth.NumberListSnoc` | Author/formats/plain_latex.py:62-66 | one more number adds a comma, unless it is the first, then its digits |
| `TaAuth.AppendNumbers` | Author/formats/plain_latex.py:60-66 | the loop with the counter `i` appends the numbers joined by commas |
| `TaAuth.SplitInstitutions` | Author/formats/ta_auth.py:83-85 | the split-and-strip loop returns the field's names |
| `TaAuth.ItemsByNumber` | Author/formats/plain_latex.py:82 | the dictionary's items sorted by value: every entry, with strictly increasing numbers, item `k` being legend name `k` with number `k + 1` |
| `TaAuth.NumberedKey` | Author/formats/plain_latex.py:82 | the name a numbering gives number `n` is the legend's name `n` |
| `TaAuth.AppendEach` | Author/formats/ta_auth.py:136-137 | the names are appended in order |
| `TaAuth.NumberInOrder` | Author/formats/ta_auth.py:141-148 | the counter loop numbers the first appearances of the walk 1, 2, 3, … |
| `TaAuth.TaAuth.SortAndNumberInstitutions` | Author/formats/ta_auth.py:124-148 | returns the numbering of the first appearances in the walk (authors in order, each author's names sorted). Its keys are exactly the names that some author's field holds, and the author list is left unchanged |
| `TaAuth.TaAuth.GetAuthorInstitutionNumbers` | Author/formats/ta_auth.py:76-91 | succeeds exactly when every brace-group name is in the dictionary, with an ascending list, one entry per group, duplicates kept. Otherwise it is `KeyError` for the first missing name |
| `TaAuth.InstitutionNumbers` | Author/formats/plain_latex.py:57-58 | against the list's own numbering the lookup succeeds and gives the author's numbers |
| `PlainLatex.Statuses` | Author/formats/plain_latex.py:68-72 | the collected statuses are no more than the authors |
| `PlainLatex.StatusesPrefix` | Author/formats/plain_latex.py:68-72 | the statuses collected so far are a prefix of the final list |
| `PlainLatex.SymbolMatchesFootnote` | Author/formats/plain_latex.py:68-72 | an author with a status gets symbol k, with 1 <= k <= number of footnotes, and footnote k carries that author's status |
| `PlainLatex.StatusesSnoc` | Author/formats/plain_latex.py:68-72 | an author with a status appends it, and one without appends nothing |
| `PlainLatex.SymbolsConsecutive` | Author/formats/plain_latex.py:43-72 | the symbol counter goes up by one at each author with a status and stays put elsewhere, so the symbols are 1, 2, 3, … in author order |
| `PlainLatex.FootnoteOwner` | Author/formats/plain_latex.py:87-88 | every footnote belongs to an author marked with its symbol |
| `PlainLatex.AuthorLineSeparators` | Author/formats/plain_latex.py:49-75 | the last author line starts with `and ` and ends with the closing `}$` of its superscript, and every other line ends with a comma |
| `PlainLatex.AuthorLineOf` | Author/formats/plain_latex.py:48-76 | one author line: `and ` for the last author, initials, `~`, the surname with spaces turned to `~`, the comma-joined numbers in a superscript, the status symbol when there is a status, and a trailing comma except on the last line. `AuthorLineSeparators`, `ReplaceBack` and `NumberListRoundTrip` prove its parts can be told apart |
| `PlainLatex.AuthorLine` | Author/formats/plain_latex.py:47-77 | the line of author `i`: that author's numbers and, with a status, the counter value after that author. `SymbolMatchesFootnote` and `FootnoteOwner` tie the symbol to its footnote |
| `PlainLatex.AuthorLines` | Author/formats/plain_latex.py:47-77 | there is one author line per author |
| `PlainLatex.LegendLines` | Author/formats/plain_latex.py:82-84 | there is one legend line per institution |
| `PlainLatex.FootnoteLines` | Author/formats/plain_latex.py:87-88 | there is one footnote per collected status |
| `PlainLatex.Document` | Author/formats/plain_latex.py:35-91 | the whole printed output: header, author lines, legend in numbered order, blank line, footnotes, footer. `Dump` is proved to print it, and `DocumentLayout` places each part |
| `PlainLatex.DocumentLayout` | Author/formats/plain_latex.py:35-91 | the output has 10 fixed lines plus one per author, institution and status. Author line `i` is line `4 + i`, the legend gives `u[k]` the number `k + 1` in increasing order, and footnote `k + 1` follows the blank line |
| `PlainLatex.WriteAuthorAt` | Author/formats/plain_latex.py:47-77 | author `e`'s line is `AuthorLine(authors, e)`, and the counter is the number of statuses so far |
| `PlainLatex.WriteAuthors` | Author/formats/plain_latex.py:43-77 | the author loop writes every author's line in list order and collects the non-empty statuses in order |
| `PlainLatex.WriteLegend` | Author/formats/plain_latex.py:82-84 | the legend loop writes the institutions in increasing number |
| `PlainLatex.WriteFootnotes` | Author/formats/plain_latex.py:87-88 | the footnote loop writes footnote `i + 1` for status `i` |
| `PlainLatex.Dump` | Author/formats/plain_latex.py:26-91 | the printed lines are `Document(authorData)` |
| `Authblk.AuthorLineOf` | Author/formats/authblk.py:34-48 | one `\author[numbers]{initials~surname}` line, with `\footnote{status}` before the closing brace exactly when the status is non-empty. `AffiliationOfNumber` proves each bracket number names one of the author's institutions |
| `Authblk.AuthorLines` | Author/formats/authblk.py:33-49 | there is one `\author` line per author |
| `Authblk.AffilLines` | Author/formats/authblk.py:51-53 | there is one `\affil` line per institution |
| `Authblk.Document` | Author/formats/authblk.py:30-53 | the whole printed output: the two package lines, the author lines, the `\affil` lines in numbered order. `Dump` is proved to print it, and `DocumentLayout` places each part |
| `Authblk.DocumentLayout` | Author/formats/authblk.py:30-53 | the two package lines come first, then author `i` at line `2 + i`, then `\affil[k+1]{u[k]}` in increasing number |
| `Authblk.AffiliationOfNumber` | Author/formats/authblk.py:37-53 | each number in an author's bracket points at an `\affil` line whose institution is one of the author's |
| `Authblk.WriteAuthors` | Author/formats/authblk.py:33-49 | the author loop writes every author's line in list order |
| `Authblk.WriteAffiliations` | Author/formats/authblk.py:51-53 | the affiliation loop writes the institutions in increasing number |
| `Authblk.Dump` | Author/formats/authblk.py:24-53 | the printed lines are `Document(authorData)` |
| `Arxiv.Segment` | Author/formats/arxiv.py:21-33 | one author in the line: `initials surname (numbers)`. `LineIgnoresStatus` proves status and ORCID never reach it |
| `Arxiv.Segments` | Author/formats/arxiv.py:20-33 | there is one segment per author |
| `Arxiv.Entries` | Author/formats/arxiv.py:41-42 | there is one entry per institution |
| `Arxiv.ArxivLine` | Author/formats/arxiv.py:18-46 | the one printed line: the collaboration prefix, the segments joined by `, `, then the numbered institutions joined by `, ` in parentheses. `Dump` is proved to print exactly it, and `LineShape` proves where each part sits |
| `Arxiv.LineShape` | Author/formats/arxiv.py:19-46 | the line starts with `Telescope Array Collaboration: `, and the institution list comes last, inside ` (` … `)` |
| `Arxiv.LineIgnoresStatus` | Author/formats/arxiv.py:20 | the line does not depend on the status or ORCID columns |
| `Arxiv.AppendAuthors` | Author/formats/arxiv.py:18-36 | the author loop with `authnum` appends the segments separated by `, `, with none after the last |
| `Arxiv.AppendInstitutions` | Author/formats/arxiv.py:39-46 | the institution loop with `inst_count` appends `(n) name` in increasing `n`, separated by `, `, with none after the last |
| `Arxiv.Dump` | Author/formats/arxiv.py:12-48 | exactly one line is printed, and it is `ArxivLine(authorData)` |
| `Aastex.AuthorLine` | Author/formats/aastex.py:25-28 | `\author`, the ORCID in brackets only when it is non-empty, then `{initials surname}` |
| `Aastex.AffiliationLines` | Author/formats/aastex.py:36-39 | there is one `\affiliation` line per name |
| `Aastex.Block` | Author/formats/aastex.py:25-41 | the lines printed for one author. `BlockShape` states their order and `BlockBlanks` that only the last is empty |
| `Aastex.BlockShape` | Author/formats/aastex.py:25-41 | a block opens with `\author`, has the `\altaffiliation` line second when the status is non-empty, then one `\affiliation` per brace group in written order, then a blank line |
| `Aastex.BlanksAppend` | Author/formats/aastex.py:41 | the blank lines of two outputs add up |
| `Aastex.NoBlanks` | Author/formats/aastex.py:25-39 | lines that are all non-empty contribute no blank line |
| `Aastex.BlockBlanks` | Author/formats/aastex.py:25-41 | each block holds exactly one blank line, its last, whatever the fields hold |
| `Aastex.Document` | Author/formats/aastex.py:22-41 | the whole printed output, the authors' blocks in list order. `Dump` is proved to print it, and `DocumentBlanks` counts its blank lines |
| `Aastex.DocumentBlanks` | Author/formats/aastex.py:22-41 | the output holds exactly one empty printed line per author, the one that closes the author's block |
| `Aastex.AffiliationsOfBraceField` | Author/formats/aastex.py:36-39 | a field written as brace groups, with any spacing between each pair of groups, gives one `\affiliation` per name written, in order and unnumbered |
| `Aastex.AffiliationsInLegend` | Author/formats/aastex.py:36-39 | every affiliation printed is an institution of the numbered formatters' legend |
| `Aastex.WriteAffiliations` | Author/formats/aastex.py:36-39 | the nested loop writes one `\affiliation` per brace group, braces stripped |
| `Aastex.Dump` | Author/formats/aastex.py:22-41 | the printed lines are the authors' blocks in list order |

## Left out

- Standard output and files. The stdout redirection and the file opening and closing around every dump are not modelled (ta_auth.py:30-40, 44-51, 57-68; plain_latex.py:31-33, 93-95). A printed line becomes an element of the returned sequence. `plain_latex.dump`'s `fileName` parameter only redirects output, so `PlainLatex.Dump` omits it.
- `dumpPreamble`, `dumpAcknowledge`, `dumpFoot`, `dumpAuthor` and `ta_auth.dump`. They are I/O only: a `pass`, a file copy, one fixed line, and a tab-separated debug listing written with Python 2's `print` soft-space rules.
- CSV decoding. `TaAuth.TaAuth.ReadAuthor` takes the rows already split into fields. The file names kept by the constructor are not opened.
- The unused local `name` in `readAuthor` has no effect.
- `TaAuth.ItemsByNumber`: requires the dictionary to number its keys 1..n. Python sorts the items of any dictionary by value. Every caller passes the dictionary `sort_and_number_institutions` returned, which is such a numbering.
- `PlainLatex.WriteLegend`, `Authblk.WriteAffiliations`, `Arxiv.AppendInstitutions`, `TaAuth.InstitutionNumbers`: these require the same numbering, for the same reason.
- Printed lines are `print` calls, not lines of the output file. A quoted CSV cell can hold a newline, and `strip()` keeps inner ones, so a status such as `a\n\nb` prints as three lines of the file, one of them blank. `Aastex.DocumentBlanks`, `Aastex.BlockBlanks`, `PlainLatex.AuthorLines`, `Authblk.AuthorLines` and the other line counts count `print` calls; they do not hold for lines of the file when a field holds a newline.
- The generated LaTeX is reproduced as written, with no claim that it compiles. Two examples: the `\newcommand{\ssymbol[1]{…}` header line, and `\svthefootnote`, which nothing defines.
- Strings are sequences of characters. Python 2 reads the CSV as bytes, and for the code units involved the ordering and stripping agree.
- The rest of the repository is not part of this model: the wiki poster, the build script, the command-line driver and Google Drive download, the configuration constants, and the shift-analysis stub.
