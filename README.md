# bible: verse references, verse markup and verse selection

`bible` is a command-line Bible reader written in Go. Given a version, a book and a
reference such as `1:10-11`, `5` or `3:16`, it looks the verses up in a SQLite table and
prints them with their markup removed. This project models the three pieces of logic that
sit between the command line and the printed text, and proves their properties:

- **The reference parser** (`versesToInts`). It scans the reference one character at a
  time. Characters go into a chapter, a start or an end buffer; `:` and `-` move it from one
  buffer to the next. The buffers are then converted to numbers. Module `Reference` states
  the parser as a function (`Scan`, `Convert`, `Parse`). `Reference.VersesToInts` is the
  imperative loop, proved equal to that function. The number conversion (`strconv.Atoi`)
  is module `StrConv`.
- **The markup stripper** (`stripVerse`). It drops everything between `<` and `>`, the
  angle brackets themselves, every newline, and the spaces before the first kept
  character. Module `Markup` states this as `Strip`. `Markup.StripVerse` is the imperative
  loop, proved equal to it.
- **The verse store** (`versionExists`, `getBooks`, `bookExists`, `getVerses`). Module
  `VerseStore` models each connected version's table as its sequence of rows in stored
  order, and each SQL query as the filter its WHERE clause describes.
  `VerseStore.GetVerses` is the loop that collects the content of the selected rows.

Modules `Options` (an optional value) and `Seqs` (the subsequence relation and its lemmas)
are shared helpers. Modules `ReferenceExamples` and `MarkupExamples` work through the help
text's examples and one rejected input for each of the six errors that can occur. Each is
derived from the general lemmas.

Three behaviours of the code are worth stating directly:

- The stripper removes tags but keeps the text between them. So `<v>1</v>In the beginning`
  strips to `1In the beginning`: the verse number stays. See
  `MarkupExamples.ExampleVerseTags` and `Markup.TaggedVerse`.
- `getVerses` has no special case for chapter 0. Chapter 0 selects only the rows whose
  chapter is 0, not the whole book. See `VerseStore.WholeChapterSelection`.
- The branch at main.go:189-191 ("can't get to start before finding chapter") can never be
  taken. The scan stays in the chapter stage exactly until the first `:`. The model keeps
  the branch as a dead `assert false` and proves it unreachable
  (`Reference.StartBeforeChapterUnreachable`).

## Model

| member | source | states |
|---|---|---|
| StrConv.Atoi | main.go:222-245 | A conversion succeeds only on a non-empty string of digits, optionally after a sign `+` or `-` that is followed by at least one digit. The value is the digits' decimal value, negated after `-`. It lies in the 64-bit range and is non-negative unless the string starts with `-` |
| StrConv.AtoiOfDigitsOrRange | main.go:222-245 | An unsigned digit string converts if and only if its value fits a 64-bit int |
| StrConv.AtoiPlusSign | main.go:222-245 | A leading `+` before digits changes nothing |
| StrConv.AtoiMinusSign | main.go:222-245 | A leading `-` before digits negates the value. The value 2^63 is accepted after `-` only |
| StrConv.AtoiOfDigits | main.go:222-245 | A non-empty all-digit string within range converts to its decimal value |
| StrConv.AtoiOfNatToDigits | main.go:222-245 | The decimal spelling of every number in range converts back to that number |
| Reference.Message | main.go:187-242 | Definition, no contract: the seven error texts |
| Reference.MessageHasKey | main.go:187-242 | Each error text is longer than 28 characters; its length and its character at position 28 are the error's key |
| Reference.MessageIdentifies | main.go:187-242 | Two errors have the same text if and only if they are the same error |
| Reference.Step | main.go:185-215 | Definition, no contract: one iteration of the scan loop |
| Reference.ScanFrom | main.go:182-216 | Definition, no contract: the scan loop from a given state, stopping at the first error |
| Reference.Scan | main.go:182-216 | Definition, no contract: the scan loop from the initial state |
| Reference.Parse | main.go:171-248 | Definition, no contract: the scan, then the conversions |
| Reference.Convert | main.go:218-247 | An empty chapter buffer is a chapter error. A successful conversion of separator-free buffers gives three numbers between 0 and the largest int |
| Reference.StepConsistent | main.go:185-215 | One step from a consistent scan state never reports "can't get to start before finding chapter". It fails only with the second-colon, second-dash or dash-first errors, and otherwise stays consistent and buffers the character |
| Reference.ScanFromConsistent | main.go:182-216 | The scan loop keeps its invariant: stage "chapter" exactly while no `:` has been seen, stage "end" exactly once a `-` has been seen, no separator is buffered, and the buffers with the separators seen spell out the input |
| Reference.ScanSound | main.go:182-216 | A finished scan is consistent, and its buffers and separators reassemble into the input |
| Reference.StartBeforeChapterUnreachable | main.go:189-191 | No input makes the scan or the parser report "can't get to start before finding chapter" |
| Reference.ScanFromAppend | main.go:182-216 | Scanning a concatenation is scanning the first part and then, unless it failed, the second |
| Reference.ScanFromBuffer | main.go:207-215 | A run of characters without `:` or `-` is appended to the buffer of the current stage |
| Reference.ScanComplete | main.go:182-216 | Every consistent scan state is reached by scanning the string it spells out |
| Reference.ScanInverse | main.go:182-216 | Scanning v ends in state s if and only if s is consistent and spells out v |
| Reference.ParseAssembled | main.go:171-248 | Parsing the string a consistent state spells out converts that state's buffers |
| Reference.DigitsAreSeparatorFree | main.go:185-207 | Digit strings contain no separator |
| Reference.ParseThreeParts | main.go:171-248 | `c:s-e` with separator-free parts parses as the conversion of c, s and e |
| Reference.ParseTwoParts | main.go:171-248 | `c:s` with separator-free parts parses as the conversion of c, s and an empty end |
| Reference.ParseOnePart | main.go:171-248 | A separator-free string parses as the conversion of it as chapter with empty start and end |
| Reference.ConvertDigits | main.go:218-247 | Digit buffers within range convert to their values. An empty start gives 1 and an empty end gives 0 |
| Reference.FullReference | main.go:171-248 | `C:S-E` made of digits parses to chapter C, start S (1 if empty) and end E (0 if empty) |
| Reference.ChapterAndStart | main.go:227-228 | `C:S` parses to chapter C, start S (1 if empty, so `3:` gives 3, 1, 0) and end 0 |
| Reference.ChapterOnly | main.go:227-238 | A bare chapter parses to that chapter, start 1 and end 0 |
| Reference.SecondColon | main.go:185-187 | A second `:` after a clean scan is the "only need one ':'" error |
| Reference.SecondDash | main.go:196-198 | A second `-` after a clean scan is the "only need one '-'" error |
| Reference.DashBeforeColon | main.go:200-202 | A `-` before any `:` is the "can't get to end before finding start" error |
| Reference.PlusSignIgnored | main.go:222-245 | `c:+s-+e` parses the same as `c:s-e` for digit strings s and e, so `1:+2-+3` gives 1, 2, 3 |
| Reference.ConversionErrors | main.go:222-245 | A chapter that does not convert is the chapter error. Otherwise a non-empty start that does not convert is the start error. Otherwise a non-empty end that does not convert is the end error |
| Reference.ParseNonNegative | main.go:218-247 | A successful parse gives numbers between 0 and the largest int. Without `:` the start is 1 and the end 0; without `-` the end is 0 |
| Reference.FormatRoundTrip | main.go:171-248 | Writing a reference as `C:S-E` (or `C:S` for end 0) and parsing it gives the same reference back |
| Reference.NormalizationIdempotent | main.go:171-248 | Writing out a parsed reference and parsing it again gives the same result as the first parse |
| Reference.VersesToInts | main.go:171-248 | The imperative scan and conversion return the parse's numbers and no error on success. On every error they return that error's text with 0, 0, 0 |
| ReferenceExamples.ExampleVerseRange | main.go:22 | `1:10-11` parses to 1, 10, 11 |
| ReferenceExamples.ExampleChapter | main.go:22 | `5` parses to 5, 1, 0 |
| ReferenceExamples.ExampleSingleVerse | main.go:22 | `3:16` parses to 3, 16, 0 |
| ReferenceExamples.ExampleEmptyStart | main.go:227-228 | `3:` parses to 3, 1, 0 |
| ReferenceExamples.ExampleSecondColon | main.go:185-187 | `1:1:1` is the second-colon error |
| ReferenceExamples.ExampleDashFirst | main.go:200-202 | `1-2:3` is the "can't get to end before finding start" error |
| ReferenceExamples.ExampleSecondDash | main.go:196-198 | `1:2-3-4` is the second-dash error |
| ReferenceExamples.ExampleMalformedChapter | main.go:222-225 | The empty reference and ` 5` are chapter errors, since no trimming is done |
| ReferenceExamples.ExampleMalformedStart | main.go:230-233 | `1:x` is the start error |
| ReferenceExamples.ExampleMalformedEnd | main.go:240-243 | `1:2-x` is the end error |
| Markup.InsideTagAfter | main.go:147-151 | Definition, no contract: the `started` flag after a prefix of the verse |
| Markup.Visible | main.go:143-154 | Definition, no contract: the characters outside tags, without brackets and newlines |
| Markup.Strip | main.go:135-168 | Definition, no contract: the visible text without its leading spaces |
| Markup.TrimLeadingSpaces | main.go:155-157 | Dropping the spaces before the first kept character leaves a result that is empty or starts with a non-space, and is no longer than its input |
| Markup.TrimIsSuffix | main.go:155-157 | What remains after dropping the leading spaces is a suffix of the input |
| Markup.TrimAppend | main.go:155-163 | Appending a character to kept text either keeps it or, while nothing is kept yet, drops it if it is a space |
| Markup.StripStep | main.go:140-165 | One loop step: `<` opens a tag and `>` closes one. A newline, a bracket, a tag character or a leading space adds nothing; any other character is appended |
| Markup.VisibleMarkupFree | main.go:143-154 | The visible text contains no `<`, `>` or newline |
| Markup.StripMarkupFree | main.go:135-168 | The stripped verse contains no `<`, `>` or newline |
| Markup.StripNoLeadingSpace | main.go:155-157 | The stripped verse is empty or does not start with a space |
| Markup.VisibleSubsequence | main.go:140-165 | The visible text is the input with characters removed, order kept |
| Markup.TrimSubsequence | main.go:155-157 | Dropping leading spaces keeps a subsequence a subsequence |
| Markup.StripSubsequence | main.go:135-168 | The stripped verse is a subsequence of the input, so it is no longer than it |
| Markup.VisiblePlainText | main.go:154-163 | Text without markup is kept whole and leaves no tag open |
| Markup.VisibleAppend | main.go:140-165 | Outside a tag, the visible text of a concatenation is the visible text of its parts |
| Markup.InsideOpenTag | main.go:147-154 | After a `<` and no `>`, nothing more is kept and a tag is open |
| Markup.TagDropped | main.go:147-154 | A complete tag `<...>` is removed and the text around it is kept in order |
| Markup.TrimSpacesBefore | main.go:155-157 | Leading spaces before text that starts with a non-space are all dropped |
| Markup.TaggedVerse | main.go:135-168 | Stripping leading spaces, a tag, the verse number, a tag and the text gives the verse number followed by the text |
| Markup.StripPlainText | main.go:135-168 | On text without markup, stripping only drops the leading spaces |
| Markup.StripIdempotent | main.go:135-168 | Stripping a stripped verse changes nothing |
| Markup.StripVerse | main.go:135-168 | The imperative loop returns exactly the stripped verse |
| MarkupExamples.ExampleVerseTags | main.go:135-168 | `  <v>1</v>In` strips to `1In` |
| MarkupExamples.ExampleNewline | main.go:143-145 | `a\nb` strips to `ab` |
| VerseStore.VersionExists | main.go:65-68 | Definition, no contract: the version has a connection. `GetBooks` and `BookExists` state what follows from it |
| VerseStore.Books | main.go:93-105 | Definition, no contract: the distinct books of a table, in first-occurrence order |
| VerseStore.BooksMembership | main.go:93-105 | The book list of a table names exactly the books some row belongs to |
| VerseStore.BooksDistinct | main.go:93 | The book list names no book twice |
| VerseStore.GetBooks | main.go:86-108 | An unconnected version is the "'v' isn't a supported version" error. A connected one gives exactly the books of its table |
| VerseStore.BookExists | main.go:69-84 | An unconnected version has no books. For a connected version a book exists if and only if some row of its table belongs to it |
| VerseStore.Matches | main.go:115-117 | Definition, no contract: the two WHERE clauses |
| VerseStore.ChooseQuery | main.go:114-118 | A zero start or end selects the whole chapter of the book; otherwise only the verses from start to end inclusive |
| VerseStore.Select | main.go:119-129 | Definition, no contract: the matching rows, in stored order |
| VerseStore.Contents | main.go:125-129 | The content column has one entry per row, in the rows' order |
| VerseStore.SelectCount | main.go:110-132 | A query returns every matching row as often as it is stored and no row that does not match |
| VerseStore.SelectMembership | main.go:110-132 | A row is returned if and only if it is stored and matches the query |
| VerseStore.SelectInOrder | main.go:110-132 | The returned rows keep the table's order |
| VerseStore.SelectNarrower | main.go:114-118 | A query that accepts fewer rows returns a subsequence of what a wider one returns |
| VerseStore.RangeWithinChapter | main.go:114-118 | Any verse range returns a subsequence of its whole chapter, same order |
| VerseStore.ReversedRangeEmpty | main.go:117 | A range whose end is below its start (both non-zero) returns no rows |
| VerseStore.WholeChapterSelection | main.go:114-115 | With a zero start or end, a row is returned if and only if it is stored under that book and chapter. Chapter 0 gets no special case |
| VerseStore.RangeSelection | main.go:116-117 | With both bounds non-zero, a row is returned if and only if it is stored under that book and chapter with a verse between the bounds inclusive |
| VerseStore.GetVerses | main.go:110-132 | The loop returns the content of the selected rows, in the order the query returns them |

## Left out

- Command-line flags, the help text, `main`, listing versions, languages and books, and all
  printing are I/O around the core and are not modelled. This includes `main` going on to
  select with 0, 0, 0 after a reference error (main.go:312-314).
- Opening the SQLite database (`loadDatabases`) is left out. The registry of connected
  versions is a parameter. The `"kjv"` entry, whose connection is a nil `*sql.DB`, is not
  modelled: a query on it (main.go:94, 119) panics with a nil-pointer dereference.
- The SQL text, the driver and `Scan` of each row are replaced by the filter the WHERE clause
  describes. SQLite's numeric comparison of `chapter='%d'` is modelled as integer equality.
- A failing query is not modelled: the model's store always answers. Because of this,
  `getBooks` and `getVerses` have no database-error result, and `bookExists` has no
  false-on-error path.
- VerseStore.GetVerses: requires the version to be connected, as `main` checks before calling
  it (main.go:299-302). On an unknown version the map lookup yields a nil `*sql.DB`, and the
  query panics.
- VerseStore.Select: the order of rows that SQL returns without `ORDER BY` is not specified.
  The model takes stored order. `SELECT DISTINCT book` is modelled as first-occurrence order.
- A book name containing a quote changes the SQL text, because the name is pasted into the
  query. This is not modelled: the model matches the name literally.
- StrConv.Atoi: models Go's `strconv.Atoi` on a 64-bit `int`: an optional sign, at least one
  ASCII digit, and an error outside the 64-bit range. Underscores and base prefixes are not
  accepted by `Atoi` either.
- Strings are sequences of characters, where Go indexes bytes. Both loops take `v[i]`, one
  byte, and convert it with `string(v[i])`, which reads the byte as a code point. A byte of
  0x80 or above therefore becomes a two-byte UTF-8 sequence. So Go's `stripVerse` turns
  `é` (bytes C3 A9) into `Ã©`, while `Markup.Strip` keeps `é` unchanged. This re-encoding is
  not modelled. The parser is not affected: such a byte is never a digit or a separator, so
  it gives the same error either way.
