# FacultyScheduler office hours: a verified model

FacultyScheduler is a one-screen desktop form. A user types a year, picks a
semester from a drop-down (Spring, Summer, Fall, Winter) and ticks weekday
boxes (Monday to Friday). On Submit, the controller does four things:

- it checks the input;
- it builds the days text (`"Monday, Wednesday"`);
- it appends one line `year,semester,"days"` to `officeHours.csv`;
- it reads the whole file back into a table sorted newest year first, then by semester rank.

While the user types, the year field removes every non-digit.

This project models that logic of `OfficeHoursController` in Dafny, and proves what the
controller promises about it. The modules follow the path from submit to display:

| module | file | what it holds |
|---|---|---|
| `JavaText` | `java_text.dfy` | the Java library behaviour the controller relies on, written out character by character: `\d` (ASCII digits), `replaceAll("[^\\d]","")`, `String.trim`, `Integer.parseInt` (sign, digits, 32-bit range) |
| `Records` | `records.dfy` | the entry (three strings) and the two fixed vocabularies |
| `Form` | `form.dfy` | the form at submit time, the submit guard, the `StringBuilder` days text (a method), the year field and its listener (a class) |
| `CsvLine` | `csv_line.dfy` | the line encoder; the regex split, restated as quote-parity counting; the quote strip; the decoder; the round trip |
| `Ordering` | `ordering.dfy` | `TrackSemester`, the comparator, and `List.sort` as a stable insertion sort with sortedness, permutation and stability proved |
| `Store` | `store.dfy` | the CSV file as a class: whether it exists, plus its lines; `Append`, and `Load` with its read loop |
| `Controller` | `controller.dfy` | the submit handler, and what a submit leads to end to end |

Choices that follow the code:

- **The split is quote parity.** The split regex `,(?=([^"]*"[^"]*")*[^"]*$)` with limit -1 cuts at exactly the commas followed by an even number of `"` up to the end of the line. A comma inside a quoted span is not cut. The test is done on the rest of the line, not by scanning quotes from the left, so the two readings differ on lines with an odd number of quotes. The model keeps what the regex does.
- **The trailing-quote strip follows Java's `$`.** `replaceAll("^\"|\"$","")` removes one leading quote and one trailing quote. Java's `$` also matches before a final line terminator, so a quote followed by one final terminator (or by `"\r\n"`) is removed too. `StripQuotes` models that.
- **One error for all bad input.** The controller shows a single "Input Error" dialog for every rejected submit (`Submission.Rejected`, `SubmitOutcome.InputError`). It does not report missing semester, bad year and no days as separate errors.
- **Bad years make the sort throw.** The comparator calls `Integer.parseInt` on both years of every comparison. A year that does not parse therefore throws an uncaught `NumberFormatException` out of the load. A sort of two or more entries compares every entry at least once; a sort of fewer compares nothing. So `LoadOf` gives `NumberFormatError` exactly when there are at least two entries and some year does not parse.

## Model

Paths are relative to the repository root.

| member | source | states |
|---|---|---|
| JavaText.RemoveNonDigits | src/main/java/s25/cs151/application/OfficeHoursController.java:32 | the filtered text holds only ASCII digits and is no longer than the input |
| JavaText.RemoveNonDigitsKeepsDigits | src/main/java/s25/cs151/application/OfficeHoursController.java:31-32 | a text matching `\d*` passes the filter unchanged |
| JavaText.RemoveNonDigitsMembers | src/main/java/s25/cs151/application/OfficeHoursController.java:32 | a character survives the filter exactly when it is a digit of the input |
| JavaText.RemoveNonDigitsAppend | src/main/java/s25/cs151/application/OfficeHoursController.java:32 | the filter works piece by piece: it distributes over concatenation |
| JavaText.TrimStart | src/main/java/s25/cs151/application/OfficeHoursController.java:165 | the result is a suffix of the input, does not start with a character up to U+0020, and only such characters were removed |
| JavaText.TrimEnd | src/main/java/s25/cs151/application/OfficeHoursController.java:165 | the result is a prefix of the input, does not end with a character up to U+0020, and only such characters were removed |
| JavaText.TrimIgnoresPadding | src/main/java/s25/cs151/application/OfficeHoursController.java:165 | characters up to U+0020 added on either side do not change what trim yields |
| JavaText.TrimUnpadded | src/main/java/s25/cs151/application/OfficeHoursController.java:165 | a text with no such character at either end is its own trim |
| JavaText.Trim | src/main/java/s25/cs151/application/OfficeHoursController.java:165 | the trimmed text neither starts nor ends with a character up to U+0020, and it is a slice of the input with only such characters on either side of it |
| JavaText.ParseInt | src/main/java/s25/cs151/application/OfficeHoursController.java:151-152 | a text that parses is non-empty, and its value lies in the 32-bit int range |
| JavaText.ParseIntOfNumeral | src/main/java/s25/cs151/application/OfficeHoursController.java:151-152 | an optional sign followed by at least one digit parses to its signed decimal value when that value fits in an int, and throws otherwise |
| JavaText.ParseIntRejectsNonDigit | src/main/java/s25/cs151/application/OfficeHoursController.java:151-152 | a text holding any character other than a digit, apart from a leading sign, throws |
| JavaText.ParseIntRejectsNoDigits | src/main/java/s25/cs151/application/OfficeHoursController.java:151-152 | the empty text and a lone sign throw |
| JavaText.FourDigitsParse | src/main/java/s25/cs151/application/OfficeHoursController.java:70 | a year that passes the `\d{4}` guard always parses, to its decimal value between 0 and 9999 |
| Form.SelectedNamesExact | src/main/java/s25/cs151/application/OfficeHoursController.java:80-85 | a day is named exactly when its box is checked, and the names run strictly Monday to Friday, so none repeats |
| Form.SelectedNamesNonEmpty | src/main/java/s25/cs151/application/OfficeHoursController.java:71-72 | some day is named exactly when some box is checked |
| Form.DaysTextFacts | src/main/java/s25/cs151/application/OfficeHoursController.java:80-87 | the days text is empty exactly when no box is checked, and it never contains a quote |
| Form.BuildSelectedDays | src/main/java/s25/cs151/application/OfficeHoursController.java:80-87 | appending each checked day with ", " and then cutting the last two characters gives exactly the checked names joined by ", ", with no trailing separator |
| Form.InputRejected | src/main/java/s25/cs151/application/OfficeHoursController.java:70-72 | the guard as written rejects exactly when no semester is chosen, the year is not four digits, or no day is checked: its empty-text test adds nothing |
| Form.Validate | src/main/java/s25/cs151/application/OfficeHoursController.java:70-91 | a submit is rejected exactly when no semester is chosen, the year is not four digits, or no day is checked; otherwise the entry holds the typed year, the chosen semester and the days text, and is well-formed |
| Form.YearField.constructor | src/main/java/s25/cs151/application/OfficeHoursController.java:28 | a new year field is empty |
| Form.YearField.Edit | src/main/java/s25/cs151/application/OfficeHoursController.java:30-34 | after any edit the field holds only digits, namely the digits of the edit in order; an all-digit edit is kept as typed |
| CsvLine.EncodeLine | src/main/java/s25/cs151/application/OfficeHoursController.java:126 | the line holds a line break exactly when a field does, so an entry without one stays a single line |
| CsvLine.SeparatorIsLookahead | src/main/java/s25/cs151/application/OfficeHoursController.java:140 | `IsSeparator` holds at a comma exactly when the regex's lookahead, read as its grammar, matches the rest of the line |
| CsvLine.LookaheadIsEvenQuotes | src/main/java/s25/cs151/application/OfficeHoursController.java:140 | the lookahead `([^"]*"[^"]*")*[^"]*$` matches a text exactly when it holds an even number of quotes |
| CsvLine.PairIsOddQuotes | src/main/java/s25/cs151/application/OfficeHoursController.java:140 | the rest of a quote pair, followed by matching text, holds an odd number of quotes |
| CsvLine.FirstSeparator | src/main/java/s25/cs151/application/OfficeHoursController.java:140 | the position found is the first comma at or after the start point followed by an even number of quotes, or the end of the line |
| CsvLine.Split | src/main/java/s25/cs151/application/OfficeHoursController.java:140 | the split always yields at least one field, trailing empty fields included |
| CsvLine.SplitSpec | src/main/java/s25/cs151/application/OfficeHoursController.java:140 | joining the fields with "," restores the line; there is one field more than the separating commas; the text after each cut holds an even number of quotes |
| CsvLine.SplitWhole | src/main/java/s25/cs151/application/OfficeHoursController.java:140 | a line with no separating comma is one field |
| CsvLine.SplitAtFirst | src/main/java/s25/cs151/application/OfficeHoursController.java:140 | a comma-free first field followed by a comma and a rest with an even number of quotes is cut exactly there |
| CsvLine.StripQuotes | src/main/java/s25/cs151/application/OfficeHoursController.java:144 | at most two characters are removed, and a text without quotes is left unchanged |
| CsvLine.StripQuotesRemovesEndQuote | src/main/java/s25/cs151/application/OfficeHoursController.java:144 | `LeadingQuote(p)` is 1 when the text starts with a quote and 0 otherwise; when a quote at a position k at or after it has Java's `$` matching right after it (at the end, before one final line terminator, or before a final "\r\n"), the result is the text without its leading quote and without position k, every other character kept in order |
| CsvLine.StripQuotesKeepsTail | src/main/java/s25/cs151/application/OfficeHoursController.java:144 | when no quote at or after position `LeadingQuote(p)` (1 for a leading quote, 0 otherwise) has Java's `$` matching after it, only the leading quote, if any, is removed |
| CsvLine.StripQuotesOfQuoted | src/main/java/s25/cs151/application/OfficeHoursController.java:144 | stripping a quoted text gives back exactly the text inside the quotes |
| CsvLine.DecodeLine | src/main/java/s25/cs151/application/OfficeHoursController.java:140-146 | a line gives an entry exactly when it holds two separating commas; otherwise it is skipped |
| CsvLine.QuotedHasNoSeparator | src/main/java/s25/cs151/application/OfficeHoursController.java:126 | no comma inside the quoted days field is a cut point |
| CsvLine.EncodeLineSplit | src/main/java/s25/cs151/application/OfficeHoursController.java:126 | an encodable entry's line splits into its year, its semester and its quoted days |
| CsvLine.RoundTrip | src/main/java/s25/cs151/application/OfficeHoursController.java:126 | decoding the line written for an encodable entry gives back that entry |
| CsvLine.SeparatorCountAppend | src/main/java/s25/cs151/application/OfficeHoursController.java:140 | how many cuts a quote-free prefix adds depends only on its commas and on the parity of the quotes after it |
| CsvLine.RoundTripExactly | src/main/java/s25/cs151/application/OfficeHoursController.java:126 | for entries without quotes, the round trip succeeds exactly when neither year nor semester holds a comma; otherwise the line is skipped on reading |
| Ordering.NameRank | src/main/java/s25/cs151/application/OfficeHoursController.java:165-171 | the rank is between 0 and 4; it is 0 exactly for a name that is not a semester; a positive rank picks out the name's place in the drop-down, counted from Winter |
| Ordering.SemesterRank | src/main/java/s25/cs151/application/OfficeHoursController.java:164-172 | the rank is between 0 and 4; it is 0 exactly when the trimmed name is not a semester; a positive rank picks out the trimmed name's place in the drop-down |
| Ordering.RankIgnoresPadding | src/main/java/s25/cs151/application/OfficeHoursController.java:165 | blanks and control characters around a semester name do not change its rank |
| Ordering.RankOfSemester | src/main/java/s25/cs151/application/OfficeHoursController.java:164-172 | Spring ranks 4, Summer 3, Fall 2, Winter 1 |
| Ordering.IntegerCompare | src/main/java/s25/cs151/application/OfficeHoursController.java:153-154 | the sign of the result tells whether x is smaller than, equal to or greater than y |
| Ordering.Compare | src/main/java/s25/cs151/application/OfficeHoursController.java:150-155 | the comparator agrees with the key comparison on (year value, semester rank) |
| Ordering.KeyCompare | src/main/java/s25/cs151/application/OfficeHoursController.java:153-154 | a key comes first when its year is later, or the year is the same and its rank is higher; it ties only with an equal key |
| Ordering.KeyCompareIsTotalPreorder | src/main/java/s25/cs151/application/OfficeHoursController.java:150-155 | the comparator is reflexive, sign-antisymmetric, total and transitive, as the sort demands |
| Ordering.Insert | src/main/java/s25/cs151/application/OfficeHoursController.java:150 | inserting into a sorted list keeps it sorted and adds exactly the one element |
| Ordering.InsertHeadFirst | src/main/java/s25/cs151/application/OfficeHoursController.java:150 | the head of a sorted list precedes every element of what comes after it |
| Ordering.StableSort | src/main/java/s25/cs151/application/OfficeHoursController.java:150-155 | the sorted list is in display order and is a permutation of the input |
| Ordering.InsertIsStable | src/main/java/s25/cs151/application/OfficeHoursController.java:150 | insertion keeps the order of every group of equal keys and puts the new element last in its group |
| Ordering.StableSortIsStable | src/main/java/s25/cs151/application/OfficeHoursController.java:150-155 | stability: entries with equal year and rank keep their file order |
| Ordering.StableSortKeeps | src/main/java/s25/cs151/application/OfficeHoursController.java:150 | sorting loses no element |
| Ordering.StableSortShort | src/main/java/s25/cs151/application/OfficeHoursController.java:150 | a list of fewer than two entries is left as it is |
| Store.DecodeAll | src/main/java/s25/cs151/application/OfficeHoursController.java:139-147 | reading yields at most one entry per line |
| Store.DecodeAllAppend | src/main/java/s25/cs151/application/OfficeHoursController.java:139-147 | lines are decoded independently, in file order |
| Store.DecodeAllMembers | src/main/java/s25/cs151/application/OfficeHoursController.java:139-147 | an entry is read exactly when some line decodes to it |
| Store.MalformedLineSkipped | src/main/java/s25/cs151/application/OfficeHoursController.java:141 | a line without exactly three fields adds nothing and raises nothing |
| Store.CsvFile.constructor | src/main/java/s25/cs151/application/OfficeHoursController.java:134-135 | the file starts as given, and a missing file has no lines |
| Store.CsvFile.Append | src/main/java/s25/cs151/application/OfficeHoursController.java:123-130 | the file then exists and holds its earlier lines unchanged, followed by exactly the entry's encoded line |
| Store.CsvFile.Load | src/main/java/s25/cs151/application/OfficeHoursController.java:132-161 | the read loop and sort give exactly the specified load result for the file's current state, and change nothing |
| Store.LoadOf | src/main/java/s25/cs151/application/OfficeHoursController.java:132-155 | a missing file loads as an empty table; the load fails exactly on an unparsable year among two or more entries; otherwise the table is in display order and is a permutation of the entries of the well-formed lines |
| Store.LoadKeepsTiesInFileOrder | src/main/java/s25/cs151/application/OfficeHoursController.java:150-155 | entries of a loaded table with the same year value and semester rank keep the order of their lines in the file |
| Store.DecodeAllOfEncoded | src/main/java/s25/cs151/application/OfficeHoursController.java:126 | a file written only by appends of encodable entries reads back as exactly those entries, in order |
| Store.LoadOfSubmitted | src/main/java/s25/cs151/application/OfficeHoursController.java:132-155 | such a file with four-digit years never makes the sort throw, and loads as its entries in display order |
| Store.LoadAfterAppend | src/main/java/s25/cs151/application/OfficeHoursController.java:123-155 | after appending one more such entry, the reloaded table is all the entries in display order, the new one included |
| Controller.OnSubmit | src/main/java/s25/cs151/application/OfficeHoursController.java:69-98 | a rejected submit changes nothing; an accepted one appends exactly the validated entry's line and shows the table loaded from the new file |
| Controller.SemesterIsPlain | src/main/java/s25/cs151/application/OfficeHoursController.java:37 | no drop-down item holds a comma or a quote |
| Controller.AcceptedIsStorable | src/main/java/s25/cs151/application/OfficeHoursController.java:70-91 | an entry accepted with a drop-down semester survives the line format unchanged and has a parsable year |
| Controller.SubmitShowsEntry | src/main/java/s25/cs151/application/OfficeHoursController.java:69-98 | on a file written only by earlier submits, a new submit never crashes the load, and the table shows every submitted entry, the new one included, in display order |

## Left out

- The JavaFX UI is not modelled: the window layout and styles, `showAlert`, the confirmation dialog, and `displayTableView`/`createTableView`, which render the table. The form is a snapshot of its widgets at submit time (`FormSnapshot`), and the table is the `LoadResult` a submit yields.
- The guard reads the drop-down's value, and the entry takes the drop-down's selected item. For the non-editable drop-down these are the same, so one `Option<string>` stands for both.
- Real file I/O is replaced by the `CsvFile` class: an exists flag and the list of lines.
  - Not modelled: the `IOException` paths (a failed append only prints a stack trace, a failed read keeps the entries read so far), and the `RuntimeException` wrap of `FileNotFoundException`.
  - Not modelled: `readLine` splitting a stored field that contains a line break. `EncodeLine` states when a line break can occur, but no entry the form accepts contains one.
  - Not modelled: a file whose last line has no line terminator.
  - Not modelled: the platform line separator.
- JavaText.ParseInt: only ASCII digits are accepted. `Integer.parseInt` also accepts other Unicode decimal digits. This matters only for hand-edited files.
- Ordering.YearValue gives 0 for a year that does not parse. That value is never compared, because such a load ends in `NumberFormatError`.
- Ordering.StableSort: `List.sort` is a stable library sort. The model sorts by insertion instead, which gives the same result: a stable sort by the same comparator has only one possible output.
- Concurrent writers and several processes sharing the file are out of scope; the controller runs on the UI thread only.
