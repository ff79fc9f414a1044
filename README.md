# Personal library manager — record operations in Dafny

This project models the record operations of a single-file personal library
catalog written in Python (`library_manager.py`). The library is an ordered
list of book records (title, author, year, genre, read flag) that the menu
loop owns and that `add_book` and `remove_book` change in place. The model
covers:

- `add_book`: title, author and genre are stripped; the year is asked for
  until an answer parses as an integer and is not negative; the read flag is
  true exactly for the answers "yes" and "y" in any case; the record is
  appended.
- `remove_book`: every record whose lower-cased title equals the stripped,
  lower-cased answer is deleted; the count removed is the drop in length.
- `search_books`: mode "1" keeps the records whose lower-cased title contains
  the lower-cased term, mode "2" does the same on the author, and any other
  mode keeps nothing.
- `display_books`: one line per record, numbered from 1, ending in "Read" or
  "Unread".
- `show_statistics`: the total, the read count and the percentage read,
  which is 0 for an empty library.
- one turn of `main`'s menu dispatch.

Files:

- `wrappers.dfy` — module `Wrappers`: the `Option` type.
- `text.dfy` — module `Text`: what the Python code takes from its string
  library, on ASCII: `str.lower`, `str.strip`, the substring test `in`, and
  decimal integers as `int()` reads them and f-strings print them.
- `catalog.dfy` — module `Catalog`: the `Book` record, the year and read
  answers, a generic order-preserving `Filter` (the list comprehension and
  the search loop), the class `Library` holding the list as a `seq<Book>`
  field with the two mutating methods, search, display and statistics.
- `menu.dfy` — module `Menu`: `Dispatch`, one pass of the menu loop.

Modelling choices:

- The `input()` calls become parameters. The year prompt takes the whole
  sequence of answers the user would type (`yearAnswers`). If every one is
  rejected, the Python function never returns. The model then appends
  nothing and `AddBook` returns `false`.
- `int()` is modelled as: skip the whitespace `int()` skips (space, TAB,
  LF, VT, FF, CR) at both ends, allow one optional `+` or `-`, then require
  one or more ASCII digits. `-0` is therefore admitted as 0, as in Python.
  `str.strip()` drops more: it also removes the separators 0x1C-0x1F, which
  `int()` rejects. The model keeps the two sets apart (`IsSpace` and
  `IsIntSpace`), and both go through one trimming function, `Trim`.
- The percentage is an exact `real`, `read_count / total * 100`. It is not a
  floating-point value.
- The read answer is lower-cased but not stripped (`" yes"` is unread). The
  search term is lower-cased but not stripped. The search mode and the menu
  choice are compared exactly (`" 1"` is not `"1"`). All of this follows the
  code.
- The year prompt's error message asks for a "positive integer", but the
  code admits 0. The model follows the code.

## Model

| member | source | states |
|---|---|---|
| Text.Lower | library_manager.py:49 | `str.lower()` on ASCII: same length, each character lowered |
| Text.LowerChar | library_manager.py:57 | the result is never an upper-case letter; a capital becomes the small letter at the same place in the alphabet, and every other character is kept |
| Text.LowerCharEqual | library_manager.py:60-61 | two characters are equal once lowered exactly when they are the same letter up to case, or equal |
| Text.LowerEqual | library_manager.py:57-61 | two texts are equal once lowered exactly when they have the same length and agree character by character up to case, so "Dune" and "Rune" differ |
| Text.LowerIdempotent | library_manager.py:57 | lowering twice is lowering once |
| Text.IsSpace | library_manager.py:31-34 | the ASCII characters `str.strip()` drops: space, TAB, LF, VT, FF, CR and the separators 0x1C-0x1F |
| Text.IsIntSpace | library_manager.py:41 | the ASCII characters `int()` skips around a number: space, TAB, LF, VT, FF, CR |
| Text.Trim | library_manager.py:31-34 | the result is no longer than the input and neither end is one of the dropped characters |
| Text.Strip | library_manager.py:31-34 | `str.strip()`: the result is no longer than the input and neither end is whitespace |
| Text.TrimSlices | library_manager.py:57 | trimming removes only the dropped characters, and only at the two ends; the result is a contiguous slice of the input |
| Text.StripIdempotent | library_manager.py:31 | stripping twice is stripping once |
| Text.Contains | library_manager.py:80-82 | Python's substring test `in`: the needle is a prefix of the text or of one of its suffixes |
| Text.ContainsOccurs | library_manager.py:80 | the left-to-right substring scan succeeds exactly when the term occurs at some index |
| Text.NatToString | library_manager.py:95-96 | a year or number prints as a non-empty string of digits whose first digit is 0 only for "0" itself |
| Text.NatToStringValue | library_manager.py:95-96 | the printed digits have the printed number as their value |
| Text.ParseInt | library_manager.py:41 | `int()`: once `int()`'s whitespace is skipped, an accepted answer is a digit or a sign followed by digits only, and ends in a digit; a negative value needs a leading minus sign |
| Text.ParseIntRejectsSeparator | library_manager.py:41 | text that starts with one of the separators 0x1C-0x1F is rejected, although `str.strip()` would drop it |
| Text.ParseIntNat | library_manager.py:41 | `int()` reads a printed non-negative number back as itself |
| Text.ParseIntNegative | library_manager.py:41 | `int()` reads `-` followed by a printed number as its negation |
| Text.ParseIntNeedsDigit | library_manager.py:41 | `int()` rejects any text without a digit |
| Catalog.Filter | library_manager.py:60-61 | a comprehension with a condition keeps the passing elements in their order, and never more than the list holds |
| Catalog.FilterSound | library_manager.py:60-61 | everything a filter keeps comes from the list and passes the test |
| Catalog.FilterComplete | library_manager.py:60-61 | a filter keeps everything in the list that passes the test |
| Catalog.FilterConcat | library_manager.py:79-83 | filtering a concatenation is concatenating the filtered parts, so order is kept |
| Catalog.FilterSplit | library_manager.py:60-63 | a test and its negation split the list between them, so their counts add up to the length |
| Catalog.ValidateYear | library_manager.py:41-44 | the year answer is admitted exactly when `int()` accepts it and the value is not negative; the admitted year is that value |
| Catalog.YearAcceptsNumber | library_manager.py:41-44 | every non-negative decimal year is admitted as itself |
| Catalog.YearRejectsNegative | library_manager.py:42-43 | a negative year is rejected, although `int()` accepts it |
| Catalog.YearRejectsNonNumeric | library_manager.py:45-46 | an answer without a digit is rejected |
| Catalog.YearRejectsSeparator | library_manager.py:41-46 | an answer starting with one of the separators 0x1C-0x1F is rejected and asked again |
| Catalog.YearRejectsJunk | library_manager.py:41-46 | an answer holding, anywhere, a character that is not a digit, a sign or the whitespace `int()` skips is rejected |
| Catalog.YearRejectsExamples | library_manager.py:41-46 | "19a5", "1965 AD" and "1 965" are rejected |
| Catalog.YearOf1965 | library_manager.py:41-44 | "1965" is admitted as 1965 |
| Catalog.YearOfMinusThree | library_manager.py:42-46 | "-3" is rejected |
| Catalog.FirstValidYear | library_manager.py:39-46 | the year stored is the first admitted answer; none when every answer is rejected |
| Catalog.AnswersRead | library_manager.py:39-46 | the prompt reads at most the answers given |
| Catalog.FirstValidYearIsFirst | library_manager.py:39-46 | the stored year is the last answer read, every earlier answer was rejected, and with no admitted answer all answers were read and rejected |
| Catalog.FirstValidYearSkipsRejected | library_manager.py:39-46 | rejected answers do not influence the year; the answers after them decide it |
| Catalog.ReadYear | library_manager.py:39-46 | the retry loop returns the first admitted year and reads exactly the answers up to it |
| Catalog.IsYesAnswer | library_manager.py:49-50 | the read flag is set when the lowered answer is "yes" or "y" |
| Catalog.YesAnswerCases | library_manager.py:49-50 | the read flag is true exactly for "y" or "yes" in any mix of case |
| Catalog.YesAnswerExamples | library_manager.py:49-50 | "YES", "y", "Yes" mean read; "", "no", " yes", "yeah" mean unread, with no re-prompt |
| Catalog.Library.constructor | library_manager.py:110 | the library starts as the list that was loaded |
| Catalog.Library.AddBook | library_manager.py:27-52 | exactly one record is appended at the end when a year is admitted; earlier records are unchanged; the record holds the stripped fields, the admitted year and the read flag |
| Catalog.Library.RemoveBook | library_manager.py:55-63 | the new list is the non-matching records in their old order; none of them has the title; the count is the old length minus the new one, which is the number of matches; a count of 0 leaves the list unchanged |
| Catalog.TitleKey | library_manager.py:57 | the key is the answer stripped and lowered: no longer than the answer, holding no capital and no whitespace at either end |
| Catalog.TitleKeyIdempotent | library_manager.py:57 | typing the key back as the answer gives the same key |
| Catalog.Survivors | library_manager.py:60-61 | the records kept are those whose lowered title differs from the key, in their old order |
| Catalog.Matching | library_manager.py:60-63 | the records removed are those whose lowered title equals the key, in their old order |
| Catalog.RemoveLeavesNoMatch | library_manager.py:57-61 | no remaining record has the removed title, compared case-insensitively |
| Catalog.RemoveKeepsOthers | library_manager.py:60-61 | every record with another title remains |
| Catalog.RemovedCount | library_manager.py:58-63 | the reported count is the number of matching records |
| Catalog.RemoveAbsentTitle | library_manager.py:60-67 | removing a title nobody has leaves the library unchanged and reports 0 |
| Catalog.RemoveNothingReported | library_manager.py:63-67 | when 0 is reported the library is unchanged |
| Catalog.RemoveIdempotent | library_manager.py:57-61 | removing the same title a second time removes nothing |
| Catalog.RemoveDuneExample | library_manager.py:57-61 | "Dune" and "dune" both go when "DUNE" is removed |
| Catalog.SearchHit | library_manager.py:80-82 | a record is a hit when mode "1" and the lowered term occurs in its lowered title, or mode "2" and it occurs in its lowered author |
| Catalog.SearchBooks | library_manager.py:74-83 | the search loop returns exactly the hits of the library in library order; a record is a result iff it is in the library and matches; a mode other than "1" or "2" gives no results |
| Catalog.SearchEmptyTermFindsAll | library_manager.py:76-82 | with a valid mode, an empty term finds the whole library |
| Catalog.AddThenSearch | library_manager.py:79-81 | a record just appended is found, last, by a title search for its title in any case |
| Catalog.StatusLabel | library_manager.py:94 | the label is "Read" for a read record and "Unread" otherwise |
| Catalog.FormatEntry | library_manager.py:95-96 | a line is the number, ". ", title, " by ", author, the year in parentheses, " - ", genre, " - " and the label |
| Catalog.DisplayBooks | library_manager.py:91-96 | one line per record, in order, the k-th numbered k |
| Catalog.EntryShowsStatus | library_manager.py:94-96 | a displayed line ends in " - Read" exactly when the record is read |
| Catalog.EntryShowsUnread | library_manager.py:94-96 | the line of an unread record ends in " - Unread" |
| Catalog.EntryShowsNumber | library_manager.py:93-95 | a displayed line starts with its number and ". " |
| Catalog.ReadCount | library_manager.py:101 | the read count never exceeds the number of records |
| Catalog.ReadCountIsFilter | library_manager.py:101 | the boolean sum equals the number of records marked read |
| Catalog.ReadCountConcat | library_manager.py:101 | the read count of two lists together is the sum of their read counts |
| Catalog.ReadCountAll | library_manager.py:101 | the read count equals the total exactly when every record is read |
| Catalog.ReadCountNone | library_manager.py:101 | the read count is 0 exactly when no record is read |
| Catalog.ShowStatistics | library_manager.py:98-102 | total is the length, the read count lies in [0, total], the percentage lies in [0, 100], is 0 for an empty library and otherwise satisfies percentage × total = 100 × read count |
| Catalog.StatisticsOneOfFour | library_manager.py:100-102 | 1 read record out of 4 gives 25 percent |
| Catalog.StatisticsOneOfTwo | library_manager.py:100-102 | a read and an unread record give 50 percent |
| Catalog.StatisticsEmpty | library_manager.py:102 | an empty library reports total 0 and 0 percent |
| Catalog.StatisticsAfterAdd | library_manager.py:100-101 | appending a record adds one to the total and adds one to the read count exactly when it is read |
| Menu.Dispatch | library_manager.py:112-132 | choices "1" to "6" run add, remove, search plus display, display, statistics and exit; only "1" and "2" change the library; any other choice changes nothing and is reported as invalid |

## Left out

- `load_library` and `save_library` (library_manager.py:4-15): file I/O and
  JSON through the `json` library. The model takes the loaded list as the
  constructor's argument. Exit returns the list that would be saved. The
  round trip of saving and loading is not stated.
- Records read from a file are taken to be well-formed `Book` values. The
  Python code would fail on a missing key. It keeps a negative year from the
  file and prints it as, say, "(-5)" (library_manager.py:95-96). The model's
  `year: nat` cannot hold such a year, so a loaded negative year is not
  modelled.
- `display_menu` and every `print` message (library_manager.py:17-25, 29, 46,
  53, 65-67, 71-73, 86-89, 104-106): console text only. `DisplayBooks`
  returns the lines that `display_books` prints.
- The repetition of `main`'s `while True` loop (library_manager.py:112): an
  interactive loop. `Dispatch` models one turn of it.
- Float rounding of the percentage and its `.1f` formatting
  (library_manager.py:102, 106): floating point. The model uses an exact
  real.
- `int()` quirks: underscores between digits, non-ASCII digits and
  non-ASCII whitespace are not accepted by the model.
- Text.ParseInt: does not model the limit on the length of decimal strings
  that recent CPython versions impose (4300 digits by default, beyond which
  `int()` raises `ValueError`). `Catalog.YearAcceptsNumber` admits every
  non-negative number, however long.
- Text.Lower: `str.lower()` and `str.strip()` on non-ASCII characters. Only
  ASCII letters are lowered and only ASCII whitespace is stripped.
- Catalog.Library.AddBook: when every answer to the year prompt is rejected,
  the Python function never returns. The model appends nothing and returns
  `false`.
