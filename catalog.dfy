/**
 The record operations of the personal library catalog: the book record, the
 answers add_book admits, the library list that add_book and remove_book
 change in place, search_books, the shared display routine and
 show_statistics.
 */
module Catalog {
  import opened Wrappers
  import opened Text

  /** One catalog entry. The year is a `nat` because add_book admits no other. */
  datatype Book = Book(title: string, author: string, year: nat, genre: string, read: bool)

  // ------------------------------------------------------------ filtering

  /** The elements of `s` that satisfy `p`, in their original order: a list
      comprehension with a condition. */
  function Filter<T>(s: seq<T>, p: T -> bool): (r: seq<T>)
    ensures |r| <= |s|
  {
    if s == [] then [] else (if p(s[0]) then [s[0]] else []) + Filter(s[1..], p)
  }

  /** Everything kept satisfies `p` and comes from `s`. */
  lemma {:induction false} FilterSound<T>(s: seq<T>, p: T -> bool)
    ensures forall x :: x in Filter(s, p) ==> x in s && p(x)
  {
    if s != [] {
      FilterSound(s[1..], p);
    }
  }

  /** Nothing of `s` that satisfies `p` is lost. */
  lemma {:induction false} FilterComplete<T>(s: seq<T>, p: T -> bool)
    ensures forall x :: x in s && p(x) ==> x in Filter(s, p)
  {
    if s != [] {
      FilterComplete(s[1..], p);
      forall x | x in s && p(x) ensures x in Filter(s, p) {
        if x != s[0] {
          assert x in s[1..];
        }
      }
    }
  }

  /** Filtering works piece by piece, so relative order is kept. */
  lemma {:induction false} FilterConcat<T>(a: seq<T>, b: seq<T>, p: T -> bool)
    ensures Filter(a + b, p) == Filter(a, p) + Filter(b, p)
  {
    if a == [] {
      assert a + b == b;
    } else {
      var ab := a + b;
      assert ab[0] == a[0];
      assert ab[1..] == a[1..] + b;
      FilterConcat(a[1..], b, p);
      assert Filter(ab, p) == (if p(a[0]) then [a[0]] else []) + Filter(a[1..] + b, p);
    }
  }

  /** When every element satisfies `p`, filtering changes nothing. */
  lemma {:induction false} FilterKeepsAll<T>(s: seq<T>, p: T -> bool)
    requires forall x :: x in s ==> p(x)
    ensures Filter(s, p) == s
  {
    if s != [] {
      FilterKeepsAll(s[1..], p);
      assert [s[0]] + s[1..] == s;
    }
  }

  /** When no element satisfies `p`, nothing is kept. */
  lemma {:induction false} FilterDropsAll<T>(s: seq<T>, p: T -> bool)
    requires forall x :: x in s ==> !p(x)
    ensures Filter(s, p) == []
  {
    if s != [] {
      FilterDropsAll(s[1..], p);
    }
  }

  /** A predicate and its negation split `s` between them. */
  lemma {:induction false} FilterSplit<T>(s: seq<T>, p: T -> bool, q: T -> bool)
    requires forall x :: q(x) == !p(x)
    ensures |Filter(s, p)| + |Filter(s, q)| == |s|
  {
    if s != [] {
      FilterSplit(s[1..], p, q);
    }
  }

  // ----------------------------------------------------------- add_book

  /** The year answer add_book admits: int() must accept it and the value must
      not be negative; None means "print the error and ask again". */
  function ValidateYear(answer: string): Option<nat>
  {
    match ParseInt(answer)
    case Some(n) => if n >= 0 then Some(n) else None
    case None => None
  }

  /** Every non-negative number written in decimal is admitted as itself. */
  lemma YearAcceptsNumber(n: nat)
    ensures ValidateYear(NatToString(n)) == Some(n)
  {
    ParseIntNat(n);
  }

  /** A negative year is rejected though int() accepts it. */
  lemma YearRejectsNegative(n: nat)
    requires n > 0
    ensures ValidateYear("-" + NatToString(n)) == None
  {
    ParseIntNegative(n);
  }

  /** Text without a digit is rejected. */
  lemma YearRejectsNonNumeric(answer: string)
    requires forall i :: 0 <= i < |answer| ==> !IsDigit(answer[i])
    ensures ValidateYear(answer) == None
  {
    ParseIntNeedsDigit(answer);
  }

  /** An answer that starts with one of the separators 0x1C-0x1F is
      rejected: str.strip() would drop it, but int() does not. */
  lemma YearRejectsSeparator(answer: string)
    requires |answer| > 0 && 28 <= answer[0] as int <= 31
    ensures ValidateYear(answer) == None
  {
    ParseIntRejectsSeparator(answer);
  }

  /** An answer holding any character that is not a digit, a sign or the
      whitespace int() skips is rejected, wherever that character is. */
  lemma YearRejectsJunk(answer: string, i: nat)
    requires i < |answer|
    requires !IsDigit(answer[i]) && !IsIntSpace(answer[i]) && answer[i] != '+' && answer[i] != '-'
    ensures ValidateYear(answer) == None
  {
    var t := Trim(answer, IsIntSpace);
    TrimSlices(answer, IsIntSpace);
    var lead := Lead(answer, IsIntSpace);
    assert lead <= i < lead + |t|;
    var j := i - lead;
    assert t[j] == answer[i];
    if j > 0 {
      assert t[1..][j - 1] == t[j];
    }
  }

  /** Digits mixed with other text, and a space inside a number, are
      rejected. */
  lemma YearRejectsExamples()
    ensures ValidateYear("19a5") == None
    ensures ValidateYear("1965 AD") == None
    ensures ValidateYear("1 965") == None
  {
    YearRejectsJunk("19a5", 2);
    YearRejectsJunk("1965 AD", 5);
    var s := "1 965";
    TrimKeepsTrimmed(s, IsIntSpace);
    assert Trim(s, IsIntSpace)[1..][0] == ' ';
  }

  /** "1965" is admitted as 1965. */
  lemma YearOf1965()
    ensures ValidateYear("1965") == Some(1965)
  {
    assert NatToString(1) == "1";
    assert NatToString(19) == "19";
    assert NatToString(196) == "196";
    assert NatToString(1965) == "1965";
    YearAcceptsNumber(1965);
  }

  /** "-3" is turned down. */
  lemma YearOfMinusThree()
    ensures ValidateYear("-3") == None
  {
    assert NatToString(3) == "3";
    assert "-" + NatToString(3) == "-3";
    YearRejectsNegative(3);
  }

  /** The year add_book finally stores: the first admitted answer. None when
      every answer is rejected (then add_book keeps asking). */
  function FirstValidYear(answers: seq<string>): Option<nat>
  {
    if answers == [] then None
    else if ValidateYear(answers[0]).Some? then ValidateYear(answers[0])
    else FirstValidYear(answers[1..])
  }

  /** How many answers the year prompt reads: up to and including the first
      admitted one, or all of them. */
  function AnswersRead(answers: seq<string>): (n: nat)
    ensures n <= |answers|
  {
    if answers == [] then 0
    else if ValidateYear(answers[0]).Some? then 1
    else 1 + AnswersRead(answers[1..])
  }

  /** The year is the answer read last, and every answer before it was
      rejected; with no admitted answer all of them were read and rejected. */
  lemma {:induction false} FirstValidYearIsFirst(answers: seq<string>)
    ensures FirstValidYear(answers).Some? ==>
      0 < AnswersRead(answers) && ValidateYear(answers[AnswersRead(answers) - 1]) == FirstValidYear(answers)
    ensures FirstValidYear(answers).None? ==> AnswersRead(answers) == |answers|
    ensures var rejected := AnswersRead(answers) - (if FirstValidYear(answers).Some? then 1 else 0);
      forall i :: 0 <= i < rejected ==> ValidateYear(answers[i]).None?
  {
    if answers != [] && ValidateYear(answers[0]).None? {
      FirstValidYearIsFirst(answers[1..]);
      assert forall i :: 1 <= i < |answers| ==> answers[i] == answers[1..][i - 1];
    }
  }

  /** Rejected answers are skipped: whatever follows them decides the year. */
  lemma {:induction false} FirstValidYearSkipsRejected(rejected: seq<string>, rest: seq<string>)
    requires forall i :: 0 <= i < |rejected| ==> ValidateYear(rejected[i]).None?
    ensures FirstValidYear(rejected + rest) == FirstValidYear(rest)
  {
    if rejected == [] {
      assert rejected + rest == rest;
    } else {
      var all := rejected + rest;
      assert all[0] == rejected[0];
      assert all[1..] == rejected[1..] + rest;
      FirstValidYearSkipsRejected(rejected[1..], rest);
    }
  }

  /** One step of the prompt loop: an admitted answer ends it, a rejected one
      passes the decision on to the answers after it. */
  lemma ReadYearStep(answers: seq<string>, k: nat)
    requires k < |answers|
    ensures FirstValidYear(answers[k..]) ==
      if ValidateYear(answers[k]).Some? then ValidateYear(answers[k]) else FirstValidYear(answers[k + 1..])
    ensures AnswersRead(answers[k..]) ==
      if ValidateYear(answers[k]).Some? then 1 else 1 + AnswersRead(answers[k + 1..])
  {
    assert answers[k..][0] == answers[k];
    assert answers[k..][1..] == answers[k + 1..];
  }

  /** The year prompt loop of add_book over the answers typed in turn:
      answers are read until one is admitted. */
  method ReadYear(answers: seq<string>) returns (year: Option<nat>, used: nat)
    ensures year == FirstValidYear(answers)
    ensures used == AnswersRead(answers)
  {
    year, used := None, 0;
    while year.None? && used < |answers|
      invariant used <= |answers|
      invariant year.None? ==> FirstValidYear(answers) == FirstValidYear(answers[used..])
      invariant year.None? ==> AnswersRead(answers) == used + AnswersRead(answers[used..])
      invariant year.Some? ==> year == FirstValidYear(answers) && used == AnswersRead(answers)
    {
      ReadYearStep(answers, used);
      year := ValidateYear(answers[used]);
      used := used + 1;
    }
    if year.None? {
      assert answers[used..] == [];
    }
  }

  /** The read flag: the answer, lower-cased but not stripped, is "yes" or "y". */
  predicate IsYesAnswer(answer: string) {
    Lower(answer) in ["yes", "y"]
  }

  /** The same flag character by character: "y" or "yes" in any mix of case,
      and nothing else. */
  lemma YesAnswerCases(answer: string)
    ensures IsYesAnswer(answer) <==>
      (|answer| == 1 && answer[0] in "yY") ||
      (|answer| == 3 && answer[0] in "yY" && answer[1] in "eE" && answer[2] in "sS")
  {
    var l := Lower(answer);
    if |answer| == 1 {
      assert l == [LowerChar(answer[0])];
    } else if |answer| == 3 {
      assert l == [LowerChar(answer[0]), LowerChar(answer[1]), LowerChar(answer[2])];
    }
  }

  /** Answers that are not recognised give "unread" without a second prompt,
      and surrounding spaces are not removed. */
  lemma YesAnswerExamples()
    ensures IsYesAnswer("YES") && IsYesAnswer("y") && IsYesAnswer("Yes")
    ensures !IsYesAnswer("") && !IsYesAnswer("no") && !IsYesAnswer(" yes") && !IsYesAnswer("yeah")
  {
    YesAnswerCases("YES");
    YesAnswerCases("y");
    YesAnswerCases("Yes");
    YesAnswerCases("");
    YesAnswerCases("no");
    YesAnswerCases(" yes");
    YesAnswerCases("yeah");
  }

  // -------------------------------------------------------- remove_book

  /** The key remove_book compares titles with: the answer stripped and
      lowered, so it holds no capital and no whitespace at either end. */
  function TitleKey(answer: string): (key: string)
    ensures |key| <= |answer|
    ensures forall i :: 0 <= i < |key| ==> !IsUpper(key[i])
    ensures key == [] || (!IsSpace(key[0]) && !IsSpace(key[|key| - 1]))
  {
    Lower(Strip(answer))
  }

  /** A key typed back as the answer gives the same key. */
  lemma TitleKeyIdempotent(answer: string)
    ensures TitleKey(TitleKey(answer)) == TitleKey(answer)
  {
    var key := TitleKey(answer);
    TrimKeepsTrimmed(key, IsSpace);
    LowerIdempotent(Strip(answer));
  }

  predicate TitleIs(b: Book, key: string) {
    Lower(b.title) == key
  }

  function WithTitle(key: string): Book -> bool {
    b => TitleIs(b, key)
  }

  function WithoutTitle(key: string): Book -> bool {
    b => !TitleIs(b, key)
  }

  /** The books remove_book keeps. */
  function Survivors(books: seq<Book>, key: string): seq<Book> {
    Filter(books, WithoutTitle(key))
  }

  /** The books remove_book deletes. */
  function Matching(books: seq<Book>, key: string): seq<Book> {
    Filter(books, WithTitle(key))
  }

  /** No survivor carries the removed title ... */
  lemma RemoveLeavesNoMatch(books: seq<Book>, key: string)
    ensures forall b :: b in Survivors(books, key) ==> Lower(b.title) != key
  {
    FilterSound(books, WithoutTitle(key));
  }

  /** ... and every book with another title survives. */
  lemma RemoveKeepsOthers(books: seq<Book>, key: string)
    ensures forall b :: b in books && Lower(b.title) != key ==> b in Survivors(books, key)
  {
    FilterComplete(books, WithoutTitle(key));
  }

  /** The count remove_book reports is the number of books with that title. */
  lemma RemovedCount(books: seq<Book>, key: string)
    ensures |books| - |Survivors(books, key)| == |Matching(books, key)|
  {
    FilterSplit(books, WithTitle(key), WithoutTitle(key));
  }

  /** Removal of a title nobody has leaves the list as it was. */
  lemma RemoveAbsentTitle(books: seq<Book>, key: string)
    requires forall b :: b in books ==> Lower(b.title) != key
    ensures Survivors(books, key) == books
    ensures |Matching(books, key)| == 0
  {
    FilterKeepsAll(books, WithoutTitle(key));
    RemovedCount(books, key);
  }

  /** A report of zero removed means no book had the title. */
  lemma RemoveNothingReported(books: seq<Book>, key: string)
    requires |Matching(books, key)| == 0
    ensures Survivors(books, key) == books
  {
    FilterComplete(books, WithTitle(key));
    assert forall b :: b in books ==> !TitleIs(b, key);
    RemoveAbsentTitle(books, key);
  }

  /** Removing the same title twice removes nothing the second time. */
  lemma RemoveIdempotent(books: seq<Book>, key: string)
    ensures Survivors(Survivors(books, key), key) == Survivors(books, key)
  {
    RemoveLeavesNoMatch(books, key);
    RemoveAbsentTitle(Survivors(books, key), key);
  }

  /** "Dune" and "dune" both go when "DUNE" is removed. */
  lemma RemoveDuneExample(dune: Book, lowerDune: Book)
    requires dune.title == "Dune" && lowerDune.title == "dune"
    ensures Survivors([dune, lowerDune], TitleKey("DUNE")) == []
  {
    TrimKeepsTrimmed("DUNE", IsSpace);
    var key := Lower("DUNE");
    assert key == "dune";
    assert Lower(dune.title) == "dune";
    assert Lower(lowerDune.title) == "dune";
    FilterDropsAll([dune, lowerDune], WithoutTitle(key));
  }

  // -------------------------------------------------------- search_books

  /** A search hit: mode "1" looks in the title, mode "2" in the author, and
      any other mode finds nothing. The term is lowered, not stripped. */
  predicate SearchHit(b: Book, mode: string, term: string) {
    (mode == "1" && Contains(Lower(b.title), Lower(term)))
    || (mode == "2" && Contains(Lower(b.author), Lower(term)))
  }

  function Hits(mode: string, term: string): Book -> bool {
    b => SearchHit(b, mode, term)
  }

  /** search_books: one pass over the library appending every hit. The
      library itself is a value here and cannot change. */
  method SearchBooks(books: seq<Book>, mode: string, term: string) returns (results: seq<Book>)
    ensures results == Filter(books, Hits(mode, term))
    ensures forall b :: b in results <==> b in books && SearchHit(b, mode, term)
    ensures mode != "1" && mode != "2" ==> results == []
  {
    var needle := Lower(term);
    results := [];
    for k := 0 to |books|
      invariant results == Filter(books[..k], Hits(mode, term))
    {
      var b := books[k];
      FilterConcat(books[..k], [b], Hits(mode, term));
      assert books[..k + 1] == books[..k] + [b];
      if mode == "1" && Contains(Lower(b.title), needle) {
        results := results + [b];
      } else if mode == "2" && Contains(Lower(b.author), needle) {
        results := results + [b];
      }
    }
    assert books[..|books|] == books;
    FilterSound(books, Hits(mode, term));
    FilterComplete(books, Hits(mode, term));
    if mode != "1" && mode != "2" {
      FilterDropsAll(books, Hits(mode, term));
    }
  }

  /** An empty term is contained in every title and every author, so a
      valid mode with an empty term finds the whole library. */
  lemma SearchEmptyTermFindsAll(books: seq<Book>, mode: string)
    requires mode == "1" || mode == "2"
    ensures Filter(books, Hits(mode, "")) == books
  {
    assert Lower("") == "";
    forall b | b in books ensures Hits(mode, "")(b) {
      ContainsEmpty(Lower(b.title));
      ContainsEmpty(Lower(b.author));
    }
    FilterKeepsAll(books, Hits(mode, ""));
  }

  /** A book just added is found, last, by searching for its exact title in
      any case. */
  lemma AddThenSearch(books: seq<Book>, b: Book, term: string)
    requires Lower(term) == Lower(b.title)
    ensures Filter(books + [b], Hits("1", term)) == Filter(books, Hits("1", term)) + [b]
  {
    FilterConcat(books, [b], Hits("1", term));
    ContainsItself(Lower(b.title));
    assert Filter([b], Hits("1", term)) == [b] + Filter([b][1..], Hits("1", term));
  }

  // ------------------------------------------------------- display_books

  /** The status label of a record. */
  function StatusLabel(read: bool): string
  {
    if read then "Read" else "Unread"
  }

  /** What an entry shows of the record besides its number and status:
      title, author, year in parentheses and genre. */
  function EntryBody(b: Book): string {
    b.title + " by " + b.author + " (" + NatToString(b.year) + ") - " + b.genre
  }

  /** One displayed line: the number and ". ", then the body, then " - "
      and the status label. */
  function FormatEntry(number: nat, b: Book): string {
    (NatToString(number) + ". ") + (EntryBody(b) + (" - " + StatusLabel(b.read)))
  }

  /** display_books: the lines printed for `books`, numbered from 1 in order. */
  method DisplayBooks(books: seq<Book>) returns (lines: seq<string>)
    ensures |lines| == |books|
    ensures forall k :: 0 <= k < |books| ==> lines[k] == FormatEntry(k + 1, books[k])
  {
    lines := [];
    var number := 1;
    for k := 0 to |books|
      invariant number == k + 1
      invariant |lines| == k
      invariant forall j :: 0 <= j < k ==> lines[j] == FormatEntry(j + 1, books[j])
    {
      lines := lines + [FormatEntry(number, books[k])];
      number := number + 1;
    }
  }

  /** A line ends in " - Read" exactly for a book that has been read. */
  lemma EntryShowsStatus(number: nat, b: Book)
    ensures EndsWith(FormatEntry(number, b), " - Read") <==> b.read
  {
    var tail := " - " + StatusLabel(b.read);
    var line := FormatEntry(number, b);
    SuffixOfConcat(EntryBody(b), tail, 7);
    SuffixOfConcat(NatToString(number) + ". ", EntryBody(b) + tail, 7);
    assert line[|line| - 7..] == tail[|tail| - 7..];
    if !b.read {
      assert tail[|tail| - 7..][1] == 'U';
    }
  }

  /** An unread record's line ends in " - Unread". */
  lemma EntryShowsUnread(number: nat, b: Book)
    requires !b.read
    ensures EndsWith(FormatEntry(number, b), " - Unread")
  {
    var tail := " - " + StatusLabel(b.read);
    assert tail == " - Unread";
    SuffixOfConcat(EntryBody(b), tail, 9);
    SuffixOfConcat(NatToString(number) + ". ", EntryBody(b) + tail, 9);
  }

  /** A line starts with its number followed by ". ". */
  lemma EntryShowsNumber(number: nat, b: Book)
    ensures StartsWith(FormatEntry(number, b), NatToString(number) + ". ")
  {
    var prefix := NatToString(number) + ". ";
    var line := FormatEntry(number, b);
    assert line[..|prefix|] == prefix;
  }

  // ----------------------------------------------------- show_statistics

  /** The number of records marked read: the sum of the read flags, each
      counting as 1 when set and 0 otherwise. */
  function ReadCount(books: seq<Book>): (n: nat)
    ensures n <= |books|
  {
    if books == [] then 0 else (if books[0].read then 1 else 0) + ReadCount(books[1..])
  }

  function IsRead(): Book -> bool {
    (b: Book) => b.read
  }

  /** The sum agrees with counting the read records one by one. */
  lemma {:induction false} ReadCountIsFilter(books: seq<Book>)
    ensures ReadCount(books) == |Filter(books, IsRead())|
  {
    if books != [] {
      ReadCountIsFilter(books[1..]);
    }
  }

  lemma {:induction false} ReadCountConcat(a: seq<Book>, b: seq<Book>)
    ensures ReadCount(a + b) == ReadCount(a) + ReadCount(b)
  {
    if a == [] {
      assert a + b == b;
    } else {
      assert (a + b)[1..] == a[1..] + b;
      ReadCountConcat(a[1..], b);
    }
  }

  /** Every record is read exactly when the read count is the total. */
  lemma {:induction false} ReadCountAll(books: seq<Book>)
    ensures ReadCount(books) == |books| <==> forall b :: b in books ==> b.read
  {
    if books != [] {
      ReadCountAll(books[1..]);
      assert forall b :: b in books ==> b == books[0] || b in books[1..];
    }
  }

  /** No record is read exactly when the read count is zero. */
  lemma {:induction false} ReadCountNone(books: seq<Book>)
    ensures ReadCount(books) == 0 <==> forall b :: b in books ==> !b.read
  {
    if books != [] {
      ReadCountNone(books[1..]);
      assert forall b :: b in books ==> b == books[0] || b in books[1..];
    }
  }

  /** What show_statistics reports. The percentage is exact, not a float. */
  datatype Statistics = Statistics(total: nat, readCount: nat, percentage: real)

  /** show_statistics: the total, the read count and the percentage read,
      which is 0 for an empty library instead of dividing by zero. */
  function ShowStatistics(books: seq<Book>): (s: Statistics)
    ensures s.total == |books| && s.readCount == ReadCount(books)
    ensures s.readCount <= s.total
    ensures 0.0 <= s.percentage <= 100.0
    ensures s.total == 0 ==> s.percentage == 0.0
    ensures s.total > 0 ==> s.percentage * (s.total as real) == 100.0 * (s.readCount as real)
  {
    var total := |books|;
    var readCount := ReadCount(books);
    if total > 0 then
      var ratio := (readCount as real) / (total as real);
      assert ratio * (total as real) == readCount as real;
      assert ratio <= 1.0;
      Statistics(total, readCount, ratio * 100.0)
    else
      Statistics(total, readCount, 0.0)
  }

  /** One read record out of four is 25 percent. */
  lemma StatisticsOneOfFour(a: Book, b: Book, c: Book, d: Book)
    requires a.read && !b.read && !c.read && !d.read
    ensures ShowStatistics([a, b, c, d]) == Statistics(4, 1, 25.0)
  {
    var books := [a, b, c, d];
    assert books[1..] == [b, c, d];
    assert books[1..][1..] == [c, d];
    assert books[1..][1..][1..] == [d];
    assert books[1..][1..][1..][1..] == [];
    assert ReadCount([d]) == 0;
    assert ReadCount([c, d]) == 0;
    assert ReadCount([b, c, d]) == 0;
    assert ReadCount(books) == 1;
    assert (1 as real) / (4 as real) * 100.0 == 25.0;
  }

  /** A read book and an unread one, listed in that order: 50 percent. */
  lemma StatisticsOneOfTwo(a: Book, b: Book)
    requires a.read && !b.read
    ensures ShowStatistics([a, b]) == Statistics(2, 1, 50.0)
  {
    assert [a, b][1..] == [b];
    assert ReadCount([b]) == 0;
    assert ReadCount([a, b]) == 1;
    assert (1 as real) / (2 as real) * 100.0 == 50.0;
  }

  /** An empty library reports nothing read and 0 percent. */
  lemma StatisticsEmpty()
    ensures ShowStatistics([]) == Statistics(0, 0, 0.0)
  {
  }

  /** Adding a book raises the read count by one exactly when it was read. */
  lemma StatisticsAfterAdd(books: seq<Book>, b: Book)
    ensures ShowStatistics(books + [b]).total == |books| + 1
    ensures ShowStatistics(books + [b]).readCount == ReadCount(books) + (if b.read then 1 else 0)
  {
    ReadCountConcat(books, [b]);
  }

  // ------------------------------------------------------------- library

  /** The in-memory library list the menu loop owns and passes by reference. */
  class Library {
    var books: seq<Book>

    /** The library as loaded at start-up (empty when there is no file). */
    constructor (loaded: seq<Book>)
      ensures books == loaded
    {
      books := loaded;
    }

    /** add_book: title, author and genre are stripped, the year is the first
        admitted answer, the read flag comes from the read answer, and the
        record is appended. When no answer is admitted add_book never
        returns; here it leaves the library as it was. */
    method AddBook(title: string, author: string, genre: string,
                   yearAnswers: seq<string>, readAnswer: string) returns (added: bool)
      modifies this
      ensures added <==> FirstValidYear(yearAnswers).Some?
      ensures added ==> books == old(books) + [Book(Strip(title), Strip(author),
                          FirstValidYear(yearAnswers).value, Strip(genre), IsYesAnswer(readAnswer))]
      ensures added ==> |books| == |old(books)| + 1 && books[..|old(books)|] == old(books)
      ensures !added ==> books == old(books)
    {
      var book := Book(Strip(title), Strip(author), 0, Strip(genre), false);
      var year, used := ReadYear(yearAnswers);
      if year.None? {
        return false;
      }
      book := book.(year := year.value, read := IsYesAnswer(readAnswer));
      books := books + [book];
      added := true;
    }

    /** remove_book: every book whose lowered title equals the stripped,
        lowered answer goes; the rest keep their order; the count removed is
        the drop in length. */
    method RemoveBook(answer: string) returns (removed: nat)
      modifies this
      ensures books == Survivors(old(books), TitleKey(answer))
      ensures removed == |old(books)| - |books|
      ensures removed == |Matching(old(books), TitleKey(answer))|
      ensures forall b :: b in books ==> Lower(b.title) != TitleKey(answer)
      ensures forall b :: b in old(books) && Lower(b.title) != TitleKey(answer) ==> b in books
      ensures removed == 0 ==> books == old(books)
    {
      var key := TitleKey(answer);
      var initialCount := |books|;
      RemovedCount(books, key);
      RemoveLeavesNoMatch(books, key);
      RemoveKeepsOthers(books, key);
      if |Matching(books, key)| == 0 {
        RemoveNothingReported(books, key);
      }
      books := Survivors(books, key);
      removed := initialCount - |books|;
    }
  }
}
