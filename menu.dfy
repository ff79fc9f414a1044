/**
 One turn of main's menu loop: the typed choice selects an operation on the
 library. The prompts an operation would show are answered in advance by an
 `Answers` record; the printing itself is not modelled.
 */
module Menu {
  import opened Catalog

  /** What the user would type at the prompts of the chosen operation. */
  datatype Answers = Answers(
    title: string, author: string, genre: string, yearAnswers: seq<string>, readAnswer: string,
    removeTitle: string,
    searchMode: string, searchTerm: string)

  /** What a turn produces besides its change to the library. */
  datatype Outcome =
    | Added(added: bool)
    | Removed(count: nat)
    | Found(results: seq<Book>, lines: seq<string>)
    | Listed(lines: seq<string>)
    | Reported(stats: Statistics)
    | Saved(contents: seq<Book>)
    | InvalidChoice

  /** Choices "1" to "6" are add, remove, search, display, statistics and
      exit; the choice is compared exactly, so anything else (" 1" too) is
      invalid and changes nothing. Only add and remove change the library. */
  method Dispatch(library: Library, choice: string, answers: Answers) returns (outcome: Outcome)
    modifies library
    ensures choice != "1" && choice != "2" ==> library.books == old(library.books)
    ensures choice == "1" ==>
      var year := FirstValidYear(answers.yearAnswers);
      outcome == Added(year.Some?)
      && library.books == if year.Some? then
           old(library.books) + [Book(Text.Strip(answers.title), Text.Strip(answers.author), year.value,
                                      Text.Strip(answers.genre), IsYesAnswer(answers.readAnswer))]
         else old(library.books)
    ensures choice == "2" ==>
      library.books == Survivors(old(library.books), TitleKey(answers.removeTitle))
      && outcome == Removed(|Matching(old(library.books), TitleKey(answers.removeTitle))|)
    ensures choice == "3" ==>
      outcome.Found?
      && outcome.results == Filter(library.books, Hits(answers.searchMode, answers.searchTerm))
      && |outcome.lines| == |outcome.results|
      && forall k :: 0 <= k < |outcome.lines| ==> outcome.lines[k] == FormatEntry(k + 1, outcome.results[k])
    ensures choice == "4" ==>
      outcome.Listed?
      && |outcome.lines| == |library.books|
      && forall k :: 0 <= k < |outcome.lines| ==> outcome.lines[k] == FormatEntry(k + 1, library.books[k])
    ensures choice == "5" ==> outcome == Reported(ShowStatistics(library.books))
    ensures choice == "6" ==> outcome == Saved(library.books)
    ensures choice !in {"1", "2", "3", "4", "5", "6"} ==> outcome == InvalidChoice
  {
    if choice == "1" {
      var added := library.AddBook(answers.title, answers.author, answers.genre,
                                   answers.yearAnswers, answers.readAnswer);
      outcome := Added(added);
    } else if choice == "2" {
      var count := library.RemoveBook(answers.removeTitle);
      outcome := Removed(count);
    } else if choice == "3" {
      var results := SearchBooks(library.books, answers.searchMode, answers.searchTerm);
      var lines := DisplayBooks(results);
      outcome := Found(results, lines);
    } else if choice == "4" {
      var lines := DisplayBooks(library.books);
      outcome := Listed(lines);
    } else if choice == "5" {
      outcome := Reported(ShowStatistics(library.books));
    } else if choice == "6" {
      outcome := Saved(library.books);
    } else {
      outcome := InvalidChoice;
    }
  }
}
