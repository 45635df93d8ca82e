/**
 * The book recommender: filtering a catalogue, scoring each book against the reader's
 * preferences, ranking by score, and the list handling behind the "get recommendations"
 * button and the author search box.
 *
 * A book is the JSON record the catalogue holds. `title` and `first_publish_year` are read
 * with `.get` in some places and may be absent; the other keys are always present.
 */
module BookRecommender {
  import opened Wrappers
  import opened Text
  import opened Seqs
  import opened StableSort

  datatype Book = Book(
    title: Option<string>,
    authors: seq<string>,
    year: Option<int>,
    genre: string,
    description: string)

  /** What `process_preferences` builds from the chosen genres, authors and keywords. */
  datatype Preferences = Preferences(genres: seq<string>, authors: seq<string>, keywords: seq<string>)

  // ---------------------------------------------------------------------------------------------
  // filter_books

  /** The genre criterion: disabled by `None`, otherwise a case-insensitive match. */
  predicate GenreOk(book: Book, genre: Option<string>) {
    genre.None? || Lower(book.genre) == Lower(genre.value)
  }

  /** The year criterion: disabled by `None`, otherwise published in that year or later. */
  predicate YearOk(book: Book, year: Option<int>) {
    year.None? || (book.year.Some? && book.year.value >= year.value)
  }

  function KeepPick(genre: Option<string>, year: Option<int>): Book -> bool {
    (b: Book) => GenreOk(b, genre) && YearOk(b, year)
  }

  /** A book that passes the genre test but has no year raises `KeyError` once a year is given. */
  predicate RaisesKeyError(books: seq<Book>, genre: Option<string>, year: Option<int>) {
    year.Some? && exists i | 0 <= i < |books| :: GenreOk(books[i], genre) && books[i].year.None?
  }

  /** `filter_books(books, genre, year)`; `None` is the `KeyError` the comprehension raises. */
  function FilterBooks(books: seq<Book>, genre: Option<string>, year: Option<int>): Option<seq<Book>> {
    if RaisesKeyError(books, genre, year) then None
    else Some(Filter(books, KeepPick(genre, year)))
  }

  /** The result keeps exactly the books meeting both criteria, as often as they occur and in
      catalogue order; it fails only on a book without a year that the year test must read. */
  lemma FilterBooksSpec(books: seq<Book>, genre: Option<string>, year: Option<int>)
    ensures FilterBooks(books, genre, year).None? <==>
      year.Some? && exists b :: b in books && GenreOk(b, genre) && b.year.None?
    ensures FilterBooks(books, genre, year).Some? ==>
      var r := FilterBooks(books, genre, year).value;
      && IsSubsequence(r, books)
      && (forall b :: b in r <==> b in books && GenreOk(b, genre) && YearOk(b, year))
      && (forall b :: multiset(r)[b] == if GenreOk(b, genre) && YearOk(b, year) then multiset(books)[b] else 0)
  {
    FilterSpec(books, KeepPick(genre, year));
    if year.Some? && exists b :: b in books && GenreOk(b, genre) && b.year.None? {
      var b :| b in books && GenreOk(b, genre) && b.year.None?;
      var i :| 0 <= i < |books| && books[i] == b;
      assert RaisesKeyError(books, genre, year);
    }
  }

  /** With both criteria switched off the catalogue comes back unchanged. */
  lemma FilterBooksNoCriteria(books: seq<Book>)
    ensures FilterBooks(books, None, None) == Some(books)
  {
    FilterAll(books, KeepPick(None, None));
  }

  // ---------------------------------------------------------------------------------------------
  // calculate_match

  /** The book's genre equals, ignoring case, one of the preferred genres. */
  predicate GenreHit(book: Book, prefs: Preferences) {
    exists g | g in prefs.genres :: Lower(book.genre) == Lower(g)
  }

  /** Some author of the book equals, ignoring case, one of the preferred authors. */
  predicate AuthorHit(book: Book, prefs: Preferences) {
    exists a, p | a in book.authors && p in prefs.authors :: Lower(a) == Lower(p)
  }

  /** A keyword that is not blank after `strip()` occurs, ignoring case, in the description.
      The occurrence test uses the keyword as entered, surrounding spaces included. */
  predicate KeywordMatches(book: Book, k: string) {
    Strip(k) != "" && Contains(Lower(book.description), Lower(k))
  }

  predicate KeywordHit(book: Book, prefs: Preferences) {
    exists k | k in prefs.keywords :: KeywordMatches(book, k)
  }

  /** `calculate_match`: 10 for the genre, 5 for an author, 2 for a keyword. The three weights
      are such that the score tells exactly which criteria matched. */
  function CalculateMatch(book: Book, prefs: Preferences): (score: int)
    ensures score in {0, 2, 5, 7, 10, 12, 15, 17}
    ensures score >= 10 <==> GenreHit(book, prefs)
    ensures score % 10 >= 5 <==> AuthorHit(book, prefs)
    ensures score % 5 == 2 <==> KeywordHit(book, prefs)
  {
    (if GenreHit(book, prefs) then 10 else 0)
    + (if AuthorHit(book, prefs) then 5 else 0)
    + (if KeywordHit(book, prefs) then 2 else 0)
  }

  /** Keywords that are blank after `strip()` never change a score. */
  lemma BlankKeywordsIgnored(book: Book, prefs: Preferences, blanks: seq<string>)
    requires forall k :: k in blanks ==> Strip(k) == ""
    ensures CalculateMatch(book, prefs.(keywords := prefs.keywords + blanks)) == CalculateMatch(book, prefs)
  {
    var more := prefs.(keywords := prefs.keywords + blanks);
    if KeywordHit(book, more) {
      var k :| k in more.keywords && KeywordMatches(book, k);
      assert k in prefs.keywords;
    }
  }

  /** An empty keyword box splits into one empty keyword, which never matches. */
  lemma EmptyKeywordBox(book: Book, genres: seq<string>, authors: seq<string>)
    ensures Split("", ", ") == [""]
    ensures !KeywordHit(book, Preferences(genres, authors, Split("", ", ")))
  {
    assert Strip("") == "";
  }

  /** A keyword is not stripped before the occurrence test: a word matches a description that
      is that word, but the same word typed with a leading space counts as non-blank and still
      misses it. */
  lemma KeywordNotStripped(book: Book, w: string)
    requires Strip(w) != ""
    requires Lower(book.description) == Lower(w)
    ensures KeywordMatches(book, w)
    ensures Strip(" " + w) == Strip(w)
    ensures !KeywordMatches(book, " " + w)
  {
    assert StartsWith(Lower(w), Lower(w));
    assert TrimLeft(" " + w) == TrimLeft(w) by {
      assert (" " + w)[1..] == w;
    }
    ContainsShort(Lower(book.description), Lower(" " + w));
  }

  // ---------------------------------------------------------------------------------------------
  // recommend_books

  /** `[(book, calculate_match(book, preferences)) for book in books]`. */
  function Rate(books: seq<Book>, prefs: Preferences): (rated: seq<(Book, int)>)
    ensures |rated| == |books|
    ensures forall i :: 0 <= i < |books| ==> rated[i] == (books[i], CalculateMatch(books[i], prefs))
  {
    seq(|books|, i requires 0 <= i < |books| => (books[i], CalculateMatch(books[i], prefs)))
  }

  function ByScore(pair: (Book, int)): Key {
    NumKey(pair.1)
  }

  /** `sorted(rated_books, key=lambda x: x[1], reverse=True)`. */
  function RecommendBooks(books: seq<Book>, prefs: Preferences): seq<(Book, int)> {
    SortBy(Rate(books, prefs), ByScore, true)
  }

  /** One pair per book carrying its score, best scores first, ties in catalogue order. */
  lemma RecommendBooksSpec(books: seq<Book>, prefs: Preferences)
    ensures |RecommendBooks(books, prefs)| == |books|
    ensures multiset(RecommendBooks(books, prefs)) == multiset(Rate(books, prefs))
    ensures forall p :: p in RecommendBooks(books, prefs) ==> p.0 in books && p.1 == CalculateMatch(p.0, prefs)
    ensures forall i, j :: 0 <= i < j < |RecommendBooks(books, prefs)| ==>
      RecommendBooks(books, prefs)[i].1 >= RecommendBooks(books, prefs)[j].1
    ensures forall v :: WithKey(RecommendBooks(books, prefs), ByScore, NumKey(v)) == WithKey(Rate(books, prefs), ByScore, NumKey(v))
  {
    var rated := Rate(books, prefs);
    var r := RecommendBooks(books, prefs);
    SortByPermutation(rated, ByScore, true);
    SortBySorted(rated, ByScore, true);
    forall p | p in r ensures p.0 in books && p.1 == CalculateMatch(p.0, prefs) {
      assert p in multiset(rated);
      var i :| 0 <= i < |rated| && rated[i] == p;
    }
    forall i, j | 0 <= i < j < |r| ensures r[i].1 >= r[j].1 {
      assert !Before(ByScore(r[j]), ByScore(r[i]), true);
    }
    forall v ensures WithKey(r, ByScore, NumKey(v)) == WithKey(rated, ByScore, NumKey(v)) {
      SortByStable(rated, ByScore, true, NumKey(v));
    }
  }

  // ---------------------------------------------------------------------------------------------
  // get_recommendations

  /** `[genre for genre, var in genre_vars.items() if var.get()]`: the ticked genres, in order. */
  function SelectedGenres(genreVars: seq<(string, bool)>): (selected: seq<string>)
    ensures forall g :: g in selected <==> (g, true) in genreVars
  {
    if genreVars == [] then []
    else (if genreVars[0].1 then [genreVars[0].0] else []) + SelectedGenres(genreVars[1..])
  }

  function GenrePick(genres: seq<string>): Book -> bool {
    (b: Book) => b.genre in genres
  }

  function YearPick(from: int, to: int): Book -> bool {
    (b: Book) => from <= b.year.GetOr(0) <= to
  }

  /** The year range applies only when both boxes hold digits after `strip()`. */
  predicate YearRangeGiven(yearFromText: string, yearToText: string) {
    IsDigits(Strip(yearFromText)) && IsDigits(Strip(yearToText))
  }

  /** The books that reach scoring: exact genre membership when "only selected genres" is
      ticked, then the inclusive year range, a missing year counting as 0. */
  function Candidates(books: seq<Book>, genres: seq<string>, onlySelected: bool,
                      yearFromText: string, yearToText: string): seq<Book>
  {
    var byGenre := if onlySelected then Filter(books, GenrePick(genres)) else books;
    if YearRangeGiven(yearFromText, yearToText) then
      Filter(byGenre, YearPick(ParseNat(Strip(yearFromText)), ParseNat(Strip(yearToText))))
    else byGenre
  }

  /** The criteria `get_recommendations` applies before scoring, with the disabled ones
      counting as met. */
  predicate Eligible(b: Book, genres: seq<string>, onlySelected: bool, yearFromText: string, yearToText: string) {
    && (onlySelected ==> b.genre in genres)
    && (YearRangeGiven(yearFromText, yearToText) ==>
          ParseNat(Strip(yearFromText)) <= b.year.GetOr(0) <= ParseNat(Strip(yearToText)))
  }

  /** Exactly the catalogue's books meeting the enabled criteria, each as often as in the
      catalogue, in catalogue order. */
  lemma CandidatesSpec(books: seq<Book>, genres: seq<string>, onlySelected: bool,
                       yearFromText: string, yearToText: string)
    ensures IsSubsequence(Candidates(books, genres, onlySelected, yearFromText, yearToText), books)
    ensures forall b :: b in Candidates(books, genres, onlySelected, yearFromText, yearToText) <==>
      b in books && Eligible(b, genres, onlySelected, yearFromText, yearToText)
    ensures forall b :: multiset(Candidates(books, genres, onlySelected, yearFromText, yearToText))[b] ==
              (if Eligible(b, genres, onlySelected, yearFromText, yearToText) then multiset(books)[b] else 0)
  {
    var byGenre := if onlySelected then Filter(books, GenrePick(genres)) else books;
    var ranged := YearRangeGiven(yearFromText, yearToText);
    var pick := YearPick(if ranged then ParseNat(Strip(yearFromText)) else 0,
                         if ranged then ParseNat(Strip(yearToText)) else 0);
    var c := Candidates(books, genres, onlySelected, yearFromText, yearToText);
    assert c == if ranged then Filter(byGenre, pick) else byGenre;
    if onlySelected {
      FilterOrder(books, GenrePick(genres));
    } else {
      SubsequenceRefl(books);
    }
    if ranged {
      FilterOrder(byGenre, pick);
      SubsequenceTrans(c, byGenre, books);
    }
    CandidatesCount(books, genres, onlySelected, yearFromText, yearToText);
    forall b ensures b in c <==> b in books && Eligible(b, genres, onlySelected, yearFromText, yearToText) {
      assert b in c <==> b in multiset(c);
      assert b in books <==> b in multiset(books);
    }
  }

  lemma CandidatesCount(books: seq<Book>, genres: seq<string>, onlySelected: bool,
                        yearFromText: string, yearToText: string)
    ensures forall b :: multiset(Candidates(books, genres, onlySelected, yearFromText, yearToText))[b] ==
              (if Eligible(b, genres, onlySelected, yearFromText, yearToText) then multiset(books)[b] else 0)
  {
    var byGenre := if onlySelected then Filter(books, GenrePick(genres)) else books;
    var ranged := YearRangeGiven(yearFromText, yearToText);
    if onlySelected {
      FilterCount(books, GenrePick(genres));
    }
    if ranged {
      FilterCount(byGenre, YearPick(ParseNat(Strip(yearFromText)), ParseNat(Strip(yearToText))));
    }
  }

  function TitleKey(b: Book): Key {
    TextKey(Lower(b.title.GetOr("")))
  }

  function YearKey(b: Book): Key {
    NumKey(b.year.GetOr(0))
  }

  /** The pre-scoring sort: by lower-cased title for "alphabet", by year for "year", reversed
      for "desc"; any other option leaves the order alone. */
  function Arrange(books: seq<Book>, sortOption: string, sortOrder: string): seq<Book> {
    if sortOption == "alphabet" then SortBy(books, TitleKey, sortOrder == "desc")
    else if sortOption == "year" then SortBy(books, YearKey, sortOrder == "desc")
    else books
  }

  /** The arranged list is a reordering of its input, ordered by the chosen key; books with
      equal keys keep their catalogue order, in both directions, as `list.sort` is stable. */
  lemma ArrangeSpec(books: seq<Book>, sortOption: string, sortOrder: string)
    ensures multiset(Arrange(books, sortOption, sortOrder)) == multiset(books)
    ensures sortOption == "alphabet" ==> Sorted(Arrange(books, sortOption, sortOrder), TitleKey, sortOrder == "desc")
    ensures sortOption == "year" ==> Sorted(Arrange(books, sortOption, sortOrder), YearKey, sortOrder == "desc")
    ensures sortOption == "alphabet" ==>
      forall k :: WithKey(Arrange(books, sortOption, sortOrder), TitleKey, k) == WithKey(books, TitleKey, k)
    ensures sortOption == "year" ==>
      forall k :: WithKey(Arrange(books, sortOption, sortOrder), YearKey, k) == WithKey(books, YearKey, k)
    ensures sortOption != "alphabet" && sortOption != "year" ==> Arrange(books, sortOption, sortOrder) == books
  {
    var reverse := sortOrder == "desc";
    if sortOption == "alphabet" {
      SortByPermutation(books, TitleKey, reverse);
      SortBySorted(books, TitleKey, reverse);
      forall k ensures WithKey(SortBy(books, TitleKey, reverse), TitleKey, k) == WithKey(books, TitleKey, k) {
        SortByStable(books, TitleKey, reverse, k);
      }
    } else if sortOption == "year" {
      SortByPermutation(books, YearKey, reverse);
      SortBySorted(books, YearKey, reverse);
      forall k ensures WithKey(SortBy(books, YearKey, reverse), YearKey, k) == WithKey(books, YearKey, k) {
        SortByStable(books, YearKey, reverse, k);
      }
    }
  }

  /** No filter built a new list, so the sort reorders the caller's catalogue itself. */
  predicate SortsCatalogue(onlySelected: bool, yearFromText: string, yearToText: string) {
    !onlySelected && !YearRangeGiven(yearFromText, yearToText)
  }

  /** The catalogue list shared with the window: `get_recommendations` may sort it in place. */
  class Shelf {
    var books: seq<Book>

    constructor (books: seq<Book>)
      ensures this.books == books
    {
      this.books := books;
    }

    /** `get_recommendations` without the widgets: the ticked genres, the chosen authors (as
        `list(selected_authors)` gives them) and the text of the entry boxes come in, the
        scored list that would be shown comes out. */
    method GetRecommendations(genreVars: seq<(string, bool)>, selectedAuthors: seq<string>,
                              keywordsText: string, yearFromText: string, yearToText: string,
                              sortOption: string, sortOrder: string, onlySelected: bool)
      returns (recommendations: seq<(Book, int)>)
      modifies this
      ensures recommendations == RecommendBooks(
        Arrange(Candidates(old(books), SelectedGenres(genreVars), onlySelected, yearFromText, yearToText),
                sortOption, sortOrder),
        Preferences(SelectedGenres(genreVars), selectedAuthors, Split(keywordsText, ", ")))
      ensures books == if SortsCatalogue(onlySelected, yearFromText, yearToText)
                       then Arrange(old(books), sortOption, sortOrder)
                       else old(books)
    {
      var selectedGenres := SelectedGenres(genreVars);
      var keywords := Split(keywordsText, ", ");
      var preferences := Preferences(selectedGenres, selectedAuthors, keywords);

      var filtered := books;
      var shared := true;
      if onlySelected {
        filtered := Filter(books, GenrePick(selectedGenres));
        shared := false;
      }

      var yearFrom := Strip(yearFromText);
      var yearTo := Strip(yearToText);
      if IsDigits(yearFrom) && IsDigits(yearTo) {
        filtered := Filter(filtered, YearPick(ParseNat(yearFrom), ParseNat(yearTo)));
        shared := false;
      }

      var sortReverse := sortOrder == "desc";
      if sortOption == "alphabet" {
        filtered := SortBy(filtered, TitleKey, sortReverse);
      } else if sortOption == "year" {
        filtered := SortBy(filtered, YearKey, sortReverse);
      }
      if shared {
        books := filtered;
      }

      recommendations := RecommendBooks(filtered, preferences);
    }
  }

  // ---------------------------------------------------------------------------------------------
  // update_author_suggestions and select_author

  /** At most this many suggestions are shown. */
  const MaxSuggestions: nat := 20

  function MatchPick(query: string): string -> bool {
    (a: string) => Contains(Lower(a), query)
  }

  /** The suggestions for the text in the author search box. */
  function AuthorSuggestions(authors: seq<string>, entry: string): seq<string> {
    var query := Lower(Strip(entry));
    if query == "" then [] else Take(Filter(authors, MatchPick(query)), MaxSuggestions)
  }

  /** A query that is empty after `strip()` suggests nothing. */
  lemma BlankQuery(authors: seq<string>, entry: string)
    requires Strip(entry) == ""
    ensures AuthorSuggestions(authors, entry) == []
  {
    assert Lower(Strip(entry)) == "";
  }

  /** A blank query suggests nothing; otherwise the suggestions are the first twenty authors,
      in list order, whose lower-cased name contains the stripped, lower-cased query. */
  lemma AuthorSuggestionsSpec(authors: seq<string>, entry: string)
    ensures Strip(entry) == "" ==> AuthorSuggestions(authors, entry) == []
    ensures |AuthorSuggestions(authors, entry)| <= MaxSuggestions
    ensures Strip(entry) != "" ==>
      var query := Lower(Strip(entry));
      var all := Filter(authors, MatchPick(query));
      && AuthorSuggestions(authors, entry) == all[..|AuthorSuggestions(authors, entry)|]
      && |AuthorSuggestions(authors, entry)| == (if |all| < MaxSuggestions then |all| else MaxSuggestions)
      && (forall a :: a in all <==> a in authors && Contains(Lower(a), query))
      && IsSubsequence(all, authors)
  {
    var query := Lower(Strip(entry));
    if Strip(entry) != "" {
      assert |query| > 0;
      FilterSpec(authors, MatchPick(query));
    }
  }

  /** `select_author` on the selection set: a new author is added; a selected one is removed
      only when the removal is confirmed. */
  function Toggle(selected: set<string>, author: string, confirmRemoval: bool): (r: set<string>)
    ensures author in r <==> author !in selected || !confirmRemoval
    ensures forall other :: other != author ==> (other in r <==> other in selected)
  {
    if author in selected then (if confirmRemoval then selected - {author} else selected)
    else selected + {author}
  }

  /** Selecting a new author and then confirming its removal restores the selection. */
  lemma ToggleTwice(selected: set<string>, author: string, confirm: bool)
    requires author !in selected
    ensures Toggle(Toggle(selected, author, confirm), author, true) == selected
  {
  }

  /** The author search box and the set of chosen authors. */
  class AuthorPicker {
    var selected: set<string>
    var entry: string

    constructor ()
      ensures selected == {} && entry == ""
    {
      selected := {};
      entry := "";
    }

    /** Toggle `author`, clear the search box and refresh the suggestions, which the cleared box
        leaves empty. */
    method SelectAuthor(author: string, confirmRemoval: bool, authors: seq<string>)
      returns (suggestions: seq<string>)
      modifies this
      ensures selected == Toggle(old(selected), author, confirmRemoval)
      ensures entry == ""
      ensures suggestions == []
    {
      if author in selected {
        if confirmRemoval {
          selected := selected - {author};
        }
      } else {
        selected := selected + {author};
      }
      assert selected == Toggle(old(selected), author, confirmRemoval);
      entry := "";
      BlankQuery(authors, entry);
      suggestions := AuthorSuggestions(authors, entry);
    }
  }
}
