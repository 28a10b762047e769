/** The browse page: its genre menu, the search filter, the genre filter and the
    sort that together give the visible list, and the page state they read. */
module Browse {
  import opened Common
  import opened Text
  import opened Sorting
  import opened Catalog

  /** The genre that switches the genre filter off. */
  const AllGenres := "All Genres"

  /** `genres`: "All Genres" followed by the category names in order. */
  function Genres(cats: seq<Category>): (r: seq<string>)
    ensures |r| == |cats| + 1 && r[0] == AllGenres
    ensures forall i :: 0 <= i < |cats| ==> r[i + 1] == cats[i].name
  {
    [AllGenres] + seq(|cats|, i requires 0 <= i < |cats| => cats[i].name)
  }

  // ---- search ----

  /** The search test: the lower-cased title or the lower-cased author includes the
      lower-cased term. */
  predicate MatchesSearch(term: string, b: Book)
    ensures MatchesSearch(term, b) <==>
      Occurs(Lower(b.title), Lower(term)) || Occurs(Lower(b.author), Lower(term))
  {
    ContainsIff(Lower(b.title), Lower(term));
    ContainsIff(Lower(b.author), Lower(term));
    Contains(Lower(b.title), Lower(term)) || Contains(Lower(b.author), Lower(term))
  }

  function MatchesSearchFn(term: string): Book -> bool {
    (b: Book) => MatchesSearch(term, b)
  }

  /** The first `.filter` of `filteredBooks`. */
  function SearchFilter(books: seq<Book>, term: string): (r: seq<Book>)
    ensures |r| <= |books|
    ensures forall b :: b in r ==> b in books && MatchesSearch(term, b)
  {
    Filter(books, MatchesSearchFn(term))
  }

  /** A book is kept exactly when its lower-cased title or author has the lower-cased
      term at some position. */
  lemma SearchMembers(books: seq<Book>, term: string, b: Book)
    ensures b in SearchFilter(books, term) <==>
      b in books && (Occurs(Lower(b.title), Lower(term)) || Occurs(Lower(b.author), Lower(term)))
  {
    FilterMembers(books, MatchesSearchFn(term));
  }

  /** The empty term removes nothing. */
  lemma SearchEmptyTerm(books: seq<Book>)
    ensures SearchFilter(books, "") == books
  {
    assert Lower("") == "";
    FilterAll(books, MatchesSearchFn(""));
  }

  /** The search ignores the case of the term. */
  lemma SearchIgnoresCase(books: seq<Book>, term: string)
    ensures SearchFilter(books, Lower(term)) == SearchFilter(books, term)
  {
    LowerIdempotent(term);
    FilterSame(books, MatchesSearchFn(Lower(term)), MatchesSearchFn(term));
  }

  // ---- genre ----

  /** The second `.filter`: every book passes under "All Genres"; otherwise a book
      passes when the first category with the chosen name exists and has its id. */
  predicate KeepsGenre(cats: seq<Category>, genre: string, b: Book)
    ensures genre == AllGenres ==> KeepsGenre(cats, genre, b)
    ensures genre != AllGenres && KeepsGenre(cats, genre, b) ==>
      exists i :: 0 <= i < |cats| && cats[i].name == genre && cats[i].id == b.categoryId
    ensures genre != AllGenres && (forall i :: 0 <= i < |cats| ==> cats[i].name != genre) ==>
      !KeepsGenre(cats, genre, b)
  {
    if genre == AllGenres then true
    else match Find(cats, HasName(genre))
      case Some(c) => b.categoryId == c.id
      case None => false
  }

  function KeepsGenreFn(cats: seq<Category>, genre: string): Book -> bool {
    (b: Book) => KeepsGenre(cats, genre, b)
  }

  function GenreFilter(books: seq<Book>, cats: seq<Category>, genre: string): (r: seq<Book>)
    ensures |r| <= |books|
    ensures forall b :: b in r ==> b in books && KeepsGenre(cats, genre, b)
  {
    Filter(books, KeepsGenreFn(cats, genre))
  }

  /** "All Genres" keeps every book. */
  lemma AllGenresKeepsAll(books: seq<Book>, cats: seq<Category>)
    ensures GenreFilter(books, cats, AllGenres) == books
  {
    FilterAll(books, KeepsGenreFn(cats, AllGenres));
  }

  /** A name no category has keeps no book. */
  lemma UnknownGenreKeepsNone(books: seq<Book>, cats: seq<Category>, genre: string)
    requires genre != AllGenres
    requires forall i :: 0 <= i < |cats| ==> cats[i].name != genre
    ensures GenreFilter(books, cats, genre) == []
  {
    FilterNone(books, KeepsGenreFn(cats, genre));
  }

  /** Any other name keeps exactly the books whose category id is that of the first
      category with the name, in their order. */
  lemma GenreKeepsCategory(books: seq<Book>, cats: seq<Category>, i: nat)
    requires i < |cats| && cats[i].name != AllGenres
    requires forall j :: 0 <= j < i ==> cats[j].name != cats[i].name
    ensures GenreFilter(books, cats, cats[i].name) == Filter(books, InCategory(cats[i].id))
    ensures forall b :: b in GenreFilter(books, cats, cats[i].name) <==> b in books && b.categoryId == cats[i].id
  {
    FindIsFirst(cats, HasName(cats[i].name), i);
    FilterSame(books, KeepsGenreFn(cats, cats[i].name), InCategory(cats[i].id));
    FilterMembers(books, InCategory(cats[i].id));
  }

  function InCategory(categoryId: int): Book -> bool {
    (b: Book) => b.categoryId == categoryId
  }

  /** Every entry of the genre menu after the first selects its own category, when
      the category list is well formed. */
  lemma MenuGenreSelects(books: seq<Book>, cats: seq<Category>, i: nat)
    requires WellFormed(cats) && i < |cats| && cats[i].name != AllGenres
    ensures GenreFilter(books, cats, Genres(cats)[i + 1]) == Filter(books, InCategory(cats[i].id))
  {
    GenreKeepsCategory(books, cats, i);
  }

  /** No fixed category is called "All Genres". */
  lemma CategoriesNotAllGenres()
    ensures forall i :: 0 <= i < 14 ==> Catalog.Categories()[i].name != AllGenres
  {
    var c := Catalog.Categories();
    forall i | 0 <= i < 14
      ensures c[i].name != AllGenres
    {
      assert |c[i].name| != |AllGenres|;
    }
  }

  /** When every book is in one category, a menu entry keeps either all books or none. */
  lemma GenreOfOneCategory(books: seq<Book>, cats: seq<Category>, i: nat, id: int)
    requires i < |cats| && cats[i].name != AllGenres
    requires forall j :: 0 <= j < i ==> cats[j].name != cats[i].name
    requires forall k :: 0 <= k < |books| ==> books[k].categoryId == id
    ensures GenreFilter(books, cats, cats[i].name) == if cats[i].id == id then books else []
  {
    GenreKeepsCategory(books, cats, i);
    if cats[i].id == id {
      FilterAll(books, InCategory(id));
    } else {
      FilterNone(books, InCategory(cats[i].id));
    }
  }

  /** With the shipped data every fallback book is in the first category: its menu
      entry keeps all ten books in their order, and every other entry keeps none. */
  lemma FallbackGenres(i: nat)
    requires i < 14
    ensures GenreFilter(AllBooks(), Catalog.Categories(), Catalog.Categories()[i].name)
         == if i == 0 then AllBooks() else []
  {
    CategoriesWellFormed();
    CategoriesNotAllGenres();
    FallbackBooks();
    GenreOfOneCategory(AllBooks(), Catalog.Categories(), i, 1);
  }

  // ---- sort ----

  /** The day number the `date` comparator orders by: later dates have larger keys. */
  function DateKey(d: Date): (r: int)
    ensures r / 10000 == d.year && (r / 100) % 100 == d.month && r % 100 == d.day
  {
    var md := d.month * 100 + d.day;
    assert (d.year * 10000 + md) / 10000 == d.year;
    assert (d.year * 10000 + md) / 100 == d.year * 100 + d.month;
    assert (d.year * 100 + d.month) % 100 == d.month;
    d.year * 10000 + d.month * 100 + d.day
  }

  /** Calendar order: by year, then month, then day. */
  predicate Before(a: Date, b: Date) {
    a.year < b.year || (a.year == b.year && (a.month < b.month || (a.month == b.month && a.day < b.day)))
  }

  /** DateKey orders dates exactly as the calendar does. */
  lemma DateKeyOrder(a: Date, b: Date)
    ensures DateKey(a) < DateKey(b) <==> Before(a, b)
    ensures DateKey(a) == DateKey(b) <==> a == b
  {
    if a.year < b.year {
      assert DateKey(a) <= a.year * 10000 + 1231 < (a.year + 1) * 10000 + 101 <= DateKey(b);
    } else if b.year < a.year {
      assert DateKey(b) <= b.year * 10000 + 1231 < (b.year + 1) * 10000 + 101 <= DateKey(a);
    }
  }

  /** DateKeyOrder for all pairs of dates. */
  lemma DateKeysOrder()
    ensures forall a: Date, b: Date :: DateKey(a) < DateKey(b) <==> Before(a, b)
  {
    forall a: Date, b: Date
      ensures DateKey(a) < DateKey(b) <==> Before(a, b)
    {
      DateKeyOrder(a, b);
    }
  }

  /** The key the comparator of `.sort` subtracts: rating, review count or publish date
      for the three known sort names, and the same value for every book otherwise
      (the comparator then answers 0). */
  function SortKey(sortBy: string): (r: Book -> real)
    ensures sortBy == "rating" ==> forall b :: r(b) == b.rating
    ensures sortBy == "reviews" ==> forall b :: r(b) == b.reviewsCount as real
    ensures sortBy == "date" ==> forall a, b :: r(a) < r(b) <==> Before(a.publishDate, b.publishDate)
    ensures sortBy != "rating" && sortBy != "reviews" && sortBy != "date" ==> forall a, b :: r(a) == r(b)
  {
    DateKeysOrder();
    (b: Book) =>
      if sortBy == "rating" then b.rating
      else if sortBy == "reviews" then b.reviewsCount as real
      else if sortBy == "date" then DateKey(b.publishDate) as real
      else 0.0
  }

  /** The `.sort` of `filteredBooks`: a stable sort, largest key first. */
  function SortBooks(books: seq<Book>, sortBy: string): (r: seq<Book>)
    ensures multiset(r) == multiset(books)
  {
    SortDescending(books, SortKey(sortBy))
  }

  /** `filteredBooks`: search, then genre, then sort. */
  function Visible(books: seq<Book>, cats: seq<Category>, term: string, genre: string, sortBy: string): (r: seq<Book>)
    ensures |r| <= |books|
    ensures forall b :: b in r ==> b in books && MatchesSearch(term, b) && KeepsGenre(cats, genre, b)
  {
    var searched := SearchFilter(books, term);
    var kept := GenreFilter(searched, cats, genre);
    var sorted := SortBooks(kept, sortBy);
    assert |sorted| == |multiset(sorted)| == |kept|;
    assert forall b :: b in sorted ==> b in multiset(kept);
    sorted
  }

  /** The visible list is a permutation of the books that pass both filters: every
      book occurs as often as in the input when it passes, and not at all otherwise. */
  lemma VisiblePermutation(books: seq<Book>, cats: seq<Category>, term: string, genre: string, sortBy: string)
    ensures forall b :: (multiset(Visible(books, cats, term, genre, sortBy))[b]
      == if MatchesSearch(term, b) && KeepsGenre(cats, genre, b) then multiset(books)[b] else 0)
  {
    FilterCount(books, MatchesSearchFn(term));
    FilterCount(SearchFilter(books, term), KeepsGenreFn(cats, genre));
  }

  /** Under "rating" the visible list has non-increasing ratings. */
  lemma VisibleByRating(books: seq<Book>, cats: seq<Category>, term: string, genre: string)
    ensures var r := Visible(books, cats, term, genre, "rating");
      forall i, j :: 0 <= i < j < |r| ==> r[i].rating >= r[j].rating
  {
    SortIsDescending(GenreFilter(SearchFilter(books, term), cats, genre), SortKey("rating"));
  }

  /** Under "reviews" the visible list has non-increasing review counts. */
  lemma VisibleByReviews(books: seq<Book>, cats: seq<Category>, term: string, genre: string)
    ensures var r := Visible(books, cats, term, genre, "reviews");
      forall i, j :: 0 <= i < j < |r| ==> r[i].reviewsCount >= r[j].reviewsCount
  {
    SortIsDescending(GenreFilter(SearchFilter(books, term), cats, genre), SortKey("reviews"));
  }

  /** Under "date" no visible book is published before a book after it. */
  lemma VisibleByDate(books: seq<Book>, cats: seq<Category>, term: string, genre: string)
    ensures var r := Visible(books, cats, term, genre, "date");
      forall i, j :: 0 <= i < j < |r| ==> !Before(r[i].publishDate, r[j].publishDate)
  {
    var r := Visible(books, cats, term, genre, "date");
    SortIsDescending(GenreFilter(SearchFilter(books, term), cats, genre), SortKey("date"));
    forall i, j | 0 <= i < j < |r|
      ensures !Before(r[i].publishDate, r[j].publishDate)
    {
      DateKeyOrder(r[i].publishDate, r[j].publishDate);
    }
  }

  /** Under any other sort name the comparator always answers 0, so the filter order is kept. */
  lemma VisibleUnsorted(books: seq<Book>, cats: seq<Category>, term: string, genre: string, sortBy: string)
    requires sortBy != "rating" && sortBy != "reviews" && sortBy != "date"
    ensures Visible(books, cats, term, genre, sortBy) == GenreFilter(SearchFilter(books, term), cats, genre)
  {
    var s := GenreFilter(SearchFilter(books, term), cats, genre);
    SortConstantKey(s, SortKey(sortBy), 0.0);
  }

  /** Ties keep their order: the visible books that share a key appear in the order
      the filters leave them. */
  lemma VisibleStable(books: seq<Book>, cats: seq<Category>, term: string, genre: string, sortBy: string, k: real)
    ensures WithKey(Visible(books, cats, term, genre, sortBy), SortKey(sortBy), k)
         == WithKey(GenreFilter(SearchFilter(books, term), cats, genre), SortKey(sortBy), k)
  {
    SortIsStable(GenreFilter(SearchFilter(books, term), cats, genre), SortKey(sortBy), k);
  }

  /** With the search cleared and every genre allowed, the visible list is all books, sorted. */
  lemma ClearedShowsAll(books: seq<Book>, cats: seq<Category>, sortBy: string)
    ensures Visible(books, cats, "", AllGenres, sortBy) == SortBooks(books, sortBy)
  {
    SearchEmptyTerm(books);
    AllGenresKeepsAll(books, cats);
  }

  // ---- the page ----

  /** The state of the browse page and the setters that change it. */
  class BooksPage {
    var searchTerm: string
    var selectedGenre: string
    var sortBy: string
    var categories: seq<Category>
    var books: seq<Book>

    /** The state on first render: no term, every genre, sorted by rating, nothing loaded. */
    constructor ()
      ensures searchTerm == "" && selectedGenre == AllGenres && sortBy == "rating"
      ensures categories == [] && books == []
    {
      searchTerm := "";
      selectedGenre := AllGenres;
      sortBy := "rating";
      categories := [];
      books := [];
    }

    /** `filteredBooks` for the current state. */
    function VisibleBooks(): seq<Book>
      reads this
    {
      Visible(books, categories, searchTerm, selectedGenre, sortBy)
    }

    /** `genres` for the current state. */
    function GenreMenu(): seq<string>
      reads this
    {
      Genres(categories)
    }

    /** The loading effect: the categories and the books, fetched together, are stored. */
    method Load()
      modifies this
      ensures categories == Catalog.Categories() && books == AllBooks()
      ensures searchTerm == old(searchTerm) && selectedGenre == old(selectedGenre) && sortBy == old(sortBy)
    {
      categories := Catalog.Categories();
      books := AllBooks();
    }

    /** The search box. */
    method SetSearchTerm(term: string)
      modifies this
      ensures searchTerm == term
      ensures selectedGenre == old(selectedGenre) && sortBy == old(sortBy)
      ensures categories == old(categories) && books == old(books)
    {
      searchTerm := term;
    }

    /** The genre menu. */
    method SetSelectedGenre(genre: string)
      modifies this
      ensures selectedGenre == genre
      ensures searchTerm == old(searchTerm) && sortBy == old(sortBy)
      ensures categories == old(categories) && books == old(books)
    {
      selectedGenre := genre;
    }

    /** The sort menu. */
    method SetSortBy(key: string)
      modifies this
      ensures sortBy == key
      ensures searchTerm == old(searchTerm) && selectedGenre == old(selectedGenre)
      ensures categories == old(categories) && books == old(books)
    {
      sortBy := key;
    }

    /** "Clear Filters": the term and the genre are reset, the sort and the data kept,
        and every book becomes visible again, in sorted order. */
    method ClearFilters()
      modifies this
      ensures searchTerm == "" && selectedGenre == AllGenres
      ensures sortBy == old(sortBy) && categories == old(categories) && books == old(books)
      ensures VisibleBooks() == SortBooks(books, sortBy)
    {
      searchTerm := "";
      selectedGenre := AllGenres;
      ClearedShowsAll(books, categories, sortBy);
    }
  }
}
