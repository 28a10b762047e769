/** The catalogue of the storefront: its fixed category list, its fallback book
    list, and the lookups over them. Every list is returned before the network is
    touched, so the remote fetches after those returns never run. */
module Catalog {
  import opened Common
  import opened Text
  import Uri

  /** A category; its `createdAt` and `updatedAt` are empty in every entry and are not kept. */
  datatype Category = Category(id: int, name: string)

  type Month = m: int | 1 <= m <= 12 witness 1
  type Day = d: int | 1 <= d <= 31 witness 1

  /** An ISO 8601 calendar date, as in the `publishDate` strings. */
  datatype Date = Date(year: int, month: Month, day: Day)

  /** The fields of a processed book that the storefront's logic reads.
      `rating` is the real number the record holds; `apiId` is the id used for routing. */
  datatype Book = Book(
    apiId: int, id: int, slug: string, title: string, author: string,
    rating: real, reviewsCount: int, tags: seq<string>, reviewer: string,
    publishDate: Date, categoryId: int)

  // ---- categories ----

  /** `getCategories`: the fourteen fixed categories, numbered 1 to 14 in order. */
  function Categories(): (r: seq<Category>)
    ensures |r| == 14
    ensures forall i :: 0 <= i < |r| ==> r[i].id == i + 1
  {
    [
      Category(1, "Arts & Photography"),
      Category(2, "Biographies & Memoirs"),
      Category(3, "Business & Money"),
      Category(4, "Children's Books"),
      Category(5, "Comics & Graphic Novels"),
      Category(6, "Computers & Technology"),
      Category(7, "Cookbooks, Food & Wine"),
      Category(8, "Health, Fitness & Dieting"),
      Category(9, "History"),
      Category(10, "Literature & Fiction"),
      Category(11, "Mystery, Thriller & Suspense"),
      Category(12, "Romance"),
      Category(13, "Science Fiction & Fantasy"),
      Category(14, "Self-Help")
    ]
  }

  /** Ids distinct and non-zero, names distinct and non-empty. */
  ghost predicate WellFormed(cats: seq<Category>) {
    && (forall i :: 0 <= i < |cats| ==> cats[i].id != 0 && cats[i].name != "")
    && (forall i, j :: 0 <= i < j < |cats| ==> cats[i].id != cats[j].id && cats[i].name != cats[j].name)
  }

  /** The fixed category list is well formed. */
  lemma CategoriesWellFormed()
    ensures WellFormed(Categories())
  {
    var c := Categories();
    forall i, j | 0 <= i < j < |c|
      ensures c[i].name != c[j].name
    {
      assert i < 14 && j < 14;
      assert |c[i].name| != |c[j].name| || c[i].name[0] != c[j].name[0] || c[i].name[2] != c[j].name[2];
    }
  }

  function HasId(categoryId: int): Category -> bool {
    (c: Category) => c.id == categoryId
  }

  function HasName(name: string): Category -> bool {
    (c: Category) => c.name == name
  }

  /** `getCategoryName`: the name of the first category with this id, or
      "Unknown Category" when there is none or its name is empty. */
  function CategoryName(cats: seq<Category>, categoryId: int): (r: string)
    ensures r != ""
    ensures (forall i :: 0 <= i < |cats| ==> cats[i].id != categoryId) ==> r == "Unknown Category"
  {
    match Find(cats, HasId(categoryId))
    case Some(c) => if c.name != "" then c.name else "Unknown Category"
    case None => "Unknown Category"
  }

  /** CategoryName answers with the first category whose id matches. */
  lemma CategoryNameFirst(cats: seq<Category>, categoryId: int, i: nat)
    requires i < |cats| && cats[i].id == categoryId
    requires forall j :: 0 <= j < i ==> cats[j].id != categoryId
    ensures CategoryName(cats, categoryId) == if cats[i].name != "" then cats[i].name else "Unknown Category"
  {
    FindIsFirst(cats, HasId(categoryId), i);
  }

  /** `getCategoryId`: the id of the first category with exactly this name, or null
      (None) when there is none; an id of 0 also comes back as null, because `||`
      treats 0 as missing. */
  function CategoryId(cats: seq<Category>, name: string): (r: Option<int>)
    ensures r.Some? ==> r.value != 0 && exists i :: 0 <= i < |cats| && cats[i].name == name && cats[i].id == r.value
    ensures (forall i :: 0 <= i < |cats| ==> cats[i].name != name) ==> r.None?
  {
    match Find(cats, HasName(name))
    case Some(c) => if c.id != 0 then Some(c.id) else None
    case None => None
  }

  /** CategoryId answers with the first category whose name matches. */
  lemma CategoryIdFirst(cats: seq<Category>, name: string, i: nat)
    requires i < |cats| && cats[i].name == name
    requires forall j :: 0 <= j < i ==> cats[j].name != name
    ensures CategoryId(cats, name) == if cats[i].id != 0 then Some(cats[i].id) else None
  {
    FindIsFirst(cats, HasName(name), i);
  }

  /** On a well-formed list, name to id and id to name are inverse lookups. */
  lemma CategoryRoundTrip(cats: seq<Category>, i: nat)
    requires WellFormed(cats) && i < |cats|
    ensures CategoryId(cats, cats[i].name) == Some(cats[i].id)
    ensures CategoryName(cats, cats[i].id) == cats[i].name
    ensures CategoryName(cats, CategoryId(cats, cats[i].name).value) == cats[i].name
    ensures CategoryId(cats, CategoryName(cats, cats[i].id)) == Some(cats[i].id)
  {
    FindUnique(cats, HasName(cats[i].name), i);
    FindUnique(cats, HasId(cats[i].id), i);
  }

  /** The round trips hold on the fixed category list. */
  lemma FixedCategoryRoundTrip(i: nat)
    requires i < 14
    ensures CategoryName(Categories(), i + 1) == Categories()[i].name
    ensures CategoryId(Categories(), Categories()[i].name) == Some(i + 1)
  {
    CategoriesWellFormed();
    CategoryRoundTrip(Categories(), i);
  }

  // ---- books ----

  /** `getAllBooks`: the ten fallback books (the fetch after its `return` never runs). */
  function AllBooks(): (r: seq<Book>)
    ensures |r| == 10
  {
    [FallbackBook1(), FallbackBook2(), FallbackBook3(), FallbackBook4(), FallbackBook5(), FallbackBook6(), FallbackBook7(), FallbackBook8(), FallbackBook9(), FallbackBook10()]
  }

  /** The reviewer every fallback book names. */
  const SampleReviewer := "Sample " + "Reviewer"

  /** The slugs of the fallback books, in list order. They are kept apart from the
      other fields so that proofs about a slug need not see the rest of its record. */
  // The long string literals of this file are written as concatenations of short
  // pieces: the verifier's cost on one literal grows quickly with its length, and
  // the concatenation denotes the same string.
  function FallbackSlugs(): seq<string> {
    [ "the-women-" + "of-" + "arlington-" + "hall-novel",
      "the-" + "secret-of-" + "secrets-" + "robert-" + "langdon",
      "just-" + "shine-how-" + "to-be-a-" + "better-you",
      "my-first-" + "learn-to-" + "write-" + "workbook",
      "wild-card-" + "elsie-" + "silver",
      "avatar-" + "jonathan-" + "cahn",
      "nemesis-" + "unputdownable-" + "gripping-" + "thriller",
      "dating-" + "after-the-" + "end-of-" + "the-world-" + "jeneva-" + "rose",
      "i-love-" + "you-to-" + "the-moon-" + "and-back",
      "the-" + "reckoning-" + "hour-" + "lincoln-" + "legal-" + "thriller" ]
  }

  function FallbackBook1(): Book {
    Book(apiId := 1, id := 1,
      slug := FallbackSlugs()[0],
      title := "The Women " + "of " + "Arlington " + "Hall: A " + "Novel",
      author := "Kate Quinn", rating := 4.7, reviewsCount := 500,
      tags := ["historical-" + "fiction", "world-war-" + "ii", "codebreakers", "women-in-" + "history", "espionage"],
      reviewer := SampleReviewer, publishDate := Date(2024, 11, 5), categoryId := 1)
  }

  function FallbackBook2(): Book {
    Book(apiId := 2, id := 2,
      slug := FallbackSlugs()[1],
      title := "The " + "Secret of " + "Secrets " + "(A Robert " + "Langdon " + "Novel)",
      author := "James " + "Rollins", rating := 4.2, reviewsCount := 1500,
      tags := ["mystery", "thriller", "robert-" + "langdon", "dan-brown"],
      reviewer := SampleReviewer, publishDate := Date(2025, 9, 15), categoryId := 1)
  }

  function FallbackBook3(): Book {
    Book(apiId := 3, id := 3,
      slug := FallbackSlugs()[2],
      title := "Just " + "Shine: " + "How to Be " + "a Better " + "You",
      author := "Sigma", rating := 4.6, reviewsCount := 250,
      tags := ["self-help", "personal-" + "development", "motivation"],
      reviewer := SampleReviewer, publishDate := Date(2023, 5, 16), categoryId := 1)
  }

  function FallbackBook4(): Book {
    Book(apiId := 4, id := 4,
      slug := FallbackSlugs()[3],
      title := "My First " + "Learn-to-" + "Write " + "Workbook: " + "Practice " + "for Kids " + "with Pen " + "Control, " + "Line " + "Tracing, " + "Letters, " + "and More!",
      author := "Crystal " + "Radke", rating := 4.7, reviewsCount := 1200,
      tags := ["children", "workbook", "handwriting", "preschool", "education"],
      reviewer := SampleReviewer, publishDate := Date(2019, 8, 20), categoryId := 1)
  }

  function FallbackBook5(): Book {
    Book(apiId := 5, id := 5,
      slug := FallbackSlugs()[4],
      title := "Wild Card " + "(The " + "Morgan " + "Brothers " + "Book 4)",
      author := "Elsie " + "Silver", rating := 4.8, reviewsCount := 850,
      tags := ["romance", "contemporary", "small-town", "sports", "cowboy"],
      reviewer := SampleReviewer, publishDate := Date(2024, 10, 8), categoryId := 1)
  }

  function FallbackBook6(): Book {
    Book(apiId := 6, id := 6,
      slug := FallbackSlugs()[5],
      title := "The Avatar",
      author := "Jonathan " + "Cahn", rating := 4.9, reviewsCount := 300,
      tags := ["christian", "prophecy", "spiritual", "biblical"],
      reviewer := SampleReviewer, publishDate := Date(2025, 9, 3), categoryId := 1)
  }

  function FallbackBook7(): Book {
    Book(apiId := 7, id := 7,
      slug := FallbackSlugs()[6],
      title := "Nemesis " + "(An " + "unputdownable " + "and " + "gripping " + "thriller) " + "(The " + "Thriller " + "Series)",
      author := "K.J. " + "McGill", rating := 4.5, reviewsCount := 200,
      tags := ["thriller", "psychological", "suspense", "mystery", "crime"],
      reviewer := SampleReviewer, publishDate := Date(2024, 12, 1), categoryId := 1)
  }

  function FallbackBook8(): Book {
    Book(apiId := 8, id := 8,
      slug := FallbackSlugs()[7],
      title := "Dating " + "After the " + "End of " + "the World",
      author := "Jeneva " + "Rose", rating := 4.6, reviewsCount := 400,
      tags := ["romance", "post-" + "apocalyptic", "romantic-" + "comedy", "survival", "dating"],
      reviewer := SampleReviewer, publishDate := Date(2024, 10, 15), categoryId := 1)
  }

  function FallbackBook9(): Book {
    Book(apiId := 9, id := 9,
      slug := FallbackSlugs()[8],
      title := "I Love " + "You to " + "the Moon " + "and Back",
      author := "Amelia " + "Hepworth", rating := 4.8, reviewsCount := 2500,
      tags := ["children", "board-book", "bedtime", "love", "parenting"],
      reviewer := SampleReviewer, publishDate := Date(2015, 3, 3), categoryId := 1)
  }

  function FallbackBook10(): Book {
    Book(apiId := 10, id := 10,
      slug := FallbackSlugs()[9],
      title := "The " + "Reckoning " + "Hour: A " + "Lincoln " + "Legal " + "Thriller",
      author := "John " + "Grisham", rating := 4.4, reviewsCount := 600,
      tags := ["legal-" + "thriller", "mystery", "suspense", "courtroom-" + "drama", "crime"],
      reviewer := SampleReviewer, publishDate := Date(2024, 10, 22), categoryId := 1)
  }

  /** The fallback list has ten books; `apiId` equals `id` and runs from 1 to 10, and
      every book is in category 1. */
  lemma FallbackBooks()
    ensures |AllBooks()| == 10
    ensures forall i :: 0 <= i < 10 ==> AllBooks()[i].apiId == AllBooks()[i].id == i + 1
    ensures forall i :: 0 <= i < 10 ==> AllBooks()[i].categoryId == 1
    ensures forall i :: 0 <= i < 10 ==> AllBooks()[i].slug == FallbackSlugs()[i]
    ensures forall i :: 0 <= i < 10 ==> AllBooks()[i].reviewer == SampleReviewer
  {
    var b := AllBooks();
    assert |b| == 10;
    forall i | 0 <= i < 10
      ensures b[i].apiId == b[i].id == i + 1 && b[i].categoryId == 1
      ensures b[i].slug == FallbackSlugs()[i] && b[i].reviewer == SampleReviewer
    {
      assert i == 0 || i == 1 || i == 2 || i == 3 || i == 4 || i == 5 || i == 6 || i == 7 || i == 8 || i == 9;
    }
  }

  // One lemma per slug keeps each proof to a single literal; a single lemma over
  // all ten slugs is beyond the verifier's budget.
  lemma SlugPlain0() ensures '%' !in FallbackSlugs()[0] {}
  lemma SlugPlain1() ensures '%' !in FallbackSlugs()[1] {}
  lemma SlugPlain2() ensures '%' !in FallbackSlugs()[2] {}
  lemma SlugPlain3() ensures '%' !in FallbackSlugs()[3] {}
  lemma SlugPlain4() ensures '%' !in FallbackSlugs()[4] {}
  lemma SlugPlain5() ensures '%' !in FallbackSlugs()[5] {}
  lemma SlugPlain6() ensures '%' !in FallbackSlugs()[6] {}
  lemma SlugPlain7() ensures '%' !in FallbackSlugs()[7] {}
  lemma SlugPlain8() ensures '%' !in FallbackSlugs()[8] {}
  lemma SlugPlain9() ensures '%' !in FallbackSlugs()[9] {}

  /** The review counts of the fallback books, in list order. */
  lemma FallbackReviewCounts()
    ensures forall i :: 0 <= i < 10 ==>
      AllBooks()[i].reviewsCount == [500, 1500, 250, 1200, 850, 300, 200, 400, 2500, 600][i]
  {
    var b := AllBooks();
    forall i | 0 <= i < 10
      ensures b[i].reviewsCount == [500, 1500, 250, 1200, 850, 300, 200, 400, 2500, 600][i]
    {
      assert i == 0 || i == 1 || i == 2 || i == 3 || i == 4 || i == 5 || i == 6 || i == 7 || i == 8 || i == 9;
    }
  }

  /** No slug of the fallback list contains '%'. */
  lemma FallbackSlugPlain(i: nat)
    requires i < 10
    ensures '%' !in AllBooks()[i].slug
  {
    FallbackBooks();
    if i == 0 { SlugPlain0(); } else if i == 1 { SlugPlain1(); } else if i == 2 { SlugPlain2(); }
    else if i == 3 { SlugPlain3(); } else if i == 4 { SlugPlain4(); } else if i == 5 { SlugPlain5(); }
    else if i == 6 { SlugPlain6(); } else if i == 7 { SlugPlain7(); } else if i == 8 { SlugPlain8(); }
    else { SlugPlain9(); }
  }

  /** The lengths of the fallback slugs, in list order. */
  lemma FallbackSlugLengths()
    ensures forall i :: 0 <= i < 10 ==>
      |AllBooks()[i].slug| == [33, 36, 33, 32, 22, 20, 39, 45, 31, 41][i]
    ensures forall i :: 0 <= i < 10 ==> |AllBooks()[i].slug| >= 20
  {
    var s := FallbackSlugs();
    assert forall i :: 0 <= i < 10 ==> |s[i]| == [33, 36, 33, 32, 22, 20, 39, 45, 31, 41][i];
    FallbackBooks();
  }

  /** No two slugs of the fallback list are equal: all lengths differ except the first
      and the third, which differ in their first letter. */
  lemma FallbackSlugsDistinct()
    ensures forall i, j :: 0 <= i < j < 10 ==> AllBooks()[i].slug != AllBooks()[j].slug
  {
    FallbackSlugLengths();
    FallbackBooks();
    assert FallbackSlugs()[0][0] != FallbackSlugs()[2][0];
  }

  /** `getBooksByCategory`: an early `return []` makes the result empty for every id. */
  function BooksByCategory(categoryId: int): (r: seq<Book>)
    ensures r == []
  {
    []
  }

  function HasIdString(bookId: string): Book -> bool {
    (b: Book) => DecimalString(b.apiId) == bookId
  }

  function HasSlug(slug: string): Book -> bool {
    (b: Book) => b.slug == slug
  }

  /** The lookup of `getBookById` over a given list: the first book whose `apiId`,
      written in decimal, is exactly `bookId`. */
  function FindBookById(books: seq<Book>, bookId: string): (r: Option<Book>)
    ensures r.Some? ==> r.value in books && DecimalString(r.value.apiId) == bookId
    ensures r.None? <==> forall i :: 0 <= i < |books| ==> DecimalString(books[i].apiId) != bookId
  {
    Find(books, HasIdString(bookId))
  }

  /** `getBookById`, over the fallback list. */
  function BookById(bookId: string): (r: Option<Book>)
    ensures r.Some? ==> r.value in AllBooks() && DecimalString(r.value.apiId) == bookId
    ensures r.None? <==> forall b :: b in AllBooks() ==> DecimalString(b.apiId) != bookId
  {
    FindBookById(AllBooks(), bookId)
  }

  /** FindBookById answers with the first book whose decimal id matches. */
  lemma FindBookByIdFirst(books: seq<Book>, bookId: string, i: nat)
    requires i < |books| && DecimalString(books[i].apiId) == bookId
    requires forall j :: 0 <= j < i ==> DecimalString(books[j].apiId) != bookId
    ensures FindBookById(books, bookId) == Some(books[i])
  {
    FindIsFirst(books, HasIdString(bookId), i);
  }

  /** When ids are distinct, looking a book up by its own decimal id finds it. */
  lemma FindBookByOwnId(books: seq<Book>, i: nat)
    requires i < |books|
    requires forall j, k :: 0 <= j < k < |books| ==> books[j].apiId != books[k].apiId
    ensures FindBookById(books, DecimalString(books[i].apiId)) == Some(books[i])
  {
    forall j | 0 <= j < |books| && HasIdString(DecimalString(books[i].apiId))(books[j])
      ensures j == i
    {
      DecimalStringInjective(books[j].apiId, books[i].apiId);
    }
    FindUnique(books, HasIdString(DecimalString(books[i].apiId)), i);
  }

  /** Every fallback book is found by its own id, and "0" or a zero-padded id finds nothing. */
  lemma FallbackBookById(i: nat)
    requires i < 10
    ensures BookById(DecimalString(i + 1)) == Some(AllBooks()[i])
    ensures BookById("0").None? && BookById("0" + DecimalString(i + 1)).None?
  {
    var b := AllBooks();
    FallbackBooks();
    FindBookByOwnId(b, i);
    var padded := "0" + DecimalString(i + 1);
    assert |padded| > 1 && padded[0] == '0';
    forall j | 0 <= j < 10
      ensures DecimalString(b[j].apiId) != "0" && DecimalString(b[j].apiId) != padded
    {
      DecimalStringInjective(b[j].apiId, 0);
    }
  }

  /** The lookup of `getBookBySlug` over a given list: the argument is percent-decoded
      and matched against `slug`; a decoding error is caught and gives null (None). */
  function FindBookBySlug(books: seq<Book>, bookSlug: string): (r: Option<Book>)
    ensures Uri.DecodeComponent(bookSlug).UriError? ==> r.None?
    ensures r.Some? ==> r.value in books && Uri.DecodeComponent(bookSlug) == Uri.Ok(r.value.slug)
    ensures Uri.DecodeComponent(bookSlug).Ok? ==>
      (r.None? <==> forall i :: 0 <= i < |books| ==> books[i].slug != Uri.DecodeComponent(bookSlug).value)
  {
    match Uri.DecodeComponent(bookSlug)
    case UriError => None
    case Ok(decoded) => Find(books, HasSlug(decoded))
  }

  /** `getBookBySlug`, over the fallback list. */
  function BookBySlug(bookSlug: string): (r: Option<Book>)
    ensures Uri.DecodeComponent(bookSlug).UriError? ==> r.None?
    ensures r.Some? ==> r.value in AllBooks() && Uri.DecodeComponent(bookSlug) == Uri.Ok(r.value.slug)
    ensures Uri.DecodeComponent(bookSlug).Ok? ==>
      (r.None? <==> forall b :: b in AllBooks() ==> b.slug != Uri.DecodeComponent(bookSlug).value)
  {
    FindBookBySlug(AllBooks(), bookSlug)
  }

  /** FindBookBySlug answers with the first book whose slug equals the decoded argument. */
  lemma FindBookBySlugFirst(books: seq<Book>, bookSlug: string, i: nat)
    requires Uri.DecodeComponent(bookSlug).Ok?
    requires i < |books| && books[i].slug == Uri.DecodeComponent(bookSlug).value
    requires forall j :: 0 <= j < i ==> books[j].slug != Uri.DecodeComponent(bookSlug).value
    ensures FindBookBySlug(books, bookSlug) == Some(books[i])
  {
    FindIsFirst(books, HasSlug(Uri.DecodeComponent(bookSlug).value), i);
  }

  /** A slug without '%' is matched verbatim. */
  lemma FindBookBySlugVerbatim(books: seq<Book>, bookSlug: string)
    requires '%' !in bookSlug
    ensures FindBookBySlug(books, bookSlug) == Find(books, HasSlug(bookSlug))
  {
    forall k | 0 <= k < |bookSlug|
      ensures bookSlug[k] != '%'
    {
      assert bookSlug[k] in bookSlug;
    }
    Uri.DecodeWithoutPercent(bookSlug);
  }

  /** A name without '%' that is shorter than every slug finds no book. */
  lemma FindBookBySlugShort(books: seq<Book>, bookSlug: string)
    requires '%' !in bookSlug
    requires forall j :: 0 <= j < |books| ==> |bookSlug| < |books[j].slug|
    ensures FindBookBySlug(books, bookSlug).None?
  {
    FindBookBySlugVerbatim(books, bookSlug);
    assert forall j :: 0 <= j < |books| ==> !HasSlug(bookSlug)(books[j]);
  }

  /** On the fallback list, a name without '%' and shorter than 20 characters finds no book. */
  lemma ShortSlugMisses(bookSlug: string)
    requires '%' !in bookSlug && |bookSlug| < 20
    ensures BookBySlug(bookSlug).None?
  {
    FallbackSlugLengths();
    FindBookBySlugShort(AllBooks(), bookSlug);
  }

  /** Every fallback book is found by its slug, written plainly or percent-encoded;
      a malformed escape finds nothing. */
  lemma FallbackBookBySlug(i: nat)
    requires i < 10
    ensures BookBySlug(AllBooks()[i].slug) == Some(AllBooks()[i])
    ensures BookBySlug(Uri.EncodeComponent(AllBooks()[i].slug)) == Some(AllBooks()[i])
    ensures BookBySlug("%").None?
  {
    var b := AllBooks();
    FallbackSlugPlain(i);
    FallbackSlugsDistinct();
    FindUnique(b, HasSlug(b[i].slug), i);
    FindBookBySlugVerbatim(b, b[i].slug);
    Uri.DecodeEncode(b[i].slug);
    Uri.DecodeMalformedEscape("%");
  }
}
