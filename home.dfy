/** The landing page: the featured books and top categories it shows, the totals
    in its statistics, its testimonials, and the link each featured card makes to
    the book's review page. */
module Home {
  import opened Common
  import opened Text
  import opened Catalog
  import Uri
  import Display

  /** `featuredBooks`: the first six books, in order. */
  function FeaturedBooks(books: seq<Book>): (r: seq<Book>)
    ensures |r| == if |books| <= 6 then |books| else 6
    ensures forall i :: 0 <= i < |r| ==> r[i] == books[i]
  {
    Take(books, 6)
  }

  /** `topCategories`: the first eight categories, in order. */
  function TopCategories(cats: seq<Category>): (r: seq<Category>)
    ensures |r| == if |cats| <= 8 then |cats| else 8
    ensures forall i :: 0 <= i < |r| ==> r[i] == cats[i]
  {
    Take(cats, 8)
  }

  /** On the fallback data the featured books are those with ids 1 to 6 and the top
      categories are those with ids 1 to 8, so the first eight category names. */
  lemma FallbackSelections()
    ensures |FeaturedBooks(AllBooks())| == 6
    ensures forall i :: 0 <= i < 6 ==> FeaturedBooks(AllBooks())[i].apiId == i + 1
    ensures |TopCategories(Catalog.Categories())| == 8
    ensures forall i :: 0 <= i < 8 ==> TopCategories(Catalog.Categories())[i].id == i + 1
  {
    FallbackBooks();
  }

  /** `totalBooks`: the length of the list. It is 0 exactly for the empty list, and a
      list of at most six books is shown whole among the featured books. */
  function TotalBooks(books: seq<Book>): (r: nat)
    ensures r == 0 <==> books == []
    ensures r <= 6 ==> FeaturedBooks(books) == books
  {
    |books|
  }

  /** `totalReviews`: the `reduce` that adds up `reviewsCount`, left to right from 0. */
  function TotalReviews(books: seq<Book>): (r: int)
    ensures (forall i :: 0 <= i < |books| ==> books[i].reviewsCount >= 0) ==> r >= 0
  {
    if books == [] then 0
    else TotalReviews(books[..|books| - 1]) + books[|books| - 1].reviewsCount
  }

  /** The total over two lists laid end to end is the sum of their totals. */
  lemma {:induction false} TotalReviewsAppend(a: seq<Book>, b: seq<Book>)
    ensures TotalReviews(a + b) == TotalReviews(a) + TotalReviews(b)
    decreases |b|
  {
    if b == [] {
      assert a + b == a;
    } else {
      var c := a + b;
      assert c[..|c| - 1] == a + b[..|b| - 1];
      TotalReviewsAppend(a, b[..|b| - 1]);
    }
  }

  /** The total read from the front: the first count plus the total of the rest. */
  lemma TotalReviewsCons(b: Book, rest: seq<Book>)
    ensures TotalReviews([b] + rest) == b.reviewsCount + TotalReviews(rest)
  {
    TotalReviewsAppend([b], rest);
    assert [b][..0] == [];
  }

  /** With no negative counts the total is at least every single count. */
  lemma {:induction false} TotalReviewsBound(books: seq<Book>)
    requires forall i :: 0 <= i < |books| ==> books[i].reviewsCount >= 0
    ensures TotalReviews(books) >= 0
    ensures forall i :: 0 <= i < |books| ==> books[i].reviewsCount <= TotalReviews(books)
  {
    if books != [] {
      var init := books[..|books| - 1];
      TotalReviewsBound(init);
      assert forall i :: 0 <= i < |init| ==> init[i] == books[i];
    }
  }

  /** The sum of a list of numbers, added left to right from 0. */
  function Sum(xs: seq<int>): int {
    if xs == [] then 0 else Sum(xs[..|xs| - 1]) + xs[|xs| - 1]
  }

  /** The total is the sum of the counts. */
  lemma {:induction false} TotalReviewsIsSum(books: seq<Book>, counts: seq<int>)
    requires |books| == |counts|
    requires forall i :: 0 <= i < |books| ==> books[i].reviewsCount == counts[i]
    ensures TotalReviews(books) == Sum(counts)
  {
    if books != [] {
      TotalReviewsIsSum(books[..|books| - 1], counts[..|counts| - 1]);
    }
  }

  /** Adding one more number at the end adds it to the sum. */
  lemma SumSnoc(xs: seq<int>, x: int)
    ensures Sum(xs + [x]) == Sum(xs) + x
  {
    assert (xs + [x])[..|xs|] == xs;
  }

  /** The review counts of the fallback list add up to 8300. */
  lemma FallbackCountSum()
    ensures Sum([500, 1500, 250, 1200, 850, 300, 200, 400, 2500, 600]) == 8300
  {
    var s := [500];
    assert Sum(s) == 500;
    SumSnoc(s, 1500);
    s := s + [1500];
    SumSnoc(s, 250);
    s := s + [250];
    SumSnoc(s, 1200);
    s := s + [1200];
    SumSnoc(s, 850);
    s := s + [850];
    SumSnoc(s, 300);
    s := s + [300];
    SumSnoc(s, 200);
    s := s + [200];
    SumSnoc(s, 400);
    s := s + [400];
    SumSnoc(s, 2500);
    s := s + [2500];
    SumSnoc(s, 600);
    s := s + [600];
    assert s == [500, 1500, 250, 1200, 850, 300, 200, 400, 2500, 600];
  }

  /** The fallback list has ten books and 8300 reviews in all. */
  lemma FallbackTotals()
    ensures TotalBooks(AllBooks()) == 10
    ensures TotalReviews(AllBooks()) == 8300
  {
    FallbackBooks();
    FallbackReviewCounts();
    TotalReviewsIsSum(AllBooks(), [500, 1500, 250, 1200, 850, 300, 200, 400, 2500, 600]);
    FallbackCountSum();
  }

  // ---- testimonials ----

  /** A testimonial: who wrote it and the rating it gives. */
  datatype Testimonial = Testimonial(name: string, rating: int)

  /** `testimonials`: the three sample quotes, all rated 5. The names are split into
      pieces for the verifier's sake, as in the catalogue. */
  function Testimonials(): (r: seq<Testimonial>)
    ensures |r| == 3
    ensures forall i :: 0 <= i < |r| ==> r[i].rating == 5
  {
    [ Testimonial("Dr. Sarah " + "Mitchell", 5),
      Testimonial("James " + "Rodriguez", 5),
      Testimonial("Emily Chen", 5) ]
  }

  /** Every testimonial shows five full stars. */
  lemma TestimonialStars()
    ensures forall i :: 0 <= i < |Testimonials()| ==>
      Display.StarRow(Testimonials()[i].rating as real) == [Display.Full, Display.Full, Display.Full, Display.Full, Display.Full]
  {
    Display.StarRowExtremes(5.0);
  }

  /** The avatars of the testimonials read "DSM", "JR" and "EC". */
  lemma TestimonialInitials()
    ensures |Testimonials()| == 3
    ensures Display.Initials(Testimonials()[0].name) == "DSM"
    ensures Display.Initials(Testimonials()[1].name) == "JR"
    ensures Display.Initials(Testimonials()[2].name) == "EC"
  {
    var t := Testimonials();
    assert t[0].name == "Dr." + " " + ("Sarah" + " " + "Mitchell");
    Display.InitialsOfThreeWords("Dr.", "Sarah", "Mitchell");
    assert t[1].name == "James" + " " + "Rodriguez";
    Display.InitialsOfTwoWords("James", "Rodriguez");
    assert t[2].name == "Emily" + " " + "Chen";
    Display.InitialsOfTwoWords("Emily", "Chen");
  }

  /** The reviewer avatar of every fallback book reads "SR". */
  lemma FallbackReviewerInitials()
    ensures forall i :: 0 <= i < 10 ==> Display.Initials(AllBooks()[i].reviewer) == "SR"
  {
    FallbackBooks();
    assert SampleReviewer == "Sample" + " " + "Reviewer";
    Display.InitialsOfTwoWords("Sample", "Reviewer");
  }

  // ---- the review link of a featured card ----

  /** The review page for a link: the `/book/[slug]` route passes the path segment
      after "/book/" to `getBookBySlug`; any other path opens no book. */
  function ReviewPage(href: string): (r: Option<Book>)
    ensures r.Some? ==> |href| > 6 && href[..6] == "/book/"
    ensures r.Some? ==> r.value in AllBooks() && Uri.DecodeComponent(href[6..]) == Uri.Ok(r.value.slug)
  {
    if |href| > 6 && href[..6] == "/book/" then BookBySlug(href[6..]) else None
  }

  /** The link of a featured card as written: the book's `apiId`, not its slug, so
      the review page hands the decimal id to the slug lookup. */
  function ReviewHrefAsWritten(b: Book): (r: string)
    ensures ReviewPage(r) == BookBySlug(DecimalString(b.apiId))
  {
    LinkSegment(DecimalString(b.apiId));
    "/book/" + DecimalString(b.apiId)
  }

  /** The link as the browse page writes it: the review page hands the slug to the
      slug lookup. */
  function ReviewHref(b: Book): (r: string)
    ensures b.slug != [] ==> ReviewPage(r) == BookBySlug(b.slug)
  {
    if b.slug != [] then LinkSegment(b.slug); "/book/" + b.slug
    else "/book/" + b.slug
  }

  /** A link "/book/" followed by a non-empty segment opens what the slug lookup finds
      for that segment. */
  lemma LinkSegment(segment: string)
    requires segment != []
    ensures ReviewPage("/book/" + segment) == BookBySlug(segment)
  {
    var href := "/book/" + segment;
    assert href[..6] == "/book/" && href[6..] == segment;
  }

  /** The ids 1 to 9 are written as one digit, which needs no decoding. */
  lemma OneDigitId(n: int)
    requires 1 <= n <= 9
    ensures |DecimalString(n)| == 1 && '%' !in DecimalString(n)
  {
  }

  /** As written, no featured card of the fallback list opens its review: the
      segment is a one-digit id, no slug is that short, so the slug lookup fails,
      although the id lookup would have found the book. */
  lemma FeaturedLinksMiss(i: nat)
    requires i < 6
    ensures ReviewPage(ReviewHrefAsWritten(FeaturedBooks(AllBooks())[i])).None?
    ensures BookById(DecimalString(FeaturedBooks(AllBooks())[i].apiId)) == Some(FeaturedBooks(AllBooks())[i])
  {
    var b := AllBooks()[i];
    FallbackBooks();
    OneDigitId(b.apiId);
    ShortSlugMisses(DecimalString(b.apiId));
    FallbackBookById(i);
  }

  /** With the slug in the link every featured card opens the review of its own book. */
  lemma FeaturedLinksResolve(i: nat)
    requires i < 6
    ensures ReviewPage(ReviewHref(FeaturedBooks(AllBooks())[i])) == Some(FeaturedBooks(AllBooks())[i])
  {
    FallbackBooks();
    FallbackSlugLengths();
    FallbackBookBySlug(i);
  }
}
