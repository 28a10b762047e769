# Bookstore catalogue: a verified model

The storefront is a Next.js site of expert book reviews. These modules model its catalogue logic and prove its properties:

- the fixed category list and the fallback book list served by `lib/api.ts`;
- the lookups over those lists: category name by id, category id by name, book by decimal id, and book by percent-decoded slug;
- the browse page (`app/books/page.tsx`): its page state, its genre menu and the `filteredBooks` pipeline (search filter, genre filter, stable sort by the chosen key);
- the "Clear Filters" reset;
- the landing page (`app/page.tsx`): the featured books, the top categories, the totals, the testimonials and the review links;
- the display rules both pages share: the five-cell star row, tag chips with the "+N more" overflow chip, and avatar initials.

Modules, one per file:

| module | file | what it holds |
|---|---|---|
| `Common` | common.dfy | `Option`, plus `find`, `filter` and `slice(0, n)` of JavaScript arrays |
| `Text` | text.dfy | `toLowerCase` on A–Z, `includes`, and the decimal `toString` of an integer |
| `Uri` | uri.dfy | `decodeURIComponent` (ECMA-262 10th edition, section 18.2.6.1.2; percent-encoding as in section 2.1 of RFC 3986), and `encodeURIComponent` (section 18.2.6.1.1) as its inverse |
| `Sorting` | sorting.dfy | the stable `Array.prototype.sort` (section 22.1.3.27) with a "largest key first" comparator |
| `Catalog` | catalog.dfy | `lib/api.ts` |
| `Display` | display.dfy | star row, tag chips, initials |
| `Browse` | browse.dfy | `app/books/page.tsx`, including the page state as the class `BooksPage` |
| `Home` | home.dfy | `app/page.tsx` |

Every list in `lib/api.ts` is returned before the network is touched. The model therefore treats `getCategories`, `getAllBooks` and `getBooksByCategory` as constants.

`getBookById` and `getBookBySlug` read the fallback list. Each is modelled twice:

- as a lookup over any list (`FindBookById`, `FindBookBySlug`), where the general lemmas are proved;
- over the fallback list (`BookById`, `BookBySlug`).

A rating is a `real`. A publish date is a calendar date `(year, month, day)`, ordered by the key `year*10000 + month*100 + day`. The `filteredBooks` sort is modelled as a stable insertion sort, and `Sorting.TheStableSort` proves it is the only result a stable sort with that comparator can give.

## Model

| member | source | states |
|---|---|---|
| Common.Find | lib/api.ts:130 | The value found satisfies the test and is in the list; the result is None exactly when no element passes. |
| Common.FindIsFirst | app/books/page.tsx:137 | `find` returns the element at the first index whose test passes. |
| Common.FindUnique | lib/api.ts:136 | When exactly one element passes, `find` returns that element. |
| Common.Filter | app/books/page.tsx:128-139 | `filter` never lengthens the list, and every element it keeps is in the input and passes the test. |
| Common.FilterCount | app/books/page.tsx:128-139 | Filter adds, loses and duplicates nothing: a passing value occurs as often as in the input, any other value not at all. |
| Common.FilterMembers | app/books/page.tsx:128-139 | A value is kept exactly when it is in the input and passes. |
| Common.FilterAll | app/books/page.tsx:135 | A filter every element passes returns the input unchanged. |
| Common.FilterNone | app/books/page.tsx:138 | A filter no element passes returns the empty list. |
| Common.FilterAppend | app/books/page.tsx:128-139 | Filtering a concatenation filters each part. |
| Common.FilterSame | app/books/page.tsx:128-139 | Two tests that agree on every element filter alike. |
| Common.Take | app/page.tsx:32-35 | `slice(0, n)` has length min(n, length) and each element equals the input's at the same index. |
| Text.Lower | app/books/page.tsx:131-132 | `toLowerCase` keeps the length and lower-cases each character on its own: A–Z become a–z, every other character stays. |
| Text.LowerIdempotent | app/books/page.tsx:131-132 | A lower-cased string holds no A–Z letter, and lower-casing it again changes nothing. |
| Text.Contains | app/books/page.tsx:131-132 | A string includes only needles no longer than itself, and it always includes the empty needle. |
| Text.ContainsIff | app/books/page.tsx:131-132 | `includes` holds exactly when the needle equals some slice of the string. |
| Text.NatString | lib/api.ts:609 | A natural number's decimal form is non-empty, all digits, with no leading zero. |
| Text.DecimalString | lib/api.ts:609 | `toString` of an integer is non-empty, starts with '-' exactly for a negative number, and is otherwise all decimal digits. |
| Text.NatStringValue | lib/api.ts:609 | The decimal digits of n read back as n. |
| Text.DecimalStringInjective | lib/api.ts:609 | Distinct integers have distinct decimal forms. |
| Uri.DecodeComponent | lib/api.ts:622 | `decodeURIComponent` never lengthens its argument: every escape gives one character, every other character itself. |
| Uri.DecodeWithoutPercent | lib/api.ts:622 | A string with no '%' decodes to itself. |
| Uri.DecodeMalformedEscape | lib/api.ts:622 | A '%' not followed by two hexadecimal digits makes decoding throw. |
| Uri.Utf8Decodes | lib/api.ts:622 | The UTF-8 octets of a non-ASCII character form a valid lead octet and continuation octets, and they decode to that character. |
| Uri.DecodeEncodedChar | lib/api.ts:622 | Decoding an encoded character followed by more text gives the character followed by the decoding of that text. |
| Uri.EncodeComponent | lib/api.ts:622 | `encodeURIComponent`, the inverse of the decoding: its result is at least as long as the argument and holds only unreserved characters and '%'. |
| Uri.DecodeEncode | lib/api.ts:622 | Round trip: decoding the `encodeURIComponent` of any string gives the string back. |
| Uri.EncodeUnreserved | lib/api.ts:622 | A string of unreserved characters encodes to itself. |
| Sorting.SortDescending | app/books/page.tsx:140-145 | The sorted list is a permutation of the input. |
| Sorting.SortIsDescending | app/books/page.tsx:140-145 | After the sort, keys never increase along the list. |
| Sorting.SortIsStable | app/books/page.tsx:140-145 | Elements with equal keys keep their input order. |
| Sorting.SortConstantKey | app/books/page.tsx:144 | A comparator that always answers 0 leaves the list as it was. |
| Sorting.DescendingStableUnique | app/books/page.tsx:140-145 | Two lists that are descending, permutations of each other, and in the same order within every key are equal. |
| Sorting.TheStableSort | app/books/page.tsx:140-145 | Any descending permutation of the input that keeps ties in input order is the modelled sort's result. |
| Catalog.Categories | lib/api.ts:76-92 | `getCategories` returns 14 categories, with ids 1 to 14 in order. |
| Catalog.CategoriesWellFormed | lib/api.ts:77-92 | The fixed categories have non-zero ids, non-empty names, and distinct ids and names. |
| Catalog.CategoryName | lib/api.ts:129-132 | The result is never empty, and it is "Unknown Category" when no id matches. |
| Catalog.CategoryNameFirst | lib/api.ts:129-132 | The result is the name of the first category with the id, or "Unknown Category" if that name is empty. |
| Catalog.CategoryId | lib/api.ts:135-138 | A returned id is non-zero and belongs to a category with that exact name; no matching name gives null. |
| Catalog.CategoryIdFirst | lib/api.ts:135-138 | The result is the id of the first category with the name, or null if that id is 0, which the logical-or fallback treats as missing. |
| Catalog.CategoryRoundTrip | lib/api.ts:129-138 | On a well-formed list, name→id and id→name are inverse, in both directions. |
| Catalog.FixedCategoryRoundTrip | lib/api.ts:129-138 | On the fixed list, id i+1 names category i, and its name gives back id i+1. |
| Catalog.AllBooks | lib/api.ts:141-514 | `getAllBooks` returns the ten fallback books. |
| Catalog.FallbackBooks | lib/api.ts:141-514 | The fallback list has 10 books: `apiId == id == i+1`, every `categoryId` is 1, and every reviewer is "Sample Reviewer". |
| Catalog.FallbackReviewCounts | lib/api.ts:141-514 | Lists the review counts of the ten fallback books, in order. |
| Catalog.FallbackSlugPlain | lib/api.ts:141-514 | No fallback slug contains '%'. |
| Catalog.FallbackSlugLengths | lib/api.ts:141-514 | Lists the lengths of the ten fallback slugs; every one is at least 20 characters long. |
| Catalog.FallbackSlugsDistinct | lib/api.ts:141-514 | The ten fallback slugs are pairwise distinct. |
| Catalog.BooksByCategory | lib/api.ts:592-593 | `getBooksByCategory` returns the empty list for every id. |
| Catalog.FindBookById | lib/api.ts:606-615 | A returned book is in the list and its decimal `apiId` equals the argument; null exactly when no book's id matches. |
| Catalog.FindBookByIdFirst | lib/api.ts:606-615 | The lookup returns the first book whose decimal `apiId` equals the argument. |
| Catalog.BookById | lib/api.ts:606-615 | `getBookById` over the fallback list: a returned book is one of the ten and its decimal id is the argument; null exactly when no fallback book has that id. |
| Catalog.FindBookByOwnId | lib/api.ts:606-615 | With distinct ids, looking a book up by its own decimal `apiId` returns it. |
| Catalog.FallbackBookById | lib/api.ts:606-615 | Each fallback book is found by its decimal id; "0" and zero-padded ids find nothing. |
| Catalog.FindBookBySlug | lib/api.ts:618-631 | A decoding error gives null. A returned book's slug equals the decoded argument. After a successful decode, the result is null exactly when no slug equals the decoded text. |
| Catalog.FindBookBySlugFirst | lib/api.ts:618-631 | After a successful decode, the lookup returns the first book whose slug equals the decoded text. |
| Catalog.BookBySlug | lib/api.ts:618-631 | `getBookBySlug` over the fallback list: the thrown decoding error is caught and gives null; a returned book is one of the ten with the decoded argument as slug; after a successful decode, null exactly when no fallback slug equals the decoded text. |
| Catalog.FindBookBySlugVerbatim | lib/api.ts:618-631 | An argument without '%' is matched verbatim. |
| Catalog.FindBookBySlugShort | lib/api.ts:618-631 | An argument without '%' shorter than every slug finds nothing. |
| Catalog.ShortSlugMisses | lib/api.ts:618-631 | On the fallback list, an argument without '%' and shorter than 20 characters finds nothing. |
| Catalog.FallbackBookBySlug | lib/api.ts:618-631 | Each fallback book is found by its slug, written plainly or percent-encoded; "%" finds nothing. |
| Browse.Genres | app/books/page.tsx:126 | The genre menu is "All Genres" followed by the category names in order, so it has one entry more than the categories. |
| Browse.MatchesSearch | app/books/page.tsx:129-133 | A book matches exactly when its lower-cased title or its lower-cased author has the lower-cased term at some position. |
| Browse.SearchFilter | app/books/page.tsx:129-133 | The search filter keeps only books of the input that match the term, and never lengthens the list. |
| Browse.SearchMembers | app/books/page.tsx:129-133 | A book is kept exactly when it is in the input and its lower-cased title or author has the lower-cased term at some position. |
| Browse.SearchEmptyTerm | app/books/page.tsx:129-133 | An empty search term removes nothing. |
| Browse.SearchIgnoresCase | app/books/page.tsx:129-133 | Lower-casing the term does not change the result. |
| Browse.KeepsGenre | app/books/page.tsx:134-139 | "All Genres" keeps every book. Any other genre keeps a book only when some category has that name and the book's `categoryId`; a name no category has keeps nothing. |
| Browse.GenreFilter | app/books/page.tsx:134-139 | The genre filter keeps only books of the input that the genre keeps, and never lengthens the list. |
| Browse.AllGenresKeepsAll | app/books/page.tsx:135 | "All Genres" keeps every book. |
| Browse.UnknownGenreKeepsNone | app/books/page.tsx:137-138 | A genre no category has keeps no book. |
| Browse.GenreKeepsCategory | app/books/page.tsx:134-139 | Any other genre keeps exactly the books whose `categoryId` is the id of the first category with that name, in input order. |
| Browse.MenuGenreSelects | app/books/page.tsx:126-139 | On a well-formed category list, each menu entry after the first selects its own category. |
| Browse.GenreOfOneCategory | app/books/page.tsx:134-139 | When all books share one category, a menu entry keeps all of them or none. |
| Browse.FallbackGenres | app/books/page.tsx:134-139 | On the shipped data, the first category keeps all ten books and every other category keeps none. |
| Browse.DateKey | app/books/page.tsx:143 | The date key holds the year, month and day in separate decimal places, so each can be read back from it. |
| Browse.DateKeyOrder | app/books/page.tsx:143 | The date key orders dates as the calendar does, and equal keys mean equal dates. |
| Browse.SortKey | app/books/page.tsx:140-145 | "rating" sorts by rating, "reviews" by review count, "date" by a key that orders dates as the calendar does; any other name gives every book the same key. |
| Browse.SortBooks | app/books/page.tsx:140-145 | The sort is a permutation of its input. |
| Browse.Visible | app/books/page.tsx:128-145 | `filteredBooks` is no longer than the input, and every book it shows is from the input, matches the term and is kept by the genre. |
| Browse.VisiblePermutation | app/books/page.tsx:128-145 | `filteredBooks` is a permutation of the books that pass both filters: each such book occurs as often as in the input, every other book not at all. |
| Browse.VisibleByRating | app/books/page.tsx:141 | Under "rating", ratings never increase along the visible list. |
| Browse.VisibleByReviews | app/books/page.tsx:142 | Under "reviews", review counts never increase along the visible list. |
| Browse.VisibleByDate | app/books/page.tsx:143 | Under "date", no visible book is published before a book after it. |
| Browse.VisibleUnsorted | app/books/page.tsx:144 | Under any other sort name, the filter order is kept. |
| Browse.VisibleStable | app/books/page.tsx:140-145 | Books with equal keys keep the order the filters leave them in. |
| Browse.ClearedShowsAll | app/books/page.tsx:128-145 | An empty term with "All Genres" shows every book, sorted. |
| Browse.BooksPage.constructor | app/books/page.tsx:18-28 | Initial state: empty term, "All Genres", sorted by "rating", no categories and no books. |
| Browse.BooksPage.Load | app/books/page.tsx:40-43 | The effect stores the fixed categories and the fallback books and leaves the filters as they were. |
| Browse.BooksPage.SetSearchTerm | app/books/page.tsx:18 | Sets the term; nothing else changes. |
| Browse.BooksPage.SetSelectedGenre | app/books/page.tsx:19 | Sets the genre; nothing else changes. |
| Browse.BooksPage.SetSortBy | app/books/page.tsx:20 | Sets the sort key; nothing else changes. |
| Browse.BooksPage.ClearFilters | app/books/page.tsx:424-427 | Resets the term to "" and the genre to "All Genres", keeps the sort key and the data, and afterwards every book is visible, sorted. |
| Display.Cell | app/books/page.tsx:147-160 | On both pages, a cell is full iff i < floor(rating), half iff floor(rating) ≤ i < rating, and empty iff rating ≤ i. |
| Display.StarRow | app/books/page.tsx:148 | The row has exactly 5 cells, cell i filled by the rule above. |
| Display.StarRowArranged | app/books/page.tsx:147-160 | Full cells come first, then at most one half cell, then empty cells. |
| Display.StarRowCounts | app/books/page.tsx:147-160 | For 0 ≤ rating ≤ 5 the row is floor(rating) full cells, one half cell iff the rating has a fraction, then empty cells; these are also the counts of each fill. |
| Display.StarRowExtremes | app/page.tsx:42-55 | A rating ≥ 5 gives five full cells; a rating ≤ 0 gives five empty cells. |
| Display.TagChips | app/books/page.tsx:342-356 | With n ≤ 3 tags there are n chips; otherwise 4, the last being "+(n-3)". The shown chips are the tags in order. |
| Display.TagChipsCover | app/page.tsx:275-288 | On both pages, the chips show the first min(3, n) tags. Shown plus hidden count is n. An overflow chip appears iff n > 3. |
| Display.ChipLabel | app/books/page.tsx:348-353 | A tag chip shows its tag; the overflow chip shows "+", then the decimal hidden count, then " more". |
| Display.MoreLabelInjective | app/books/page.tsx:353 | Different hidden counts give different overflow labels. |
| Display.Split | app/books/page.tsx:365 | `split(" ")` gives at least one piece, and no piece contains a space. |
| Display.JoinSplit | app/books/page.tsx:365 | Joining the pieces with single spaces gives back the string. |
| Display.Heads | app/books/page.tsx:366-367 | Taking the first character of each piece gives no more characters than there are pieces. |
| Display.InitialsAreWordStarts | app/books/page.tsx:364-367 | The initials are exactly the non-space characters at the start of the string or after a space; empty pieces contribute nothing. |
| Display.Initials | app/page.tsx:298-301 | There are no more initials than pieces, and no initial is a space. |
| Display.InitialsOfTwoWords | app/page.tsx:453-456 | Two non-empty words separated by a space give their two first letters. |
| Display.InitialsOfThreeWords | app/page.tsx:453-456 | Three non-empty words separated by spaces give their three first letters. |
| Home.FeaturedBooks | app/page.tsx:32 | `featuredBooks` is the first min(6, n) books, in order. |
| Home.TopCategories | app/page.tsx:35 | `topCategories` is the first min(8, n) categories, in order. |
| Home.FallbackSelections | app/page.tsx:32-35 | On the shipped data, the featured books have ids 1 to 6 and the top categories have ids 1 to 8. |
| Home.TotalBooks | app/page.tsx:38 | `totalBooks` is 0 exactly for no books, and with at most six books all of them are featured. |
| Home.TotalReviews | app/page.tsx:40 | With no negative review count, `totalReviews` is not negative. |
| Home.TotalReviewsAppend | app/page.tsx:40 | The total of a concatenation is the sum of the totals. |
| Home.TotalReviewsCons | app/page.tsx:40 | The total is the first count plus the total of the rest. |
| Home.TotalReviewsBound | app/page.tsx:40 | With no negative counts, the total is non-negative and at least every single count. |
| Home.TotalReviewsIsSum | app/page.tsx:40 | The total is the sum of the review counts. |
| Home.FallbackTotals | app/page.tsx:38-40 | On the fallback list, `totalBooks` is 10 and `totalReviews` is 8300. |
| Home.Testimonials | app/page.tsx:58-84 | There are three testimonials, each rated 5. |
| Home.TestimonialStars | app/page.tsx:42-83 | Every testimonial is rated 5 and shows five full stars. |
| Home.TestimonialInitials | app/page.tsx:453-456 | The testimonial avatars read "DSM", "JR" and "EC". |
| Home.FallbackReviewerInitials | app/page.tsx:298-301 | Every fallback book's reviewer avatar reads "SR". |
| Home.ReviewPage | lib/api.ts:618-631 | The `/book/[slug]` route (app/book/[slug]/page.tsx, lines 37 and 53) hands its segment to `getBookBySlug`: a page opens a book only for a path that starts with "/book/" and whose segment decodes to that book's slug, and the book is one of the fallback books. |
| Home.LinkSegment | lib/api.ts:618-631 | On the `/book/[slug]` route (app/book/[slug]/page.tsx, line 53), "/book/" plus a non-empty segment opens whatever the slug lookup finds for that segment. |
| Home.ReviewHrefAsWritten | app/page.tsx:320 | The featured card's link, as written, makes the review page look up the decimal `apiId` as if it were a slug. |
| Home.ReviewHref | app/books/page.tsx:387 | The browse page's link makes the review page look up the book's own slug. |
| Home.FeaturedLinksMiss | app/page.tsx:320 | As written, no featured card's link opens a review on the slug-routed page, although the id lookup would have found each book. |
| Home.FeaturedLinksResolve | app/books/page.tsx:387 | With the slug in the link, as the browse page writes it, every featured card opens its own book's review. |

## Left out

- The network code after the early returns in `lib/api.ts` is unreachable and not modelled: the fetches, the timeout, `JSON.parse`, and the random rating breakdown.
- The Referer redirect in `middleware.ts` depends on `Math.random` and request cookies; it is not part of this model.
- The link auto-click effect of the browse page depends on the DOM, timers and randomness; it is not part of this model.
- The affiliate-link rewriting on both pages is left out: one rewrite does not parse as written, and the other depends on environment variables that are not shown.
- `averageRating`, `toFixed`, `toLocaleString` and `toLocaleDateString` are floating-point and locale formatting, so they are not modelled. Ratings are reals, not IEEE doubles.
- Rendering is left out: JSX, the loading and error flags of the data effect, and the static pages.
- `BooksPage.Load` models only the success path. Both lists are constants, so the `catch` branch cannot be reached in the shipped code.
- Book fields that no modelled logic reads are dropped: `genre`, `cover`, `description`, `DetailPageURL`, and the like. Testimonials keep only name and rating.
- Text.Lower: lower-cases only A–Z, not every Unicode letter as `toLowerCase` does. Every title and author in the fallback list is ASCII.
- Browse.DateKey: dates are taken as already-parsed calendar dates. The parsing of the `publishDate` string by `new Date` is not modelled; for valid dates the key orders them as `getTime()` does.
- Text.DecimalString: does not model the exponent form `toString` uses for integers of 10^21 and above.
- Uri.DecodeComponent: models strings as sequences of code points, not UTF-16 units, so unpaired surrogates cannot arise.
- Display.Initials: takes the first code point of each piece. JavaScript's `n[0]` takes the first UTF-16 unit, so a piece that starts outside the Basic Multilingual Plane gives half a surrogate pair there. Every name in the source is ASCII.
- Display.Split: works on code points, not UTF-16 units; for the single space it splits on, the two agree.
- Text.Lower: works on code points, not UTF-16 units.
- Text.Contains: compares code points, not UTF-16 units; a needle could match half of a surrogate pair in JavaScript but not here.
- Home.ReviewPage: the whole rest of the path after "/book/" is the segment. A query string, a fragment or a further "/" is not split off as the router would do; no link in the source has any of them.
- Display.Split: splits on the single space character only, as `split(" ")` does; other white space stays inside a piece.

## Findings

| source | as written | input that shows it | evidently intended | confidence | as-written member | corrected member |
|---|---|---|---|---|---|---|
| app/page.tsx:320 | The featured card links to `/book/${book.apiId}`. The `/book/[slug]` page passes that segment to `getBookBySlug` (app/book/[slug]/page.tsx:53). | The first featured book has `apiId` 1, so its link is "/book/1". No slug equals "1", so the review page finds no book. The same holds for all six featured cards. | `/book/${book.slug}`, as the browse page writes it (app/books/page.tsx:387). | not executed | Home.FeaturedLinksMiss | Home.FeaturedLinksResolve |
