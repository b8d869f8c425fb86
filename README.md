# Book store catalogue: a Dafny model

This project models the core of a small book store web application. It has two parts.

1. **The catalogue API.** This is an ASP.NET controller, `BookController`.
   - `GET api/Book/AllBooks` optionally filters the books table by a list of categories. It then orders the result by title, ascending or descending, as a case-insensitive `sortOrder` flag says. It cuts out one page with `Skip((pageNum - 1) * pageSize).Take(pageSize)` and returns that page together with the filtered count.
   - `GET api/Book/GetBookTypes` returns the distinct categories.
2. **The React client.**
   - The category check-box filter, `Categoryfilter.tsx`. Ticking a box appends a category to the selection list; unticking removes it.
   - The paged book list, `BookList.tsx`. It has:
     - the query string it sends;
     - the pagination buttons it renders;
     - the cart item it builds;
     - the component state that its handlers and its fetch effect update.

The Dafny modules follow that structure:

| file | module | models |
|---|---|---|
| `catalog.dfy` | `Catalog` | both controller actions: filter, sort, page, count and distinct categories |
| `category_filter.dfy` | `CategoryFilter` | the toggle of the check-box handler |
| `book_list.dfy` | `BookList` | the request, the buttons, the cart item and `class BookListState` for the `useState` fields |
| `numbers.dfy` | `Numbers` | ceiling division: `Math.ceil` of the client and the page count of the server |
| `sequences.dfy` | `Sequences` | generic sequence facts, including LINQ `Distinct` |
| `text.dfy` | `Text` | splitting and joining on a separator, and decimal rendering and parsing of integers |

Modelling decisions:

- **The controller is pure.** The books table is a `seq<Book>` in store order, and each action is a function of it.
- **Filtering.** `Where(b => bookCategories.Contains(b.Category))` keeps the store order and keeps exactly the books whose category is listed. It applies only when the list is present and non-empty.
- **Sorting.** `OrderBy` / `OrderByDescending` on the title become an insertion sort under the lexicographic order of character codes. No contract says which of two books with equal titles comes first. The sort is still one fixed function, so every request sees the same tie order; see `Catalog.Query` under "Left out".
- **Case of the flag.** `ToLower` is modelled on ASCII letters.
- **LINQ paging.** `Skip` of zero or fewer skips nothing, and `Take` of zero or fewer takes nothing. This is LINQ to Objects; it is also what SQLite does with a negative OFFSET. Other providers may differ; see "Left out".
- **Integer width.** C# `int` parameters have the subset type `Int32`.
- **The client.** `BookListState` is a class with six of the seven `useState` fields: the unused `price` state (BookList.tsx:21) is left out. Its methods are:
  - the select handlers;
  - the three pagination handlers;
  - `ReceivePage`, the end of the fetch effect.
- **Pure client parts.** The URL, the buttons and the cart item are functions of that state.
- **`encodeURIComponent`.** It is a parameter `encode`. The only property assumed of it is that it never emits `&`.

### Behaviour of the code the model keeps

- **Invalid page parameters.** `GetBooks` (BookController.cs:19-66) validates neither `pageSize` nor `pageNum`. The model requires `pageSize > 0 && pageNum >= 1`; see "Left out".
- **The sort flag.** The code compares `sortOrder.ToLower()` with `"asc"` and `"desc"` and defaults to `"asc"`. Any other flag leaves the store order.
- **Ties.** SQL promises no order among books with equal titles. No contract states any particular tie order. The model does, however, give every request the same fixed order; see `Catalog.Query` under "Left out".
- **Page count on the client.** The page count is computed from the stale `totalItems`, the value the effect saw when it started (BookList.tsx:55). `ReceivePage` models that stale value. Because `totalItems` is a dependency of the effect (BookList.tsx:59), the next run settles it.

## Model

| member | source | states |
|---|---|---|
| Catalog.AscendingSpellings | backend/Mission12_Assignment/Controllers/BookController.cs:44-45 | a flag selects ascending title order iff it is "asc" in some mix of letter case |
| Catalog.DescendingSpellings | backend/Mission12_Assignment/Controllers/BookController.cs:46-47 | a flag selects descending title order iff it is "desc" in some mix of letter case; every other flag leaves the order alone |
| Catalog.SortByTitle | backend/Mission12_Assignment/Controllers/BookController.cs:45-47 | the result is ordered by title (non-decreasing or non-increasing) and is a permutation of the input |
| Catalog.DescendingIsReversedAscending | backend/Mission12_Assignment/Controllers/BookController.cs:44-48 | the titles of the descending sort are the titles of the ascending sort reversed |
| Catalog.Where | backend/Mission12_Assignment/Controllers/BookController.cs:41 | each book occurs as often as in the input if its category is listed and not at all otherwise; the kept books stay in store order (a subsequence of the input) |
| Catalog.Filter | backend/Mission12_Assignment/Controllers/BookController.cs:39-42 | with no list or an empty list every book is kept unchanged; otherwise exactly the books of listed categories keep their multiplicity |
| Catalog.Query | backend/Mission12_Assignment/Controllers/BookController.cs:21-48 | the sorted query is a permutation of the filtered books; it is ordered ascending or descending as the flag says and is the filtered sequence itself for any other flag |
| Catalog.Page | backend/Mission12_Assignment/Controllers/BookController.cs:52-55 | a page is empty when its offset is at or past the end; otherwise it is the slice from the offset up to pageSize elements long, clipped at the end |
| Catalog.GetBooks | backend/Mission12_Assignment/Controllers/BookController.cs:19-66 | the total is the filtered count; the page holds at most pageSize books, its exact length is the clipped remainder, and book k is element offset + k of the sorted query |
| Catalog.PageBeyondEnd | backend/Mission12_Assignment/Controllers/BookController.cs:52-63 | a page whose offset is past the filtered count is empty and still reports the filtered count |
| Catalog.TotalIndependentOfPage | backend/Mission12_Assignment/Controllers/BookController.cs:57 | the reported total is the same for every page number and page size |
| Catalog.PageMatchesCategories | backend/Mission12_Assignment/Controllers/BookController.cs:39-55 | with a non-empty category list every book on any page has a listed category |
| Catalog.PageFromStore | backend/Mission12_Assignment/Controllers/BookController.cs:21-55 | every page is a sub-multiset of the store: no book is invented or duplicated |
| Catalog.PageSorted | backend/Mission12_Assignment/Controllers/BookController.cs:44-55 | under "asc" ("desc") each page is itself in non-decreasing (non-increasing) title order |
| Catalog.GetBooksIsPage | backend/Mission12_Assignment/Controllers/BookController.cs:52-55 | the books of a response are page pageNum of the filtered, sorted query |
| Catalog.PagesTile | backend/Mission12_Assignment/Controllers/BookController.cs:52-57 | pages 1..ceil(n / pageSize) of an n-element query, concatenated, are exactly the query: no repeats, no omissions |
| Catalog.GetBooksAsWritten | backend/Mission12_Assignment/Controllers/BookController.cs:52-57 | the action with the offset as a wrapping 32-bit product: the total is still the filtered count and the page holds at most pageSize books |
| Catalog.AsWrittenAgreesWithoutOverflow | backend/Mission12_Assignment/Controllers/BookController.cs:53 | while (pageNum - 1) * pageSize fits in an int, the code as written returns exactly the intended response |
| Catalog.AsWrittenOffsetOverflow | backend/Mission12_Assignment/Controllers/BookController.cs:53 | with pageSize 2^30 and pageNum 3 the code as written (a negative offset counting as zero) returns the first page where the intended page is empty |
| Catalog.GetBookCategories | backend/Mission12_Assignment/Controllers/BookController.cs:69-76 | the list has no repeats, and a category is in it iff some book has that category |
| Sequences.Distinct | backend/Mission12_Assignment/Controllers/BookController.cs:72 | the result has no repeats, holds every element of the input and nothing else |
| CategoryFilter.Without | frontend/src/Categoryfilter.tsx:33 | the value is gone; every other category keeps its multiplicity and membership; the rest keep their relative order |
| CategoryFilter.ToggleCategory | frontend/src/Categoryfilter.tsx:31-37 | the box's checked state flips; no other category is added or removed; a present value is removed everywhere, and an absent one is appended after the unchanged list |
| CategoryFilter.ToggleTwiceRestores | frontend/src/Categoryfilter.tsx:32-34 | ticking an unticked category and then unticking it gives back the original list |
| CategoryFilter.ToggleKeepsNoDuplicates | frontend/src/Categoryfilter.tsx:32-34 | a selection without repeats has no repeats after a toggle |
| BookList.NewCartItem | frontend/src/components/BookList.tsx:24-28 | the item carries the book's id and price, and its title or "No Book Found" when the title is empty; the title is never empty |
| BookList.CategoryParamsFields | frontend/src/components/BookList.tsx:45-47 | the joined category fragment splits back at '&' into one `bookCategories=` field per selected category, in selection order |
| BookList.BooksQueryFields | frontend/src/components/BookList.tsx:50 | the query string splits at '&' into the pageSize, pageNum and sortOrder fields followed by the category fields |
| BookList.QueryNumbersReadBack | frontend/src/components/BookList.tsx:50 | the pageSize and pageNum fields parse back to the numbers the state holds |
| Numbers.CeilDiv | frontend/src/components/BookList.tsx:55 | the least page count that holds the items: pages * size >= total, one page fewer does not, and it is zero exactly when there are no items |
| BookList.PageButtons | frontend/src/components/BookList.tsx:166-175 | totalPages buttons numbered 1..totalPages, each active iff its number is the current page |
| BookList.OneActiveButton | frontend/src/components/BookList.tsx:166-175 | exactly one button is active when the current page is in 1..totalPages and none otherwise |
| BookList.NeighbourButtons | frontend/src/components/BookList.tsx:157-178 | on a page that has a button, Previous (Next) is marked disabled iff there is no button for the page before (after) it |
| BookList.BookListState.constructor | frontend/src/components/BookList.tsx:11-16 | the initial state holds no books, page size 10, page 1, "asc", no items and no pages, and is settled |
| BookList.BookListState.SelectSortOrder | frontend/src/components/BookList.tsx:79-82 | the sort order becomes the chosen option and the page goes back to 1; nothing else changes |
| BookList.BookListState.SelectPageSize | frontend/src/components/BookList.tsx:95-103 | the page size becomes the chosen option's number (5, 10 or 20) and the page goes back to 1; nothing else changes |
| BookList.BookListState.SelectPage | frontend/src/components/BookList.tsx:171 | a numbered button sets the page to its number, which lies in 1..totalPages; the state stays valid and nothing else changes |
| BookList.BookListState.PreviousPage | frontend/src/components/BookList.tsx:160 | the page number drops by one, unguarded; the state stays valid and nothing else changes |
| BookList.BookListState.NextPage | frontend/src/components/BookList.tsx:182 | the page number rises by one, unguarded; the state stays valid and nothing else changes |
| BookList.BookListState.RequestQuery | frontend/src/components/BookList.tsx:45-51 | the fetched URL is the endpoint, '?' and a query whose fields are the current page size, page number, sort order and selected categories, the numbers reading back exactly |
| BookList.BookListState.Buttons | frontend/src/components/BookList.tsx:166-175 | the rendered buttons are PageButtons of the state: numbered 1..totalPages, exactly the one equal to pageNum active; the current page has a button iff it lies in 1..totalPages |
| BookList.BookListState.ReceivePage | frontend/src/components/BookList.tsx:52-55 | books and totalItems take the response; totalPages is ceil of the previous totalItems over pageSize, so the state is settled iff the old and new counts give the same page count, and always when the count did not change |

## Left out

- Catalog.GetBooks: requests with `pageSize <= 0` or `pageNum <= 0` are outside the model (precondition). The code does not validate them, and what they return depends on the database provider's translation of `Skip` and `Take`, which is not part of this model.
- Catalog.Query: every request sees one fixed order of equal-titled books (and one store order when unsorted). SQL does not promise this, so pages from separate requests need not tile the query when titles repeat; `Catalog.PagesTile` and `Catalog.GetBooksIsPage` hold only under that fixed order.
- Catalog.GetBooksAsWritten: a negative `Skip` count is taken to skip nothing, as in LINQ to Objects and SQLite (negative OFFSET treated as zero). On SQL Server a negative OFFSET is rejected and the request fails instead of returning the first page.
- The database: Entity Framework's translation to SQL, the collation of the server (which may compare titles and categories without regard to case) and any tie order are not modelled. Titles compare by character code, and categories compare by exact equality.
- `query.Count()` returns an `int` that would overflow beyond 2^31 - 1 matching books. The model's count is unbounded.
- Prices are decimals in C# and numbers in the client. The model carries them as whole cents in an `int`, and no arithmetic is done on them.
- BookList.NewCartItem: a `null` or `undefined` title is not modelled; only the empty string, the other falsy title, falls back to "No Book Found".
- Numbers.CeilDiv: the client's `Math.ceil(totalItems / pageSize)` is floating-point division. The model is exact integer ceiling division, which agrees for counts below 2^53.
- `ToLower` is culture-sensitive in C#; the model lowers ASCII letters only.
- The network: `fetch`, `response.json()`, the async timing of the effects, and a stale response overwriting a newer one are not modelled. `ReceivePage` takes the response as its parameters.
- The category list fetch (`Categoryfilter.tsx` lines 13-29) and its `categories` state are not modelled beyond `GetBookCategories`, the endpoint it calls.
- `encodeURIComponent` is a parameter. Only its not emitting '&' is assumed.
- PreviousPage / NextPage: Bootstrap's CSS (loaded at BookList.tsx:3) gives a disabled page link `pointer-events: none`, so a mouse click on a disabled Previous or Next never reaches its handler, while keyboard activation still does. `BookList.BookListState.PreviousPage` and `BookList.BookListState.NextPage` change the page unconditionally, as the handlers themselves do, and so over-approximate what a mouse user can reach.
- The unused `price` state and its setter (BookList.tsx:21) are not modelled.
- Rendering (the table, tooltips, the toast) and navigation are not modelled.
- The cart context: `addToCart` is not part of this model, and neither are `CartPage.tsx`, `BookPage.tsx` or `App.tsx`. Only the item handed to it (`NewCartItem`) is.
- The controller has no create, update or delete actions, so none is modelled.

## Findings

| source | as written | input that shows it | evidently intended | confidence | as-written member | corrected member |
|---|---|---|---|---|---|---|
| backend/Mission12_Assignment/Controllers/BookController.cs:53 | `(pageNum - 1) * pageSize` is an unchecked 32-bit `int` product, so a large page number or page size wraps to a negative count and `Skip` then skips nothing on a provider that treats a negative offset as zero (LINQ to Objects, SQLite); SQL Server would fail the request instead | pageSize = 2^30, pageNum = 3 on a one-book store: the offset 2^31 wraps to -2^31, and on such a provider the first page comes back instead of an empty one (`Catalog.AsWrittenOffsetOverflow`) | the offset is the mathematical product, so any page past the end is empty | not executed | Catalog.GetBooksAsWritten | Catalog.GetBooks |
