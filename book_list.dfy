/** The book list page (BookList.tsx): the request it sends for the current
    paging state, the pagination controls it shows, the cart item it builds,
    and the state its handlers and its fetch effect update. */
module BookList {
  import Catalog
  import opened Numbers
  import opened Text

  const BooksEndpoint: string := "https://localhost:44344/api/Book/AllBooks"

  /** The values of the "Results per page" options. */
  const PageSizeOptions: seq<string> := ["5", "10", "20"]

  /** The values of the "Sort by Title" options. */
  const SortOptions: seq<string> := ["asc", "desc"]

  const MissingTitle: string := "No Book Found"

  // ---------------------------------------------------------------------
  // The cart item

  datatype CartItem = CartItem(bookId: int, title: string, price: int)

  /** The item handleAddToCart gives the cart: `book.title || 'No Book Found'`. */
  function NewCartItem(book: Catalog.Book): (item: CartItem)
    ensures item.bookId == book.bookID && item.price == book.price
    ensures book.title != "" ==> item.title == book.title
    ensures book.title == "" ==> item.title == MissingTitle
    ensures item.title != ""
  {
    CartItem(book.bookID, if book.title != "" then book.title else MissingTitle, book.price)
  }

  // ---------------------------------------------------------------------
  // The request URL; `encode` stands for encodeURIComponent

  function CategoryField(category: string, encode: string -> string): string
  {
    "bookCategories=" + encode(category)
  }

  /** `selectedCategories.map((cat) => `bookCategories=${encode(cat)}`)`. */
  function CategoryFields(selected: seq<string>, encode: string -> string): (fields: seq<string>)
    ensures |fields| == |selected|
    ensures forall i :: 0 <= i < |selected| ==> fields[i] == CategoryField(selected[i], encode)
  {
    seq(|selected|, i requires 0 <= i < |selected| => CategoryField(selected[i], encode))
  }

  /** The `categoryParams` fragment: the fields joined with '&'. */
  function CategoryParams(selected: seq<string>, encode: string -> string): string
  {
    Join(CategoryFields(selected, encode), '&')
  }

  /** Every field holds a '&'-free part when the encoder never emits '&'
      (encodeURIComponent writes it as %26). */
  lemma CategoryFieldsHaveNoSeparator(selected: seq<string>, encode: string -> string)
    requires forall c :: c in selected ==> '&' !in encode(c)
    ensures forall i :: 0 <= i < |selected| ==> '&' !in CategoryFields(selected, encode)[i]
  {
    forall i | 0 <= i < |selected| ensures '&' !in CategoryFields(selected, encode)[i] {
      assert selected[i] in selected;
      assert '&' !in "bookCategories=";
    }
  }

  /** The fragment splits back at '&' into one field per selected category, in selection order. */
  lemma CategoryParamsFields(selected: seq<string>, encode: string -> string)
    requires |selected| > 0
    requires forall c :: c in selected ==> '&' !in encode(c)
    ensures Split(CategoryParams(selected, encode), '&') == CategoryFields(selected, encode)
  {
    CategoryFieldsHaveNoSeparator(selected, encode);
    SplitJoin(CategoryFields(selected, encode), '&');
  }

  /** The `&${categoryParams}` tail, present only when a category is selected. */
  function CategorySuffix(selected: seq<string>, encode: string -> string): string
  {
    if |selected| > 0 then "&" + CategoryParams(selected, encode) else ""
  }

  /** The query string of the fetch: `pageSize`, `pageNum` and `sortOrder` always,
      then the category fragment. */
  function BooksQuery(pageSize: int, pageNum: int, sortOrder: string,
                      selected: seq<string>, encode: string -> string): string
  {
    "pageSize=" + IntToString(pageSize) + "&pageNum=" + IntToString(pageNum) + "&sortOrder=" + sortOrder
      + CategorySuffix(selected, encode)
  }

  function BooksUrl(pageSize: int, pageNum: int, sortOrder: string,
                    selected: seq<string>, encode: string -> string): string
  {
    BooksEndpoint + "?" + BooksQuery(pageSize, pageNum, sortOrder, selected, encode)
  }

  /** The '&'-separated fields the query string is meant to carry, in order. */
  function QueryFields(pageSize: int, pageNum: int, sortOrder: string,
                       selected: seq<string>, encode: string -> string): seq<string>
  {
    ["pageSize=" + IntToString(pageSize), "pageNum=" + IntToString(pageNum), "sortOrder=" + sortOrder]
      + CategoryFields(selected, encode)
  }

  lemma SplitSortAndCategories(sortOrder: string, selected: seq<string>, encode: string -> string)
    requires '&' !in sortOrder
    requires forall c :: c in selected ==> '&' !in encode(c)
    ensures Split("sortOrder=" + sortOrder + CategorySuffix(selected, encode), '&')
         == ["sortOrder=" + sortOrder] + CategoryFields(selected, encode)
  {
    var z := "sortOrder=" + sortOrder;
    assert '&' !in "sortOrder=";
    assert '&' !in z;
    if |selected| > 0 {
      assert z + CategorySuffix(selected, encode) == z + ['&'] + CategoryParams(selected, encode);
      SplitAtFirstSeparator(z, '&', CategoryParams(selected, encode));
      CategoryParamsFields(selected, encode);
    } else {
      assert z + CategorySuffix(selected, encode) == z;
      SplitWithoutSeparator(z, '&');
    }
  }

  lemma QueryShape(pageSizeText: string, pageNumText: string, sortOrder: string, suffix: string)
    ensures "pageSize=" + pageSizeText + "&pageNum=" + pageNumText + "&sortOrder=" + sortOrder + suffix
         == ("pageSize=" + pageSizeText) + ['&'] + (("pageNum=" + pageNumText) + ['&'] + ("sortOrder=" + sortOrder + suffix))
  {
    assert "&pageNum=" == ['&'] + "pageNum=";
    assert "&sortOrder=" == ['&'] + "sortOrder=";
  }

  lemma FieldWithoutSeparator(name: string, value: string, sep: char)
    requires sep !in name && sep !in value
    ensures sep !in name + value
  {
  }

  lemma SplitTwoFields(x: string, y: string, rest: string, sep: char)
    requires sep !in x && sep !in y
    ensures Split(x + [sep] + (y + [sep] + rest), sep) == [x, y] + Split(rest, sep)
  {
    SplitAtFirstSeparator(y, sep, rest);
    SplitAtFirstSeparator(x, sep, y + [sep] + rest);
  }

  /** Splitting the query string at '&' yields pageSize, pageNum, sortOrder and then one
      field per selected category, in selection order. */
  lemma BooksQueryFields(pageSize: int, pageNum: int, sortOrder: string,
                         selected: seq<string>, encode: string -> string)
    requires '&' !in sortOrder
    requires forall c :: c in selected ==> '&' !in encode(c)
    ensures Split(BooksQuery(pageSize, pageNum, sortOrder, selected, encode), '&')
         == QueryFields(pageSize, pageNum, sortOrder, selected, encode)
  {
    var x := "pageSize=" + IntToString(pageSize);
    var y := "pageNum=" + IntToString(pageNum);
    var rest := "sortOrder=" + sortOrder + CategorySuffix(selected, encode);
    FieldWithoutSeparator("pageSize=", IntToString(pageSize), '&');
    FieldWithoutSeparator("pageNum=", IntToString(pageNum), '&');
    QueryShape(IntToString(pageSize), IntToString(pageNum), sortOrder, CategorySuffix(selected, encode));
    SplitTwoFields(x, y, rest, '&');
    SplitSortAndCategories(sortOrder, selected, encode);
  }

  /** The page size and page number fields read back as the numbers sent. */
  lemma QueryNumbersReadBack(pageSize: int, pageNum: int, sortOrder: string,
                             selected: seq<string>, encode: string -> string)
    ensures ParseInt(QueryFields(pageSize, pageNum, sortOrder, selected, encode)[0][9..]) == pageSize
    ensures ParseInt(QueryFields(pageSize, pageNum, sortOrder, selected, encode)[1][8..]) == pageNum
  {
    var fields := QueryFields(pageSize, pageNum, sortOrder, selected, encode);
    assert fields[0][9..] == IntToString(pageSize);
    assert fields[1][8..] == IntToString(pageNum);
    ParseIntToString(pageSize);
    ParseIntToString(pageNum);
  }

  // ---------------------------------------------------------------------
  // Pagination controls

  datatype PageButton = PageButton(number: int, active: bool)

  /** `[...Array(totalPages)].map((_, i) => ...)`: buttons 1..totalPages, marked
      active when their number is the current page. */
  function PageButtons(totalPages: nat, pageNum: int): (buttons: seq<PageButton>)
    ensures |buttons| == totalPages
    ensures forall i :: 0 <= i < totalPages ==> buttons[i].number == i + 1
    ensures forall i :: 0 <= i < totalPages ==> (buttons[i].active <==> buttons[i].number == pageNum)
  {
    seq(totalPages, i requires 0 <= i < totalPages => PageButton(i + 1, pageNum == i + 1))
  }

  function ActiveButtons(buttons: seq<PageButton>): set<int>
  {
    set i | 0 <= i < |buttons| && buttons[i].active
  }

  /** Exactly one button is active when the page is among them, and none otherwise. */
  lemma OneActiveButton(totalPages: nat, pageNum: int)
    ensures |ActiveButtons(PageButtons(totalPages, pageNum))| == if 1 <= pageNum <= totalPages then 1 else 0
  {
    var buttons := PageButtons(totalPages, pageNum);
    if 1 <= pageNum <= totalPages {
      assert ActiveButtons(buttons) == {pageNum - 1};
    } else {
      assert ActiveButtons(buttons) == {};
    }
  }

  predicate HasButton(buttons: seq<PageButton>, number: int)
  {
    exists i :: 0 <= i < |buttons| && buttons[i].number == number
  }

  /** "Previous" carries the disabled class when on page 1. */
  predicate PreviousDisabled(pageNum: int)
  {
    pageNum == 1
  }

  /** "Next" carries the disabled class when on the last page. */
  predicate NextDisabled(pageNum: int, totalPages: int)
  {
    pageNum == totalPages
  }

  /** On a page that has a button, "Previous" ("Next") is marked disabled exactly
      when no button exists for the page before (after) it. */
  lemma NeighbourButtons(totalPages: nat, pageNum: int)
    requires 1 <= pageNum <= totalPages
    ensures PreviousDisabled(pageNum) <==> !HasButton(PageButtons(totalPages, pageNum), pageNum - 1)
    ensures NextDisabled(pageNum, totalPages) <==> !HasButton(PageButtons(totalPages, pageNum), pageNum + 1)
  {
    var buttons := PageButtons(totalPages, pageNum);
    if pageNum > 1 { assert buttons[pageNum - 2].number == pageNum - 1; }
    if pageNum < totalPages { assert buttons[pageNum].number == pageNum + 1; }
  }

  // ---------------------------------------------------------------------
  // The component's state

  class BookListState {
    var books: seq<Catalog.Book>
    var pageSize: int
    var pageNum: int
    var totalItems: nat
    var totalPages: nat
    var sortOrder: string

    /** The selects only offer positive page sizes and the two sort values. */
    predicate Valid()
      reads this
    {
      pageSize > 0 && sortOrder in SortOptions
    }

    /** The page count matches the item count the last response reported. */
    predicate Settled()
      reads this
      requires Valid()
    {
      totalPages == CeilDiv(totalItems, pageSize)
    }

    /** The useState initial values. */
    constructor ()
      ensures Valid() && Settled()
      ensures books == [] && pageSize == 10 && pageNum == 1 && sortOrder == "asc"
      ensures totalItems == 0 && totalPages == 0
    {
      books := [];
      pageSize := 10;
      pageNum := 1;
      totalItems := 0;
      totalPages := 0;
      sortOrder := "asc";
    }

    /** Choosing a sort option sets sortOrder and goes back to page 1. */
    method SelectSortOrder(value: string)
      requires Valid() && value in SortOptions
      modifies this
      ensures Valid()
      ensures sortOrder == value && pageNum == 1
      ensures books == old(books) && pageSize == old(pageSize)
      ensures totalItems == old(totalItems) && totalPages == old(totalPages)
    {
      sortOrder := value;
      pageNum := 1;
    }

    /** Choosing a page-size option sets `Number(value)` and goes back to page 1. */
    method SelectPageSize(value: string)
      requires Valid() && value in PageSizeOptions
      modifies this
      ensures Valid()
      ensures pageSize == ParseNat(value) && pageNum == 1
      ensures pageSize == 5 || pageSize == 10 || pageSize == 20
      ensures books == old(books) && sortOrder == old(sortOrder)
      ensures totalItems == old(totalItems) && totalPages == old(totalPages)
    {
      assert ParseNat("5") == 5 && ParseNat("10") == 10 && ParseNat("20") == 20 by {
        assert "10"[..1] == "1" && "20"[..1] == "2";
      }
      pageSize := ParseNat(value);
      pageNum := 1;
    }

    /** A numbered button sets the page to its number. */
    method SelectPage(number: int)
      requires HasButton(PageButtons(totalPages, pageNum), number)
      modifies this
      ensures Valid() == old(Valid())
      ensures pageNum == number && 1 <= pageNum <= totalPages
      ensures books == old(books) && pageSize == old(pageSize) && sortOrder == old(sortOrder)
      ensures totalItems == old(totalItems) && totalPages == old(totalPages)
    {
      pageNum := number;
    }

    /** The "Previous" handler; the disabled class does not guard it. */
    method PreviousPage()
      modifies this
      ensures Valid() == old(Valid())
      ensures pageNum == old(pageNum) - 1
      ensures books == old(books) && pageSize == old(pageSize) && sortOrder == old(sortOrder)
      ensures totalItems == old(totalItems) && totalPages == old(totalPages)
    {
      pageNum := pageNum - 1;
    }

    /** The "Next" handler; the disabled class does not guard it. */
    method NextPage()
      modifies this
      ensures Valid() == old(Valid())
      ensures pageNum == old(pageNum) + 1
      ensures books == old(books) && pageSize == old(pageSize) && sortOrder == old(sortOrder)
      ensures totalItems == old(totalItems) && totalPages == old(totalPages)
    {
      pageNum := pageNum + 1;
    }

    /** The URL the fetch effect requests for the current state. */
    function RequestUrl(selected: seq<string>, encode: string -> string): string
      reads this
    {
      BooksUrl(pageSize, pageNum, sortOrder, selected, encode)
    }

    /** The request's query string carries the current page size, page number and
        sort order, then the selected categories, each as its own field. */
    function RequestQuery(selected: seq<string>, encode: string -> string): (query: string)
      reads this
      requires Valid()
      requires forall c :: c in selected ==> '&' !in encode(c)
      ensures RequestUrl(selected, encode) == BooksEndpoint + "?" + query
      ensures Split(query, '&') == QueryFields(pageSize, pageNum, sortOrder, selected, encode)
      ensures ParseInt(Split(query, '&')[0][9..]) == pageSize
      ensures ParseInt(Split(query, '&')[1][8..]) == pageNum
    {
      assert '&' !in sortOrder;
      BooksQueryFields(pageSize, pageNum, sortOrder, selected, encode);
      QueryNumbersReadBack(pageSize, pageNum, sortOrder, selected, encode);
      BooksQuery(pageSize, pageNum, sortOrder, selected, encode)
    }

    /** The pagination buttons for the current state. */
    function Buttons(): (buttons: seq<PageButton>)
      reads this
      ensures buttons == PageButtons(totalPages, pageNum)
      ensures |buttons| == totalPages
      ensures HasButton(buttons, pageNum) <==> 1 <= pageNum <= totalPages
    {
      var buttons := PageButtons(totalPages, pageNum);
      assert 1 <= pageNum <= totalPages ==> buttons[pageNum - 1].number == pageNum;
      buttons
    }

    /** The end of the fetch effect: setBooks, setTotalItems, then setTotalPages computed
        from the totalItems the effect saw when it started, not the one just fetched. */
    method ReceivePage(fetched: seq<Catalog.Book>, fetchedTotal: nat)
      requires Valid()
      modifies this
      ensures Valid()
      ensures books == fetched && totalItems == fetchedTotal
      ensures totalPages == CeilDiv(old(totalItems), pageSize)
      ensures Settled() <==> CeilDiv(old(totalItems), pageSize) == CeilDiv(fetchedTotal, pageSize)
      ensures old(totalItems) == fetchedTotal ==> Settled()
      ensures pageSize == old(pageSize) && pageNum == old(pageNum) && sortOrder == old(sortOrder)
    {
      var pages := CeilDiv(totalItems, pageSize);
      books := fetched;
      totalItems := fetchedTotal;
      totalPages := pages;
    }
  }
}
