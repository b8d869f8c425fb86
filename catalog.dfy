/** The server's catalogue endpoints (BookController): the paged, filtered,
    sorted book query and the distinct category list. The book table is a
    sequence in store order. */
module Catalog {
  import opened Numbers
  import opened Sequences

  const Int32Max := 0x7fff_ffff

  /** A C# `int`. */
  type Int32 = x: int | -0x8000_0000 <= x <= 0x7fff_ffff

  datatype Option<T> = None | Some(value: T)

  /** One row of the Books table; `price` is carried as whole cents. */
  datatype Book = Book(
    bookID: int,
    title: string,
    author: string,
    publisher: string,
    isbn: string,
    classification: string,
    category: string,
    pageCount: int,
    price: int)

  /** What `sortOrder.ToLower()` selects. */
  datatype SortOrder = Ascending | Descending | Unordered

  /** The anonymous response object: one page of books and the filtered count. */
  datatype PageResult = PageResult(books: seq<Book>, totalNumBooks: nat)

  // ---------------------------------------------------------------------
  // The sort flag

  function LowerChar(c: char): char
  {
    if 'A' <= c <= 'Z' then (c as int + 32) as char else c
  }

  function ToLower(s: string): (r: string)
    ensures |r| == |s|
    ensures forall i :: 0 <= i < |s| ==> r[i] == LowerChar(s[i])
  {
    seq(|s|, i requires 0 <= i < |s| => LowerChar(s[i]))
  }

  function ParseSortOrder(sortOrder: string): SortOrder
  {
    if ToLower(sortOrder) == "asc" then Ascending
    else if ToLower(sortOrder) == "desc" then Descending
    else Unordered
  }

  /** Exactly the eight spellings of "asc", in any letter case, select ascending order. */
  lemma AscendingSpellings(s: string)
    ensures ParseSortOrder(s) == Ascending <==>
      |s| == 3 && s[0] in "aA" && s[1] in "sS" && s[2] in "cC"
  {
    if |s| == 3 && s[0] in "aA" && s[1] in "sS" && s[2] in "cC" {
      assert ToLower(s) == "asc";
    }
    if ParseSortOrder(s) == Ascending {
      var l := ToLower(s);
      assert l[0] == 'a' && l[1] == 's' && l[2] == 'c';
    }
  }

  /** Exactly the spellings of "desc", in any letter case, select descending order. */
  lemma DescendingSpellings(s: string)
    ensures ParseSortOrder(s) == Descending <==>
      |s| == 4 && s[0] in "dD" && s[1] in "eE" && s[2] in "sS" && s[3] in "cC"
  {
    if |s| == 4 && s[0] in "dD" && s[1] in "eE" && s[2] in "sS" && s[3] in "cC" {
      assert ToLower(s) == "desc";
    }
    if ParseSortOrder(s) == Descending {
      var l := ToLower(s);
      assert l[0] == 'd' && l[1] == 'e' && l[2] == 's' && l[3] == 'c';
    }
  }

  // ---------------------------------------------------------------------
  // Ordering titles

  /** Lexicographic order on titles by character code. */
  predicate TitleLe(a: string, b: string)
    decreases |a|
  {
    if a == [] then true
    else if b == [] then false
    else if a[0] != b[0] then a[0] < b[0]
    else TitleLe(a[1..], b[1..])
  }

  lemma {:induction false} TitleLeReflexive(a: string)
    ensures TitleLe(a, a)
    decreases |a|
  {
    if a != [] { TitleLeReflexive(a[1..]); }
  }

  lemma {:induction false} TitleLeTotal(a: string, b: string)
    ensures TitleLe(a, b) || TitleLe(b, a)
    decreases |a|
  {
    if a != [] && b != [] && a[0] == b[0] { TitleLeTotal(a[1..], b[1..]); }
  }

  lemma {:induction false} TitleLeTransitive(a: string, b: string, c: string)
    requires TitleLe(a, b) && TitleLe(b, c)
    ensures TitleLe(a, c)
    decreases |a|
  {
    if a != [] && b != [] && c != [] && a[0] == b[0] && b[0] == c[0] {
      TitleLeTransitive(a[1..], b[1..], c[1..]);
    }
  }

  lemma {:induction false} TitleLeAntisymmetric(a: string, b: string)
    requires TitleLe(a, b) && TitleLe(b, a)
    ensures a == b
    decreases |a|
  {
    if a != [] && b != [] {
      TitleLeAntisymmetric(a[1..], b[1..]);
      assert a == [a[0]] + a[1..] && b == [b[0]] + b[1..];
    }
  }

  /** `x` may come before `y` when sorting by title, ascending or descending. */
  predicate Precedes(ascending: bool, x: Book, y: Book)
  {
    if ascending then TitleLe(x.title, y.title) else TitleLe(y.title, x.title)
  }

  lemma PrecedesTotal(ascending: bool, x: Book, y: Book)
    ensures Precedes(ascending, x, y) || Precedes(ascending, y, x)
  {
    TitleLeTotal(x.title, y.title);
  }

  lemma PrecedesTransitive(ascending: bool, x: Book, y: Book, z: Book)
    requires Precedes(ascending, x, y) && Precedes(ascending, y, z)
    ensures Precedes(ascending, x, z)
  {
    if ascending {
      TitleLeTransitive(x.title, y.title, z.title);
    } else {
      TitleLeTransitive(z.title, y.title, x.title);
    }
  }

  /** Titles are non-decreasing (ascending) or non-increasing (descending). */
  predicate Sorted(s: seq<Book>, ascending: bool)
  {
    forall i, j :: 0 <= i < j < |s| ==> Precedes(ascending, s[i], s[j])
  }

  /** A book that may precede every book of a sorted sequence can be put in front of it. */
  lemma PrependSorted(ascending: bool, x: Book, s: seq<Book>)
    requires Sorted(s, ascending)
    requires forall j :: 0 <= j < |s| ==> Precedes(ascending, x, s[j])
    ensures Sorted([x] + s, ascending)
  {
    forall i, j | 0 <= i < j < |[x] + s| ensures Precedes(ascending, ([x] + s)[i], ([x] + s)[j]) {
      if i > 0 { assert ([x] + s)[i] == s[i - 1]; }
      assert ([x] + s)[j] == s[j - 1];
    }
  }

  /** A lower bound of `s` and of `x` bounds every permutation of `s` plus `x`. */
  lemma LowerBoundOfPermutation(ascending: bool, y: Book, x: Book, s: seq<Book>, u: seq<Book>)
    requires multiset(u) == multiset(s) + multiset{x}
    requires Precedes(ascending, y, x)
    requires forall j :: 0 <= j < |s| ==> Precedes(ascending, y, s[j])
    ensures forall j :: 0 <= j < |u| ==> Precedes(ascending, y, u[j])
  {
    forall j | 0 <= j < |u| ensures Precedes(ascending, y, u[j]) {
      assert u[j] in multiset(u);
      if u[j] != x {
        assert u[j] in multiset(s);
        var k :| 0 <= k < |s| && s[k] == u[j];
      }
    }
  }

  lemma InsertFrontSorted(ascending: bool, x: Book, s: seq<Book>)
    requires Sorted(s, ascending) && s != [] && Precedes(ascending, x, s[0])
    ensures Sorted([x] + s, ascending)
  {
    forall j | 0 <= j < |s| ensures Precedes(ascending, x, s[j]) {
      if j > 0 { PrecedesTransitive(ascending, x, s[0], s[j]); }
    }
    PrependSorted(ascending, x, s);
  }

  lemma InsertBehindSorted(ascending: bool, x: Book, s: seq<Book>, rest: seq<Book>)
    requires Sorted(s, ascending) && s != [] && !Precedes(ascending, x, s[0])
    requires Sorted(rest, ascending) && multiset(rest) == multiset(s[1..]) + multiset{x}
    ensures Sorted([s[0]] + rest, ascending)
    ensures multiset([s[0]] + rest) == multiset(s) + multiset{x}
  {
    var tail := s[1..];
    assert s == [s[0]] + tail;
    PrecedesTotal(ascending, x, s[0]);
    assert forall j :: 0 <= j < |tail| ==> tail[j] == s[j + 1];
    LowerBoundOfPermutation(ascending, s[0], x, tail, rest);
    PrependSorted(ascending, s[0], rest);
  }

  /** Places `x` in front of the first book it may precede. */
  function Insert(x: Book, s: seq<Book>, ascending: bool): (r: seq<Book>)
    requires Sorted(s, ascending)
    ensures Sorted(r, ascending)
    ensures multiset(r) == multiset(s) + multiset{x}
    decreases |s|
  {
    if s == [] then [x]
    else if Precedes(ascending, x, s[0]) then
      InsertFrontSorted(ascending, x, s);
      [x] + s
    else
      var rest := Insert(x, s[1..], ascending);
      InsertBehindSorted(ascending, x, s, rest);
      [s[0]] + rest
  }

  /** OrderBy / OrderByDescending on the title, modelled as a stable insertion sort. */
  function SortByTitle(s: seq<Book>, ascending: bool): (r: seq<Book>)
    ensures Sorted(r, ascending)
    ensures multiset(r) == multiset(s)
    decreases |s|
  {
    if s == [] then []
    else
      assert s == [s[0]] + s[1..];
      Insert(s[0], SortByTitle(s[1..], ascending), ascending)
  }

  function ApplySort(s: seq<Book>, order: SortOrder): seq<Book>
  {
    match order
    case Ascending => SortByTitle(s, true)
    case Descending => SortByTitle(s, false)
    case Unordered => s
  }

  /** The titles of a sequence of books. */
  function Titles(s: seq<Book>): (t: seq<string>)
    ensures |t| == |s|
    ensures forall i :: 0 <= i < |s| ==> t[i] == s[i].title
  {
    seq(|s|, i requires 0 <= i < |s| => s[i].title)
  }

  lemma TitlesAppend(a: seq<Book>, b: seq<Book>)
    ensures Titles(a + b) == Titles(a) + Titles(b)
  {
  }

  /** Books with the same multiset have titles with the same multiset. */
  lemma TitlesRemoveAt(b: seq<Book>, k: int, rest: seq<Book>)
    requires 0 <= k < |b| && rest == b[..k] + b[k + 1..]
    ensures multiset(Titles(b)) == multiset(Titles(rest)) + multiset{b[k].title}
  {
    var t := Titles(b);
    MultisetRemoveAt(t, k);
    assert t[..k] + t[k + 1..] == Titles(rest);
  }

  lemma {:induction false} TitlesOfPermutation(a: seq<Book>, b: seq<Book>)
    requires multiset(a) == multiset(b)
    ensures multiset(Titles(a)) == multiset(Titles(b))
    decreases |a|
  {
    if a == [] {
      assert |b| == |multiset(b)| == 0;
      assert b == [];
    } else {
      assert a[0] in multiset(a);
      var k := FindIndex(b, a[0]);
      var rest := b[..k] + b[k + 1..];
      assert multiset(a[1..]) == multiset(rest) by {
        PermutationRemoveAt(a, b, k);
      }
      TitlesOfPermutation(a[1..], rest);
      assert a[..0] + a[1..] == a[1..];
      TitlesRemoveAt(a, 0, a[1..]);
      TitlesRemoveAt(b, k, rest);
    }
  }

  /** Titles in non-increasing order. */
  predicate TitlesDescending(t: seq<string>)
  {
    forall i, j :: 0 <= i < j < |t| ==> TitleLe(t[j], t[i])
  }

  lemma SameLargestTitle(a: seq<string>, b: seq<string>)
    requires TitlesDescending(a) && TitlesDescending(b)
    requires multiset(a) == multiset(b) && a != []
    ensures b != [] && a[0] == b[0]
  {
    assert a[0] in multiset(b);
    var j :| 0 <= j < |b| && b[j] == a[0];
    assert b[0] in multiset(a);
    var i :| 0 <= i < |a| && a[i] == b[0];
    TitleLeReflexive(a[0]);
    assert TitleLe(b[j], b[0]);
    assert TitleLe(a[i], a[0]);
    TitleLeAntisymmetric(a[0], b[0]);
  }

  lemma DescendingTail(a: seq<string>)
    requires TitlesDescending(a) && a != []
    ensures TitlesDescending(a[1..])
  {
    forall i, j | 0 <= i < j < |a| - 1 ensures TitleLe(a[1..][j], a[1..][i]) {
      assert a[1..][j] == a[j + 1] && a[1..][i] == a[i + 1];
    }
  }

  /** Two title sequences in non-increasing order with the same titles are equal. */
  lemma {:induction false} DescendingTitlesUnique(a: seq<string>, b: seq<string>)
    requires TitlesDescending(a) && TitlesDescending(b)
    requires multiset(a) == multiset(b)
    ensures a == b
    decreases |a|
  {
    if a == [] {
      assert |b| == |multiset(b)| == 0;
    } else {
      SameLargestTitle(a, b);
      assert a == [a[0]] + a[1..] && b == [b[0]] + b[1..];
      assert multiset(a[1..]) == multiset(a) - multiset{a[0]};
      assert multiset(b[1..]) == multiset(b) - multiset{b[0]};
      DescendingTail(a);
      DescendingTail(b);
      DescendingTitlesUnique(a[1..], b[1..]);
    }
  }

  lemma DescendingSortTitles(x: seq<Book>)
    requires Sorted(x, false)
    ensures TitlesDescending(Titles(x))
  {
    var t := Titles(x);
    forall i, j | 0 <= i < j < |t| ensures TitleLe(t[j], t[i]) {
      assert Precedes(false, x[i], x[j]);
    }
  }

  lemma ReversedAscendingTitles(x: seq<Book>)
    requires Sorted(x, true)
    ensures TitlesDescending(Reverse(Titles(x)))
  {
    var up := Titles(x);
    var rev := Reverse(up);
    forall i, j | 0 <= i < j < |rev| ensures TitleLe(rev[j], rev[i]) {
      assert rev[j] == x[|x| - 1 - j].title && rev[i] == x[|x| - 1 - i].title;
      assert Precedes(true, x[|x| - 1 - j], x[|x| - 1 - i]);
    }
  }

  /** Sorting descending gives the titles of the ascending sort in reverse. Only the
      titles are compared: books that share a title may come in any order. */
  lemma DescendingIsReversedAscending(s: seq<Book>)
    ensures Titles(SortByTitle(s, false)) == Reverse(Titles(SortByTitle(s, true)))
  {
    var up := SortByTitle(s, true);
    var down := SortByTitle(s, false);
    TitlesOfPermutation(up, s);
    TitlesOfPermutation(down, s);
    ReverseMultiset(Titles(up));
    DescendingSortTitles(down);
    ReversedAscendingTitles(up);
    DescendingTitlesUnique(Titles(down), Reverse(Titles(up)));
  }

  // ---------------------------------------------------------------------
  // Filtering by category

  /** `Where(b => categories.Contains(b.Category))`, in store order. */
  function Where(s: seq<Book>, categories: seq<string>): (r: seq<Book>)
    ensures |r| <= |s|
    ensures forall b :: multiset(r)[b] == if b.category in categories then multiset(s)[b] else 0
    ensures IsSubsequence(r, s)
    decreases |s|
  {
    if s == [] then []
    else
      var rest := Where(s[1..], categories);
      assert s == [s[0]] + s[1..];
      if s[0].category in categories then
        assert ([s[0]] + rest)[1..] == rest;
        [s[0]] + rest
      else
        assert IsSubsequence(rest, s) by {
          if rest != [] {
            assert rest[0] in multiset(rest);
            assert rest[0] != s[0];
          }
        }
        rest
  }

  /** The filtering step: applied only when the category list is present and non-empty. */
  function Filter(books: seq<Book>, bookCategories: Option<seq<string>>): (r: seq<Book>)
    ensures bookCategories.None? || bookCategories.value == [] ==> r == books
    ensures bookCategories.Some? && bookCategories.value != [] ==>
      forall b :: multiset(r)[b] == if b.category in bookCategories.value then multiset(books)[b] else 0
    ensures multiset(r) <= multiset(books)
  {
    if bookCategories.Some? && |bookCategories.value| > 0 then Where(books, bookCategories.value)
    else books
  }

  /** The reassigned `query` local: filter, then order by title as the flag says. */
  function Query(books: seq<Book>, bookCategories: Option<seq<string>>, sortOrder: string): (r: seq<Book>)
    ensures multiset(r) == multiset(Filter(books, bookCategories))
    ensures |r| == |Filter(books, bookCategories)|
    ensures ParseSortOrder(sortOrder) == Ascending ==> Sorted(r, true)
    ensures ParseSortOrder(sortOrder) == Descending ==> Sorted(r, false)
    ensures ParseSortOrder(sortOrder) == Unordered ==> r == Filter(books, bookCategories)
  {
    var r := ApplySort(Filter(books, bookCategories), ParseSortOrder(sortOrder));
    assert |r| == |multiset(r)|;
    r
  }

  // ---------------------------------------------------------------------
  // Paging

  /** Enumerable.Skip: a count of zero or less skips nothing. */
  function Skip<T>(s: seq<T>, count: int): seq<T>
  {
    if count <= 0 then s else if count >= |s| then [] else s[count..]
  }

  /** Enumerable.Take: a count of zero or less takes nothing. */
  function Take<T>(s: seq<T>, count: int): seq<T>
  {
    if count <= 0 then [] else if count >= |s| then s else s[..count]
  }

  /** The number of books before page `pageNum`, computed without overflow. */
  function Offset(pageNum: int, pageSize: int): (offset: int)
    ensures pageNum >= 1 && pageSize >= 0 ==> offset >= 0
  {
    (pageNum - 1) * pageSize
  }

  /** `.Skip((pageNum - 1) * pageSize).Take(pageSize)` on any sequence. */
  function Page<T>(q: seq<T>, pageSize: int, pageNum: int): (page: seq<T>)
    requires pageSize > 0 && pageNum >= 1
    ensures Offset(pageNum, pageSize) >= |q| ==> page == []
    ensures Offset(pageNum, pageSize) < |q| ==>
      page == q[Offset(pageNum, pageSize)..Min(Offset(pageNum, pageSize) + pageSize, |q|)]
  {
    Take(Skip(q, Offset(pageNum, pageSize)), pageSize)
  }

  lemma PageSubMultiset<T>(q: seq<T>, pageSize: int, pageNum: int)
    requires pageSize > 0 && pageNum >= 1
    ensures multiset(Page(q, pageSize, pageNum)) <= multiset(q)
  {
    var off := Offset(pageNum, pageSize);
    if off < |q| {
      SliceSubMultiset(q, off, Min(off + pageSize, |q|));
    }
  }

  /** Pages 1 through n of `q`, concatenated. */
  function PagesOf<T>(q: seq<T>, pageSize: int, n: nat): seq<T>
    requires pageSize > 0
  {
    if n == 0 then [] else PagesOf(q, pageSize, n - 1) + Page(q, pageSize, n)
  }

  lemma OffsetStep(n: nat, pageSize: int)
    ensures Offset(n + 1, pageSize) == Offset(n, pageSize) + pageSize
  {
  }

  /** A prefix followed by the slice that starts where it ends is a longer prefix. */
  lemma PrefixThenSlice<T>(q: seq<T>, before: int, size: int, page: seq<T>)
    requires before >= 0 && size > 0
    requires before >= |q| ==> page == []
    requires before < |q| ==> page == q[before..Min(before + size, |q|)]
    ensures q[..Min(before, |q|)] + page == q[..Min(before + size, |q|)]
  {
    if before < |q| {
      assert q[..before] + q[before..Min(before + size, |q|)] == q[..Min(before + size, |q|)];
    }
  }

  /** Pages 1 through n cover the books before page n + 1. */
  lemma {:induction false} PagesOfIsPrefix<T>(q: seq<T>, pageSize: int, n: nat)
    requires pageSize > 0
    ensures PagesOf(q, pageSize, n) == q[..Min(Offset(n + 1, pageSize), |q|)]
  {
    if n > 0 {
      var before := Offset(n, pageSize);
      OffsetStep(n, pageSize);
      PagesOfIsPrefix(q, pageSize, n - 1);
      assert PagesOf(q, pageSize, n) == q[..Min(before, |q|)] + Page(q, pageSize, n);
      PrefixThenSlice(q, before, pageSize, Page(q, pageSize, n));
    }
  }

  /** The length of a page and where each of its elements sits in `q`. */
  lemma PageSlice<T>(q: seq<T>, pageSize: int, pageNum: int)
    requires pageSize > 0 && pageNum >= 1
    ensures |Page(q, pageSize, pageNum)| <= pageSize
    ensures |Page(q, pageSize, pageNum)| ==
      if Offset(pageNum, pageSize) >= |q| then 0 else Min(pageSize, |q| - Offset(pageNum, pageSize))
    ensures forall k :: 0 <= k < |Page(q, pageSize, pageNum)| ==>
      Page(q, pageSize, pageNum)[k] == q[Offset(pageNum, pageSize) + k]
  {
  }

  /** GET api/Book/AllBooks (offset computed without 32-bit wrap-around). */
  function GetBooks(books: seq<Book>, pageSize: Int32, pageNum: Int32, sortOrder: string,
                    bookCategories: Option<seq<string>>): (r: PageResult)
    requires pageSize > 0 && pageNum >= 1
    ensures r.totalNumBooks == |Filter(books, bookCategories)|
    ensures |r.books| <= pageSize
    ensures |r.books| ==
      if Offset(pageNum, pageSize) >= r.totalNumBooks then 0
      else Min(pageSize, r.totalNumBooks - Offset(pageNum, pageSize))
    ensures forall k :: 0 <= k < |r.books| ==>
      r.books[k] == Query(books, bookCategories, sortOrder)[Offset(pageNum, pageSize) + k]
  {
    var query := Query(books, bookCategories, sortOrder);
    PageSlice(query, pageSize, pageNum);
    PageResult(Page(query, pageSize, pageNum), |query|)
  }

  /** A page past the end is empty, and the total is still reported. */
  lemma PageBeyondEnd(books: seq<Book>, pageSize: Int32, pageNum: Int32, sortOrder: string,
                      bookCategories: Option<seq<string>>)
    requires pageSize > 0 && pageNum >= 1
    ensures Offset(pageNum, pageSize) >= |Filter(books, bookCategories)| ==>
      GetBooks(books, pageSize, pageNum, sortOrder, bookCategories).books == [] &&
      GetBooks(books, pageSize, pageNum, sortOrder, bookCategories).totalNumBooks
        == |Filter(books, bookCategories)|
  {
  }

  /** The total does not depend on which page is asked for, nor its size. */
  lemma TotalIndependentOfPage(books: seq<Book>, sortOrder: string, bookCategories: Option<seq<string>>,
                               pageSize1: Int32, pageNum1: Int32, pageSize2: Int32, pageNum2: Int32)
    requires pageSize1 > 0 && pageNum1 >= 1 && pageSize2 > 0 && pageNum2 >= 1
    ensures GetBooks(books, pageSize1, pageNum1, sortOrder, bookCategories).totalNumBooks
         == GetBooks(books, pageSize2, pageNum2, sortOrder, bookCategories).totalNumBooks
  {
  }

  lemma InQueryIsFiltered(books: seq<Book>, bookCategories: Option<seq<string>>, sortOrder: string, b: Book)
    requires b in Query(books, bookCategories, sortOrder)
    ensures multiset(books)[b] > 0
    ensures bookCategories.Some? && bookCategories.value != [] ==> b.category in bookCategories.value
  {
    assert b in multiset(Query(books, bookCategories, sortOrder));
  }

  /** With a non-empty category list, every book on the page has a listed category. */
  lemma PageMatchesCategories(books: seq<Book>, pageSize: Int32, pageNum: Int32, sortOrder: string,
                              bookCategories: Option<seq<string>>)
    requires pageSize > 0 && pageNum >= 1
    requires bookCategories.Some? && bookCategories.value != []
    ensures forall b :: b in GetBooks(books, pageSize, pageNum, sortOrder, bookCategories).books ==>
      b.category in bookCategories.value
  {
    var page := GetBooks(books, pageSize, pageNum, sortOrder, bookCategories).books;
    var q := Query(books, bookCategories, sortOrder);
    forall b | b in page ensures b.category in bookCategories.value {
      var k :| 0 <= k < |page| && page[k] == b;
      assert b == q[Offset(pageNum, pageSize) + k];
      InQueryIsFiltered(books, bookCategories, sortOrder, b);
    }
  }

  /** Filtering, sorting and paging never invent books: the page is a sub-multiset of the store. */
  lemma PageFromStore(books: seq<Book>, pageSize: Int32, pageNum: Int32, sortOrder: string,
                      bookCategories: Option<seq<string>>)
    requires pageSize > 0 && pageNum >= 1
    ensures multiset(GetBooks(books, pageSize, pageNum, sortOrder, bookCategories).books) <= multiset(books)
  {
    var q := Query(books, bookCategories, sortOrder);
    PageSubMultiset(q, pageSize, pageNum);
    assert multiset(q) <= multiset(books);
  }

  lemma SliceSorted(s: seq<Book>, ascending: bool, lo: int, hi: int)
    requires Sorted(s, ascending) && 0 <= lo <= hi <= |s|
    ensures Sorted(s[lo..hi], ascending)
  {
    forall i, j | 0 <= i < j < hi - lo ensures Precedes(ascending, s[lo..hi][i], s[lo..hi][j]) {
      assert s[lo..hi][i] == s[lo + i] && s[lo..hi][j] == s[lo + j];
    }
  }

  /** A page of an ascending (descending) query has non-decreasing (non-increasing) titles. */
  lemma PageSorted(books: seq<Book>, pageSize: Int32, pageNum: Int32, sortOrder: string,
                   bookCategories: Option<seq<string>>)
    requires pageSize > 0 && pageNum >= 1
    ensures ParseSortOrder(sortOrder) == Ascending ==>
      Sorted(GetBooks(books, pageSize, pageNum, sortOrder, bookCategories).books, true)
    ensures ParseSortOrder(sortOrder) == Descending ==>
      Sorted(GetBooks(books, pageSize, pageNum, sortOrder, bookCategories).books, false)
  {
    var q := Query(books, bookCategories, sortOrder);
    var off := Offset(pageNum, pageSize);
    if off < |q| && ParseSortOrder(sortOrder) != Unordered {
      SliceSorted(q, ParseSortOrder(sortOrder) == Ascending, off, Min(off + pageSize, |q|));
    }
  }

  /** Each response of GetBooks is the corresponding page of the query. */
  lemma GetBooksIsPage(books: seq<Book>, pageSize: Int32, pageNum: Int32, sortOrder: string,
                       bookCategories: Option<seq<string>>)
    requires pageSize > 0 && pageNum >= 1
    ensures GetBooks(books, pageSize, pageNum, sortOrder, bookCategories).books
         == Page(Query(books, bookCategories, sortOrder), pageSize, pageNum)
  {
  }

  /** For pageSize > 0, pages 1..ceil(|q| / pageSize) of `q` concatenated are exactly `q`:
      no element is repeated and none is left out. */
  lemma PagesTile<T>(q: seq<T>, pageSize: int)
    requires pageSize > 0
    ensures PagesOf(q, pageSize, CeilDiv(|q|, pageSize)) == q
  {
    var n := CeilDiv(|q|, pageSize);
    PagesOfIsPrefix(q, pageSize, n);
    assert Offset(n + 1, pageSize) == n * pageSize >= |q|;
    assert q[..|q|] == q;
  }

  // ---------------------------------------------------------------------
  // The offset as the C# code computes it

  /** The value of a C# `int` expression with unchecked wrap-around. */
  function Wrap32(x: int): (r: Int32)
    ensures -0x8000_0000 <= x <= Int32Max ==> r == x
  {
    (x + 0x8000_0000) % 0x1_0000_0000 - 0x8000_0000
  }

  /** GET api/Book/AllBooks exactly as written: `(pageNum - 1) * pageSize` is an `int`
      product that wraps, and Skip of a negative count skips nothing (as in LINQ to
      Objects and SQLite, which treats a negative OFFSET as zero). */
  function GetBooksAsWritten(books: seq<Book>, pageSize: Int32, pageNum: Int32, sortOrder: string,
                             bookCategories: Option<seq<string>>): (r: PageResult)
    requires pageSize > 0 && pageNum >= 1
    ensures r.totalNumBooks == |Filter(books, bookCategories)|
    ensures |r.books| <= pageSize
  {
    var query := Query(books, bookCategories, sortOrder);
    PageResult(Take(Skip(query, Wrap32(Offset(pageNum, pageSize))), pageSize), |query|)
  }

  /** While the offset fits in an `int`, the code as written returns the intended page. */
  lemma AsWrittenAgreesWithoutOverflow(books: seq<Book>, pageSize: Int32, pageNum: Int32, sortOrder: string,
                                       bookCategories: Option<seq<string>>)
    requires pageSize > 0 && pageNum >= 1
    requires Offset(pageNum, pageSize) <= Int32Max
    ensures GetBooksAsWritten(books, pageSize, pageNum, sortOrder, bookCategories)
         == GetBooks(books, pageSize, pageNum, sortOrder, bookCategories)
  {
  }

  /** Counterexample: one book, pageSize = 2^30, pageNum = 3. The offset 2^31 lies past
      the end, so the page should be empty, but it wraps to -2^31 and the code as
      written returns the first page where a negative offset counts as zero. */
  lemma AsWrittenOffsetOverflow()
    ensures var store := [Book(1, "Dune", "Herbert", "Chilton", "0-8", "Fiction", "Fiction", 412, 999)];
      && GetBooksAsWritten(store, 0x4000_0000, 3, "asc", None).books == store
      && GetBooks(store, 0x4000_0000, 3, "asc", None).books == []
  {
    var store := [Book(1, "Dune", "Herbert", "Chilton", "0-8", "Fiction", "Fiction", 412, 999)];
    assert Offset(3, 0x4000_0000) == 0x8000_0000;
    assert Wrap32(0x8000_0000) == -0x8000_0000;
    assert |Query(store, None, "asc")| == 1;
  }

  // ---------------------------------------------------------------------
  // Categories

  function Categories(books: seq<Book>): (r: seq<string>)
    ensures |r| == |books|
    ensures forall i :: 0 <= i < |books| ==> r[i] == books[i].category
  {
    seq(|books|, i requires 0 <= i < |books| => books[i].category)
  }

  /** GET api/Book/GetBookTypes: every category in the store, each exactly once. */
  function GetBookCategories(books: seq<Book>): (r: seq<string>)
    ensures NoDuplicates(r)
    ensures forall c :: c in r <==> exists i :: 0 <= i < |books| && books[i].category == c
  {
    var r := Distinct(Categories(books));
    assert forall c :: c in Categories(books) <==> exists i :: 0 <= i < |books| && books[i].category == c;
    r
  }
}
