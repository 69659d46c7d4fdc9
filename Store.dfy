/** The catalog store: the Library class and its operations on the one
    ordered list of books it owns. */
module Store {
  import opened Text
  import opened Books
  import opened Sorting

  /** The books of s sorted by key. ArrayList.sort sorts its backing array in
      place; here the books are put in a fresh array, sorted there, and the
      array's contents are the result. */
  method SortedCopy(s: seq<Book>, key: SortKey) returns (r: seq<Book>)
    ensures r == SortedBy(s, key)
  {
    var a := new Book[|s|](i requires 0 <= i < |s| => s[i]);
    assert a[..] == s;
    InsertionSort(a, key);
    r := a[..];
  }

  /** The low/high/mid loop of binarySearch over a list sorted by title
      with the same comparison it searches with. */
  method SearchSorted(sorted: seq<Book>, title: string) returns (r: Option<Book>)
    requires Sorted(sorted, ByTitle)
    ensures r.Some? ==> r.value in sorted && EqualsIgnoreCase(r.value.title, title)
    ensures r.None? ==> forall k :: 0 <= k < |sorted| ==> !EqualsIgnoreCase(sorted[k].title, title)
  {
    var low, high := 0, |sorted| - 1;
    while low <= high
      invariant 0 <= low <= high + 1 <= |sorted|
      invariant forall k :: 0 <= k < low ==> !EqualsIgnoreCase(sorted[k].title, title)
      invariant forall k :: high < k < |sorted| ==> !EqualsIgnoreCase(sorted[k].title, title)
      decreases high - low
    {
      var mid := low + (high - low) / 2;
      assert 0 <= low <= mid <= high < |sorted|;
      var midBook := sorted[mid];
      var cmp := CompareIgnoreCase(title, midBook.title);
      if cmp == 0 {
        CompareZeroIffEquals(title, midBook.title);
        EqualsIgnoreCaseEquivalence(title, midBook.title, title);
        return Some(midBook);
      } else if cmp < 0 {
        CompareZeroIffEquals(title, midBook.title);
        forall k | mid < k < |sorted| ensures !EqualsIgnoreCase(sorted[k].title, title) {
          assert InOrder(midBook, sorted[k], ByTitle);
          CompareTransitiveStrict(title, midBook.title, sorted[k].title);
          CompareZeroIffEquals(title, sorted[k].title);
          EqualsIgnoreCaseEquivalence(sorted[k].title, title, title);
        }
        high := mid - 1;
      } else {
        CompareAntisymmetric(title, midBook.title);
        CompareZeroIffEquals(midBook.title, title);
        forall k | 0 <= k < mid ensures !EqualsIgnoreCase(sorted[k].title, title) {
          assert InOrder(sorted[k], midBook, ByTitle);
          CompareTransitiveStrict(sorted[k].title, midBook.title, title);
          CompareZeroIffEquals(sorted[k].title, title);
        }
        low := mid + 1;
      }
    }
    return None;
  }

  class Library {
    /** The catalog, in its current order. */
    var books: seq<Book>

    /** An empty catalog. */
    constructor ()
      ensures books == []
    {
      books := [];
    }

    /** addBook: appends a new, not issued book. */
    method AddBook(title: string, author: string)
      modifies this
      ensures books == old(books) + [NewBook(title, author)]
    {
      books := books + [NewBook(title, author)];
    }

    /** deleteBook: removes every book whose title equals title ignoring case,
        keeping the others in their order (removeIf). */
    method DeleteBook(title: string)
      modifies this
      ensures books == Filter(old(books), TitleOtherThan(title))
    {
      var all, kept := books, [];
      var i := 0;
      while i < |all|
        invariant 0 <= i <= |all|
        invariant kept == Filter(all[..i], TitleOtherThan(title))
      {
        FilterAppend(all[..i], [all[i]], TitleOtherThan(title));
        assert all[..i + 1] == all[..i] + [all[i]];
        if !EqualsIgnoreCase(all[i].title, title) {
          kept := kept + [all[i]];
        }
        i := i + 1;
      }
      assert all[..i] == all;
      books := kept;
    }

    /** getBooks: a snapshot of the catalog in its current order. */
    method GetBooks() returns (r: seq<Book>)
      ensures r == books
    {
      r := books;
    }

    /** issueBook: marks as issued the first book, in catalog order, whose
        title equals title ignoring case and that is not issued yet. */
    method IssueBook(title: string)
      modifies this
      ensures books == Flip(old(books), title, true)
    {
      var i := 0;
      while i < |books|
        invariant 0 <= i <= |books|
        invariant books == old(books)
        invariant forall k :: 0 <= k < i ==> !Eligible(books[k], title, false)
      {
        if EqualsIgnoreCase(books[i].title, title) && !books[i].issued {
          books := books[i := books[i].(issued := true)];
          return;
        }
        i := i + 1;
      }
    }

    /** returnBook: marks as available the first book, in catalog order, whose
        title equals title ignoring case and that is currently issued. */
    method ReturnBook(title: string)
      modifies this
      ensures books == Flip(old(books), title, false)
    {
      var i := 0;
      while i < |books|
        invariant 0 <= i <= |books|
        invariant books == old(books)
        invariant forall k :: 0 <= k < i ==> !Eligible(books[k], title, true)
      {
        if EqualsIgnoreCase(books[i].title, title) && books[i].issued {
          books := books[i := books[i].(issued := false)];
          return;
        }
        i := i + 1;
      }
    }

    /** linearSearch: the books whose title (searchBy "title") or author
        (searchBy "author") contains query, ignoring case, in catalog order. */
    method LinearSearch(query: string, searchBy: string) returns (results: seq<Book>)
      ensures results == Filter(books, Matching(query, searchBy))
    {
      results := [];
      var i := 0;
      while i < |books|
        invariant 0 <= i <= |books|
        invariant results == Filter(books[..i], Matching(query, searchBy))
      {
        var book := books[i];
        FilterAppend(books[..i], [book], Matching(query, searchBy));
        assert books[..i + 1] == books[..i] + [book];
        if EqualsIgnoreCase(searchBy, "title") && ContainsIgnoreCase(book.title, query) {
          results := results + [book];
        } else if EqualsIgnoreCase(searchBy, "author") && ContainsIgnoreCase(book.author, query) {
          results := results + [book];
        }
        i := i + 1;
      }
      assert books[..i] == books;
    }

    /** binarySearch: sorts a copy of the catalog by title ignoring case and
        looks title up in it. A book is found exactly when the catalog has a
        book of that title (ignoring case); the catalog itself is untouched. */
    method BinarySearch(title: string) returns (r: Option<Book>)
      ensures r.Some? ==> r.value in books && EqualsIgnoreCase(r.value.title, title)
      ensures r.None? ==> forall b :: b in books ==> !EqualsIgnoreCase(b.title, title)
    {
      var sortedBooks := SortedCopy(books, ByTitle);
      SortedBySorted(books, ByTitle);
      SortedByPermutes(books, ByTitle);
      r := SearchSorted(sortedBooks, title);
      if r.Some? {
        assert r.value in multiset(books);
      } else {
        forall b | b in books ensures !EqualsIgnoreCase(b.title, title) {
          assert b in multiset(sortedBooks);
        }
      }
    }

    /** sortByTitle: stable sort of the catalog by title, ignoring case. */
    method SortByTitle()
      modifies this
      ensures books == SortedBy(old(books), ByTitle)
    {
      books := SortedCopy(books, ByTitle);
    }

    /** sortByAuthor: stable sort of the catalog by author, ignoring case. */
    method SortByAuthor()
      modifies this
      ensures books == SortedBy(old(books), ByAuthor)
    {
      books := SortedCopy(books, ByAuthor);
    }
  }
}
