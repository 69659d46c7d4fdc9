/** Book records and the value-level specification of the catalog operations:
    which books a delete keeps, which a search returns, and which single flag
    an issue or a return changes. */
module Books {
  import opened Text

  datatype Option<T> = None | Some(value: T)

  /** One catalog entry. The Java getters are the field selectors and
      setIssued is the update b.(issued := v). */
  datatype Book = Book(title: string, author: string, issued: bool)

  /** The Java constructor: a new book is never issued. */
  function NewBook(title: string, author: string): (b: Book)
    ensures b.title == title && b.author == author && !b.issued
  {
    Book(title, author, false)
  }

  /** The field a catalog sort orders by. */
  datatype SortKey = ByTitle | ByAuthor

  function Key(b: Book, key: SortKey): string
  {
    match key
    case ByTitle => b.title
    case ByAuthor => b.author
  }

  /** The tests the catalog filters its books by. */
  datatype Criterion =
    | TitleOtherThan(title: string)               // the books deleteBook keeps
    | Matching(query: string, searchBy: string)   // the books linearSearch returns
    | SameKey(key: SortKey, value: string)        // one class of equal sort keys, for stability of the sorts in Sorting

  predicate Holds(c: Criterion, b: Book)
  {
    match c
    case TitleOtherThan(t) => !EqualsIgnoreCase(b.title, t)
    case Matching(q, field) =>
      (EqualsIgnoreCase(field, "title") && ContainsIgnoreCase(b.title, q))
      || (EqualsIgnoreCase(field, "author") && ContainsIgnoreCase(b.author, q))
    case SameKey(key, k) => EqualsIgnoreCase(Key(b, key), k)
  }

  /** The books of s that satisfy c, in the order of s. */
  function Filter(s: seq<Book>, c: Criterion): (r: seq<Book>)
    ensures |r| <= |s|
  {
    if s == [] then []
    else if Holds(c, s[0]) then [s[0]] + Filter(s[1..], c)
    else Filter(s[1..], c)
  }

  /** A book is kept exactly when it was present and satisfies the test. */
  lemma {:induction false} FilterMembers(s: seq<Book>, c: Criterion)
    ensures forall b :: b in Filter(s, c) <==> b in s && Holds(c, b)
  {
    if s != [] {
      FilterMembers(s[1..], c);
      assert s == [s[0]] + s[1..];
    }
  }

  /** Filtering works piecewise, so the kept books stay in their relative order. */
  lemma {:induction false} FilterAppend(s: seq<Book>, t: seq<Book>, c: Criterion)
    ensures Filter(s + t, c) == Filter(s, c) + Filter(t, c)
  {
    if s == [] {
      assert s + t == t;
    } else {
      assert (s + t)[1..] == s[1..] + t;
      FilterAppend(s[1..], t, c);
    }
  }

  /** Filtering twice by the same test is filtering once. */
  lemma {:induction false} FilterIdempotent(s: seq<Book>, c: Criterion)
    ensures Filter(Filter(s, c), c) == Filter(s, c)
  {
    if s != [] {
      FilterIdempotent(s[1..], c);
    }
  }

  /** Two tests that agree on every book of s select the same books. */
  lemma {:induction false} FilterAgrees(s: seq<Book>, c: Criterion, d: Criterion)
    requires forall b :: b in s ==> (Holds(c, b) <==> Holds(d, b))
    ensures Filter(s, c) == Filter(s, d)
  {
    if s != [] {
      FilterAgrees(s[1..], c, d);
    }
  }

  /** When no book passes the test, nothing is kept. */
  lemma {:induction false} FilterNoneHolds(s: seq<Book>, c: Criterion)
    requires forall b :: b in s ==> !Holds(c, b)
    ensures Filter(s, c) == []
  {
    if s != [] {
      FilterNoneHolds(s[1..], c);
    }
  }

  // ---------------------------------------------------------------- delete

  /** deleteBook followed by deleteBook with the same title changes nothing more. */
  lemma DeleteIdempotent(s: seq<Book>, title: string)
    ensures Filter(Filter(s, TitleOtherThan(title)), TitleOtherThan(title))
         == Filter(s, TitleOtherThan(title))
  {
    FilterIdempotent(s, TitleOtherThan(title));
  }

  /** Deleting the title of a book just added removes it again, and every
      earlier book of that title with it. */
  lemma AddThenDelete(s: seq<Book>, title: string, author: string)
    ensures Filter(s + [NewBook(title, author)], TitleOtherThan(title))
         == Filter(s, TitleOtherThan(title))
  {
    FilterAppend(s, [NewBook(title, author)], TitleOtherThan(title));
    assert [NewBook(title, author)][1..] == [];
  }

  // ---------------------------------------------------------------- search

  /** linearSearch returns exactly the catalog's books whose chosen field
      contains the query, ignoring case; the field name itself is compared
      ignoring case, and any other field name selects nothing. */
  lemma SearchResults(s: seq<Book>, query: string, searchBy: string)
    ensures forall b :: b in Filter(s, Matching(query, searchBy)) <==>
      b in s &&
      if EqualsIgnoreCase(searchBy, "title") then ContainsIgnoreCase(b.title, query)
      else if EqualsIgnoreCase(searchBy, "author") then ContainsIgnoreCase(b.author, query)
      else false
  {
    FilterMembers(s, Matching(query, searchBy));
    assert !EqualsIgnoreCase("title", "author") by {
      assert Fold("title"[0]) != Fold("author"[0]);
    }
    if EqualsIgnoreCase(searchBy, "title") {
      EqualsIgnoreCaseEquivalence(searchBy, "title", "author");
      EqualsIgnoreCaseEquivalence("title", searchBy, "author");
    }
  }

  /** A field name other than title or author finds nothing. */
  lemma SearchUnknownFieldEmpty(s: seq<Book>, query: string, searchBy: string)
    requires !EqualsIgnoreCase(searchBy, "title") && !EqualsIgnoreCase(searchBy, "author")
    ensures Filter(s, Matching(query, searchBy)) == []
  {
    FilterNoneHolds(s, Matching(query, searchBy));
  }

  /** The query and the field name are both case-insensitive: spelling either
      in another case gives the same result list. */
  lemma SearchIgnoresCase(s: seq<Book>, query: string, query': string, searchBy: string, searchBy': string)
    requires EqualsIgnoreCase(query, query') && EqualsIgnoreCase(searchBy, searchBy')
    ensures Filter(s, Matching(query, searchBy)) == Filter(s, Matching(query', searchBy'))
  {
    EqualsIgnoreCaseIffLower(query, query');
    EqualsIgnoreCaseEquivalence(searchBy, searchBy', "title");
    EqualsIgnoreCaseEquivalence(searchBy', searchBy, "title");
    EqualsIgnoreCaseEquivalence(searchBy, searchBy', "author");
    EqualsIgnoreCaseEquivalence(searchBy', searchBy, "author");
    FilterAgrees(s, Matching(query, searchBy), Matching(query', searchBy'));
  }

  // ---------------------------------------------------------- issue / return

  /** The book an issue (issued = false) or a return (issued = true) may act on. */
  predicate Eligible(b: Book, title: string, issued: bool)
  {
    EqualsIgnoreCase(b.title, title) && b.issued == issued
  }

  /** The position of the first eligible book, scanning in catalog order. */
  function FirstEligible(s: seq<Book>, title: string, issued: bool): (r: Option<nat>)
    ensures r.Some? ==> r.value < |s| && Eligible(s[r.value], title, issued)
    ensures r.Some? ==> forall k :: 0 <= k < r.value ==> !Eligible(s[k], title, issued)
    ensures r.None? ==> forall k :: 0 <= k < |s| ==> !Eligible(s[k], title, issued)
  {
    if s == [] then None
    else if Eligible(s[0], title, issued) then Some(0)
    else
      match FirstEligible(s[1..], title, issued)
      case None => None
      case Some(i) => Some(i + 1)
  }

  /** The catalog after the first book titled `title` whose flag is the
      opposite of `to` has its flag set to `to`: issueBook is Flip(s, t, true),
      returnBook is Flip(s, t, false). */
  function Flip(s: seq<Book>, title: string, to: bool): (r: seq<Book>)
    ensures |r| == |s|
    ensures forall i :: 0 <= i < |s| ==> r[i].title == s[i].title && r[i].author == s[i].author
    ensures r == s <==> forall k :: 0 <= k < |s| ==> !Eligible(s[k], title, !to)
    ensures forall i :: 0 <= i < |s| && r[i] != s[i] ==>
      Eligible(s[i], title, !to) && r[i].issued == to
      && forall k :: 0 <= k < i ==> !Eligible(s[k], title, !to)
    ensures forall i, j :: 0 <= i < j < |s| && r[i] != s[i] ==> r[j] == s[j]
  {
    match FirstEligible(s, title, !to)
    case None => s
    case Some(i) =>
      var r := s[i := s[i].(issued := to)];
      assert r[i] != s[i];
      r
  }

  /** Whether at most one book of s has the given title, ignoring case. */
  predicate TitleUnique(s: seq<Book>, title: string)
  {
    forall i, j ::
      0 <= i < |s| && 0 <= j < |s| && EqualsIgnoreCase(s[i].title, title) && EqualsIgnoreCase(s[j].title, title)
      ==> i == j
  }

  /** With a unique title, issuing twice is issuing once. */
  lemma IssueTwice(s: seq<Book>, title: string)
    requires TitleUnique(s, title)
    ensures Flip(Flip(s, title, true), title, true) == Flip(s, title, true)
  {
    var r := Flip(s, title, true);
    if r != s {
      var i :| 0 <= i < |s| && r[i] != s[i];
      forall k | 0 <= k < |r| ensures !Eligible(r[k], title, false) {
        if k != i {
          assert r[k] == s[k];
          assert !EqualsIgnoreCase(s[k].title, title);
        }
      }
    }
  }

  /** With a unique title, returning right after an issue that took effect
      restores the catalog. */
  lemma ReturnAfterIssue(s: seq<Book>, title: string)
    requires TitleUnique(s, title)
    requires exists k :: 0 <= k < |s| && Eligible(s[k], title, false)
    ensures Flip(Flip(s, title, true), title, false) == s
  {
    var k :| 0 <= k < |s| && Eligible(s[k], title, false);
    var r := Flip(s, title, true);
    var i :| 0 <= i < |s| && r[i] != s[i];
    assert r == s[i := r[i]];
    var u := Flip(r, title, false);
    assert Eligible(r[i], title, true);
    assert u != r;
    var j :| 0 <= j < |r| && u[j] != r[j];
    assert j == i;
    assert u == r[i := u[i]];
  }
}
