# Library book catalog: a verified model

This project models the catalog store of a small desktop library tracker. It
is the in-memory `Library` of `Book` records (title, author, an `issued` flag)
that the admin and student windows call into. Each operation is modelled in the
form the Java code takes:

- `Book` is a datatype. Its getters are field selectors and `setIssued` is a
  datatype update.
- `Library` is a class that owns the ordered list of books as a `seq<Book>`
  field. The operations are methods that update that field in place:
  - `addBook`, `deleteBook` and `getBooks`;
  - `issueBook` and `returnBook`, which set the flag on the first eligible
    book and stop;
  - `linearSearch`, a filtering loop;
  - `binarySearch`, a low/high/mid loop over a title-sorted copy;
  - `sortByTitle` and `sortByAuthor`, stable in-place sorts.
- Every case-insensitive comparison goes through one character fold
  (`Text.Fold`). This covers `equalsIgnoreCase`, `compareToIgnoreCase` (which
  is also `CASE_INSENSITIVE_ORDER`) and `toLowerCase().contains`. The model
  proves that these agree, and the binary search's correctness depends on
  that agreement.

Files:
- `Text.dfy`: the fold, lower-casing, case-insensitive equality, ordering and
  substring test. Holds the lemmas that these agree and that the ordering is a
  total preorder.
- `Books.dfy`: the `Book` datatype and the value-level specification.
  - `Filter` says which books a delete keeps and which books a search returns.
  - `FirstEligible` and `Flip` say which single flag an issue or a return
    changes.
- `Sorting.dfy`: `SortedBy`, a functional stable insertion sort that specifies
  both sorts. `InsertionSort` is the same algorithm run in place on an array.
  `ArrayList.sort` sorts its backing array in place; the model sorts a fresh
  array holding the catalog and stores the result back as the new catalog.
- `Store.dfy`: the `Library` class and the binary-search loop.
- `Examples.dfy`: concrete catalogs that serve as worked examples. It contains
  a search for "ti" and "TI", a sort of [Zeta, Alpha], and an exact lookup of
  "banana" and "Durian" through the class.

The Java `Library` keeps its list in a static field. Here it is an ordinary
object created by `new Library()`. Every operation behaves the same way on it.

## Model

| member | source | states |
|---|---|---|
| Text.Lower | LibraryApp.java:77-79 | `toLowerCase` keeps the length and folds every character |
| Text.EqualsIgnoreCase | LibraryApp.java:49 | `equalsIgnoreCase`: equal lengths and the characters agree after folding; its contract states that identical strings are equal ignoring case and that equal-ignoring-case strings have equal lengths |
| Text.CompareIgnoreCase | LibraryApp.java:96 | `compareToIgnoreCase`: the difference of the first differing folded characters, else the difference of the lengths; its contract states that 0 is answered only for strings of equal length |
| Text.ComparePrefix | LibraryApp.java:96 | when one string is, ignoring case, a prefix of the other, the comparison in either order is the difference of the lengths |
| Text.ContainsIgnoreCase | LibraryApp.java:77-79 | `toLowerCase().contains`: holds exactly when the lower-cased query occurs at some position of the lower-cased field |
| Text.CompareZeroIffEquals | LibraryApp.java:96-98 | `compareToIgnoreCase` returns 0 exactly when `equalsIgnoreCase` holds, so the binary search's `cmp == 0` test is title equality ignoring case |
| Text.CompareAntisymmetric | LibraryApp.java:96-103 | swapping the operands of `compareToIgnoreCase` negates the result |
| Text.CompareTransitive | LibraryApp.java:88 | the case-insensitive order that the sorts use is transitive |
| Text.CompareTransitiveStrict | LibraryApp.java:100-103 | a strictly smaller step followed by an at-most step is strictly smaller; this is what lets the search discard a half |
| Text.ContainsIffOccurs | LibraryApp.java:77-79 | `contains` holds exactly when the query occurs at some position of the field |
| Text.EqualsIgnoreCaseIffLower | LibraryApp.java:49 | `equalsIgnoreCase` holds exactly when the lower-cased strings are equal, so it agrees with the lower-casing the search uses |
| Text.EqualsIgnoreCaseEquivalence | LibraryApp.java:49 | equality ignoring case is reflexive, symmetric and transitive |
| Books.NewBook | LibraryApp.java:13-17 | the `Book` constructor: the given title and author, not issued |
| Books.Filter | LibraryApp.java:74-84 | the books of the catalog that pass a test, in catalog order, never more than the catalog; the reference definition for `removeIf` and for the search's result loop, characterised by FilterMembers and FilterAppend |
| Books.FilterMembers | LibraryApp.java:48-50 | a book survives the filter exactly when it was in the catalog and passes the test |
| Books.FilterAppend | LibraryApp.java:74-84 | filtering distributes over concatenation, so the kept books stay in catalog order |
| Books.FilterIdempotent | LibraryApp.java:48-50 | filtering twice by the same test is filtering once |
| Books.DeleteIdempotent | LibraryApp.java:48-50 | `deleteBook(t)` twice leaves the same catalog as once |
| Books.AddThenDelete | LibraryApp.java:44-50 | deleting the title of a book just added gives the catalog that deleting it before the add would have given |
| Books.SearchResults | LibraryApp.java:74-84 | `linearSearch` returns exactly the catalog books whose title (field "title") or author (field "author") contains the query, ignoring case; the field name is compared ignoring case and any other name selects nothing |
| Books.SearchUnknownFieldEmpty | LibraryApp.java:74-84 | with a field name other than title or author the result is empty |
| Books.SearchIgnoresCase | LibraryApp.java:77-79 | changing the case of the query or of the field name does not change the result |
| Books.FirstEligible | LibraryApp.java:57-61 | the index found is the first one, in catalog order, whose title matches ignoring case and whose flag has the wanted value; none is found only when no book qualifies |
| Books.Flip | LibraryApp.java:56-72 | issue/return keeps the length and every title and author, changes at most one book, and that book is the first eligible one with its flag set; the catalog is unchanged exactly when no book is eligible |
| Books.IssueTwice | LibraryApp.java:56-63 | when the title is unique, a second `issueBook` does nothing |
| Books.ReturnAfterIssue | LibraryApp.java:56-72 | when the title is unique and the issue took effect, `returnBook` restores the original catalog |
| Sorting.SortedBy | LibraryApp.java:109-115 | the reference definition of the stable case-insensitive sort `Collections.sort` performs, keeping the length; the lemmas below prove it sorted, a permutation and stable |
| Sorting.SortedBySorted | LibraryApp.java:109-115 | after a sort the catalog is non-decreasing in the case-insensitive order of the key |
| Sorting.SortedByPermutes | LibraryApp.java:109-115 | a sort only reorders: the result is a permutation of the catalog |
| Sorting.SortedByStable | LibraryApp.java:109-115 | a sort is stable: for every key value, the books with that key keep their relative order |
| Sorting.SortedByIdentity | LibraryApp.java:109-115 | sorting an already sorted catalog leaves it unchanged, so sorting twice is sorting once |
| Sorting.InsertionSort | LibraryApp.java:110 | the in-place array sort leaves the array equal to the stable sorted permutation `SortedBy` of its old contents |
| Store.SortedCopy | LibraryApp.java:87-88 | the sorted copy is `SortedBy` of the catalog by title |
| Store.SearchSorted | LibraryApp.java:90-106 | on a title-sorted list, a book is returned only if it is in the list and its title equals the query ignoring case, and nothing is returned only if no such book exists |
| Store.Library.constructor | LibraryApp.java:42 | the catalog starts empty |
| Store.Library.AddBook | LibraryApp.java:44-46 | the catalog grows by one new, not issued book with the given title and author at the end, and every earlier entry is unchanged |
| Store.Library.DeleteBook | LibraryApp.java:48-50 | the catalog becomes exactly its books whose title differs from the given one ignoring case, in their original order |
| Store.Library.GetBooks | LibraryApp.java:52-54 | the snapshot is the catalog in its current order |
| Store.Library.IssueBook | LibraryApp.java:56-63 | the new catalog is `Flip(old, title, true)`: the first matching book that is not yet issued becomes issued, and nothing else changes |
| Store.Library.ReturnBook | LibraryApp.java:65-72 | the new catalog is `Flip(old, title, false)`: the first matching issued book becomes available, and nothing else changes |
| Store.Library.LinearSearch | LibraryApp.java:74-84 | the result is the filter of the catalog by the search test, in catalog order; the method cannot modify the catalog |
| Store.Library.BinarySearch | LibraryApp.java:86-107 | a book is returned only if it is in the catalog and its title equals the query ignoring case, and nothing is returned only if no catalog book has that title; the catalog is unchanged because the search works on a copy |
| Store.Library.SortByTitle | LibraryApp.java:109-111 | the catalog becomes its stable sort by title ignoring case |
| Store.Library.SortByAuthor | LibraryApp.java:113-115 | the catalog becomes its stable sort by author ignoring case |
| Examples.SearchExample | LibraryApp.java:74-84 | over [("Title1","A"), ("Other","B")] a title search for "ti" returns exactly [("Title1","A")] |
| Examples.SearchCaseExample | LibraryApp.java:77 | the same search with "TI" returns the same list |
| Examples.SortExample | LibraryApp.java:109-111 | sorting [("Zeta","A"), ("Alpha","B")] by title gives [("Alpha","B"), ("Zeta","A")] |

## Left out

- The Swing presentation is left out because it is widget construction and event wiring with no catalog logic. This covers `LibraryApp.main` and the look-and-feel setup, `RoleSelector`, `AdminPanel`, `StudentPanel` and the `BookTableModel` adapter.
- The callers trim their input and reject empty strings before calling the store. These checks are not preconditions here: the store accepts any strings.
- Case folding covers ASCII letters only. Java's full Unicode and locale rules for `toLowerCase`, `equalsIgnoreCase` and `compareToIgnoreCase`, where those methods can disagree, are not modelled. The single shared fold makes them agree by construction.
- Object identity and aliasing are not modelled. Books are values, so the model does not express two things: `getBooks` and the search results share the `Book` objects with the catalog, and a flag change through one of them shows in the catalog.
- `Collections.sort`'s TimSort is replaced by a stable insertion sort. Both produce a stable sorted permutation of the catalog; the lemmas state that `SortedBy` is sorted, a permutation and stable.
- `Book.toString` is display formatting only.
- Java `int` overflow is not modelled. The indices `low`, `high` and `mid` are unbounded integers. `mid = low + (high - low) / 2` stays between `low` and `high`, so it cannot overflow for any list Java can hold.
- Books.IssueTwice and Books.ReturnAfterIssue assume that the title is unique in the catalog. With duplicate titles, a second issue acts on the next copy, and a return acts on the first issued copy, which need not be the one just issued.
