/** Worked examples: facts proved about small concrete catalogs, through the
    specification and through the Library class. */
module Examples {
  import opened Text
  import opened Books
  import opened Sorting
  import opened Store

  /** "Title1" contains "ti" ignoring case. */
  lemma TitleContainsTi()
    ensures ContainsIgnoreCase("Title1", "ti")
  {
    assert Lower("Title1") == "title1";
    assert Lower("ti") == "ti";
    assert StartsWith("title1", "ti");
  }

  /** "Other" does not contain "ti", in any case. */
  lemma OtherLacksTi()
    ensures !ContainsIgnoreCase("Other", "ti")
  {
    assert Lower("Other") == "other";
    assert Lower("ti") == "ti";
    assert !Contains("r", "ti");
    assert !Contains("er", "ti");
    assert !Contains("her", "ti");
    assert !Contains("ther", "ti");
  }

  /** Searching titles for "ti" finds "Title1" and not "Other". */
  lemma SearchExample()
    ensures Filter([Book("Title1", "A", false), Book("Other", "B", false)], Matching("ti", "title"))
         == [Book("Title1", "A", false)]
  {
    assert EqualsIgnoreCase("title", "title");
    TitleContainsTi();
    OtherLacksTi();
  }

  /** Searching for "TI" instead gives the same result. */
  lemma SearchCaseExample()
    ensures Filter([Book("Title1", "A", false), Book("Other", "B", false)], Matching("TI", "title"))
         == [Book("Title1", "A", false)]
  {
    SearchExample();
    assert EqualsIgnoreCase("ti", "TI") by {
      assert Fold('T') == 't' && Fold('I') == 'i';
    }
    SearchIgnoresCase([Book("Title1", "A", false), Book("Other", "B", false)], "ti", "TI", "title", "title");
  }

  /** Sorting [Zeta, Alpha] by title gives [Alpha, Zeta]. */
  lemma SortExample()
    ensures SortedBy([Book("Zeta", "A", false), Book("Alpha", "B", false)], ByTitle)
         == [Book("Alpha", "B", false), Book("Zeta", "A", false)]
  {
    var zeta, alpha := Book("Zeta", "A", false), Book("Alpha", "B", false);
    assert [zeta, alpha][..1] == [zeta];
    assert [zeta][..0] == [];
    assert CompareIgnoreCase("Zeta", "Alpha") > 0;
    assert Insert([zeta], alpha, ByTitle) == Insert([], alpha, ByTitle) + [zeta];
  }

  /** Which of the example titles equal the looked-up ones, ignoring case. */
  lemma ExampleTitles()
    ensures EqualsIgnoreCase("Banana", "banana")
    ensures !EqualsIgnoreCase("Apple", "banana") && !EqualsIgnoreCase("Cherry", "banana")
    ensures !EqualsIgnoreCase("Apple", "Durian") && !EqualsIgnoreCase("Banana", "Durian")
    ensures !EqualsIgnoreCase("Cherry", "Durian")
  {
    assert Fold('B') == 'b' && Fold('C') == 'c' && Fold('D') == 'd';
    assert Fold("Cherry"[0]) != Fold("banana"[0]);
    assert Fold("Banana"[0]) != Fold("Durian"[0]);
    assert Fold("Cherry"[0]) != Fold("Durian"[0]);
  }

  /** Exact lookup on a catalog of Apple, Banana and Cherry: "banana" finds
      Banana and "Durian" finds nothing. */
  method FindExactScenario()
  {
    var apple, banana, cherry := Book("Apple", "A", false), Book("Banana", "B", false), Book("Cherry", "C", false);
    var lib := new Library();
    lib.AddBook("Apple", "A");
    lib.AddBook("Banana", "B");
    lib.AddBook("Cherry", "C");
    assert lib.books == [apple, banana, cherry];
    ExampleTitles();
    var found := lib.BinarySearch("banana");
    assert found == Some(banana);
    var missing := lib.BinarySearch("Durian");
    assert missing == None;
  }
}
