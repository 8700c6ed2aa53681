/** The Browse page's item filter: an item is shown when the search term,
    lower-cased, occurs in its lower-cased title or description, and the
    selected category is "all" or exactly the item's. Lower-casing is ASCII
    only. */
module Browse {
  import opened Common

  /** The fields of a catalogue item the page's filter and counters read. */
  datatype Item = Item(id: string, title: string, description: string, category: string, isAvailable: bool)

  const AllCategories: string := "all"

  /** The filter's search half. */
  predicate MatchesSearch(item: Item, searchTerm: string) {
    Contains(Lower(item.title), Lower(searchTerm)) || Contains(Lower(item.description), Lower(searchTerm))
  }

  /** The filter's category half: exact, case-sensitive equality. */
  predicate MatchesCategory(item: Item, selectedCategory: string) {
    selectedCategory == AllCategories || item.category == selectedCategory
  }

  function Keeps(searchTerm: string, selectedCategory: string): Item -> bool {
    (item: Item) => MatchesSearch(item, searchTerm) && MatchesCategory(item, selectedCategory)
  }

  /** `filteredItems` */
  function FilteredItems(items: seq<Item>, searchTerm: string, selectedCategory: string): (shown: seq<Item>)
    ensures |shown| <= |items|
    ensures forall item :: item in shown <==>
              item in items && MatchesSearch(item, searchTerm) && MatchesCategory(item, selectedCategory)
  {
    Select(items, Keeps(searchTerm, selectedCategory))
  }

  /** An item is shown exactly when it is listed and the term occurs, ignoring
      ASCII case, in its title or description, and its category is the
      selected one or "all" is selected. */
  lemma ShownIffMatches(items: seq<Item>, searchTerm: string, selectedCategory: string, item: Item)
    ensures item in FilteredItems(items, searchTerm, selectedCategory) <==>
              && item in items
              && ((exists j :: OccursAt(Lower(item.title), Lower(searchTerm), j))
                  || (exists j :: OccursAt(Lower(item.description), Lower(searchTerm), j)))
              && (selectedCategory == AllCategories || item.category == selectedCategory)
  {
    assert Keeps(searchTerm, selectedCategory)(item) <==>
             MatchesSearch(item, searchTerm) && MatchesCategory(item, selectedCategory);
  }

  /** The empty term occurs in every text. */
  lemma EmptyTermMatches(item: Item)
    ensures MatchesSearch(item, "")
  {
    assert Lower("") == "";
    assert OccursAt(Lower(item.title), "", 0);
  }

  /** With no search term and "all" selected, every item is shown, in order. */
  lemma {:induction false} EmptySearchShowsAll(items: seq<Item>)
    ensures FilteredItems(items, "", AllCategories) == items
  {
    forall k | 0 <= k < |items|
      ensures Keeps("", AllCategories)(items[k])
    {
      EmptyTermMatches(items[k]);
    }
    SelectAll(items, Keeps("", AllCategories));
  }

  /** A category other than "all" shows only items of exactly that category:
      no case folding, so "jackets" does not select "Jackets". */
  lemma CategoryIsExact(items: seq<Item>, searchTerm: string, selectedCategory: string)
    requires selectedCategory != AllCategories
    ensures forall item :: item in FilteredItems(items, searchTerm, selectedCategory) ==>
              item.category == selectedCategory
  {
  }

  /** The shown items keep the catalogue's order: they are a subsequence of it. */
  lemma ShownInCatalogueOrder(items: seq<Item>, searchTerm: string, selectedCategory: string)
    ensures SubseqOf(FilteredItems(items, searchTerm, selectedCategory), items)
  {
    SelectIsSubsequence(items, Keeps(searchTerm, selectedCategory));
  }

  /** "Showing N items" */
  function ShownCount(items: seq<Item>, searchTerm: string, selectedCategory: string): (n: nat)
    ensures n == CountWhere(items, Keeps(searchTerm, selectedCategory))
  {
    SelectCount(items, Keeps(searchTerm, selectedCategory));
    |FilteredItems(items, searchTerm, selectedCategory)|
  }

  predicate Available(item: Item) {
    item.isAvailable
  }

  /** "N available for swap": the shown items that are available. */
  function AvailableCount(items: seq<Item>, searchTerm: string, selectedCategory: string): (n: nat)
    ensures n == CountWhere(FilteredItems(items, searchTerm, selectedCategory), Available)
  {
    SelectCount(FilteredItems(items, searchTerm, selectedCategory), Available);
    |Select(FilteredItems(items, searchTerm, selectedCategory), Available)|
  }

  /** Never more items are available than are shown, and the two counts agree
      exactly when every shown item is available. */
  lemma AvailableNeverExceedsShown(items: seq<Item>, searchTerm: string, selectedCategory: string)
    ensures AvailableCount(items, searchTerm, selectedCategory) <= ShownCount(items, searchTerm, selectedCategory)
    ensures AvailableCount(items, searchTerm, selectedCategory) == ShownCount(items, searchTerm, selectedCategory)
            <==> forall item :: item in FilteredItems(items, searchTerm, selectedCategory) ==> item.isAvailable
  {
    SelectCountEqualIffAll(FilteredItems(items, searchTerm, selectedCategory), Available);
  }

  lemma {:induction false} SelectCountEqualIffAll(s: seq<Item>, p: Item -> bool)
    ensures |Select(s, p)| == |s| <==> forall x :: x in s ==> p(x)
  {
    if s != [] {
      SelectCountEqualIffAll(s[1..], p);
      assert forall x :: x in s <==> x == s[0] || x in s[1..];
    }
  }
}
