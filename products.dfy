/** The catalog page's filter-and-sort effect: three optional predicates narrow
    the catalog, then one of six comparators orders the result in place. */
module Products {
  import opened Wrappers
  import opened Catalog
  import opened Strings
  import opened CartRequests

  /** The page state the effect depends on. */
  datatype Criteria = Criteria(category: string, subcategory: string, searchTerm: string, sortBy: string)

  const InitialCriteria := Criteria("All", "All", "", "featured")

  // ----- Filtering (pure: each stage is a non-mutating `filter`) -----

  /** `s.filter(keep)`. */
  function Where(s: seq<Product>, keep: Product -> bool): (r: seq<Product>)
    ensures |r| <= |s|
    ensures forall p :: p in r <==> p in s && keep(p)
  {
    if s == [] then []
    else (if keep(s[0]) then [s[0]] else []) + Where(s[1..], keep)
  }

  /** A filter keeps every copy of what it accepts and no copy of the rest. */
  lemma {:induction false} WhereMultiset(s: seq<Product>, keep: Product -> bool)
    ensures forall p :: multiset(Where(s, keep))[p] == if keep(p) then multiset(s)[p] else 0
  {
    if s != [] {
      WhereMultiset(s[1..], keep);
      assert s == [s[0]] + s[1..];
    }
  }

  /** Two filters in a row are one filter by the conjunction. */
  lemma {:induction false} WhereWhere(s: seq<Product>, f: Product -> bool, g: Product -> bool, h: Product -> bool)
    requires forall p :: h(p) == (f(p) && g(p))
    ensures Where(Where(s, f), g) == Where(s, h)
  {
    if s != [] {
      WhereWhere(s[1..], f, g, h);
      var head := if f(s[0]) then [s[0]] else [];
      assert Where(s, f) == head + Where(s[1..], f);
      WhereAppend(head, Where(s[1..], f), g);
    }
  }

  lemma {:induction false} WhereAppend(a: seq<Product>, b: seq<Product>, keep: Product -> bool)
    ensures Where(a + b, keep) == Where(a, keep) + Where(b, keep)
  {
    if a != [] {
      assert (a + b)[1..] == a[1..] + b;
      WhereAppend(a[1..], b, keep);
    } else {
      assert a + b == b;
    }
  }

  /** Filters by predicates that agree everywhere agree. */
  lemma {:induction false} WhereSame(s: seq<Product>, f: Product -> bool, g: Product -> bool)
    requires forall p :: f(p) == g(p)
    ensures Where(s, f) == Where(s, g)
  {
    if s != [] {
      WhereSame(s[1..], f, g);
    }
  }

  /** A filter that accepts everything is no filter. */
  lemma {:induction false} WhereAll(s: seq<Product>, keep: Product -> bool)
    requires forall p :: keep(p)
    ensures Where(s, keep) == s
  {
    if s != [] {
      WhereAll(s[1..], keep);
      assert s == [s[0]] + s[1..];
    }
  }

  /** The search predicate: the lower-cased term occurs in the lower-cased
      name or in the lower-cased description. */
  predicate MatchesSearch(p: Product, term: string) {
    Includes(Lower(p.name), Lower(term)) || Includes(Lower(p.description), Lower(term))
  }

  predicate CategoryActive(c: Criteria) { c.category != "All" }
  predicate SubcategoryActive(c: Criteria) { c.subcategory != "All" }
  /** An empty search term is falsy and switches the search off. */
  predicate SearchActive(c: Criteria) { c.searchTerm != "" }

  predicate AnyFilterActive(c: Criteria) {
    CategoryActive(c) || SubcategoryActive(c) || SearchActive(c)
  }

  /** `p` passes every predicate that is switched on. */
  predicate Admits(c: Criteria, p: Product) {
    && (CategoryActive(c) ==> p.category == c.category)
    && (SubcategoryActive(c) ==> p.subcategory == c.subcategory)
    && (SearchActive(c) ==> MatchesSearch(p, c.searchTerm))
  }

  /** The filter chain: category, then subcategory, then search term, each
      stage skipped when switched off. */
  function Filtered(catalog: seq<Product>, c: Criteria): seq<Product> {
    var byCategory :=
      if CategoryActive(c) then Where(catalog, (p: Product) => p.category == c.category) else catalog;
    var bySubcategory :=
      if SubcategoryActive(c) then Where(byCategory, (p: Product) => p.subcategory == c.subcategory) else byCategory;
    if SearchActive(c) then Where(bySubcategory, (p: Product) => MatchesSearch(p, c.searchTerm)) else bySubcategory
  }

  /** The chain is a single filter by "passes every active predicate". */
  lemma FilteredIsWhereAdmits(catalog: seq<Product>, c: Criteria)
    ensures Filtered(catalog, c) == Where(catalog, (p: Product) => Admits(c, p))
  {
    var cat: Product -> bool := (p: Product) => CategoryActive(c) ==> p.category == c.category;
    var sub: Product -> bool := (p: Product) => SubcategoryActive(c) ==> p.subcategory == c.subcategory;
    var search: Product -> bool := (p: Product) => SearchActive(c) ==> MatchesSearch(p, c.searchTerm);
    var catSub: Product -> bool := (p: Product) => cat(p) && sub(p);
    var byCategory := if CategoryActive(c) then Where(catalog, (p: Product) => p.category == c.category) else catalog;
    var bySubcategory := if SubcategoryActive(c) then Where(byCategory, (p: Product) => p.subcategory == c.subcategory) else byCategory;
    // Every stage is a filter by its own "inactive or matches" predicate.
    if CategoryActive(c) {
      WhereSame(catalog, (p: Product) => p.category == c.category, cat);
    } else {
      WhereAll(catalog, cat);
    }
    assert byCategory == Where(catalog, cat);
    if SubcategoryActive(c) {
      WhereWhere(catalog, cat, (p: Product) => p.subcategory == c.subcategory, catSub);
    } else {
      WhereWhere(catalog, cat, sub, catSub);
      WhereAll(byCategory, sub);
    }
    assert bySubcategory == Where(catalog, catSub);
    if SearchActive(c) {
      WhereWhere(catalog, catSub, (p: Product) => MatchesSearch(p, c.searchTerm), (p: Product) => Admits(c, p));
    } else {
      WhereWhere(catalog, catSub, search, (p: Product) => Admits(c, p));
      WhereAll(bySubcategory, search);
    }
  }

  /** What the catalog page shows: exactly the catalog products that pass
      every active predicate, each as often as the catalog holds it, so never
      more products than the catalog has; the "No products found" state
      appears exactly when no catalog product passes. */
  lemma FilteredContents(catalog: seq<Product>, c: Criteria)
    ensures forall p :: p in Filtered(catalog, c) <==> p in catalog && Admits(c, p)
    ensures forall p :: multiset(Filtered(catalog, c))[p] == if Admits(c, p) then multiset(catalog)[p] else 0
    ensures |Filtered(catalog, c)| <= |catalog|
    ensures |Filtered(catalog, c)| == 0 <==> forall p :: p in catalog ==> !Admits(c, p)
  {
    FilteredIsWhereAdmits(catalog, c);
    WhereMultiset(catalog, (p: Product) => Admits(c, p));
    if |Filtered(catalog, c)| != 0 {
      assert Filtered(catalog, c)[0] in Filtered(catalog, c);
    }
  }

  /** With nothing switched on, the chain hands back the catalog itself. */
  lemma NoFilterKeepsCatalog(catalog: seq<Product>, c: Criteria)
    requires !AnyFilterActive(c)
    ensures Filtered(catalog, c) == catalog
  {
  }

  /** On first render every filter is off and the featured comparator is
      selected, so the page starts from the whole catalog. */
  lemma InitialCriteriaShowCatalog(catalog: seq<Product>)
    ensures !AnyFilterActive(InitialCriteria)
    ensures Filtered(catalog, InitialCriteria) == catalog
    ensures SortKeyOf(InitialCriteria.sortBy) == Featured
  {
    NoFilterKeepsCatalog(catalog, InitialCriteria);
  }

  /** The search predicate holds iff the lower-cased term occurs at some
      position of the lower-cased name or of the lower-cased description. */
  lemma MatchesSearchIff(p: Product, term: string)
    ensures MatchesSearch(p, term) <==>
            (exists i :: OccursAt(Lower(p.name), Lower(term), i)) ||
            (exists i :: OccursAt(Lower(p.description), Lower(term), i))
  {
    IncludesIff(Lower(p.name), Lower(term));
    IncludesIff(Lower(p.description), Lower(term));
  }

  // ----- Sorting (in place: `Array.prototype.sort`) -----

  datatype SortKey = Featured | PriceLow | PriceHigh | Rating | Newest | Discount

  /** The `switch` on the sort select: unknown values fall to the default
      (featured) comparator. */
  function SortKeyOf(sortBy: string): SortKey {
    match sortBy
    case "price-low" => PriceLow
    case "price-high" => PriceHigh
    case "rating" => Rating
    case "newest" => Newest
    case "discount" => Discount
    case _ => Featured
  }

  lemma SortKeyOfUnknown(sortBy: string)
    requires sortBy !in ["price-low", "price-high", "rating", "newest", "discount"]
    ensures SortKeyOf(sortBy) == Featured
  {
  }

  /** The comparator passed to `sort`: negative puts `a` first, positive `b`. */
  function Compare(k: SortKey, a: Product, b: Product): int {
    match k
    case PriceLow => a.price - b.price
    case PriceHigh => b.price - a.price
    case Rating => b.rating - a.rating
    case Newest => b.id - a.id
    case Discount => b.discount - a.discount
    case Featured =>
      if a.isHot && !b.isHot then -1
      else if !a.isHot && b.isHot then 1
      else b.rating - a.rating
  }

  /** `a` may stand before `b` in a sorted result. */
  predicate Precedes(k: SortKey, a: Product, b: Product) {
    Compare(k, a, b) <= 0
  }

  lemma PrecedesTotal(k: SortKey, a: Product, b: Product)
    ensures Precedes(k, a, b) || Precedes(k, b, a)
  {
  }

  lemma PrecedesTransitive(k: SortKey, a: Product, b: Product, c: Product)
    requires Precedes(k, a, b) && Precedes(k, b, c)
    ensures Precedes(k, a, c)
  {
  }

  /** The promise `sort` makes for a consistent comparator. */
  predicate SortedBy(k: SortKey, s: seq<Product>) {
    forall i, j :: 0 <= i < j < |s| ==> Precedes(k, s[i], s[j])
  }

  /** What each sort key means for the order shown on the page. */
  lemma SortedOrder(k: SortKey, s: seq<Product>)
    requires SortedBy(k, s)
    ensures k == PriceLow ==> forall i, j :: 0 <= i < j < |s| ==> s[i].price <= s[j].price
    ensures k == PriceHigh ==> forall i, j :: 0 <= i < j < |s| ==> s[i].price >= s[j].price
    ensures k == Rating ==> forall i, j :: 0 <= i < j < |s| ==> s[i].rating >= s[j].rating
    ensures k == Newest ==> forall i, j :: 0 <= i < j < |s| ==> s[i].id >= s[j].id
    ensures k == Discount ==> forall i, j :: 0 <= i < j < |s| ==> s[i].discount >= s[j].discount
    ensures k == Featured ==> forall i, j :: 0 <= i < j < |s| && s[j].isHot ==> s[i].isHot
    ensures k == Featured ==>
              forall i, j :: 0 <= i < j < |s| && s[i].isHot == s[j].isHot ==> s[i].rating >= s[j].rating
  {
    assert forall i, j :: 0 <= i < j < |s| ==> Precedes(k, s[i], s[j]);
  }

  /** Sorts `a` in place by the comparator of `k` (an insertion sort; the
      algorithm the JavaScript engine uses is not part of the model). */
  method SortInPlace(a: array<Product>, k: SortKey)
    modifies a
    ensures SortedBy(k, a[..])
    ensures multiset(a[..]) == old(multiset(a[..]))
  {
    var i := 0;
    while i < a.Length
      invariant 0 <= i <= a.Length
      invariant forall p, q :: 0 <= p < q < i ==> Precedes(k, a[p], a[q])
      invariant multiset(a[..]) == old(multiset(a[..]))
    {
      var j := i;
      while j > 0 && !Precedes(k, a[j - 1], a[j])
        invariant 0 <= j <= i
        invariant forall p, q :: 0 <= p < q <= i && p != j && q != j ==> Precedes(k, a[p], a[q])
        invariant forall q :: j < q <= i ==> Precedes(k, a[j], a[q])
        invariant multiset(a[..]) == old(multiset(a[..]))
      {
        PrecedesTotal(k, a[j - 1], a[j]);
        a[j - 1], a[j] := a[j], a[j - 1];
        j := j - 1;
      }
      forall p | 0 <= p < j
        ensures Precedes(k, a[p], a[j])
      {
        if p < j - 1 {
          PrecedesTransitive(k, a[p], a[j - 1], a[j]);
        }
      }
      i := i + 1;
    }
  }

  /** The effect body. With a predicate switched on, `filter` returns a fresh
      array, which is sorted and shown while the catalog stays as it was. With
      none switched on, the shown array IS the catalog, so the sort reorders
      the shared catalog itself. Either way the page shows the filtered
      products, reordered, sorted by the selected key. */
  method FilterAndSort(catalog: array<Product>, c: Criteria) returns (shown: array<Product>)
    modifies catalog
    ensures multiset(shown[..]) == multiset(Filtered(old(catalog[..]), c))
    ensures SortedBy(SortKeyOf(c.sortBy), shown[..])
    ensures multiset(catalog[..]) == old(multiset(catalog[..]))
    ensures AnyFilterActive(c) ==> fresh(shown) && catalog[..] == old(catalog[..])
    ensures !AnyFilterActive(c) ==> shown == catalog
  {
    if AnyFilterActive(c) {
      var kept := Filtered(catalog[..], c);
      shown := new Product[|kept|](i requires 0 <= i < |kept| => kept[i]);
      assert shown[..] == kept;
    } else {
      NoFilterKeepsCatalog(catalog[..], c);
      shown := catalog;
    }
    SortInPlace(shown, SortKeyOf(c.sortBy));
  }

  /** Two distinct products with the same multiset as `s`, sorted: the sort
      decides their order alone. */
  lemma TwoSorted(k: SortKey, a: Product, b: Product, s: seq<Product>)
    requires a != b && multiset(s) == multiset([a, b]) && SortedBy(k, s)
    requires Compare(k, a, b) < 0
    ensures s == [a, b]
  {
    assert |s| == 2 by {
      assert |multiset(s)| == |s|;
    }
    assert s == [s[0], s[1]];
    assert multiset{s[0], s[1]} == multiset{a, b};
    assert Precedes(k, s[0], s[1]);
  }

  /** A not-hot product rated 4.5 at $10 and a hot product rated 3.0 at $5:
      "featured" and "price-low" show the hot one first, "price-high" the
      other. */
  lemma TwoProductScenario(a: Product, b: Product, featured: seq<Product>, low: seq<Product>, high: seq<Product>)
    requires a.price == 1000 && !a.isHot && a.rating == 45
    requires b.price == 500 && b.isHot && b.rating == 30
    requires multiset(featured) == multiset(low) == multiset(high) == multiset([a, b])
    requires SortedBy(Featured, featured) && SortedBy(PriceLow, low) && SortedBy(PriceHigh, high)
    ensures featured == low == [b, a]
    ensures high == [a, b]
  {
    assert multiset([a, b]) == multiset([b, a]);
    TwoSorted(Featured, b, a, featured);
    TwoSorted(PriceLow, b, a, low);
    TwoSorted(PriceHigh, a, b, high);
  }

  /** `handleAddToCart` on a product card: the product record as is, with no
      `quantity` field, so the store applies its own default. */
  function CardAddRequest(p: Product): Request {
    AddToCart(p, None)
  }

  /** A card's "Add to Cart" button sends a product the page shows: a catalog
      product that passes every active filter, unchanged and without a
      quantity. */
  lemma CardAddSendsShownProduct(catalog: seq<Product>, c: Criteria, p: Product)
    requires p in Filtered(catalog, c)
    ensures CardAddRequest(p).AddToCart? && CardAddRequest(p).quantity.None?
    ensures CardAddRequest(p).product in catalog && Admits(c, CardAddRequest(p).product)
  {
    FilteredContents(catalog, c);
  }
}
