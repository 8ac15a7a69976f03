/**
 * The marketplace view: its search, filter and sort state, the catalog it
 * derives from that state, and the recommendations it fetches and resolves
 * against the live catalog. Distances come from a function parameter
 * (`distanceTo`, the distance from the viewer to a location); the formula
 * behind it is not part of this model.
 */
module Marketplace {
  import opened Seqs
  import opened Types
  import opened Text

  /** The filter panel; an absent price bound is the empty input. */
  datatype Filters = Filters(college: string, maxDistance: real, minPrice: Option<int>, maxPrice: Option<int>)

  /** A change event from one control of the filter panel. */
  datatype FilterChange =
    | CollegeChange(college: string)
    | MaxDistanceChange(maxDistance: real)
    | MinPriceChange(minPrice: Option<int>)
    | MaxPriceChange(maxPrice: Option<int>)

  /** The item's lowercased name, or one of its lowercased tags, contains `loweredQuery`. */
  predicate MatchesText(item: Item, loweredQuery: string)
  {
    || Contains(Lower(item.name), loweredQuery)
    || exists k :: 0 <= k < |item.tags| && Contains(Lower(item.tags[k]), loweredQuery)
  }

  /**
   * The number the sort compares for the chosen key: ascending price, descending
   * price, ascending distance, and newest first for "newest" and any other value.
   */
  function SortKey(sortBy: string, distanceTo: Location -> real, item: Item): real
  {
    if sortBy == "price_asc" then item.price as real
    else if sortBy == "price_desc" then -(item.price as real)
    else if sortBy == "distance" then distanceTo(item.location)
    else -(item.createdAt as real)
  }

  /** Every filter of the catalog view, under the given query and filter panel, admits `item`. */
  predicate Admits(query: string, filters: Filters, distanceTo: Location -> real, item: Item)
  {
    && item.status == Available
    && (IsBlank(query) || MatchesText(item, Lower(query)))
    && (filters.college == "All" || CollegeName(item.college) == filters.college)
    && distanceTo(item.location) <= filters.maxDistance
    && (filters.minPrice.None? || item.price >= filters.minPrice.value)
    && (filters.maxPrice.None? || item.price <= filters.maxPrice.value)
  }

  /** Admits under a fixed query and panel, as a predicate on items. */
  function Admitted(query: string, filters: Filters, distanceTo: Location -> real): Item -> bool
  {
    it => Admits(query, filters, distanceTo, it)
  }

  /** SortKey for a fixed sort option, as a function of the item. */
  function SortKeyOf(sortBy: string, distanceTo: Location -> real): Item -> real
  {
    it => SortKey(sortBy, distanceTo, it)
  }

  /**
   * What the multiplicity contract of the view means item by item: the result
   * is a sub-multiset of the catalog, it holds every admitted catalog entry, and
   * each filter, stated on its own, holds of every entry it lists.
   */
  lemma {:induction false} AdmittedItems(r: seq<Item>, items: seq<Item>, query: string, filters: Filters, distanceTo: Location -> real)
    requires forall x :: multiset(r)[x] == if Admits(query, filters, distanceTo, x) then multiset(items)[x] else 0
    ensures multiset(r) <= multiset(items) && |r| <= |items|
    ensures forall k :: 0 <= k < |items| && Admits(query, filters, distanceTo, items[k]) ==> items[k] in r
    ensures forall k :: 0 <= k < |r| ==> r[k] in items && r[k].status == Available
    ensures !IsBlank(query) ==> forall k :: 0 <= k < |r| ==> MatchesText(r[k], Lower(query))
    ensures filters.college != "All" ==> forall k :: 0 <= k < |r| ==> CollegeName(r[k].college) == filters.college
    ensures forall k :: 0 <= k < |r| ==> distanceTo(r[k].location) <= filters.maxDistance
    ensures filters.minPrice.Some? ==> forall k :: 0 <= k < |r| ==> r[k].price >= filters.minPrice.value
    ensures filters.maxPrice.Some? ==> forall k :: 0 <= k < |r| ==> r[k].price <= filters.maxPrice.value
  {
    CountedSubset(r, items, (it: Item) => Admits(query, filters, distanceTo, it));
  }

  /** A blank or whitespace-only query removes nothing: the view admits what it admits with no query. */
  lemma BlankQueryRemovesNothing(query: string, filters: Filters, distanceTo: Location -> real, item: Item)
    requires IsBlank(query)
    ensures Admits(query, filters, distanceTo, item) == Admits("", filters, distanceTo, item)
  {
  }

  /** The first catalog entry with this id that is still available. */
  function ResolveAvailable(items: seq<Item>, id: int): (r: Option<Item>)
    ensures r.Some? ==> r.value in items && r.value.id == id && r.value.status == Available
    ensures r.Some? ==> exists i :: 0 <= i < |items| && items[i] == r.value &&
                                  forall j :: 0 <= j < i ==> !(items[j].id == id && items[j].status == Available)
    ensures r.None? <==> forall k :: 0 <= k < |items| ==> !(items[k].id == id && items[k].status == Available)
  {
    Find(items, (it: Item) => it.id == id && it.status == Available)
  }

  /** ResolveAvailable against a fixed catalog, as a function of the id. */
  function Resolver(items: seq<Item>): int -> Option<Item>
  {
    id => ResolveAvailable(items, id)
  }

  /**
   * recommendedItems: each recommended id resolved to a live, available catalog
   * entry. Ids that resolve to nothing (unknown or sold) are dropped, the others
   * keep their relative order, and a repeated id gives a repeated entry.
   */
  function RecommendedItems(ids: seq<int>, items: seq<Item>): (r: seq<Item>)
    ensures |r| <= |ids|
    ensures forall k :: 0 <= k < |r| ==> ResolveAvailable(items, r[k].id) == Some(r[k])
    ensures ItemIds(r) == Filter(ids, id => ResolveAvailable(items, id).Some?)
  {
    ResolvedIds(ids, items);
    ResolvedEach(ids, items);
    FilterMap(ids, Resolver(items))
  }

  /** The resolved entries' ids are exactly the ids that resolve, in order. */
  lemma ResolvedIds(ids: seq<int>, items: seq<Item>)
    ensures ItemIds(FilterMap(ids, Resolver(items))) == Filter(ids, id => ResolveAvailable(items, id).Some?)
  {
    var r := FilterMap(ids, Resolver(items));
    var key := (it: Item) => it.id;
    FilterMapKeys(ids, Resolver(items), id => ResolveAvailable(items, id).Some?, key);
    assert ItemIds(r) == Map(r, key);
  }

  /** Every resolved entry is what its own id resolves to, and there are no more entries than ids. */
  lemma {:induction false} ResolvedEach(ids: seq<int>, items: seq<Item>)
    ensures |FilterMap(ids, Resolver(items))| <= |ids|
    ensures forall k :: 0 <= k < |FilterMap(ids, Resolver(items))| ==>
      ResolveAvailable(items, FilterMap(ids, Resolver(items))[k].id)
        == Some(FilterMap(ids, Resolver(items))[k])
  {
    if ids != [] {
      var rest := FilterMap(ids[1..], Resolver(items));
      ResolvedEach(ids[1..], items);
      var found := ResolveAvailable(items, ids[0]);
      if found.Some? {
        var r := [found.value] + rest;
        assert FilterMap(ids, Resolver(items)) == r;
        forall k | 0 <= k < |r|
          ensures ResolveAvailable(items, r[k].id) == Some(r[k])
        {
          if k > 0 {
            assert r[k] == rest[k - 1];
          }
        }
      }
    }
  }

  /** A catalog entry for the example below. */
  function ExampleItem(id: int, status: Status): Item
  {
    Item(id, 2, "", "", 0, [], "", Baker, Location(0.0, 0.0), status, 0)
  }

  /**
   * Ids 3, 99 and 1 against a catalog holding item 1 (available) and item 3
   * (sold): 99 is unknown and 3 is sold, so only item 1 is recommended.
   */
  lemma RecommendedItemsExample()
    ensures RecommendedItems([3, 99, 1], [ExampleItem(1, Available), ExampleItem(3, Sold)])
         == [ExampleItem(1, Available)]
  {
    var items := [ExampleItem(1, Available), ExampleItem(3, Sold)];
    assert ResolveAvailable(items, 3).None?;
    assert ResolveAvailable(items, 99).None?;
    assert ResolveAvailable(items, 1) == Some(items[0]) by {
      assert items[0].id == 1;
    }
    assert [3, 99, 1][1..] == [99, 1] && [99, 1][1..] == [1] && [1][1..] == [];
  }

  class MarketplaceView {
    var searchQuery: string
    var filters: Filters
    var sortBy: string
    var recommendedItemIds: seq<int>
    var isLoadingRecs: bool

    /** The view's initial state: no query, every college, 5 miles, no price bounds, newest first, loading. */
    constructor ()
      ensures searchQuery == "" && sortBy == "newest"
      ensures filters == Filters("All", 5.0, None, None)
      ensures recommendedItemIds == [] && isLoadingRecs
    {
      searchQuery := "";
      filters := Filters("All", 5.0, None, None);
      sortBy := "newest";
      recommendedItemIds := [];
      isLoadingRecs := true;
    }

    /** handleFilterChange: the changed control's field takes the new value; the others keep theirs. */
    method HandleFilterChange(change: FilterChange)
      modifies this`filters
      ensures change.CollegeChange? ==> filters == old(filters).(college := change.college)
      ensures change.MaxDistanceChange? ==> filters == old(filters).(maxDistance := change.maxDistance)
      ensures change.MinPriceChange? ==> filters == old(filters).(minPrice := change.minPrice)
      ensures change.MaxPriceChange? ==> filters == old(filters).(maxPrice := change.maxPrice)
    {
      match change
      case CollegeChange(c) => filters := filters.(college := c);
      case MaxDistanceChange(d) => filters := filters.(maxDistance := d);
      case MinPriceChange(p) => filters := filters.(minPrice := p);
      case MaxPriceChange(p) => filters := filters.(maxPrice := p);
    }

    /**
     * fetchRecommendations, given how the awaited recommendation call settled:
     * Some(ids) when it resolved, None when it rejected. The ids replace the
     * previous ones only on resolution; loading ends either way.
     */
    method FetchRecommendations(settled: Option<seq<int>>)
      modifies this`isLoadingRecs, this`recommendedItemIds
      ensures !isLoadingRecs
      ensures settled.Some? ==> recommendedItemIds == settled.value
      ensures settled.None? ==> recommendedItemIds == old(recommendedItemIds)
    {
      isLoadingRecs := true;
      if settled.Some? {
        recommendedItemIds := settled.value;
      }
      isLoadingRecs := false;
    }

    /**
     * filteredAndSortedItems: the items every filter admits, each as often as it
     * occurs in the catalog, ordered by the chosen sort key; items that share a
     * key keep their catalog order.
     */
    method FilteredAndSortedItems(items: seq<Item>, distanceTo: Location -> real) returns (r: seq<Item>)
      ensures forall x :: multiset(r)[x] == if Admits(searchQuery, filters, distanceTo, x) then multiset(items)[x] else 0
      ensures forall i, j :: 0 <= i < j < |r| ==> SortKey(sortBy, distanceTo, r[i]) <= SortKey(sortBy, distanceTo, r[j])
      ensures forall v :: Filter(r, KeyIs(SortKeyOf(sortBy, distanceTo), v)) ==
                         Filter(Filter(items, Admitted(searchQuery, filters, distanceTo)), KeyIs(SortKeyOf(sortBy, distanceTo), v))
    {
      var query, panel := searchQuery, filters;
      var loweredQuery := Lower(searchQuery);
      var college, maxDistance := filters.college, filters.maxDistance;
      var minPrice, maxPrice := filters.minPrice, filters.maxPrice;
      var available := (it: Item) => it.status == Available;
      var matchesQuery := (it: Item) => MatchesText(it, loweredQuery);
      var inCollege := (it: Item) => CollegeName(it.college) == college;
      var nearby := (it: Item) => distanceTo(it.location) <= maxDistance;
      var aboveMin := (it: Item) => minPrice.Some? ==> it.price >= minPrice.value;
      var belowMax := (it: Item) => maxPrice.Some? ==> it.price <= maxPrice.value;

      var filtered := Filter(items, available);
      ghost var afterAvailable := filtered;
      if !IsBlank(searchQuery) {
        filtered := Filter(filtered, matchesQuery);
      }
      ghost var afterQuery := filtered;
      if college != "All" {
        filtered := Filter(filtered, inCollege);
      }
      ghost var afterCollege := filtered;
      filtered := Filter(filtered, nearby);
      ghost var afterDistance := filtered;
      if minPrice.Some? {
        filtered := Filter(filtered, aboveMin);
      }
      ghost var afterMin := filtered;
      if maxPrice.Some? {
        filtered := Filter(filtered, belowMax);
      }

      var admits := Admitted(query, panel, distanceTo);
      AdmitsByStep(query, panel, distanceTo, admits, available, matchesQuery, inCollege, nearby, aboveMin, belowMax);
      PipelineFilter(items, admits, !IsBlank(query), college != "All", minPrice.Some?, maxPrice.Some?,
                     available, matchesQuery, inCollege, nearby, aboveMin, belowMax,
                     afterAvailable, afterQuery, afterCollege, afterDistance, afterMin, filtered);

      r := SortByKey(filtered, SortKeyOf(sortBy, distanceTo));
      SortedView(items, query, panel, sortBy, distanceTo, r);
    }
  }

  /**
   * The admitted catalog entries sorted by the chosen key: each admitted entry
   * with its catalog multiplicity, in ascending key order, and entries sharing
   * a key in catalog order.
   */
  lemma SortedView(items: seq<Item>, query: string, panel: Filters, sortBy: string, distanceTo: Location -> real, r: seq<Item>)
    requires r == SortByKey(Filter(items, Admitted(query, panel, distanceTo)), SortKeyOf(sortBy, distanceTo))
    ensures forall x :: multiset(r)[x] == if Admits(query, panel, distanceTo, x) then multiset(items)[x] else 0
    ensures forall i, j :: 0 <= i < j < |r| ==> SortKey(sortBy, distanceTo, r[i]) <= SortKey(sortBy, distanceTo, r[j])
    ensures forall v :: Filter(r, KeyIs(SortKeyOf(sortBy, distanceTo), v)) ==
                       Filter(Filter(items, Admitted(query, panel, distanceTo)), KeyIs(SortKeyOf(sortBy, distanceTo), v))
  {
    var admits, key := Admitted(query, panel, distanceTo), SortKeyOf(sortBy, distanceTo);
    forall x
      ensures multiset(r)[x] == if Admits(query, panel, distanceTo, x) then multiset(items)[x] else 0
    {
      FilterCount(items, admits, x);
    }
    forall v
      ensures Filter(r, KeyIs(key, v)) == Filter(Filter(items, admits), KeyIs(key, v))
    {
      SortByKeyStable(Filter(items, admits), key, v);
    }
    SortedBySortKey(r, sortBy, distanceTo, key);
  }

  /**
   * The filter chain, each optional step applied only when its control is set,
   * keeps exactly the catalog entries that every applied step admits, in
   * catalog order.
   */
  lemma PipelineFilter(items: seq<Item>, admits: Item -> bool,
                       byQuery: bool, byCollege: bool, byMinPrice: bool, byMaxPrice: bool,
                       available: Item -> bool, matchesQuery: Item -> bool, inCollege: Item -> bool,
                       nearby: Item -> bool, aboveMin: Item -> bool, belowMax: Item -> bool,
                       s1: seq<Item>, s2: seq<Item>, s3: seq<Item>, s4: seq<Item>, s5: seq<Item>, s6: seq<Item>)
    requires forall it :: (admits(it) ==
      (available(it) && (!byQuery || matchesQuery(it)) && (!byCollege || inCollege(it)) && nearby(it)
       && (!byMinPrice || aboveMin(it)) && (!byMaxPrice || belowMax(it))))
    requires s1 == Filter(items, available)
    requires s2 == if byQuery then Filter(s1, matchesQuery) else s1
    requires s3 == if byCollege then Filter(s2, inCollege) else s2
    requires s4 == Filter(s3, nearby)
    requires s5 == if byMinPrice then Filter(s4, aboveMin) else s4
    requires s6 == if byMaxPrice then Filter(s5, belowMax) else s5
    ensures s6 == Filter(items, admits)
  {
    var q2 := (it: Item) => available(it) && (!byQuery || matchesQuery(it));
    FilterStep(items, available, s1, byQuery, matchesQuery, q2, s2);
    var q3 := (it: Item) => q2(it) && (!byCollege || inCollege(it));
    FilterStep(items, q2, s2, byCollege, inCollege, q3, s3);
    var q4 := (it: Item) => q3(it) && nearby(it);
    FilterStep(items, q3, s3, true, nearby, q4, s4);
    var q5 := (it: Item) => q4(it) && (!byMinPrice || aboveMin(it));
    FilterStep(items, q4, s4, byMinPrice, aboveMin, q5, s5);
    var q6 := (it: Item) => q5(it) && (!byMaxPrice || belowMax(it));
    FilterStep(items, q5, s5, byMaxPrice, belowMax, q6, s6);
    FilterCongruent(items, q6, admits);
  }

  /** One optional filter step after a filter by `q` is one filter by `q` and the step. */
  lemma FilterStep(items: seq<Item>, q: Item -> bool, prev: seq<Item>, apply: bool, p: Item -> bool,
                   next: Item -> bool, s: seq<Item>)
    requires prev == Filter(items, q)
    requires s == if apply then Filter(prev, p) else prev
    requires forall it :: next(it) == (q(it) && (!apply || p(it)))
    ensures s == Filter(items, next)
  {
    if apply {
      FilterFilter(items, q, p, next);
    } else {
      FilterCongruent(items, q, next);
    }
  }

  /** Admits is the conjunction of the filter steps, each applied only when its control is set. */
  lemma AdmitsByStep(query: string, panel: Filters, distanceTo: Location -> real, admits: Item -> bool,
                     available: Item -> bool, matchesQuery: Item -> bool, inCollege: Item -> bool,
                     nearby: Item -> bool, aboveMin: Item -> bool, belowMax: Item -> bool)
    requires forall it :: admits(it) == Admits(query, panel, distanceTo, it)
    requires forall it :: available(it) == (it.status == Available)
    requires forall it :: matchesQuery(it) == MatchesText(it, Lower(query))
    requires forall it :: inCollege(it) == (CollegeName(it.college) == panel.college)
    requires forall it :: nearby(it) == (distanceTo(it.location) <= panel.maxDistance)
    requires forall it :: aboveMin(it) == (panel.minPrice.Some? ==> it.price >= panel.minPrice.value)
    requires forall it :: belowMax(it) == (panel.maxPrice.Some? ==> it.price <= panel.maxPrice.value)
    ensures forall it :: (admits(it) ==
      (available(it) && (IsBlank(query) || matchesQuery(it)) && (panel.college == "All" || inCollege(it)) && nearby(it)
       && (panel.minPrice.None? || aboveMin(it)) && (panel.maxPrice.None? || belowMax(it))))
  {
  }

  /**
   * A sequence holding each `p`-element of `s` as often as `s` does, and nothing
   * else, is a sub-multiset of `s` holding every `p`-element of `s`.
   */
  lemma CountedSubset<T>(r: seq<T>, s: seq<T>, p: T -> bool)
    requires forall x :: multiset(r)[x] == if p(x) then multiset(s)[x] else 0
    ensures multiset(r) <= multiset(s) && |r| <= |s|
    ensures forall k :: 0 <= k < |s| && p(s[k]) ==> s[k] in r
    ensures forall k :: 0 <= k < |r| ==> r[k] in s && p(r[k])
  {
    assert multiset(r) <= multiset(s) by {
      forall x ensures multiset(r)[x] <= multiset(s)[x] {
      }
    }
    assert multiset(s) == multiset(r) + (multiset(s) - multiset(r));
    forall k | 0 <= k < |s| && p(s[k])
      ensures s[k] in r
    {
      assert multiset(s)[s[k]] > 0;
    }
    forall k | 0 <= k < |r|
      ensures r[k] in s && p(r[k])
    {
      assert multiset(r)[r[k]] > 0;
    }
  }

  /**
   * When no two listed items share a price, sorting the same filtered items by
   * price_desc gives exactly the reverse of sorting them by price_asc.
   */
  lemma PriceSortsReversed(asc: seq<Item>, desc: seq<Item>)
    requires multiset(asc) == multiset(desc)
    requires forall i, j :: 0 <= i < j < |asc| ==> asc[i].price <= asc[j].price
    requires forall i, j :: 0 <= i < j < |desc| ==> desc[i].price >= desc[j].price
    requires forall i, j :: 0 <= i < j < |asc| ==> asc[i].price != asc[j].price
    ensures desc == Reverse(asc)
  {
    var price := (it: Item) => it.price as real;
    var negated := (it: Item) => -(it.price as real);
    assert SortedBy(desc, negated);
    ReverseSorted(desc, price, negated);
    assert StrictlySortedBy(asc, price);
    SortedUnique(asc, Reverse(desc), price);
    ReverseReverse(desc);
  }

  /** Order by the sort lambda is order by SortKey. */
  lemma SortedBySortKey(r: seq<Item>, sortBy: string, distanceTo: Location -> real, key: Item -> real)
    requires forall it :: key(it) == SortKey(sortBy, distanceTo, it)
    requires SortedBy(r, key)
    ensures forall i, j :: 0 <= i < j < |r| ==> SortKey(sortBy, distanceTo, r[i]) <= SortKey(sortBy, distanceTo, r[j])
  {
  }

  /** What ascending order of SortKey means for each sort option. */
  lemma SortKeyOrder(r: seq<Item>, sortBy: string, distanceTo: Location -> real)
    requires forall i, j :: 0 <= i < j < |r| ==> SortKey(sortBy, distanceTo, r[i]) <= SortKey(sortBy, distanceTo, r[j])
    ensures sortBy == "price_asc" ==> forall i, j :: 0 <= i < j < |r| ==> r[i].price <= r[j].price
    ensures sortBy == "price_desc" ==> forall i, j :: 0 <= i < j < |r| ==> r[i].price >= r[j].price
    ensures sortBy == "distance" ==> forall i, j :: 0 <= i < j < |r| ==> distanceTo(r[i].location) <= distanceTo(r[j].location)
    ensures sortBy !in {"price_asc", "price_desc", "distance"} ==>
      forall i, j :: 0 <= i < j < |r| ==> r[i].createdAt >= r[j].createdAt
  {
    forall i, j | 0 <= i < j < |r|
      ensures SortKey(sortBy, distanceTo, r[i]) <= SortKey(sortBy, distanceTo, r[j])
    {
    }
  }
}
