/** The category listing: a price window over the first number of each product's
    `price_range`, then an ordering chosen by the shopper. */
module Category {
  import opened Wrappers
  import opened Text
  import opened Seqs
  import opened Sorting
  import opened Catalog

  datatype SortOption = Featured | PriceLow | PriceHigh | ByName

  /** The slider's window `[lo, hi]` and the chosen ordering. */
  datatype Filters = Filters(lo: int, hi: int, sortBy: SortOption)

  const DefaultFilters: Filters := Filters(0, 500, Featured)

  /** Both "Reset Filters" and "Clear all filters" restore the window [0, 500] and the
      featured order. */
  function Reset(f: Filters): (r: Filters)
    ensures r.lo == 0 && r.hi == 500 && r.sortBy == Featured
  {
    DefaultFilters
  }

  /** `parseInt(priceRange.split(',')[0].trim())`, with `None` for NaN. The radix is not
      given, so a "0x" prefix reads hexadecimal. */
  function FirstPrice(priceRange: string): Option<int> {
    ParseInt(Trim(Split(priceRange, ',')[0]), Auto)
  }

  /** The price the window tests: `prices[0] || 0`. */
  function WindowPrice(p: Product): (r: int)
    ensures p.priceRange.Some? && FirstPrice(p.priceRange.value).Some? ==>
      r == FirstPrice(p.priceRange.value).value
    ensures p.priceRange.Some? && FirstPrice(p.priceRange.value).None? ==> r == 0
  {
    if p.priceRange.Some? then FirstPrice(p.priceRange.value).GetOr(0) else 0
  }

  function InWindow(lo: int, hi: int): Product -> bool {
    (p: Product) => lo <= WindowPrice(p) <= hi
  }

  /** The sort key of both price orderings. A product whose first price does not parse
      gives the comparator NaN; here it sorts as 0. */
  function PriceKey(p: Product): int {
    WindowPrice(p)
  }

  function NegatedPriceKey(p: Product): int {
    -PriceKey(p)
  }

  /** The name ordering's key: the collation rank of the product's name. */
  function NameKey(nameRank: string -> int): Product -> int {
    (p: Product) => nameRank(p.name)
  }

  /** The listing, or a crash: `price_range.split` throws on a product without one. */
  datatype Listing = Crashed | Shown(products: seq<Product>)

  /** Orders the products that passed the window. The name ordering compares names with
      the browser's collation, given here as `nameRank`: `a` sorts before `b` when its rank
      is smaller. `Array.prototype.sort` is stable, so products that tie keep their order. */
  function Arrange(s: seq<Product>, sortBy: SortOption, nameRank: string -> int): (r: seq<Product>)
    ensures multiset(r) == multiset(s)
    ensures sortBy == Featured ==> r == s
    ensures sortBy == PriceLow ==> SortedBy(r, PriceKey)
    ensures sortBy == PriceHigh ==>
      forall i, j :: 0 <= i < j < |r| ==> PriceKey(r[i]) >= PriceKey(r[j])
    ensures sortBy == PriceLow || sortBy == PriceHigh ==>
      forall k :: KeyClass(r, PriceKey, k) == KeyClass(s, PriceKey, k)
    ensures sortBy == ByName ==>
      forall i, j :: 0 <= i < j < |r| ==> nameRank(r[i].name) <= nameRank(r[j].name)
    ensures sortBy == ByName ==>
      forall k :: KeyClass(r, NameKey(nameRank), k) == KeyClass(s, NameKey(nameRank), k)
  {
    match sortBy
    case Featured => s
    case PriceLow =>
      SortByStableAll(s, PriceKey);
      SortBy(s, PriceKey)
    case PriceHigh =>
      PriceHighOrder(s);
      SortBy(s, NegatedPriceKey)
    case ByName =>
      SortByStableAll(s, NameKey(nameRank));
      SortBy(s, NameKey(nameRank))
  }

  /** Sorting by the negated price lists prices from high to low, and products of equal
      price keep their order. */
  lemma PriceHighOrder(s: seq<Product>)
    ensures var r := SortBy(s, NegatedPriceKey);
      (forall i, j :: 0 <= i < j < |r| ==> PriceKey(r[i]) >= PriceKey(r[j]))
      && forall k :: KeyClass(r, PriceKey, k) == KeyClass(s, PriceKey, k)
  {
    var r := SortBy(s, NegatedPriceKey);
    forall i, j | 0 <= i < j < |r| ensures PriceKey(r[i]) >= PriceKey(r[j]) {
      assert NegatedPriceKey(r[i]) <= NegatedPriceKey(r[j]);
    }
    forall k ensures KeyClass(r, PriceKey, k) == KeyClass(s, PriceKey, k) {
      SortByStableUnder(s, NegatedPriceKey, -k, PriceKey, k);
    }
  }

  /** `filteredProducts`: the window filter, then the chosen order. */
  function FilteredProducts(products: seq<Product>, f: Filters, nameRank: string -> int): (r: Listing)
    ensures r.Crashed? <==> exists k :: 0 <= k < |products| && products[k].priceRange.None?
    ensures r.Shown? ==> forall p :: p in r.products <==> p in products && f.lo <= WindowPrice(p) <= f.hi
    ensures r.Shown? ==> multiset(r.products) == multiset(Filter(products, InWindow(f.lo, f.hi)))
    ensures r.Shown? && f.sortBy == Featured ==> IsSubsequence(r.products, products)
    ensures r.Shown? && f.sortBy == PriceLow ==> SortedBy(r.products, PriceKey)
    ensures r.Shown? && f.sortBy == PriceHigh ==>
      forall i, j :: 0 <= i < j < |r.products| ==> PriceKey(r.products[i]) >= PriceKey(r.products[j])
    ensures r.Shown? && f.sortBy == ByName ==>
      forall i, j :: 0 <= i < j < |r.products| ==> nameRank(r.products[i].name) <= nameRank(r.products[j].name)
    ensures r.Shown? && (f.sortBy == PriceLow || f.sortBy == PriceHigh) ==>
      forall k :: KeyClass(r.products, PriceKey, k) == KeyClass(Filter(products, InWindow(f.lo, f.hi)), PriceKey, k)
    ensures r.Shown? && f.sortBy == ByName ==>
      forall k :: KeyClass(r.products, NameKey(nameRank), k)
                  == KeyClass(Filter(products, InWindow(f.lo, f.hi)), NameKey(nameRank), k)
  {
    if exists k :: 0 <= k < |products| && products[k].priceRange.None? then Crashed
    else
      var filtered := Filter(products, InWindow(f.lo, f.hi));
      FilterIsSubsequence(products, InWindow(f.lo, f.hi));
      var r := Arrange(filtered, f.sortBy, nameRank);
      assert forall p :: p in r <==> p in filtered by {
        forall p ensures p in r <==> p in filtered {
          assert p in r <==> p in multiset(r);
          assert p in filtered <==> p in multiset(filtered);
        }
      }
      Shown(r)
  }

  /** The first price a product's range parses to, if it has a range and the text parses. */
  function ParsedPrice(p: Product): Option<int> {
    if p.priceRange.Some? then FirstPrice(p.priceRange.value) else None
  }

  /** When every first price parses, the low-to-high listing is shown, each product sorts by
      its parsed first price, the order ascends, and ties keep their listing order, as the
      source's comparator does. */
  lemma PriceLowOrder(products: seq<Product>, lo: int, hi: int, nameRank: string -> int)
    requires forall k :: 0 <= k < |products| ==> ParsedPrice(products[k]).Some?
    ensures var r := FilteredProducts(products, Filters(lo, hi, PriceLow), nameRank);
      r.Shown?
      && (forall i :: 0 <= i < |r.products| ==> ParsedPrice(r.products[i]) == Some(PriceKey(r.products[i])))
      && SortedBy(r.products, PriceKey)
      && forall k :: KeyClass(r.products, PriceKey, k) == KeyClass(Filter(products, InWindow(lo, hi)), PriceKey, k)
  {
    var filtered := Filter(products, InWindow(lo, hi));
    var r := FilteredProducts(products, Filters(lo, hi, PriceLow), nameRank);
    assert r.Shown? by {
      forall k | 0 <= k < |products| ensures products[k].priceRange.Some? {
        assert ParsedPrice(products[k]).Some?;
      }
    }
    assert r.products == SortBy(filtered, PriceKey);
    forall k ensures KeyClass(r.products, PriceKey, k) == KeyClass(filtered, PriceKey, k) {
      SortByStable(filtered, PriceKey, k);
    }
    forall i | 0 <= i < |r.products| ensures ParsedPrice(r.products[i]) == Some(PriceKey(r.products[i])) {
      var p := r.products[i];
      assert p in products;
      var k :| 0 <= k < |products| && products[k] == p;
      assert ParsedPrice(p).Some?;
    }
  }

  /** The featured order is the window filter alone: the products that pass, in the order
      the category listed them. */
  lemma FeaturedIsFilter(products: seq<Product>, lo: int, hi: int, nameRank: string -> int)
    requires forall k :: 0 <= k < |products| ==> products[k].priceRange.Some?
    ensures FilteredProducts(products, Filters(lo, hi, Featured), nameRank)
            == Shown(Filter(products, InWindow(lo, hi)))
  {
  }
}
