/** The older product client: its own backend types, its own mapper to the UI product, and
    lookups that each fetch the whole list and filter it. A fetch is an input value. */
module LegacyCatalog {
  import opened Wrappers
  import opened Text
  import opened Seqs
  import opened Catalog
  import ProductApi

  /** The backend variant as this client types it: weight and price always present. */
  datatype LegacyApiVariant = LegacyApiVariant(id: nat, productId: nat, weight: string, price: int)

  datatype LegacyApiProduct = LegacyApiProduct(
    id: nat,
    name: string,
    category: Option<string>,
    description: Option<string>,
    imageUrl: Option<string>,
    variants: seq<LegacyApiVariant>)

  const MiscCategory: string := "misc"

  /** `parseInt(v.weight) || 0`: the number the label starts with, so "1.5kg" gives 1. */
  function LegacyWeightGrams(weight: string): int {
    ParseIntOr0(weight, Auto)
  }

  function LegacyVariant(v: LegacyApiVariant): (r: Variant)
    ensures r.sizeLabel == v.weight && r.price == v.price && r.mrp == v.price
    ensures r.stock == ProductApi.DefaultStock && r.id.None?
  {
    Variant(None, v.weight, LegacyWeightGrams(v.weight), v.price, v.price, ProductApi.DefaultStock)
  }

  /** The legacy `mapApiToUi`: the category is kept as sent (not lower-cased), variants keep
      the backend's order, and nothing is a bestseller. The mapper writes a "medium" spice
      level under the key `spiceLevel`, but the UI product's field is `spice_level`, so the
      mapped product has no spice level. */
  function LegacyMap(p: LegacyApiProduct): (r: Product)
    ensures r.id == NatToString(p.id) && r.name == p.name
    ensures r.slug == ProductApi.SlugFromName(p.name)
    ensures r.category == p.category.GetOr(MiscCategory)
    ensures |r.images| == 1 && r.images[0] == p.imageUrl.GetOr(Placeholder)
    ensures |r.variants| == |p.variants|
    ensures forall k :: 0 <= k < |p.variants| ==> r.variants[k] == LegacyVariant(p.variants[k])
    ensures r.description == p.description.GetOr("")
    ensures r.tags == [] && r.ingredients == [] && !r.isBestseller
    ensures r.spiceLevel.None?
    ensures r.origin.None? && r.shelfLife.None? && r.weight.None? && r.priceRange.None?
  {
    Product(
      NatToString(p.id),
      p.name,
      ProductApi.SlugFromName(p.name),
      p.category.GetOr(MiscCategory),
      p.description.GetOr(""),
      [p.imageUrl.GetOr(Placeholder)],
      seq(|p.variants|, k requires 0 <= k < |p.variants| => LegacyVariant(p.variants[k])),
      [],
      None,
      None,
      None,
      None,
      None,
      [],
      false)
  }

  /** The same backend row as the current client reads it: a slug, ingredients and the
      optional extras are not sent; the weight, price and variants always are. */
  function AsCurrentApi(p: LegacyApiProduct): ApiProduct {
    ApiProduct(p.id, p.name, p.category, p.description, p.imageUrl, None,
      Some(seq(|p.variants|, k requires 0 <= k < |p.variants| =>
        ApiVariant(p.variants[k].id, Some(p.variants[k].weight), Some(p.variants[k].price), None, None))),
      IngredientsAbsent, None, None, None, None, None, None, false)
  }

  /** The two mappers agree on the id, the name, the slug and the missing spice level. A
      present category is lower-cased only by the current one, and a missing one is "misc"
      here against "pickles" there. A non-empty image URL gives the same image. */
  lemma LegacyAgreesWithCurrent(p: LegacyApiProduct)
    ensures var r, q := LegacyMap(p), ProductApi.MapProduct(AsCurrentApi(p));
      && q.id == r.id && q.name == r.name && q.slug == r.slug
      && q.spiceLevel.None? && r.spiceLevel.None?
      && (Truthy(p.category) ==> q.category == ToLower(r.category))
      && (p.category.None? ==> r.category == MiscCategory && q.category == ProductApi.DefaultCategory)
      && (Truthy(p.imageUrl) ==> q.images == r.images)
  {
    ProductApi.MapProductDefaults(AsCurrentApi(p));
  }

  /** Variant by variant, in backend order, the legacy variant is the current one without its
      id and with its grams read differently; the current mapper then sorts them by price. */
  lemma LegacyVariantsAgreeWithCurrent(p: LegacyApiProduct)
    ensures var r, vs := LegacyMap(p), ProductApi.MapVariants(AsCurrentApi(p).variants.value);
      && |vs| == |r.variants|
      && (forall k :: 0 <= k < |vs| ==>
            vs[k] == r.variants[k].(id := Some(p.variants[k].id),
                                    weightGrams := ProductApi.WeightGrams(Some(p.variants[k].weight))))
      && multiset(ProductApi.MapProduct(AsCurrentApi(p)).variants) == multiset(vs)
  {
  }

  /** "1.5kg" is 1 gram here, against 15 in the current mapper; "kg" is 0 in both. */
  lemma LegacyWeightGramsExamples()
    ensures LegacyWeightGrams("1.5kg") == 1
    ensures LegacyWeightGrams("kg") == 0
  {
    assert LeadingSpaces("1.5kg") == 0;
    assert DigitRun(".5kg", 10) == 0;
    assert DigitRun("1.5kg", 10) == 1;
    assert "1.5kg"[..1] == "1";
    assert RadixValue("1", 10) == 1;
    assert LeadingSpaces("kg") == 0;
    assert DigitRun("kg", 10) == 0;
  }

  function AllProducts(fetched: Fetch<seq<LegacyApiProduct>>): (r: Fetch<seq<Product>>)
    ensures fetched.FetchFailed? <==> r.FetchFailed?
    ensures r.Fetched? ==>
      |r.value| == |fetched.value| && forall k :: 0 <= k < |fetched.value| ==> r.value[k] == LegacyMap(fetched.value[k])
  {
    match fetched
    case FetchFailed => FetchFailed
    case Fetched(ps) => Fetched(seq(|ps|, k requires 0 <= k < |ps| => LegacyMap(ps[k])))
  }

  function InCategory(category: string): Product -> bool {
    (p: Product) => p.category == category
  }

  /** `getProductsByCategory`: an exact, case-sensitive comparison with the stored category. */
  function ProductsByCategory(fetched: Fetch<seq<LegacyApiProduct>>, category: string): (r: Fetch<seq<Product>>)
    ensures fetched.FetchFailed? <==> r.FetchFailed?
    ensures r.Fetched? ==> forall p :: p in r.value <==> p in AllProducts(fetched).value && p.category == category
    ensures r.Fetched? ==> IsSubsequence(r.value, AllProducts(fetched).value)
  {
    match AllProducts(fetched)
    case FetchFailed => FetchFailed
    case Fetched(ps) =>
      FilterIsSubsequence(ps, InCategory(category));
      Fetched(Filter(ps, InCategory(category)))
  }

  function IsBestseller(p: Product): bool {
    p.isBestseller
  }

  /** `getBestsellers`: always empty, since this mapper marks nothing as a bestseller. */
  function Bestsellers(fetched: Fetch<seq<LegacyApiProduct>>): (r: Fetch<seq<Product>>)
    ensures fetched.FetchFailed? <==> r.FetchFailed?
    ensures r.Fetched? ==> r.value == []
  {
    match AllProducts(fetched)
    case FetchFailed => FetchFailed
    case Fetched(ps) =>
      FilterKeepsNone(ps, IsBestseller);
      Fetched(Filter(ps, IsBestseller))
  }

  function SlugIs(slug: string): Product -> bool {
    (p: Product) => p.slug == slug
  }

  /** `getProductBySlug`: the first product with exactly this slug, if any. */
  function ProductBySlug(fetched: Fetch<seq<LegacyApiProduct>>, slug: string): (r: Fetch<Option<Product>>)
    ensures fetched.FetchFailed? <==> r.FetchFailed?
    ensures r.Fetched? && r.value.None? ==> forall p :: p in AllProducts(fetched).value ==> p.slug != slug
    ensures r.Fetched? && r.value.Some? ==>
      exists k :: 0 <= k < |AllProducts(fetched).value|
        && AllProducts(fetched).value[k] == r.value.value && r.value.value.slug == slug
        && forall j :: 0 <= j < k ==> AllProducts(fetched).value[j].slug != slug
  {
    match AllProducts(fetched)
    case FetchFailed => FetchFailed
    case Fetched(ps) =>
      var i := FindIndex(ps, SlugIs(slug));
      Fetched(if i == -1 then None else Some(ps[i]))
  }
}
