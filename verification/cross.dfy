/** Facts that connect the components: what the storefront's pieces show for the same
    product, and where the storefront and the backend part ways. */
module Cross {
  import opened Wrappers
  import opened Text
  import opened Sorting
  import opened Catalog
  import opened PriceRange
  import opened ProductApi
  import opened ProductPage
  import opened ProductCard
  import opened Category
  import VariantSelector
  import ServerSlug

  /** The mapper sorts variants by price, so the page's cheapest variant is the first one,
      the very tile the selector highlights before any click. */
  lemma MappedCheapestIsFirst(api: ApiProduct)
    requires |MapProduct(api).variants| > 0
    ensures CheapestIndex(MapProduct(api).variants) == VariantSelector.InitialIndex
  {
    var vs := MapProduct(api).variants;
    var i := CheapestIndex(vs);
    assert vs[0].price <= vs[i].price by {
      assert Price(vs[0]) <= Price(vs[i]);
    }
  }

  /** With variants, the card advertises the price the page shows once the product has
      loaded. */
  lemma CardMatchesLoadedPage(p: Product)
    requires |p.variants| > 0
    ensures CardPrice(p) == DisplayPrice(ActiveVariant(OnProductLoaded(InitialPage, p), p), p.priceRange)
  {
  }

  /** Without variants the two disagree: for "300-150" the card shows the smallest number
      and the page the first. */
  lemma CardAndPageDisagree(p: Product)
    requires |p.variants| == 0 && p.priceRange == Some("300-150")
    ensures CardPrice(p) == 150
    ensures DisplayPrice(ActiveVariant(OnProductLoaded(InitialPage, p), p), p.priceRange) == 300
  {
    NumbersExample();
    assert MinOf([300, 150]) == 150 by {
      assert 150 in [300, 150];
    }
  }

  /** The backend never sends `price_range`, so every mapped product lacks one and the
      category page throws on any non-empty listing. */
  lemma CategoryCrashesOnBackendProducts(api: seq<ApiProduct>, f: Filters, nameRank: string -> int)
    requires |api| > 0
    requires forall k :: 0 <= k < |api| ==> api[k].priceRange.None?
    ensures FilteredProducts(MapAll(api), f, nameRank).Crashed?
  {
    assert MapAll(api)[0].priceRange.None?;
  }

  function MapAll(api: seq<ApiProduct>): (r: seq<Product>)
    ensures |r| == |api|
    ensures forall k :: 0 <= k < |api| ==> r[k] == MapProduct(api[k])
  {
    seq(|api|, k requires 0 <= k < |api| => MapProduct(api[k]))
  }

  /** The page's `ingredientsList`: an array passes through and text is split and cleaned
      as the mapper does. The UI product always holds an array, so the page shows it
      unchanged. */
  function PageIngredients(p: Product): (r: seq<string>)
    ensures r == p.ingredients
  {
    NormalizeIngredients(IngredientList(p.ingredients))
  }

  /** The mapped product's ingredients are already an array, so the page shows the
      mapper's names unchanged; from a text field those names are clean. */
  lemma PageIngredientsOfMapped(api: ApiProduct)
    ensures PageIngredients(MapProduct(api)) == NormalizeIngredients(api.ingredients)
    ensures api.ingredients.IngredientText? ==>
      forall k :: 0 <= k < |PageIngredients(MapProduct(api))| ==>
        PageIngredients(MapProduct(api))[k] != "" && ',' !in PageIngredients(MapProduct(api))[k]
  {
  }

  // ---------------------------------------------------------------------------------
  // The two slug functions

  lemma {:induction false} HyphenateKeeps(s: string, c: char)
    requires !IsSpace(c) && c in s
    ensures c in HyphenateSpaceRuns(s)
    decreases |s|
  {
    if IsSpace(s[0]) {
      var n := LeadingSpaces(s);
      assert c in s[n..] by {
        var k :| 0 <= k < |s| && s[k] == c;
        if k < n {
          assert false;
        }
        assert s[n..][k - n] == c;
      }
      HyphenateKeeps(s[n..], c);
    } else if s[0] != c {
      assert c in s[1..] by {
        var k :| 0 <= k < |s| && s[k] == c;
        assert s[1..][k - 1] == c;
      }
      HyphenateKeeps(s[1..], c);
    }
  }

  /** A name with a slash gets a storefront slug that still holds the slash, which the
      backend's slug never does, so the backend's slug lookup cannot find it by that
      slug. */
  lemma SlashSlugsDiffer(name: string)
    requires '/' in name
    ensures '/' in SlugFromName(name)
    ensures SlugFromName(name) != ServerSlug.Slugify(name)
  {
    var lowered := ToLower(name);
    assert '/' in lowered by {
      var k :| 0 <= k < |name| && name[k] == '/';
      assert lowered[k] == '/';
    }
    HyphenateKeeps(lowered, '/');
  }

  /** On a name with no white space, no slash and no "__", both slugs are the lower-cased
      name. */
  lemma SlugsAgree(name: string)
    requires forall k :: 0 <= k < |name| ==> !IsSpace(name[k]) && name[k] != '/'
    requires !ServerSlug.HasDoubleUnderscore(name)
    ensures SlugFromName(name) == ServerSlug.Slugify(name)
    ensures SlugFromName(name) == ToLower(name)
  {
    var lowered := ToLower(name);
    assert forall k :: 0 <= k < |lowered| ==> !IsSpace(lowered[k]) && lowered[k] != '/' && lowered[k] != ' ';
    HyphenateNoSpace(lowered);
    var spaced := ServerSlug.ReplaceChar(lowered, ' ');
    assert spaced == lowered;
    var slashed := ServerSlug.ReplaceChar(spaced, '/');
    assert slashed == lowered;
    assert !ServerSlug.HasDoubleUnderscore(lowered);
    ServerSlug.ReplaceDoubleUnderscoreNone(lowered);
  }

  /** A run of spaces is one hyphen in the storefront slug and one hyphen per space in the
      backend's: "a  b" gives "a-b" against "a--b". */
  lemma SpaceRunSlugsDiffer()
    ensures SlugFromName("a  b") == "a-b"
    ensures ServerSlug.Slugify("a  b") == "a--b"
  {
    assert ToLower("a  b") == "a  b";
    assert LeadingSpaces("  b") == 2;
    assert "  b"[2..] == "b";
    assert HyphenateSpaceRuns("b") == "b";
    assert HyphenateSpaceRuns("  b") == "-b";
    assert HyphenateSpaceRuns("a  b") == "a-b";
    var spaced := ServerSlug.ReplaceChar("a  b", ' ');
    assert spaced == "a--b";
    assert ServerSlug.ReplaceChar(spaced, '/') == "a--b";
    ServerSlug.ReplaceDoubleUnderscoreNone("a--b");
  }
}
