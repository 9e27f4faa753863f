/** The REST-client product layer (src/api/product.ts): the backend-to-UI mapper and the
    two-tier slug lookup. Network calls are replaced by their outcomes. */
module ProductApi {
  import opened Wrappers
  import opened Text
  import opened Seqs
  import opened Sorting
  import opened Catalog

  /** Stock assumed when the backend does not report one. */
  const DefaultStock: int := 999
  const DefaultCategory: string := "pickles"

  /** `weightGrams`: the digits of the weight label read as one decimal number, or 0. */
  function WeightGrams(weight: Option<string>): int {
    ParseIntOr0(OnlyDigits(weight.GetOr("")), Decimal)
  }

  /** `mapApiVariantToUi`: the label is the weight, or else reads back as the backend id;
      `weightGrams` is the number spelled by all the weight's digits (0 without digits); a
      price, mrp or stock that is sent is kept, a missing price is 0, a missing mrp is the
      price, a missing stock is 999. */
  function MapVariant(v: ApiVariant): (r: Variant)
    ensures r.id == Some(v.id)
    ensures v.weight.Some? ==> r.sizeLabel == v.weight.value
    ensures v.weight.None? ==> ParseInt(r.sizeLabel, Decimal) == Some(v.id)
    ensures var ds := OnlyDigits(v.weight.GetOr(""));
            r.weightGrams == (if ds == "" then 0 else DecimalValue(ds))
    ensures r.weightGrams >= 0
    ensures v.price.None? ==> r.price == 0
    ensures v.price.Some? ==> r.price == v.price.value
    ensures v.mrp.None? ==> r.mrp == r.price
    ensures v.mrp.Some? ==> r.mrp == v.mrp.value
    ensures v.stock.None? ==> r.stock == 999
    ensures v.stock.Some? ==> r.stock == v.stock.value
  {
    ParseIntOfNatToString(v.id, Decimal);
    var ds := OnlyDigits(v.weight.GetOr(""));
    assert ds != "" ==> WeightGrams(v.weight) == DecimalValue(ds) by {
      if ds != "" {
        ParseIntOfDigits(ds, Decimal);
      }
    }
    Variant(
      Some(v.id),
      v.weight.GetOr(NatToString(v.id)),
      WeightGrams(v.weight),
      v.price.GetOr(0),
      v.mrp.GetOr(v.price.GetOr(0)),
      v.stock.GetOr(DefaultStock))
  }

  /** "1.5kg" weighs 15 grams and "1kg" one gram: every digit is kept, the decimal point is
      not; a missing weight weighs 0. */
  lemma WeightGramsExamples()
    ensures WeightGrams(Some("1.5kg")) == 15
    ensures WeightGrams(Some("1kg")) == 1
    ensures WeightGrams(None) == 0
  {
    assert OnlyDigits("g") == "";
    assert OnlyDigits("kg") == "";
    assert OnlyDigits("5kg") == "5";
    assert OnlyDigits(".5kg") == "5";
    assert OnlyDigits("1.5kg") == "15";
    assert OnlyDigits("1kg") == "1";
    assert DecimalValue("1") == 1;
    assert "15"[..1] == "1";
    assert DecimalValue("15") == 15;
    ParseIntOfDigits("15", Decimal);
    ParseIntOfDigits("1", Decimal);
  }

  function MapVariants(vs: seq<ApiVariant>): (r: seq<Variant>)
    ensures |r| == |vs|
    ensures forall i :: 0 <= i < |vs| ==> r[i] == MapVariant(vs[i])
  {
    seq(|vs|, i requires 0 <= i < |vs| => MapVariant(vs[i]))
  }

  /** The lower-cased whitespace-hyphenated name, `name.toLowerCase().replace(/\s+/g, '-')`. */
  function SlugFromName(name: string): string {
    HyphenateSpaceRuns(ToLower(name))
  }

  /** The slug holds no white space and no upper-case letter, and a name without white
      space is simply lower-cased. */
  lemma SlugFromNameShape(name: string)
    ensures forall k :: 0 <= k < |SlugFromName(name)| ==> !IsSpace(SlugFromName(name)[k]) && !IsUpper(SlugFromName(name)[k])
    ensures (forall k :: 0 <= k < |name| ==> !IsSpace(name[k])) ==> SlugFromName(name) == ToLower(name)
  {
    SlugFromNameNoUpper(ToLower(name));
    if forall k :: 0 <= k < |name| ==> !IsSpace(name[k]) {
      HyphenateNoSpace(ToLower(name));
    }
  }

  /** Each run of white space in a name becomes exactly one hyphen of the slug: for parts
      `a` and `b` that do not touch the run with white space of their own, the slug of
      `a + w + b` is `a`'s slug, a hyphen, then `b`'s slug. */
  lemma SlugFromNameSpaceRun(a: string, w: string, b: string)
    requires |w| > 0 && AllSpace(w)
    requires a == [] || !IsSpace(a[|a| - 1])
    requires b == [] || !IsSpace(b[0])
    ensures SlugFromName(a + w + b) == SlugFromName(a) + "-" + SlugFromName(b)
  {
    var la, lw, lb := ToLower(a), ToLower(w), ToLower(b);
    assert ToLower(a + w + b) == la + lw + lb;
    assert AllSpace(lw) by {
      forall k | 0 <= k < |lw| ensures IsSpace(lw[k]) {
        assert IsSpace(w[k]);
      }
    }
    HyphenateSpaceRun(la, lw, lb);
  }

  lemma {:induction false} SlugFromNameNoUpper(s: string)
    requires forall k :: 0 <= k < |s| ==> !IsUpper(s[k])
    ensures forall k :: 0 <= k < |HyphenateSpaceRuns(s)| ==> !IsUpper(HyphenateSpaceRuns(s)[k])
    decreases |s|
  {
    if |s| > 0 {
      if IsSpace(s[0]) {
        var n := LeadingSpaces(s);
        assert forall k :: 0 <= k < |s[n..]| ==> s[n..][k] == s[n + k];
        SlugFromNameNoUpper(s[n..]);
      } else {
        assert forall k :: 0 <= k < |s[1..]| ==> s[1..][k] == s[k + 1];
        SlugFromNameNoUpper(s[1..]);
      }
    }
  }

  predicate NonEmpty(x: string) {
    x != ""
  }

  function TrimEach(pieces: seq<string>): (r: seq<string>)
    ensures |r| == |pieces|
    ensures forall i :: 0 <= i < |pieces| ==> r[i] == Trim(pieces[i])
  {
    seq(|pieces|, i requires 0 <= i < |pieces| => Trim(pieces[i]))
  }

  /** `text.split(',').map((s) => s.trim()).filter(Boolean)`: every resulting name is
      non-empty, free of commas and already trimmed; and whichever comma-free pieces the
      text is written as, the names are those pieces trimmed, with the empty ones dropped,
      in order. */
  function SplitIngredients(text: string): (r: seq<string>)
    ensures forall k :: 0 <= k < |r| ==> r[k] != "" && ',' !in r[k] && Trim(r[k]) == r[k]
    ensures forall ps :: WrittenAs(text, ps, ',') ==> r == Filter(TrimEach(ps), NonEmpty)
  {
    var pieces := Split(text, ',');
    var trimmed := TrimEach(pieces);
    var r := Filter(trimmed, NonEmpty);
    assert forall k :: 0 <= k < |r| ==> r[k] != "" && ',' !in r[k] && Trim(r[k]) == r[k] by {
      forall k | 0 <= k < |r| ensures r[k] != "" && ',' !in r[k] && Trim(r[k]) == r[k] {
        assert r[k] in trimmed;
        var i :| 0 <= i < |trimmed| && trimmed[i] == r[k];
        TrimKeepsOut(pieces[i], ',');
        TrimOfTrimmed(r[k]);
      }
    }
    assert forall ps :: WrittenAs(text, ps, ',') ==> r == Filter(TrimEach(ps), NonEmpty) by {
      forall ps | WrittenAs(text, ps, ',') ensures r == Filter(TrimEach(ps), NonEmpty) {
        SplitOfPieces(ps, text);
      }
    }
    r
  }

  /** The names of the empty text are none, which is also what zero pieces give. */
  lemma SplitOfPieces(ps: seq<string>, text: string)
    requires WrittenAs(text, ps, ',')
    ensures Filter(TrimEach(Split(text, ',')), NonEmpty) == Filter(TrimEach(ps), NonEmpty)
  {
    if |ps| == 0 {
      assert Split(text, ',') == [""];
      assert Trim("") == "";
      assert TrimEach([""]) == [""];
      assert Filter([""], NonEmpty) == Filter([], NonEmpty);
    } else {
      JoinSplit(ps, ',');
    }
  }

  /** Ingredient normalisation: an array passes through, a string is split into clean
      names (the trimmed non-empty comma-separated pieces, in order), anything else gives
      no ingredients. */
  function NormalizeIngredients(raw: RawIngredients): (r: seq<string>)
    ensures raw.IngredientList? ==> r == raw.items
    ensures raw.IngredientsAbsent? ==> r == []
    ensures raw.IngredientText? ==>
      forall k :: 0 <= k < |r| ==> r[k] != "" && ',' !in r[k] && Trim(r[k]) == r[k]
    ensures raw.IngredientText? ==>
      forall ps :: WrittenAs(raw.text, ps, ',') ==> r == Filter(TrimEach(ps), NonEmpty)
  {
    match raw
    case IngredientList(items) => items
    case IngredientText(text) => SplitIngredients(text)
    case IngredientsAbsent => []
  }

  /** A list of clean ingredient names written as one comma-separated string normalises
      back to the same list. */
  lemma IngredientsRoundTrip(items: seq<string>)
    requires forall k :: 0 <= k < |items| ==> items[k] != "" && ',' !in items[k] && Trim(items[k]) == items[k]
    ensures NormalizeIngredients(IngredientText(Join(items, ','))) == items
  {
    IngredientsOfPieces(items);
    assert TrimEach(items) == items;
    FilterKeepsAll(items, NonEmpty);
  }

  lemma IngredientsOfPieces(ps: seq<string>)
    requires forall k :: 0 <= k < |ps| ==> ',' !in ps[k]
    ensures NormalizeIngredients(IngredientText(Join(ps, ','))) == Filter(TrimEach(ps), NonEmpty)
  {
    assert WrittenAs(Join(ps, ','), ps, ',');
  }

  lemma TrimExample()
    ensures Trim(" b ") == "b"
  {
    assert LeadingSpaces(" b ") == 1;
    assert " b "[1..] == "b ";
    assert TrailingSpacesStart("b ") == 1;
    assert "b "[..1] == "b";
  }

  lemma SplitExample()
    ensures Split("a, b ,c", ',') == ["a", " b ", "c"]
  {
    SplitWithoutSep("c", ',');
    SplitAfterPiece(" b ", "c", ',');
    assert " b " + [','] + "c" == " b ,c";
    SplitAfterPiece("a", " b ,c", ',');
    assert "a" + [','] + " b ,c" == "a, b ,c";
  }

  /** "a, b ,c" becomes the three names a, b and c. */
  lemma TrimEachExample()
    ensures TrimEach(["a", " b ", "c"]) == ["a", "b", "c"]
  {
    TrimExample();
    TrimLetter('a');
    TrimLetter('c');
    var trimmed := TrimEach(["a", " b ", "c"]);
    assert trimmed == [Trim("a"), Trim(" b "), Trim("c")];
  }

  lemma TrimLetter(c: char)
    requires !IsSpace(c)
    ensures Trim([c]) == [c]
  {
    TrimOfTrimmed([c]);
  }

  lemma NormalizeTextSteps(text: string, names: seq<string>)
    requires TrimEach(Split(text, ',')) == names
    requires Filter(names, NonEmpty) == names
    ensures NormalizeIngredients(IngredientText(text)) == names
  {
  }

  /** Whitespace around names is dropped: "a, b ,c" gives a, b and c. */
  lemma IngredientsExample()
    ensures NormalizeIngredients(IngredientText("a, b ,c")) == ["a", "b", "c"]
  {
    SplitExample();
    TrimEachExample();
    FilterKeepsAll(["a", "b", "c"], NonEmpty);
    NormalizeTextSteps("a, b ,c", ["a", "b", "c"]);
  }

  lemma DefaultCategoryLower()
    ensures forall k :: 0 <= k < |DefaultCategory| ==> !IsUpper(DefaultCategory[k])
  {
    assert DefaultCategory == ['p', 'i', 'c', 'k', 'l', 'e', 's'];
  }

  /** `mapApiToUi`. */
  function MapProduct(p: ApiProduct): (r: Product)
    ensures |r.images| == 1 && r.images[0] != ""
    ensures r.category != "" && forall k :: 0 <= k < |r.category| ==> !IsUpper(r.category[k])
    ensures SortedBy(r.variants, Price)
    ensures multiset(r.variants) == multiset(MapVariants(p.variants.GetOr([])))
  {
    var category := if Truthy(p.category) then ToLower(p.category.value) else DefaultCategory;
    assert forall k :: 0 <= k < |category| ==> !IsUpper(category[k]) by {
      if !Truthy(p.category) {
        DefaultCategoryLower();
      }
    }
    var variants := SortBy(MapVariants(p.variants.GetOr([])), Price);
    var images := if Truthy(p.imageUrl) then [p.imageUrl.value] else [Placeholder];
    Product(
      NatToString(p.id),
      p.name,
      p.slug.GetOr(SlugFromName(p.name)),
      category,
      p.description.GetOr(""),
      images,
      variants,
      p.tags.GetOr([]),
      if Truthy(p.spiceLevel) then p.spiceLevel else None,
      p.origin,
      p.shelfLife,
      p.weight,
      p.priceRange,
      NormalizeIngredients(p.ingredients),
      p.isBestseller)
  }

  /** The mapped variants are a stable sort of the backend variants by price: variants of
      equal price keep their backend order, and a non-array field gives no variants. */
  lemma MapProductVariantsStable(p: ApiProduct, k: int)
    ensures KeyClass(MapProduct(p).variants, Price, k) == KeyClass(MapVariants(p.variants.GetOr([])), Price, k)
    ensures p.variants.None? ==> MapProduct(p).variants == []
  {
    SortByStable(MapVariants(p.variants.GetOr([])), Price, k);
  }

  /** The fields the mapper passes through: the name and the optional extras as sent; a
      missing description is empty, missing tags are none, and an empty spice level counts
      as none. */
  lemma MapProductFields(p: ApiProduct)
    ensures MapProduct(p).name == p.name
    ensures MapProduct(p).description == p.description.GetOr("")
    ensures MapProduct(p).tags == p.tags.GetOr([])
    ensures MapProduct(p).spiceLevel == (if Truthy(p.spiceLevel) then p.spiceLevel else None)
    ensures MapProduct(p).origin == p.origin && MapProduct(p).shelfLife == p.shelfLife
    ensures MapProduct(p).weight == p.weight && MapProduct(p).priceRange == p.priceRange
    ensures MapProduct(p).ingredients == NormalizeIngredients(p.ingredients)
    ensures MapProduct(p).isBestseller == p.isBestseller
  {
  }

  /** Defaults of the mapper: the slug is the given one or derived from the name; a missing or
      empty category becomes "pickles", a present one is lower-cased; a missing or empty
      image URL becomes the placeholder; the id is the decimal string of the backend id. */
  lemma MapProductDefaults(p: ApiProduct)
    ensures p.slug.Some? ==> MapProduct(p).slug == p.slug.value
    ensures p.slug.None? ==> MapProduct(p).slug == SlugFromName(p.name)
    ensures !Truthy(p.category) ==> MapProduct(p).category == DefaultCategory
    ensures Truthy(p.category) ==> MapProduct(p).category == ToLower(p.category.value)
    ensures !Truthy(p.imageUrl) ==> MapProduct(p).images == [Placeholder]
    ensures Truthy(p.imageUrl) ==> MapProduct(p).images == [p.imageUrl.value]
    ensures ParseInt(MapProduct(p).id, Decimal) == Some(p.id)
  {
    ParseIntOfNatToString(p.id, Decimal);
  }

  /** `fetchAllProducts`: a null body counts as an empty list. */
  function FetchAllProducts(api: Fetch<Option<seq<ApiProduct>>>): (r: Fetch<seq<Product>>)
    ensures api.FetchFailed? <==> r.FetchFailed?
    ensures r.Fetched? ==> |r.value| == |api.value.GetOr([])|
    ensures r.Fetched? ==> forall i :: 0 <= i < |r.value| ==> r.value[i] == MapProduct(api.value.GetOr([])[i])
  {
    match api
    case FetchFailed => FetchFailed
    case Fetched(body) =>
      var ps := body.GetOr([]);
      Fetched(seq(|ps|, i requires 0 <= i < |ps| => MapProduct(ps[i])))
  }

  predicate HasSlug(slug: string, p: Product) {
    p.slug == slug
  }

  /** `fetchProductBySlug`: the direct `/products/slug/{slug}` answer when it yields a product;
      otherwise (an error or an empty body, which makes the mapper throw) the first product of
      the full list whose slug is equal, or nothing. A failure of the list fetch propagates. */
  function FetchProductBySlug(slug: string, direct: Fetch<Option<ApiProduct>>,
                              all: Fetch<Option<seq<ApiProduct>>>): (r: Fetch<Option<Product>>)
    ensures direct.Fetched? && direct.value.Some? ==> r == Fetched(Some(MapProduct(direct.value.value)))
    ensures !(direct.Fetched? && direct.value.Some?) ==> (r.FetchFailed? <==> all.FetchFailed?)
    ensures !(direct.Fetched? && direct.value.Some?) && r.Fetched? ==>
      var ps := FetchAllProducts(all).value;
      && (r.value.None? <==> forall i :: 0 <= i < |ps| ==> ps[i].slug != slug)
      && (r.value.Some? ==> exists i :: 0 <= i < |ps| && ps[i] == r.value.value && ps[i].slug == slug
                                         && forall j :: 0 <= j < i ==> ps[j].slug != slug)
  {
    if direct.Fetched? && direct.value.Some? then
      Fetched(Some(MapProduct(direct.value.value)))
    else
      match FetchAllProducts(all)
      case FetchFailed => FetchFailed
      case Fetched(ps) =>
        var i := FindIndex(ps, (p: Product) => HasSlug(slug, p));
        Fetched(if i == -1 then None else Some(ps[i]))
  }
}
