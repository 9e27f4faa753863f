/** The product detail page: which variant is active, the price and MRP it shows, the
    variant it hands to the cart, the quantity stepper and the add-to-cart guards. */
module ProductPage {
  import opened Wrappers
  import opened Text
  import opened Catalog
  import opened PriceRange
  import opened Cart
  import ProductApi

  /** `variants.reduce((min, v) => (v.price < min.price ? v : min))`, as the index of the
      variant the fold ends on. The strict `<` keeps the earlier of two equal prices. */
  function CheapestIndex(vs: seq<Variant>): (i: nat)
    requires |vs| > 0
    ensures i < |vs|
    ensures forall j :: 0 <= j < |vs| ==> vs[i].price <= vs[j].price
    ensures forall j :: 0 <= j < i ==> vs[j].price > vs[i].price
  {
    if |vs| == 1 then 0
    else
      var m := CheapestIndex(vs[..|vs| - 1]);
      assert forall j :: 0 <= j < |vs| - 1 ==> vs[..|vs| - 1][j] == vs[j];
      if vs[|vs| - 1].price < vs[m].price then |vs| - 1 else m
  }

  /** The page's state: the variant chosen in the selector (or preselected on load) and the
      quantity in the stepper. */
  datatype PageState = PageState(selected: Option<Variant>, quantity: int)

  const InitialPage: PageState := PageState(None, 1)

  /** The load effect: a product with variants preselects its cheapest one, the first of
      them when several share the least price. */
  function OnProductLoaded(s: PageState, p: Product): (r: PageState)
    ensures r.quantity == s.quantity
    ensures |p.variants| == 0 ==> r == s
    ensures |p.variants| > 0 ==> r.selected.Some? && r.selected.value in p.variants
    ensures |p.variants| > 0 ==> forall v :: v in p.variants ==> r.selected.value.price <= v.price
    ensures |p.variants| > 0 ==> r.selected == Some(p.variants[CheapestIndex(p.variants)])
  {
    if |p.variants| > 0 then s.(selected := Some(p.variants[CheapestIndex(p.variants)]))
    else s
  }

  /** `selectedVariant || cheapestVariant || null`. */
  function ActiveVariant(s: PageState, p: Product): (r: Option<Variant>)
    ensures s.selected.Some? ==> r == s.selected
    ensures s.selected.None? && |p.variants| > 0 ==>
      r == Some(p.variants[CheapestIndex(p.variants)])
    ensures r.None? <==> s.selected.None? && |p.variants| == 0
  {
    if s.selected.Some? then s.selected
    else if |p.variants| > 0 then Some(p.variants[CheapestIndex(p.variants)])
    else None
  }

  /** The active variant's price, or else the first number of a non-empty `price_range`,
      or else 0. */
  function DisplayPrice(active: Option<Variant>, priceRange: Option<string>): (r: int)
    ensures active.Some? ==> r == active.value.price
    ensures active.None? && Truthy(priceRange) && |PriceRangeNumbers(priceRange.value)| > 0 ==>
      r == PriceRangeNumbers(priceRange.value)[0]
    ensures active.None? && !(Truthy(priceRange) && |PriceRangeNumbers(priceRange.value)| > 0) ==>
      r == 0
  {
    if active.Some? then active.value.price
    else if Truthy(priceRange) then
      var ns := PriceRangeNumbers(priceRange.value);
      if |ns| > 0 then ns[0] else 0
    else 0
  }

  /** `activeVariant ? activeVariant.mrp : 0`: the MRP is known only through a variant. */
  function DisplayMrp(active: Option<Variant>): (r: int)
    ensures active.None? ==> r == 0
    ensures active.Some? ==> r == active.value.mrp
  {
    if active.Some? then active.value.mrp else 0
  }

  /** Only a product with variants can be out of stock, and only through a sold-out active
      variant; the stock of a product without variants is never consulted. */
  predicate IsOutOfStock(p: Product, active: Option<Variant>)
    ensures IsOutOfStock(p, active) <==> |p.variants| > 0 && active.Some? && active.value.stock == 0
    ensures |p.variants| == 0 ==> !IsOutOfStock(p, active)
  {
    |p.variants| > 0 && active.Some? && active.value.stock == 0
  }

  /** `disabled={isOutOfStock || (hasVariants && !activeVariant)}`: a product without
      variants can always be added; one with variants needs an active variant in stock. */
  predicate AddButtonDisabled(p: Product, active: Option<Variant>)
    ensures |p.variants| == 0 ==> !AddButtonDisabled(p, active)
    ensures |p.variants| > 0 ==> (AddButtonDisabled(p, active) <==> active.None? || active.value.stock == 0)
  {
    IsOutOfStock(p, active) || (|p.variants| > 0 && active.None?)
  }

  /** The label of the synthetic variant: the product's weight if it has one, else
      "default". */
  function SyntheticLabel(p: Product): string {
    if Truthy(p.weight) then p.weight.value else "default"
  }

  /** `getVariantForCart`: the active variant, or for a product without variants a
      synthetic one priced at the displayed price, with that price as MRP too (the MRP shown
      is 0, and `0 || price` is the price) and a stock of 999. */
  function VariantForCart(p: Product, active: Option<Variant>): (r: Option<Variant>)
    ensures active.Some? ==> r == active
    ensures active.None? && |p.variants| == 0 ==>
      r.Some? && r.value.sizeLabel == SyntheticLabel(p) && r.value.sizeLabel != ""
      && r.value.price == DisplayPrice(active, p.priceRange)
      && r.value.mrp == r.value.price
      && r.value.stock == ProductApi.DefaultStock && r.value.id.None?
    ensures active.None? && |p.variants| > 0 ==> r.None?
  {
    if active.Some? then active
    else if |p.variants| == 0 then
      var price := DisplayPrice(active, p.priceRange);
      var mrp := DisplayMrp(active);
      Some(Variant(None, SyntheticLabel(p), 0, price, if mrp != 0 then mrp else price, ProductApi.DefaultStock))
    else None
  }

  /** What pressing "Add to cart" leads to. */
  datatype AddOutcome = SelectSize | VariantUnavailable | Added(variant: Variant)

  /** `handleAddToCart`: the two guards, then `addToCart` with the stepper's quantity.
      Neither guard can fire: with variants there is always an active one, and without
      variants the synthetic variant is always built. */
  function HandleAddToCart(s: PageState, p: Product, c: CartState): (r: (AddOutcome, CartState))
    ensures r.0.Added?
    ensures r.1 == AddToCart(c, p, r.0.variant, s.quantity)
    ensures r.0.variant == VariantForCart(p, ActiveVariant(s, p)).value
    ensures |p.variants| > 0 ==> r.0.variant == ActiveVariant(s, p).value
  {
    var active := ActiveVariant(s, p);
    if |p.variants| > 0 && active.None? then (SelectSize, c)
    else
      match VariantForCart(p, active)
      case None => (VariantUnavailable, c)
      case Some(v) => (Added(v), AddToCart(c, p, v, s.quantity))
  }

  /** With variants, the button is disabled exactly when the active variant is sold out. */
  lemma AddButtonDisabledWithVariants(s: PageState, p: Product)
    requires |p.variants| > 0
    ensures AddButtonDisabled(p, ActiveVariant(s, p)) <==> ActiveVariant(s, p).value.stock == 0
  {
  }

  /** The minus button: `Math.max(1, q - 1)`. */
  function Decrement(q: int): (r: int)
    ensures r >= 1
    ensures q > 1 ==> r == q - 1
    ensures q <= 1 ==> r == 1
  {
    if q - 1 > 1 then q - 1 else 1
  }

  function Increment(q: int): (r: int)
    ensures r == q + 1
  {
    q + 1
  }

  /** Applies a run of stepper presses, `true` for plus and `false` for minus. */
  function Press(q: int, presses: seq<bool>): int
    decreases |presses|
  {
    if |presses| == 0 then q
    else Press(if presses[0] then Increment(q) else Decrement(q), presses[1..])
  }

  /** Starting from 1, no run of presses takes the quantity below 1, so the page only ever
      hands `addToCart` a positive quantity. */
  lemma {:induction false} PressStaysPositive(q: int, presses: seq<bool>)
    requires q >= 1
    ensures Press(q, presses) >= 1
    decreases |presses|
  {
    if |presses| > 0 {
      PressStaysPositive(if presses[0] then Increment(q) else Decrement(q), presses[1..]);
    }
  }

  /** The "Save" badge: shown only when the MRP is above the price, holding the difference. */
  function SavingsBadge(price: int, mrp: int): (r: Option<int>)
    ensures r.Some? <==> mrp > price
    ensures r.Some? ==> r.value > 0 && price + r.value == mrp
  {
    if mrp > price then Some(mrp - price) else None
  }

  /** The size chips shown for a product without variants: `weight?.split(',')` with each
      piece trimmed, so a weight written as comma-free pieces joined by commas shows each
      piece trimmed, empty ones included; with variants, their labels. */
  function SizeChips(p: Product): (r: seq<string>)
    ensures |p.variants| > 0 ==>
      |r| == |p.variants| && forall k :: 0 <= k < |r| ==> r[k] == p.variants[k].sizeLabel
    ensures |p.variants| == 0 && p.weight.Some? ==>
      |r| >= 1 && forall k :: 0 <= k < |r| ==> ',' !in r[k] && Trim(r[k]) == r[k]
    ensures |p.variants| == 0 && p.weight.Some? ==>
      forall ws :: |ws| >= 1 && WrittenAs(p.weight.value, ws, ',') ==> r == ProductApi.TrimEach(ws)
    ensures |p.variants| == 0 && p.weight.None? ==> r == []
  {
    if |p.variants| > 0 then
      seq(|p.variants|, k requires 0 <= k < |p.variants| => p.variants[k].sizeLabel)
    else if p.weight.Some? then
      var pieces := Split(p.weight.value, ',');
      var chips := ProductApi.TrimEach(pieces);
      assert forall k :: 0 <= k < |chips| ==> ',' !in chips[k] && Trim(chips[k]) == chips[k] by {
        forall k | 0 <= k < |chips| ensures ',' !in chips[k] && Trim(chips[k]) == chips[k] {
          TrimKeepsOut(pieces[k], ',');
          TrimOfTrimmed(chips[k]);
        }
      }
      assert forall ws :: |ws| >= 1 && WrittenAs(p.weight.value, ws, ',') ==> chips == ProductApi.TrimEach(ws) by {
        forall ws | |ws| >= 1 && WrittenAs(p.weight.value, ws, ',') ensures chips == ProductApi.TrimEach(ws) {
          JoinSplit(ws, ',');
        }
      }
      chips
    else []
  }
}
