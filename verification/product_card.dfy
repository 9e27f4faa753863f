/** A product tile in listings: the price it advertises, its image, its first tags and an
    "Add to Cart" button that only shows a notice. */
module ProductCard {
  import opened Wrappers
  import opened Catalog
  import opened PriceRange
  import opened Cart
  import ProductPage

  /** `getPrice`: the cheapest variant's price; without variants, the smallest number in a
      non-empty `price_range`; otherwise 0. */
  function CardPrice(p: Product): (r: int)
    ensures |p.variants| > 0 ==>
      (exists k :: 0 <= k < |p.variants| && p.variants[k].price == r)
      && forall k :: 0 <= k < |p.variants| ==> r <= p.variants[k].price
    ensures |p.variants| == 0 && Truthy(p.priceRange) && |PriceRangeNumbers(p.priceRange.value)| > 0 ==>
      r in PriceRangeNumbers(p.priceRange.value)
      && forall n :: n in PriceRangeNumbers(p.priceRange.value) ==> r <= n
    ensures |p.variants| == 0 && !(Truthy(p.priceRange) && |PriceRangeNumbers(p.priceRange.value)| > 0) ==>
      r == 0
  {
    if |p.variants| > 0 then
      p.variants[ProductPage.CheapestIndex(p.variants)].price
    else if Truthy(p.priceRange) then
      var ns := PriceRangeNumbers(p.priceRange.value);
      if |ns| > 0 then MinOf(ns) else 0
    else 0
  }

  /** `images?.[0] || image_url || '/placeholder.svg'`: the first image if it is non-empty,
      then the raw backend URL if the object carries one, then the placeholder. */
  function ImageSrc(images: seq<string>, imageUrl: Option<string>): (r: string)
    ensures r != ""
    ensures |images| > 0 && images[0] != "" ==> r == images[0]
    ensures !(|images| > 0 && images[0] != "") && Truthy(imageUrl) ==> r == imageUrl.value
    ensures !(|images| > 0 && images[0] != "") && !Truthy(imageUrl) ==> r == Placeholder
  {
    if |images| > 0 && images[0] != "" then images[0]
    else if Truthy(imageUrl) then imageUrl.value
    else Placeholder
  }

  /** `tags.slice(0, 2)`. */
  function ShownTags(tags: seq<string>): (r: seq<string>)
    ensures |r| <= 2
    ensures |r| == if |tags| < 2 then |tags| else 2
    ensures r <= tags
  {
    if |tags| <= 2 then tags else tags[..2]
  }

  /** The card's "Add to Cart": it shows a notice naming the product and leaves the cart as
      it was. */
  function CardAddToCart(c: CartState, p: Product): (r: (CartState, string))
    ensures r.0 == c
    ensures r.1 == p.name + " added to your cart."
  {
    (c, p.name + " added to your cart.")
  }
}
