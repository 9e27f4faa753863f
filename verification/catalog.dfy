/** The storefront's data model: the backend's JSON product as the client receives it,
    and the canonical UI product, variant and cart line every page works with. Prices,
    stock and quantities are whole numbers (rupees, units). */
module Catalog {
  import opened Wrappers

  /** A purchasable size of a product. `id` is the backend variant id; variants built on
      the client (the synthetic variant of a product without variants, the legacy mapper's
      variants) carry none. */
  datatype Variant = Variant(
    id: Option<nat>,
    sizeLabel: string,
    weightGrams: int,
    price: int,
    mrp: int,
    stock: int)

  /** The price, as a key for sorting and comparing variants. */
  function Price(v: Variant): int {
    v.price
  }

  /** The canonical UI product. `category` is meant to be one of pickles, podulu, snacks
      and pulses, but the mappers store whatever string they computed. */
  datatype Product = Product(
    id: string,
    name: string,
    slug: string,
    category: string,
    description: string,
    images: seq<string>,
    variants: seq<Variant>,
    tags: seq<string>,
    spiceLevel: Option<string>,
    origin: Option<string>,
    shelfLife: Option<string>,
    weight: Option<string>,
    priceRange: Option<string>,
    ingredients: seq<string>,
    isBestseller: bool)

  /** One cart line: snapshots of the product and the chosen variant, and a quantity. */
  datatype CartItem = CartItem(product: Product, variant: Variant, quantity: int)

  /** A backend variant as JSON; every field but the id may be missing. `mrp` and `stock`
      are not sent by the current backend but are read when present. */
  datatype ApiVariant = ApiVariant(
    id: nat,
    weight: Option<string>,
    price: Option<int>,
    mrp: Option<int>,
    stock: Option<int>)

  /** The `ingredients` field of a backend product: an array, a comma-separated string,
      or anything else (missing, null, a number). */
  datatype RawIngredients =
    | IngredientList(items: seq<string>)
    | IngredientText(text: string)
    | IngredientsAbsent

  /** A backend product as JSON. `variants` is `None` when the field is not an array;
      `slug`, `tags`, `spiceLevel`, `origin`, `weight`, `priceRange` and `isBestseller`
      are not sent by the current backend but are read when present. */
  datatype ApiProduct = ApiProduct(
    id: nat,
    name: string,
    category: Option<string>,
    description: Option<string>,
    imageUrl: Option<string>,
    slug: Option<string>,
    variants: Option<seq<ApiVariant>>,
    ingredients: RawIngredients,
    tags: Option<seq<string>>,
    spiceLevel: Option<string>,
    origin: Option<string>,
    shelfLife: Option<string>,
    weight: Option<string>,
    priceRange: Option<string>,
    isBestseller: bool)

  /** JavaScript truthiness of an optional string: present and not empty. */
  predicate Truthy(s: Option<string>) {
    s.Some? && s.value != ""
  }

  const Placeholder: string := "/placeholder.svg"
}
