# Sri Sai Kitchen storefront and backend, modelled in Dafny

This project models the core of the Sri Sai Kitchen shop. The shop has two halves.

The React storefront:
- maps the backend's products to UI products (`mapApiToUi`);
- picks the cheapest variant on the product page and shows its price;
- keeps a cart keyed by product id and size label;
- turns the cart into an order payload at checkout;
- filters and sorts a category listing;
- searches the catalogue;
- lets an administrator edit a product's variants.

The FastAPI backend stores products, variants, orders and order items, and serves:
- product reads and slug lookup;
- order creation with a price snapshot;
- the admin product and variant edits, with the cascade on product delete;
- the paged, newest-first order list.

Each component is a Dafny module of pure functions over immutable datatypes:
- `Cart` — the cart context;
- `ProductApi` and `LegacyCatalog` — the two product clients;
- `PriceRange` — the price-range digit parsing both views share;
- `ProductPage`, `VariantSelector`, `ProductCard`, `Checkout`, `Category`, `Search`, `VariantManager` — the pages and components;
- `ServerSlug` and `Store` — the backend's `_slugify` and the product and variant endpoints over a database value;
- `Orders` — order creation and the admin order list;
- `Cross` — facts that tie the pieces together.

`Text`, `Seqs` and `Sorting` hold the string, filtering and stable-sort helpers that the rest share:
- JavaScript's `trim`, `split`, `parseInt` and `toLowerCase`;
- `Array.filter` and `findIndex`;
- the stable `Array.sort` (ES2019).

The database is a record of tables, each a sequence of rows, plus the next auto-increment id for each table. An endpoint is a function from a database and a request to a new database and a `Response` (`Ok`, `NotFound`, `BadRequest` or `ServerError`). A fetch the storefront makes is an input value, `Fetched(data)` or `FetchFailed`.

Facts about the code a reader may not expect:
- The card shows the lowest number of a price range, the page the first (`ProductPage.DisplayPrice`, `Cross.CardAndPageDisagree`).
- The category page reads `price_range`, but the backend never sends it. Any non-empty category listing therefore throws (`Cross.CategoryCrashesOnBackendProducts`).
- The legacy client writes a camelCase `spiceLevel` key (src/data/products.ts:52), but the UI product reads `spice_level`, so no spice level reaches the page (`LegacyCatalog.LegacyMap`).
- The "Only N left" badge shows for any non-zero stock below 10, negative stock included.
- The backend's slug and the storefront's slug differ on slashes and on runs of spaces (`Cross.SlashSlugsDiffer`, `Cross.SpaceRunSlugsDiffer`). They agree on plain names (`Cross.SlugsAgree`).

## Model

| member | source | states |
|---|---|---|
| Cart.LineIndex | src/contexts/CartContext.tsx:43-45 | the index of the first line with this product id and size label, or -1 exactly when no line has that key |
| Cart.AddToCart | src/contexts/CartContext.tsx:41-56 | when a line has the key, its quantity grows by the added amount and every other line is unchanged; otherwise the new line is appended; the drawer opens either way |
| Cart.Total | src/contexts/CartContext.tsx:85 | an empty cart totals 0, and non-negative prices and quantities never give a negative total |
| Cart.ItemCount | src/contexts/CartContext.tsx:86 | an empty cart counts 0 items, and lines of at least one unit count at least one item each |
| Cart.SumsAppend | src/contexts/CartContext.tsx:85-86 | a line appended to the cart adds its quantity to the item count and its price times quantity to the total |
| Cart.AddToCartSums | src/contexts/CartContext.tsx:83-87 | adding n units raises the item count by n and the total by n times the price of the line that absorbs them: the stored line's price on a merge, the new variant's otherwise |
| Cart.AddToCartKeepsDistinct | src/contexts/CartContext.tsx:43-53 | adding never creates a second line with the same key |
| Cart.AddTwiceMerges | src/contexts/CartContext.tsx:47-51 | adding the same variant twice to an empty cart gives one line holding both quantities |
| Cart.RemoveFromCart | src/contexts/CartContext.tsx:58-62 | exactly the lines with the key are gone; the others keep their order |
| Cart.RemoveFromCartSums | src/contexts/CartContext.tsx:58-62 | with distinct keys, the count and total drop by the removed line's quantity and line total, or not at all |
| Cart.RemoveFromCartKeepsDistinct | src/contexts/CartContext.tsx:58-62 | removal keeps keys distinct and leaves no line with the removed key |
| Cart.UpdateQuantity | src/contexts/CartContext.tsx:64-77 | a positive quantity replaces that line's quantity only; the cart's length and keys are unchanged |
| Cart.UpdateNonPositiveIsRemove | src/contexts/CartContext.tsx:65-68 | setting a quantity of zero or less is the same as removing the line |
| Cart.UpdateQuantitySums | src/contexts/CartContext.tsx:70-76 | with distinct keys, the count and total move by the difference between the new and the old quantity of the one keyed line |
| Cart.UpdateQuantityKeepsDistinct | src/contexts/CartContext.tsx:64-77 | updating keeps keys distinct |
| Cart.ClearCart | src/contexts/CartContext.tsx:79-81 | the cart is empty and the drawer state is kept |
| Cart.ClearCartSums | src/contexts/CartContext.tsx:79-87 | a cleared cart counts zero items and totals zero |
| Cart.SumsExample | src/contexts/CartContext.tsx:83-87 | lines of 2 at 100 and 1 at 50 count 3 items and total 250 |
| ProductApi.MapVariant | src/api/product.ts:10-23 | the id is the backend id; the label is the weight, or else reads back as the backend id in decimal; the grams are the number spelled by all the weight's digits, 0 without digits; a sent price, MRP or stock is kept; a missing price is 0, a missing MRP is the price, a missing stock is 999 |
| ProductApi.WeightGramsExamples | src/api/product.ts:12-13 | every digit of the weight is kept and the rest dropped: "1.5kg" is 15 grams, "1kg" is 1, a missing weight is 0 |
| ProductApi.SlugFromNameShape | src/api/product.ts:54 | the slug holds no white space and no upper-case letter, and a name without white space slugs to its lower-case form |
| ProductApi.SlugFromNameSpaceRun | src/api/product.ts:54 | a run of white space between two non-space ends becomes exactly one hyphen, and the text on either side is slugged on its own |
| ProductApi.SplitIngredients | src/api/product.ts:42-46 | for text written as comma-free pieces joined by commas, the names are those pieces trimmed, the empty ones dropped, in order |
| ProductApi.NormalizeIngredients | src/api/product.ts:37-47 | an array passes through unchanged; text written as comma-free pieces joined by commas gives those pieces trimmed, the empty ones dropped, in order |
| ProductApi.IngredientsOfPieces | src/api/product.ts:42-46 | normalising comma-free pieces joined by commas gives the pieces trimmed, the empty ones dropped |
| ProductApi.IngredientsRoundTrip | src/api/product.ts:42-46 | joining any list of clean names with commas, the empty list included, and normalising the text gives back the same names |
| ProductApi.IngredientsExample | src/api/product.ts:42-46 | "a, b ,c" normalises to ["a", "b", "c"] |
| ProductApi.MapProduct | src/api/product.ts:25-68 | one non-empty cover image; a non-empty category with no upper-case letter; the variants are the mapped backend variants, rearranged into ascending price |
| ProductApi.MapProductVariantsStable | src/api/product.ts:32-35 | variants with equal prices keep their backend order |
| ProductApi.MapProductDefaults | src/api/product.ts:25-68 | a sent slug is kept, else it is derived from the name; a missing category becomes "pickles", else it is lower-cased; a missing image becomes the placeholder; the id reads back as the backend id |
| ProductApi.MapProductFields | src/api/product.ts:50-66 | the name is kept; a missing description or tag list becomes empty; a falsy spice level becomes absent; origin, shelf life, weight and price range pass through, absent when not sent; the ingredients are the normalised list; the bestseller flag is the sent one |
| ProductApi.FetchAllProducts | src/api/product.ts:70-73 | a failed fetch fails; otherwise each product is mapped, in order |
| ProductApi.FetchProductBySlug | src/api/product.ts:80-92 | the direct lookup's product when it yields one; otherwise the first product of the full list with that slug, none when none has it, and a failure when the list fetch fails |
| PriceRange.PieceNumber | src/pages/Product.tsx:68 | a piece with a digit gives the number its digits spell, read in order; a piece with no digit gives no number |
| PriceRange.NumbersMembers | src/pages/Product.tsx:66-69 | a number is in the list exactly when some piece of the split yields it |
| PriceRange.NumbersHead | src/pages/Product.tsx:66-69 | the first number is that of the first piece holding a digit |
| PriceRange.MinOf | src/components/ProductCard.tsx:32 | the result is one of the numbers and no number is smaller |
| PriceRange.NumbersExample | src/pages/Product.tsx:66-69 | "300-150" gives [300, 150] |
| ProductPage.CheapestIndex | src/pages/Product.tsx:56-59 | the first variant of least price: no variant is cheaper and every earlier one costs more |
| ProductPage.OnProductLoaded | src/pages/Product.tsx:22-30 | with variants, the first variant of least price is selected; without, the state is unchanged; the quantity is kept |
| ProductPage.ActiveVariant | src/pages/Product.tsx:61 | the user's choice wins, then the cheapest variant; none only when nothing is chosen and there are no variants |
| ProductPage.DisplayPrice | src/pages/Product.tsx:63-70 | the active variant's price, else the first number of the price range, else 0 |
| ProductPage.VariantForCart | src/pages/Product.tsx:80-91 | the active variant; without variants, a synthetic one at the displayed price with MRP equal to that price and stock 999; none if variants exist but none is active |
| ProductPage.HandleAddToCart | src/pages/Product.tsx:93-115 | neither guard can fire, and the cart gains the active or synthetic variant at the stepper's quantity |
| ProductPage.DisplayMrp | src/pages/Product.tsx:72 | the active variant's MRP, or 0 without one |
| ProductPage.IsOutOfStock | src/pages/Product.tsx:74 | out of stock exactly when the product has variants and the active variant's stock is 0 |
| ProductPage.AddButtonDisabled | src/pages/Product.tsx:298 | never disabled without variants; with variants, disabled exactly when no variant is active or the active one has no stock |
| ProductPage.AddButtonDisabledWithVariants | src/pages/Product.tsx:298 | with variants, the button is disabled exactly when the active variant is sold out |
| ProductPage.Decrement | src/pages/Product.tsx:275 | a quantity of 1 or less becomes 1; any larger one falls by one |
| ProductPage.PressStaysPositive | src/pages/Product.tsx:275-283 | any run of minus and plus presses from a positive quantity stays positive |
| ProductPage.SavingsBadge | src/pages/Product.tsx:172-181 | a badge shows exactly when the MRP exceeds the price, and price plus savings is the MRP |
| ProductPage.SizeChips | src/pages/Product.tsx:76-78 | with variants, one chip per variant label in order; otherwise a weight written as comma-free pieces joined by commas shows each piece trimmed, in order; no weight shows none |
| VariantSelector.StruckMrp | src/components/VariantSelector.tsx:52 | the MRP is struck through exactly when it exceeds the price |
| VariantSelector.OnlyLeft | src/components/VariantSelector.tsx:61 | "Only N left" shows exactly for a non-zero stock below 10, with N the stock |
| VariantSelector.Render | src/components/VariantSelector.tsx:26-68 | nothing renders for no variants; otherwise one tile per variant, disabled exactly when sold out, selected exactly at the selected index; each tile's struck-through MRP and Only-N-left badge are exactly those of its variant |
| VariantSelector.Click | src/components/VariantSelector.tsx:21-40 | a click on a sold-out tile changes nothing; any other click selects that tile and reports its variant |
| VariantSelector.ClickRunAgrees | src/components/VariantSelector.tsx:19-40 | after any run of clicks, either nothing took effect, or the page's variant is the in-stock variant under the selected tile |
| ProductCard.CardPrice | src/components/ProductCard.tsx:18-36 | the cheapest variant's price; without variants, the least number of the price range, else 0 |
| ProductCard.ImageSrc | src/components/ProductCard.tsx:48-49 | never empty: the first image when it is non-empty, else the image URL when it is non-empty, else the placeholder |
| ProductCard.ShownTags | src/components/ProductCard.tsx:78 | at most the first two tags, as a prefix of the list |
| ProductCard.CardAddToCart | src/components/ProductCard.tsx:40-46 | the card's button announces the product but leaves the cart unchanged |
| Checkout.FormValidity | src/pages/Checkout.tsx:27-36 | valid exactly when the first and last name, phone, address, city, state and pincode are not blank and the cart is non-empty; the e-mail plays no part |
| Checkout.DemoFormInvalid | src/pages/Checkout.tsx:18-36 | the pre-filled demo form is never valid |
| Checkout.OrderItems | src/pages/Checkout.tsx:45-55 | at most one line per cart item, each with a positive variant id |
| Checkout.OrderItemsOne | src/pages/Checkout.tsx:45-55 | one orderable item gives exactly its variant id and quantity; one that is not orderable gives no line |
| Checkout.OrderItemsAppend | src/pages/Checkout.tsx:45-55 | the lines of two carts back to back are the lines of the first followed by those of the second, so lines keep the cart's order |
| Checkout.OrderItemsMembers | src/pages/Checkout.tsx:45-55 | a line is in the payload exactly when some orderable cart item gives its variant id and quantity |
| Checkout.OrderItemsAllOrderable | src/pages/Checkout.tsx:45-55 | when every item is orderable, the payload has one line per item, in order |
| Checkout.OrderItemsEmpty | src/pages/Checkout.tsx:45-62 | the payload is empty exactly when no cart item is orderable |
| Checkout.BuildPayload | src/pages/Checkout.tsx:64-70 | payment is "COD"; the items and phone are passed through; the name is the trimmed full name and the address the trimmed full address |
| Checkout.CustomerName | src/pages/Checkout.tsx:65 | no white space at either end, and empty exactly when both names are blank |
| Checkout.FullAddress | src/pages/Checkout.tsx:42 | never empty and no white space at either end |
| Checkout.FullAddressOfTrimmed | src/pages/Checkout.tsx:42 | an address and pincode without outer spaces are sent as address, city, state and pincode joined by the separators, unchanged |
| Checkout.CustomerNameOfTrimmed | src/pages/Checkout.tsx:65 | for names without outer spaces, the customer name is first name, space, last name |
| Checkout.PlaceOrder | src/pages/Checkout.tsx:38-88 | ignored exactly when the form is invalid or a submission runs; refused exactly when no line has a variant id; placed exactly when the post succeeds; the cart clears only when placed |
| Checkout.PartialCartStillOrdered | src/pages/Checkout.tsx:45-62 | one orderable item is enough for the order to go out |
| Category.Reset | src/pages/Category.tsx:116-119 | the window returns to 0-500 and the sort to featured |
| Category.WindowPrice | src/pages/Category.tsx:29-31 | the first comma-separated number of the price range, or 0 when it is not a number |
| Category.Arrange | src/pages/Category.tsx:35-56 | a permutation: featured keeps the order, the price sorts are ascending or descending, the name sort follows the given collation; products that tie keep their order under every sort |
| Category.FilteredProducts | src/pages/Category.tsx:26-59 | throws exactly when some product lacks a price range; otherwise it shows exactly the products in the price window, arranged as asked, and products that tie keep their window-filter order |
| Category.PriceHighOrder | src/pages/Category.tsx:42-48 | sorting by the negated price lists prices from high to low, and equal prices keep their listing order |
| Category.PriceLowOrder | src/pages/Category.tsx:36-42 | when every first price parses, the low-to-high listing is shown, each product sorts by its parsed first price, the order ascends, and equal prices keep their listing order |
| Category.FeaturedIsFilter | src/pages/Category.tsx:53-55 | the featured listing is the window filter in the fetched order |
| Search.Results | src/components/SearchDialog.tsx:36-44 | nothing for a blank query; otherwise exactly the products whose name, category or a tag contains the query, ignoring case, in catalogue order |
| Search.ResultsIgnoreCase | src/components/SearchDialog.tsx:39-42 | the query's case does not change the results |
| Search.NameHitIsFound | src/components/SearchDialog.tsx:40 | a product whose name contains the query is found |
| Search.SelectResult | src/components/SearchDialog.tsx:46-50 | choosing a result navigates to the product, closes the dialog and clears the query |
| Search.SelectResultClears | src/components/SearchDialog.tsx:36-50 | after a choice the dialog lists nothing |
| VariantManager.InitialRows | src/components/admin/VariantManager.tsx:22-24 | the editor starts from the product's variants, whatever their number |
| VariantManager.AddVariant | src/components/admin/VariantManager.tsx:26-37 | one blank row with zero price, MRP and stock is appended; the other rows are unchanged |
| VariantManager.KeepOthersSlices | src/components/admin/VariantManager.tsx:40 | dropping index i leaves the rows before i followed by the rows after it |
| VariantManager.RemoveVariant | src/components/admin/VariantManager.tsx:39-43 | an index in range leaves the rows before it followed by the rows after it, one row fewer; any other index changes nothing; the rows reported are the rows kept |
| VariantManager.ApplyEdit | src/components/admin/VariantManager.tsx:48 | an edit sets the named field to the new value and leaves every other field of the row alone |
| VariantManager.UpdateVariant | src/components/admin/VariantManager.tsx:45-54 | only the row at the index changes, and the number of rows is kept |
| VariantManager.NumericInput | src/components/admin/VariantManager.tsx:85 | a field's text becomes the number `parseInt` reads from it, or 0 when it reads none |
| VariantManager.NumericInputOfDigits | src/components/admin/VariantManager.tsx:95 | any string of digits, leading zeros and all, reads back as the decimal number it spells |
| VariantManager.NumericInputNoDigits | src/components/admin/VariantManager.tsx:105 | text without any digit reads as 0 |
| LegacyCatalog.LegacyMap | src/data/products.ts:35-56 | the category is kept as sent or "misc"; one image; variants in backend order; nothing is a bestseller; no spice level reaches the page; a missing description is empty; no origin, shelf life, weight or price range |
| LegacyCatalog.LegacyAgreesWithCurrent | src/data/products.ts:35-56 | against the current client: the same id, name, slug and missing spice level; a sent category lower-cased there; a missing one "misc" here and "pickles" there; the same image when one is sent |
| LegacyCatalog.LegacyVariantsAgreeWithCurrent | src/data/products.ts:45-51 | against the current client: the same variants in backend order apart from id and grams, and there rearranged by price |
| LegacyCatalog.LegacyWeightGramsExamples | src/data/products.ts:46 | "1.5kg" reads as 1 gram here and "kg" as 0 |
| LegacyCatalog.AllProducts | src/data/products.ts:61-64 | a failed fetch fails; otherwise each product is mapped, in order |
| LegacyCatalog.ProductsByCategory | src/data/products.ts:67-72 | exactly the products whose category equals the argument, in catalogue order |
| LegacyCatalog.Bestsellers | src/data/products.ts:75-78 | always empty |
| LegacyCatalog.ProductBySlug | src/data/products.ts:81-86 | the first product with exactly that slug, or none when none has it |
| ServerSlug.ReplaceDoubleUnderscoreStep | srisaikitchen_api/main.py:77 | the first "__", scanning left to right, becomes one hyphen and the rest is replaced on its own |
| ServerSlug.ReplaceDoubleUnderscore | srisaikitchen_api/main.py:77 | the result has no "__", is no longer than the input, and adds no character except the hyphen |
| ServerSlug.ReplaceDoubleUnderscoreNone | srisaikitchen_api/main.py:77 | text without "__" is left as it is |
| ServerSlug.Slugify | srisaikitchen_api/main.py:72-78 | a slug holds no space, no slash, no "__" and no upper-case letter and is no longer than the name; a name without "__" maps character by character, space and slash to a hyphen and letters to lower case |
| ServerSlug.SlugifyIdempotent | srisaikitchen_api/main.py:72-78 | slugifying a slug changes nothing |
| Store.ListProducts | srisaikitchen_api/main.py:58-68 | every product, in table order, each with exactly its own variants |
| Store.GetProduct | srisaikitchen_api/main.py:99-112 | not found exactly when no product has the id; otherwise that product with its variants |
| Store.GetProductBySlug | srisaikitchen_api/main.py:81-95 | not found exactly when no product's name slugifies to the slug; otherwise the first one that does |
| Store.SlugWithSpaceNotFound | srisaikitchen_api/main.py:87-95 | a slug holding a space is never found |
| Store.AdminCreateProduct | srisaikitchen_api/main.py:193-240 | the stored product row holds the next product id and every field sent; one variant row per input entry, in input order, numbered from the next variant id and owned by the new product; both tables only grow, both next ids advance, the order tables and their counters are untouched, and the response is the new product with its variants |
| Store.AdminCreateProductFresh | srisaikitchen_api/main.py:222-240 | in a well-formed database, the response lists exactly the variants sent, in order |
| Store.AdminCreateProductWellFormed | srisaikitchen_api/main.py:211-230 | creation keeps ids unique and every variant owned by a product |
| Store.PatchProduct | srisaikitchen_api/main.py:256-258 | each field sent replaces the stored one, and each field not sent is kept |
| Store.AdminUpdateProduct | srisaikitchen_api/main.py:245-270 | an unknown id is not found; a null name or category fails the NOT NULL column; otherwise only that row is patched; a failure changes nothing |
| Store.AdminUpdateProductOnlyThatRow | srisaikitchen_api/main.py:249-270 | an update keeps the database well formed, keeps the variants, and changes no other product |
| Store.AdminUpdateVariant | srisaikitchen_api/main.py:306-324 | an unknown id is not found; a null weight or price fails; otherwise the sent fields change and nothing else does |
| Store.AdminUpdateVariantWellFormed | srisaikitchen_api/main.py:306-324 | updating a variant keeps ids unique and every variant owned by a product |
| Store.AdminAddVariant | srisaikitchen_api/main.py:279-300 | an unknown product is not found and changes nothing; otherwise one variant with the next id is appended for that product, the next variant id advances, and nothing else changes |
| Store.AdminDeleteVariant | srisaikitchen_api/main.py:328-339 | an unknown id is not found; otherwise exactly the variants with that id are gone and the rest keep their order |
| Store.AdminDeleteVariantWellFormed | srisaikitchen_api/main.py:328-339 | deleting a variant keeps ids unique and every variant owned by a product |
| Store.AdminDeleteProduct | srisaikitchen_api/main.py:344-355 | an unknown id is not found; otherwise the product and all its variants are gone and nothing else is; no other table or counter changes |
| Store.AdminDeleteProductWellFormed | srisaikitchen_api/models.py:16-20 | the cascade leaves no orphan variant and keeps the database well formed |
| Orders.FoundIds | srisaikitchen_api/main.py:123-129 | the keys of `variants_by_id` are exactly the requested ids that name a variant |
| Orders.PassesCheckIff | srisaikitchen_api/main.py:123-132 | the count check passes exactly when every requested id exists and no id repeats |
| Orders.CreateOrder | srisaikitchen_api/main.py:116-166 | a bad request exactly when the count check fails, with nothing changed; otherwise the order and its items are inserted |
| Orders.CreateOrderSnapshot | srisaikitchen_api/main.py:145-153 | the new order takes the next id, and each item keeps the requested variant and quantity at the variant's current price |
| Orders.CreateOrderWellFormed | srisaikitchen_api/main.py:134-155 | creating an order keeps ids unique and every item owned by an order |
| Orders.DuplicateRequestRefused | srisaikitchen_api/main.py:131-132 | as written, one variant ordered in two lines is refused although it exists |
| Orders.CreateOrderCorrected | srisaikitchen_api/main.py:131-132 | with the count taken over distinct ids, an order is accepted exactly when every variant exists |
| Orders.CorrectedCheckIff | srisaikitchen_api/main.py:131-132 | the corrected check passes exactly when every requested id exists |
| Orders.Newest | srisaikitchen_api/main.py:368 | the same orders, with ids descending |
| Orders.Page | srisaikitchen_api/main.py:369-370 | skip `offset` rows and keep at most `limit`, in order |
| Orders.ListOrders | srisaikitchen_api/main.py:359-373 | the page of orders, newest first, each with exactly its own items |
| Orders.ListOrdersPages | srisaikitchen_api/main.py:369-370 | two consecutive pages together are the single page that spans them |
| Orders.ListOrdersStrict | srisaikitchen_api/main.py:368 | in a well-formed database, listed ids strictly descend |
| Sorting.SortBy | src/api/product.ts:35 | a permutation that is sorted by the key |
| Sorting.SortByStable | src/api/product.ts:35 | elements with equal keys keep their relative order |
| Sorting.SortByStableAll | src/pages/Category.tsx:36 | the same, for every key value at once |
| Sorting.SortByStableUnder | src/pages/Category.tsx:43-47 | sorting by one key keeps the order within the classes of any other key that singles out the same elements, as the descending price sort does for equal prices |
| Cross.MappedCheapestIsFirst | src/pages/Product.tsx:22-30 | after mapping, the page's cheapest variant is the first, the tile the selector highlights before any click |
| Cross.CardMatchesLoadedPage | src/components/ProductCard.tsx:18-36 | with variants, the card shows the price the page displays once the product has loaded |
| Cross.PageIngredients | src/pages/Product.tsx:121-129 | the page lists the product's ingredient array unchanged |
| Cross.PageIngredientsOfMapped | src/pages/Product.tsx:121-129 | for a mapped product the page lists what the mapper normalised from the backend; from text, every name is non-empty and holds no comma |
| Cross.CardAndPageDisagree | src/components/ProductCard.tsx:26-33 | without variants and with "300-150", the card shows 150 and the page 300 |
| Cross.CategoryCrashesOnBackendProducts | src/pages/Category.tsx:29 | mapped backend products never carry a price range, so a non-empty category page throws |
| Cross.SlashSlugsDiffer | src/api/product.ts:54 | a name with a slash keeps it in the storefront slug, so that slug differs from the backend's |
| Cross.SlugsAgree | srisaikitchen_api/main.py:72-78 | for a name with no white space, slash or "__", both slugs are the lower-cased name |
| Cross.SpaceRunSlugsDiffer | src/api/product.ts:54 | "a  b" is "a-b" in the storefront and "a--b" in the backend |

## Left out

- Cart persistence in `localStorage` (src/contexts/CartContext.tsx:24-39). This is browser I/O; the cart is a value.
- The `openCart` and `closeCart` toggles. They only flip the drawer flag that `AddToCart` and `ClearCart` already carry.
- HTTP transport, React hooks and effects, toasts and navigation. A fetch is an input value, and a navigation is the path it would open.
- Floating point and `toFixed`. Prices, MRPs and stock are whole numbers.
- Unicode. Lower-casing and white space are ASCII. `localeCompare` in the name sort is the `nameRank` parameter of `Category.Arrange`.
- ProductPage.VariantForCart: the synthetic variant's `weightGrams` is 0, where the source leaves it undefined.
- Category.Arrange: the price sorts treat an unparsable first price as 0, where the source's comparator yields NaN and the order is up to the engine.
- Store.AdminDeleteVariant: does not model the foreign-key refusal that a MySQL database raises when an order item still refers to the variant. It deletes as SQLite does by default.
- Store.AdminDeleteProduct: the same foreign-key refusal is not modelled for the cascaded variants.
- Orders.ListOrders: `limit` and `offset` are natural numbers. Negative values, which SQL would reject or treat specially, are not modelled.
- Orders.ListOrders: the query defaults `limit = 100` and `offset = 0` (srisaikitchen_api/main.py:361-362) are not modelled; the caller always passes both.
- Cart.AddToCart: the source raises the quantity in place on the line object it shares with the previous state (src/contexts/CartContext.tsx:49). The model builds a fresh line; aliasing between React states is not modelled.
- Column limits. `quantity` is a 32-bit `Integer` (srisaikitchen_api/models.py:56), and `name`, `weight` and the other string columns have maximum lengths (srisaikitchen_api/models.py:10, :28). On MySQL in strict mode an out-of-range quantity or an over-long string fails the commit with a 500. The model's integers are unbounded and its strings unlimited, so `Orders.CreateOrder` and `Store.AdminCreateProduct` never return `ServerError` for them. The SQLite option of srisaikitchen_api/database.py does not enforce lengths either.
- Id reuse. Every table hands out ids from a next-id counter that only grows, so a deleted id never comes back; this is MySQL's `AUTO_INCREMENT`. On SQLite, `Column(Integer, primary_key=True)` (srisaikitchen_api/models.py:9, :26) is an alias of the row id without `AUTOINCREMENT`, so a new row gets one more than the largest id present, and the id of a deleted last row is handed out again. That reuse is not modelled. Under it, an old order item's `variant_id` (srisaikitchen_api/main.py:149) could come to refer to a variant created after the order.
- Authentication, CORS, SQLAlchemy sessions and commits (srisaikitchen_api/auth.py, srisaikitchen_api/database.py). Each endpoint is one atomic step.
- The admin dialogs' reconciliation of edited variants against the server (src/components/admin/ProductEditDialog.tsx, src/pages/admin/Products.tsx). This is UI orchestration of the `Store` endpoints already modelled.
- Theme handling, layout and presentational components (src/lib/theme.ts, Header, Footer, Home, Auth, CartSidebar, the admin dashboard).
- The test scripts and the end-to-end test (scripts/, e2e/). They only drive the code modelled here.
- The second copy of the API at backend/main.py. The model follows srisaikitchen_api/main.py.

## Findings

| source | as written | input that shows it | evidently intended | confidence | as-written member | corrected member |
|---|---|---|---|---|---|---|
| srisaikitchen_api/main.py:123-132 | the number of distinct variants found is compared with the number of requested lines, so a repeated variant id fails the check | an order with two lines for the same existing variant, e.g. variant 1 quantity 1 and variant 1 quantity 2 | refuse the order only when some requested variant does not exist | not executed | Orders.DuplicateRequestRefused | Orders.CreateOrderCorrected |
