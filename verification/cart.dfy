/** The client-side shopping cart: a list of lines keyed by (product id, variant label),
    and an open/closed flag for the cart drawer. Every operation is a pure function from
    the old state to the new one; the total and item count are recomputed from the lines. */
module Cart {
  import opened Seqs
  import opened Catalog

  datatype CartState = CartState(items: seq<CartItem>, isOpen: bool)

  /** The empty, closed cart a page load starts from. */
  const EmptyCart: CartState := CartState([], false)

  /** A line is identified by its product id and the label of its variant. */
  predicate HasKey(item: CartItem, productId: string, sizeLabel: string) {
    item.product.id == productId && item.variant.sizeLabel == sizeLabel
  }

  predicate SameKey(a: CartItem, b: CartItem) {
    HasKey(a, b.product.id, b.variant.sizeLabel)
  }

  function KeyIs(productId: string, sizeLabel: string): CartItem -> bool {
    (it: CartItem) => HasKey(it, productId, sizeLabel)
  }

  function KeyIsNot(productId: string, sizeLabel: string): CartItem -> bool {
    (it: CartItem) => !HasKey(it, productId, sizeLabel)
  }

  /** No two lines share a key. */
  predicate DistinctKeys(items: seq<CartItem>) {
    forall i, j :: 0 <= i < j < |items| ==> !SameKey(items[i], items[j])
  }

  /** The position of the first line with the given key, or -1. */
  function LineIndex(items: seq<CartItem>, productId: string, sizeLabel: string): (r: int)
    ensures -1 <= r < |items|
    ensures r == -1 <==> forall j :: 0 <= j < |items| ==> !HasKey(items[j], productId, sizeLabel)
    ensures r >= 0 ==> HasKey(items[r], productId, sizeLabel)
    ensures r >= 0 ==> forall j :: 0 <= j < r ==> !HasKey(items[j], productId, sizeLabel)
  {
    FindIndex(items, KeyIs(productId, sizeLabel))
  }

  function LineTotal(item: CartItem): int {
    item.variant.price * item.quantity
  }

  /** `items.reduce((sum, item) => sum + item.variant.price * item.quantity, 0)`: an empty
      cart totals 0, and lines with no negative price or quantity never total below 0. */
  function Total(items: seq<CartItem>): (r: int)
    ensures |items| == 0 ==> r == 0
    ensures (forall k :: 0 <= k < |items| ==> items[k].variant.price >= 0 && items[k].quantity >= 0) ==> r >= 0
  {
    if |items| == 0 then 0 else LineTotal(items[0]) + Total(items[1..])
  }

  /** `items.reduce((sum, item) => sum + item.quantity, 0)`: lines of at least one unit each
      count at least one item per line. */
  function ItemCount(items: seq<CartItem>): (r: int)
    ensures |items| == 0 ==> r == 0
    ensures (forall k :: 0 <= k < |items| ==> items[k].quantity >= 1) ==> r >= |items|
  {
    if |items| == 0 then 0 else items[0].quantity + ItemCount(items[1..])
  }

  /** `addToCart`: a line with the same key absorbs the quantity and keeps its own product
      and variant snapshot; otherwise a new line is appended. The drawer always opens. The
      quantity is not checked here: callers pass what they have. */
  function AddToCart(c: CartState, product: Product, variant: Variant, quantity: int): (r: CartState)
    ensures r.isOpen
    ensures LineIndex(c.items, product.id, variant.sizeLabel) == -1 ==>
      r.items == c.items + [CartItem(product, variant, quantity)]
    ensures var i := LineIndex(c.items, product.id, variant.sizeLabel);
      i >= 0 ==>
        |r.items| == |c.items|
        && r.items[i] == c.items[i].(quantity := c.items[i].quantity + quantity)
        && forall j :: 0 <= j < |c.items| && j != i ==> r.items[j] == c.items[j]
  {
    var i := LineIndex(c.items, product.id, variant.sizeLabel);
    if i > -1 then
      var line := c.items[i];
      CartState(c.items[i := line.(quantity := line.quantity + quantity)], true)
    else
      CartState(c.items + [CartItem(product, variant, quantity)], true)
  }

  /** `removeFromCart`: drops every line with the key; the others keep their order. */
  function RemoveFromCart(c: CartState, productId: string, sizeLabel: string): (r: CartState)
    ensures r.isOpen == c.isOpen
    ensures forall x :: x in r.items <==> x in c.items && !HasKey(x, productId, sizeLabel)
    ensures IsSubsequence(r.items, c.items)
  {
    FilterIsSubsequence(c.items, KeyIsNot(productId, sizeLabel));
    c.(items := Filter(c.items, KeyIsNot(productId, sizeLabel)))
  }

  /** `updateQuantity`: a quantity of zero or less removes the key; otherwise every line with
      the key gets the new quantity. */
  function UpdateQuantity(c: CartState, productId: string, sizeLabel: string, quantity: int): (r: CartState)
    ensures r.isOpen == c.isOpen
    ensures quantity > 0 ==> |r.items| == |c.items|
    ensures quantity > 0 ==> forall j :: 0 <= j < |c.items| ==>
      r.items[j] == (if HasKey(c.items[j], productId, sizeLabel) then c.items[j].(quantity := quantity) else c.items[j])
  {
    if quantity <= 0 then RemoveFromCart(c, productId, sizeLabel)
    else
      var items := seq(|c.items|, j requires 0 <= j < |c.items| =>
        if HasKey(c.items[j], productId, sizeLabel) then c.items[j].(quantity := quantity) else c.items[j]);
      c.(items := items)
  }

  /** `clearCart`. */
  function ClearCart(c: CartState): (r: CartState)
    ensures r.items == [] && r.isOpen == c.isOpen
  {
    c.(items := [])
  }

  // ---------------------------------------------------------------------------------
  // Sums

  lemma {:induction false} SumsAppend(s: seq<CartItem>, x: CartItem)
    ensures ItemCount(s + [x]) == ItemCount(s) + x.quantity
    ensures Total(s + [x]) == Total(s) + LineTotal(x)
    decreases |s|
  {
    if |s| > 0 {
      SumsAppend(s[1..], x);
      assert (s + [x])[1..] == s[1..] + [x];
    }
  }

  lemma {:induction false} SumsUpdate(s: seq<CartItem>, i: nat, x: CartItem)
    requires i < |s|
    ensures ItemCount(s[i := x]) == ItemCount(s) - s[i].quantity + x.quantity
    ensures Total(s[i := x]) == Total(s) - LineTotal(s[i]) + LineTotal(x)
    decreases |s|
  {
    if i > 0 {
      SumsUpdate(s[1..], i - 1, x);
      assert s[i := x][1..] == s[1..][i - 1 := x];
    } else {
      assert s[i := x][1..] == s[1..];
    }
  }

  /** Adding `quantity` raises the item count by exactly `quantity`, and the total by the
      price of the line that receives it times `quantity`: the price of the line already in
      the cart on a merge, the new variant's price otherwise. */
  lemma AddToCartSums(c: CartState, product: Product, variant: Variant, quantity: int)
    ensures var r := AddToCart(c, product, variant, quantity);
      var i := LineIndex(c.items, product.id, variant.sizeLabel);
      var price := if i >= 0 then c.items[i].variant.price else variant.price;
      ItemCount(r.items) == ItemCount(c.items) + quantity
      && Total(r.items) == Total(c.items) + price * quantity
  {
    var r := AddToCart(c, product, variant, quantity);
    var i := LineIndex(c.items, product.id, variant.sizeLabel);
    if i >= 0 {
      var line := c.items[i];
      var merged := line.(quantity := line.quantity + quantity);
      assert r.items == c.items[i := merged];
      SumsUpdate(c.items, i, merged);
      MergedLineTotal(line, quantity);
    } else {
      var added := CartItem(product, variant, quantity);
      assert r.items == c.items + [added];
      SumsAppend(c.items, added);
      assert LineTotal(added) == variant.price * quantity;
    }
  }

  lemma Distribute(a: int, b: int, c: int)
    ensures a * (b + c) == a * b + a * c
  {
  }

  /** A line that absorbs `quantity` more units grows by that many times its price. */
  lemma MergedLineTotal(line: CartItem, quantity: int)
    ensures LineTotal(line.(quantity := line.quantity + quantity)) == LineTotal(line) + line.variant.price * quantity
  {
    var a, b := line.variant.price, line.quantity;
    assert LineTotal(line.(quantity := b + quantity)) == a * (b + quantity);
    Distribute(a, b, quantity);
  }

  lemma {:induction false} DistinctTail(items: seq<CartItem>)
    requires |items| > 0 && DistinctKeys(items)
    ensures DistinctKeys(items[1..])
    ensures forall j :: 0 <= j < |items[1..]| ==> !SameKey(items[0], items[1..][j])
  {
    forall j | 0 <= j < |items[1..]| ensures !SameKey(items[0], items[1..][j]) {
      assert items[1..][j] == items[j + 1];
    }
  }

  /** With distinct keys, removing a key lowers the item count and the total by exactly the
      one line that had it, or not at all. */
  lemma RemoveFromCartSums(c: CartState, productId: string, sizeLabel: string)
    requires DistinctKeys(c.items)
    ensures var r := RemoveFromCart(c, productId, sizeLabel);
      var i := LineIndex(c.items, productId, sizeLabel);
      ItemCount(r.items) == ItemCount(c.items) - (if i >= 0 then c.items[i].quantity else 0)
      && Total(r.items) == Total(c.items) - (if i >= 0 then LineTotal(c.items[i]) else 0)
  {
    var i := LineIndex(c.items, productId, sizeLabel);
    if i >= 0 {
      FilterSumsFound(c.items, productId, sizeLabel);
    } else {
      FilterKeepsAll(c.items, KeyIsNot(productId, sizeLabel));
    }
  }

  /** Dropping the one line with a key takes its quantity and line total off the sums. */
  lemma {:induction false} FilterSumsFound(s: seq<CartItem>, productId: string, sizeLabel: string)
    requires DistinctKeys(s) && LineIndex(s, productId, sizeLabel) >= 0
    ensures var i := LineIndex(s, productId, sizeLabel);
      var f := Filter(s, KeyIsNot(productId, sizeLabel));
      ItemCount(f) == ItemCount(s) - s[i].quantity && Total(f) == Total(s) - LineTotal(s[i])
    decreases |s|
  {
    var keep := KeyIsNot(productId, sizeLabel);
    var i := LineIndex(s, productId, sizeLabel);
    var f := Filter(s, keep);
    DistinctTail(s);
    if HasKey(s[0], productId, sizeLabel) {
      assert i == 0;
      assert f == s[1..] by {
        forall k | 0 <= k < |s[1..]| ensures keep(s[1..][k]) {
          assert !SameKey(s[0], s[1..][k]);
        }
        FilterKeepsAll(s[1..], keep);
      }
    } else {
      var i' := LineIndex(s[1..], productId, sizeLabel);
      assert i' >= 0 && i == i' + 1 by {
        assert s[1..][i - 1] == s[i];
      }
      assert s[1..][i'] == s[i];
      assert f == [s[0]] + Filter(s[1..], keep);
      FilterSumsFound(s[1..], productId, sizeLabel);
    }
  }

  /** With distinct keys, a positive update replaces the quantity of the one line with the
      key: the count and the total move by the difference. */
  lemma UpdateQuantitySums(c: CartState, productId: string, sizeLabel: string, quantity: int)
    requires DistinctKeys(c.items) && quantity > 0
    ensures var r := UpdateQuantity(c, productId, sizeLabel, quantity);
      var i := LineIndex(c.items, productId, sizeLabel);
      (i == -1 ==> r.items == c.items)
      && (i >= 0 ==>
        ItemCount(r.items) == ItemCount(c.items) - c.items[i].quantity + quantity
        && Total(r.items) == Total(c.items) - LineTotal(c.items[i]) + c.items[i].variant.price * quantity)
  {
    var r := UpdateQuantity(c, productId, sizeLabel, quantity);
    var i := LineIndex(c.items, productId, sizeLabel);
    if i >= 0 {
      var u := c.items[i := c.items[i].(quantity := quantity)];
      forall j | 0 <= j < |c.items| ensures r.items[j] == u[j] {
        if j != i && HasKey(c.items[j], productId, sizeLabel) {
          assert false;
        }
      }
      assert r.items == u;
      SumsUpdate(c.items, i, c.items[i].(quantity := quantity));
    } else {
      assert r.items == c.items;
    }
  }

  /** A non-positive update is exactly a removal. */
  lemma UpdateNonPositiveIsRemove(c: CartState, productId: string, sizeLabel: string, quantity: int)
    requires quantity <= 0
    ensures UpdateQuantity(c, productId, sizeLabel, quantity) == RemoveFromCart(c, productId, sizeLabel)
  {
  }

  /** After clearing, the total and item count are both 0. */
  lemma ClearCartSums(c: CartState)
    ensures Total(ClearCart(c).items) == 0 && ItemCount(ClearCart(c).items) == 0
  {
  }

  // ---------------------------------------------------------------------------------
  // Key uniqueness

  /** Adding keeps keys distinct: a merge changes no key, and an append only happens for a
      key not yet in the cart. */
  lemma AddToCartKeepsDistinct(c: CartState, product: Product, variant: Variant, quantity: int)
    requires DistinctKeys(c.items)
    ensures DistinctKeys(AddToCart(c, product, variant, quantity).items)
  {
    var r := AddToCart(c, product, variant, quantity);
    var i := LineIndex(c.items, product.id, variant.sizeLabel);
    if i >= 0 {
      forall a, b | 0 <= a < b < |r.items| ensures !SameKey(r.items[a], r.items[b]) {
        assert !SameKey(c.items[a], c.items[b]);
      }
    } else {
      forall a, b | 0 <= a < b < |r.items| ensures !SameKey(r.items[a], r.items[b]) {
        if b == |c.items| {
          assert !HasKey(c.items[a], product.id, variant.sizeLabel);
        } else {
          assert !SameKey(c.items[a], c.items[b]);
        }
      }
    }
  }

  lemma {:induction false} SubsequenceKeepsDistinct(a: seq<CartItem>, b: seq<CartItem>)
    requires IsSubsequence(a, b) && DistinctKeys(b)
    ensures DistinctKeys(a)
    decreases |b|
  {
    if |a| > 0 {
      DistinctTail(b);
      if a[0] == b[0] && IsSubsequence(a[1..], b[1..]) {
        SubsequenceKeepsDistinct(a[1..], b[1..]);
        SubsequenceMembers(a[1..], b[1..]);
        forall x, y | 0 <= x < y < |a| ensures !SameKey(a[x], a[y]) {
          if x == 0 {
            assert a[y] == a[1..][y - 1];
            assert a[y] in b[1..];
          } else {
            assert a[x] == a[1..][x - 1] && a[y] == a[1..][y - 1];
          }
        }
      } else {
        SubsequenceKeepsDistinct(a, b[1..]);
      }
    }
  }

  /** Removing keeps keys distinct, and the key is gone afterwards. */
  lemma RemoveFromCartKeepsDistinct(c: CartState, productId: string, sizeLabel: string)
    requires DistinctKeys(c.items)
    ensures DistinctKeys(RemoveFromCart(c, productId, sizeLabel).items)
    ensures LineIndex(RemoveFromCart(c, productId, sizeLabel).items, productId, sizeLabel) == -1
  {
    var r := RemoveFromCart(c, productId, sizeLabel);
    SubsequenceKeepsDistinct(r.items, c.items);
    assert forall j :: 0 <= j < |r.items| ==> r.items[j] in r.items;
  }

  /** Updating keeps keys distinct: quantities change, keys do not. */
  lemma UpdateQuantityKeepsDistinct(c: CartState, productId: string, sizeLabel: string, quantity: int)
    requires DistinctKeys(c.items)
    ensures DistinctKeys(UpdateQuantity(c, productId, sizeLabel, quantity).items)
  {
    if quantity <= 0 {
      RemoveFromCartKeepsDistinct(c, productId, sizeLabel);
    } else {
      var r := UpdateQuantity(c, productId, sizeLabel, quantity);
      forall a, b | 0 <= a < b < |r.items| ensures !SameKey(r.items[a], r.items[b]) {
        assert !SameKey(c.items[a], c.items[b]);
      }
    }
  }

  // ---------------------------------------------------------------------------------
  // Examples

  /** Adding the same product and size twice gives one line holding both quantities. */
  lemma AddTwiceMerges(product: Product, variant: Variant)
    ensures var c := AddToCart(AddToCart(EmptyCart, product, variant, 2), product, variant, 3);
      c.items == [CartItem(product, variant, 5)] && c.isOpen
  {
    var c1 := AddToCart(EmptyCart, product, variant, 2);
    assert c1.items == [CartItem(product, variant, 2)];
    assert LineIndex(c1.items, product.id, variant.sizeLabel) == 0;
  }

  /** Two lines at 100 x 2 and 50 x 1 give a total of 250 and an item count of 3. */
  lemma SumsExample(a: CartItem, b: CartItem)
    requires a.variant.price == 100 && a.quantity == 2
    requires b.variant.price == 50 && b.quantity == 1
    ensures Total([a, b]) == 250 && ItemCount([a, b]) == 3
  {
    assert [a, b][1..] == [b];
    assert [b][1..] == [];
    assert Total([b]) == 50 && ItemCount([b]) == 1;
  }
}
