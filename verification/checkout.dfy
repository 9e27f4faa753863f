/** The checkout page: when the form may be submitted, how cart lines become order lines,
    the request body, and what placing the order does to the cart. The network call is a
    parameter: whether the post succeeds. */
module Checkout {
  import opened Text
  import opened Catalog
  import opened Cart

  datatype CheckoutForm = CheckoutForm(
    firstName: string,
    lastName: string,
    email: string,
    phone: string,
    address: string,
    city: string,
    state: string,
    pincode: string)

  /** The form the page opens with: demo name and email, everything else empty. */
  const DemoForm: CheckoutForm := CheckoutForm("John", "Doe", "john@example.com", "", "", "", "", "")

  /** Seven fields must be non-blank and the cart must hold a line; the email is free. */
  predicate IsFormValid(f: CheckoutForm, c: CartState) {
    Trim(f.firstName) != [] && Trim(f.lastName) != [] && Trim(f.phone) != []
    && Trim(f.address) != [] && Trim(f.city) != [] && Trim(f.state) != []
    && Trim(f.pincode) != [] && |c.items| > 0
  }

  /** Validity is "no required field is only white space": it does not depend on the email
      at all. */
  lemma FormValidity(f: CheckoutForm, c: CartState, email: string)
    ensures IsFormValid(f, c) <==>
      !AllSpace(f.firstName) && !AllSpace(f.lastName) && !AllSpace(f.phone) && !AllSpace(f.address)
      && !AllSpace(f.city) && !AllSpace(f.state) && !AllSpace(f.pincode) && c.items != []
    ensures IsFormValid(f, c) == IsFormValid(f.(email := email), c)
  {
  }

  /** The page never opens submittable: the demo form has no phone. */
  lemma DemoFormInvalid(c: CartState)
    ensures !IsFormValid(DemoForm, c)
  {
    assert AllSpace(DemoForm.phone);
  }

  /** `{ variant_id, quantity }` as the backend expects it. */
  datatype OrderLine = OrderLine(variantId: nat, quantity: int)

  /** A line can be ordered only if its variant carries a backend id other than 0. */
  predicate Orderable(item: CartItem) {
    item.variant.id.Some? && item.variant.id.value != 0
  }

  /** The cart lines in order, mapped to order lines; lines without a usable variant id are
      dropped. */
  function OrderItems(items: seq<CartItem>): (r: seq<OrderLine>)
    ensures |r| <= |items|
    ensures forall k :: 0 <= k < |r| ==> r[k].variantId > 0
  {
    if |items| == 0 then []
    else if Orderable(items[0]) then
      [OrderLine(items[0].variant.id.value, items[0].quantity)] + OrderItems(items[1..])
    else OrderItems(items[1..])
  }

  /** Every order line comes from an orderable cart line with the same id and quantity, and
      every orderable cart line gives one. */
  lemma {:induction false} OrderItemsMembers(items: seq<CartItem>, line: OrderLine)
    ensures line in OrderItems(items) <==>
      exists k :: 0 <= k < |items| && Orderable(items[k])
                  && line == OrderLine(items[k].variant.id.value, items[k].quantity)
    decreases |items|
  {
    if |items| > 0 {
      OrderItemsMembers(items[1..], line);
      if exists k :: 0 <= k < |items[1..]| && Orderable(items[1..][k])
                     && line == OrderLine(items[1..][k].variant.id.value, items[1..][k].quantity) {
        var k :| 0 <= k < |items[1..]| && Orderable(items[1..][k])
                 && line == OrderLine(items[1..][k].variant.id.value, items[1..][k].quantity);
        assert items[k + 1] == items[1..][k];
      }
      if exists k :: 0 <= k < |items| && Orderable(items[k])
                     && line == OrderLine(items[k].variant.id.value, items[k].quantity) {
        var k :| 0 <= k < |items| && Orderable(items[k])
                 && line == OrderLine(items[k].variant.id.value, items[k].quantity);
        if k > 0 {
          assert items[1..][k - 1] == items[k];
        }
      }
    }
  }

  /** When every line has an id, nothing is dropped and the order follows the cart. */
  lemma {:induction false} OrderItemsAllOrderable(items: seq<CartItem>)
    requires forall k :: 0 <= k < |items| ==> Orderable(items[k])
    ensures |OrderItems(items)| == |items|
    ensures forall k :: 0 <= k < |items| ==>
      Orderable(items[k]) && OrderItems(items)[k] == OrderLine(items[k].variant.id.value, items[k].quantity)
    decreases |items|
  {
    if |items| > 0 {
      OrderItemsAllOrderable(items[1..]);
      forall k | 0 <= k < |items| ensures
        Orderable(items[k]) && OrderItems(items)[k] == OrderLine(items[k].variant.id.value, items[k].quantity)
      {
        if k > 0 {
          assert OrderItems(items)[k] == OrderItems(items[1..])[k - 1];
          assert items[1..][k - 1] == items[k];
        }
      }
    }
  }

  /** The lines of two carts put together are the first cart's lines, then the second's:
      with `OrderItemsOne` this fixes the payload line by line, in cart order. */
  lemma {:induction false} OrderItemsAppend(a: seq<CartItem>, b: seq<CartItem>)
    ensures OrderItems(a + b) == OrderItems(a) + OrderItems(b)
    decreases |a|
  {
    if |a| == 0 {
      assert a + b == b;
    } else {
      assert (a + b)[0] == a[0];
      assert (a + b)[1..] == a[1..] + b;
      OrderItemsAppend(a[1..], b);
    }
  }

  /** One cart line gives its order line when it is orderable, and nothing otherwise. */
  lemma OrderItemsOne(item: CartItem)
    ensures Orderable(item) ==> OrderItems([item]) == [OrderLine(item.variant.id.value, item.quantity)]
    ensures !Orderable(item) ==> OrderItems([item]) == []
  {
    assert [item][1..] == [];
  }

  /** Nothing is left exactly when no line is orderable. */
  lemma {:induction false} OrderItemsEmpty(items: seq<CartItem>)
    ensures OrderItems(items) == [] <==> forall k :: 0 <= k < |items| ==> !Orderable(items[k])
    decreases |items|
  {
    if |items| > 0 {
      OrderItemsEmpty(items[1..]);
      assert forall k :: 1 <= k < |items| ==> items[k] == items[1..][k - 1];
    }
  }

  /** The request body. */
  datatype OrderPayload = OrderPayload(
    customerName: string,
    phone: string,
    address: string,
    paymentMethod: string,
    items: seq<OrderLine>)

  /** `${firstName} ${lastName}`.trim(): no white space at either end, and empty only when
      both names are blank. */
  function CustomerName(f: CheckoutForm): (r: string)
    ensures r == [] || (!IsSpace(r[0]) && !IsSpace(r[|r| - 1]))
    ensures r == [] <==> AllSpace(f.firstName) && AllSpace(f.lastName)
  {
    var s := f.firstName + " " + f.lastName;
    assert AllSpace(s) <==> AllSpace(f.firstName) && AllSpace(f.lastName) by {
      assert forall k :: 0 <= k < |f.firstName| ==> s[k] == f.firstName[k];
      assert forall k :: 0 <= k < |f.lastName| ==> s[|f.firstName| + 1 + k] == f.lastName[k];
    }
    Trim(s)
  }

  /** `${address}, ${city}, ${state} - ${pincode}`.trim(): no white space at either end, and
      never empty, since the separators hold commas. */
  function FullAddress(f: CheckoutForm): (r: string)
    ensures r != [] && !IsSpace(r[0]) && !IsSpace(r[|r| - 1])
  {
    var s := f.address + ", " + f.city + ", " + f.state + " - " + f.pincode;
    assert s[|f.address|] == ',';
    Trim(s)
  }

  /** The request body: the trimmed full name and full address, the phone as typed, cash
      on delivery, and the order lines. */
  function BuildPayload(f: CheckoutForm, items: seq<OrderLine>): (r: OrderPayload)
    ensures r.paymentMethod == "COD" && r.items == items && r.phone == f.phone
    ensures r.customerName == CustomerName(f) && r.address == FullAddress(f)
  {
    OrderPayload(CustomerName(f), f.phone, FullAddress(f), "COD", items)
  }

  /** An address and a pincode with no white space at their outer ends are sent joined by
      the separators, unchanged. */
  lemma FullAddressOfTrimmed(f: CheckoutForm)
    requires f.address != [] && !IsSpace(f.address[0])
    requires f.pincode != [] && !IsSpace(f.pincode[|f.pincode| - 1])
    ensures FullAddress(f) == f.address + ", " + f.city + ", " + f.state + " - " + f.pincode
  {
    var s := f.address + ", " + f.city + ", " + f.state + " - " + f.pincode;
    assert s[0] == f.address[0];
    assert s[|s| - 1] == f.pincode[|f.pincode| - 1];
    TrimOfTrimmed(s);
  }

  /** Names with no white space at their ends are sent joined by a single space. */
  lemma CustomerNameOfTrimmed(f: CheckoutForm)
    requires f.firstName != [] && !IsSpace(f.firstName[0])
    requires f.lastName != [] && !IsSpace(f.lastName[|f.lastName| - 1])
    ensures CustomerName(f) == f.firstName + " " + f.lastName
  {
    var s := f.firstName + " " + f.lastName;
    assert s[0] == f.firstName[0];
    assert s[|s| - 1] == f.lastName[|f.lastName| - 1];
    TrimOfTrimmed(s);
  }

  /** What happens when "Place order" is pressed. */
  datatype PlaceOutcome =
    | Ignored
    | MissingVariantIds
    | Placed(payload: OrderPayload)
    | Failed(payload: OrderPayload)

  /** `handlePlaceOrder`, with the post's success as an input. The cart is cleared only after
      a successful post. */
  function PlaceOrder(f: CheckoutForm, submitting: bool, c: CartState, postSucceeds: bool): (r: (PlaceOutcome, CartState))
    ensures r.0.Ignored? <==> !IsFormValid(f, c) || submitting
    ensures r.0.MissingVariantIds? <==> IsFormValid(f, c) && !submitting && OrderItems(c.items) == []
    ensures r.0.Placed? <==> IsFormValid(f, c) && !submitting && OrderItems(c.items) != [] && postSucceeds
    ensures (r.0.Placed? || r.0.Failed?) ==>
      r.0.payload == BuildPayload(f, OrderItems(c.items)) && r.0.payload.items != []
    ensures r.0.Placed? ==> r.1 == ClearCart(c)
    ensures !r.0.Placed? ==> r.1 == c
  {
    if !IsFormValid(f, c) || submitting then (Ignored, c)
    else
      var items := OrderItems(c.items);
      if |items| == 0 then (MissingVariantIds, c)
      else
        var payload := BuildPayload(f, items);
        if postSucceeds then (Placed(payload), ClearCart(c)) else (Failed(payload), c)
  }

  /** A cart that has at least one line with an id is never refused for missing ids: the
      lines that have one are sent. */
  lemma PartialCartStillOrdered(f: CheckoutForm, c: CartState, postSucceeds: bool, k: nat)
    requires IsFormValid(f, c)
    requires k < |c.items| && Orderable(c.items[k])
    ensures !PlaceOrder(f, false, c, postSucceeds).0.MissingVariantIds?
  {
    OrderItemsEmpty(c.items);
  }
}
