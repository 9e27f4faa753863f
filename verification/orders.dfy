/** Placing an order and listing orders. An order is accepted only if its variant check
    passes; each item then copies its quantity and takes its price from the variant. */
module Orders {
  import opened Wrappers
  import opened Seqs
  import opened Sorting
  import opened Store

  datatype ItemIn = ItemIn(variantId: int, quantity: int)

  datatype OrderCreate = OrderCreate(
    customerName: string,
    phone: string,
    address: string,
    paymentMethod: string,
    items: seq<ItemIn>)

  /** An order with its items, in table order: `schemas.Order`. */
  datatype OrderOut = OrderOut(order: DbOrder, items: seq<DbOrderItem>)

  function ItemOf(orderId: nat): DbOrderItem -> bool {
    (it: DbOrderItem) => it.orderId == orderId
  }

  function WithItems(db: Db, o: DbOrder): (r: OrderOut)
    ensures r.order == o
    ensures forall it :: it in r.items <==> it in db.orderItems && it.orderId == o.id
  {
    OrderOut(o, Filter(db.orderItems, ItemOf(o.id)))
  }

  predicate VariantExists(db: Db, id: int) {
    id >= 0 && HasVariant(db, id)
  }

  function RequestedIds(items: seq<ItemIn>): (r: seq<int>)
    ensures |r| == |items| && forall k :: 0 <= k < |items| ==> r[k] == items[k].variantId
  {
    seq(|items|, k requires 0 <= k < |items| => items[k].variantId)
  }

  function Elems(s: seq<int>): set<int> {
    set x | x in s
  }

  /** The keys of `variants_by_id`: requested ids that name a stored variant, each once. */
  function FoundIds(db: Db, ids: seq<int>): (r: set<int>)
    ensures r <= Elems(ids)
    ensures forall x :: x in r <==> x in ids && VariantExists(db, x)
  {
    set x | x in ids && VariantExists(db, x)
  }

  predicate Distinct(s: seq<int>) {
    forall i, j :: 0 <= i < j < |s| ==> s[i] != s[j]
  }

  /** A sequence has at most as many distinct elements as entries, and exactly as many
      when no entry repeats. */
  lemma {:induction false} ElemsCard(s: seq<int>)
    ensures |Elems(s)| <= |s|
    ensures |Elems(s)| == |s| <==> Distinct(s)
    decreases |s|
  {
    if |s| > 0 {
      var t := s[1..];
      ElemsCard(t);
      ElemsCons(s);
      DistinctCons(s);
      if s[0] in t {
        assert Elems(s) == Elems(t);
      } else {
        assert |Elems(s)| == 1 + |Elems(t)|;
      }
    } else {
      assert Elems(s) == {};
    }
  }

  lemma ElemsCons(s: seq<int>)
    requires |s| > 0
    ensures Elems(s) == {s[0]} + Elems(s[1..])
  {
    forall x ensures x in Elems(s) <==> x in {s[0]} + Elems(s[1..]) {
      assert x in s <==> x == s[0] || x in s[1..] by {
        assert s == [s[0]] + s[1..];
      }
    }
  }

  lemma DistinctCons(s: seq<int>)
    requires |s| > 0
    ensures Distinct(s) <==> s[0] !in s[1..] && Distinct(s[1..])
  {
    var t := s[1..];
    if s[0] in t {
      var j :| 0 <= j < |t| && t[j] == s[0];
      assert s[0] == s[j + 1];
    } else if Distinct(t) {
      forall i, j | 0 <= i < j < |s| ensures s[i] != s[j] {
        if i == 0 {
          assert s[j] == t[j - 1];
        } else {
          assert s[i] == t[i - 1] && s[j] == t[j - 1];
        }
      }
    } else {
      var i, j :| 0 <= i < j < |t| && t[i] == t[j];
      assert s[i + 1] == s[j + 1];
    }
  }

  /** The check in `create_order`: as many found ids as requested entries. */
  predicate PassesCheck(db: Db, items: seq<ItemIn>) {
    |FoundIds(db, RequestedIds(items))| == |items|
  }

  predicate AllExist(db: Db, items: seq<ItemIn>) {
    forall k :: 0 <= k < |items| ==> VariantExists(db, items[k].variantId)
  }

  /** The check passes exactly when every requested variant exists and no variant is
      requested twice. */
  lemma PassesCheckIff(db: Db, items: seq<ItemIn>)
    ensures PassesCheck(db, items) <==> AllExist(db, items) && Distinct(RequestedIds(items))
  {
    var ids := RequestedIds(items);
    var found := FoundIds(db, ids);
    ElemsCard(ids);
    if AllExist(db, items) {
      assert found == Elems(ids);
    } else {
      var k :| 0 <= k < |items| && !VariantExists(db, items[k].variantId);
      assert ids[k] in Elems(ids) && ids[k] !in found;
      ProperSubsetCard(found, Elems(ids), ids[k]);
    }
  }

  lemma ProperSubsetCard(a: set<int>, b: set<int>, x: int)
    requires a <= b && x in b && x !in a
    ensures |a| < |b|
  {
    var d := b - a;
    assert x in d;
    assert |d| > 0;
    assert b == a + d;
    assert a * d == {};
  }

  function PriceOf(db: Db, id: int): (r: int)
    requires VariantExists(db, id)
    ensures exists j :: 0 <= j < |db.variants| && db.variants[j].id == id && db.variants[j].price == r
  {
    db.variants[VariantIndex(db, id)].price
  }

  /** The item rows of a new order: one per requested entry, numbered from `firstId`. */
  function NewItems(db: Db, items: seq<ItemIn>, orderId: nat, firstId: nat): (r: seq<DbOrderItem>)
    requires AllExist(db, items)
    ensures |r| == |items|
    ensures forall k :: 0 <= k < |items| ==>
      r[k] == DbOrderItem(firstId + k, orderId, items[k].variantId, items[k].quantity, PriceOf(db, items[k].variantId))
  {
    seq(|items|, k requires 0 <= k < |items| =>
      DbOrderItem(firstId + k, orderId, items[k].variantId, items[k].quantity, PriceOf(db, items[k].variantId)))
  }

  /** The order row and its items, once the request has been accepted. */
  function Insert(db: Db, input: OrderCreate): (r: (Db, OrderOut))
    requires AllExist(db, input.items)
    ensures r.0.products == db.products && r.0.variants == db.variants
    ensures r.0.orders == db.orders + [r.1.order]
    ensures r.1.order == DbOrder(db.nextOrderId, input.customerName, input.phone, input.address, input.paymentMethod)
    ensures r.0.orderItems == db.orderItems + NewItems(db, input.items, db.nextOrderId, db.nextItemId)
    ensures r.1 == WithItems(r.0, r.1.order)
  {
    var o := DbOrder(db.nextOrderId, input.customerName, input.phone, input.address, input.paymentMethod);
    var added := NewItems(db, input.items, o.id, db.nextItemId);
    var db' := db.(orders := db.orders + [o],
                   orderItems := db.orderItems + added,
                   nextOrderId := db.nextOrderId + 1,
                   nextItemId := db.nextItemId + |added|);
    (db', WithItems(db', o))
  }

  /** `create_order` as written: 400 unless the check passes, else the order and its items
      with each price taken from the variant. */
  function CreateOrder(db: Db, input: OrderCreate): (r: (Db, Response<OrderOut>))
    ensures r.1.Ok? || r.1.BadRequest?
    ensures r.1.BadRequest? <==> !PassesCheck(db, input.items)
    ensures r.1.BadRequest? ==> r.0 == db
    ensures r.1.Ok? ==> AllExist(db, input.items) && (r.0, r.1.value) == Insert(db, input)
  {
    PassesCheckIff(db, input.items);
    if !PassesCheck(db, input.items) then (db, BadRequest)
    else
      var ins := Insert(db, input);
      (ins.0, Ok(ins.1))
  }

  /** An accepted order has exactly its requested items, each with the requested quantity
      and the variant's current price, on well-formed tables. */
  lemma CreateOrderSnapshot(db: Db, input: OrderCreate)
    requires WellFormed(db)
    requires CreateOrder(db, input).1.Ok?
    ensures var out := CreateOrder(db, input).1.value;
      out.order.id == db.nextOrderId
      && |out.items| == |input.items|
      && forall k :: 0 <= k < |input.items| ==>
        out.items[k].variantId == input.items[k].variantId
        && out.items[k].quantity == input.items[k].quantity
        && out.items[k].price == PriceOf(db, input.items[k].variantId)
  {
    NoItemOfFreshOrder(db);
    InsertReportsNewItems(db, input);
  }

  lemma InsertReportsNewItems(db: Db, input: OrderCreate)
    requires AllExist(db, input.items)
    requires Filter(db.orderItems, ItemOf(db.nextOrderId)) == []
    ensures Insert(db, input).1.items == NewItems(db, input.items, db.nextOrderId, db.nextItemId)
  {
    var added := NewItems(db, input.items, db.nextOrderId, db.nextItemId);
    var ins := Insert(db, input);
    assert ins.1.items == Filter(db.orderItems + added, ItemOf(db.nextOrderId));
    FilterKeepsAll(added, ItemOf(db.nextOrderId));
    FilterAppend(db.orderItems, added, ItemOf(db.nextOrderId));
  }

  /** On well-formed tables no stored item belongs to the order about to be created. */
  lemma NoItemOfFreshOrder(db: Db)
    requires WellFormed(db)
    ensures Filter(db.orderItems, ItemOf(db.nextOrderId)) == []
  {
    forall k | 0 <= k < |db.orderItems| ensures !ItemOf(db.nextOrderId)(db.orderItems[k]) {
      assert ItemsOwned(db) && HasOrder(db, db.orderItems[k].orderId);
      var j :| 0 <= j < |db.orders| && db.orders[j].id == db.orderItems[k].orderId;
    }
    FilterKeepsNone(db.orderItems, ItemOf(db.nextOrderId));
  }

  /** Placing an order keeps the tables well-formed. */
  lemma CreateOrderWellFormed(db: Db, input: OrderCreate)
    requires WellFormed(db)
    ensures WellFormed(CreateOrder(db, input).0)
  {
    if CreateOrder(db, input).1.Ok? {
      InsertWellFormed(db, input);
    }
  }

  lemma InsertWellFormed(db: Db, input: OrderCreate)
    requires WellFormed(db) && AllExist(db, input.items)
    ensures WellFormed(Insert(db, input).0)
  {
    var r := Insert(db, input).0;
    assert r.products == db.products && r.variants == db.variants;
    assert r.nextProductId == db.nextProductId && r.nextVariantId == db.nextVariantId;
    assert VariantsOwned(r) by {
      forall i | 0 <= i < |r.variants| ensures HasProduct(r, r.variants[i].productId) {
        assert HasProduct(db, db.variants[i].productId);
      }
    }
    InsertOrdersOk(db, input);
    InsertItemsOk(db, input);
  }

  lemma InsertOrdersOk(db: Db, input: OrderCreate)
    requires OrderIdsOk(db) && AllExist(db, input.items)
    ensures OrderIdsOk(Insert(db, input).0)
  {
  }

  lemma InsertItemsOk(db: Db, input: OrderCreate)
    requires OrderIdsOk(db) && ItemIdsOk(db) && ItemsOwned(db) && AllExist(db, input.items)
    ensures ItemIdsOk(Insert(db, input).0) && ItemsOwned(Insert(db, input).0)
  {
    var r := Insert(db, input).0;
    var added := NewItems(db, input.items, db.nextOrderId, db.nextItemId);
    assert r.orderItems == db.orderItems + added;
    assert r.nextItemId == db.nextItemId + |added|;
    AppendNumbered(db.orderItems, added, ItemId, db.nextItemId);
    InsertItemsOwned(db, input);
  }

  /** Old items keep their orders, and the new items belong to the new order. */
  lemma InsertItemsOwned(db: Db, input: OrderCreate)
    requires ItemsOwned(db) && AllExist(db, input.items)
    ensures ItemsOwned(Insert(db, input).0)
  {
    var r := Insert(db, input).0;
    var added := NewItems(db, input.items, db.nextOrderId, db.nextItemId);
    assert r.orderItems == db.orderItems + added;
    assert HasOrder(r, db.nextOrderId) by {
      assert r.orders[|db.orders|].id == db.nextOrderId;
    }
    forall i | 0 <= i < |r.orderItems| ensures HasOrder(r, r.orderItems[i].orderId) {
      if i < |db.orderItems| {
        assert r.orderItems[i] == db.orderItems[i];
        assert HasOrder(db, db.orderItems[i].orderId);
        var j :| 0 <= j < |db.orders| && db.orders[j].id == db.orderItems[i].orderId;
        assert r.orders[j] == db.orders[j];
      } else {
        assert r.orderItems[i] == added[i - |db.orderItems|];
      }
    }
  }

  // ---------------------------------------------------------------------------------
  // The duplicate-id finding

  /** A request naming one stored variant twice is refused as "not found"; the corrected
      check accepts it. */
  lemma DuplicateRequestRefused()
    ensures var db := EmptyDb.(products := [DbProduct(1, "Mango Pickle", "pickles", None, None, None, None)],
                               variants := [DbVariant(1, 1, "250g", 125)],
                               nextProductId := 2, nextVariantId := 2);
      var input := OrderCreate("A", "1", "X", "COD", [ItemIn(1, 1), ItemIn(1, 2)]);
      WellFormed(db) && AllExist(db, input.items) && CreateOrder(db, input).1.BadRequest?
      && CreateOrderCorrected(db, input).1.Ok?
  {
    var db := EmptyDb.(products := [DbProduct(1, "Mango Pickle", "pickles", None, None, None, None)],
                       variants := [DbVariant(1, 1, "250g", 125)],
                       nextProductId := 2, nextVariantId := 2);
    var input := OrderCreate("A", "1", "X", "COD", [ItemIn(1, 1), ItemIn(1, 2)]);
    assert VariantExists(db, 1) by {
      assert db.variants[0].id == 1;
    }
    assert HasProduct(db, 1) by {
      assert db.products[0].id == 1;
    }
    PassesCheckIff(db, input.items);
    assert RequestedIds(input.items)[0] == RequestedIds(input.items)[1];
  }

  /** The check the handler evidently means: every distinct requested id was found. */
  predicate PassesCorrectedCheck(db: Db, items: seq<ItemIn>) {
    |FoundIds(db, RequestedIds(items))| == |Elems(RequestedIds(items))|
  }

  /** `create_order` with the corrected check. */
  function CreateOrderCorrected(db: Db, input: OrderCreate): (r: (Db, Response<OrderOut>))
    ensures r.1.Ok? || r.1.BadRequest?
    ensures r.1.BadRequest? ==> r.0 == db
    ensures r.1.Ok? <==> AllExist(db, input.items)
    ensures r.1.Ok? ==> (r.0, r.1.value) == Insert(db, input)
  {
    CorrectedCheckIff(db, input.items);
    if !PassesCorrectedCheck(db, input.items) then (db, BadRequest)
    else
      var ins := Insert(db, input);
      (ins.0, Ok(ins.1))
  }

  /** The corrected check passes exactly when every requested variant exists, repeats or
      not. */
  lemma CorrectedCheckIff(db: Db, items: seq<ItemIn>)
    ensures PassesCorrectedCheck(db, items) <==> AllExist(db, items)
  {
    var ids := RequestedIds(items);
    var found := FoundIds(db, ids);
    if AllExist(db, items) {
      assert found == Elems(ids);
    } else {
      var k :| 0 <= k < |items| && !VariantExists(db, items[k].variantId);
      assert ids[k] in Elems(ids) && ids[k] !in found;
      ProperSubsetCard(found, Elems(ids), ids[k]);
    }
  }

  /** Wherever the handler as written accepts, the corrected one accepts with the same
      result. */
  lemma CorrectedAgreesWhenAccepted(db: Db, input: OrderCreate)
    ensures CreateOrder(db, input).1.Ok? ==> CreateOrderCorrected(db, input) == CreateOrder(db, input)
  {
  }

  // ---------------------------------------------------------------------------------
  // Listing orders

  function NegatedId(o: DbOrder): int {
    -(o.id as int)
  }

  /** The orders, newest id first. */
  function Newest(db: Db): (r: seq<DbOrder>)
    ensures multiset(r) == multiset(db.orders)
    ensures |r| == |db.orders|
    ensures forall i, j :: 0 <= i < j < |r| ==> r[i].id >= r[j].id
  {
    var r := SortBy(db.orders, NegatedId);
    assert |r| == |multiset(r)|;
    assert forall i, j :: 0 <= i < j < |r| ==> r[i].id >= r[j].id by {
      forall i, j | 0 <= i < j < |r| ensures r[i].id >= r[j].id {
        assert NegatedId(r[i]) <= NegatedId(r[j]);
      }
    }
    r
  }

  function Page<T>(s: seq<T>, limit: nat, offset: nat): (r: seq<T>)
    ensures |r| == Min(limit, if offset <= |s| then |s| - offset else 0)
    ensures forall k :: 0 <= k < |r| ==> offset + k < |s| && r[k] == s[offset + k]
  {
    var dropped := if offset <= |s| then s[offset..] else [];
    if limit <= |dropped| then dropped[..limit] else dropped
  }

  function Min(a: int, b: int): int {
    if a <= b then a else b
  }

  /** `admin_list_orders`: newest first, `offset` skipped, at most `limit`, each order with
      its items. */
  function ListOrders(db: Db, limit: nat, offset: nat): (r: seq<OrderOut>)
    ensures |r| == Min(limit, if offset <= |db.orders| then |db.orders| - offset else 0)
    ensures forall k :: 0 <= k < |r| ==> offset + k < |Newest(db)| && r[k] == WithItems(db, Newest(db)[offset + k])
    ensures forall k :: 0 <= k < |r| ==> r[k].order in db.orders
    ensures forall i, j :: 0 <= i < j < |r| ==> r[i].order.id >= r[j].order.id
  {
    NewestPage(db, limit, offset);
    WithItemsAll(db, Page(Newest(db), limit, offset))
  }

  /** A page of the newest-first orders holds stored orders, ids descending. */
  lemma NewestPage(db: Db, limit: nat, offset: nat)
    ensures var page := Page(Newest(db), limit, offset);
      (forall k :: 0 <= k < |page| ==> page[k] in db.orders)
      && forall i, j :: 0 <= i < j < |page| ==> page[i].id >= page[j].id
  {
    var newest := Newest(db);
    var page := Page(newest, limit, offset);
    forall k | 0 <= k < |page| ensures page[k] in db.orders {
      assert page[k] == newest[offset + k];
      assert newest[offset + k] in multiset(newest);
    }
    forall i, j | 0 <= i < j < |page| ensures page[i].id >= page[j].id {
      assert page[i] == newest[offset + i] && page[j] == newest[offset + j];
    }
  }

  /** Each order with its items, in the given order. */
  function WithItemsAll(db: Db, os: seq<DbOrder>): (r: seq<OrderOut>)
    ensures |r| == |os|
    ensures forall k :: 0 <= k < |os| ==> r[k] == WithItems(db, os[k])
  {
    seq(|os|, k requires 0 <= k < |os| => WithItems(db, os[k]))
  }

  /** Two consecutive pages make up the page that spans both. */
  lemma PageSplit<T>(s: seq<T>, a: nat, b: nat, offset: nat)
    ensures Page(s, a, offset) + Page(s, b, offset + a) == Page(s, a + b, offset)
  {
    var x := Page(s, a, offset);
    var y := Page(s, b, offset + a);
    var z := Page(s, a + b, offset);
    if offset + a <= |s| {
      assert |x| == a;
    } else {
      assert |y| == 0;
    }
    forall k | 0 <= k < |z| ensures (x + y)[k] == z[k] {
      if k >= |x| {
        assert (x + y)[k] == y[k - a];
      }
    }
  }

  lemma WithItemsAllAppend(db: Db, x: seq<DbOrder>, y: seq<DbOrder>)
    ensures WithItemsAll(db, x + y) == WithItemsAll(db, x) + WithItemsAll(db, y)
  {
    var l := WithItemsAll(db, x + y);
    var r := WithItemsAll(db, x) + WithItemsAll(db, y);
    forall k | 0 <= k < |l| ensures l[k] == r[k] {
      if k < |x| {
        assert (x + y)[k] == x[k];
      } else {
        assert (x + y)[k] == y[k - |x|];
      }
    }
  }

  /** Two consecutive pages of the order list make up the page that spans both. */
  lemma ListOrdersPages(db: Db, a: nat, b: nat, offset: nat)
    ensures ListOrders(db, a, offset) + ListOrders(db, b, offset + a) == ListOrders(db, a + b, offset)
  {
    var newest := Newest(db);
    PageSplit(newest, a, b, offset);
    WithItemsAllAppend(db, Page(newest, a, offset), Page(newest, b, offset + a));
  }

  /** On well-formed tables the list is strictly newest first. */
  lemma ListOrdersStrict(db: Db, limit: nat, offset: nat)
    requires WellFormed(db)
    ensures var r := ListOrders(db, limit, offset);
      forall i, j :: 0 <= i < j < |r| ==> r[i].order.id > r[j].order.id
  {
    var newest := Newest(db);
    assert forall i, j :: 0 <= i < j < |newest| ==> newest[i].id != newest[j].id by {
      MultisetDistinctIds(db.orders, newest);
    }
  }

  /** Reordering keeps ids distinct. */
  lemma MultisetDistinctIds(a: seq<DbOrder>, b: seq<DbOrder>)
    requires multiset(a) == multiset(b)
    requires forall i, j :: 0 <= i < j < |a| ==> a[i].id != a[j].id
    ensures forall i, j :: 0 <= i < j < |b| ==> b[i].id != b[j].id
  {
    forall i, j | 0 <= i < j < |b| ensures b[i].id != b[j].id {
      if b[i].id == b[j].id {
        assert b[i] in multiset(a) && b[j] in multiset(a);
        var i' :| 0 <= i' < |a| && a[i'] == b[i];
        var j' :| 0 <= j' < |a| && a[j'] == b[j];
        assert i' == j';
        TwiceCounted(b, i, j);
        var p, q := CountedTwice(a, b[i]);
        assert false;
      }
    }
  }

  lemma TwiceCounted<T>(s: seq<T>, i: nat, j: nat)
    requires i < j < |s| && s[i] == s[j]
    ensures multiset(s)[s[i]] >= 2
  {
    assert s == s[..j] + [s[j]] + s[j + 1..];
    assert s[..j][i] == s[i];
    assert multiset(s[..j])[s[i]] >= 1;
  }

  lemma {:induction false} CountedTwice<T>(s: seq<T>, x: T) returns (i: nat, j: nat)
    requires multiset(s)[x] >= 2
    ensures i < j < |s| && s[i] == x && s[j] == x
    decreases |s|
  {
    assert s == [s[0]] + s[1..];
    if s[0] == x {
      assert x in multiset(s[1..]);
      var k :| 0 <= k < |s[1..]| && s[1..][k] == x;
      i, j := 0, k + 1;
    } else {
      var i', j' := CountedTwice(s[1..], x);
      i, j := i' + 1, j' + 1;
    }
  }
}
