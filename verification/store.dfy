/** The backend's tables as sequences in insertion order, with the next id each table will
    hand out, and the product and variant handlers over them. A handler returns the new
    tables and its response; a failed request leaves the tables as they were. */
module Store {
  import opened Wrappers
  import opened Seqs
  import opened ServerSlug

  datatype DbProduct = DbProduct(
    id: nat,
    name: string,
    category: string,
    description: Option<string>,
    imageUrl: Option<string>,
    ingredients: Option<string>,
    shelfLife: Option<string>)

  /** Prices are whole numbers here; the column is a two-decimal number. */
  datatype DbVariant = DbVariant(id: nat, productId: nat, weight: string, price: int)

  datatype DbOrder = DbOrder(id: nat, customerName: string, phone: string, address: string, paymentMethod: string)

  datatype DbOrderItem = DbOrderItem(id: nat, orderId: nat, variantId: nat, quantity: int, price: int)

  datatype Db = Db(
    products: seq<DbProduct>,
    variants: seq<DbVariant>,
    orders: seq<DbOrder>,
    orderItems: seq<DbOrderItem>,
    nextProductId: nat,
    nextVariantId: nat,
    nextOrderId: nat,
    nextItemId: nat)

  /** The HTTP outcome: a body, or 404, 400, or 500 (a write the database refuses). */
  datatype Response<T> = Ok(value: T) | NotFound | BadRequest | ServerError

  // ---------------------------------------------------------------------------------
  // Well-formed tables

  function ProductId(p: DbProduct): nat {
    p.id
  }

  function VariantId(v: DbVariant): nat {
    v.id
  }

  function OrderId(o: DbOrder): nat {
    o.id
  }

  function ItemId(item: DbOrderItem): nat {
    item.id
  }

  predicate ProductIdsOk(db: Db) {
    DistinctBy(db.products, ProductId) && KeysBelow(db.products, ProductId, db.nextProductId)
  }

  predicate VariantIdsOk(db: Db) {
    DistinctBy(db.variants, VariantId) && KeysBelow(db.variants, VariantId, db.nextVariantId)
  }

  predicate OrderIdsOk(db: Db) {
    DistinctBy(db.orders, OrderId) && KeysBelow(db.orders, OrderId, db.nextOrderId)
  }

  predicate ItemIdsOk(db: Db) {
    DistinctBy(db.orderItems, ItemId) && KeysBelow(db.orderItems, ItemId, db.nextItemId)
  }

  /** Every variant belongs to a stored product. */
  predicate VariantsOwned(db: Db) {
    forall i :: 0 <= i < |db.variants| ==> HasProduct(db, db.variants[i].productId)
  }

  /** Every order item belongs to a stored order. */
  predicate ItemsOwned(db: Db) {
    forall i :: 0 <= i < |db.orderItems| ==> HasOrder(db, db.orderItems[i].orderId)
  }

  predicate HasOrder(db: Db, id: nat) {
    exists j :: 0 <= j < |db.orders| && db.orders[j].id == id
  }

  predicate HasProduct(db: Db, id: nat) {
    exists j :: 0 <= j < |db.products| && db.products[j].id == id
  }

  /** Primary keys are unique and below the next id; every variant has its product and
      every order item its order. */
  predicate WellFormed(db: Db) {
    ProductIdsOk(db) && VariantIdsOk(db) && OrderIdsOk(db) && ItemIdsOk(db)
    && VariantsOwned(db) && ItemsOwned(db)
  }

  const EmptyDb: Db := Db([], [], [], [], 1, 1, 1, 1)

  lemma EmptyDbWellFormed()
    ensures WellFormed(EmptyDb)
  {
  }

  // ---------------------------------------------------------------------------------
  // Reading products

  function ProductIdIs(id: nat): DbProduct -> bool {
    (p: DbProduct) => p.id == id
  }

  function OfProduct(productId: nat): DbVariant -> bool {
    (v: DbVariant) => v.productId == productId
  }

  /** A product with its variants, in table order: `schemas.Product`. */
  datatype ProductOut = ProductOut(product: DbProduct, variants: seq<DbVariant>)

  function WithVariants(db: Db, p: DbProduct): (r: ProductOut)
    ensures r.product == p
    ensures forall v :: v in r.variants <==> v in db.variants && v.productId == p.id
    ensures IsSubsequence(r.variants, db.variants)
  {
    FilterIsSubsequence(db.variants, OfProduct(p.id));
    ProductOut(p, Filter(db.variants, OfProduct(p.id)))
  }

  /** `list_products`: every product with its variants, in table order. */
  function ListProducts(db: Db): (r: seq<ProductOut>)
    ensures |r| == |db.products|
    ensures forall k :: 0 <= k < |r| ==> r[k].product == db.products[k]
    ensures forall k, v :: 0 <= k < |r| ==> (v in r[k].variants <==> v in db.variants && v.productId == db.products[k].id)
  {
    seq(|db.products|, k requires 0 <= k < |db.products| => WithVariants(db, db.products[k]))
  }

  /** Where the product with this id sits in its table, or -1. */
  function ProductIndex(db: Db, id: nat): (r: int)
    ensures -1 <= r < |db.products|
    ensures r == -1 <==> !HasProduct(db, id)
    ensures r >= 0 ==> db.products[r].id == id
  {
    FindIndex(db.products, ProductIdIs(id))
  }

  /** `get_product`. */
  function GetProduct(db: Db, id: nat): (r: Response<ProductOut>)
    ensures r.NotFound? <==> !HasProduct(db, id)
    ensures r.Ok? ==> r.value.product in db.products && r.value.product.id == id
    ensures r.Ok? ==> r.value == WithVariants(db, r.value.product)
    ensures r.Ok? || r.NotFound?
  {
    var i := ProductIndex(db, id);
    if i == -1 then NotFound else Ok(WithVariants(db, db.products[i]))
  }

  function SlugOfNameIs(slug: string): DbProduct -> bool {
    (p: DbProduct) => Slugify(p.name) == slug
  }

  /** `get_product_by_slug`: the first product, in table order, whose slugified name is the
      slug; 404 if there is none. */
  function GetProductBySlug(db: Db, slug: string): (r: Response<ProductOut>)
    ensures r.NotFound? <==> forall j :: 0 <= j < |db.products| ==> Slugify(db.products[j].name) != slug
    ensures r.Ok? ==>
      exists i :: 0 <= i < |db.products| && r.value == WithVariants(db, db.products[i])
        && Slugify(db.products[i].name) == slug
        && forall j :: 0 <= j < i ==> Slugify(db.products[j].name) != slug
    ensures r.Ok? || r.NotFound?
  {
    var i := FindIndex(db.products, SlugOfNameIs(slug));
    if i == -1 then NotFound else Ok(WithVariants(db, db.products[i]))
  }

  /** A slug that was not produced by the backend's own slug function, such as one holding a
      space, never finds anything. */
  lemma SlugWithSpaceNotFound(db: Db, slug: string)
    requires ' ' in slug
    ensures GetProductBySlug(db, slug).NotFound?
  {
  }

  // ---------------------------------------------------------------------------------
  // Creating products

  datatype VariantIn = VariantIn(weight: string, price: int)

  datatype ProductCreate = ProductCreate(
    name: string,
    category: string,
    description: Option<string>,
    imageUrl: Option<string>,
    ingredients: Option<string>,
    shelfLife: Option<string>,
    variants: seq<VariantIn>)

  /** The variant rows for `ins`, numbered from `firstId`, all owned by `productId`. */
  function NewVariants(ins: seq<VariantIn>, productId: nat, firstId: nat): (r: seq<DbVariant>)
    ensures |r| == |ins|
    ensures forall k :: 0 <= k < |ins| ==> r[k] == DbVariant(firstId + k, productId, ins[k].weight, ins[k].price)
  {
    seq(|ins|, k requires 0 <= k < |ins| => DbVariant(firstId + k, productId, ins[k].weight, ins[k].price))
  }

  /** `admin_create_product`: one product row, then one variant row per input entry, in
      input order. */
  function AdminCreateProduct(db: Db, input: ProductCreate): (r: (Db, ProductOut))
    ensures |r.0.products| == |db.products| + 1 && r.0.products[..|db.products|] == db.products
    ensures r.0.products[|db.products|]
            == DbProduct(db.nextProductId, input.name, input.category, input.description,
                         input.imageUrl, input.ingredients, input.shelfLife)
    ensures |r.0.variants| == |db.variants| + |input.variants|
    ensures r.0.variants[..|db.variants|] == db.variants
    ensures forall k :: 0 <= k < |input.variants| ==>
      r.0.variants[|db.variants| + k]
      == DbVariant(db.nextVariantId + k, db.nextProductId, input.variants[k].weight, input.variants[k].price)
    ensures r.0.variants[|db.variants|..] == NewVariants(input.variants, db.nextProductId, db.nextVariantId)
    ensures r.0.nextProductId == db.nextProductId + 1
    ensures r.0.nextVariantId == db.nextVariantId + |input.variants|
    ensures r.0.orders == db.orders && r.0.orderItems == db.orderItems
    ensures r.0 == db.(products := r.0.products, variants := r.0.variants,
                       nextProductId := r.0.nextProductId, nextVariantId := r.0.nextVariantId)
    ensures r.1 == WithVariants(r.0, r.0.products[|db.products|])
  {
    var p := DbProduct(db.nextProductId, input.name, input.category, input.description,
                       input.imageUrl, input.ingredients, input.shelfLife);
    var added := NewVariants(input.variants, p.id, db.nextVariantId);
    var db' := db.(products := db.products + [p],
                   variants := db.variants + added,
                   nextProductId := db.nextProductId + 1,
                   nextVariantId := db.nextVariantId + |added|);
    assert db'.products[..|db.products|] == db.products;
    assert db'.variants[..|db.variants|] == db.variants;
    (db', WithVariants(db', p))
  }

  /** On well-formed tables the created product comes back with exactly its new variants:
      no earlier variant can carry the fresh product id. */
  lemma AdminCreateProductFresh(db: Db, input: ProductCreate)
    requires WellFormed(db)
    ensures AdminCreateProduct(db, input).1.variants
            == NewVariants(input.variants, db.nextProductId, db.nextVariantId)
  {
    var r := AdminCreateProduct(db, input);
    var added := NewVariants(input.variants, db.nextProductId, db.nextVariantId);
    assert r.0.variants == db.variants + added;
    forall v | v in db.variants ensures !OfProduct(db.nextProductId)(v) {
      var i :| 0 <= i < |db.variants| && db.variants[i] == v;
      var j :| 0 <= j < |db.products| && db.products[j].id == v.productId;
    }
    FilterKeepsNone(db.variants, OfProduct(db.nextProductId));
    FilterKeepsAll(added, OfProduct(db.nextProductId));
    FilterAppend(db.variants, added, OfProduct(db.nextProductId));
  }

  /** Creating a product keeps the tables well-formed. */
  lemma AdminCreateProductWellFormed(db: Db, input: ProductCreate)
    requires WellFormed(db)
    ensures WellFormed(AdminCreateProduct(db, input).0)
  {
    var r := AdminCreateProduct(db, input).0;
    OrderSideKept(db, r);
    CreateProductIdsOk(db, input);
    CreateVariantsOwned(db, input);
  }

  /** Tables an operation does not touch stay well-formed. */
  lemma OrderSideKept(db: Db, r: Db)
    requires OrderIdsOk(db) && ItemIdsOk(db) && ItemsOwned(db)
    requires r.orders == db.orders && r.orderItems == db.orderItems
    requires r.nextOrderId == db.nextOrderId && r.nextItemId == db.nextItemId
    ensures OrderIdsOk(r) && ItemIdsOk(r) && ItemsOwned(r)
  {
    forall i | 0 <= i < |r.orderItems| ensures HasOrder(r, r.orderItems[i].orderId) {
      assert HasOrder(db, db.orderItems[i].orderId);
    }
  }

  lemma CreateProductIdsOk(db: Db, input: ProductCreate)
    requires ProductIdsOk(db) && VariantIdsOk(db)
    ensures ProductIdsOk(AdminCreateProduct(db, input).0) && VariantIdsOk(AdminCreateProduct(db, input).0)
  {
    var r := AdminCreateProduct(db, input).0;
    var added := NewVariants(input.variants, db.nextProductId, db.nextVariantId);
    assert r.variants == db.variants + added;
    AppendNumbered(db.variants, added, VariantId, db.nextVariantId);
    forall i, j | 0 <= i < j < |r.products| ensures r.products[i].id != r.products[j].id {
      if j < |db.products| {
        assert r.products[i] == db.products[i] && r.products[j] == db.products[j];
      } else {
        assert r.products[i] == db.products[i];
      }
    }
    forall i | 0 <= i < |r.products| ensures r.products[i].id < r.nextProductId {
      if i < |db.products| {
        assert r.products[i] == db.products[i];
      }
    }
  }

  lemma CreateVariantsOwned(db: Db, input: ProductCreate)
    requires VariantsOwned(db)
    ensures VariantsOwned(AdminCreateProduct(db, input).0)
  {
    var r := AdminCreateProduct(db, input).0;
    assert HasProduct(r, db.nextProductId) by {
      assert r.products[|db.products|].id == db.nextProductId;
    }
    forall i | 0 <= i < |r.variants| ensures HasProduct(r, r.variants[i].productId) {
      if i < |db.variants| {
        assert r.variants[i] == db.variants[i];
        var j :| 0 <= j < |db.products| && db.products[j].id == db.variants[i].productId;
        assert r.products[j] == db.products[j];
      }
    }
  }

  // ---------------------------------------------------------------------------------
  // Partial updates

  /** A field of a PATCH body: left out of the body, or sent (possibly as null). */
  datatype Patch<T> = Unset | Set(value: T)

  function Patched<T>(current: T, p: Patch<T>): (r: T)
    ensures p.Unset? ==> r == current
    ensures p.Set? ==> r == p.value
  {
    match p
    case Unset => current
    case Set(v) => v
  }

  /** `ProductUpdate`: every field optional. An explicit null for `name` or `category`
      reaches a NOT NULL column. */
  datatype ProductUpdate = ProductUpdate(
    name: Patch<Option<string>>,
    category: Patch<Option<string>>,
    description: Patch<Option<string>>,
    imageUrl: Patch<Option<string>>,
    ingredients: Patch<Option<string>>,
    shelfLife: Patch<Option<string>>)

  predicate NullsRequired(u: ProductUpdate) {
    u.name == Set(None) || u.category == Set(None)
  }

  /** The product with the supplied fields set (`exclude_unset=True` and `setattr`). */
  function PatchProduct(p: DbProduct, u: ProductUpdate): (r: DbProduct)
    requires !NullsRequired(u)
    ensures r.id == p.id
    ensures u.name.Unset? ==> r.name == p.name
    ensures u.name.Set? ==> r.name == u.name.value.value
    ensures u.category.Unset? ==> r.category == p.category
    ensures u.category.Set? ==> r.category == u.category.value.value
    ensures r.description == Patched(p.description, u.description)
    ensures r.imageUrl == Patched(p.imageUrl, u.imageUrl)
    ensures r.ingredients == Patched(p.ingredients, u.ingredients)
    ensures r.shelfLife == Patched(p.shelfLife, u.shelfLife)
  {
    DbProduct(
      p.id,
      if u.name.Set? then u.name.value.value else p.name,
      if u.category.Set? then u.category.value.value else p.category,
      Patched(p.description, u.description),
      Patched(p.imageUrl, u.imageUrl),
      Patched(p.ingredients, u.ingredients),
      Patched(p.shelfLife, u.shelfLife))
  }

  /** `admin_update_product`. */
  function AdminUpdateProduct(db: Db, id: nat, u: ProductUpdate): (r: (Db, Response<ProductOut>))
    ensures !HasProduct(db, id) ==> r == (db, NotFound)
    ensures HasProduct(db, id) && NullsRequired(u) ==> r == (db, ServerError)
    ensures HasProduct(db, id) && !NullsRequired(u) ==>
      var i := ProductIndex(db, id);
      r.0 == db.(products := db.products[i := PatchProduct(db.products[i], u)])
      && r.1 == Ok(WithVariants(r.0, r.0.products[i]))
  {
    var i := ProductIndex(db, id);
    if i == -1 then (db, NotFound)
    else if NullsRequired(u) then (db, ServerError)
    else
      var db' := db.(products := db.products[i := PatchProduct(db.products[i], u)]);
      (db', Ok(WithVariants(db', db'.products[i])))
  }

  /** An update touches one product row and nothing else, and keeps the tables
      well-formed. */
  lemma AdminUpdateProductOnlyThatRow(db: Db, id: nat, u: ProductUpdate)
    requires WellFormed(db)
    ensures var r := AdminUpdateProduct(db, id, u);
      WellFormed(r.0) && |r.0.products| == |db.products| && r.0.variants == db.variants
      && forall j :: 0 <= j < |db.products| && db.products[j].id != id ==> r.0.products[j] == db.products[j]
  {
    var r := AdminUpdateProduct(db, id, u);
    if HasProduct(db, id) && !NullsRequired(u) {
      var i := ProductIndex(db, id);
      assert r.0 == db.(products := db.products[i := PatchProduct(db.products[i], u)]);
      OrderSideKept(db, r.0);
      PatchKeepsProducts(db, i, PatchProduct(db.products[i], u));
    }
  }

  /** Replacing a product row by one with the same id keeps the tables well-formed. */
  lemma PatchKeepsProducts(db: Db, i: nat, p: DbProduct)
    requires ProductIdsOk(db) && VariantsOwned(db)
    requires i < |db.products| && p.id == db.products[i].id
    ensures ProductIdsOk(db.(products := db.products[i := p]))
    ensures VariantsOwned(db.(products := db.products[i := p]))
  {
    var r := db.(products := db.products[i := p]);
    forall k | 0 <= k < |r.variants| ensures HasProduct(r, r.variants[k].productId) {
      var j :| 0 <= j < |db.products| && db.products[j].id == db.variants[k].productId;
      assert r.products[j].id == db.products[j].id;
    }
  }

  /** `VariantUpdate`: both fields optional; `weight` is a NOT NULL column. */
  datatype VariantUpdate = VariantUpdate(weight: Patch<Option<string>>, price: Patch<Option<int>>)

  function VariantIdIs(id: nat): DbVariant -> bool {
    (v: DbVariant) => v.id == id
  }

  predicate HasVariant(db: Db, id: nat) {
    exists j :: 0 <= j < |db.variants| && db.variants[j].id == id
  }

  function VariantIndex(db: Db, id: nat): (r: int)
    ensures -1 <= r < |db.variants|
    ensures r == -1 <==> !HasVariant(db, id)
    ensures r >= 0 ==> db.variants[r].id == id
  {
    FindIndex(db.variants, VariantIdIs(id))
  }

  /** `admin_update_variant`. */
  function AdminUpdateVariant(db: Db, id: nat, u: VariantUpdate): (r: (Db, Response<DbVariant>))
    ensures !HasVariant(db, id) ==> r == (db, NotFound)
    ensures HasVariant(db, id) && (u.weight == Set(None) || u.price == Set(None)) ==> r == (db, ServerError)
    ensures r.1.Ok? ==>
      var i := VariantIndex(db, id);
      r.0 == db.(variants := db.variants[i := r.1.value])
      && r.1.value.id == id && r.1.value.productId == db.variants[i].productId
      && (u.weight.Unset? ==> r.1.value.weight == db.variants[i].weight)
      && (u.weight.Set? ==> Some(r.1.value.weight) == u.weight.value)
      && (u.price.Unset? ==> r.1.value.price == db.variants[i].price)
      && (u.price.Set? ==> Some(r.1.value.price) == u.price.value)
    ensures HasVariant(db, id) && u.weight != Set(None) && u.price != Set(None) ==> r.1.Ok?
  {
    var i := VariantIndex(db, id);
    if i == -1 then (db, NotFound)
    else if u.weight == Set(None) || u.price == Set(None) then (db, ServerError)
    else
      var v := db.variants[i];
      var v' := v.(weight := if u.weight.Set? then u.weight.value.value else v.weight,
                   price := if u.price.Set? then u.price.value.value else v.price);
      (db.(variants := db.variants[i := v']), Ok(v'))
  }

  /** Updating a variant keeps the tables well-formed: the row keeps its id and its
      product. */
  lemma AdminUpdateVariantWellFormed(db: Db, id: nat, u: VariantUpdate)
    requires WellFormed(db)
    ensures WellFormed(AdminUpdateVariant(db, id, u).0)
  {
    var r := AdminUpdateVariant(db, id, u);
    if r.1.Ok? {
      var i := VariantIndex(db, id);
      OrderSideKept(db, r.0);
      forall k | 0 <= k < |r.0.variants| ensures HasProduct(r.0, r.0.variants[k].productId) {
        assert r.0.variants[k].productId == db.variants[k].productId;
        assert HasProduct(db, db.variants[k].productId);
      }
      forall k | 0 <= k < |r.0.variants| ensures r.0.variants[k].id == db.variants[k].id {
      }
    }
  }

  /** `admin_add_variant`: 404 for a missing product, else one new row. */
  function AdminAddVariant(db: Db, productId: nat, input: VariantIn): (r: (Db, Response<DbVariant>))
    ensures !HasProduct(db, productId) ==> r == (db, NotFound)
    ensures HasProduct(db, productId) ==>
      r.1 == Ok(DbVariant(db.nextVariantId, productId, input.weight, input.price))
      && r.0 == db.(variants := db.variants + [r.1.value], nextVariantId := db.nextVariantId + 1)
  {
    if !HasProduct(db, productId) then (db, NotFound)
    else
      var v := DbVariant(db.nextVariantId, productId, input.weight, input.price);
      (db.(variants := db.variants + [v], nextVariantId := db.nextVariantId + 1), Ok(v))
  }

  /** Adding a variant keeps the tables well-formed. */
  lemma AdminAddVariantWellFormed(db: Db, productId: nat, input: VariantIn)
    requires WellFormed(db)
    ensures WellFormed(AdminAddVariant(db, productId, input).0)
  {
  }

  function VariantIdIsNot(id: nat): DbVariant -> bool {
    (v: DbVariant) => v.id != id
  }

  /** `admin_delete_variant`. */
  function AdminDeleteVariant(db: Db, id: nat): (r: (Db, Response<()>))
    ensures !HasVariant(db, id) ==> r == (db, NotFound)
    ensures HasVariant(db, id) ==>
      r.1 == Ok(()) && r.0 == db.(variants := Filter(db.variants, VariantIdIsNot(id)))
    ensures forall v :: v in r.0.variants <==> v in db.variants && v.id != id
    ensures IsSubsequence(r.0.variants, db.variants)
  {
    if !HasVariant(db, id) then
      assert Filter(db.variants, VariantIdIsNot(id)) == db.variants by {
        FilterKeepsAll(db.variants, VariantIdIsNot(id));
      }
      IsSubsequenceRefl(db.variants);
      (db, NotFound)
    else
      FilterIsSubsequence(db.variants, VariantIdIsNot(id));
      (db.(variants := Filter(db.variants, VariantIdIsNot(id))), Ok(()))
  }

  /** Deleting a variant keeps the tables well-formed. */
  lemma AdminDeleteVariantWellFormed(db: Db, id: nat)
    requires WellFormed(db)
    ensures WellFormed(AdminDeleteVariant(db, id).0)
  {
    var r := AdminDeleteVariant(db, id).0;
    OrderSideKept(db, r);
    SubsequenceDistinctBy(r.variants, db.variants, VariantId);
    forall k | 0 <= k < |r.variants| ensures r.variants[k].id < r.nextVariantId && HasProduct(r, r.variants[k].productId) {
      assert r.variants[k] in db.variants;
    }
  }

  lemma {:induction false} IsSubsequenceRefl<T>(s: seq<T>)
    ensures IsSubsequence(s, s)
    decreases |s|
  {
    if |s| > 0 {
      IsSubsequenceRefl(s[1..]);
    }
  }

  function ProductIdIsNot(id: nat): DbProduct -> bool {
    (p: DbProduct) => p.id != id
  }

  function NotOfProduct(productId: nat): DbVariant -> bool {
    (v: DbVariant) => v.productId != productId
  }

  /** `admin_delete_product`: the product row goes, and its variants with it (the
      relationship cascades deletes). */
  function AdminDeleteProduct(db: Db, id: nat): (r: (Db, Response<()>))
    ensures !HasProduct(db, id) ==> r == (db, NotFound)
    ensures HasProduct(db, id) ==>
      r.1 == Ok(())
      && (forall p :: p in r.0.products <==> p in db.products && p.id != id)
      && (forall v :: v in r.0.variants <==> v in db.variants && v.productId != id)
      && r.0 == db.(products := r.0.products, variants := r.0.variants)
  {
    if !HasProduct(db, id) then (db, NotFound)
    else
      (db.(products := Filter(db.products, ProductIdIsNot(id)),
           variants := Filter(db.variants, NotOfProduct(id))), Ok(()))
  }

  /** Deleting a product keeps the tables well-formed: no variant is left without its
      product. */
  lemma AdminDeleteProductWellFormed(db: Db, id: nat)
    requires WellFormed(db)
    ensures WellFormed(AdminDeleteProduct(db, id).0)
  {
    var r := AdminDeleteProduct(db, id).0;
    if HasProduct(db, id) {
      OrderSideKept(db, r);
      DeleteProductIdsOk(db, id);
      DeleteProductOwned(db, id);
    }
  }

  lemma DeleteProductIdsOk(db: Db, id: nat)
    requires ProductIdsOk(db) && VariantIdsOk(db) && HasProduct(db, id)
    ensures ProductIdsOk(AdminDeleteProduct(db, id).0) && VariantIdsOk(AdminDeleteProduct(db, id).0)
  {
    var r := AdminDeleteProduct(db, id).0;
    FilterIsSubsequence(db.products, ProductIdIsNot(id));
    FilterIsSubsequence(db.variants, NotOfProduct(id));
    SubsequenceDistinctBy(r.products, db.products, ProductId);
    SubsequenceDistinctBy(r.variants, db.variants, VariantId);
    forall i | 0 <= i < |r.products| ensures r.products[i].id < r.nextProductId {
      assert r.products[i] in db.products;
    }
    forall i | 0 <= i < |r.variants| ensures r.variants[i].id < r.nextVariantId {
      assert r.variants[i] in db.variants;
    }
  }

  /** No variant outlives its product: the cascade took every variant of the deleted one. */
  lemma DeleteProductOwned(db: Db, id: nat)
    requires VariantsOwned(db) && HasProduct(db, id)
    ensures VariantsOwned(AdminDeleteProduct(db, id).0)
  {
    var r := AdminDeleteProduct(db, id).0;
    forall k | 0 <= k < |r.variants| ensures HasProduct(r, r.variants[k].productId) {
      var v := r.variants[k];
      assert v in db.variants;
      var i :| 0 <= i < |db.variants| && db.variants[i] == v;
      var j :| 0 <= j < |db.products| && db.products[j].id == v.productId;
      assert db.products[j] in r.products;
      var j' :| 0 <= j' < |r.products| && r.products[j'] == db.products[j];
    }
  }
}
