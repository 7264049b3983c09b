/** The product service. The products table is held in place together with
    the counter that hands out identities; each mutating operation loads a
    record, checks it, changes fields through setters and saves it back. The
    read operations that are more than a repository call are functions over
    the table. */
module ProductService {
  import opened Common
  import opened ProductEntity
  import opened ProductRepository

  /** What holds of the table between operations: every record sits under its
      own id, below the next id to be handed out, and passes validation (so
      its quantity is non-negative); no two records share a SKU, whether
      active or not. */
  ghost predicate WellFormed(t: Table, nextId: int) {
    && 1 <= nextId
    && (forall id :: id in t ==> 1 <= id < nextId && t[id].id == Some(id) && IsValid(t[id]))
    && SkusUnique(t)
  }

  /** The table after `setQuantity(q)` on record `id` and the save that
      stamps its modification time. */
  function WithQuantity(t: Table, id: int, q: Int32, now: Timestamp): Table
    requires id in t
  {
    t[id := PreUpdate(t[id].(quantity := Some(q)), now)]
  }

  class ProductStore {
    var products: Table
    var nextId: int

    ghost predicate Valid()
      reads this
    {
      WellFormed(products, nextId)
    }

    /** An empty table whose first record will get id 1. */
    constructor ()
      ensures Valid() && products == map[] && nextId == 1
    {
      products := map[];
      nextId := 1;
    }

    /** `createProduct`: refuses a SKU that any record (active or not)
        already holds; otherwise stores the draft under a fresh id. */
    method CreateProduct(draft: Product) returns (r: Result<Product>)
      requires Valid() && IsValid(draft)
      modifies this
      ensures Valid()
      ensures r.Err? <==> ExistsBySku(old(products), draft.sku.value)
      ensures r.Err? ==> r.error == DuplicateKey && products == old(products) && nextId == old(nextId)
      ensures r.Ok? ==>
        && old(nextId) !in old(products)
        && r.value == draft.(id := Some(old(nextId)))
        && products == old(products)[old(nextId) := r.value]
        && |products| == |old(products)| + 1
    {
      if ExistsBySku(products, draft.sku.value) {
        return Err(DuplicateKey);
      }
      var saved := draft.(id := Some(nextId));
      products := products[nextId := saved];
      nextId := nextId + 1;
      r := Ok(saved);
    }

    /** `updateProduct`: NotFound for a missing id; DuplicateKey when the SKU
        changes to one already held; otherwise copies the ten editable fields
        of the draft (including `isActive`, so an update may reactivate a
        record), keeps id and creation time, and stamps the update time. */
    method UpdateProduct(id: int, details: Product, now: Timestamp) returns (r: Result<Product>)
      requires Valid() && IsValid(details)
      modifies this
      ensures Valid() && nextId == old(nextId)
      ensures id !in old(products) ==> r == Err(NotFound)
      ensures id in old(products) && old(products)[id].sku != details.sku && ExistsBySku(old(products), details.sku.value)
              ==> r == Err(DuplicateKey)
      ensures r.Err? ==> products == old(products)
      ensures r.Ok? <==>
        && id in old(products)
        && (old(products)[id].sku == details.sku || !ExistsBySku(old(products), details.sku.value))
      ensures r.Ok? ==>
        var p := r.value;
        && products == old(products)[id := p]
        && p.id == Some(id) && p.createdAt == old(products)[id].createdAt && p.updatedAt == now
        && p.name == details.name && p.description == details.description && p.sku == details.sku
        && p.price == details.price && p.quantity == details.quantity && p.minQuantity == details.minQuantity
        && p.category == details.category && p.brand == details.brand && p.unit == details.unit
        && p.isActive == details.isActive
    {
      if id !in products {
        return Err(NotFound);
      }
      var product := products[id];
      if product.sku != details.sku && ExistsBySku(products, details.sku.value) {
        return Err(DuplicateKey);
      }
      product := product.(name := details.name, description := details.description, sku := details.sku);
      product := product.(price := details.price, quantity := details.quantity, minQuantity := details.minQuantity);
      product := product.(category := details.category, brand := details.brand, unit := details.unit);
      product := product.(isActive := details.isActive);
      product := PreUpdate(product, now);
      products := products[id := product];
      r := Ok(product);
    }

    /** `deleteProduct` (soft): NotFound for a missing id; otherwise only
        clears `isActive` (and stamps the update time); the record stays. */
    method DeleteProduct(id: int, now: Timestamp) returns (r: Result<()>)
      requires Valid()
      modifies this
      ensures Valid() && nextId == old(nextId)
      ensures r.Err? <==> id !in old(products)
      ensures r.Err? ==> r.error == NotFound && products == old(products)
      ensures r.Ok? ==> products == old(products)[id := PreUpdate(old(products)[id].(isActive := Some(false)), now)]
      ensures |products| == |old(products)|
    {
      if id !in products {
        return Err(NotFound);
      }
      var product := products[id];
      product := product.(isActive := Some(false));
      products := products[id := PreUpdate(product, now)];
      r := Ok(());
    }

    /** `hardDeleteProduct`: removes the record if there is one; a missing id
        is not an error. */
    method HardDeleteProduct(id: int)
      requires Valid()
      modifies this
      ensures Valid() && nextId == old(nextId)
      ensures products == old(products) - {id}
      ensures id !in products
      ensures |products| == if id in old(products) then |old(products)| - 1 else |old(products)|
    {
      assert (products - {id}).Keys == products.Keys - {id};
      products := products - {id};
    }

    /** `updateProductQuantity`: NotFound for a missing id (checked first),
        InvalidQuantity for a negative value; otherwise sets the quantity. */
    method UpdateProductQuantity(id: int, newQuantity: Int32, now: Timestamp) returns (r: Result<Product>)
      requires Valid()
      modifies this
      ensures Valid() && nextId == old(nextId)
      ensures id !in old(products) ==> r == Err(NotFound)
      ensures id in old(products) && newQuantity < 0 ==> r == Err(InvalidQuantity)
      ensures r.Err? ==> products == old(products)
      ensures r.Ok? <==> id in old(products) && newQuantity >= 0
      ensures r.Ok? ==> products == WithQuantity(old(products), id, newQuantity, now) && r.value == products[id]
    {
      if id !in products {
        return Err(NotFound);
      }
      if newQuantity < 0 {
        return Err(InvalidQuantity);
      }
      products := WithQuantity(products, id, newQuantity, now);
      r := Ok(products[id]);
    }

    /** `addStock`: NotFound for a missing id (checked before the amount),
        InvalidQuantity for a negative amount, and InvalidQuantity when the new
        quantity would not fit in an `Integer`; otherwise the quantity grows by
        exactly the amount. */
    method AddStock(id: int, amount: Int32, now: Timestamp) returns (r: Result<Product>)
      requires Valid()
      modifies this
      ensures Valid() && nextId == old(nextId)
      ensures id !in old(products) ==> r == Err(NotFound)
      ensures id in old(products) && amount < 0 ==> r == Err(InvalidQuantity)
      ensures id in old(products) && old(products)[id].quantity.value + amount > IntMax ==> r == Err(InvalidQuantity)
      ensures r.Err? ==> products == old(products)
      ensures r.Ok? <==>
        id in old(products) && amount >= 0 && old(products)[id].quantity.value + amount <= IntMax
      ensures r.Ok? ==>
        && products == WithQuantity(old(products), id, old(products)[id].quantity.value + amount, now)
        && r.value == products[id]
    {
      if id !in products {
        return Err(NotFound);
      }
      var product := products[id];
      if amount < 0 {
        return Err(InvalidQuantity);
      }
      var quantity := product.quantity.value;
      if quantity + amount > IntMax {
        return Err(InvalidQuantity);
      }
      products := WithQuantity(products, id, quantity + amount, now);
      r := Ok(products[id]);
    }

    /** `removeStock`: NotFound for a missing id, then InvalidQuantity for a
        negative amount, then InsufficientStock when the amount exceeds the
        quantity; otherwise the quantity shrinks by exactly the amount. */
    method RemoveStock(id: int, amount: Int32, now: Timestamp) returns (r: Result<Product>)
      requires Valid()
      modifies this
      ensures Valid() && nextId == old(nextId)
      ensures id !in old(products) ==> r == Err(NotFound)
      ensures id in old(products) && amount < 0 ==> r == Err(InvalidQuantity)
      ensures id in old(products) && amount >= 0 && old(products)[id].quantity.value < amount ==> r == Err(InsufficientStock)
      ensures r.Err? ==> products == old(products)
      ensures r.Ok? <==> id in old(products) && 0 <= amount <= old(products)[id].quantity.value
      ensures r.Ok? ==>
        && products == WithQuantity(old(products), id, old(products)[id].quantity.value - amount, now)
        && r.value == products[id] && r.value.quantity.value >= 0
    {
      if id !in products {
        return Err(NotFound);
      }
      var product := products[id];
      if amount < 0 {
        return Err(InvalidQuantity);
      }
      var quantity := product.quantity.value;
      if quantity < amount {
        return Err(InsufficientStock);
      }
      products := WithQuantity(products, id, quantity - amount, now);
      r := Ok(products[id]);
    }
  }

  // ---------------------------------------------------------------------------
  // Properties of the stock updates

  /** Setting a non-negative quantity keeps the table well formed. */
  lemma WithQuantityKeepsWellFormed(t: Table, nextId: int, id: int, q: Int32, now: Timestamp)
    requires WellFormed(t, nextId) && id in t && q >= 0
    ensures WellFormed(WithQuantity(t, id, q, now), nextId)
  {
  }

  /** Changing one record's quantity changes the inventory value by its price
      times the change, so adding `n` units adds `price * n`. */
  lemma TotalAfterQuantityChange(t: Table, id: int, q: Int32, now: Timestamp)
    requires id in t && t[id].price.Some? && t[id].quantity.Some?
    ensures Total(WithQuantity(t, id, q, now)) == Total(t) + t[id].price.value * (q - t[id].quantity.value)
  {
    TotalUpdate(t, id, PreUpdate(t[id].(quantity := Some(q)), now));
  }

  /** Removing the units just added restores the record, except for its
      modification time. */
  lemma AddThenRemoveRestores(t: Table, id: int, n: Int32, now1: Timestamp, now2: Timestamp)
    requires id in t && t[id].quantity.Some? && 0 <= t[id].quantity.value + n <= IntMax
    ensures var q := t[id].quantity.value;
            WithQuantity(WithQuantity(t, id, q + n, now1), id, q, now2) == t[id := PreUpdate(t[id], now2)]
  {
  }

  // ---------------------------------------------------------------------------
  // Read operations

  /** `getTotalInventoryValue`: the SUM query, with a null sum read as 0. */
  ghost function GetTotalInventoryValue(t: Table): int {
    match SumInventoryValue(t)
    case Some(v) => v
    case None => 0
  }

  /** The value the service reports is always the sum of price times
      quantity over every record, inactive ones included. */
  lemma TotalInventoryValueIsSum(t: Table)
    ensures GetTotalInventoryValue(t) == Total(t)
  {
    if SumInventoryValue(t).None? {
      TotalWithoutValues(t);
    }
  }

  /** An empty store is worth exactly 0. */
  lemma EmptyStoreIsWorthZero()
    ensures GetTotalInventoryValue(map[]) == 0
  {
  }

  /** A well-formed store is never worth less than 0. */
  lemma StoreValueNonNegative(t: Table, nextId: int)
    requires WellFormed(t, nextId)
    ensures GetTotalInventoryValue(t) >= 0
  {
    TotalInventoryValueIsSum(t);
    forall id | id in t ensures Value(t[id]) >= 0 {
      assert IsValid(t[id]);
    }
    TotalNonNegative(t);
  }

  /** `getOutOfStockProducts`: `findByQuantity(0)`. */
  function GetOutOfStockProducts(t: Table): Table {
    FindByQuantity(t, 0)
  }

  /** Out of stock means a quantity of exactly 0, whatever the threshold. */
  lemma OutOfStockExactly(t: Table, id: int)
    requires id in t
    ensures id in GetOutOfStockProducts(t) <==> t[id].quantity == Some(0)
  {
  }

  /** A record with 5 units under a threshold of 10 is low stock; one with 0
      units and a threshold of 0 is out of stock but not low stock. */
  lemma LowStockScenario(a: Product, b: Product)
    requires a.quantity == Some(5) && a.minQuantity == Some(10)
    requires b.quantity == Some(0) && b.minQuantity == Some(0)
    ensures 1 in FindLowStockProducts(map[1 := a, 2 := b])
    ensures 2 in GetOutOfStockProducts(map[1 := a, 2 := b])
    ensures 2 !in FindLowStockProducts(map[1 := a, 2 := b])
  {
  }

  /** The sort direction `getAllProducts` uses. */
  datatype Direction = Ascending | Descending

  /** Descending exactly when the argument equals "desc" ignoring case. */
  function SortDirection(sortDir: string): Direction {
    if EqualsIgnoreCase(sortDir, "desc") then Descending else Ascending
  }

  /** Descending is chosen exactly for the spellings of "desc" in any case. */
  lemma SortDirectionIsDescIgnoringCase(sortDir: string)
    ensures SortDirection(sortDir) == Descending <==> Lower(sortDir) == "desc"
  {
    EqualsIgnoreCaseIsLowerEquality(sortDir, "desc");
    assert Lower("desc") == "desc";
  }

  /** Examples of the direction choice. */
  lemma SortDirectionExamples()
    ensures SortDirection("desc") == Descending && SortDirection("DESC") == Descending
    ensures SortDirection("Desc") == Descending
    ensures SortDirection("asc") == Ascending && SortDirection("descending") == Ascending
    ensures SortDirection("") == Ascending
  {
  }

  // ---------------------------------------------------------------------------
  // Stock addition as written

  /** `addStock` as the source writes it: the new quantity is the Java `int`
      sum, which wraps around past `Integer.MAX_VALUE`. */
  function AddStockAsWritten(t: Table, id: int, amount: Int32, now: Timestamp): Result<Table>
    requires forall i :: i in t ==> t[i].quantity.Some?
  {
    if id !in t then Err(NotFound)
    else if amount < 0 then Err(InvalidQuantity)
    else Ok(WithQuantity(t, id, WrapAdd(t[id].quantity.value, amount), now))
  }

  /** A store holding one product with `Integer.MAX_VALUE` units: the
      service's own arithmetic turns one more unit into `Integer.MIN_VALUE`,
      and the table it hands to `save` is no longer well formed. Whether that
      write is committed depends on bean validation when the change is
      flushed, which is outside this model. */
  lemma AddStockAsWrittenOverflows(p: Product, now: Timestamp)
    requires IsValid(p.(id := Some(1))) && p.quantity == Some(IntMax)
    ensures WellFormed(map[1 := p.(id := Some(1))], 2)
    ensures var r := AddStockAsWritten(map[1 := p.(id := Some(1))], 1, 1, now);
            r.Ok? && r.value[1].quantity == Some(IntMin) && !WellFormed(r.value, 2)
  {
  }

  // ---------------------------------------------------------------------------
  // Scenarios

  /** Creating two products with the same SKU: the second is refused and the
      store holds exactly one record with that SKU. */
  method DuplicateSkuScenario(store: ProductStore, draft: Product)
    requires store.Valid() && IsValid(draft)
    modifies store
    ensures store.Valid()
    ensures |set id | id in store.products && store.products[id].sku == draft.sku| == 1
  {
    var n := store.nextId;
    var first := store.CreateProduct(draft);
    if first.Ok? {
      assert n in store.products && store.products[n].sku == draft.sku;
    }
    assert ExistsBySku(store.products, draft.sku.value);
    var second := store.CreateProduct(draft);
    assert second == Err(DuplicateKey);
    SkuHeldOnce(store.products, draft.sku.value);
  }

  /** A soft-deleted product comes back when it is updated with an active
      draft carrying its own SKU. */
  method ReactivationScenario(store: ProductStore, id: int, details: Product, now1: Timestamp, now2: Timestamp)
    requires store.Valid() && id in store.products && IsValid(details)
    requires details.sku == store.products[id].sku && details.isActive == Some(true)
    modifies store
    ensures store.Valid() && id in store.products && store.products[id].isActive == Some(true)
  {
    var deleted := store.DeleteProduct(id, now1);
    assert store.products[id].isActive == Some(false);
    var updated := store.UpdateProduct(id, details, now2);
  }
}
