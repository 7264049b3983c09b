/** The `Product` record: its fields, the constraints its validation
    annotations impose, its two constructors and the `@PreUpdate` hook. */
module ProductEntity {
  import opened Common

  /** A `LocalDateTime`, only compared and copied here. */
  type Timestamp = int

  /** A `BigDecimal` price with two decimals, as a whole number of cents. */
  type Cents = int

  /** Every field the entity's code or a bound form can leave null is an
      `Option`, the `Boolean` active flag included. The two timestamps are
      plain values: both constructors set them and `@PreUpdate` only ever
      overwrites the modification time with a fresh reading. */
  datatype Product = Product(
    id: Option<int>,
    name: Option<string>,
    description: Option<string>,
    sku: Option<string>,
    price: Option<Cents>,
    quantity: Option<Int32>,
    minQuantity: Option<Int32>,
    category: Option<string>,
    brand: Option<string>,
    unit: Option<string>,
    createdAt: Timestamp,
    updatedAt: Timestamp,
    isActive: Option<bool>)

  /** `@Size(max = ...)`: a null value passes. */
  predicate AtMost(s: Option<string>, max: nat) {
    s.None? || |s.value| <= max
  }

  /** `@NotBlank` together with `@Size(min, max)`. */
  predicate NotBlankSized(s: Option<string>, min: nat, max: nat) {
    s.Some? && !IsBlank(s.value) && min <= |s.value| <= max
  }

  /** The bean-validation constraints declared on the entity's fields. */
  predicate IsValid(p: Product) {
    && NotBlankSized(p.name, 2, 100)
    && AtMost(p.description, 500)
    && NotBlankSized(p.sku, 3, 20)
    && p.price.Some? && p.price.value >= 1
    && p.quantity.Some? && p.quantity.value >= 0
    && (p.minQuantity.None? || p.minQuantity.value >= 0)
    && AtMost(p.category, 50)
    && AtMost(p.brand, 50)
    && AtMost(p.unit, 20)
  }

  /** The no-argument constructor: each timestamp is its own reading of the
      clock, the record is active and every other field is null. */
  function NewProduct(created: Timestamp, updated: Timestamp): (p: Product)
    ensures p.isActive == Some(true) && p.createdAt == created && p.updatedAt == updated
    ensures p.id.None? && p.name.None? && p.description.None? && p.sku.None?
    ensures p.price.None? && p.quantity.None? && p.minQuantity.None?
    ensures p.category.None? && p.brand.None? && p.unit.None?
  {
    Product(None, None, None, None, None, None, None, None, None, None, created, updated, Some(true))
  }

  /** The four-argument constructor: the no-argument one, then the name, SKU,
      price and quantity. */
  function NewProductWith(name: string, sku: string, price: Cents, quantity: Int32, created: Timestamp, updated: Timestamp): (p: Product)
    ensures p.name == Some(name) && p.sku == Some(sku)
    ensures p.price == Some(price) && p.quantity == Some(quantity)
    ensures p.(name := None, sku := None, price := None, quantity := None) == NewProduct(created, updated)
  {
    NewProduct(created, updated).(name := Some(name), sku := Some(sku), price := Some(price), quantity := Some(quantity))
  }

  /** `@PreUpdate`: stamps the modification time and nothing else. */
  function PreUpdate(p: Product, now: Timestamp): (q: Product)
    ensures q.updatedAt == now && q.createdAt == p.createdAt
    ensures q.(updatedAt := p.updatedAt) == p
  {
    p.(updatedAt := now)
  }

  /** A record built by the no-argument constructor is never valid: name,
      SKU, price and quantity are still null. */
  lemma NewProductIsInvalid(created: Timestamp, updated: Timestamp)
    ensures !IsValid(NewProduct(created, updated))
  {
  }

  /** The four-argument constructor yields a valid record exactly when its
      four arguments meet their own constraints, since the fields it leaves
      null carry only `@Size` limits, which null passes. */
  lemma NewProductWithValidity(name: string, sku: string, price: Cents, quantity: Int32, created: Timestamp, updated: Timestamp)
    ensures IsValid(NewProductWith(name, sku, price, quantity, created, updated)) <==>
      (&& !IsBlank(name) && 2 <= |name| <= 100
       && !IsBlank(sku) && 3 <= |sku| <= 20
       && price >= 1 && quantity >= 0)
  {
  }

  /** What a valid record guarantees about each field. */
  lemma ValidFields(p: Product)
    requires IsValid(p)
    ensures p.name.Some? && 2 <= |p.name.value| <= 100
    ensures exists i :: 0 <= i < |p.name.value| && p.name.value[i] > ' '
    ensures p.sku.Some? && 3 <= |p.sku.value| <= 20
    ensures exists i :: 0 <= i < |p.sku.value| && p.sku.value[i] > ' '
    ensures p.price.Some? && p.price.value >= 1
    ensures p.quantity.Some? && p.quantity.value >= 0
    ensures p.minQuantity.Some? ==> p.minQuantity.value >= 0
    ensures p.description.Some? ==> |p.description.value| <= 500
    ensures p.category.Some? ==> |p.category.value| <= 50
    ensures p.brand.Some? ==> |p.brand.value| <= 50
    ensures p.unit.Some? ==> |p.unit.value| <= 20
  {
  }

  /** Stamping the modification time keeps a record valid. */
  lemma PreUpdateKeepsValidity(p: Product, now: Timestamp)
    ensures IsValid(PreUpdate(p, now)) <==> IsValid(p)
  {
  }
}
