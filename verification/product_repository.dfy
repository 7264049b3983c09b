/** The products table and the queries the product repository declares, as
    functions over the table. SQL comparisons against a null column are never
    true, so a record with a null field fails any filter on that field. */
module ProductRepository {
  import opened Common
  import opened ProductEntity

  /** The products table: each record under its id. */
  type Table = map<int, Product>

  // ---------------------------------------------------------------------------
  // Lookups by SKU

  /** `existsBySku`: some record, active or not, holds exactly this SKU. */
  predicate ExistsBySku(t: Table, sku: string) {
    exists id :: id in t && t[id].sku == Some(sku)
  }

  /** No two records hold the same (non-null) SKU. */
  ghost predicate SkusUnique(t: Table) {
    forall i, j :: i in t && j in t && t[i].sku.Some? && t[i].sku == t[j].sku ==> i == j
  }

  /** `findBySku`: the record holding this SKU, if any. */
  ghost function FindBySku(t: Table, sku: string): (r: Option<Product>)
    requires SkusUnique(t)
    ensures r.Some? <==> ExistsBySku(t, sku)
    ensures forall id :: id in t && t[id].sku == Some(sku) ==> r == Some(t[id])
  {
    if ExistsBySku(t, sku) then
      var id :| id in t && t[id].sku == Some(sku);
      Some(t[id])
    else
      None
  }

  /** With unique SKUs, a SKU that exists is held by exactly one record. */
  lemma SkuHeldOnce(t: Table, sku: string)
    requires SkusUnique(t) && ExistsBySku(t, sku)
    ensures |set id | id in t && t[id].sku == Some(sku)| == 1
  {
    var id :| id in t && t[id].sku == Some(sku);
    forall i | i in t && t[i].sku == Some(sku) ensures i == id {
    }
    assert (set i | i in t && t[i].sku == Some(sku)) == {id};
  }

  // ---------------------------------------------------------------------------
  // Multi-criteria search

  /** The optional parameters of `searchProducts`; `None` is a null argument. */
  datatype Criteria = Criteria(
    name: Option<string>,
    category: Option<string>,
    brand: Option<string>,
    minPrice: Option<Cents>,
    maxPrice: Option<Cents>,
    minQuantity: Option<Int32>)

  const NoCriteria: Criteria := Criteria(None, None, None, None, None, None)

  /** The WHERE clause of `searchProducts`: each parameter is either null or
      its test holds, and the six tests are combined with AND. The name test is
      `LIKE %name%`, case-sensitive; category and brand are exact equality;
      the price and quantity bounds are inclusive. `isActive` is not tested. */
  predicate Matches(p: Product, c: Criteria) {
    && (c.name.None? || (p.name.Some? && Contains(p.name.value, c.name.value)))
    && (c.category.None? || p.category == c.category)
    && (c.brand.None? || p.brand == c.brand)
    && (c.minPrice.None? || (p.price.Some? && p.price.value >= c.minPrice.value))
    && (c.maxPrice.None? || (p.price.Some? && p.price.value <= c.maxPrice.value))
    && (c.minQuantity.None? || (p.quantity.Some? && p.quantity.value >= c.minQuantity.value))
  }

  /** `searchProducts` before paging: the matching records. */
  function SearchProducts(t: Table, c: Criteria): Table {
    map id | id in t && Matches(t[id], c) :: t[id]
  }

  /** With every parameter null the search returns the whole table. */
  lemma SearchWithoutCriteria(t: Table)
    ensures SearchProducts(t, NoCriteria) == t
  {
    forall id | id in t ensures Matches(t[id], NoCriteria) {
    }
  }

  /** `d` keeps every filter of `c` (and may add more). */
  predicate Refines(d: Criteria, c: Criteria) {
    && (c.name.Some? ==> d.name == c.name)
    && (c.category.Some? ==> d.category == c.category)
    && (c.brand.Some? ==> d.brand == c.brand)
    && (c.minPrice.Some? ==> d.minPrice == c.minPrice)
    && (c.maxPrice.Some? ==> d.maxPrice == c.maxPrice)
    && (c.minQuantity.Some? ==> d.minQuantity == c.minQuantity)
  }

  /** Supplying more filters can only narrow the result. */
  lemma SearchNarrows(t: Table, c: Criteria, d: Criteria)
    requires Refines(d, c)
    ensures SearchProducts(t, d).Keys <= SearchProducts(t, c).Keys
  {
    forall id | id in SearchProducts(t, d) ensures id in SearchProducts(t, c) {
      assert Matches(t[id], d);
    }
  }

  /** The filters of `c`, completed with those of `d` where `c` has none. */
  function Combine(c: Criteria, d: Criteria): Criteria {
    Criteria(
      if c.name.Some? then c.name else d.name,
      if c.category.Some? then c.category else d.category,
      if c.brand.Some? then c.brand else d.brand,
      if c.minPrice.Some? then c.minPrice else d.minPrice,
      if c.maxPrice.Some? then c.maxPrice else d.maxPrice,
      if c.minQuantity.Some? then c.minQuantity else d.minQuantity)
  }

  /** `c` and `d` constrain different parameters. */
  predicate Disjoint(c: Criteria, d: Criteria) {
    && (c.name.None? || d.name.None?)
    && (c.category.None? || d.category.None?)
    && (c.brand.None? || d.brand.None?)
    && (c.minPrice.None? || d.minPrice.None?)
    && (c.maxPrice.None? || d.maxPrice.None?)
    && (c.minQuantity.None? || d.minQuantity.None?)
  }

  /** Filters combine with AND: searching with the filters of two disjoint
      criteria together finds exactly the records both searches find. */
  lemma SearchIsConjunction(t: Table, c: Criteria, d: Criteria)
    requires Disjoint(c, d)
    ensures SearchProducts(t, Combine(c, d)).Keys ==
            SearchProducts(t, c).Keys * SearchProducts(t, d).Keys
  {
    forall id | id in t ensures Matches(t[id], Combine(c, d)) <==> Matches(t[id], c) && Matches(t[id], d) {
    }
  }

  /** The search does not look at `isActive`: deactivating a record (or
      setting its flag to anything else, null included) leaves every search
      result set as it was. */
  lemma SearchIncludesInactive(t: Table, id: int, flag: Option<bool>, c: Criteria)
    requires id in t
    ensures SearchProducts(t[id := t[id].(isActive := flag)], c).Keys == SearchProducts(t, c).Keys
  {
  }

  /** The price and quantity bounds are inclusive: a record priced exactly at
      both bounds, with exactly the minimum quantity, matches. */
  lemma SearchBoundsInclusive(p: Product)
    requires p.price.Some? && p.quantity.Some?
    ensures Matches(p, NoCriteria.(minPrice := p.price, maxPrice := p.price, minQuantity := p.quantity))
  {
  }

  /** The name filter is case-sensitive: differing only in case is not a match. */
  lemma SearchNameIsCaseSensitive()
    ensures !Matches(Product(None, Some("ab"), None, None, None, None, None, None, None, None, 0, 0, Some(true)),
                     NoCriteria.(name := Some("A")))
  {
    assert !OccursAt("ab", "A", 0) by { assert "ab"[0 + 0] != "A"[0]; }
    assert !OccursAt("ab", "A", 1) by { assert "ab"[1 + 0] != "A"[0]; }
  }

  /** `findByNameContainingIgnoreCase`: the name contains the argument after
      both are lower-cased. */
  function FindByNameContainingIgnoreCase(t: Table, s: string): Table {
    map id | id in t && t[id].name.Some? && Contains(Lower(t[id].name.value), Lower(s)) :: t[id]
  }

  /** Everything the case-sensitive name search finds, the case-insensitive
      variant finds too. */
  lemma NameSearchWithinIgnoreCase(t: Table, s: string)
    ensures SearchProducts(t, NoCriteria.(name := Some(s))).Keys <= FindByNameContainingIgnoreCase(t, s).Keys
  {
    forall id | id in SearchProducts(t, NoCriteria.(name := Some(s)))
      ensures id in FindByNameContainingIgnoreCase(t, s)
    {
      ContainsIgnoringCase(t[id].name.value, s);
    }
  }

  // ---------------------------------------------------------------------------
  // Stock queries

  /** `quantity <= minQuantity AND minQuantity > 0`. */
  predicate IsLowStock(p: Product) {
    p.quantity.Some? && p.minQuantity.Some? && p.quantity.value <= p.minQuantity.value && p.minQuantity.value > 0
  }

  /** `findLowStockProducts`. */
  function FindLowStockProducts(t: Table): Table {
    map id | id in t && IsLowStock(t[id]) :: t[id]
  }

  /** `findByQuantity`: records whose quantity equals the argument. */
  function FindByQuantity(t: Table, q: Int32): Table {
    map id | id in t && t[id].quantity == Some(q) :: t[id]
  }

  /** A record with no threshold, or a threshold of 0, is never low stock,
      whatever its quantity. */
  lemma NoThresholdNeverLowStock(t: Table, id: int)
    requires id in t && (t[id].minQuantity.None? || t[id].minQuantity == Some(0))
    ensures id !in FindLowStockProducts(t)
  {
  }

  /** A record is low stock exactly when it has a positive threshold and its
      quantity does not exceed it. */
  lemma LowStockExactly(t: Table, id: int)
    requires id in t && t[id].quantity.Some?
    ensures id in FindLowStockProducts(t) <==>
      exists m :: m > 0 && t[id].minQuantity == Some(m) && t[id].quantity.value <= m
  {
    if id in FindLowStockProducts(t) {
      var m := t[id].minQuantity.value;
      assert m > 0 && t[id].minQuantity == Some(m);
    }
  }

  /** An empty shelf with a positive threshold is both out of stock and low
      stock; with no threshold it is only out of stock. */
  lemma OutOfStockVersusLowStock(t: Table, id: int)
    requires id in t && t[id].quantity == Some(0)
    ensures id in FindByQuantity(t, 0)
    ensures (t[id].minQuantity.Some? && t[id].minQuantity.value > 0) <==> id in FindLowStockProducts(t)
  {
  }

  // ---------------------------------------------------------------------------
  // Inventory value

  /** `price * quantity`; SQL makes the product null when either is null,
      and SUM skips nulls, so such a record adds nothing. */
  function Value(p: Product): int {
    if p.price.Some? && p.quantity.Some? then p.price.value * p.quantity.value else 0
  }

  /** The record has a non-null `price * quantity`. */
  predicate HasValue(p: Product) {
    p.price.Some? && p.quantity.Some?
  }

  /** The sum of `Value` over the table. */
  ghost function Total(t: Table): int
    decreases |t|
  {
    if |t| == 0 then 0 else Value(t[AnyKey(t)]) + Total(t - {AnyKey(t)})
  }

  /** `SELECT SUM(p.price * p.quantity)`: null when no row has a value. */
  ghost function SumInventoryValue(t: Table): Option<int> {
    if exists id :: id in t && HasValue(t[id]) then Some(Total(t)) else None
  }

  /** The total may be taken apart at any record. */
  lemma {:induction false} TotalRemove(t: Table, id: int)
    requires id in t
    ensures Total(t) == Value(t[id]) + Total(t - {id})
    decreases |t|
  {
    var k := AnyKey(t);
    if k != id {
      var rest := t - {k} - {id};
      assert t - {id} - {k} == rest;
      TotalRemove(t - {k}, id);
      TotalRemove(t - {id}, k);
    }
  }

  /** Replacing one record changes the total by the change in its value. */
  lemma TotalUpdate(t: Table, id: int, p: Product)
    requires id in t
    ensures Total(t[id := p]) == Total(t) - Value(t[id]) + Value(p)
  {
    TotalRemove(t, id);
    TotalRemove(t[id := p], id);
    assert t[id := p] - {id} == t - {id};
  }

  /** Inserting a record under a fresh id adds its value to the total. */
  lemma TotalInsert(t: Table, id: int, p: Product)
    requires id !in t
    ensures Total(t[id := p]) == Total(t) + Value(p)
  {
    TotalRemove(t[id := p], id);
    assert t[id := p] - {id} == t;
  }

  /** Removing a record removes its value from the total. */
  lemma TotalDelete(t: Table, id: int)
    ensures id in t ==> Total(t - {id}) == Total(t) - Value(t[id])
    ensures id !in t ==> Total(t - {id}) == Total(t)
  {
    if id in t {
      TotalRemove(t, id);
    } else {
      assert t - {id} == t;
    }
  }

  /** A table whose records all lack a value totals 0. */
  lemma {:induction false} TotalWithoutValues(t: Table)
    requires forall id :: id in t ==> !HasValue(t[id])
    ensures Total(t) == 0
    decreases |t|
  {
    if |t| != 0 {
      var id := AnyKey(t);
      TotalRemove(t, id);
      TotalWithoutValues(t - {id});
    }
  }

  /** Records with non-negative price and quantity give a non-negative total. */
  lemma {:induction false} TotalNonNegative(t: Table)
    requires forall id :: id in t ==> Value(t[id]) >= 0
    ensures Total(t) >= 0
    decreases |t|
  {
    if |t| != 0 {
      var id := AnyKey(t);
      TotalRemove(t, id);
      TotalNonNegative(t - {id});
    }
  }

  // ---------------------------------------------------------------------------
  // Grouping by category

  /** The distinct category values held (null is a value of its own). */
  function CategoriesOf(t: Table): set<Option<string>> {
    set id | id in t :: t[id].category
  }

  /** The ids of the records in one category group. */
  function InCategory(t: Table, c: Option<string>): set<int> {
    set id | id in t && t[id].category == c
  }

  /** `SELECT p.category, COUNT(p) ... GROUP BY p.category`. */
  function CountProductsByCategory(t: Table): map<Option<string>, nat> {
    map c | c in CategoriesOf(t) :: |InCategory(t, c)|
  }

  /** The sum of the counts in a grouping. */
  ghost function SumCounts(m: map<Option<string>, nat>): nat
    decreases |m|
  {
    if |m| == 0 then 0 else m[AnyKey(m)] + SumCounts(m - {AnyKey(m)})
  }

  /** The sum of the counts may be taken apart at any group. */
  lemma {:induction false} SumCountsRemove(m: map<Option<string>, nat>, c: Option<string>)
    requires c in m
    ensures SumCounts(m) == m[c] + SumCounts(m - {c})
    decreases |m|
  {
    var k := AnyKey(m);
    if k != c {
      assert m - {c} - {k} == m - {k} - {c};
      SumCountsRemove(m - {k}, c);
      SumCountsRemove(m - {c}, k);
    }
  }

  /** Every group the query reports holds at least one record. */
  lemma CategoryGroupsNonEmpty(t: Table, c: Option<string>)
    requires c in CountProductsByCategory(t)
    ensures CountProductsByCategory(t)[c] >= 1
  {
    var id :| id in t && t[id].category == c;
    assert id in InCategory(t, c);
  }

  /** Taking one record out of the table only shrinks its own group. */
  lemma InCategoryWithout(t: Table, k: int, c: Option<string>)
    requires k in t
    ensures t[k].category == c ==> InCategory(t, c) == InCategory(t - {k}, c) + {k} && k !in InCategory(t - {k}, c)
    ensures t[k].category != c ==> InCategory(t, c) == InCategory(t - {k}, c)
  {
  }

  /** A category value is reported exactly when some record holds it. */
  lemma CategoryReportedIffHeld(t: Table, c: Option<string>)
    ensures c in CategoriesOf(t) <==> |InCategory(t, c)| != 0
  {
    if c in CategoriesOf(t) {
      var id :| id in t && t[id].category == c;
      assert id in InCategory(t, c);
    }
    if |InCategory(t, c)| != 0 {
      var id := AnyElement(InCategory(t, c));
      assert c in CategoriesOf(t);
    }
  }

  /** Taking record `k` out of the table: its group loses one member and
      disappears if that was its last; every other group stays as it was. */
  lemma CountsWithout(t: Table, k: int)
    requires k in t
    ensures var c := t[k].category;
            var m := CountProductsByCategory(t);
            && c in m && m[c] >= 1
            && CountProductsByCategory(t - {k}) == if m[c] == 1 then m - {c} else m[c := m[c] - 1]
  {
    var c := t[k].category;
    var t' := t - {k};
    var m := CountProductsByCategory(t);
    var m' := CountProductsByCategory(t');
    var expected := if m[c] == 1 then m - {c} else m[c := m[c] - 1];
    InCategoryWithout(t, k, c);
    CategoryReportedIffHeld(t, c);
    CategoryReportedIffHeld(t', c);
    forall c2 | c2 != c
      ensures (c2 in m' <==> c2 in m) && (c2 in m ==> m'[c2] == m[c2])
    {
      InCategoryWithout(t, k, c2);
      CategoryReportedIffHeld(t, c2);
      CategoryReportedIffHeld(t', c2);
    }
    assert m'.Keys == expected.Keys;
  }

  /** Lowering one group's count by one, and dropping the group when it
      reaches 0, lowers the sum of the counts by one. */
  lemma SumCountsDecrement(m: map<Option<string>, nat>, c: Option<string>)
    requires c in m && m[c] >= 1
    ensures SumCounts(if m[c] == 1 then m - {c} else m[c := m[c] - 1]) + 1 == SumCounts(m)
  {
    SumCountsRemove(m, c);
    if m[c] != 1 {
      var m' := m[c := m[c] - 1];
      SumCountsRemove(m', c);
      assert m' - {c} == m - {c};
    }
  }

  /** The group counts add up to the number of records. */
  lemma {:induction false} CategoryCountsSumToSize(t: Table)
    ensures SumCounts(CountProductsByCategory(t)) == |t|
    decreases |t|
  {
    if |t| == 0 {
      assert CountProductsByCategory(t) == map[];
    } else {
      var k := AnyKey(t);
      var t' := t - {k};
      assert t'.Keys == t.Keys - {k};
      CategoryCountsSumToSize(t');
      CountsWithout(t, k);
      SumCountsDecrement(CountProductsByCategory(t), t[k].category);
    }
  }
}
