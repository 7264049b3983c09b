# Inventory domain model

A Dafny model of the domain layer of a small Spring inventory application:

- the product table and the category table, each with the counter that hands
  out fresh identities;
- the service operations that change those tables;
- the queries the two repositories declare.

A `Product` is a value (`ProductEntity.Product`). Every field that the code
or a bound form can leave null is an `Option`, including the `Boolean` active
flag. A null flag means neither active nor soft-deleted. The two timestamps
are plain values, because both constructors set them and `@PreUpdate` only
overwrites the modification time. The price is a whole number of cents, and quantities are Java
`int`s (`Common.Int32`).

The read side is made of pure functions over `map<int, Product>` and
`map<int, Category>`:

- the JPQL search filter;
- the low-stock and out-of-stock rules;
- the SUM and GROUP BY queries;
- the derived lookups.

The two services are classes, `ProductService.ProductStore` and
`CategoryService.CategoryStore`. Each holds its table and the next id, and
has one method per mutating operation. Each method states its error cases in
the order the code checks them, and states the whole new table. Each method
keeps the store's invariant:

- every record sits under its own id;
- no two records share a SKU (or a category name), active or not;
- every product passes its bean-validation constraints, so its quantity is
  never negative.

Some behaviour follows the code, not the usual description of the system:

- `addStock`, `removeStock` and `updateProductQuantity` look the record up
  before they check the amount, so NotFound wins over a negative amount.
- The name filter of `searchProducts` is a case-sensitive `LIKE '%name%'`.
  Only `findByNameContainingIgnoreCase` ignores case.
- `hardDeleteProduct` and `hardDeleteCategory` on a missing id change nothing
  and raise no error. With the Jakarta (Spring Data 3) stack,
  `deleteById` on a missing id is silent.
- `updateProduct` and `updateCategory` copy `isActive` from the draft, so an
  update can reactivate a soft-deleted record.

## Model

| member | source | states |
|---|---|---|
| Common.WrapAdd | src/main/java/com/example/project/service/ProductService.java:149 | Java `int` addition: the true sum when it fits in 32 bits, otherwise the sum shifted by 2^32, which is negative on overflow |
| Common.EqualsIgnoreCaseIsLowerEquality | src/main/java/com/example/project/service/ProductService.java:34 | two strings are equal ignoring case exactly when their lower-cased forms are equal |
| Common.ContainsIgnoringCase | src/main/java/com/example/project/repository/ProductRepository.java:22 | a case-sensitive substring match is also a match after lower-casing both sides |
| Common.LowerIdempotent | src/main/java/com/example/project/repository/CategoryRepository.java:23 | lower-casing twice is the same as lower-casing once |
| ProductEntity.IsValid | src/main/java/com/example/project/entity/Product.java:16-54 | the conjunction of the field annotations: `@NotBlank`, `@NotNull`, `@Size`, `@DecimalMin("0.01")` read as at least 1 cent, and `@Min(0)` |
| ProductEntity.NewProduct | src/main/java/com/example/project/entity/Product.java:62-69 | a new product is active; its creation and modification times are two separate clock readings; every other field is null |
| ProductEntity.NewProductWith | src/main/java/com/example/project/entity/Product.java:71-78 | sets exactly name, SKU, price and quantity; every other field is as the no-argument constructor leaves it |
| ProductEntity.PreUpdate | src/main/java/com/example/project/entity/Product.java:185-188 | sets the modification time and changes nothing else; the creation time is kept |
| ProductEntity.NewProductIsInvalid | src/main/java/com/example/project/entity/Product.java:16-38 | a product from the no-argument constructor fails validation, because its required fields are null |
| ProductEntity.NewProductWithValidity | src/main/java/com/example/project/entity/Product.java:16-78 | a product from the four-argument constructor is valid exactly when the name is non-blank with 2-100 characters, the SKU is non-blank with 3-20 characters, the price is at least 1 cent and the quantity is at least 0 |
| ProductEntity.ValidFields | src/main/java/com/example/project/entity/Product.java:16-54 | a valid product has: a non-blank name of 2-100 characters; a non-blank SKU of 3-20 characters; a price of at least 0.01; a quantity of at least 0; a minimum quantity of at least 0 when it is set; and the length limits 500/50/50/20 on description, category, brand and unit |
| ProductEntity.PreUpdateKeepsValidity | src/main/java/com/example/project/entity/Product.java:185-188 | setting the modification time neither breaks nor repairs validity |
| ProductRepository.ExistsBySku | src/main/java/com/example/project/repository/ProductRepository.java:76 | some record, active or not, holds exactly this SKU (case-sensitive) |
| ProductRepository.FindBySku | src/main/java/com/example/project/repository/ProductRepository.java:19 | finds a product exactly when `existsBySku` holds, and what it finds is the product holding that SKU |
| ProductRepository.SkuHeldOnce | src/main/java/com/example/project/entity/Product.java:25-28 | when SKUs are unique, a SKU that exists is held by exactly one record |
| ProductRepository.Matches | src/main/java/com/example/project/repository/ProductRepository.java:50-56 | the JPQL WHERE clause for one row: each of the six filters holds when it is absent or when the row meets it; a comparison with a null column fails; name is a substring test, category and brand are equality tests, and the price and quantity bounds are inclusive |
| ProductRepository.SearchProducts | src/main/java/com/example/project/repository/ProductRepository.java:50-56 | the rows of the table that `Matches` the criteria, paging aside |
| ProductRepository.SearchWithoutCriteria | src/main/java/com/example/project/repository/ProductRepository.java:50-56 | with every filter absent, the search returns the whole table |
| ProductRepository.SearchNarrows | src/main/java/com/example/project/repository/ProductRepository.java:50-56 | adding filters never adds results |
| ProductRepository.SearchIsConjunction | src/main/java/com/example/project/repository/ProductRepository.java:50-56 | the search with two non-overlapping sets of filters returns the intersection of the two searches |
| ProductRepository.SearchIncludesInactive | src/main/java/com/example/project/repository/ProductRepository.java:50-56 | changing a product's active flag, to false or to null, does not change which products any search returns |
| ProductRepository.SearchBoundsInclusive | src/main/java/com/example/project/repository/ProductRepository.java:54-56 | minimum price, maximum price and minimum quantity are inclusive bounds |
| ProductRepository.SearchNameIsCaseSensitive | src/main/java/com/example/project/repository/ProductRepository.java:51 | the name filter "A" does not match the name "ab" |
| ProductRepository.FindByNameContainingIgnoreCase | src/main/java/com/example/project/repository/ProductRepository.java:22 | the rows whose name, lower-cased, contains the lower-cased argument; a null name never matches |
| ProductRepository.NameSearchWithinIgnoreCase | src/main/java/com/example/project/repository/ProductRepository.java:22 | every product the name filter finds is also found by the case-insensitive name search |
| ProductRepository.IsLowStock | src/main/java/com/example/project/repository/ProductRepository.java:34 | `quantity <= minQuantity AND minQuantity > 0`, false when either column is null |
| ProductRepository.FindLowStockProducts | src/main/java/com/example/project/repository/ProductRepository.java:33-35 | the rows that are low stock |
| ProductRepository.FindByQuantity | src/main/java/com/example/project/repository/ProductRepository.java:38 | the rows whose quantity equals the argument; a null quantity never matches |
| ProductRepository.NoThresholdNeverLowStock | src/main/java/com/example/project/repository/ProductRepository.java:33-35 | a product whose minimum quantity is null or 0 is never low stock |
| ProductRepository.LowStockExactly | src/main/java/com/example/project/repository/ProductRepository.java:33-35 | a product is low stock exactly when its minimum quantity is set, is positive, and is at least its quantity |
| ProductRepository.OutOfStockVersusLowStock | src/main/java/com/example/project/repository/ProductRepository.java:34-38 | a product with 0 units is always found by `findByQuantity(0)`; it is low stock only when its threshold is positive |
| ProductRepository.Total | src/main/java/com/example/project/repository/ProductRepository.java:72-73 | the sum of price times quantity over the rows, a row with a null factor adding nothing |
| ProductRepository.SumInventoryValue | src/main/java/com/example/project/repository/ProductRepository.java:72-73 | the SQL SUM: null when no row has both a price and a quantity, otherwise `Total` |
| ProductRepository.TotalRemove | src/main/java/com/example/project/repository/ProductRepository.java:72-73 | the total value is one record's price times quantity plus the total of the rest |
| ProductRepository.TotalUpdate | src/main/java/com/example/project/repository/ProductRepository.java:72-73 | replacing a record changes the total by the difference of the two records' values |
| ProductRepository.TotalInsert | src/main/java/com/example/project/repository/ProductRepository.java:72-73 | adding a record adds its value to the total |
| ProductRepository.TotalDelete | src/main/java/com/example/project/repository/ProductRepository.java:72-73 | removing a record subtracts its value; removing a missing id changes nothing |
| ProductRepository.TotalWithoutValues | src/main/java/com/example/project/repository/ProductRepository.java:72-73 | when no record has both a price and a quantity, the total is 0 |
| ProductRepository.TotalNonNegative | src/main/java/com/example/project/repository/ProductRepository.java:72-73 | when no record has a negative value, the total is not negative |
| ProductRepository.CountProductsByCategory | src/main/java/com/example/project/repository/ProductRepository.java:68-69 | one entry per distinct category value held, null included, mapped to the number of rows holding it |
| ProductRepository.CategoryGroupsNonEmpty | src/main/java/com/example/project/repository/ProductRepository.java:68-69 | every category the count reports has at least one product |
| ProductRepository.InCategoryWithout | src/main/java/com/example/project/repository/ProductRepository.java:68-69 | removing a record takes it out of its own category group and no other |
| ProductRepository.CategoryReportedIffHeld | src/main/java/com/example/project/repository/ProductRepository.java:68-69 | a category value, null included, is reported exactly when some product has it |
| ProductRepository.CountsWithout | src/main/java/com/example/project/repository/ProductRepository.java:68-69 | removing a record lowers its category's count by one, drops that category when the count reaches 0, and leaves the other counts alone |
| ProductRepository.CategoryCountsSumToSize | src/main/java/com/example/project/repository/ProductRepository.java:68-69 | the counts per category sum to the number of products |
| ProductService.ProductStore.CreateProduct | src/main/java/com/example/project/service/ProductService.java:25-30 | fails with DuplicateKey, leaving the store unchanged, exactly when a record (active or not) already holds the SKU; otherwise it adds exactly one record under a fresh id; SKUs stay unique |
| ProductService.ProductStore.UpdateProduct | src/main/java/com/example/project/service/ProductService.java:57-79 | a missing id gives NotFound; a change to a SKU that is already held gives DuplicateKey; both leave the store unchanged; on success the ten editable fields are copied from the draft, id and creation time are kept, the modification time is set, and SKUs stay unique |
| ProductService.ProductStore.DeleteProduct | src/main/java/com/example/project/service/ProductService.java:82-87 | a missing id gives NotFound; otherwise only `isActive` is cleared (and the modification time set); the record count is unchanged |
| ProductService.ProductStore.HardDeleteProduct | src/main/java/com/example/project/service/ProductService.java:90-92 | afterwards no record has the id, every other record is unchanged, and the count drops by one exactly when the id was present |
| ProductService.ProductStore.UpdateProductQuantity | src/main/java/com/example/project/service/ProductService.java:128-138 | checks NotFound first, then rejects a negative quantity; otherwise the quantity becomes exactly the new value |
| ProductService.ProductStore.AddStock | src/main/java/com/example/project/service/ProductService.java:141-151 | checks NotFound first, then rejects a negative amount, then rejects a sum above `Integer.MAX_VALUE`; otherwise the quantity grows by exactly the amount and only it and the modification time change |
| ProductService.ProductStore.RemoveStock | src/main/java/com/example/project/service/ProductService.java:154-168 | checks NotFound, then a negative amount, then InsufficientStock; a failure changes nothing; otherwise the quantity shrinks by exactly the amount and stays at least 0 |
| ProductService.WithQuantity | src/main/java/com/example/project/service/ProductService.java:136-137 | the table after `setQuantity` on one record and the save that stamps its modification time |
| ProductService.WithQuantityKeepsWellFormed | src/main/java/com/example/project/service/ProductService.java:136-137 | setting a non-negative quantity keeps the store's invariant |
| ProductService.TotalAfterQuantityChange | src/main/java/com/example/project/service/ProductService.java:141-151 | changing a quantity changes the total inventory value by the price times the change |
| ProductService.AddThenRemoveRestores | src/main/java/com/example/project/service/ProductService.java:141-168 | removing the units just added restores the record, apart from its modification time |
| ProductService.GetTotalInventoryValue | src/main/java/com/example/project/service/ProductService.java:171-174 | the SUM query, with a null result replaced by 0 |
| ProductService.TotalInventoryValueIsSum | src/main/java/com/example/project/service/ProductService.java:171-174 | the reported value is the sum of price times quantity over every record, inactive ones included; a null SQL sum is reported as 0 |
| ProductService.EmptyStoreIsWorthZero | src/main/java/com/example/project/service/ProductService.java:171-174 | an empty store is worth 0, not null |
| ProductService.StoreValueNonNegative | src/main/java/com/example/project/service/ProductService.java:171-174 | a store that keeps its invariant is never worth less than 0 |
| ProductService.GetOutOfStockProducts | src/main/java/com/example/project/service/ProductService.java:118-120 | `findByQuantity(0)` |
| ProductService.OutOfStockExactly | src/main/java/com/example/project/service/ProductService.java:118-120 | a product is out of stock exactly when its quantity is 0, whatever its threshold |
| ProductService.LowStockScenario | src/main/java/com/example/project/service/ProductService.java:112-120 | 5 units under a threshold of 10 is low stock; 0 units with threshold 0 is out of stock but not low stock |
| ProductService.SortDirection | src/main/java/com/example/project/service/ProductService.java:33-35 | descending when the argument equals "desc" ignoring case, ascending otherwise |
| ProductService.SortDirectionIsDescIgnoringCase | src/main/java/com/example/project/service/ProductService.java:33-35 | the sort is descending exactly when the direction argument lower-cases to "desc" |
| ProductService.SortDirectionExamples | src/main/java/com/example/project/service/ProductService.java:34-35 | "desc", "DESC" and "Desc" sort descending; "asc", "descending" and "" sort ascending |
| ProductService.AddStockAsWritten | src/main/java/com/example/project/service/ProductService.java:141-151 | `addStock` as written: NotFound, then a negative amount, then the quantity set to the wrapping `int` sum |
| ProductService.AddStockAsWrittenOverflows | src/main/java/com/example/project/service/ProductService.java:141-151 | as written, the service's own arithmetic turns `Integer.MAX_VALUE` units plus 1 into `Integer.MIN_VALUE`, and the table it hands to `save` breaks the store's invariant; whether that write is committed depends on flush-time bean validation, which is not modelled |
| ProductService.DuplicateSkuScenario | src/main/java/com/example/project/service/ProductService.java:25-30 | creating the same product twice leaves exactly one record with its SKU |
| ProductService.ReactivationScenario | src/main/java/com/example/project/service/ProductService.java:57-87 | a soft-deleted product is active again after an update with an active draft |
| CategoryRepository.ExistsByName | src/main/java/com/example/project/repository/CategoryRepository.java:20 | some category, active or not, has exactly this name |
| CategoryRepository.FindByName | src/main/java/com/example/project/repository/CategoryRepository.java:14 | finds a category exactly when `existsByName` holds, and what it finds is the category with that exact name |
| CategoryRepository.NameHeldOnce | src/main/java/com/example/project/repository/CategoryRepository.java:14-20 | when names are unique, a name that exists is held by exactly one category |
| CategoryRepository.FindByIsActiveTrue | src/main/java/com/example/project/repository/CategoryRepository.java:17 | the categories whose flag is true; a null flag is not active |
| CategoryRepository.DeactivationLeavesActive | src/main/java/com/example/project/repository/CategoryRepository.java:17 | setting a category's active flag to false, or to null, takes exactly that category out of the active ones |
| CategoryRepository.ActivationJoinsActive | src/main/java/com/example/project/repository/CategoryRepository.java:17 | setting the flag adds exactly that category to the active ones |
| CategoryRepository.FindByNameContainingIgnoreCase | src/main/java/com/example/project/repository/CategoryRepository.java:23 | the categories whose lower-cased name contains the lower-cased argument |
| CategoryRepository.SearchByEmptyFindsAll | src/main/java/com/example/project/repository/CategoryRepository.java:23 | the empty search string matches every category |
| CategoryRepository.SearchFindsExactName | src/main/java/com/example/project/repository/CategoryRepository.java:23 | searching for a category's full name, in any case, finds that category |
| CategoryRepository.SearchIgnoresCaseOfArgument | src/main/java/com/example/project/repository/CategoryRepository.java:23 | the search string and its lower-cased form give the same result |
| CategoryRepository.SearchFindsCaseSensitiveMatch | src/main/java/com/example/project/repository/CategoryRepository.java:23 | a name that contains the search string exactly is found |
| CategoryService.CategoryStore.CreateCategory | src/main/java/com/example/project/service/CategoryService.java:20-25 | fails with DuplicateKey, leaving the store unchanged, exactly when the name is already held; otherwise it adds exactly one record under a fresh id; names stay unique |
| CategoryService.CategoryStore.UpdateCategory | src/main/java/com/example/project/service/CategoryService.java:48-63 | a missing id gives NotFound; a rename to a name that is already held gives DuplicateKey; both leave the store unchanged; on success name, description and `isActive` are copied and the id is kept, and a rename frees the old name |
| CategoryService.CategoryStore.DeleteCategory | src/main/java/com/example/project/service/CategoryService.java:66-71 | a missing id gives NotFound; otherwise only `isActive` is cleared, the record stays, and it leaves the active categories |
| CategoryService.CategoryStore.HardDeleteCategory | src/main/java/com/example/project/service/CategoryService.java:74-76 | afterwards no category has the id and the others are unchanged; a missing id changes nothing |
| CategoryService.CategoryStore.GetActiveCategories | src/main/java/com/example/project/service/CategoryService.java:33-35 | exactly the categories whose `isActive` is true, each as stored |
| CategoryService.CategoryStore.CategoryExistsByName | src/main/java/com/example/project/service/CategoryService.java:84-86 | true exactly when the lookup by name finds a category, active or not |
| CategoryService.CategoryStore.GetCategoryCount | src/main/java/com/example/project/service/CategoryService.java:88-91 | the number of records, inactive ones included |
| CategoryService.DeletedNameStaysTaken | src/main/java/com/example/project/service/CategoryService.java:20-25 | creating a category, soft-deleting it and creating it again: the second create is refused, and the name keeps exactly one holder, which is not active |

## Left out

- Spring and JPA are not modelled: dependency injection, transactions, the database, and identity generation beyond a counter. Concurrent check-then-write races are out of scope; the model is sequential.
- A `Product` is a value, not a managed entity. Two references to one entity, and Hibernate's dirty checking, are not captured. `@PreUpdate` is applied on every save, even when no field changed (Hibernate would skip it then).
- Draft validity is a precondition of `createProduct` and `updateProduct`, standing for the controller's `@Valid`. A draft that carries an existing id is stored under a fresh id; `save` would instead merge it into that id.
- `LocalDateTime.now()` is a parameter. The constructor's two readings are two parameters; each save's reading is a `now` parameter. Ids are unbounded integers, not `Long`.
- The two timestamps are taken to be always set. A null timestamp could only come from a client that binds one explicitly, which the services never do.
- Bean validation at flush time is not modelled. JPA validates an entity before insert and update, and a violation there rolls back the transaction. The model's tables hold exactly what the services hand to `save`. Whether an invalid write (such as the wrapped quantity in Findings) would reach the database therefore lies outside the model.
- Prices are whole cents. The column's precision of 10 digits and `BigDecimal` rounding are not modelled.
- `LIKE` wildcard characters inside search strings, and database collation, are not modelled. Name matching is exact character comparison.
- Case folding covers ASCII only. Lengths count characters, not UTF-16 code units. Blank means every character is at or below U+0020, as `String.trim` does.
- Paging is not modelled: `PageRequest`, sorting by an arbitrary field, page counts. Only the choice of sort direction is.
- Plain delegations to a single repository call are not modelled: `getAllProducts()`, `getProductById`, `getProductBySku` (see `FindBySku`), `getProductsByCategory`, `getProductsByBrand`, `getActiveProducts`, `getProductsByNameContaining` (see `FindByNameContainingIgnoreCase`), `getProductCountByCategory` (see `CountProductsByCategory`), `productExistsBySku`, `findByPriceBetween`/`LessThan`/`GreaterThan`, `getAllCategories`, `getCategoryById`, `getCategoryByName` and `searchCategoriesByName`.
- The Category entity class is not part of this model. A category carries the id, name, description and active flag that the service uses. The flag is taken to be a nullable `Boolean`, like the product's. Any validation constraints and timestamps it may declare are not modelled.
- The controllers and the exception message text are not modelled. Errors are the four kinds of `Common.Error`.
- ProductService.ProductStore.AddStock: this is the corrected operation. It rejects a sum that overflows `Integer`; the source does not (see Findings).

## Findings

| source | as written | input that shows it | evidently intended | confidence | as-written member | corrected member |
|---|---|---|---|---|---|---|
| src/main/java/com/example/project/service/ProductService.java:149 | `addStock` sets the quantity to the Java `int` sum of the current quantity and the amount, which wraps past `Integer.MAX_VALUE` | a product with quantity 2147483647, `addStock(id, 1)` | refuse an addition whose result would not fit, so the quantity never turns negative | not executed; bean validation when the change is flushed may reject the negative quantity | ProductService.AddStockAsWrittenOverflows | ProductService.ProductStore.AddStock |
