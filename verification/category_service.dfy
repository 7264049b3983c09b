/** The category service: the categories table held in place with the counter
    that hands out identities, and the operations that change it. The read
    operations are single repository calls, modelled by the functions of
    `CategoryRepository`. */
module CategoryService {
  import opened Common
  import opened CategoryRepository

  /** What holds of the table between operations: every record sits under its
      own id, below the next id to be handed out, and no two categories share
      a name, whether active or not. */
  ghost predicate CategoriesWellFormed(t: CategoryTable, nextId: int) {
    && 1 <= nextId
    && (forall id :: id in t ==> 1 <= id < nextId && t[id].id == Some(id))
    && NamesUnique(t)
  }

  class CategoryStore {
    var categories: CategoryTable
    var nextId: int

    ghost predicate Valid()
      reads this
    {
      CategoriesWellFormed(categories, nextId)
    }

    /** An empty table whose first record will get id 1. */
    constructor ()
      ensures Valid() && categories == map[] && nextId == 1
    {
      categories := map[];
      nextId := 1;
    }

    /** `createCategory`: refuses a name that any category already holds;
        otherwise stores the draft under a fresh id. */
    method CreateCategory(draft: Category) returns (r: Result<Category>)
      requires Valid()
      modifies this
      ensures Valid()
      ensures r.Err? <==> ExistsByName(old(categories), draft.name)
      ensures r.Err? ==> r.error == DuplicateKey && categories == old(categories) && nextId == old(nextId)
      ensures r.Ok? ==>
        && old(nextId) !in old(categories)
        && r.value == draft.(id := Some(old(nextId)))
        && categories == old(categories)[old(nextId) := r.value]
        && |categories| == |old(categories)| + 1
    {
      if ExistsByName(categories, draft.name) {
        return Err(DuplicateKey);
      }
      var saved := draft.(id := Some(nextId));
      categories := categories[nextId := saved];
      nextId := nextId + 1;
      r := Ok(saved);
    }

    /** `updateCategory`: NotFound for a missing id; DuplicateKey when the
        name changes to one already held; otherwise copies name, description
        and `isActive` and keeps the id. A rename frees the old name. */
    method UpdateCategory(id: int, details: Category) returns (r: Result<Category>)
      requires Valid()
      modifies this
      ensures Valid() && nextId == old(nextId)
      ensures id !in old(categories) ==> r == Err(NotFound)
      ensures id in old(categories) && old(categories)[id].name != details.name && ExistsByName(old(categories), details.name)
              ==> r == Err(DuplicateKey)
      ensures r.Err? ==> categories == old(categories)
      ensures r.Ok? <==>
        && id in old(categories)
        && (old(categories)[id].name == details.name || !ExistsByName(old(categories), details.name))
      ensures r.Ok? ==>
        && r.value == details.(id := Some(id))
        && categories == old(categories)[id := r.value]
        && ExistsByName(categories, details.name)
        && (old(categories)[id].name != details.name ==> !ExistsByName(categories, old(categories)[id].name))
    {
      if id !in categories {
        return Err(NotFound);
      }
      var category := categories[id];
      if category.name != details.name && ExistsByName(categories, details.name) {
        return Err(DuplicateKey);
      }
      var oldName := category.name;
      category := category.(name := details.name, description := details.description, isActive := details.isActive);
      categories := categories[id := category];
      r := Ok(category);
      if oldName != details.name {
        forall j | j in categories ensures categories[j].name != oldName {
          if j != id {
            assert old(categories)[j].name != oldName;
          }
        }
      }
    }

    /** `deleteCategory` (soft): NotFound for a missing id; otherwise only
        clears `isActive`; the record stays and keeps its name. */
    method DeleteCategory(id: int) returns (r: Result<()>)
      requires Valid()
      modifies this
      ensures Valid() && nextId == old(nextId)
      ensures r.Err? <==> id !in old(categories)
      ensures r.Err? ==> r.error == NotFound && categories == old(categories)
      ensures r.Ok? ==>
        && categories == old(categories)[id := old(categories)[id].(isActive := Some(false))]
        && FindByIsActiveTrue(categories) == FindByIsActiveTrue(old(categories)) - {id}
      ensures |categories| == |old(categories)|
    {
      if id !in categories {
        return Err(NotFound);
      }
      DeactivationLeavesActive(categories, id, Some(false));
      var category := categories[id];
      categories := categories[id := category.(isActive := Some(false))];
      r := Ok(());
    }

    /** `hardDeleteCategory`: removes the record if there is one; a missing
        id is not an error. */
    method HardDeleteCategory(id: int)
      requires Valid()
      modifies this
      ensures Valid() && nextId == old(nextId)
      ensures categories == old(categories) - {id}
      ensures |categories| == if id in old(categories) then |old(categories)| - 1 else |old(categories)|
    {
      assert (categories - {id}).Keys == categories.Keys - {id};
      categories := categories - {id};
    }
    /** `getActiveCategories`: exactly the active categories, each as stored. */
    method GetActiveCategories() returns (r: CategoryTable)
      ensures r.Keys <= categories.Keys
      ensures forall id :: id in categories ==> (id in r <==> categories[id].isActive == Some(true))
      ensures forall id :: id in r ==> r[id] == categories[id]
    {
      r := FindByIsActiveTrue(categories);
    }

    /** `categoryExistsByName`: agrees with the lookup by name, active or not. */
    method CategoryExistsByName(name: string) returns (b: bool)
      requires Valid()
      ensures b <==> FindByName(categories, name).Some?
      ensures b <==> exists id :: id in categories && categories[id].name == name
    {
      b := ExistsByName(categories, name);
    }

    /** `getCategoryCount`: the number of records, inactive ones included. */
    method GetCategoryCount() returns (n: nat)
      ensures n == |categories.Keys|
    {
      n := |categories|;
    }
  }

  /** A soft-deleted category still holds its name: creating it again is
      refused, and the name keeps exactly one holder, which is not active. */
  method DeletedNameStaysTaken(store: CategoryStore, draft: Category)
    requires store.Valid() && !ExistsByName(store.categories, draft.name)
    modifies store
    ensures store.Valid()
    ensures |set id | id in store.categories && store.categories[id].name == draft.name| == 1
    ensures forall id :: id in store.categories && store.categories[id].name == draft.name ==>
              id !in FindByIsActiveTrue(store.categories)
  {
    var n := store.nextId;
    var created := store.CreateCategory(draft);
    var deleted := store.DeleteCategory(n);
    assert store.categories[n].name == draft.name && store.categories[n].isActive == Some(false);
    var again := store.CreateCategory(draft);
    assert again == Err(DuplicateKey);
    NameHeldOnce(store.categories, draft.name);
  }
}
