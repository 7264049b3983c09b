/** The category record and the lookups the category repository declares, as
    functions over the category table. */
module CategoryRepository {
  import opened Common

  /** A category: the fields the category service reads and writes. The
      active flag is a nullable `Boolean`, as on products: an update copies
      it from the draft unchecked. */
  datatype Category = Category(id: Option<int>, name: string, description: Option<string>, isActive: Option<bool>)

  /** The categories table: each record under its id. */
  type CategoryTable = map<int, Category>

  /** `existsByName`: some category, active or not, has exactly this name. */
  predicate ExistsByName(t: CategoryTable, name: string) {
    exists id :: id in t && t[id].name == name
  }

  /** No two categories share a name. */
  ghost predicate NamesUnique(t: CategoryTable) {
    forall i, j :: i in t && j in t && t[i].name == t[j].name ==> i == j
  }

  /** `findByName`: the category with exactly this name, if any. */
  ghost function FindByName(t: CategoryTable, name: string): (r: Option<Category>)
    requires NamesUnique(t)
    ensures r.Some? <==> ExistsByName(t, name)
    ensures forall id :: id in t && t[id].name == name ==> r == Some(t[id])
  {
    if ExistsByName(t, name) then
      var id :| id in t && t[id].name == name;
      Some(t[id])
    else
      None
  }

  /** With unique names, a name that exists is held by exactly one category. */
  lemma NameHeldOnce(t: CategoryTable, name: string)
    requires NamesUnique(t) && ExistsByName(t, name)
    ensures |set id | id in t && t[id].name == name| == 1
  {
    var id :| id in t && t[id].name == name;
    forall i | i in t && t[i].name == name ensures i == id {
    }
    assert (set i | i in t && t[i].name == name) == {id};
  }

  /** `findByIsActiveTrue`. */
  function FindByIsActiveTrue(t: CategoryTable): CategoryTable {
    map id | id in t && t[id].isActive == Some(true) :: t[id]
  }

  /** Setting a category's flag to false, or to null, takes exactly it out
      of the active ones. */
  lemma DeactivationLeavesActive(t: CategoryTable, id: int, flag: Option<bool>)
    requires id in t && flag != Some(true)
    ensures FindByIsActiveTrue(t[id := t[id].(isActive := flag)]) == FindByIsActiveTrue(t) - {id}
  {
  }

  /** Activating a category adds exactly it to the active ones. */
  lemma ActivationJoinsActive(t: CategoryTable, id: int)
    requires id in t
    ensures FindByIsActiveTrue(t[id := t[id].(isActive := Some(true))]) == FindByIsActiveTrue(t)[id := t[id].(isActive := Some(true))]
  {
  }

  /** `findByNameContainingIgnoreCase`: the name contains the argument after
      both are lower-cased. */
  function FindByNameContainingIgnoreCase(t: CategoryTable, s: string): CategoryTable {
    map id | id in t && Contains(Lower(t[id].name), Lower(s)) :: t[id]
  }

  /** The empty search string matches every category. */
  lemma SearchByEmptyFindsAll(t: CategoryTable)
    ensures FindByNameContainingIgnoreCase(t, "") == t
  {
    forall id | id in t ensures Contains(Lower(t[id].name), Lower("")) {
      ContainsEmptyAndSelf(Lower(t[id].name));
    }
  }

  /** Searching for a category's full name finds it, in whatever case the
      search string is written. */
  lemma SearchFindsExactName(t: CategoryTable, id: int, s: string)
    requires id in t && EqualsIgnoreCase(s, t[id].name)
    ensures id in FindByNameContainingIgnoreCase(t, s)
  {
    EqualsIgnoreCaseIsLowerEquality(s, t[id].name);
    ContainsEmptyAndSelf(Lower(t[id].name));
  }

  /** The case of the search string does not matter. */
  lemma SearchIgnoresCaseOfArgument(t: CategoryTable, s: string)
    ensures FindByNameContainingIgnoreCase(t, s) == FindByNameContainingIgnoreCase(t, Lower(s))
  {
    LowerIdempotent(s);
  }

  /** A case-sensitive occurrence of the search string is found too. */
  lemma SearchFindsCaseSensitiveMatch(t: CategoryTable, id: int, s: string)
    requires id in t && Contains(t[id].name, s)
    ensures id in FindByNameContainingIgnoreCase(t, s)
  {
    ContainsIgnoringCase(t[id].name, s);
  }
}
