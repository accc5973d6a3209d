/** The category table of `CategoryServiceImpl`: categories are kept by id
    and their names are unique. */
module CategoryService {
  import opened Common

  /** A category's own columns. */
  datatype Category = Category(name: string, description: string)

  type Categories = map<Id, Category>

  /** `existsByName`. */
  predicate NameTaken(cs: Categories, name: string) {
    exists id :: id in cs && cs[id].name == name
  }

  /** No two categories share a name. */
  predicate NamesUnique(cs: Categories) {
    forall i, j :: i in cs && j in cs && cs[i].name == cs[j].name ==> i == j
  }

  /** `createCategory`: a name already present is refused; otherwise the
      category is stored under a fresh id. */
  function CreateCategory(cs: Categories, c: Category, newId: Id): (s: Step<Category, Categories>)
    requires newId !in cs
    ensures s.result.Ok? <==> !NameTaken(cs, c.name)
    ensures s.result.Err? ==> s.result.error == CategoryNameExists && s.after == cs
    ensures s.result.Ok? ==> s.result.value == c && s.after == cs[newId := c]
  {
    if NameTaken(cs, c.name) then Step(Err(CategoryNameExists), cs)
    else Step(Ok(c), cs[newId := c])
  }

  /** `updateCategory`: the id must exist; renaming to another category's
      name is refused, keeping the same name is allowed. Name and
      description are overwritten. */
  function UpdateCategory(cs: Categories, id: Id, c: Category): (s: Step<Category, Categories>)
    ensures s.result.Ok? <==> id in cs && (cs[id].name == c.name || !NameTaken(cs, c.name))
    ensures id !in cs ==> s.result == Err(CategoryNotFound)
    ensures id in cs && s.result.Err? ==> s.result.error == CategoryNameExists
    ensures s.result.Err? ==> s.after == cs
    ensures s.result.Ok? ==> s.result.value == c && s.after == cs[id := c]
  {
    if id !in cs then Step(Err(CategoryNotFound), cs)
    else if cs[id].name != c.name && NameTaken(cs, c.name) then Step(Err(CategoryNameExists), cs)
    else
      var updated := cs[id].(name := c.name, description := c.description);
      Step(Ok(updated), cs[id := updated])
  }

  /** `deleteCategory`: the id must exist; exactly that entry is removed. */
  function DeleteCategory(cs: Categories, id: Id): (s: Step<(), Categories>)
    ensures s.result.Ok? <==> id in cs
    ensures s.result.Err? ==> s.result.error == CategoryNotFound && s.after == cs
    ensures s.result.Ok? ==> s.after.Keys == cs.Keys - {id}
    ensures s.result.Ok? ==> forall k :: k in s.after ==> s.after[k] == cs[k]
  {
    if id !in cs then Step(Err(CategoryNotFound), cs)
    else Step(Ok(()), cs - {id})
  }

  /** `getCategoryById`. */
  function GetCategoryById(cs: Categories, id: Id): (r: Result<Category>)
    ensures r.Ok? <==> id in cs
    ensures r.Ok? ==> r.value == cs[id]
    ensures r.Err? ==> r.error == CategoryNotFound
  {
    if id in cs then Ok(cs[id]) else Err(CategoryNotFound)
  }

  /** `findByName`: the one category with this name, if any. */
  function FindByName(cs: Categories, name: string): (r: Option<Id>)
    requires NamesUnique(cs)
    ensures r.Some? <==> NameTaken(cs, name)
    ensures r.Some? ==> r.value in cs && cs[r.value].name == name
  {
    if NameTaken(cs, name) then
      var id :| id in cs && cs[id].name == name;
      Some(id)
    else None
  }

  /** `getCategoryByName`: fails when no category has that name. */
  function GetCategoryByName(cs: Categories, name: string): (r: Result<Category>)
    requires NamesUnique(cs)
    ensures r.Ok? <==> NameTaken(cs, name)
    ensures r.Ok? ==> r.value.name == name && exists id :: id in cs && cs[id] == r.value
    ensures r.Err? ==> r.error == CategoryNotFound
  {
    match FindByName(cs, name)
    case Some(id) => Ok(cs[id])
    case None => Err(CategoryNotFound)
  }

  // ----- Names stay unique -----

  lemma OperationsKeepNamesUnique(cs: Categories, c: Category, id: Id, newId: Id)
    requires NamesUnique(cs) && newId !in cs
    ensures NamesUnique(CreateCategory(cs, c, newId).after)
    ensures NamesUnique(UpdateCategory(cs, id, c).after)
    ensures NamesUnique(DeleteCategory(cs, id).after)
  {
  }

  /** A category just created or updated is what a lookup by its id or by its
      name then returns. */
  lemma SavedCategoryIsFound(cs: Categories, c: Category, id: Id, newId: Id)
    requires NamesUnique(cs) && newId !in cs
    ensures var s := CreateCategory(cs, c, newId);
      s.result.Ok? ==>
        && GetCategoryById(s.after, newId) == Ok(c)
        && NamesUnique(s.after) && GetCategoryByName(s.after, c.name) == Ok(c)
    ensures var s := UpdateCategory(cs, id, c);
      s.result.Ok? ==>
        && GetCategoryById(s.after, id) == Ok(c)
        && NamesUnique(s.after) && GetCategoryByName(s.after, c.name) == Ok(c)
  {
    OperationsKeepNamesUnique(cs, c, id, newId);
    var s1 := CreateCategory(cs, c, newId);
    if s1.result.Ok? {
      assert s1.after[newId].name == c.name;
    }
    var s2 := UpdateCategory(cs, id, c);
    if s2.result.Ok? {
      assert s2.after[id].name == c.name;
    }
  }

  /** After a deletion the id is no longer found. */
  lemma DeletedCategoryIsGone(cs: Categories, id: Id)
    ensures GetCategoryById(DeleteCategory(cs, id).after, id) == Err(CategoryNotFound)
  {
  }
}
