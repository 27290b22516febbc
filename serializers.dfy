/**
 The recipe serializer: the payloads it accepts, the representation it
 returns, and the create / update logic that writes a recipe and reconciles
 its ingredient rows, over an in-memory store of the two tables.
 */
module Serializers {
  import opened Models

  datatype Option<T> = None | Some(value: T)

  /** A writable ingredient entry. The row id is read-only, so a caller
      cannot supply one: only the name is accepted. */
  datatype IngredientInput = IngredientInput(name: string)

  /** Validated data of a create request. `ingredients` is mandatory; a
      missing description takes the column's empty default. */
  datatype CreatePayload = CreatePayload(
    name: string,
    description: Option<string>,
    ingredients: seq<IngredientInput>)

  /** Validated data of an update request: every key may be absent. */
  datatype UpdatePayload = UpdatePayload(
    name: Option<string>,
    description: Option<string>,
    ingredients: Option<seq<IngredientInput>>)

  /** Serialized form of an ingredient list: row id to name (order is not modelled). */
  datatype RecipeView = RecipeView(
    id: nat,
    name: string,
    description: string,
    ingredients: map<nat, string>)

  predicate InputsFit(items: seq<IngredientInput>) {
    forall i :: 0 <= i < |items| ==> |items[i].name| <= IngredientNameMaxLength
  }

  /** The length bounds that validation has established on a create payload. */
  predicate CreateFits(p: CreatePayload) {
    && |p.name| <= RecipeNameMaxLength
    && (p.description.Some? ==> |p.description.value| <= DescriptionMaxLength)
    && InputsFit(p.ingredients)
  }

  /** The length bounds that validation has established on an update payload. */
  predicate UpdateFits(p: UpdatePayload) {
    && (p.name.Some? ==> |p.name.value| <= RecipeNameMaxLength)
    && (p.description.Some? ==> |p.description.value| <= DescriptionMaxLength)
    && (p.ingredients.Some? ==> InputsFit(p.ingredients.value))
  }

  /** The recipe row a create payload produces. */
  function CreatedRecipe(p: CreatePayload): (r: Recipe)
    ensures r.name == p.name
    ensures p.description.Some? ==> r.description == p.description.value
    ensures p.description.None? ==> r.description == ""
    ensures CreateFits(p) ==> RecipeFits(r)
  {
    Recipe(p.name, if p.description.Some? then p.description.value else "")
  }

  /** The recipe row after an update: a supplied field overwrites the stored
      one, an absent field keeps it. */
  function PatchedRecipe(r: Recipe, p: UpdatePayload): (r': Recipe)
    ensures p.name.None? ==> r'.name == r.name
    ensures p.name.Some? ==> r'.name == p.name.value
    ensures p.description.None? ==> r'.description == r.description
    ensures p.description.Some? ==> r'.description == p.description.value
    ensures RecipeFits(r) && UpdateFits(p) ==> RecipeFits(r')
  {
    Recipe(
      if p.name.Some? then p.name.value else r.name,
      if p.description.Some? then p.description.value else r.description)
  }

  /** Whether an update replaces the ingredient rows: the list must be
      present AND non-empty, so an empty list behaves like an absent key. */
  predicate Replaces(items: Option<seq<IngredientInput>>)
    ensures items.None? ==> !Replaces(items)
    ensures items == Some([]) ==> !Replaces(items)
    ensures items.Some? && |items.value| > 0 ==> Replaces(items)
  {
    items.Some? && items.value != []
  }

  /** The range test as a function call, so that the range comprehensions
      below have a term to trigger on (the arithmetic bounds beside it are
      what make them finite). */
  predicate InRange(k: nat, start: nat, n: nat) {
    start <= k < start + n
  }

  /** The ids `start`, `start + 1`, ..., `start + n - 1`. */
  function IdRange(start: nat, n: nat): (ids: set<nat>)
    ensures forall k :: k in ids <==> start <= k < start + n
  {
    set k: nat | start <= k < start + n && InRange(k, start, n)
  }

  lemma {:induction false} IdRangeSize(start: nat, n: nat)
    ensures |IdRange(start, n)| == n
  {
    if n > 0 {
      IdRangeSize(start, n - 1);
      assert IdRange(start, n) == IdRange(start, n - 1) + {start + n - 1};
    }
  }

  /** Inserting rows all owned by `owner` adds exactly their ids to what
      `owner` owns and changes nothing any other recipe owns. */
  lemma OwnedAfterInsert(table: IngredientTable, rows: IngredientTable, owner: nat)
    requires forall k :: k in rows ==> k !in table && rows[k].recipe == owner
    ensures OwnedBy(table + rows, owner) == OwnedBy(table, owner) + rows.Keys
    ensures forall other :: other != owner ==> OwnedBy(table + rows, other) == OwnedBy(table, other)
  {
    forall other | other != owner
      ensures OwnedBy(table + rows, other) == OwnedBy(table, other)
    {
      assert forall k :: k in OwnedBy(table, other) ==> k !in rows;
    }
  }

  /** The rows inserted one per entry of `items`, all owned by `owner`, taking
      consecutive fresh ids from `start`. */
  function NewRows(start: nat, items: seq<IngredientInput>, owner: nat): (rows: IngredientTable)
    ensures forall k :: k in rows <==> start <= k < start + |items|
    ensures forall k :: k in rows ==> rows[k] == Ingredient(items[k - start].name, owner)
    ensures forall n :: 0 <= n < |items| ==>
              start + n in rows && rows[start + n] == Ingredient(items[n].name, owner)
  {
    map k: nat | start <= k < start + |items| && InRange(k, start, |items|) :: Ingredient(items[k - start].name, owner)
  }

  /** Inserting the rows of one more entry extends `NewRows` by one id. */
  lemma NewRowsSnoc(start: nat, items: seq<IngredientInput>, i: nat, owner: nat)
    requires i < |items|
    ensures NewRows(start, items[..i + 1], owner)
         == NewRows(start, items[..i], owner)[start + i := Ingredient(items[i].name, owner)]
  {
    var longer := NewRows(start, items[..i + 1], owner);
    var shorter := NewRows(start, items[..i], owner)[start + i := Ingredient(items[i].name, owner)];
    assert longer.Keys == shorter.Keys;
    forall k | k in longer
      ensures longer[k] == shorter[k]
    {
      if k < start + i {
        assert items[..i + 1][k - start] == items[..i][k - start];
      }
    }
  }

  /** One turn of the insert loop: adding the row of entry `i` to a table
      that already holds the rows of the entries before it. */
  lemma InsertStep(table: IngredientTable, start: nat, items: seq<IngredientInput>, i: nat, owner: nat)
    requires i < |items|
    ensures (table + NewRows(start, items[..i], owner))[start + i := Ingredient(items[i].name, owner)]
         == table + NewRows(start, items[..i + 1], owner)
  {
    NewRowsSnoc(start, items, i, owner);
    var rows := NewRows(start, items[..i], owner);
    var row := Ingredient(items[i].name, owner);
    assert (table + rows)[start + i := row] == table + rows[start + i := row];
  }

  /** Create adds one recipe with the supplied fields and one ingredient per
      supplied entry, all owned by the new recipe; every earlier row of either
      table is kept and the tables stay consistent. */
  lemma CreateAddsExactly(
    recipes: RecipeTable, ingredients: IngredientTable, id: nat, start: nat, p: CreatePayload)
    requires Consistent(recipes, ingredients) && CreateFits(p)
    requires id !in recipes
    requires forall k :: k in ingredients ==> k < start
    ensures var ingredients' := ingredients + NewRows(start, p.ingredients, id);
      && Consistent(recipes[id := CreatedRecipe(p)], ingredients')
      && OwnedBy(ingredients', id) == IdRange(start, |p.ingredients|)
      && |OwnedBy(ingredients', id)| == |p.ingredients|
      && (forall n :: 0 <= n < |p.ingredients| ==>
            start + n in ingredients' && ingredients'[start + n] == Ingredient(p.ingredients[n].name, id))
      && (forall k :: k in ingredients ==> k in ingredients' && ingredients'[k] == ingredients[k])
      && (forall other :: other != id ==> OwnedBy(ingredients', other) == OwnedBy(ingredients, other))
  {
    var rows := NewRows(start, p.ingredients, id);
    var ingredients' := ingredients + rows;
    var recipes' := recipes[id := CreatedRecipe(p)];
    assert Consistent(recipes', ingredients') by {
      assert Consistent(recipes', ingredients);
      InsertKeepsConsistent(recipes', ingredients, rows);
    }
    assert OwnedBy(ingredients', id) == IdRange(start, |p.ingredients|)
        && forall other :: other != id ==> OwnedBy(ingredients', other) == OwnedBy(ingredients, other)
    by {
      assert OwnedBy(ingredients, id) == {};
      OwnedAfterInsert(ingredients, rows, id);
    }
    IdRangeSize(start, |p.ingredients|);
    assert forall k :: k in ingredients ==> k !in rows;
  }

  /** Replacing the ingredients of recipe `id` leaves it owning exactly the
      supplied entries, none of its previous rows, and every row of another
      recipe untouched. */
  lemma ReplaceIsExact(
    recipes: RecipeTable, ingredients: IngredientTable, id: nat, start: nat,
    items: seq<IngredientInput>)
    requires Consistent(recipes, ingredients) && InputsFit(items)
    requires id in recipes
    requires forall k :: k in ingredients ==> k < start
    ensures var ingredients' := WithoutOwned(ingredients, id) + NewRows(start, items, id);
      && Consistent(recipes, ingredients')
      && OwnedBy(ingredients', id) == IdRange(start, |items|)
      && |OwnedBy(ingredients', id)| == |items|
      && OwnedBy(ingredients', id) !! OwnedBy(ingredients, id)
      && (forall n :: 0 <= n < |items| ==>
            start + n in ingredients' && ingredients'[start + n] == Ingredient(items[n].name, id))
      && (forall k :: k in ingredients && ingredients[k].recipe != id ==>
            k in ingredients' && ingredients'[k] == ingredients[k])
      && (forall other :: other != id ==> OwnedBy(ingredients', other) == OwnedBy(ingredients, other))
  {
    var rows := NewRows(start, items, id);
    var rest := WithoutOwned(ingredients, id);
    var ingredients' := rest + rows;
    assert Consistent(recipes, ingredients') by {
      assert Consistent(recipes, rest);
      InsertKeepsConsistent(recipes, rest, rows);
    }
    assert OwnedBy(ingredients', id) == IdRange(start, |items|)
        && forall other :: other != id ==> OwnedBy(ingredients', other) == OwnedBy(ingredients, other)
    by {
      OwnedAfterInsert(rest, rows, id);
      CascadeDelete(recipes, ingredients, id);
    }
    IdRangeSize(start, |items|);
    assert forall k :: k in ingredients ==> k !in rows;
  }

  /** The representation of recipe `id`: its fields and its ingredient rows
      by id and name, or nothing when there is no such recipe. */
  function Represent(recipes: RecipeTable, ingredients: IngredientTable, id: nat): (v: Option<RecipeView>)
    ensures v.None? <==> id !in recipes
    ensures v.Some? ==>
              && v.value.id == id
              && v.value.name == recipes[id].name
              && v.value.description == recipes[id].description
              && v.value.ingredients.Keys == OwnedBy(ingredients, id)
              && forall k :: k in v.value.ingredients ==> v.value.ingredients[k] == ingredients[k].name
  {
    if id !in recipes then None
    else
      var r := recipes[id];
      Some(RecipeView(id, r.name, r.description,
                      map k | k in OwnedBy(ingredients, id) :: ingredients[k].name))
  }

  /** Retrieving a freshly created recipe gives back the supplied name and
      description and one ingredient per supplied entry, with its name. */
  lemma RetrieveAfterCreate(
    recipes: RecipeTable, ingredients: IngredientTable, id: nat, start: nat, p: CreatePayload)
    requires Consistent(recipes, ingredients) && CreateFits(p)
    requires id !in recipes
    requires forall k :: k in ingredients ==> k < start
    ensures var v := Represent(recipes[id := CreatedRecipe(p)],
                               ingredients + NewRows(start, p.ingredients, id), id);
      && v.Some?
      && v.value.name == p.name
      && v.value.description == CreatedRecipe(p).description
      && |v.value.ingredients| == |p.ingredients|
      && forall n :: 0 <= n < |p.ingredients| ==>
           start + n in v.value.ingredients && v.value.ingredients[start + n] == p.ingredients[n].name
  {
    CreateAddsExactly(recipes, ingredients, id, start, p);
    var v := Represent(recipes[id := CreatedRecipe(p)], ingredients + NewRows(start, p.ingredients, id), id);
    assert v.value.ingredients.Keys == IdRange(start, |p.ingredients|);
  }

  /** Retrieving a recipe after an update that replaces its ingredients gives
      the patched fields and exactly one ingredient per supplied entry, with
      its name, and none of the rows it had before. */
  lemma RetrieveAfterReplace(
    recipes: RecipeTable, ingredients: IngredientTable, id: nat, start: nat, p: UpdatePayload)
    requires Consistent(recipes, ingredients) && UpdateFits(p) && Replaces(p.ingredients)
    requires id in recipes
    requires forall k :: k in ingredients ==> k < start
    ensures var items := p.ingredients.value;
      var v := Represent(recipes[id := PatchedRecipe(recipes[id], p)],
                         WithoutOwned(ingredients, id) + NewRows(start, items, id), id);
      && v.Some?
      && v.value.name == PatchedRecipe(recipes[id], p).name
      && v.value.description == PatchedRecipe(recipes[id], p).description
      && |v.value.ingredients| == |items|
      && (forall n :: 0 <= n < |items| ==>
            start + n in v.value.ingredients && v.value.ingredients[start + n] == items[n].name)
      && forall k :: k in v.value.ingredients ==> k !in ingredients
  {
    var items := p.ingredients.value;
    ReplaceIsExact(recipes, ingredients, id, start, items);
    var v := Represent(recipes[id := PatchedRecipe(recipes[id], p)],
                       WithoutOwned(ingredients, id) + NewRows(start, items, id), id);
    assert v.value.ingredients.Keys == IdRange(start, |items|);
  }

  /** After a delete the recipe can no longer be retrieved. */
  lemma RetrieveAfterDelete(recipes: RecipeTable, ingredients: IngredientTable, id: nat)
    requires Consistent(recipes, ingredients)
    ensures Represent(recipes - {id}, WithoutOwned(ingredients, id), id) == None
    ensures forall other :: other != id && other in recipes ==>
              Represent(recipes - {id}, WithoutOwned(ingredients, id), other)
              == Represent(recipes, ingredients, other)
  {
    CascadeDelete(recipes, ingredients, id);
    forall other | other != id && other in recipes
      ensures Represent(recipes - {id}, WithoutOwned(ingredients, id), other)
              == Represent(recipes, ingredients, other)
    {
      var before := Represent(recipes, ingredients, other).value;
      var after := Represent(recipes - {id}, WithoutOwned(ingredients, id), other).value;
      assert after.ingredients == before.ingredients;
    }
  }

  /** The database: both tables and the id sequences, which only grow, so an
      id is never handed out twice. */
  class RecipeStore {
    var recipes: RecipeTable
    var ingredients: IngredientTable
    var nextRecipeId: nat
    var nextIngredientId: nat

    ghost predicate Valid()
      reads this
    {
      && Consistent(recipes, ingredients)
      && (forall id :: id in recipes ==> id < nextRecipeId)
      && (forall k :: k in ingredients ==> k < nextIngredientId)
    }

    constructor ()
      ensures Valid()
      ensures recipes == map[] && ingredients == map[]
    {
      recipes := map[];
      ingredients := map[];
      nextRecipeId := 1;
      nextIngredientId := 1;
    }

    /** Insert one ingredient row owned by `owner`, under a fresh id. */
    method InsertIngredient(name: string, owner: nat) returns (k: nat)
      requires Valid() && owner in recipes && |name| <= IngredientNameMaxLength
      modifies this
      ensures Valid()
      ensures k == old(nextIngredientId) && k !in old(ingredients)
      ensures ingredients == old(ingredients)[k := Ingredient(name, owner)]
      ensures nextIngredientId == old(nextIngredientId) + 1
      ensures recipes == old(recipes) && nextRecipeId == old(nextRecipeId)
    {
      k := nextIngredientId;
      ingredients := ingredients[k := Ingredient(name, owner)];
      nextIngredientId := nextIngredientId + 1;
    }

    /** Insert one ingredient row per entry of `items`, in order, each owned by `owner`. */
    method InsertIngredients(items: seq<IngredientInput>, owner: nat)
      requires Valid() && owner in recipes && InputsFit(items)
      modifies this
      ensures Valid()
      ensures ingredients == old(ingredients) + NewRows(old(nextIngredientId), items, owner)
      ensures nextIngredientId == old(nextIngredientId) + |items|
      ensures recipes == old(recipes) && nextRecipeId == old(nextRecipeId)
    {
      ghost var start := nextIngredientId;
      var i := 0;
      while i < |items|
        invariant 0 <= i <= |items|
        invariant Valid()
        invariant nextIngredientId == start + i
        invariant ingredients == old(ingredients) + NewRows(start, items[..i], owner)
        invariant recipes == old(recipes) && nextRecipeId == old(nextRecipeId)
      {
        InsertStep(old(ingredients), start, items, i, owner);
        var _ := InsertIngredient(items[i].name, owner);
        i := i + 1;
      }
      assert items[..i] == items;
    }

    /** Create a recipe from `p`, then one ingredient row per supplied entry. */
    method Create(p: CreatePayload) returns (id: nat)
      requires Valid() && CreateFits(p)
      modifies this
      ensures Valid()
      ensures id !in old(recipes) && id == old(nextRecipeId)
      ensures recipes == old(recipes)[id := CreatedRecipe(p)]
      ensures ingredients == old(ingredients) + NewRows(old(nextIngredientId), p.ingredients, id)
      ensures nextRecipeId == old(nextRecipeId) + 1
      ensures nextIngredientId == old(nextIngredientId) + |p.ingredients|
      ensures |OwnedBy(ingredients, id)| == |p.ingredients|
      ensures forall other :: other != id ==> OwnedBy(ingredients, other) == OwnedBy(old(ingredients), other)
    {
      ghost var before, start := ingredients, nextIngredientId;
      id := nextRecipeId;
      recipes := recipes[id := CreatedRecipe(p)];
      nextRecipeId := nextRecipeId + 1;
      assert ingredients == before && nextIngredientId == start;
      InsertIngredients(p.ingredients, id);
      CreateAddsExactly(old(recipes), before, id, start, p);
    }

    /** Update recipe `id` from `p`: overwrite the supplied fields, and when
        a non-empty ingredient list is supplied, delete all of the recipe's
        ingredient rows and insert one per supplied entry. */
    method Update(id: nat, p: UpdatePayload)
      requires Valid() && id in recipes && UpdateFits(p)
      modifies this
      ensures Valid()
      ensures recipes == old(recipes)[id := PatchedRecipe(old(recipes[id]), p)]
      ensures Replaces(p.ingredients) ==>
                ingredients == WithoutOwned(old(ingredients), id)
                               + NewRows(old(nextIngredientId), p.ingredients.value, id)
      ensures !Replaces(p.ingredients) ==> ingredients == old(ingredients)
      ensures Replaces(p.ingredients) ==>
                && |OwnedBy(ingredients, id)| == |p.ingredients.value|
                && OwnedBy(ingredients, id) !! OwnedBy(old(ingredients), id)
      ensures forall other :: other != id ==> OwnedBy(ingredients, other) == OwnedBy(old(ingredients), other)
      ensures nextRecipeId == old(nextRecipeId)
      ensures nextIngredientId
              == old(nextIngredientId) + if Replaces(p.ingredients) then |p.ingredients.value| else 0
    {
      ghost var before, start := ingredients, nextIngredientId;
      recipes := recipes[id := PatchedRecipe(recipes[id], p)];
      if p.ingredients.Some? && p.ingredients.value != [] {
        ingredients := WithoutOwned(ingredients, id);
        assert nextIngredientId == start;
        InsertIngredients(p.ingredients.value, id);
        ReplaceIsExact(old(recipes), before, id, start, p.ingredients.value);
      }
    }

    /** Delete recipe `id`; its ingredient rows go with it. */
    method Delete(id: nat)
      requires Valid() && id in recipes
      modifies this
      ensures Valid()
      ensures recipes == old(recipes) - {id}
      ensures ingredients == WithoutOwned(old(ingredients), id)
      ensures forall other :: other != id ==> OwnedBy(ingredients, other) == OwnedBy(old(ingredients), other)
      ensures nextRecipeId == old(nextRecipeId) && nextIngredientId == old(nextIngredientId)
    {
      CascadeDelete(recipes, ingredients, id);
      recipes := recipes - {id};
      ingredients := WithoutOwned(ingredients, id);
    }
  }
}
