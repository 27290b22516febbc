/**
 The two tables of the recipe store: recipes and the ingredients that belong
 to them. A table is a map from the system-assigned row id to the row.
 */
module Models {

  /** Column widths of the `CharField`s. */
  const RecipeNameMaxLength: nat := 255
  const DescriptionMaxLength: nat := 512
  const IngredientNameMaxLength: nat := 255

  datatype Recipe = Recipe(name: string, description: string)

  /** An ingredient row; `recipe` is the foreign key to its owning recipe. */
  datatype Ingredient = Ingredient(name: string, recipe: nat)

  type RecipeTable = map<nat, Recipe>
  type IngredientTable = map<nat, Ingredient>

  predicate RecipeFits(r: Recipe) {
    |r.name| <= RecipeNameMaxLength && |r.description| <= DescriptionMaxLength
  }

  predicate IngredientFits(i: Ingredient) {
    |i.name| <= IngredientNameMaxLength
  }

  /** Every stored row respects its column widths. */
  predicate FieldsFit(recipes: RecipeTable, ingredients: IngredientTable) {
    && (forall id :: id in recipes ==> RecipeFits(recipes[id]))
    && (forall k :: k in ingredients ==> IngredientFits(ingredients[k]))
  }

  /** No ingredient outlives its recipe: every foreign key points at a stored recipe. */
  predicate ReferentiallyIntact(recipes: RecipeTable, ingredients: IngredientTable) {
    forall k :: k in ingredients ==> ingredients[k].recipe in recipes
  }

  /** The store invariant: column widths and referential integrity. */
  predicate Consistent(recipes: RecipeTable, ingredients: IngredientTable)
    ensures Consistent(recipes, ingredients) ==>
              forall id :: id in recipes ==>
                |recipes[id].name| <= RecipeNameMaxLength && |recipes[id].description| <= DescriptionMaxLength
    ensures Consistent(recipes, ingredients) ==>
              forall k :: k in ingredients ==>
                ingredients[k].recipe in recipes && |ingredients[k].name| <= IngredientNameMaxLength
  {
    FieldsFit(recipes, ingredients) && ReferentiallyIntact(recipes, ingredients)
  }

  /** Adding well-formed rows that reference stored recipes keeps the tables consistent. */
  lemma InsertKeepsConsistent(recipes: RecipeTable, table: IngredientTable, rows: IngredientTable)
    requires Consistent(recipes, table)
    requires forall k :: k in rows ==> rows[k].recipe in recipes && IngredientFits(rows[k])
    ensures Consistent(recipes, table + rows)
  {
  }

  /** The string form of a recipe is its name. */
  function RecipeStr(r: Recipe): (s: string)
    ensures s == r.name
    ensures RecipeFits(r) ==> |s| <= RecipeNameMaxLength
  {
    r.name
  }

  /** The string form of an ingredient is its name. */
  function IngredientStr(i: Ingredient): (s: string)
    ensures s == i.name
    ensures IngredientFits(i) ==> |s| <= IngredientNameMaxLength
  {
    i.name
  }

  /** The ids of the ingredient rows whose foreign key is `owner`
      (the reverse relation `recipe.ingredients`). */
  function OwnedBy(ingredients: IngredientTable, owner: nat): (ids: set<nat>)
    ensures ids <= ingredients.Keys
    ensures forall k :: k in ingredients ==> (k in ids <==> ingredients[k].recipe == owner)
  {
    set k | k in ingredients && ingredients[k].recipe == owner
  }

  /** The ingredient table after deleting every row owned by `owner`. */
  function WithoutOwned(ingredients: IngredientTable, owner: nat): (rest: IngredientTable)
    ensures forall k :: k in rest ==> k in ingredients && rest[k] == ingredients[k]
    ensures forall k :: k in ingredients && ingredients[k].recipe != owner ==> k in rest
    ensures OwnedBy(rest, owner) == {}
  {
    map k | k in ingredients && ingredients[k].recipe != owner :: ingredients[k]
  }

  /** Deleting a recipe cascades to its ingredients: the recipe and every row
      that references it are gone, every other row of either table is kept,
      and the tables stay consistent. */
  lemma CascadeDelete(recipes: RecipeTable, ingredients: IngredientTable, id: nat)
    requires Consistent(recipes, ingredients)
    ensures Consistent(recipes - {id}, WithoutOwned(ingredients, id))
    ensures OwnedBy(WithoutOwned(ingredients, id), id) == {}
    ensures forall other :: other != id ==>
              OwnedBy(WithoutOwned(ingredients, id), other) == OwnedBy(ingredients, other)
  {
    var rest := WithoutOwned(ingredients, id);
    forall other | other != id
      ensures OwnedBy(rest, other) == OwnedBy(ingredients, other)
    {
      assert forall k :: k in OwnedBy(ingredients, other) ==> k in rest;
    }
  }
}
