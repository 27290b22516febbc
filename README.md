# Recipe store: a Dafny model of recipe create / update / delete

This project models the business logic of a small recipe backend. It has two
tables. A `Recipe` has a name of at most 255 characters and a description of
at most 512 characters. An `Ingredient` has a name of at most 255 characters
and a foreign key to exactly one recipe. Deleting a recipe cascades to its
ingredients.

The recipe serializer does three things that the model covers:

- create: insert the recipe, then one ingredient row per supplied entry;
- partial update: overwrite only the supplied fields, and replace the whole
  ingredient set when a non-empty ingredient list is supplied;
- representation: a recipe with its nested ingredients (`id`, `name`).

Layout:

- `models.dfy` (module `Models`) holds the record shapes, the column widths
  and the table invariants. The invariants are field bounds and referential
  integrity. The module also holds the cascade rule and the `__str__` forms.
  All of it is pure.
- `serializers.dfy` (module `Serializers`) holds the payload shapes and the
  specification functions `CreatedRecipe`, `PatchedRecipe`, `NewRows` and
  `Represent`. It also holds lemmas about them and the class `RecipeStore`.
  That class owns both tables and the two id sequences. Its methods mutate
  them the way the ORM calls in `create` and `update` do, including the
  one-row-at-a-time insert loop.

Modelling decisions:

- Tables are `map<nat, _>` keyed by row id. Ids come from counters that start
  at 1 and only grow, so an id is never handed out twice. The payload types
  have no id field, because `id` is read-only for both serializers.
- Create takes its ingredient list as mandatory input, since it is popped
  without a default. A missing description becomes `""`, which is the empty
  default the `CharField` column gets when no value is given (see "Left out"
  for when that case can arise).
- Update treats an empty ingredient list exactly like an absent one, because
  the guard is a truthiness test (`if ingredient_data:`). So `ingredients: []`
  keeps the old rows rather than clearing them; the model follows the guard.
- Field lengths are checked by the framework's validation before `create` and
  `update` run. So they are preconditions on the payload (`CreateFits`,
  `UpdateFits`) and invariants of the store (`Consistent`).

## Model

| member | source | states |
|---|---|---|
| `Models.RecipeStr` | app/core/models.py:14-15 | the string form of a recipe is its name, so it is at most 255 characters for a stored recipe |
| `Models.IngredientStr` | app/core/models.py:29-30 | the string form of an ingredient is its name, so it is at most 255 characters for a stored ingredient |
| `Models.Consistent` | app/core/models.py:11-27 | the store invariant (kept by every `RecipeStore` method through `RecipeStore.Valid`): every recipe's name is at most 255 and description at most 512 characters, every ingredient's name is at most 255 characters and its foreign key names a stored recipe |
| `Models.OwnedBy` | app/core/models.py:23-27 | the reverse relation `recipe.ingredients`: exactly the stored rows whose foreign key is the given recipe |
| `Models.WithoutOwned` | app/core/models.py:23-27 | deleting a recipe's ingredient rows keeps every other row unchanged, and leaves no row that references that recipe |
| `Models.InsertKeepsConsistent` | app/core/models.py:11-27 | inserting rows that fit their columns and reference stored recipes keeps the bounds and referential integrity |
| `Models.CascadeDelete` | app/core/models.py:23-27 | deleting a recipe removes it and every ingredient that references it; ingredients of other recipes are kept; the tables stay consistent |
| `Serializers.CreatedRecipe` | app/recipe/serializers.py:26-28 | the created recipe has the supplied name and description ("" when the description is absent), and it fits its columns |
| `Serializers.PatchedRecipe` | app/recipe/serializers.py:36-39 | a supplied name or description overwrites the stored one, an absent one is kept, and the result still fits its columns |
| `Serializers.Replaces` | app/recipe/serializers.py:41 | the replace guard is a truthiness test: an absent list and an empty list both skip the replace, a non-empty list triggers it |
| `Serializers.NewRows` | app/recipe/serializers.py:29-31 | exactly one row per supplied entry, under consecutive fresh ids, each with the entry's name and owned by the given recipe |
| `Serializers.NewRowsSnoc` | app/recipe/serializers.py:43-45 | inserting the row of one more entry extends the inserted rows by exactly that row |
| `Serializers.OwnedAfterInsert` | app/recipe/serializers.py:29-31 | inserting rows owned by one recipe adds exactly those ids to its ingredients and leaves every other recipe's ingredients unchanged |
| `Serializers.CreateAddsExactly` | app/recipe/serializers.py:26-32 | after create, the new recipe owns exactly one row per supplied entry, with the supplied names; earlier rows and other recipes' ingredients are unchanged; the tables stay consistent |
| `Serializers.ReplaceIsExact` | app/recipe/serializers.py:41-45 | after a replace, the recipe owns exactly the supplied entries (count and names), none of its previous rows remain, and rows of other recipes are untouched |
| `Serializers.Represent` | app/recipe/serializers.py:6-24 | the representation exists only for a stored recipe and carries its id, name, description and exactly its ingredient rows by id and name |
| `Serializers.RetrieveAfterCreate` | app/recipe/tests/test_recipe_api.py:63-91 | retrieving a created recipe gives back the supplied name and description and one ingredient per supplied entry with its name |
| `Serializers.RetrieveAfterReplace` | app/recipe/tests/test_recipe_api.py:122-161 | retrieving a recipe after a replacing update gives the patched fields and exactly one ingredient per supplied entry with its name, and none of its earlier rows |
| `Serializers.RetrieveAfterDelete` | app/core/models.py:23-27 | after a delete the recipe can no longer be retrieved, and every other recipe's representation is unchanged |
| `Serializers.RecipeStore.InsertIngredient` | app/recipe/serializers.py:30-31 | one ingredient row is inserted under a fresh id, owned by the given recipe; nothing else changes |
| `Serializers.RecipeStore.InsertIngredients` | app/recipe/serializers.py:29-31 | the loop inserts exactly the rows of `NewRows`, in order, and keeps the store consistent |
| `Serializers.RecipeStore.Create` | app/recipe/serializers.py:26-32 | create adds one recipe under a fresh id and one owned ingredient per entry; other recipes' ingredients are unchanged; the store stays consistent |
| `Serializers.RecipeStore.Update` | app/recipe/serializers.py:34-46 | the supplied fields are overwritten and absent ones kept; a non-empty list replaces the recipe's ingredients exactly; an absent or empty list leaves them as they were; other recipes are untouched |
| `Serializers.RecipeStore.Delete` | app/core/models.py:23-27 | the recipe and, by cascade, its ingredients are removed; every other row is unchanged; the store stays consistent |

## Left out

- HTTP routing, status codes and the list endpoint (app/recipe/views.py:10-13). These are framework dispatch with no logic of their own. The list is "every stored recipe, each as `Represent` gives it"; its order depends on the database, so it is not modelled.
- The not-found lookup in front of update and delete. It is done by the view before the serializer runs. So `Update` and `Delete` require an existing recipe.
- Field validation and JSON (de)serialization are framework code. Only the resulting length bounds are modelled, as preconditions and store invariants.
- The serializer field for `description` is required, because the column (app/core/models.py:12) has neither `blank` nor a default. So a create request without a description fails validation, and the `None` case of `CreatePayload.description` cannot arise through the serializer. The `""` default only appears on a direct ORM call such as `Recipe.objects.create(name=...)`; the model keeps that case.
- Id reuse. The model's id counters never hand out an id twice, as a database sequence does. Some backends (SQLite without AUTOINCREMENT, for one) can reuse the largest deleted id, and update deletes right before it inserts. So "none of its previous rows remain" in `ReplaceIsExact`, `RetrieveAfterReplace` and `Update` is a statement about this id allocation; which database the program runs on is not modelled.
- Id overflow. Row ids are unbounded `nat` counters, while the default auto-increment column is a 32-bit integer; running out of ids is not modelled.
- Transactions and concurrent requests. The code has no transaction around the delete-then-recreate in update. The model runs each operation as one sequential step and says nothing about a concurrent reader seeing the gap.
- Ingredient order inside a representation. Ingredients are keyed by row id, which is the order the rows were inserted in.
