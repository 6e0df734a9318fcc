# Food-item index of the pantry admin client, in Dafny

This project models `client/modules/food/food-item-reducer.js` of the pantry
admin web client. That file holds three things:

- the reducer that keeps the food-item index `{ids, saving, saveError}`:
  the ids of the food items the UI knows, and the status of the last save or
  delete request;
- the action creators `saveFoodItem` and `deleteFoodItem`, which build the
  descriptor of a REST call for the API middleware;
- the `saving` and `saveError` selectors.

The reducer is pure. For each action type it handles, it returns a fresh
object built from the old state in a `switch`; for any other type it returns
the very same state object. It is therefore modelled as the function `FoodItemReducer.Step` over
the datatype `IndexState`, and a run of dispatched actions as the left fold
`FoodItemReducer.Apply`. The exported reducer with its default argument is
`FoodItemReducer.Reduce`. The selectors are `Saving` and `SaveError`, and the
lemmas state their properties through them.

Modelling choices:

- Action types are the constructors of `Action`, because their strings come
  from a helper outside this file. The two food-category actions the reducer
  listens to are assumed to carry type strings different from the food-item
  ones. Every other type is `Unrecognised`.
- A success action carries a `Response`. Its `foodItems` is either absent or
  the key list of the `entities.foodItems` object. Object keys never repeat,
  so this list has the subset type `Keys` of duplicate-free sequences.
- The code's default state is `{ids: []}`, so `saving` and `saveError` are
  absent at first. `saving` is therefore an `Option<bool>`, where `None`
  means absent. `saveError` is an `ErrorSlot`: `Unset` when absent, `Cleared`
  for `null`, or `Failed(e)`. A reader might expect `saving: false, saveError: null` at
  first, but the code does not set them, and the model follows the code.
  The two readings differ only until the first request or failure: a
  success leaves `saveError` as it was, so it stays absent after a success
  that comes first.
- lodash `union(result, state.ids)` is modelled in module `LodashUnion` as
  `Uniq(a + b)`: the values of both arrays, each once, at its first
  occurrence. So the response's ids come first, and the model fixes that
  order as the code does.
- `foodItem._id` is an `Option<string>`. `None` stands for absent, undefined
  or null. The empty string is falsy, so it also selects `POST`.
- `Route` reads an endpoint back as the category and optional item it
  addresses. It is the inverse used to state what the action creators target.
  Its round-trip lemmas need a category id without `/`, because a path
  segment cannot contain one.

## Model

| member | source | states |
|---|---|---|
| FoodItemReducer.Step | client/modules/food/food-item-reducer.js:39-82 | every transition keeps `ids` duplicate-free, and each id held afterwards was held before or came in the action's response |
| FoodItemReducer.ResultIds | client/modules/food/food-item-reducer.js:53 | the ids read from a response are duplicate-free, and none when it has no `foodItems` entity |
| FoodItemReducer.TypeOf | client/modules/food/food-item-reducer.js:14 | exactly the save and delete lifecycle actions have a food-item action type, and each of the six types belongs to exactly its own action |
| FoodItemReducer.DescriptorTypesMatchActions | client/modules/food/food-item-reducer.js:24 | the `types` triple of each descriptor names the request, success and failure actions of the matching lifecycle, the ones the reducer handles |
| FoodItemReducer.Initial | client/modules/food/food-item-reducer.js:39-41 | the default state has no ids, and `saving` and `saveError` are absent |
| FoodItemReducer.Reduce | client/modules/food/food-item-reducer.js:39-41 | with an undefined state the reducer applies the action to the default state, as the first step of a run; the result keeps `ids` duplicate-free |
| FoodItemReducer.Saving | client/modules/food/food-item-reducer.js:91-93 | the `saving` selector returns the state's flag |
| FoodItemReducer.SaveError | client/modules/food/food-item-reducer.js:94-96 | the `saveError` selector returns the state's error slot |
| FoodItemReducer.RequestStartsSaving | client/modules/food/food-item-reducer.js:43-49 | after a save or delete request, `saving` is true, `saveError` is null and `ids` is unchanged |
| FoodItemReducer.SaveSuccessMergesIds | client/modules/food/food-item-reducer.js:50-60 | after a save success, `ids` holds exactly the response ids and the old ids, once each: the response ids in order, then the old ids the response lacks in their old order; `saving` is false and `saveError` is kept |
| FoodItemReducer.SaveSuccessOrdersResponseFirst | client/modules/food/food-item-reducer.js:56-58 | after a save success, every id from the response precedes every id that is not in it |
| FoodItemReducer.SaveSuccessIdempotent | client/modules/food/food-item-reducer.js:50-60 | receiving the same save response twice leaves the same state as receiving it once |
| FoodItemReducer.DeleteSuccessReplacesIds | client/modules/food/food-item-reducer.js:50-60 | after a delete success, `ids` is exactly the response's ids and every earlier id not listed is gone; `saving` is false and `saveError` is kept |
| FoodItemReducer.MissingFoodItemsYieldNoIds | client/modules/food/food-item-reducer.js:53-72 | with no `foodItems` in the response, delete success and both category actions give empty `ids`, and save success only removes duplicates from `ids` |
| FoodItemReducer.CategoryActionsReplaceIds | client/modules/food/food-item-reducer.js:61-72 | the category save-success and load-all-success actions replace `ids` with the response's ids and keep `saving` and `saveError` |
| FoodItemReducer.FailureRecordsError | client/modules/food/food-item-reducer.js:73-79 | after a save or delete failure, `saving` is false, `saveError` is the action's error and `ids` is unchanged |
| FoodItemReducer.UnrecognisedKeepsState | client/modules/food/food-item-reducer.js:80 | an action of any other type returns the state unchanged |
| FoodItemReducer.ReduceStartsFromDefault | client/modules/food/food-item-reducer.js:39-41 | an undefined state is replaced by `{ids: []}` before the action applies |
| FoodItemReducer.ApplySnoc | client/modules/food/food-item-reducer.js:39-82 | dispatching one more action applies one more reducer step to the state the run reached |
| FoodItemReducer.ApplyKeepsIdsDistinct | client/modules/food/food-item-reducer.js:39-82 | no run of actions from a duplicate-free state introduces a duplicate id |
| FoodItemReducer.ReachableIdsDistinct | client/modules/food/food-item-reducer.js:39-82 | every state reachable from the default state has duplicate-free `ids` |
| FoodItemReducer.ReachableIdsWereDelivered | client/modules/food/food-item-reducer.js:50-72 | every id in a reachable state arrived in the response of some dispatched action |
| FoodItemReducer.StatusFollowsLastLifecycleAction | client/modules/food/food-item-reducer.js:43-79 | from the default state, the `saving` and `saveError` selectors depend only on the last request, success or failure: `saving` is true exactly when the last request or settlement was a request, and `saveError` is non-null only after a failure not yet followed by a request |
| FoodItemReducer.OverlappingRequestsNotTracked | client/modules/food/food-item-reducer.js:43-60 | when a save request is still open and a later delete succeeds, `saving` is already false: overlapping requests are not counted |
| FoodItemReducer.SavingAfterRequest | client/modules/food/food-item-reducer.js:91-96 | after any run ending in a request, the selectors report `saving` true and `saveError` null |
| FoodItemReducer.SaveThenDeleteScenario | client/modules/food/food-item-reducer.js:39-60 | the save-request, save-success, delete-request, delete-success scenario passes through the expected states |
| FoodItemReducer.SaveSuccessUnionExample | client/modules/food/food-item-reducer.js:58 | saving a response with ids a and b over ids [a, c] gives [a, b, c] |
| FoodItemReducer.HasId | client/modules/food/food-item-reducer.js:19-20 | the truthiness of `_id`: absent or empty is false, any other string is true |
| FoodItemReducer.ItemsEndpoint | client/modules/food/food-item-reducer.js:19 | the collection URL is the foods root, then the category id, then `/items` |
| FoodItemReducer.ItemEndpoint | client/modules/food/food-item-reducer.js:31 | an item URL is its category's collection URL, then `/`, then the item id |
| FoodItemReducer.SaveFoodItem | client/modules/food/food-item-reducer.js:16-27 | the method is PUT exactly when `_id` is truthy and POST otherwise; the endpoint is the item's URL or the category's collection URL to match; the body is the item; the types are the save triple |
| FoodItemReducer.DeleteFoodItem | client/modules/food/food-item-reducer.js:29-37 | the method is DELETE on the item's URL in its category, with no body and the delete triple of types |
| FoodItemReducer.SaveFoodItemTarget | client/modules/food/food-item-reducer.js:19 | the save endpoint addresses the given category, and the item's own id exactly when that id is truthy |
| FoodItemReducer.DeleteFoodItemTarget | client/modules/food/food-item-reducer.js:31 | the delete endpoint addresses exactly the given category and item |
| FoodItemReducer.RouteOfItemsEndpoint | client/modules/food/food-item-reducer.js:19 | the collection endpoint reads back as its category |
| FoodItemReducer.RouteOfItemEndpoint | client/modules/food/food-item-reducer.js:19 | the item endpoint reads back as its category and item |
| FoodItemReducer.UpdateAndDeleteShareEndpoint | client/modules/food/food-item-reducer.js:16-37 | updating an item with an id and deleting that id use the same endpoint |
| FoodItemReducer.SaveFoodItemExamples | client/modules/food/food-item-reducer.js:19-20 | an item without an id, or with an empty id, is POSTed to the collection; id "42" is PUT to `.../items/42` |
| LodashUnion.Union | client/modules/food/food-item-reducer.js:58 | `union` returns every value of either argument exactly once |
| LodashUnion.UniqAppend | client/modules/food/food-item-reducer.js:58 | the union of two arrays is the deduplicated first array followed by the new values of the deduplicated second array |
| LodashUnion.UnionOfDistinct | client/modules/food/food-item-reducer.js:58 | for a duplicate-free first argument, `union` keeps it whole and in order at the front |
| LodashUnion.UnionIdempotent | client/modules/food/food-item-reducer.js:58 | for any arrays, a second union with the same first argument changes nothing |

## Left out

- The `getAll` and `getOne` selectors (lines 85-90): they only call normalizr's `denormalize` with schemas defined in `store/schemas`. Neither is part of this model.
- The `CALL_API` middleware, HTTP transport and response normalisation: the action creators only build a descriptor. The schemas are opaque tags.
- The concrete action-type strings from `crudActions` and from the food-category reducer: each type is a distinct constructor.
- The JavaScript ordering of `Object.keys` for integer-like keys: the key list of a response is taken as given.
- `_id` values other than strings (numbers, objects) and their truthiness, and how a template literal turns them into text: `_id` is an optional string.
- `categoryId` and `foodItemId` values other than strings: both are strings here, so a call such as `deleteFoodItem(c, undefined)`, which would target `.../items/undefined`, is not modelled.
- Counting of overlapping requests: the code keeps one `saving` flag, and the model states exactly that (the first settlement lowers it while another request is open). The model, like the code, does not track which requests are still open.
- A success action without a `response`, which would throw a TypeError in the reducer: the datatype makes every success action carry one.
- Object identity: states are compared by value. The default branch (line 80) returns the old object itself, and every handled branch returns a new object even when its values are equal. `UnrecognisedKeepsState` states value equality only.
- The unused `difference` import (line 2) and all rendering.
