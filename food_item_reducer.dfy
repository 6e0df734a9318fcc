/**
 * The food-item index of the pantry admin client: the reducer that keeps the
 * list of known food-item ids and the save status, the two action creators
 * that describe the REST calls for saving and deleting a food item, and the
 * status selectors.
 *
 * The reducer never mutates its input: for each action type it handles it
 * builds a new state from the old one, and for any other it returns the very
 * same state. It is modelled as a function `Step` over a state datatype,
 * compared by value, and a run of dispatched actions as the fold `Apply`.
 */
module FoodItemReducer {
  import opened Wrappers
  import opened LodashUnion

  // ---------------------------------------------------------------------------
  // Data model
  // ---------------------------------------------------------------------------

  /** Food-item ids are the keys of the normalised `foodItems` entity table. */
  type Id = string

  /** The keys of an object (as `Object.keys` lists them): never repeated. */
  type Keys = s: seq<Id> | Distinct(s)

  /**
   * The normalised payload of a success action, reduced to what the reducer
   * reads: `response.entities.foodItems`, absent when the response holds no
   * food item, otherwise an object whose keys are listed here in order.
   */
  datatype Response = Response(foodItems: Option<Keys>)

  /**
   * The `saveError` property: absent from the initial state, `null` once a
   * request starts, or the error payload of the last failure.
   */
  datatype ErrorSlot<E> = Unset | Cleared | Failed(error: E)

  /**
   * The index state `{ids, saving, saveError}`. The initial state only has
   * `ids`, so `saving` is `None` until the first request or settlement.
   */
  datatype IndexState<E> = IndexState(ids: seq<Id>, saving: Option<bool>, saveError: ErrorSlot<E>)

  /**
   * The actions the reducer tells apart: the food-item save and delete
   * lifecycles, the two food-category actions it listens to, and any other
   * action type, which it ignores.
   */
  datatype Action<E> =
    | ItemSaveRequest
    | ItemSaveSuccess(response: Response)
    | ItemSaveFailure(error: E)
    | ItemDeleteRequest
    | ItemDeleteSuccess(response: Response)
    | ItemDeleteFailure(error: E)
    | CategorySaveSuccess(response: Response)
    | CategoryLoadAllSuccess(response: Response)
    | Unrecognised(actionType: string)

  /** The food-item action type tags that a call descriptor lists. */
  datatype ActionType =
    | SaveRequest | SaveSuccess | SaveFailure
    | DeleteRequest | DeleteSuccess | DeleteFailure

  /** The action-type tag of a food-item lifecycle action. */
  function TypeOf<E>(a: Action<E>): (t: Option<ActionType>)
    ensures t.Some? <==> IsRequest(a) || Settles(a)
    ensures t == Some(SaveRequest) <==> a.ItemSaveRequest?
    ensures t == Some(SaveSuccess) <==> a.ItemSaveSuccess?
    ensures t == Some(SaveFailure) <==> a.ItemSaveFailure?
    ensures t == Some(DeleteRequest) <==> a.ItemDeleteRequest?
    ensures t == Some(DeleteSuccess) <==> a.ItemDeleteSuccess?
    ensures t == Some(DeleteFailure) <==> a.ItemDeleteFailure?
  {
    match a
    case ItemSaveRequest => Some(SaveRequest)
    case ItemSaveSuccess(_) => Some(SaveSuccess)
    case ItemSaveFailure(_) => Some(SaveFailure)
    case ItemDeleteRequest => Some(DeleteRequest)
    case ItemDeleteSuccess(_) => Some(DeleteSuccess)
    case ItemDeleteFailure(_) => Some(DeleteFailure)
    case _ => None
  }

  /** A save or delete request has been started. */
  predicate IsRequest<E>(a: Action<E>) {
    a.ItemSaveRequest? || a.ItemDeleteRequest?
  }

  /** A save or delete request has come back, with success or failure. */
  predicate Settles<E>(a: Action<E>) {
    a.ItemSaveSuccess? || a.ItemDeleteSuccess? || a.ItemSaveFailure? || a.ItemDeleteFailure?
  }

  // ---------------------------------------------------------------------------
  // The reducer
  // ---------------------------------------------------------------------------

  /** The default state `{ids: []}`: no id, `saving` and `saveError` absent. */
  function Initial<E>(): (s: IndexState<E>)
    ensures s == IndexState([], None, Unset)
  {
    IndexState([], None, Unset)
  }

  /** The ids a response carries: the keys of its `foodItems`, or none. */
  function ResultIds(r: Response): (ids: seq<Id>)
    ensures Distinct(ids)
    ensures r.foodItems.None? ==> ids == []
  {
    match r.foodItems
    case None => []
    case Some(keys) => keys
  }

  /** The ids an action brings into the index (those of its response). */
  function Delivered<E>(a: Action<E>): seq<Id> {
    match a
    case ItemSaveSuccess(r) => ResultIds(r)
    case ItemDeleteSuccess(r) => ResultIds(r)
    case CategorySaveSuccess(r) => ResultIds(r)
    case CategoryLoadAllSuccess(r) => ResultIds(r)
    case _ => []
  }

  /**
   * One transition of the reducer. It keeps `ids` free of duplicates, and
   * every id it holds afterwards was held before or came with the action.
   */
  function Step<E>(s: IndexState<E>, a: Action<E>): (t: IndexState<E>)
    ensures Distinct(s.ids) ==> Distinct(t.ids)
    ensures forall x :: x in t.ids ==> x in s.ids || x in Delivered(a)
  {
    match a
    case ItemSaveRequest | ItemDeleteRequest =>
      s.(saving := Some(true), saveError := Cleared)
    case ItemSaveSuccess(_) | ItemDeleteSuccess(_) =>
      var result := ResultIds(a.response);
      s.(ids := if a.ItemDeleteSuccess? then result else Union(result, s.ids),
         saving := Some(false))
    case CategorySaveSuccess(r) =>
      s.(ids := ResultIds(r))
    case CategoryLoadAllSuccess(r) =>
      s.(ids := ResultIds(r))
    case ItemSaveFailure(_) | ItemDeleteFailure(_) =>
      s.(saving := Some(false), saveError := Failed(a.error))
    case Unrecognised(_) =>
      s
  }

  /**
   * The exported reducer: an undefined state is replaced by the default
   * first, so the first dispatch is the first step of a run from the default
   * state, and it keeps `ids` duplicate-free.
   */
  function Reduce<E>(state: Option<IndexState<E>>, a: Action<E>): (t: IndexState<E>)
    ensures state.None? ==> t == Apply(Initial(), [a])
    ensures state.Some? ==> t == Apply(state.value, [a])
    ensures (state.None? || Distinct(state.value.ids)) ==> Distinct(t.ids)
  {
    match state
    case None => Step(Initial(), a)
    case Some(s) => Step(s, a)
  }

  /** The state after dispatching `acts` in order, starting from `s`. */
  function Apply<E>(s: IndexState<E>, acts: seq<Action<E>>): IndexState<E>
    decreases |acts|
  {
    if acts == [] then s else Apply(Step(s, acts[0]), acts[1..])
  }

  /** Selector `saving`: the state's flag. */
  function Saving<E>(s: IndexState<E>): (r: Option<bool>)
    ensures r == s.saving
  {
    s.saving
  }

  /** Selector `saveError`: the state's error slot. */
  function SaveError<E>(s: IndexState<E>): (r: ErrorSlot<E>)
    ensures r == s.saveError
  {
    s.saveError
  }

  // ---------------------------------------------------------------------------
  // The transition table, row by row
  // ---------------------------------------------------------------------------

  /** Starting a save or a delete raises `saving`, clears the error and keeps `ids`. */
  lemma RequestStartsSaving<E>(s: IndexState<E>, a: Action<E>)
    requires IsRequest(a)
    ensures Saving(Step(s, a)) == Some(true)
    ensures SaveError(Step(s, a)) == Cleared
    ensures Step(s, a).ids == s.ids
  {
  }

  /**
   * A save success merges the response's ids into `ids`: exactly the ids of
   * either, once each; the response's ids first and in their order, then the
   * earlier ids the response lacks, in their earlier order. `saving` drops and
   * `saveError` is kept.
   */
  lemma SaveSuccessMergesIds<E>(s: IndexState<E>, r: Response)
    ensures var t := Step(s, ItemSaveSuccess(r));
      && Distinct(t.ids)
      && (forall x :: x in t.ids <==> x in ResultIds(r) || x in s.ids)
      && t.ids == ResultIds(r) + Minus(Uniq(s.ids), ResultIds(r))
      && (Distinct(s.ids) ==> t.ids == ResultIds(r) + Minus(s.ids, ResultIds(r)))
      && Saving(t) == Some(false)
      && SaveError(t) == s.saveError
  {
    UnionOfDistinct(ResultIds(r), s.ids);
  }

  /** In the merged ids, every id of the response comes before every id it lacks. */
  lemma SaveSuccessOrdersResponseFirst<E>(s: IndexState<E>, r: Response, i: nat, j: nat)
    requires var t := Step(s, ItemSaveSuccess(r)); i < |t.ids| && j < |t.ids|
    requires var t := Step(s, ItemSaveSuccess(r)); t.ids[i] in ResultIds(r) && t.ids[j] !in ResultIds(r)
    ensures i < j
  {
    var t := Step(s, ItemSaveSuccess(r));
    var k := ResultIds(r);
    SaveSuccessMergesIds(s, r);
    assert t.ids == k + Minus(Uniq(s.ids), k);
  }

  /**
   * A delete success replaces `ids` by the response's ids, dropping every
   * earlier id the response does not list; `saving` drops, `saveError` is kept.
   */
  lemma DeleteSuccessReplacesIds<E>(s: IndexState<E>, r: Response)
    ensures var t := Step(s, ItemDeleteSuccess(r));
      && t.ids == ResultIds(r)
      && (forall x :: x in s.ids && x !in ResultIds(r) ==> x !in t.ids)
      && Saving(t) == Some(false)
      && SaveError(t) == s.saveError
  {
  }

  /**
   * Without a `foodItems` entity the response carries no ids: delete success
   * and both category actions empty the index, and save success only removes
   * duplicates from it.
   */
  lemma MissingFoodItemsYieldNoIds<E>(s: IndexState<E>, r: Response)
    requires r.foodItems.None?
    ensures Step(s, ItemDeleteSuccess(r)).ids == []
    ensures Step(s, CategorySaveSuccess(r)).ids == []
    ensures Step(s, CategoryLoadAllSuccess(r)).ids == []
    ensures Step(s, ItemSaveSuccess(r)).ids == Uniq(s.ids)
    ensures Distinct(s.ids) ==> Step(s, ItemSaveSuccess(r)).ids == s.ids
  {
    assert Step(s, ItemSaveSuccess(r)).ids == Union([], s.ids);
    UnionWithNothing(s.ids);
    if Distinct(s.ids) {
      UniqOfDistinct(s.ids);
    }
  }

  /** The two food-category actions replace `ids` and leave the save status alone. */
  lemma CategoryActionsReplaceIds<E>(s: IndexState<E>, a: Action<E>)
    requires a.CategorySaveSuccess? || a.CategoryLoadAllSuccess?
    ensures Step(s, a).ids == ResultIds(a.response)
    ensures Saving(Step(s, a)) == Saving(s)
    ensures SaveError(Step(s, a)) == SaveError(s)
  {
  }

  /** A failed save or delete drops `saving`, records the error and keeps `ids`. */
  lemma FailureRecordsError<E>(s: IndexState<E>, a: Action<E>)
    requires a.ItemSaveFailure? || a.ItemDeleteFailure?
    ensures Saving(Step(s, a)) == Some(false)
    ensures SaveError(Step(s, a)) == Failed(a.error)
    ensures Step(s, a).ids == s.ids
  {
  }

  /** An action of any other type returns the state as it was. */
  lemma UnrecognisedKeepsState<E>(s: IndexState<E>, name: string)
    ensures Step(s, Unrecognised(name)) == s
  {
  }

  /** Before the first action the reducer starts from `{ids: []}`. */
  lemma ReduceStartsFromDefault<E>(a: Action<E>, name: string)
    ensures Reduce(None, a) == Step(Initial(), a)
    ensures Reduce<E>(None, Unrecognised(name)) == IndexState([], None, Unset)
  {
  }

  /** Receiving the same save response twice is the same as receiving it once. */
  lemma SaveSuccessIdempotent<E>(s: IndexState<E>, r: Response)
    ensures Step(Step(s, ItemSaveSuccess(r)), ItemSaveSuccess(r)) == Step(s, ItemSaveSuccess(r))
  {
    UnionIdempotent(ResultIds(r), s.ids);
  }

  // ---------------------------------------------------------------------------
  // Runs of actions
  // ---------------------------------------------------------------------------

  /** Dispatching one more action is one more `Step`. */
  lemma {:induction false} ApplySnoc<E>(s: IndexState<E>, acts: seq<Action<E>>, a: Action<E>)
    ensures Apply(s, acts + [a]) == Step(Apply(s, acts), a)
    decreases |acts|
  {
    if acts == [] {
      assert acts + [a] == [a];
    } else {
      assert (acts + [a])[1..] == acts[1..] + [a];
      ApplySnoc(Step(s, acts[0]), acts[1..], a);
    }
  }

  /** No run of actions introduces a duplicate id. */
  lemma {:induction false} ApplyKeepsIdsDistinct<E>(s: IndexState<E>, acts: seq<Action<E>>)
    requires Distinct(s.ids)
    ensures Distinct(Apply(s, acts).ids)
    decreases |acts|
  {
    if acts != [] {
      ApplyKeepsIdsDistinct(Step(s, acts[0]), acts[1..]);
    }
  }

  /** Every state reachable from the default state holds each id at most once. */
  lemma ReachableIdsDistinct<E>(acts: seq<Action<E>>)
    ensures Distinct(Apply(Initial<E>(), acts).ids)
  {
    ApplyKeepsIdsDistinct(Initial<E>(), acts);
  }

  /** Every id in a reachable state came with the response of some dispatched action. */
  lemma {:induction false} ReachableIdsWereDelivered<E>(acts: seq<Action<E>>)
    ensures forall x :: x in Apply(Initial<E>(), acts).ids ==>
      exists i :: 0 <= i < |acts| && x in Delivered(acts[i])
    decreases |acts|
  {
    if acts != [] {
      var init, a := acts[..|acts| - 1], acts[|acts| - 1];
      assert acts == init + [a];
      ApplySnoc(Initial<E>(), init, a);
      ReachableIdsWereDelivered(init);
      forall x | x in Apply(Initial<E>(), acts).ids
        ensures exists i :: 0 <= i < |acts| && x in Delivered(acts[i])
      {
        if x in Delivered(a) {
          assert acts[|acts| - 1] == a;
        } else {
          var i :| 0 <= i < |init| && x in Delivered(init[i]);
          assert acts[i] == init[i];
        }
      }
    }
  }

  /**
   * The `saving` flag a run should leave, read off its last request or
   * settlement: true after a request, false after a success or failure of the
   * food item's save or delete, absent when there was neither.
   */
  function ExpectedSaving<E>(acts: seq<Action<E>>): Option<bool>
    decreases |acts|
  {
    if acts == [] then None
    else
      var a := acts[|acts| - 1];
      if IsRequest(a) then Some(true)
      else if Settles(a) then Some(false)
      else ExpectedSaving(acts[..|acts| - 1])
  }

  /**
   * The `saveError` a run should leave, read off its last request or failure:
   * null after a request, the failure's error after a failure, absent when
   * there was neither (successes do not touch it).
   */
  function ExpectedSaveError<E>(acts: seq<Action<E>>): ErrorSlot<E>
    decreases |acts|
  {
    if acts == [] then Unset
    else
      var a := acts[|acts| - 1];
      if IsRequest(a) then Cleared
      else if a.ItemSaveFailure? || a.ItemDeleteFailure? then Failed(a.error)
      else ExpectedSaveError(acts[..|acts| - 1])
  }

  /**
   * From the default state, `saving` and `saveError` are decided by the last
   * lifecycle action alone: `saving` is true exactly when the last request or
   * settlement was a request, and `saveError` is non-null only after a
   * failure not yet followed by a new request. Overlapping requests are not
   * counted: the first settlement lowers `saving` while another is open.
   */
  lemma {:induction false} StatusFollowsLastLifecycleAction<E>(acts: seq<Action<E>>)
    ensures Saving(Apply(Initial<E>(), acts)) == ExpectedSaving(acts)
    ensures SaveError(Apply(Initial<E>(), acts)) == ExpectedSaveError(acts)
    decreases |acts|
  {
    if acts != [] {
      var init, a := acts[..|acts| - 1], acts[|acts| - 1];
      assert acts == init + [a];
      ApplySnoc(Initial<E>(), init, a);
      StatusFollowsLastLifecycleAction(init);
    }
  }

  /**
   * A save still open when a later delete settles is not tracked: `saving`
   * is already false.
   */
  lemma OverlappingRequestsNotTracked<E>(r: Response)
    ensures Saving(Apply(Initial<E>(), [ItemSaveRequest, ItemDeleteRequest, ItemDeleteSuccess(r)])) == Some(false)
  {
    var acts: seq<Action<E>> := [ItemSaveRequest, ItemDeleteRequest, ItemDeleteSuccess(r)];
    StatusFollowsLastLifecycleAction(acts);
    assert acts[|acts| - 1] == ItemDeleteSuccess(r);
  }

  /** After a run that ends with a request, `saving` is up and the error cleared. */
  lemma SavingAfterRequest<E>(acts: seq<Action<E>>, a: Action<E>)
    requires IsRequest(a)
    ensures Saving(Apply(Initial<E>(), acts + [a])) == Some(true)
    ensures SaveError(Apply(Initial<E>(), acts + [a])) == Cleared
  {
    ApplySnoc(Initial<E>(), acts, a);
  }

  /**
   * A scenario from the default state: save request, a save
   * success carrying item "42", delete request, and a delete success whose
   * response has an empty `foodItems` table.
   */
  lemma SaveThenDeleteScenario<E>()
    ensures var s1 := Step(Initial<E>(), ItemSaveRequest);
      s1 == IndexState([], Some(true), Cleared)
    ensures var s2 := Step<E>(IndexState([], Some(true), Cleared), ItemSaveSuccess(Response(Some(["42"]))));
      s2 == IndexState(["42"], Some(false), Cleared)
    ensures var s3 := Step<E>(IndexState(["42"], Some(false), Cleared), ItemDeleteRequest);
      s3 == IndexState(["42"], Some(true), Cleared)
    ensures var s4 := Step<E>(IndexState(["42"], Some(true), Cleared), ItemDeleteSuccess(Response(Some([]))));
      s4 == IndexState([], Some(false), Cleared)
  {
    var k: seq<Id> := ["42"];
    assert [] + k == k;
    UniqOfDistinct(k);
  }

  /** Saving {a, b} over ids [a, c] gives exactly a, b and c, response first. */
  lemma SaveSuccessUnionExample<E>(saving: Option<bool>, err: ErrorSlot<E>)
    ensures Step(IndexState(["a", "c"], saving, err), ItemSaveSuccess(Response(Some(["a", "b"])))).ids
      == ["a", "b", "c"]
  {
    UnionExample("a", "b", "c");
  }

  // ---------------------------------------------------------------------------
  // Action creators
  // ---------------------------------------------------------------------------

  datatype HttpMethod = Post | Put | Delete

  /** The normalizr schemas named in a descriptor, as opaque tags. */
  datatype Schema = FoodItemSchema | FoodCategorySchema

  /**
   * A food item as the form submits it: `_id` (absent, undefined or null are
   * `None`) and its display fields.
   */
  datatype FoodItem = FoodItem(id: Option<string>, fields: map<string, string>)

  /** The `CALL_API` descriptor that the API middleware executes. */
  datatype ApiCall = ApiCall(
    endpoint: string,
    verb: HttpMethod,
    body: Option<FoodItem>,
    schema: Schema,
    responseSchema: Schema,
    types: (ActionType, ActionType, ActionType))

  /**
   * `foodItem._id` is truthy: an absent, undefined or null `_id` is falsy,
   * the empty string is falsy, and any other string is truthy.
   */
  predicate HasId(item: FoodItem): (b: bool)
    ensures item.id.None? ==> !b
    ensures item.id == Some("") ==> !b
    ensures item.id.Some? && |item.id.value| > 0 ==> b
  {
    item.id.Some? && item.id.value != ""
  }

  const FoodsRoot: string := "admin/foods/"
  const ItemsSegment: string := "items"

  /**
   * `admin/foods/{categoryId}/items`: the items of one category. The path is
   * the foods root, the category id, then `/items`.
   */
  function ItemsEndpoint(categoryId: string): (e: string)
    ensures |e| == |FoodsRoot| + |categoryId| + 1 + |ItemsSegment|
    ensures e[..|FoodsRoot|] == FoodsRoot
    ensures e[|FoodsRoot|..|FoodsRoot| + |categoryId|] == categoryId
    ensures e[|FoodsRoot| + |categoryId|..] == "/" + ItemsSegment
  {
    FoodsRoot + categoryId + "/" + ItemsSegment
  }

  /**
   * `admin/foods/{categoryId}/items/{itemId}`: one item of a category, whose
   * path extends the category's items path by `/` and the item id.
   */
  function ItemEndpoint(categoryId: string, itemId: string): (e: string)
    ensures |e| == |ItemsEndpoint(categoryId)| + 1 + |itemId|
    ensures e[..|ItemsEndpoint(categoryId)|] == ItemsEndpoint(categoryId)
    ensures e[|ItemsEndpoint(categoryId)|] == '/'
    ensures e[|ItemsEndpoint(categoryId)| + 1..] == itemId
  {
    ItemsEndpoint(categoryId) + "/" + itemId
  }

  /**
   * `saveFoodItem`: update the item in place when it has an id, otherwise
   * create it in the category's collection; the item itself is the body.
   */
  function SaveFoodItem(categoryId: string, item: FoodItem): (c: ApiCall)
    ensures c.verb == Put <==> HasId(item)
    ensures c.verb == Post <==> !HasId(item)
    ensures HasId(item) ==> c.endpoint == ItemEndpoint(categoryId, item.id.value)
    ensures !HasId(item) ==> c.endpoint == ItemsEndpoint(categoryId)
    ensures c.body == Some(item)
    ensures c.schema == FoodItemSchema && c.responseSchema == FoodCategorySchema
    ensures c.types == (SaveRequest, SaveSuccess, SaveFailure)
  {
    ApiCall(
      if HasId(item) then ItemEndpoint(categoryId, item.id.value) else ItemsEndpoint(categoryId),
      if HasId(item) then Put else Post,
      Some(item),
      FoodItemSchema,
      FoodCategorySchema,
      (SaveRequest, SaveSuccess, SaveFailure))
  }

  /** `deleteFoodItem`: delete one item of a category; no body. */
  function DeleteFoodItem(categoryId: string, itemId: string): (c: ApiCall)
    ensures c.verb == Delete
    ensures c.endpoint == ItemEndpoint(categoryId, itemId)
    ensures c.body.None?
    ensures c.schema == FoodItemSchema && c.responseSchema == FoodCategorySchema
    ensures c.types == (DeleteRequest, DeleteSuccess, DeleteFailure)
  {
    ApiCall(
      ItemEndpoint(categoryId, itemId),
      Delete,
      None,
      FoodItemSchema,
      FoodCategorySchema,
      (DeleteRequest, DeleteSuccess, DeleteFailure))
  }

  // ---------------------------------------------------------------------------
  // Reading an endpoint back: which category and which item it addresses
  // ---------------------------------------------------------------------------

  /** The resource an endpoint addresses: a category's items, or one of them. */
  datatype Target = Target(categoryId: string, itemId: Option<string>)

  /** Splits `s` at its first '/', if it has one. */
  function SplitAtSlash(s: string): (p: (string, Option<string>))
    ensures '/' !in p.0
    ensures p.1.None? ==> s == p.0
    ensures p.1.Some? ==> s == p.0 + "/" + p.1.value
  {
    if s == [] then ([], None)
    else if s[0] == '/' then ([], Some(s[1..]))
    else
      var (head, tail) := SplitAtSlash(s[1..]);
      assert s == [s[0]] + s[1..];
      ([s[0]] + head, tail)
  }

  /** The endpoint that an items collection or a single item is reached at. */
  function Route(e: string): Option<Target> {
    if |e| < |FoodsRoot| || e[..|FoodsRoot|] != FoodsRoot then None
    else
      var (categoryId, rest) := SplitAtSlash(e[|FoodsRoot|..]);
      match rest
      case None => None
      case Some(r) =>
        if r == ItemsSegment then Some(Target(categoryId, None))
        else if |r| > |ItemsSegment| && r[..|ItemsSegment| + 1] == ItemsSegment + "/" then
          Some(Target(categoryId, Some(r[|ItemsSegment| + 1..])))
        else None
  }

  /** The first '/' of `h + "/" + t` is the one after `h` when `h` has none. */
  lemma {:induction false} SplitAtSlashOfJoin(h: string, t: string)
    requires '/' !in h
    ensures SplitAtSlash(h + "/" + t) == (h, Some(t))
  {
    if h != [] {
      assert (h + "/" + t)[1..] == h[1..] + "/" + t;
      SplitAtSlashOfJoin(h[1..], t);
      assert [h[0]] + h[1..] == h;
    }
  }

  /** The items endpoint of a slash-free category id reads back as that category. */
  lemma RouteOfItemsEndpoint(categoryId: string)
    requires '/' !in categoryId
    ensures Route(ItemsEndpoint(categoryId)) == Some(Target(categoryId, None))
  {
    var e := ItemsEndpoint(categoryId);
    assert e == FoodsRoot + (categoryId + "/" + ItemsSegment);
    assert e[..|FoodsRoot|] == FoodsRoot;
    assert e[|FoodsRoot|..] == categoryId + "/" + ItemsSegment;
    SplitAtSlashOfJoin(categoryId, ItemsSegment);
  }

  /** An item endpoint of a slash-free category id reads back as that category and item. */
  lemma RouteOfItemEndpoint(categoryId: string, itemId: string)
    requires '/' !in categoryId
    ensures Route(ItemEndpoint(categoryId, itemId)) == Some(Target(categoryId, Some(itemId)))
  {
    var e := ItemEndpoint(categoryId, itemId);
    var r := ItemsSegment + "/" + itemId;
    assert e == FoodsRoot + (categoryId + "/" + r);
    assert e[..|FoodsRoot|] == FoodsRoot;
    assert e[|FoodsRoot|..] == categoryId + "/" + r;
    SplitAtSlashOfJoin(categoryId, r);
    assert r[..|ItemsSegment| + 1] == ItemsSegment + "/";
    assert r[|ItemsSegment| + 1..] == itemId;
  }

  /**
   * `saveFoodItem` addresses the item by its id when it has one and the
   * category's collection otherwise; an empty id counts as none.
   */
  lemma SaveFoodItemTarget(categoryId: string, item: FoodItem)
    requires '/' !in categoryId
    ensures Route(SaveFoodItem(categoryId, item).endpoint)
      == Some(Target(categoryId, if HasId(item) then item.id else None))
  {
    if HasId(item) {
      RouteOfItemEndpoint(categoryId, item.id.value);
    } else {
      RouteOfItemsEndpoint(categoryId);
    }
  }

  /** `deleteFoodItem` addresses exactly the given item of the given category. */
  lemma DeleteFoodItemTarget(categoryId: string, itemId: string)
    requires '/' !in categoryId
    ensures Route(DeleteFoodItem(categoryId, itemId).endpoint) == Some(Target(categoryId, Some(itemId)))
  {
    RouteOfItemEndpoint(categoryId, itemId);
  }

  /**
   * The descriptors list the action types of the lifecycle actions the
   * reducer handles: request, success and failure of a save or a delete.
   */
  lemma DescriptorTypesMatchActions<E>(categoryId: string, item: FoodItem, itemId: string, r: Response, e: E)
    ensures var (req, ok, fail) := SaveFoodItem(categoryId, item).types;
      Some(req) == TypeOf<E>(ItemSaveRequest) && Some(ok) == TypeOf<E>(ItemSaveSuccess(r))
      && Some(fail) == TypeOf(ItemSaveFailure(e))
    ensures var (req, ok, fail) := DeleteFoodItem(categoryId, itemId).types;
      Some(req) == TypeOf<E>(ItemDeleteRequest) && Some(ok) == TypeOf<E>(ItemDeleteSuccess(r))
      && Some(fail) == TypeOf(ItemDeleteFailure(e))
  {
  }

  /** Updating an item and deleting it address the same resource. */
  lemma UpdateAndDeleteShareEndpoint(categoryId: string, item: FoodItem)
    requires HasId(item)
    ensures SaveFoodItem(categoryId, item).endpoint == DeleteFoodItem(categoryId, item.id.value).endpoint
    ensures SaveFoodItem(categoryId, item).verb == Put
  {
  }

  /** Example calls: no id creates in the collection, id "42" updates item 42. */
  lemma SaveFoodItemExamples(categoryId: string, fields: map<string, string>)
    ensures SaveFoodItem(categoryId, FoodItem(None, fields)).verb == Post
    ensures SaveFoodItem(categoryId, FoodItem(None, fields)).endpoint == "admin/foods/" + categoryId + "/items"
    ensures SaveFoodItem(categoryId, FoodItem(Some(""), fields)).verb == Post
    ensures SaveFoodItem(categoryId, FoodItem(Some(""), fields)).endpoint == "admin/foods/" + categoryId + "/items"
    ensures SaveFoodItem(categoryId, FoodItem(Some("42"), fields)).verb == Put
    ensures SaveFoodItem(categoryId, FoodItem(Some("42"), fields)).endpoint
      == "admin/foods/" + categoryId + "/items/42"
  {
  }
}
