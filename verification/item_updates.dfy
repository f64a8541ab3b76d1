/** The loop the service runs over the targeted items of an order: for each item in turn, the item
    guard, then the item transition, then the change to the backorder link. The first failure
    aborts the whole operation and nothing is kept. */
module ItemUpdates {
  import opened Wrappers
  import opened StatusIds
  import opened Transactions
  import opened StatusEngine
  import opened StatusChangeTable
  import opened GuardTable
  import opened Errors
  import opened StatusManagement
  import opened Aggregate

  /** What an item operation does to the item's backorder record. */
  datatype BackorderEffect = KeepBackorder | ClearBackorder | AttachBackorder(quantity: int)

  /** The item's status records went through transaction `t` and nothing else about them changed. */
  ghost predicate Transitioned(before: Item, after: Item, t: SalesTransaction) {
    && after.id == before.id
    && (ItemRule(t).Some? ==> Realises(before.statuses, ItemRule(t).value, after.statuses))
    && (ItemRule(t).None? ==> after.statuses == before.statuses)
  }

  /** A transitioned item holds every status the transaction's rule switches on, active. */
  lemma TransitionedActivates(before: Item, after: Item, t: SalesTransaction, a: ItemStatusId)
    requires Transitioned(before, after, t) && ItemRule(t).Some? && a in ItemRule(t).value.activate
    ensures IsActiveIn(after.statuses, a)
  {
    assert Realises(before.statuses, ItemRule(t).value, after.statuses);
  }

  /** The backorder record after `effect`, starting from `before`'s. */
  predicate BackorderAfter(before: Item, after: Item, effect: BackorderEffect) {
    match effect
    case KeepBackorder => after.backorder == before.backorder
    case ClearBackorder => after.backorder.None?
    case AttachBackorder(q) => after.backorder == Some(BackOrderedItem(q))
  }

  /** One pass of the loop body on one item: guard-check, transition, then the backorder link. */
  function UpdateItem(item: Item, t: SalesTransaction, effect: BackorderEffect, now: Instant)
    : (r: Result<Item, Error>)
    ensures r.Success? <==> ItemAllows(item.statuses, t) && ObjectTypeOf(t) == ITEM
    ensures !ItemAllows(item.statuses, t) ==> r.Failure? && r.error == CheckItemStatuses(item.statuses, t).error
    ensures ItemAllows(item.statuses, t) && r.Failure? ==> r.error == InvalidArgument
    ensures r.Success? ==> Transitioned(item, r.value, t) && BackorderAfter(item, r.value, effect)
  {
    match CheckItemStatuses(item.statuses, t)
    case Fail(e) => Failure(e)
    case Pass =>
      var statuses :- ApplyItemStatusChange(item.statuses, t, now);
      var backorder := match effect
        case KeepBackorder => item.backorder
        case ClearBackorder => None
        case AttachBackorder(q) => Some(BackOrderedItem(q));
      Success(item.(statuses := statuses, backorder := backorder))
  }

  /** Position `k` is the first targeted item on which `step` fails. */
  ghost predicate IsFirstFailureOf(items: seq<Item>, targets: seq<ItemId>, step: Item -> Result<Item, Error>, k: int) {
    && 0 <= k < |items| && items[k].id in targets
    && step(items[k]).Failure?
    && forall j :: 0 <= j < k && items[j].id in targets ==> step(items[j]).Success?
  }

  /** Run `step` over every item whose id is targeted, in the order's item order. Either every
      targeted item is stepped and the others are kept, or the first failure is returned. */
  function UpdateWhere(items: seq<Item>, targets: seq<ItemId>, step: Item -> Result<Item, Error>)
    : (r: Result<seq<Item>, Error>)
    ensures r.Success? <==> forall k :: 0 <= k < |items| && items[k].id in targets ==> step(items[k]).Success?
    ensures r.Success? ==> |r.value| == |items|
    ensures r.Success? ==> forall k :: 0 <= k < |items| && items[k].id !in targets ==> r.value[k] == items[k]
    ensures r.Success? ==> forall k :: 0 <= k < |items| && items[k].id in targets ==> r.value[k] == step(items[k]).value
    ensures r.Failure? ==> exists k :: IsFirstFailureOf(items, targets, step, k) && r.error == step(items[k]).error
  {
    if |items| == 0 then Success([])
    else
      var head := if items[0].id in targets then step(items[0]) else Success(items[0]);
      match head
      case Failure(e) =>
        assert IsFirstFailureOf(items, targets, step, 0);
        Failure(e)
      case Success(first) =>
        var rest := UpdateWhere(items[1..], targets, step);
        match rest
        case Failure(e) =>
          assert exists k :: IsFirstFailureOf(items, targets, step, k) && e == step(items[k]).error by {
            var k :| IsFirstFailureOf(items[1..], targets, step, k) && e == step(items[1..][k]).error;
            FirstFailureShift(items, targets, step, k);
          }
          Failure(e)
        case Success(updated) =>
          assert forall k :: 1 <= k < |items| ==> items[k] == items[1..][k - 1];
          Success([first] + updated)
  }

  /** The first failure in the tail is the first failure of the list when the head went through. */
  lemma FirstFailureShift(items: seq<Item>, targets: seq<ItemId>, step: Item -> Result<Item, Error>, k: int)
    requires |items| > 0 && IsFirstFailureOf(items[1..], targets, step, k)
    requires items[0].id in targets ==> step(items[0]).Success?
    ensures IsFirstFailureOf(items, targets, step, k + 1) && items[k + 1] == items[1..][k]
  {
    forall j | 0 <= j < k + 1 && items[j].id in targets ensures step(items[j]).Success? {
      if j > 0 { assert items[j] == items[1..][j - 1]; }
    }
  }

  /** Position `k` is the first targeted item whose update fails. */
  ghost predicate IsFirstFailure(items: seq<Item>, targets: seq<ItemId>, t: SalesTransaction,
                                 effect: BackorderEffect, now: Instant, k: int) {
    && 0 <= k < |items| && items[k].id in targets
    && UpdateItem(items[k], t, effect, now).Failure?
    && forall j :: 0 <= j < k && items[j].id in targets ==> UpdateItem(items[j], t, effect, now).Success?
  }

  /** Position `k` is the first targeted item whose own status records forbid `t`. */
  ghost predicate IsFirstBlockedItem(items: seq<Item>, targets: seq<ItemId>, t: SalesTransaction, k: int) {
    && 0 <= k < |items| && items[k].id in targets
    && !ItemAllows(items[k].statuses, t)
    && forall j :: 0 <= j < k && items[j].id in targets ==> ItemAllows(items[j].statuses, t)
  }

  /** The service's item loop: the loop body over every targeted item. */
  function UpdateItems(items: seq<Item>, targets: seq<ItemId>, t: SalesTransaction,
                       effect: BackorderEffect, now: Instant): (r: Result<seq<Item>, Error>)
    ensures r.Success? <==>
              forall k :: 0 <= k < |items| && items[k].id in targets ==> UpdateItem(items[k], t, effect, now).Success?
    ensures r.Success? ==> |r.value| == |items|
    ensures r.Success? ==> forall k :: 0 <= k < |items| && items[k].id !in targets ==> r.value[k] == items[k]
    ensures r.Success? ==> forall k :: 0 <= k < |items| && items[k].id in targets ==>
              r.value[k] == UpdateItem(items[k], t, effect, now).value
    ensures r.Failure? ==> exists k :: IsFirstFailure(items, targets, t, effect, now, k)
                                       && r.error == UpdateItem(items[k], t, effect, now).error
    ensures ObjectTypeOf(t) == ITEM && r.Failure? ==>
              exists k :: IsFirstBlockedItem(items, targets, t, k) && r.error == CheckItemStatuses(items[k].statuses, t).error
  {
    var step := (item: Item) => UpdateItem(item, t, effect, now);
    var r := UpdateWhere(items, targets, step);
    assert r.Failure? ==> exists k :: IsFirstFailure(items, targets, t, effect, now, k)
                                      && r.error == UpdateItem(items[k], t, effect, now).error by {
      if r.Failure? {
        var k :| IsFirstFailureOf(items, targets, step, k) && r.error == step(items[k]).error;
        assert IsFirstFailure(items, targets, t, effect, now, k);
        if ObjectTypeOf(t) == ITEM {
          assert IsFirstBlockedItem(items, targets, t, k);
        }
      }
    }
    r
  }
}
