/** The business operations on one sales order. Each takes the loaded aggregate and returns either
    an error, with nothing changed, or the complete new aggregate. Every operation runs its guard
    checks before any transition, in the same order as the service does. */
module SalesOrderService {
  import opened Wrappers
  import opened StatusIds
  import opened Transactions
  import opened StatusEngine
  import opened StatusChangeTable
  import opened GuardTable
  import opened Errors
  import opened StatusManagement
  import opened Aggregate
  import opened ItemSelection
  import opened ItemUpdates

  /** Order transactions the generic order entry point refuses: item transactions, and the
      cancel and restart operations that have their own entry points. */
  predicate IsReservedOrderTransaction(t: SalesTransaction) {
    ObjectTypeOf(t) != ORDER || t == CANCEL_ORDER || t == RESTART_ORDER || t == RESTART_DISPUTED_ORDER
  }

  /** Item transactions the generic item entry point refuses: order transactions, and backorder
      and the two cancels, which have their own entry points. */
  predicate IsReservedItemTransaction(t: SalesTransaction) {
    ObjectTypeOf(t) != ITEM || t == BACKORDER_ITEM || t == CANCEL_ITEM || t == SYSTEM_CANCEL_ITEM
  }

  /** The item guard table forbids only the two item cancels and the backorder, all reserved,
      so a plain item transaction is never blocked by an item's own statuses. */
  lemma PlainItemTransactionNeverBlocked(items: seq<Item>, t: SalesTransaction)
    requires !IsReservedItemTransaction(t)
    ensures forall k :: 0 <= k < |items| ==> ItemAllows(items[k].statuses, t)
  {
    forall k, i | 0 <= k < |items| && 0 <= i < |items[k].statuses| && items[k].statuses[i].active
      ensures !ItemForbids(items[k].statuses[i].id, t)
    {
      assert ItemForbidRule(items[k].statuses[i].id).Some? ==>
             t !in ItemForbidRule(items[k].statuses[i].id).value;
    }
  }

  /** The transaction a detail update is checked against: the system actor and the customer
      are governed by different entries of the guard table. */
  function UpdatePermission(systemChange: bool): (t: SalesTransaction)
    ensures ObjectTypeOf(t) == ORDER
    ensures t == SYSTEM_CHANGE_DETAILS <==> systemChange
  {
    if systemChange then SYSTEM_CHANGE_DETAILS else CHANGE_DETAILS
  }

  /** The header guard as a step of an operation. */
  function RequireHeader(statuses: seq<OrderRecord>, t: SalesTransaction): (r: Result<(), Error>)
    ensures r.Success? <==> HeaderAllows(statuses, t)
    ensures r.Failure? ==> r.error == CheckHeaderStatuses(statuses, t).error && r.error.Conflict?
  {
    match CheckHeaderStatuses(statuses, t)
    case Pass => Success(())
    case Fail(e) => Failure(e)
  }

  /** The item fetch as a step of an operation. */
  function RequireSelection(items: seq<Item>, ids: seq<ItemId>): (r: Result<(), Error>)
    ensures r.Success? <==> CheckSelection(items, ids).Pass?
    ensures r.Failure? ==> r.error == NotFound
  {
    match CheckSelection(items, ids)
    case Pass => Success(())
    case Fail(e) => Failure(e)
  }

  /** The transaction applied to each item by a cancel, chosen by the actor. */
  function ItemCancelTransaction(systemCancel: bool): (t: SalesTransaction)
    ensures ObjectTypeOf(t) == ITEM
    ensures ItemRule(t).Some? && ItemRule(t).value.activate == {if systemCancel then E_CNCL_SYS else E_CNCL_CUST}
  {
    if systemCancel then SYSTEM_CANCEL_ITEM else CANCEL_ITEM
  }

  /** The cancel status an item receives from a cancel by this actor. */
  function CancelStatusOf(systemCancel: bool): (s: ItemStatusId)
    ensures IsItemCancelStatus(s)
    ensures ItemRule(ItemCancelTransaction(systemCancel)).value.activate == {s}
  {
    if systemCancel then E_CNCL_SYS else E_CNCL_CUST
  }

  /** An item that went through a cancel carries that actor's cancel status, active. */
  lemma ItemCancelled(before: Item, after: Item, systemCancel: bool)
    requires Transitioned(before, after, ItemCancelTransaction(systemCancel))
    ensures IsActiveIn(after.statuses, CancelStatusOf(systemCancel))
    ensures IsCancelled(after)
  {
    var rule := ItemRule(ItemCancelTransaction(systemCancel)).value;
    assert CancelStatusOf(systemCancel) in rule.activate;
  }

  /** The item loop of a cancel cancels every targeted item and keeps the others; every item keeps
      its id and its backorder record. */
  lemma CancelledTargets(items: seq<Item>, ids: seq<ItemId>, systemCancel: bool, now: Instant, updated: seq<Item>)
    requires UpdateItems(items, ids, ItemCancelTransaction(systemCancel), KeepBackorder, now) == Success(updated)
    ensures |updated| == |items|
    ensures forall k :: 0 <= k < |items| && items[k].id in ids ==>
              && Transitioned(items[k], updated[k], ItemCancelTransaction(systemCancel))
              && IsActiveIn(updated[k].statuses, CancelStatusOf(systemCancel))
              && IsCancelled(updated[k])
    ensures forall k :: 0 <= k < |items| && items[k].id !in ids ==> updated[k] == items[k]
    ensures forall k :: 0 <= k < |items| ==> updated[k].id == items[k].id && updated[k].backorder == items[k].backorder
  {
    var t := ItemCancelTransaction(systemCancel);
    forall k | 0 <= k < |items| && items[k].id in ids
      ensures Transitioned(items[k], updated[k], t)
      ensures IsActiveIn(updated[k].statuses, CancelStatusOf(systemCancel)) && IsCancelled(updated[k])
      ensures updated[k].backorder == items[k].backorder
    {
      var one := UpdateItem(items[k], t, KeepBackorder, now);
      assert BackorderAfter(items[k], one.value, KeepBackorder);
      ItemCancelled(items[k], one.value, systemCancel);
    }
  }

  /** An item loop of a cancel that targets every item, as the order cancel's does, cancels them
      all. */
  lemma CancelledEveryItem(items: seq<Item>, ids: seq<ItemId>, systemCancel: bool, now: Instant, updated: seq<Item>)
    requires forall k :: 0 <= k < |items| ==> items[k].id in ids
    requires UpdateItems(items, ids, ItemCancelTransaction(systemCancel), KeepBackorder, now) == Success(updated)
    ensures |updated| == |items|
    ensures AllCancelled(updated)
    ensures forall k :: 0 <= k < |items| ==>
              && Transitioned(items[k], updated[k], ItemCancelTransaction(systemCancel))
              && IsActiveIn(updated[k].statuses, CancelStatusOf(systemCancel))
              && updated[k].backorder == items[k].backorder
  {
    CancelledTargets(items, ids, systemCancel, now, updated);
  }

  // ----- creation -----

  /** A new order: the submitted aggregate with its header statuses seeded from the flags. */
  function CreateOrder(draft: Order, flags: OrderCreationFlags, now: Instant): (r: Order)
    ensures r == draft.(statuses := r.statuses)
    ensures |r.statuses| > 0 && r.statuses[0].id == I_CRTD
    ensures forall i :: 0 <= i < |r.statuses| ==> r.statuses[i].active && r.statuses[i].updatedAt == now
    ensures UniqueIds(r.statuses)
    ensures forall i, j :: 0 <= i < j < |r.statuses| ==> SeedRank(r.statuses[i].id) < SeedRank(r.statuses[j].id)
    ensures forall s :: HasId(r.statuses, s) <==> SeededFor(flags, s)
    ensures forall s :: IsActiveIn(r.statuses, s) <==> SeededFor(flags, s)
  {
    var statuses := OrderCreationStatuses(flags, now);
    assert forall s :: IsActiveIn(statuses, s) <==> HasId(statuses, s);
    draft.(statuses := statuses)
  }

  // ----- generic transactions -----

  /** A plain order transaction: refused if reserved, then guard-checked, then applied. */
  function PerformOrderTransaction(order: Order, t: SalesTransaction, now: Instant): (r: Result<Order, Error>)
    ensures IsReservedOrderTransaction(t) ==> r == Failure(InvalidArgument)
    ensures !IsReservedOrderTransaction(t) ==> (r.Success? <==> HeaderAllows(order.statuses, t))
    ensures !IsReservedOrderTransaction(t) && r.Failure? ==> r.error == CheckHeaderStatuses(order.statuses, t).error
    ensures r.Success? ==> r.value == order.(statuses := r.value.statuses)
    ensures r.Success? && OrderRule(t).Some? ==> Realises(order.statuses, OrderRule(t).value, r.value.statuses)
    ensures r.Success? && OrderRule(t).None? ==> r.value.statuses == order.statuses
  {
    if IsReservedOrderTransaction(t) then Failure(InvalidArgument)
    else
      var _ :- RequireHeader(order.statuses, t);
      var statuses := ApplyOrderStatusChange(order.statuses, t, now).value;
      Success(order.(statuses := statuses))
  }

  /** A plain item transaction on the requested items: refused if reserved, then the header
      guard, the fetch, and each item's guard and transition; reordering also drops the
      backorder record. */
  function PerformItemTransaction(order: Order, ids: seq<ItemId>, t: SalesTransaction, now: Instant)
    : (r: Result<Order, Error>)
    ensures IsReservedItemTransaction(t) ==> r == Failure(InvalidArgument)
    ensures !IsReservedItemTransaction(t) && !HeaderAllows(order.statuses, t) ==>
              r == Failure(CheckHeaderStatuses(order.statuses, t).error)
    ensures !IsReservedItemTransaction(t) && HeaderAllows(order.statuses, t) && CheckSelection(order.items, ids).Fail? ==>
              r == Failure(NotFound)
    ensures !IsReservedItemTransaction(t) && HeaderAllows(order.statuses, t) && CheckSelection(order.items, ids).Pass? ==>
              r.Success?
    ensures r.Success? <==>
              && !IsReservedItemTransaction(t)
              && HeaderAllows(order.statuses, t)
              && CheckSelection(order.items, ids).Pass?
              && forall k :: 0 <= k < |order.items| && order.items[k].id in ids ==> ItemAllows(order.items[k].statuses, t)
    ensures r.Success? ==> r.value == order.(items := r.value.items) && |r.value.items| == |order.items|
    ensures r.Success? ==> forall k :: 0 <= k < |order.items| && order.items[k].id !in ids ==>
              r.value.items[k] == order.items[k]
    ensures r.Success? ==> forall k :: 0 <= k < |order.items| && order.items[k].id in ids ==>
              && Transitioned(order.items[k], r.value.items[k], t)
              && BackorderAfter(order.items[k], r.value.items[k], if t == REORDER_ITEM then ClearBackorder else KeepBackorder)
  {
    if IsReservedItemTransaction(t) then Failure(InvalidArgument)
    else
      var _ :- RequireHeader(order.statuses, t);
      var _ :- RequireSelection(order.items, ids);
      var effect := if t == REORDER_ITEM then ClearBackorder else KeepBackorder;
      // The item guard inside the loop always passes here, so the loop cannot fail.
      PlainItemTransactionNeverBlocked(order.items, t);
      var items := UpdateItems(order.items, ids, t, effect, now).value;
      Success(order.(items := items))
  }

  // ----- detail updates -----

  /** Replace the shipping address, if the actor may change details. */
  function ChangeShippingAddress(order: Order, address: ShipmentAddress, systemChange: bool)
    : (r: Result<Order, Error>)
    ensures r.Success? <==> HeaderAllows(order.statuses, UpdatePermission(systemChange))
    ensures !HeaderAllows(order.statuses, UpdatePermission(systemChange)) ==> r == Failure(CheckHeaderStatuses(order.statuses, UpdatePermission(systemChange)).error)
    ensures r.Failure? ==> r.error.Conflict?
    ensures r.Success? ==> r.value == order.(address := address)
  {
    var _ :- RequireHeader(order.statuses, UpdatePermission(systemChange));
    Success(order.(address := address))
  }

  /** Replace the recurrence details of a recurrent order that is not in transit, if the actor
      may change details. */
  function ChangeRecurrentDetails(order: Order, details: RecurrentOrderDetails, systemChange: bool)
    : (r: Result<Order, Error>)
    ensures r.Success? <==> HeaderAllows(order.statuses, UpdatePermission(systemChange))
                            && order.recurrent && !order.inTransit
    ensures !HeaderAllows(order.statuses, UpdatePermission(systemChange)) ==> r == Failure(CheckHeaderStatuses(order.statuses, UpdatePermission(systemChange)).error)
    ensures HeaderAllows(order.statuses, UpdatePermission(systemChange)) && (!order.recurrent || order.inTransit) ==>
              r == Failure(InvalidArgument)
    ensures r.Success? ==> r.value == order.(recurrence := Some(details))
  {
    var _ :- RequireHeader(order.statuses, UpdatePermission(systemChange));
    if !order.recurrent then Failure(InvalidArgument)
    else if order.inTransit then Failure(InvalidArgument)
    else Success(order.(recurrence := Some(details)))
  }

  /** Change the delivery speed; checked as a customer detail change whoever asks. */
  function ChangeDeliverySpeed(order: Order, speed: DeliverySpeed): (r: Result<Order, Error>)
    ensures r.Success? <==> HeaderAllows(order.statuses, CHANGE_DETAILS)
    ensures !HeaderAllows(order.statuses, CHANGE_DETAILS) ==> r == Failure(CheckHeaderStatuses(order.statuses, CHANGE_DETAILS).error)
    ensures r.Success? ==> r.value == order.(deliverySpeed := speed)
  {
    var _ :- RequireHeader(order.statuses, CHANGE_DETAILS);
    Success(order.(deliverySpeed := speed))
  }

  /** Append new items after the existing ones, if the actor may change details. */
  function AddOrderItems(order: Order, newItems: seq<Item>, systemChange: bool): (r: Result<Order, Error>)
    ensures r.Success? <==> HeaderAllows(order.statuses, UpdatePermission(systemChange))
    ensures !HeaderAllows(order.statuses, UpdatePermission(systemChange)) ==> r == Failure(CheckHeaderStatuses(order.statuses, UpdatePermission(systemChange)).error)
    ensures r.Success? ==> r.value == order.(items := r.value.items)
    ensures r.Success? ==> |r.value.items| == |order.items| + |newItems|
                           && r.value.items[..|order.items|] == order.items
                           && r.value.items[|order.items|..] == newItems
  {
    var _ :- RequireHeader(order.statuses, UpdatePermission(systemChange));
    Success(order.(items := order.items + newItems))
  }

  // ----- backorder -----

  /** Backorder the requested items: header and item guards for backorder, then each item gets
      the backorder status and a fresh backorder record for `quantity`. */
  function BackOrderItem(order: Order, ids: seq<ItemId>, quantity: int, now: Instant): (r: Result<Order, Error>)
    ensures r.Success? <==>
              && HeaderAllows(order.statuses, BACKORDER_ITEM)
              && CheckSelection(order.items, ids).Pass?
              && forall k :: 0 <= k < |order.items| && order.items[k].id in ids ==>
                   ItemAllows(order.items[k].statuses, BACKORDER_ITEM)
    ensures !HeaderAllows(order.statuses, BACKORDER_ITEM) ==> r == Failure(CheckHeaderStatuses(order.statuses, BACKORDER_ITEM).error)
    ensures HeaderAllows(order.statuses, BACKORDER_ITEM) && CheckSelection(order.items, ids).Fail? ==>
              r == Failure(NotFound)
    ensures HeaderAllows(order.statuses, BACKORDER_ITEM) && CheckSelection(order.items, ids).Pass? && r.Failure? ==>
              exists k :: IsFirstBlockedItem(order.items, ids, BACKORDER_ITEM, k)
                          && r.error == CheckItemStatuses(order.items[k].statuses, BACKORDER_ITEM).error
    ensures r.Success? ==> r.value == order.(items := r.value.items) && |r.value.items| == |order.items|
    ensures r.Success? ==> forall k :: 0 <= k < |order.items| && order.items[k].id !in ids ==>
              r.value.items[k] == order.items[k]
    ensures r.Success? ==> forall k :: 0 <= k < |order.items| && order.items[k].id in ids ==>
              && Transitioned(order.items[k], r.value.items[k], BACKORDER_ITEM)
              && r.value.items[k].backorder == Some(BackOrderedItem(quantity))
  {
    var _ :- RequireHeader(order.statuses, BACKORDER_ITEM);
    var _ :- RequireSelection(order.items, ids);
    var items :- UpdateItems(order.items, ids, BACKORDER_ITEM, AttachBackorder(quantity), now);
    Success(order.(items := items))
  }

  // ----- cancellation -----

  /** Cancel the whole order: the header guard for order cancel, then every item is cancelled
      with the actor's item cancel, then the order itself is cancelled. */
  function CancelOrder(order: Order, systemCancel: bool, now: Instant): (r: Result<Order, Error>)
    ensures r.Success? <==>
              && HeaderAllows(order.statuses, CANCEL_ORDER)
              && forall k :: 0 <= k < |order.items| ==> ItemAllows(order.items[k].statuses, ItemCancelTransaction(systemCancel))
    ensures !HeaderAllows(order.statuses, CANCEL_ORDER) ==> r == Failure(CheckHeaderStatuses(order.statuses, CANCEL_ORDER).error)
    ensures HeaderAllows(order.statuses, CANCEL_ORDER) && r.Failure? ==> r.error.Conflict? && r.error.blockedBy.ItemStatus?
    ensures HeaderAllows(order.statuses, CANCEL_ORDER) && r.Failure? ==>
              exists k :: IsFirstBlockedItem(order.items, IdsOf(order.items), ItemCancelTransaction(systemCancel), k)
                          && r.error == CheckItemStatuses(order.items[k].statuses, ItemCancelTransaction(systemCancel)).error
    ensures r.Success? ==>
              && IsActiveIn(r.value.statuses, E_CNCL)
              && forall s :: s != E_CNCL ==> (IsActiveIn(r.value.statuses, s) <==> IsActiveIn(order.statuses, s))
    ensures r.Success? ==>
              && |r.value.items| == |order.items|
              && AllCancelled(r.value.items)
              && forall k :: 0 <= k < |order.items| ==>
                   && Transitioned(order.items[k], r.value.items[k], ItemCancelTransaction(systemCancel))
                   && IsActiveIn(r.value.items[k].statuses, CancelStatusOf(systemCancel))
                   && r.value.items[k].backorder == order.items[k].backorder
    ensures r.Success? ==> r.value == order.(statuses := r.value.statuses, items := r.value.items)
    ensures r.Success? ==>
              r.value == order.(statuses := ApplyOrderStatusChange(order.statuses, CANCEL_ORDER, now).value,
                                items := UpdateItems(order.items, IdsOf(order.items), ItemCancelTransaction(systemCancel),
                                                     KeepBackorder, now).value)
  {
    var _ :- RequireHeader(order.statuses, CANCEL_ORDER);
    var t := ItemCancelTransaction(systemCancel);
    var items :- UpdateItems(order.items, IdsOf(order.items), t, KeepBackorder, now);
    CancelledEveryItem(order.items, IdsOf(order.items), systemCancel, now, items);
    var statuses := ApplyOrderStatusChange(order.statuses, CANCEL_ORDER, now).value;
    CancelOrderMarks(order.statuses, now);
    Success(order.(statuses := statuses, items := items))
  }

  /** Cancel the requested items. The header guard is the one for item cancel whoever asks.
      Afterwards, if no item of the order is left uncancelled, the order is cancelled too,
      without a header guard check. */
  function CancelOrderItems(order: Order, ids: seq<ItemId>, systemCancel: bool, now: Instant)
    : (r: Result<Order, Error>)
    ensures r.Success? <==>
              && HeaderAllows(order.statuses, CANCEL_ITEM)
              && CheckSelection(order.items, ids).Pass?
              && forall k :: 0 <= k < |order.items| && order.items[k].id in ids ==>
                   ItemAllows(order.items[k].statuses, ItemCancelTransaction(systemCancel))
    ensures !HeaderAllows(order.statuses, CANCEL_ITEM) ==> r == Failure(CheckHeaderStatuses(order.statuses, CANCEL_ITEM).error)
    ensures HeaderAllows(order.statuses, CANCEL_ITEM) && CheckSelection(order.items, ids).Fail? ==>
              r == Failure(NotFound)
    ensures HeaderAllows(order.statuses, CANCEL_ITEM) && CheckSelection(order.items, ids).Pass? && r.Failure? ==>
              exists k :: IsFirstBlockedItem(order.items, ids, ItemCancelTransaction(systemCancel), k)
                          && r.error == CheckItemStatuses(order.items[k].statuses, ItemCancelTransaction(systemCancel)).error
    ensures r.Success? ==> r.value == order.(statuses := r.value.statuses, items := r.value.items)
    ensures r.Success? ==>
              r.value.items == UpdateItems(order.items, ids, ItemCancelTransaction(systemCancel), KeepBackorder, now).value
    ensures r.Success? && AllCancelled(r.value.items) ==>
              r.value.statuses == ApplyOrderStatusChange(order.statuses, CANCEL_ORDER, now).value
    ensures r.Success? && !AllCancelled(r.value.items) ==> r.value.statuses == order.statuses
  {
    var _ :- RequireHeader(order.statuses, CANCEL_ITEM);
    var _ :- RequireSelection(order.items, ids);
    var items :- UpdateItems(order.items, ids, ItemCancelTransaction(systemCancel), KeepBackorder, now);
    var statuses := if AllCancelled(items) then ApplyOrderStatusChange(order.statuses, CANCEL_ORDER, now).value
                    else order.statuses;
    Success(order.(statuses := statuses, items := items))
  }

  // ----- restarts -----

  /** The order statuses after a restart transaction and, if asked, the invoice cancellation,
      the second step guard-checked against the list the first step produced. */
  function RestartSteps(statuses: seq<OrderRecord>, restart: SalesTransaction, regenerateInvoice: bool, now: Instant)
    : (r: Result<seq<OrderRecord>, Error>)
    requires restart == RESTART_ORDER || restart == RESTART_DISPUTED_ORDER
    ensures r.Success? <==>
              && HeaderAllows(statuses, restart)
              && (regenerateInvoice ==>
                    HeaderAllows(ApplyOrderStatusChange(statuses, restart, now).value, CANCEL_INVOICE))
    ensures !HeaderAllows(statuses, restart) ==> r == Failure(CheckHeaderStatuses(statuses, restart).error)
    ensures HeaderAllows(statuses, restart) && regenerateInvoice ==>
              var restarted := ApplyOrderStatusChange(statuses, restart, now).value;
              !HeaderAllows(restarted, CANCEL_INVOICE) ==> r == Failure(CheckHeaderStatuses(restarted, CANCEL_INVOICE).error)
    ensures r.Success? ==>
              var restarted := ApplyOrderStatusChange(statuses, restart, now).value;
              r.value == if regenerateInvoice then ApplyOrderStatusChange(restarted, CANCEL_INVOICE, now).value
                         else restarted
    ensures r.Success? ==>
              && IsActiveIn(r.value, I_CRTD)
              && !IsActiveIn(r.value, RestartSource(restart))
              && (regenerateInvoice ==> !IsActiveIn(r.value, I_INV))
              && forall s :: s != I_CRTD && s != RestartSource(restart) && (regenerateInvoice ==> s != I_INV) ==>
                   (IsActiveIn(r.value, s) <==> IsActiveIn(statuses, s))
  {
    var _ :- RequireHeader(statuses, restart);
    var restarted := ApplyOrderStatusChange(statuses, restart, now).value;
    RestartMoves(statuses, restart, now);
    if regenerateInvoice then
      var _ :- RequireHeader(restarted, CANCEL_INVOICE);
      InvoiceCancelKeeps(restarted, now);
      Success(ApplyOrderStatusChange(restarted, CANCEL_INVOICE, now).value)
    else Success(restarted)
  }

  /** Restart a recurrent order's lifecycle, optionally cancelling the previous invoice. */
  function RestartOrder(order: Order, regenerateInvoice: bool, now: Instant): (r: Result<Order, Error>)
    ensures !order.recurrent ==> r == Failure(InvalidArgument)
    ensures order.recurrent ==>
              (r.Success? <==> RestartSteps(order.statuses, RESTART_ORDER, regenerateInvoice, now).Success?)
    ensures order.recurrent && r.Failure? ==> r.error == RestartSteps(order.statuses, RESTART_ORDER, regenerateInvoice, now).error
    ensures r.Success? ==> r.value == order.(statuses := RestartSteps(order.statuses, RESTART_ORDER, regenerateInvoice, now).value)
  {
    if !order.recurrent then Failure(InvalidArgument)
    else
      var statuses :- RestartSteps(order.statuses, RESTART_ORDER, regenerateInvoice, now);
      Success(order.(statuses := statuses))
  }

  /** Restart an order after a dispute, optionally cancelling the previous invoice. */
  function RestartDisputedOrder(order: Order, regenerateInvoice: bool, now: Instant): (r: Result<Order, Error>)
    ensures r.Success? <==> RestartSteps(order.statuses, RESTART_DISPUTED_ORDER, regenerateInvoice, now).Success?
    ensures r.Failure? ==> r.error == RestartSteps(order.statuses, RESTART_DISPUTED_ORDER, regenerateInvoice, now).error
    ensures r.Success? ==>
              r.value == order.(statuses := RestartSteps(order.statuses, RESTART_DISPUTED_ORDER, regenerateInvoice, now).value)
  {
    var statuses :- RestartSteps(order.statuses, RESTART_DISPUTED_ORDER, regenerateInvoice, now);
    Success(order.(statuses := statuses))
  }
}
