/** What the business operations achieve, stated in terms of the statuses a reader of the order
    sees: cascades, the auto-cancel, backorder and reorder, the restart sequences, the actor gate. */
module ServiceProperties {
  import opened Wrappers
  import opened StatusIds
  import opened Transactions
  import opened StatusRules
  import opened StatusEngine
  import opened StatusChangeTable
  import opened GuardTable
  import opened Errors
  import opened StatusManagement
  import opened Aggregate
  import opened ItemSelection
  import opened ItemUpdates
  import opened SalesOrderService

  // ----- whole-order cancel -----

  /** An order with an item already cancelled cannot be cancelled as a whole: the item guard of
      that item fails and the whole operation with it. */
  lemma CancelOrderRejectsCancelledItem(order: Order, systemCancel: bool, now: Instant, k: int)
    requires 0 <= k < |order.items| && IsCancelled(order.items[k])
    ensures CancelOrder(order, systemCancel, now).Failure?
    ensures CancelOrder(order, systemCancel, now).error.Conflict?
  {
    CancelledItemIsFinal(order.items[k].statuses, ItemCancelTransaction(systemCancel));
  }

  /** An order already cancelled or completed cannot be cancelled again. */
  lemma CancelOrderRejectsClosedOrder(order: Order, systemCancel: bool, now: Instant)
    requires IsActiveIn(order.statuses, E_CNCL) || IsActiveIn(order.statuses, I_CMPL)
    ensures CancelOrder(order, systemCancel, now) == Failure(CheckHeaderStatuses(order.statuses, CANCEL_ORDER).error)
    ensures CancelOrder(order, systemCancel, now).error.Conflict?
  {
    CancelledOrCompletedCannotBeCancelled(order.statuses);
  }

  // ----- item cancel and the auto-cancel -----

  /** A successful item cancel cancels exactly the requested items. When every other item was
      already cancelled, the order ends up cancelled; while some item stays uncancelled, the order
      statuses are untouched. */
  lemma CancelOrderItemsCascade(order: Order, ids: seq<ItemId>, systemCancel: bool, now: Instant)
    ensures var r := CancelOrderItems(order, ids, systemCancel, now);
      r.Success? ==>
        && |r.value.items| == |order.items|
        && (forall k :: 0 <= k < |order.items| && order.items[k].id in ids ==>
              IsActiveIn(r.value.items[k].statuses, CancelStatusOf(systemCancel)))
        && (forall k :: 0 <= k < |order.items| && order.items[k].id !in ids ==> r.value.items[k] == order.items[k])
        && (AllCancelled(r.value.items) ==> IsActiveIn(r.value.statuses, E_CNCL))
        && (!AllCancelled(r.value.items) ==> r.value.statuses == order.statuses)
        && ((forall k :: 0 <= k < |order.items| && order.items[k].id !in ids ==> IsCancelled(order.items[k])) ==>
              IsActiveIn(r.value.statuses, E_CNCL))
  {
    var r := CancelOrderItems(order, ids, systemCancel, now);
    if r.Success? {
      CancelledTargets(order.items, ids, systemCancel, now, r.value.items);
      if AllCancelled(r.value.items) {
        CancelOrderMarks(order.statuses, now);
      }
    }
  }

  /** An invoiced order with a single item that has no status yet. */
  function InvoicedOrder(now: Instant): Order {
    Order(1, false, false, DeliverySpeed("NORMAL"), ShipmentAddress([]), None,
          [StatusRecord(I_CRTD, true, now), StatusRecord(I_INV, true, now)],
          [Item(1, [], None)])
  }

  /** The auto-cancel skips the order-level guard for order cancel. An invoiced order refuses an
      order cancel, yet cancelling its only item cancels the order. */
  lemma AutoCancelSkipsHeaderGuard(now: Instant)
    ensures CancelOrder(InvoicedOrder(now), false, now) == Failure(Conflict(HeaderStatus(I_INV)))
    ensures CancelOrderItems(InvoicedOrder(now), [1], false, now).Success?
    ensures IsActiveIn(CancelOrderItems(InvoicedOrder(now), [1], false, now).value.statuses, E_CNCL)
  {
    InvoicedOrderRefusesCancel(now);
    InvoicedOrderCancelsThroughItems(now);
  }

  /** The invoice blocks an order cancel, and the conflict names it. */
  lemma InvoicedOrderRefusesCancel(now: Instant)
    ensures CancelOrder(InvoicedOrder(now), false, now) == Failure(Conflict(HeaderStatus(I_INV)))
  {
    var order := InvoicedOrder(now);
    assert !HeaderForbids(I_CRTD, CANCEL_ORDER) && HeaderForbids(I_INV, CANCEL_ORDER);
    assert order.statuses[1].active && HeaderForbids(order.statuses[1].id, CANCEL_ORDER);
    assert !HeaderAllows(order.statuses, CANCEL_ORDER);
    assert CheckHeaderStatuses(order.statuses, CANCEL_ORDER) == Fail(Conflict(HeaderStatus(I_INV)));
  }

  /** Cancelling the only item of the invoiced order goes through and cancels the order. */
  lemma InvoicedOrderCancelsThroughItems(now: Instant)
    ensures CancelOrderItems(InvoicedOrder(now), [1], false, now).Success?
    ensures IsActiveIn(CancelOrderItems(InvoicedOrder(now), [1], false, now).value.statuses, E_CNCL)
  {
    var order := InvoicedOrder(now);
    InvoicedOrderPassesItemCancelGuards(now);
    CancelOrderItemsCascade(order, [1], false, now);
  }

  /** The invoiced order passes every guard of an item cancel of its only item, and that item is
      the whole order. */
  lemma InvoicedOrderPassesItemCancelGuards(now: Instant)
    ensures HeaderAllows(InvoicedOrder(now).statuses, CANCEL_ITEM)
    ensures CheckSelection(InvoicedOrder(now).items, [1]).Pass?
    ensures ItemAllows(InvoicedOrder(now).items[0].statuses, CANCEL_ITEM)
    ensures forall k :: 0 <= k < |InvoicedOrder(now).items| ==> InvoicedOrder(now).items[k].id in [1]
  {
    var order := InvoicedOrder(now);
    assert HeaderAllows(order.statuses, CANCEL_ITEM);
    assert Distinct([1]);
    assert IdsOf(order.items) == [1];
  }

  /** The order-level guard of an item cancel is the customer's whoever asks: an administrative
      hold, which allows a system item cancel, still stops a system cancel of items here. */
  lemma ItemCancelHeaderGuardIgnoresActor(order: Order, ids: seq<ItemId>, now: Instant)
    requires forall i :: 0 <= i < |order.statuses| && order.statuses[i].active ==> order.statuses[i].id == E_ADMIN_HOLD
    requires IsActiveIn(order.statuses, E_ADMIN_HOLD)
    ensures !HeaderForbids(E_ADMIN_HOLD, SYSTEM_CANCEL_ITEM)
    ensures CancelOrderItems(order, ids, true, now) == Failure(Conflict(HeaderStatus(E_ADMIN_HOLD)))
  {
    AdminHoldAloneIsReported(order.statuses, CANCEL_ITEM);
  }

  // ----- backorder and reorder -----

  /** A backorder that goes through leaves every targeted item with the backorder status active. */
  lemma BackorderMarksItems(order: Order, ids: seq<ItemId>, quantity: int, now: Instant)
    ensures var r := BackOrderItem(order, ids, quantity, now);
      r.Success? ==> forall k :: 0 <= k < |order.items| && order.items[k].id in ids ==>
                       IsActiveIn(r.value.items[k].statuses, E_BKO)
  {
    var r := BackOrderItem(order, ids, quantity, now);
    if r.Success? {
      ItemRules();
      forall k | 0 <= k < |order.items| && order.items[k].id in ids
        ensures IsActiveIn(r.value.items[k].statuses, E_BKO)
      {
        TransitionedActivates(order.items[k], r.value.items[k], BACKORDER_ITEM, E_BKO);
      }
    }
  }

  /** Backordering and then reordering the same items leaves each of them with the backorder
      status inactive and no backorder record. */
  lemma BackorderThenReorder(order: Order, ids: seq<ItemId>, quantity: int, now: Instant, later: Instant)
    ensures var b := BackOrderItem(order, ids, quantity, now);
      b.Success? ==>
        var r := PerformItemTransaction(b.value, ids, REORDER_ITEM, later);
        r.Success? ==>
          forall k :: 0 <= k < |order.items| && order.items[k].id in ids ==>
            && r.value.items[k].backorder.None?
            && HasId(r.value.items[k].statuses, E_BKO)
            && !IsActiveIn(r.value.items[k].statuses, E_BKO)
  {
    var b := BackOrderItem(order, ids, quantity, now);
    if b.Success? {
      var r := PerformItemTransaction(b.value, ids, REORDER_ITEM, later);
      if r.Success? {
        BackorderMarksItems(order, ids, quantity, now);
        forall k | 0 <= k < |order.items| && order.items[k].id in ids
          ensures r.value.items[k].backorder.None?
          ensures HasId(r.value.items[k].statuses, E_BKO)
          ensures !IsActiveIn(r.value.items[k].statuses, E_BKO)
        {
          assert b.value.items[k].id == order.items[k].id;
          ReorderSwitchesOff(b.value.items[k], r.value.items[k]);
        }
      }
    }
  }

  /** Reordering a backordered item keeps its backorder record of status but switches it off. */
  lemma ReorderSwitchesOff(before: Item, after: Item)
    requires Transitioned(before, after, REORDER_ITEM) && IsActiveIn(before.statuses, E_BKO)
    ensures HasId(after.statuses, E_BKO) && !IsActiveIn(after.statuses, E_BKO)
  {
    ItemRules();
    var reorder := ItemRule(REORDER_ITEM).value;
    var j :| 0 <= j < |before.statuses| && before.statuses[j].id == E_BKO && before.statuses[j].active;
    assert Realises(before.statuses, reorder, after.statuses);
    assert after.statuses[j].id == E_BKO;
  }

  /** Backordering an item that is already cancelled fails; once the header guard and the fetch
      pass, the failure is a conflict naming an item cancel status. */
  lemma BackorderRejectsCancelledItem(order: Order, ids: seq<ItemId>, quantity: int, now: Instant, k: int)
    requires 0 <= k < |order.items| && order.items[k].id in ids && IsCancelled(order.items[k])
    ensures BackOrderItem(order, ids, quantity, now).Failure?
    ensures HeaderAllows(order.statuses, BACKORDER_ITEM) && CheckSelection(order.items, ids).Pass? ==>
              var e := BackOrderItem(order, ids, quantity, now).error;
              e.Conflict? && e.blockedBy.ItemStatus? && IsItemCancelStatus(e.blockedBy.item)
  {
    CancelledItemIsFinal(order.items[k].statuses, BACKORDER_ITEM);
  }

  // ----- restarts -----

  /** A successful restart of a recurrent order puts the order back to created, takes it out of
      waiting, and, when the invoice is regenerated, leaves no invoice active. */
  lemma RestartReopensLifecycle(order: Order, regenerateInvoice: bool, now: Instant)
    ensures var r := RestartOrder(order, regenerateInvoice, now);
      r.Success? ==>
        && order.recurrent
        && IsActiveIn(r.value.statuses, I_CRTD)
        && !IsActiveIn(r.value.statuses, I_WAIT)
        && (regenerateInvoice ==> !IsActiveIn(r.value.statuses, I_INV))
  {
    var r := RestartOrder(order, regenerateInvoice, now);
    if r.Success? {
      assert RestartSource(RESTART_ORDER) == I_WAIT;
    }
  }

  /** A successful restart after a dispute puts the order back to created and closes the
      dispute, and, when the invoice is regenerated, leaves no invoice active. */
  lemma RestartDisputedReopensLifecycle(order: Order, regenerateInvoice: bool, now: Instant)
    ensures var r := RestartDisputedOrder(order, regenerateInvoice, now);
      r.Success? ==>
        && IsActiveIn(r.value.statuses, I_CRTD)
        && !IsActiveIn(r.value.statuses, E_DISP)
        && (regenerateInvoice ==> !IsActiveIn(r.value.statuses, I_INV))
  {
    var r := RestartDisputedOrder(order, regenerateInvoice, now);
    if r.Success? {
      assert RestartSource(RESTART_DISPUTED_ORDER) == E_DISP;
    }
  }

  // ----- the actor gate -----

  /** Under an administrative hold alone the system actor may still change the shipping address
      while the customer is refused with a conflict naming the hold. */
  lemma AdminHoldGatesCustomerOnly(order: Order, address: ShipmentAddress)
    requires forall i :: 0 <= i < |order.statuses| && order.statuses[i].active ==> order.statuses[i].id == E_ADMIN_HOLD
    requires IsActiveIn(order.statuses, E_ADMIN_HOLD)
    ensures ChangeShippingAddress(order, address, true) == Success(order.(address := address))
    ensures ChangeShippingAddress(order, address, false) == Failure(Conflict(HeaderStatus(E_ADMIN_HOLD)))
  {
    AdminHoldAloneIsReported(order.statuses, CHANGE_DETAILS);
    assert HeaderAllows(order.statuses, SYSTEM_CHANGE_DETAILS);
  }

  /** The detail updates never touch the status history of the order or of its items. */
  lemma DetailUpdatesKeepStatuses(order: Order, address: ShipmentAddress, details: RecurrentOrderDetails,
                                  speed: DeliverySpeed, newItems: seq<Item>, systemChange: bool)
    ensures var r := ChangeShippingAddress(order, address, systemChange);
      r.Success? ==> r.value.statuses == order.statuses && r.value.items == order.items
    ensures var r := ChangeRecurrentDetails(order, details, systemChange);
      r.Success? ==> r.value.statuses == order.statuses && r.value.items == order.items
    ensures var r := ChangeDeliverySpeed(order, speed);
      r.Success? ==> r.value.statuses == order.statuses && r.value.items == order.items
    ensures var r := AddOrderItems(order, newItems, systemChange);
      r.Success? ==> r.value.statuses == order.statuses && r.value.items == order.items + newItems
  {
  }
}
