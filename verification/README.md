# Sales-order status engine

A Dafny model of the status core of a sales-order service.

Orders and their line items carry a history of status records. Each record holds a status id, an active flag and a last-update time. Business transactions change those records in two ways:

- **Rule table.** A fixed table maps each transaction to an *(activate, deactivate)* pair of status sets.
- **Guard tables.** Two fixed tables give the transactions that an active status forbids.

The transition engine applies a rule in two phases:

1. Switch off every active record whose status is deactivated.
2. Switch on each activated status. An already-active status is left alone, an inactive record is reactivated in place, and a missing status gets a new record appended.

On top of the engine sit the business operations:

- generic order and item transactions;
- detail updates gated by the actor (system or customer);
- backorder and reorder;
- whole-order cancel, which cascades to the items;
- item cancel, which cancels the order automatically once no item is left uncancelled;
- the two restarts, with an optional invoice cancellation.

The response projection turns a record list into a map from active status to timestamp.

How the project is laid out:

- Every operation is a pure function from the loaded aggregate to `Result<Order, Error>`. It either fails with `NotFound`, `InvalidArgument` or `Conflict(blocking status)` and changes nothing, or it returns the whole new aggregate. This is how the service's transactional all-or-nothing behaviour is modelled.
- The engine (`StatusEngine`) is generic over the status enumeration. The order and item entry points instantiate it.
- The engine's contract (`Realises`) is proved equal to an independent position-by-position description of the result (`Pointwise`, `ExpectedAt`, `Appended`).
- Modules, in dependency order:
  - `Wrappers`
  - `StatusIds`
  - `Transactions`
  - `StatusRules`
  - `StatusEngine`
  - `StatusChangeTable`
  - `GuardTable`
  - `Errors`
  - `StatusManagement`
  - `Aggregate`
  - `ItemSelection`
  - `ItemUpdates`
  - `SalesOrderService`
  - `ServiceProperties`
  - `ResponseMapper`

## Model

| member | source | states |
|---|---|---|
| StatusRules.Activating | src/main/java/com/mattercom/salesOrders/records/StatusRule.java:12-14 | the rule activates exactly the listed statuses and deactivates none; it is empty exactly when the list is |
| StatusRules.Deactivating | src/main/java/com/mattercom/salesOrders/records/StatusRule.java:17-19 | the rule deactivates exactly the listed statuses and activates none |
| StatusRules.Move | src/main/java/com/mattercom/salesOrders/records/StatusRule.java:21-23 | a move is exactly ({a}, {d}); it is never empty, and its sets are disjoint iff a != d |
| Transactions.ObjectTypeOf | src/main/java/com/mattercom/salesOrders/enums/SalesTransactions.java:40-45 | a transaction is ITEM-typed iff it is one of the six item transactions; all others are ORDER-typed |
| Transactions.OrderTypedGroups | src/main/java/com/mattercom/salesOrders/enums/SalesTransactions.java:30-50 | the detail-change, billing and dispute transactions are all ORDER-typed |
| StatusChangeTable.OrderRule | src/main/java/com/mattercom/salesOrders/util/StatusChangeConstants.java:10-70 | every order rule belongs to an ORDER-typed transaction, has disjoint and non-empty sets, and never activates I_LOCK |
| StatusChangeTable.ItemRule | src/main/java/com/mattercom/salesOrders/util/StatusChangeConstants.java:73-89 | every item rule belongs to an ITEM-typed transaction and has disjoint, non-empty sets |
| StatusChangeTable.LifecycleMoves | src/main/java/com/mattercom/salesOrders/util/StatusChangeConstants.java:16-39 | release I_CRTD→I_REL, transit I_REL→E_TRNS, transit end E_TRNS→I_WAIT, restart I_WAIT→I_CRTD, complete I_WAIT→I_CMPL |
| StatusChangeTable.CancelAndCreditBlockRules | src/main/java/com/mattercom/salesOrders/util/StatusChangeConstants.java:31-46 | cancel activates only E_CNCL; the credit block activates {E_CRED_BLK, I_DLKD, I_BLKD} and its removal deactivates exactly that set |
| StatusChangeTable.InvoiceRules | src/main/java/com/mattercom/salesOrders/util/StatusChangeConstants.java:53-58 | generating an invoice activates I_INV; cancelling it deactivates I_INV |
| StatusChangeTable.DisputeRules | src/main/java/com/mattercom/salesOrders/util/StatusChangeConstants.java:59-69 | raising a dispute activates E_DISP and resolving deactivates it; the disputed restart moves E_DISP→I_CRTD |
| StatusChangeTable.ItemRules | src/main/java/com/mattercom/salesOrders/util/StatusChangeConstants.java:73-89 | the two cancels, the deletion flag, backorder (activates E_BKO) and reorder (deactivates E_BKO) |
| StatusChangeTable.UnruledTransactions | src/main/java/com/mattercom/salesOrders/util/StatusChangeConstants.java:91-97 | lock, unlock, fraud hold, the detail changes, the delivery and billing blocks and CREATE_ITEM have no rule; neither table holds a transaction of the other kind |
| GuardTable.HeaderForbidRule | src/main/java/com/mattercom/salesOrders/util/StatusRuleConstants.java:21-145 | the header guard table; exactly I_CRTD and I_DLFL have no entry |
| GuardTable.ItemForbidRule | src/main/java/com/mattercom/salesOrders/util/StatusRuleConstants.java:147-158 | only the two item cancel statuses have an entry, and each forbids exactly CANCEL_ITEM, SYSTEM_CANCEL_ITEM and BACKORDER_ITEM |
| GuardTable.FirstBlocking | src/main/java/com/mattercom/salesOrders/util/StatusRuleConstants.java:167-175 | returns none iff no active record blocks; otherwise returns the status of the first blocking active record in list order |
| GuardTable.CheckHeaderStatuses | src/main/java/com/mattercom/salesOrders/util/StatusRuleConstants.java:160-185 | passes iff no active header record forbids the transaction (so an empty list always passes); otherwise fails with a conflict naming the first blocking status |
| GuardTable.CheckItemStatuses | src/main/java/com/mattercom/salesOrders/util/StatusRuleConstants.java:187-211 | the same for item records and the item table |
| GuardTable.InactiveRecordsNeverBlock | src/main/java/com/mattercom/salesOrders/util/StatusRuleConstants.java:167-175 | removing the inactive records does not change the verdict or the reported status |
| GuardTable.CancelledOrCompletedCannotBeCancelled | src/main/java/com/mattercom/salesOrders/util/StatusRuleConstants.java:87-118 | an order with active E_CNCL or I_CMPL fails CANCEL_ORDER with a conflict |
| GuardTable.CancelledItemIsFinal | src/main/java/com/mattercom/salesOrders/util/StatusRuleConstants.java:147-158 | an item with an active cancel status fails either cancel and the backorder with a conflict |
| GuardTable.AdminHoldForbids | src/main/java/com/mattercom/salesOrders/util/StatusRuleConstants.java:41-50 | E_ADMIN_HOLD forbids exactly release, invoice, order cancel, customer item cancel, transit, customer detail change and both restarts; it forbids neither system transaction |
| GuardTable.AdminHoldAloneIsReported | src/main/java/com/mattercom/salesOrders/util/StatusRuleConstants.java:167-184 | when the hold is the only active header status, every transaction it forbids fails with a conflict naming E_ADMIN_HOLD |
| StatusEngine.FindFirst | src/main/java/com/mattercom/salesOrders/util/StatusManagementUtil.java:63-65 | returns none iff no record carries the id; otherwise the index of the first record carrying it |
| StatusEngine.Deactivate | src/main/java/com/mattercom/salesOrders/util/StatusManagementUtil.java:47-59 | each record is active afterwards iff it was active and its status is not switched off; ids and positions are kept; a status without an active record is skipped, not an error |
| StatusEngine.ActivateOne | src/main/java/com/mattercom/salesOrders/util/StatusManagementUtil.java:62-84 | ids and positions are kept; a present status keeps the length; a missing status is appended once, active, at the end |
| StatusEngine.ApplyRule | src/main/java/com/mattercom/salesOrders/util/StatusManagementUtil.java:44-86 | the rule contract: existing records keep ids and positions; a status only deactivated is inactive everywhere; every activated status is active on its first record; unnamed records are untouched; a record is appended only for an activated status that had none; one record per status is preserved |
| StatusEngine.UntouchedKeepsState | src/main/java/com/mattercom/salesOrders/util/StatusManagementUtil.java:44-86 | under the rule contract, a status the rule does not name is active afterwards exactly when it was before |
| StatusEngine.MoveEffect | src/main/java/com/mattercom/salesOrders/util/StatusManagementUtil.java:44-86 | under the rule contract, a move leaves its target active and its source with no active record |
| StatusEngine.DeactivateKeepsOthers | src/main/java/com/mattercom/salesOrders/util/StatusManagementUtil.java:47-59 | the deactivate phase leaves no active record of a switched-off status and keeps every other status active exactly when it was |
| StatusEngine.ApplyRuleMatchesReference | src/main/java/com/mattercom/salesOrders/util/StatusManagementUtil.java:47-84 | the sequential two-phase loop equals the independent description: each old position as `ExpectedAt`, followed by one new record per missing activated status in listing order |
| StatusEngine.ActivateAllShape | src/main/java/com/mattercom/salesOrders/util/StatusManagementUtil.java:62-84 | the activate phase reactivates first records in place and appends exactly the missing statuses |
| StatusEngine.PointwiseRealises | src/main/java/com/mattercom/salesOrders/util/StatusManagementUtil.java:44-86 | the independent description satisfies every clause of the rule contract |
| StatusEngine.ApplyRuleIdempotent | src/main/java/com/mattercom/salesOrders/util/StatusManagementUtil.java:47-84 | for a rule with disjoint sets, applying it a second time (at any time) returns the list the first application produced |
| StatusEngine.ApplyRuleOrderIndependent | src/main/java/com/mattercom/salesOrders/util/StatusManagementUtil.java:62-84 | two iteration orders of the activate set agree on every existing record; the appended records differ only by a permutation |
| StatusManagement.OrderActivationOrder | src/main/java/com/mattercom/salesOrders/util/StatusManagementUtil.java:62 | the activate set is visited once per member, in enum declaration order |
| StatusManagement.ItemActivationOrder | src/main/java/com/mattercom/salesOrders/util/StatusManagementUtil.java:126 | the same for item rules |
| StatusManagement.ApplyOrderStatusChange | src/main/java/com/mattercom/salesOrders/util/StatusManagementUtil.java:27-87 | fails with InvalidArgument iff the transaction is not ORDER-typed; no rule leaves the list unchanged; otherwise the rule contract holds |
| StatusManagement.ApplyItemStatusChange | src/main/java/com/mattercom/salesOrders/util/StatusManagementUtil.java:92-151 | the same for items and ITEM-typed transactions |
| StatusManagement.OrderStatusChangeIdempotent | src/main/java/com/mattercom/salesOrders/util/StatusManagementUtil.java:27-87 | applying an order transaction twice gives the same list as applying it once |
| StatusManagement.ItemStatusChangeIdempotent | src/main/java/com/mattercom/salesOrders/util/StatusManagementUtil.java:92-151 | the same for item transactions |
| StatusManagement.OrderChangeActivates | src/main/java/com/mattercom/salesOrders/util/StatusManagementUtil.java:62-84 | after an order transaction, every status its rule activates has an active record |
| StatusManagement.OrderChangeOnlyDeactivates | src/main/java/com/mattercom/salesOrders/util/StatusManagementUtil.java:47-59 | an order transaction whose rule activates nothing gives exactly the deactivate phase on the rule's deactivate set |
| StatusManagement.CancelOrderMarks | src/main/java/com/mattercom/salesOrders/util/StatusChangeConstants.java:31-33 | CANCEL_ORDER leaves E_CNCL active and every other status active exactly when it was before |
| StatusManagement.InvoiceCancelKeeps | src/main/java/com/mattercom/salesOrders/util/StatusChangeConstants.java:56-58 | CANCEL_INVOICE leaves no active I_INV record and every other status active exactly when it was before |
| StatusManagement.RestartSource | src/main/java/com/mattercom/salesOrders/util/StatusChangeConstants.java:27-29 | the restart rules are moves to I_CRTD: from I_WAIT for RESTART_ORDER, from E_DISP for RESTART_DISPUTED_ORDER |
| StatusManagement.RestartMoves | src/main/java/com/mattercom/salesOrders/util/StatusChangeConstants.java:27-29 | a restart leaves I_CRTD active, its source status with no active record, and every other status active exactly when it was before |
| StatusManagement.OrderCreationStatuses | src/main/java/com/mattercom/salesOrders/util/StatusManagementUtil.java:157-199 | I_CRTD comes first; all records are active and stamped now; one record per status; a status is present iff the flags seed it; the records follow the seeding order I_CRTD, E_AWT_APPV, I_DLKD, I_BLKD, E_FRD_HOLD, E_CRED_BLK |
| StatusManagement.SeedIds | src/main/java/com/mattercom/salesOrders/util/StatusManagementUtil.java:157-199 | the concatenated seed pieces hold unique statuses, exactly the seeded ones |
| StatusManagement.CreditOnlySeed | src/main/java/com/mattercom/salesOrders/util/StatusManagementUtil.java:157-199 | a credit block alone seeds exactly {I_CRTD, I_DLKD, I_BLKD, E_CRED_BLK}, four records |
| ItemSelection.CountSelected | src/main/java/com/mattercom/salesOrders/repositories/SalesItemRepository.java:24-28 | the fetch size is at most the item count and is zero iff no item of the order is requested |
| ItemSelection.CheckSelection | src/main/java/com/mattercom/salesOrders/services/SalesOrderServiceImpl.java:331-340 | any failure is NotFound and an empty request always fails; with unique item ids it passes iff the request is non-empty, has no repeats and names only this order's items |
| ItemSelection.SelectionFound | src/main/java/com/mattercom/salesOrders/services/SalesOrderServiceImpl.java:331-340 | the size test ("non-empty and as many as requested") is equivalent to that characterisation |
| ItemUpdates.UpdateItem | src/main/java/com/mattercom/salesOrders/services/SalesOrderServiceImpl.java:92-103 | one loop pass succeeds iff the item guard passes and the transaction is ITEM-typed; a guard failure reports the guard's conflict; on success the item went through the rule and its backorder record changed as requested |
| ItemUpdates.UpdateWhere | src/main/java/com/mattercom/salesOrders/services/SalesOrderServiceImpl.java:92-103 | succeeds iff the step succeeds on every targeted item; targeted items are stepped and the others kept; otherwise returns the error of the first failing targeted item |
| ItemUpdates.UpdateItems | src/main/java/com/mattercom/salesOrders/services/SalesOrderServiceImpl.java:92-103 | the item loop has that contract, with UpdateItem as the step; for an item transaction a failure is the guard conflict of the first targeted item whose statuses forbid it |
| SalesOrderService.CreateOrder | src/main/java/com/mattercom/salesOrders/services/SalesOrderServiceImpl.java:32-54 | the new order is the draft with only its statuses replaced; the statuses are exactly the seeded ones, one active record each, stamped now, I_CRTD first and in seeding order |
| SalesOrderService.PerformOrderTransaction | src/main/java/com/mattercom/salesOrders/services/SalesOrderServiceImpl.java:56-74 | reserved transactions fail with InvalidArgument; otherwise success iff the header guard passes, else its conflict; on success only the statuses change, following the rule |
| SalesOrderService.PlainItemTransactionNeverBlocked | src/main/java/com/mattercom/salesOrders/util/StatusRuleConstants.java:147-158 | no item status forbids a transaction outside the two item cancels and the backorder, so the item guard passes every item for the plain item transactions |
| SalesOrderService.PerformItemTransaction | src/main/java/com/mattercom/salesOrders/services/SalesOrderServiceImpl.java:76-105 | reserved transactions fail with InvalidArgument; then the header guard, whose failure gives its conflict, then NotFound from the fetch; once those pass it always succeeds, because no item status forbids a plain item transaction; untargeted items are unchanged; targeted items are transitioned; reorder clears their backorder record |
| SalesOrderService.UpdatePermission | src/main/java/com/mattercom/salesOrders/services/SalesOrderServiceImpl.java:305-312 | the system actor is checked against SYSTEM_CHANGE_DETAILS, the customer against CHANGE_DETAILS |
| SalesOrderService.ChangeShippingAddress | src/main/java/com/mattercom/salesOrders/services/SalesOrderServiceImpl.java:107-120 | succeeds iff the actor's detail-change guard passes; a failed header guard gives the guard's conflict, naming the first blocking status; only the address changes |
| SalesOrderService.ChangeRecurrentDetails | src/main/java/com/mattercom/salesOrders/services/SalesOrderServiceImpl.java:144-165 | succeeds iff the guard passes and the order is recurrent and not in transit; the guard is checked first, so a blocked order gives the guard's conflict; past the guard, a non-recurrent or in-transit order gives InvalidArgument; only the recurrence changes |
| SalesOrderService.ChangeDeliverySpeed | src/main/java/com/mattercom/salesOrders/services/SalesOrderServiceImpl.java:212-221 | gated by CHANGE_DETAILS whoever asks; a failed header guard gives the guard's conflict, naming the first blocking status; only the speed changes |
| SalesOrderService.AddOrderItems | src/main/java/com/mattercom/salesOrders/services/SalesOrderServiceImpl.java:223-240 | gated by the actor's permission; a failed header guard gives the guard's conflict, naming the first blocking status; the new items are appended after the existing ones, which stay as they were |
| SalesOrderService.BackOrderItem | src/main/java/com/mattercom/salesOrders/services/SalesOrderServiceImpl.java:122-142 | succeeds iff the header guard, the fetch and every targeted item's guard pass for BACKORDER_ITEM; a failed header guard gives its conflict, a failed fetch NotFound, and a failure after both is the conflict of the first targeted item, in item order, whose statuses forbid the backorder; targeted items are transitioned and get a fresh backorder record with the requested quantity; the others are unchanged |
| SalesOrderService.CancelOrder | src/main/java/com/mattercom/salesOrders/services/SalesOrderServiceImpl.java:167-188 | succeeds iff the CANCEL_ORDER header guard passes and every item passes the actor's item-cancel guard; a failed header guard gives its conflict; past the header guard, a failure is the conflict of the first item, in item order, whose statuses forbid the actor's cancel; on success E_CNCL is active and every other header status keeps its state, every item is transitioned by the actor's cancel, has that cancel status active and keeps its id and backorder record, and nothing else in the order changes |
| SalesOrderService.CancelOrderItems | src/main/java/com/mattercom/salesOrders/services/SalesOrderServiceImpl.java:190-210 | the header guard is CANCEL_ITEM and its failure gives its conflict; then the fetch (NotFound), then the targeted items' guards, where a failure is the conflict of the first targeted item whose statuses forbid the actor's cancel; the order is cancelled iff every item ends up cancelled, and otherwise its statuses are untouched |
| SalesOrderService.CancelStatusOf | src/main/java/com/mattercom/salesOrders/util/StatusChangeConstants.java:73-89 | the actor's item cancel rule activates exactly this status, E_CNCL_SYS for the system and E_CNCL_CUST for the customer, and it counts as a cancel status |
| SalesOrderService.ItemCancelled | src/main/java/com/mattercom/salesOrders/util/StatusChangeConstants.java:73-89 | an item that went through a cancel carries that actor's cancel status, active |
| SalesOrderService.CancelledTargets | src/main/java/com/mattercom/salesOrders/services/SalesOrderServiceImpl.java:190-210 | the loop of an item cancel transitions and cancels every targeted item, keeps the others, and keeps every id and backorder record |
| SalesOrderService.CancelledEveryItem | src/main/java/com/mattercom/salesOrders/services/SalesOrderServiceImpl.java:176-181 | a cancel loop that targets every item leaves all of them cancelled with the actor's status, each keeping its backorder record |
| SalesOrderService.RestartSteps | src/main/java/com/mattercom/salesOrders/services/SalesOrderServiceImpl.java:247-263 | succeeds iff the restart guard passes and, when the invoice is regenerated, the CANCEL_INVOICE guard passes on the restarted list; each failed guard gives its own conflict; on success I_CRTD is active, the restart's source status (I_WAIT or E_DISP) has no active record, no I_INV record is active when the invoice was regenerated, and every other status keeps its state |
| SalesOrderService.RestartOrder | src/main/java/com/mattercom/salesOrders/services/SalesOrderServiceImpl.java:242-265 | a non-recurrent order gives InvalidArgument; otherwise the restart steps with RESTART_ORDER, with their error on failure, changing only the statuses |
| SalesOrderService.RestartDisputedOrder | src/main/java/com/mattercom/salesOrders/services/SalesOrderServiceImpl.java:277-295 | the restart steps with RESTART_DISPUTED_ORDER, with their error on failure, changing only the statuses |
| ServiceProperties.CancelOrderRejectsCancelledItem | src/main/java/com/mattercom/salesOrders/services/SalesOrderServiceImpl.java:167-188 | one already-cancelled item makes the whole order cancel fail with a conflict |
| ServiceProperties.CancelOrderRejectsClosedOrder | src/main/java/com/mattercom/salesOrders/services/SalesOrderServiceImpl.java:167-188 | a cancelled or completed order cannot be cancelled again; the header guard's conflict is returned |
| ServiceProperties.CancelOrderItemsCascade | src/main/java/com/mattercom/salesOrders/services/SalesOrderServiceImpl.java:317-326 | the targeted items get the actor's cancel status and the others are unchanged; the order is cancelled once all items are cancelled (in particular when every untargeted item already was), and is otherwise untouched |
| ServiceProperties.AutoCancelSkipsHeaderGuard | src/main/java/com/mattercom/salesOrders/services/SalesOrderServiceImpl.java:317-326 | an invoiced order refuses an order cancel with a conflict naming I_INV, yet cancelling its only item cancels the order |
| ServiceProperties.ItemCancelHeaderGuardIgnoresActor | src/main/java/com/mattercom/salesOrders/services/SalesOrderServiceImpl.java:190-210 | under an administrative hold alone, which allows SYSTEM_CANCEL_ITEM, a system item cancel still fails with a conflict naming the hold |
| ServiceProperties.BackorderMarksItems | src/main/java/com/mattercom/salesOrders/services/SalesOrderServiceImpl.java:122-142 | after a successful backorder, every targeted item has E_BKO active |
| ServiceProperties.BackorderThenReorder | src/main/java/com/mattercom/salesOrders/services/SalesOrderServiceImpl.java:76-105 | a backorder followed by a reorder of the same items leaves each with an E_BKO record that is inactive, and no backorder record |
| ServiceProperties.ReorderSwitchesOff | src/main/java/com/mattercom/salesOrders/util/StatusChangeConstants.java:73-89 | reorder keeps the E_BKO record of a backordered item but switches it off |
| ServiceProperties.BackorderRejectsCancelledItem | src/main/java/com/mattercom/salesOrders/services/SalesOrderServiceImpl.java:122-142 | backordering a cancelled targeted item fails; once the header guard and the fetch pass, the failure is a conflict naming an item cancel status |
| ServiceProperties.RestartReopensLifecycle | src/main/java/com/mattercom/salesOrders/services/SalesOrderServiceImpl.java:242-265 | a successful restart needs a recurrent order; it leaves I_CRTD active and I_WAIT inactive, and with invoice regeneration no I_INV active |
| ServiceProperties.RestartDisputedReopensLifecycle | src/main/java/com/mattercom/salesOrders/services/SalesOrderServiceImpl.java:277-295 | a successful disputed restart leaves I_CRTD active and E_DISP inactive, and with invoice regeneration no I_INV active |
| ServiceProperties.AdminHoldGatesCustomerOnly | src/main/java/com/mattercom/salesOrders/services/SalesOrderServiceImpl.java:305-312 | under an administrative hold alone the system actor may change the address, while the customer gets a conflict naming the hold |
| ServiceProperties.DetailUpdatesKeepStatuses | src/main/java/com/mattercom/salesOrders/services/SalesOrderServiceImpl.java:223-240 | no detail update changes the order's or the items' status records |
| ResponseMapper.CollectActive | src/main/java/com/mattercom/salesOrders/mapper/SalesOrderResponseMapper.java:36-43 | the fold keeps existing entries and adds each active status once, with the timestamp of its first active record |
| ResponseMapper.ActiveStatusMap | src/main/java/com/mattercom/salesOrders/mapper/SalesOrderResponseMapper.java:34-46 | the keys are exactly the active statuses (an empty list gives an empty map); each value is the timestamp of that status's first active record |
| ResponseMapper.ToItemView | src/main/java/com/mattercom/salesOrders/mapper/SalesOrderResponseMapper.java:68-91 | the item view keeps the id, shows exactly the item's active statuses, and gives each the timestamp of its first active record |
| ResponseMapper.ToOrderView | src/main/java/com/mattercom/salesOrders/mapper/SalesOrderResponseMapper.java:29-63 | the order view keeps the order id, shows exactly the active header statuses each with the timestamp of its first active record, and holds the item views one per item, in order, with the same guarantees |
| ResponseMapper.UniqueRecordsShowTheirTimestamp | src/main/java/com/mattercom/salesOrders/mapper/SalesOrderResponseMapper.java:36-43 | with one record per status, every active record appears with its own timestamp |
| ResponseMapper.DuplicateKeepsFirst | src/main/java/com/mattercom/salesOrders/mapper/SalesOrderResponseMapper.java:41 | two active records of one status show the first one's timestamp |
| ResponseMapper.ViewAfterOrderTransaction | src/main/java/com/mattercom/salesOrders/mapper/SalesOrderResponseMapper.java:34-46 | after an order transaction, the view shows every activated status and no status that was only deactivated |

## Left out

- Loading from the repositories is not modelled. Operations take the loaded aggregate, so the not-found failure for a missing order id does not arise. This covers `getOrderWithStatus`, `getOrderWithItems`, `getOrderWithDetails`, `getOrderStatus` and `findOrderWithDetailsById` in `SalesOrderServiceImpl.java`, which are lookups only. The header guards of `performItemTransaction` and `backOrderItem` (`SalesOrderServiceImpl.java:87`, `:126`) read the statuses through `getOrderStatus` (`:345-348`), a separate query whose row order is not specified. The model checks the order's own status list, so when several active statuses block, the one the service reports may differ from the one the model names.
- Order and item identities are naturals, not UUIDs. The fetched items come back in the order's item order.
- The item query behind the auto-cancel is modelled from the statuses it filters on. Non-cancelled means no active E_CNCL_CUST or E_CNCL_SYS, as in the query in `SalesItemRepository.java:30-43`. The method the service calls for it is not declared in that repository.
- The services return the saved entities or item lists. The model returns the whole new aggregate instead. Persistence, cascades, entity graphs and id generation are left out.
- Java mutates status objects in place. The model computes new values. `@Transactional` rollback becomes "error, nothing changed". `changeRecurrentDetails` is not transactional in the source. Because it fails before writing anything, this makes no difference.
- Timestamps are opaque. Each operation receives `now`. A record that is switched, reactivated or created is stamped `now`, which stands in for the Hibernate update timestamp. A record left alone keeps its stamp.
- `Set.of` iteration order is unspecified in Java. The model activates in enum declaration order. `StatusEngine.ApplyRuleOrderIndependent` shows that the order only permutes the appended records.
- Null status lists are not modelled: the lists come from loaded Hibernate collections, which are never null. The guard checks (`src/main/java/com/mattercom/salesOrders/util/StatusRuleConstants.java:163`, `:190`) and the projection (`src/main/java/com/mattercom/salesOrders/mapper/SalesOrderResponseMapper.java:34`, `:73`) treat a null list like an empty one. The engine would throw on a null list whenever the rule is non-empty (`src/main/java/com/mattercom/salesOrders/util/StatusManagementUtil.java:44`, `:108`).
- The MapStruct snapshot in the response, and the DTO, validation and controller layers, are not modelled. The actor flag the controllers hard-code is a boolean parameter. Exceptions map to the `Error` datatype instead of HTTP codes.
- The shipping address and delivery speed are carried as opaque payloads. Prices and discounts are not modelled. Logging is left out.
- ItemSelection.CheckSelection: the exact pass/fail characterisation is stated only for orders whose item ids are unique, because item ids are primary keys. For other lists only the NotFound error and the failure on an empty request are stated.
- SalesOrderService.BackOrderItem: its contract states the transition and the new backorder record. That E_BKO is then active is proved separately, by `ServiceProperties.BackorderMarksItems`.
- SalesOrderService.CancelOrderItems: the auto-cancel and the cancelled targets are stated by `ServiceProperties.CancelOrderItemsCascade`, not by the function's own contract.

## Observations

These are consequences of the code as written. They are proved, not corrected:

- The auto-cancel that follows an item cancel applies CANCEL_ORDER without checking the header guard for it. An invoiced order therefore refuses a direct cancel but is cancelled through its items (`ServiceProperties.AutoCancelSkipsHeaderGuard`).
- The header guard of an item cancel is always the customer's CANCEL_ITEM, whatever the actor flag. Under an administrative hold, a system item cancel is therefore refused even though the hold allows SYSTEM_CANCEL_ITEM (`ServiceProperties.ItemCancelHeaderGuardIgnoresActor`).
