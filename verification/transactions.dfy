/** The catalogue of business transactions, each tagged with the one aggregate kind it targets. */
module Transactions {

  datatype ObjectType = ORDER | ITEM

  datatype SalesTransaction =
    // order lifecycle
    | RELEASE_ORDER | LOCK_ORDER | UNLOCK_ORDER | CANCEL_ORDER | SET_TRANSIT_ACTIVE
    | SET_TRANSIT_INACTIVE | RESTART_ORDER | MARK_ORDER_DELETION_FLAG | COMPLETE_ORDER
    // approval and compliance (order-level blocks)
    | APPLY_CREDIT_BLOCK | REMOVE_CREDIT_BLOCK | APPLY_FRAUD_HOLD | REMOVE_FRAUD_HOLD
    | APPLY_ADMIN_HOLD | REMOVE_ADMIN_HOLD | APPROVE_ORDER | REMOVE_CANCEL_BLOCK
    | APPLY_DELIVERY_BLOCK | REMOVE_DELIVERY_BLOCK | CHANGE_DETAILS | SYSTEM_CHANGE_DETAILS
    // billing (order-level)
    | GENERATE_INVOICE | CANCEL_INVOICE | APPLY_BILLING_BLOCK | REMOVE_BILLING_BLOCK
    // item-level operations
    | CREATE_ITEM | SYSTEM_CANCEL_ITEM | CANCEL_ITEM | SET_ITEM_DELETION_FLAG
    | BACKORDER_ITEM | REORDER_ITEM
    // dispute and resolution
    | RAISE_DISPUTE | RESOLVE_DISPUTE | RESTART_DISPUTED_ORDER

  /** The object type fixed at each constant's declaration. */
  function ObjectTypeOf(t: SalesTransaction): (k: ObjectType)
    ensures k == ITEM <==> t in {CREATE_ITEM, SYSTEM_CANCEL_ITEM, CANCEL_ITEM,
                                 SET_ITEM_DELETION_FLAG, BACKORDER_ITEM, REORDER_ITEM}
  {
    match t
    case CREATE_ITEM | SYSTEM_CANCEL_ITEM | CANCEL_ITEM
       | SET_ITEM_DELETION_FLAG | BACKORDER_ITEM | REORDER_ITEM => ITEM
    case _ => ORDER
  }

  /** The detail-change, billing and dispute transactions all target the order header. */
  lemma OrderTypedGroups()
    ensures ObjectTypeOf(CHANGE_DETAILS) == ORDER && ObjectTypeOf(SYSTEM_CHANGE_DETAILS) == ORDER
    ensures forall t :: t in {GENERATE_INVOICE, CANCEL_INVOICE, APPLY_BILLING_BLOCK, REMOVE_BILLING_BLOCK}
                        ==> ObjectTypeOf(t) == ORDER
    ensures forall t :: t in {RAISE_DISPUTE, RESOLVE_DISPUTE, RESTART_DISPUTED_ORDER}
                        ==> ObjectTypeOf(t) == ORDER
  {
  }
}
