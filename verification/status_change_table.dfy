/** The fixed tables mapping each transaction to the rule it applies, one for order headers
    and one for items. A transaction without an entry has no rule. */
module StatusChangeTable {
  import opened Wrappers
  import opened StatusIds
  import opened Transactions
  import opened StatusRules

  /** The order-level rule table. Every entry is ORDER-typed, names disjoint sets, is not empty,
      and no entry ever activates the lock status. */
  function OrderRule(t: SalesTransaction): (r: Option<StatusRule<OrderStatusId>>)
    ensures r.Some? ==> ObjectTypeOf(t) == ORDER
    ensures r.Some? ==> r.value.IsDisjoint() && !r.value.IsEmpty()
    ensures r.Some? ==> I_LOCK !in r.value.activate
  {
    match t
    case APPROVE_ORDER => Some(Deactivating([E_AWT_APPV]))
    case RELEASE_ORDER => Some(Move(I_REL, I_CRTD))
    case SET_TRANSIT_ACTIVE => Some(Move(E_TRNS, I_REL))
    case SET_TRANSIT_INACTIVE => Some(Move(I_WAIT, E_TRNS))
    case RESTART_ORDER => Some(Move(I_CRTD, I_WAIT))
    case CANCEL_ORDER => Some(Activating([E_CNCL]))
    case MARK_ORDER_DELETION_FLAG => Some(Activating([I_DLFL]))
    case COMPLETE_ORDER => Some(Move(I_CMPL, I_WAIT))
    case APPLY_CREDIT_BLOCK => Some(Activating([E_CRED_BLK, I_DLKD, I_BLKD]))
    case REMOVE_CREDIT_BLOCK => Some(Deactivating([E_CRED_BLK, I_DLKD, I_BLKD]))
    case APPLY_ADMIN_HOLD => Some(Activating([E_ADMIN_HOLD]))
    case REMOVE_ADMIN_HOLD => Some(Deactivating([E_ADMIN_HOLD]))
    case GENERATE_INVOICE => Some(Activating([I_INV]))
    case CANCEL_INVOICE => Some(Deactivating([I_INV]))
    case RAISE_DISPUTE => Some(Activating([E_DISP]))
    case RESTART_DISPUTED_ORDER => Some(Move(I_CRTD, E_DISP))
    case RESOLVE_DISPUTE => Some(Deactivating([E_DISP]))
    case _ => None
  }

  /** The item-level rule table. Every entry is ITEM-typed, names disjoint sets and is not empty. */
  function ItemRule(t: SalesTransaction): (r: Option<StatusRule<ItemStatusId>>)
    ensures r.Some? ==> ObjectTypeOf(t) == ITEM
    ensures r.Some? ==> r.value.IsDisjoint() && !r.value.IsEmpty()
  {
    match t
    case CANCEL_ITEM => Some(Activating([E_CNCL_CUST]))
    case SYSTEM_CANCEL_ITEM => Some(Activating([E_CNCL_SYS]))
    case SET_ITEM_DELETION_FLAG => Some(Activating([I_DLFL_ITEM]))
    case BACKORDER_ITEM => Some(Activating([E_BKO]))
    case REORDER_ITEM => Some(Deactivating([E_BKO]))
    case _ => None
  }

  /** The header lifecycle: created, released, in transit, waiting, then completed or restarted. */
  lemma LifecycleMoves()
    ensures OrderRule(RELEASE_ORDER) == Some(StatusRule({I_REL}, {I_CRTD}))
    ensures OrderRule(SET_TRANSIT_ACTIVE) == Some(StatusRule({E_TRNS}, {I_REL}))
    ensures OrderRule(SET_TRANSIT_INACTIVE) == Some(StatusRule({I_WAIT}, {E_TRNS}))
    ensures OrderRule(RESTART_ORDER) == Some(StatusRule({I_CRTD}, {I_WAIT}))
    ensures OrderRule(COMPLETE_ORDER) == Some(StatusRule({I_CMPL}, {I_WAIT}))
  {
  }

  /** Cancelling activates only the cancelled status; the credit block switches three statuses
      on, and removing it switches exactly those three off. */
  lemma CancelAndCreditBlockRules()
    ensures OrderRule(CANCEL_ORDER) == Some(StatusRule({E_CNCL}, {}))
    ensures OrderRule(APPLY_CREDIT_BLOCK) == Some(StatusRule({E_CRED_BLK, I_DLKD, I_BLKD}, {}))
    ensures OrderRule(REMOVE_CREDIT_BLOCK) == Some(StatusRule({}, {E_CRED_BLK, I_DLKD, I_BLKD}))
  {
    assert OrderRule(CANCEL_ORDER).value.activate == {E_CNCL};
    assert OrderRule(APPLY_CREDIT_BLOCK).value.activate == {E_CRED_BLK, I_DLKD, I_BLKD};
    assert OrderRule(REMOVE_CREDIT_BLOCK).value.deactivate == {E_CRED_BLK, I_DLKD, I_BLKD};
  }

  /** Invoicing switches the invoiced status on and cancelling the invoice switches it off. */
  lemma InvoiceRules()
    ensures OrderRule(GENERATE_INVOICE) == Some(StatusRule({I_INV}, {}))
    ensures OrderRule(CANCEL_INVOICE) == Some(StatusRule({}, {I_INV}))
  {
    assert OrderRule(GENERATE_INVOICE).value.activate == {I_INV};
    assert OrderRule(CANCEL_INVOICE).value.deactivate == {I_INV};
  }

  /** Raising a dispute switches the disputed status on, resolving switches it off, and restarting
      a disputed order moves it back to created. */
  lemma DisputeRules()
    ensures OrderRule(RAISE_DISPUTE) == Some(StatusRule({E_DISP}, {}))
    ensures OrderRule(RESOLVE_DISPUTE) == Some(StatusRule({}, {E_DISP}))
    ensures OrderRule(RESTART_DISPUTED_ORDER) == Some(StatusRule({I_CRTD}, {E_DISP}))
  {
    assert OrderRule(RAISE_DISPUTE).value.activate == {E_DISP};
    assert OrderRule(RESOLVE_DISPUTE).value.deactivate == {E_DISP};
  }

  /** The item table: two cancel flavours, the deletion flag, and backorder/reorder. */
  lemma ItemRules()
    ensures ItemRule(CANCEL_ITEM) == Some(StatusRule({E_CNCL_CUST}, {}))
    ensures ItemRule(SYSTEM_CANCEL_ITEM) == Some(StatusRule({E_CNCL_SYS}, {}))
    ensures ItemRule(SET_ITEM_DELETION_FLAG) == Some(StatusRule({I_DLFL_ITEM}, {}))
    ensures ItemRule(BACKORDER_ITEM) == Some(StatusRule({E_BKO}, {}))
    ensures ItemRule(REORDER_ITEM) == Some(StatusRule({}, {E_BKO}))
  {
    assert ItemRule(CANCEL_ITEM).value.activate == {E_CNCL_CUST};
    assert ItemRule(SYSTEM_CANCEL_ITEM).value.activate == {E_CNCL_SYS};
    assert ItemRule(SET_ITEM_DELETION_FLAG).value.activate == {I_DLFL_ITEM};
    assert ItemRule(BACKORDER_ITEM).value.activate == {E_BKO};
    assert ItemRule(REORDER_ITEM).value.deactivate == {E_BKO};
  }

  /** Transactions without a table entry carry no rule at all. */
  lemma UnruledTransactions()
    ensures forall t :: t in {LOCK_ORDER, UNLOCK_ORDER, APPLY_FRAUD_HOLD, REMOVE_FRAUD_HOLD, CHANGE_DETAILS,
                              SYSTEM_CHANGE_DETAILS, REMOVE_CANCEL_BLOCK, APPLY_DELIVERY_BLOCK,
                              REMOVE_DELIVERY_BLOCK, APPLY_BILLING_BLOCK, REMOVE_BILLING_BLOCK}
                        ==> OrderRule(t).None?
    ensures ItemRule(CREATE_ITEM).None?
    ensures forall t :: ObjectTypeOf(t) == ITEM ==> OrderRule(t).None?
    ensures forall t :: ObjectTypeOf(t) == ORDER ==> ItemRule(t).None?
  {
  }
}
