/** The two closed enumerations of status ids: one for order headers, one for items. */
module StatusIds {

  /** Order header statuses, in declaration order. */
  datatype OrderStatusId =
    // core lifecycle
    | I_CRTD | I_REL | E_TRNS | I_WAIT | I_CMPL | E_CNCL
    // financial and approval blocks
    | E_AWT_APPV | E_CRED_BLK | E_FRD_HOLD | I_DLKD | I_BLKD
    // other states and locks
    | I_LOCK | E_ADMIN_HOLD | E_DISP | I_INV | I_DLFL

  /** Item statuses, in declaration order. */
  datatype ItemStatusId = E_BKO | I_INVC_ITEM | I_DLFL_ITEM | E_CNCL_CUST | E_CNCL_SYS

  /** Every order status id exactly once, in declaration order. */
  const AllOrderStatusIds: seq<OrderStatusId> :=
    [I_CRTD, I_REL, E_TRNS, I_WAIT, I_CMPL, E_CNCL,
     E_AWT_APPV, E_CRED_BLK, E_FRD_HOLD, I_DLKD, I_BLKD,
     I_LOCK, E_ADMIN_HOLD, E_DISP, I_INV, I_DLFL]

  /** Every item status id exactly once, in declaration order. */
  const AllItemStatusIds: seq<ItemStatusId> :=
    [E_BKO, I_INVC_ITEM, I_DLFL_ITEM, E_CNCL_CUST, E_CNCL_SYS]

  /** The two item statuses that mean "this item is cancelled". */
  predicate IsItemCancelStatus(s: ItemStatusId) {
    s == E_CNCL_CUST || s == E_CNCL_SYS
  }
}
