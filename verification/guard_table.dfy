/** The guard tables (which transactions a status forbids while it is active) and the guard
    checker that consults them before any mutation. */
module GuardTable {
  import opened Wrappers
  import opened StatusIds
  import opened Transactions
  import opened StatusEngine
  import opened Errors

  /** Forbidden transactions per active header status; `None` means the status has no entry. */
  function HeaderForbidRule(s: OrderStatusId): (r: Option<set<SalesTransaction>>)
    ensures r.None? <==> s == I_CRTD || s == I_DLFL
  {
    match s
    case E_AWT_APPV => Some({RELEASE_ORDER, GENERATE_INVOICE, SET_TRANSIT_ACTIVE})
    case E_CRED_BLK => Some({RELEASE_ORDER, GENERATE_INVOICE, SET_TRANSIT_ACTIVE, RESTART_ORDER})
    case E_FRD_HOLD => Some({RELEASE_ORDER, GENERATE_INVOICE, SET_TRANSIT_ACTIVE, RESTART_ORDER,
                             RESTART_DISPUTED_ORDER})
    case E_ADMIN_HOLD => Some({RELEASE_ORDER, GENERATE_INVOICE, CANCEL_ORDER, CANCEL_ITEM, SET_TRANSIT_ACTIVE,
                               CHANGE_DETAILS, RESTART_ORDER, RESTART_DISPUTED_ORDER})
    case E_DISP => Some({COMPLETE_ORDER, GENERATE_INVOICE, CANCEL_ORDER, RAISE_DISPUTE, SET_TRANSIT_ACTIVE,
                         CHANGE_DETAILS, RESTART_ORDER})
    case I_BLKD => Some({GENERATE_INVOICE, RESTART_ORDER})
    case I_DLKD => Some({SET_TRANSIT_ACTIVE})
    case I_LOCK => Some({RELEASE_ORDER, CANCEL_ORDER, CANCEL_ITEM, SYSTEM_CANCEL_ITEM, GENERATE_INVOICE,
                         SET_TRANSIT_ACTIVE, CHANGE_DETAILS, SYSTEM_CHANGE_DETAILS, RESTART_ORDER,
                         RESTART_DISPUTED_ORDER})
    case I_INV => Some({CANCEL_ORDER, SET_TRANSIT_ACTIVE, CHANGE_DETAILS})
    case I_CMPL => Some({RELEASE_ORDER, LOCK_ORDER, CANCEL_ORDER, SYSTEM_CANCEL_ITEM, APPLY_CREDIT_BLOCK,
                         APPLY_FRAUD_HOLD, APPLY_ADMIN_HOLD, GENERATE_INVOICE, CANCEL_ITEM, BACKORDER_ITEM,
                         SET_TRANSIT_ACTIVE, CHANGE_DETAILS, SYSTEM_CHANGE_DETAILS, CANCEL_INVOICE})
    case E_CNCL => Some({RELEASE_ORDER, LOCK_ORDER, CANCEL_ORDER, SYSTEM_CANCEL_ITEM, APPLY_CREDIT_BLOCK,
                         APPLY_FRAUD_HOLD, APPLY_ADMIN_HOLD, GENERATE_INVOICE, CANCEL_ITEM, SET_TRANSIT_ACTIVE,
                         CHANGE_DETAILS, SYSTEM_CHANGE_DETAILS, RESTART_ORDER})
    case E_TRNS => Some({CANCEL_ORDER, SET_TRANSIT_ACTIVE, CANCEL_ITEM, GENERATE_INVOICE, MARK_ORDER_DELETION_FLAG,
                         COMPLETE_ORDER, BACKORDER_ITEM, CHANGE_DETAILS})
    case I_WAIT => Some({CANCEL_ORDER, CANCEL_ITEM, BACKORDER_ITEM, CANCEL_INVOICE, CHANGE_DETAILS})
    case I_REL => Some({CHANGE_DETAILS})
    case _ => None
  }

  /** Forbidden transactions per active item status: only the two cancel statuses have entries. */
  function ItemForbidRule(s: ItemStatusId): (r: Option<set<SalesTransaction>>)
    ensures r.Some? <==> IsItemCancelStatus(s)
    ensures r.Some? ==> r.value == {CANCEL_ITEM, SYSTEM_CANCEL_ITEM, BACKORDER_ITEM}
  {
    match s
    case E_CNCL_CUST => Some({CANCEL_ITEM, SYSTEM_CANCEL_ITEM, BACKORDER_ITEM})
    case E_CNCL_SYS => Some({CANCEL_ITEM, SYSTEM_CANCEL_ITEM, BACKORDER_ITEM})
    case _ => None
  }

  /** A status with no entry forbids nothing. */
  predicate HeaderForbids(s: OrderStatusId, t: SalesTransaction) {
    var f := HeaderForbidRule(s);
    f.Some? && t in f.value
  }

  predicate ItemForbids(s: ItemStatusId, t: SalesTransaction) {
    var f := ItemForbidRule(s);
    f.Some? && t in f.value
  }

  /** No active record forbids `t`: the condition under which the header guard passes. */
  ghost predicate HeaderAllows(rs: seq<StatusRecord<OrderStatusId>>, t: SalesTransaction) {
    forall i :: 0 <= i < |rs| && rs[i].active ==> !HeaderForbids(rs[i].id, t)
  }

  ghost predicate ItemAllows(rs: seq<StatusRecord<ItemStatusId>>, t: SalesTransaction) {
    forall i :: 0 <= i < |rs| && rs[i].active ==> !ItemForbids(rs[i].id, t)
  }

  /** Position `k` is the first active record whose status satisfies `blocks`. */
  ghost predicate IsFirstBlocker<S>(rs: seq<StatusRecord<S>>, blocks: S -> bool, k: int) {
    && 0 <= k < |rs| && rs[k].active && blocks(rs[k].id)
    && forall j :: 0 <= j < k ==> !(rs[j].active && blocks(rs[j].id))
  }

  /** The id of the first active record, in list order, that blocks; none if no record blocks. */
  function FirstBlocking<S>(rs: seq<StatusRecord<S>>, blocks: S -> bool): (r: Option<S>)
    ensures r.None? <==> forall i :: 0 <= i < |rs| && rs[i].active ==> !blocks(rs[i].id)
    ensures r.Some? ==> exists k :: IsFirstBlocker(rs, blocks, k) && rs[k].id == r.value
  {
    if |rs| == 0 then None
    else if rs[0].active && blocks(rs[0].id) then
      assert IsFirstBlocker(rs, blocks, 0);
      Some(rs[0].id)
    else
      var r := FirstBlocking(rs[1..], blocks);
      if r.Some? then
        assert exists k :: IsFirstBlocker(rs, blocks, k) && rs[k].id == r.value by {
          var k :| IsFirstBlocker(rs[1..], blocks, k) && rs[1..][k].id == r.value;
          assert IsFirstBlocker(rs, blocks, k + 1);
        }
        r
      else
        assert forall i :: 1 <= i < |rs| ==> rs[i] == rs[1..][i - 1];
        r
  }

  /** The header guard: passes, or fails with a conflict naming the first blocking status. */
  function CheckHeaderStatuses(rs: seq<StatusRecord<OrderStatusId>>, t: SalesTransaction): (r: Outcome<Error>)
    ensures r.Pass? <==> HeaderAllows(rs, t)
    ensures r.Fail? ==> exists k :: IsFirstBlocker(rs, s => HeaderForbids(s, t), k)
                                    && r.error == Conflict(HeaderStatus(rs[k].id))
  {
    if |rs| == 0 then Pass
    else match FirstBlocking(rs, s => HeaderForbids(s, t))
      case None => Pass
      case Some(s) => Fail(Conflict(HeaderStatus(s)))
  }

  /** The item guard: passes, or fails with a conflict naming the first blocking item status. */
  function CheckItemStatuses(rs: seq<StatusRecord<ItemStatusId>>, t: SalesTransaction): (r: Outcome<Error>)
    ensures r.Pass? <==> ItemAllows(rs, t)
    ensures r.Fail? ==> exists k :: IsFirstBlocker(rs, s => ItemForbids(s, t), k)
                                    && r.error == Conflict(ItemStatus(rs[k].id))
  {
    if |rs| == 0 then Pass
    else match FirstBlocking(rs, s => ItemForbids(s, t))
      case None => Pass
      case Some(s) => Fail(Conflict(ItemStatus(s)))
  }

  // ----- properties of the guards -----

  /** The active records of a list, in order. */
  function ActiveOnly<S>(rs: seq<StatusRecord<S>>): seq<StatusRecord<S>> {
    if |rs| == 0 then []
    else (if rs[0].active then [rs[0]] else []) + ActiveOnly(rs[1..])
  }

  /** Inactive records never influence the guard: removing them gives the same verdict and the
      same reported status. */
  lemma {:induction false} InactiveRecordsNeverBlock<S>(rs: seq<StatusRecord<S>>, blocks: S -> bool)
    ensures FirstBlocking(rs, blocks) == FirstBlocking(ActiveOnly(rs), blocks)
  {
    if |rs| > 0 {
      InactiveRecordsNeverBlock(rs[1..], blocks);
      if rs[0].active {
        var act := ActiveOnly(rs);
        assert act == [rs[0]] + ActiveOnly(rs[1..]);
        assert act[0] == rs[0] && act[1..] == ActiveOnly(rs[1..]);
      } else {
        assert ActiveOnly(rs) == [] + ActiveOnly(rs[1..]);
        assert ActiveOnly(rs) == ActiveOnly(rs[1..]);
      }
    }
  }

  /** An active cancelled or completed header status makes CANCEL_ORDER fail with a conflict. */
  lemma CancelledOrCompletedCannotBeCancelled(rs: seq<StatusRecord<OrderStatusId>>)
    requires IsActiveIn(rs, E_CNCL) || IsActiveIn(rs, I_CMPL)
    ensures CheckHeaderStatuses(rs, CANCEL_ORDER).Fail?
    ensures CheckHeaderStatuses(rs, CANCEL_ORDER).error.Conflict?
  {
    var i :| 0 <= i < |rs| && (rs[i].id == E_CNCL || rs[i].id == I_CMPL) && rs[i].active;
    assert HeaderForbids(rs[i].id, CANCEL_ORDER);
  }

  /** An active cancel status on an item makes any further cancel or a backorder of it fail. */
  lemma CancelledItemIsFinal(rs: seq<StatusRecord<ItemStatusId>>, t: SalesTransaction)
    requires IsActiveIn(rs, E_CNCL_CUST) || IsActiveIn(rs, E_CNCL_SYS)
    requires t in {CANCEL_ITEM, SYSTEM_CANCEL_ITEM, BACKORDER_ITEM}
    ensures CheckItemStatuses(rs, t).Fail? && CheckItemStatuses(rs, t).error.Conflict?
  {
    var i :| 0 <= i < |rs| && IsItemCancelStatus(rs[i].id) && rs[i].active;
    assert ItemForbids(rs[i].id, t);
  }

  /** The administrative hold blocks release, invoicing, order cancel, customer item cancel,
      transit activation, customer detail changes and both restarts, but lets the system change
      details and cancel items. */
  lemma AdminHoldForbids()
    ensures forall t :: HeaderForbids(E_ADMIN_HOLD, t) <==>
              t in {RELEASE_ORDER, GENERATE_INVOICE, CANCEL_ORDER, CANCEL_ITEM, SET_TRANSIT_ACTIVE,
                    CHANGE_DETAILS, RESTART_ORDER, RESTART_DISPUTED_ORDER}
    ensures !HeaderForbids(E_ADMIN_HOLD, SYSTEM_CHANGE_DETAILS) && !HeaderForbids(E_ADMIN_HOLD, SYSTEM_CANCEL_ITEM)
  {
  }

  /** When the administrative hold is the only active header status, each transaction it forbids
      is rejected with a conflict naming the hold. */
  lemma AdminHoldAloneIsReported(rs: seq<StatusRecord<OrderStatusId>>, t: SalesTransaction)
    requires forall i :: 0 <= i < |rs| && rs[i].active ==> rs[i].id == E_ADMIN_HOLD
    requires IsActiveIn(rs, E_ADMIN_HOLD)
    requires HeaderForbids(E_ADMIN_HOLD, t)
    ensures CheckHeaderStatuses(rs, t) == Fail(Conflict(HeaderStatus(E_ADMIN_HOLD)))
  {
    var i :| 0 <= i < |rs| && rs[i].id == E_ADMIN_HOLD && rs[i].active;
    assert !HeaderAllows(rs, t);
  }
}
