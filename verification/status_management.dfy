/** Order- and item-level entry points to the transition engine, plus the status seeding of a
    newly created order. */
module StatusManagement {
  import opened Wrappers
  import opened StatusIds
  import opened Transactions
  import opened StatusRules
  import opened StatusChangeTable
  import opened StatusEngine
  import opened Errors

  type OrderRecord = StatusRecord<OrderStatusId>
  type ItemRecord = StatusRecord<ItemStatusId>

  /** The members of `s` in the order they appear in `universe`. */
  function Enumerate<S(==)>(s: set<S>, universe: seq<S>): (r: seq<S>)
    requires Distinct(universe)
    ensures Distinct(r)
    ensures (set x | x in r) == s * (set x | x in universe)
    ensures s == {} ==> r == []
  {
    if |universe| == 0 then []
    else
      var rest := Enumerate(s, universe[1..]);
      var r := (if universe[0] in s then [universe[0]] else []) + rest;
      assert (set x | x in universe) == {universe[0]} + (set x | x in universe[1..]);
      assert universe[0] !in (set x | x in universe[1..]);
      var tailIds := set x | x in universe[1..];
      assert universe[0] !in tailIds;
      assert (set x | x in rest) == s * tailIds;
      assert universe[0] !in s * tailIds;
      assert universe[0] !in (set x | x in rest);
      assert universe[0] !in rest;
      assert (set x | x in r) == (if universe[0] in s then {universe[0]} else {}) + (set x | x in rest);
      r
  }

  lemma AllOrderStatusIdsComplete()
    ensures Distinct(AllOrderStatusIds)
    ensures forall s: OrderStatusId :: s in AllOrderStatusIds
  {
    forall s: OrderStatusId ensures s in AllOrderStatusIds {
      match s
      case I_CRTD => assert AllOrderStatusIds[0] == s;
      case I_REL => assert AllOrderStatusIds[1] == s;
      case E_TRNS => assert AllOrderStatusIds[2] == s;
      case I_WAIT => assert AllOrderStatusIds[3] == s;
      case I_CMPL => assert AllOrderStatusIds[4] == s;
      case E_CNCL => assert AllOrderStatusIds[5] == s;
      case E_AWT_APPV => assert AllOrderStatusIds[6] == s;
      case E_CRED_BLK => assert AllOrderStatusIds[7] == s;
      case E_FRD_HOLD => assert AllOrderStatusIds[8] == s;
      case I_DLKD => assert AllOrderStatusIds[9] == s;
      case I_BLKD => assert AllOrderStatusIds[10] == s;
      case I_LOCK => assert AllOrderStatusIds[11] == s;
      case E_ADMIN_HOLD => assert AllOrderStatusIds[12] == s;
      case E_DISP => assert AllOrderStatusIds[13] == s;
      case I_INV => assert AllOrderStatusIds[14] == s;
      case I_DLFL => assert AllOrderStatusIds[15] == s;
    }
  }

  lemma AllItemStatusIdsComplete()
    ensures Distinct(AllItemStatusIds)
    ensures forall s: ItemStatusId :: s in AllItemStatusIds
  {
    forall s: ItemStatusId ensures s in AllItemStatusIds {
      match s
      case E_BKO => assert AllItemStatusIds[0] == s;
      case I_INVC_ITEM => assert AllItemStatusIds[1] == s;
      case I_DLFL_ITEM => assert AllItemStatusIds[2] == s;
      case E_CNCL_CUST => assert AllItemStatusIds[3] == s;
      case E_CNCL_SYS => assert AllItemStatusIds[4] == s;
    }
  }

  /** The iteration order used for an order rule's activate set: enum declaration order. */
  function OrderActivationOrder(rule: StatusRule<OrderStatusId>): (r: seq<OrderStatusId>)
    ensures Lists(r, rule.activate)
    ensures rule.activate == {} ==> r == []
  {
    AllOrderStatusIdsComplete();
    var r := Enumerate(rule.activate, AllOrderStatusIds);
    assert rule.activate <= (set x | x in AllOrderStatusIds);
    r
  }

  function ItemActivationOrder(rule: StatusRule<ItemStatusId>): (r: seq<ItemStatusId>)
    ensures Lists(r, rule.activate)
    ensures rule.activate == {} ==> r == []
  {
    AllItemStatusIdsComplete();
    var r := Enumerate(rule.activate, AllItemStatusIds);
    assert rule.activate <= (set x | x in AllItemStatusIds);
    r
  }

  /** Apply an order transaction to an order's status records. An ITEM-typed transaction is
      rejected before anything changes; a transaction without a rule leaves the list as it is;
      otherwise the rule's contract holds of the result. */
  function ApplyOrderStatusChange(rs: seq<OrderRecord>, t: SalesTransaction, now: Instant)
    : (r: Result<seq<OrderRecord>, Error>)
    ensures r.Failure? <==> ObjectTypeOf(t) != ORDER
    ensures r.Failure? ==> r.error == InvalidArgument
    ensures r.Success? && OrderRule(t).None? ==> r.value == rs
    ensures r.Success? && OrderRule(t).Some? ==> Realises(rs, OrderRule(t).value, r.value)
  {
    if ObjectTypeOf(t) != ORDER then Failure(InvalidArgument)
    else match OrderRule(t)
      case None => Success(rs)
      case Some(rule) =>
        if rule.IsEmpty() then Success(rs)
        else Success(ApplyRule(rs, rule, OrderActivationOrder(rule), now))
  }

  /** Apply an item transaction to an item's status records, with the same shape. */
  function ApplyItemStatusChange(rs: seq<ItemRecord>, t: SalesTransaction, now: Instant)
    : (r: Result<seq<ItemRecord>, Error>)
    ensures r.Failure? <==> ObjectTypeOf(t) != ITEM
    ensures r.Failure? ==> r.error == InvalidArgument
    ensures r.Success? && ItemRule(t).None? ==> r.value == rs
    ensures r.Success? && ItemRule(t).Some? ==> Realises(rs, ItemRule(t).value, r.value)
  {
    if ObjectTypeOf(t) != ITEM then Failure(InvalidArgument)
    else match ItemRule(t)
      case None => Success(rs)
      case Some(rule) =>
        if rule.IsEmpty() then Success(rs)
        else Success(ApplyRule(rs, rule, ItemActivationOrder(rule), now))
  }

  /** Applying the same order transaction twice in a row gives the same list as applying it once. */
  lemma OrderStatusChangeIdempotent(rs: seq<OrderRecord>, t: SalesTransaction, now: Instant, later: Instant)
    requires ObjectTypeOf(t) == ORDER
    ensures ApplyOrderStatusChange(ApplyOrderStatusChange(rs, t, now).value, t, later)
            == ApplyOrderStatusChange(rs, t, now)
  {
    match OrderRule(t)
    case None =>
    case Some(rule) =>
      ApplyRuleIdempotent(rs, rule, OrderActivationOrder(rule), now, later);
  }

  lemma ItemStatusChangeIdempotent(rs: seq<ItemRecord>, t: SalesTransaction, now: Instant, later: Instant)
    requires ObjectTypeOf(t) == ITEM
    ensures ApplyItemStatusChange(ApplyItemStatusChange(rs, t, now).value, t, later)
            == ApplyItemStatusChange(rs, t, now)
  {
    match ItemRule(t)
    case None =>
    case Some(rule) =>
      ApplyRuleIdempotent(rs, rule, ItemActivationOrder(rule), now, later);
  }

  /** An order transaction leaves every status its rule switches on active. */
  lemma OrderChangeActivates(rs: seq<OrderRecord>, t: SalesTransaction, now: Instant, a: OrderStatusId)
    requires ObjectTypeOf(t) == ORDER && OrderRule(t).Some? && a in OrderRule(t).value.activate
    ensures IsActiveIn(ApplyOrderStatusChange(rs, t, now).value, a)
  {
    assert Realises(rs, OrderRule(t).value, ApplyOrderStatusChange(rs, t, now).value);
  }

  /** An order transaction whose rule switches nothing on is the deactivate phase alone. */
  lemma OrderChangeOnlyDeactivates(rs: seq<OrderRecord>, t: SalesTransaction, now: Instant)
    requires ObjectTypeOf(t) == ORDER && OrderRule(t).Some? && OrderRule(t).value.activate == {}
    ensures ApplyOrderStatusChange(rs, t, now) == Success(Deactivate(rs, OrderRule(t).value.deactivate, now))
  {
    assert OrderActivationOrder(OrderRule(t).value) == [];
  }

  /** An order cancel leaves the order cancelled and every other status as active or inactive as
      it was. */
  lemma CancelOrderMarks(rs: seq<OrderRecord>, now: Instant)
    ensures IsActiveIn(ApplyOrderStatusChange(rs, CANCEL_ORDER, now).value, E_CNCL)
    ensures forall s :: s != E_CNCL ==>
              (IsActiveIn(ApplyOrderStatusChange(rs, CANCEL_ORDER, now).value, s) <==> IsActiveIn(rs, s))
  {
    CancelAndCreditBlockRules();
    var rule := OrderRule(CANCEL_ORDER).value;
    var out := ApplyOrderStatusChange(rs, CANCEL_ORDER, now).value;
    assert Realises(rs, rule, out);
    assert E_CNCL in rule.activate;
    forall s | s != E_CNCL ensures IsActiveIn(out, s) <==> IsActiveIn(rs, s) {
      UntouchedKeepsState(rs, rule, out, s);
    }
  }

  /** Cancelling the invoice switches the invoice off and leaves every other status as active or
      inactive as it was. */
  lemma InvoiceCancelKeeps(rs: seq<OrderRecord>, now: Instant)
    ensures !IsActiveIn(ApplyOrderStatusChange(rs, CANCEL_INVOICE, now).value, I_INV)
    ensures forall s :: s != I_INV ==>
              (IsActiveIn(ApplyOrderStatusChange(rs, CANCEL_INVOICE, now).value, s) <==> IsActiveIn(rs, s))
  {
    InvoiceRules();
    OrderChangeOnlyDeactivates(rs, CANCEL_INVOICE, now);
    DeactivateKeepsOthers(rs, {I_INV}, now);
  }

  /** The status a restart moves the order away from. */
  function RestartSource(restart: SalesTransaction): (s: OrderStatusId)
    requires restart == RESTART_ORDER || restart == RESTART_DISPUTED_ORDER
    ensures OrderRule(restart) == Some(StatusRule({I_CRTD}, {s}))
  {
    LifecycleMoves();
    DisputeRules();
    if restart == RESTART_ORDER then I_WAIT else E_DISP
  }

  /** A restart puts the order back to created, takes it out of the status it restarts from, and
      leaves every other status as active or inactive as it was. */
  lemma RestartMoves(rs: seq<OrderRecord>, restart: SalesTransaction, now: Instant)
    requires restart == RESTART_ORDER || restart == RESTART_DISPUTED_ORDER
    ensures var out := ApplyOrderStatusChange(rs, restart, now).value;
      && IsActiveIn(out, I_CRTD)
      && !IsActiveIn(out, RestartSource(restart))
      && forall s :: s != I_CRTD && s != RestartSource(restart) ==> (IsActiveIn(out, s) <==> IsActiveIn(rs, s))
  {
    var left := RestartSource(restart);
    var rule := StatusRule({I_CRTD}, {left});
    var out := ApplyOrderStatusChange(rs, restart, now).value;
    assert Realises(rs, rule, out);
    MoveEffect(rs, rule, out, I_CRTD, left);
    forall s | s != I_CRTD && s != left ensures IsActiveIn(out, s) <==> IsActiveIn(rs, s) {
      UntouchedKeepsState(rs, rule, out, s);
    }
  }

  // ----- creation seeding -----

  datatype OrderCreationFlags = OrderCreationFlags(approvalRequired: bool, creditBlock: bool, fraudHold: bool)

  /** Whether status `s` is part of a new order's initial statuses under `flags`. */
  predicate SeededFor(flags: OrderCreationFlags, s: OrderStatusId) {
    || s == I_CRTD
    || (s == E_AWT_APPV && flags.approvalRequired)
    || ((s == I_DLKD || s == I_BLKD) && (flags.creditBlock || flags.fraudHold))
    || (s == E_FRD_HOLD && flags.fraudHold)
    || (s == E_CRED_BLK && flags.creditBlock)
  }

  /** The position of a status in the seeding order of a new order; statuses never seeded share
      the last rank. */
  function SeedRank(s: OrderStatusId): nat {
    match s
    case I_CRTD => 0
    case E_AWT_APPV => 1
    case I_DLKD => 2
    case I_BLKD => 3
    case E_FRD_HOLD => 4
    case E_CRED_BLK => 5
    case _ => 6
  }

  /** The initial header statuses of a new order, all active: created always; awaiting approval
      if approval is required; delivery and billing blocked (once) if a credit block or a fraud
      hold is requested; then the fraud hold and the credit block themselves. */
  function OrderCreationStatuses(flags: OrderCreationFlags, now: Instant): (r: seq<OrderRecord>)
    ensures |r| > 0 && r[0].id == I_CRTD
    ensures forall i :: 0 <= i < |r| ==> r[i].active && r[i].updatedAt == now
    ensures UniqueIds(r)
    ensures forall i, j :: 0 <= i < j < |r| ==> SeedRank(r[i].id) < SeedRank(r[j].id)
    ensures forall s :: HasId(r, s) <==> SeededFor(flags, s)
  {
    var created := [StatusRecord(I_CRTD, true, now)];
    var approval := if flags.approvalRequired then [StatusRecord(E_AWT_APPV, true, now)] else [];
    var blocked := if flags.creditBlock || flags.fraudHold
                   then [StatusRecord(I_DLKD, true, now), StatusRecord(I_BLKD, true, now)] else [];
    var fraud := if flags.fraudHold then [StatusRecord(E_FRD_HOLD, true, now)] else [];
    var credit := if flags.creditBlock then [StatusRecord(E_CRED_BLK, true, now)] else [];
    var r := created + approval + blocked + fraud + credit;
    SeedIds(flags, created, approval, blocked, fraud, credit, now);
    r
  }

  lemma HasIdAppend<S>(a: seq<StatusRecord<S>>, b: seq<StatusRecord<S>>, s: S)
    ensures HasId(a + b, s) <==> HasId(a, s) || HasId(b, s)
  {
    if HasId(a + b, s) {
      var i :| 0 <= i < |a + b| && (a + b)[i].id == s;
      if i < |a| { assert a[i].id == s; } else { assert b[i - |a|].id == s; }
    }
    if HasId(a, s) { var i :| 0 <= i < |a| && a[i].id == s; assert (a + b)[i].id == s; }
    if HasId(b, s) { var i :| 0 <= i < |b| && b[i].id == s; assert (a + b)[|a| + i].id == s; }
  }

  lemma SeedIds(flags: OrderCreationFlags, created: seq<OrderRecord>, approval: seq<OrderRecord>,
                blocked: seq<OrderRecord>, fraud: seq<OrderRecord>, credit: seq<OrderRecord>, now: Instant)
    requires created == [StatusRecord(I_CRTD, true, now)]
    requires approval == if flags.approvalRequired then [StatusRecord(E_AWT_APPV, true, now)] else []
    requires blocked == if flags.creditBlock || flags.fraudHold
                        then [StatusRecord(I_DLKD, true, now), StatusRecord(I_BLKD, true, now)] else []
    requires fraud == if flags.fraudHold then [StatusRecord(E_FRD_HOLD, true, now)] else []
    requires credit == if flags.creditBlock then [StatusRecord(E_CRED_BLK, true, now)] else []
    ensures var r := created + approval + blocked + fraud + credit;
      && UniqueIds(r)
      && (forall i, j :: 0 <= i < j < |r| ==> SeedRank(r[i].id) < SeedRank(r[j].id))
      && forall s :: HasId(r, s) <==> SeededFor(flags, s)
  {
    var r := created + approval + blocked + fraud + credit;
    SeedUnique(flags, created + approval, blocked, fraud, credit, now);
    forall s ensures HasId(r, s) <==> SeededFor(flags, s)
    {
      HasIdAppend(created + approval + blocked + fraud, credit, s);
      HasIdAppend(created + approval + blocked, fraud, s);
      HasIdAppend(created + approval, blocked, s);
      HasIdAppend(created, approval, s);
      assert created[0].id == I_CRTD;
      if |blocked| == 2 { assert blocked[0].id == I_DLKD && blocked[1].id == I_BLKD; }
      if |approval| == 1 { assert approval[0].id == E_AWT_APPV; }
      if |fraud| == 1 { assert fraud[0].id == E_FRD_HOLD; }
      if |credit| == 1 { assert credit[0].id == E_CRED_BLK; }
    }
  }

  /** The seeded statuses come in seeding order, so they are pairwise different. */
  lemma SeedUnique(flags: OrderCreationFlags, head: seq<OrderRecord>,
                   blocked: seq<OrderRecord>, fraud: seq<OrderRecord>, credit: seq<OrderRecord>, now: Instant)
    requires head == [StatusRecord(I_CRTD, true, now)]
                     + (if flags.approvalRequired then [StatusRecord(E_AWT_APPV, true, now)] else [])
    requires blocked == if flags.creditBlock || flags.fraudHold
                        then [StatusRecord(I_DLKD, true, now), StatusRecord(I_BLKD, true, now)] else []
    requires fraud == if flags.fraudHold then [StatusRecord(E_FRD_HOLD, true, now)] else []
    requires credit == if flags.creditBlock then [StatusRecord(E_CRED_BLK, true, now)] else []
    ensures forall i, j :: 0 <= i < j < |head + blocked + fraud + credit| ==>
              SeedRank((head + blocked + fraud + credit)[i].id) < SeedRank((head + blocked + fraud + credit)[j].id)
    ensures UniqueIds(head + blocked + fraud + credit)
  {
    var r := head + blocked + fraud + credit;
    forall i, j | 0 <= i < j < |r| ensures SeedRank(r[i].id) < SeedRank(r[j].id) {
      var a, b := |head|, |head| + |blocked|;
      var c := b + |fraud|;
      if i < a {
        if j < a { assert i == 0 && j == 1; }
        else if j < b { assert r[j] == blocked[j - a]; }
        else if j < c { assert r[j] == fraud[j - b]; }
        else { assert r[j] == credit[j - c]; }
      } else if i < b {
        assert r[i] == blocked[i - a];
        if j < b { assert r[j] == blocked[j - a]; }
        else if j < c { assert r[j] == fraud[j - b]; }
        else { assert r[j] == credit[j - c]; }
      } else if i < c {
        assert r[i] == fraud[i - b] && r[j] == credit[j - c];
      }
    }
  }

  /** A credit block alone seeds exactly created, delivery blocked, billing blocked and credit block. */
  lemma CreditOnlySeed(now: Instant)
    ensures var r := OrderCreationStatuses(OrderCreationFlags(false, true, false), now);
      && |r| == 4
      && (set x | x in r :: x.id) == {I_CRTD, I_DLKD, I_BLKD, E_CRED_BLK}
  {
    var r := OrderCreationStatuses(OrderCreationFlags(false, true, false), now);
    assert r == [StatusRecord(I_CRTD, true, now), StatusRecord(I_DLKD, true, now),
                 StatusRecord(I_BLKD, true, now), StatusRecord(E_CRED_BLK, true, now)];
  }
}
