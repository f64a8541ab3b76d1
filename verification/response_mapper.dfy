/** The response projection: each order and item is shown with its id and a map from its active
    status ids to the time the record was last updated. */
module ResponseMapper {
  import opened Wrappers
  import opened StatusIds
  import opened Transactions
  import opened StatusRules
  import opened StatusEngine
  import opened StatusChangeTable
  import opened StatusManagement
  import opened Aggregate

  /** Position `i` holds the first active record of status `s`. */
  ghost predicate IsFirstActive<S>(rs: seq<StatusRecord<S>>, s: S, i: int) {
    && 0 <= i < |rs| && rs[i].id == s && rs[i].active
    && forall j :: 0 <= j < i ==> !(rs[j].id == s && rs[j].active)
  }

  /** Fold the active records into `acc`, left to right; a status already present keeps the
      timestamp it has, so on duplicates the earlier record wins. */
  function CollectActive<S(==,!new)>(rs: seq<StatusRecord<S>>, acc: map<S, Instant>): (m: map<S, Instant>)
    ensures forall s :: s in m <==> s in acc || IsActiveIn(rs, s)
    ensures forall s :: s in acc ==> m[s] == acc[s]
    ensures forall s :: s in m && s !in acc ==> exists i :: IsFirstActive(rs, s, i) && m[s] == rs[i].updatedAt
  {
    if |rs| == 0 then acc
    else
      var r := rs[0];
      var next := if r.active && r.id !in acc then acc[r.id := r.updatedAt] else acc;
      var m := CollectActive(rs[1..], next);
      ActiveInTail(rs);
      assert forall s :: s in m && s !in acc ==> exists i :: IsFirstActive(rs, s, i) && m[s] == rs[i].updatedAt by {
        forall s | s in m && s !in acc ensures exists i :: IsFirstActive(rs, s, i) && m[s] == rs[i].updatedAt {
          if s == r.id && r.active {
            assert IsFirstActive(rs, s, 0);
          } else {
            var i :| IsFirstActive(rs[1..], s, i) && m[s] == rs[1..][i].updatedAt;
            FirstActiveShift(rs, s, i);
          }
        }
      }
      m
  }

  /** A status is active in a non-empty list when the head holds it active or the tail does. */
  lemma ActiveInTail<S>(rs: seq<StatusRecord<S>>)
    requires |rs| > 0
    ensures forall s :: IsActiveIn(rs, s) <==> (rs[0].id == s && rs[0].active) || IsActiveIn(rs[1..], s)
  {
    forall s ensures IsActiveIn(rs, s) <==> (rs[0].id == s && rs[0].active) || IsActiveIn(rs[1..], s) {
      if IsActiveIn(rs, s) {
        var i :| 0 <= i < |rs| && rs[i].id == s && rs[i].active;
        if i > 0 { assert rs[1..][i - 1] == rs[i]; }
      }
      if IsActiveIn(rs[1..], s) {
        var i :| 0 <= i < |rs[1..]| && rs[1..][i].id == s && rs[1..][i].active;
        assert rs[i + 1] == rs[1..][i];
      }
    }
  }

  /** The first active record of the tail is the first of the list when the head does not hold
      that status active. */
  lemma FirstActiveShift<S>(rs: seq<StatusRecord<S>>, s: S, i: int)
    requires |rs| > 0 && IsFirstActive(rs[1..], s, i) && !(rs[0].id == s && rs[0].active)
    ensures IsFirstActive(rs, s, i + 1) && rs[i + 1] == rs[1..][i]
  {
    forall j | 0 <= j < i + 1 ensures !(rs[j].id == s && rs[j].active) {
      if j > 0 { assert rs[j] == rs[1..][j - 1]; }
    }
  }

  /** The active-status map of a record list. */
  function ActiveStatusMap<S(==,!new)>(rs: seq<StatusRecord<S>>): (m: map<S, Instant>)
    ensures forall s :: s in m <==> IsActiveIn(rs, s)
    ensures forall s :: s in m ==> exists i :: IsFirstActive(rs, s, i) && m[s] == rs[i].updatedAt
  {
    CollectActive(rs, map[])
  }

  datatype ItemView = ItemView(id: ItemId, activeStatuses: map<ItemStatusId, Instant>)

  datatype OrderView = OrderView(id: OrderId, activeStatuses: map<OrderStatusId, Instant>, items: seq<ItemView>)

  /** The view of an item: its id, and its active statuses each with the timestamp of its first
      active record. */
  function ToItemView(item: Item): (v: ItemView)
    ensures v.id == item.id
    ensures forall s :: s in v.activeStatuses <==> IsActiveIn(item.statuses, s)
    ensures forall s :: s in v.activeStatuses ==>
              exists i :: IsFirstActive(item.statuses, s, i) && v.activeStatuses[s] == item.statuses[i].updatedAt
  {
    ItemView(item.id, ActiveStatusMap(item.statuses))
  }

  /** The view of an order: its id, its active statuses each with the timestamp of its first active
      record, and its items' views, one per item, in order. */
  function ToOrderView(order: Order): (v: OrderView)
    ensures v.id == order.id
    ensures forall s :: s in v.activeStatuses <==> IsActiveIn(order.statuses, s)
    ensures forall s :: s in v.activeStatuses ==>
              exists i :: IsFirstActive(order.statuses, s, i) && v.activeStatuses[s] == order.statuses[i].updatedAt
    ensures |v.items| == |order.items|
    ensures forall k :: 0 <= k < |order.items| ==> v.items[k] == ToItemView(order.items[k])
    ensures forall k :: 0 <= k < |order.items| ==>
              && v.items[k].id == order.items[k].id
              && (forall s :: s in v.items[k].activeStatuses <==> IsActiveIn(order.items[k].statuses, s))
              && forall s :: s in v.items[k].activeStatuses ==>
                   exists i :: IsFirstActive(order.items[k].statuses, s, i)
                               && v.items[k].activeStatuses[s] == order.items[k].statuses[i].updatedAt
  {
    OrderView(order.id, ActiveStatusMap(order.statuses),
              seq(|order.items|, k requires 0 <= k < |order.items| => ToItemView(order.items[k])))
  }

  // ----- properties of the projection -----

  /** When each status has at most one record, every active record appears with its own timestamp. */
  lemma UniqueRecordsShowTheirTimestamp<S(!new)>(rs: seq<StatusRecord<S>>)
    requires UniqueIds(rs)
    ensures forall i :: 0 <= i < |rs| && rs[i].active ==>
              rs[i].id in ActiveStatusMap(rs) && ActiveStatusMap(rs)[rs[i].id] == rs[i].updatedAt
  {
    var m := ActiveStatusMap(rs);
    forall i | 0 <= i < |rs| && rs[i].active
      ensures rs[i].id in m && m[rs[i].id] == rs[i].updatedAt
    {
      assert IsActiveIn(rs, rs[i].id);
      var j :| IsFirstActive(rs, rs[i].id, j) && m[rs[i].id] == rs[j].updatedAt;
      assert j == i;
    }
  }

  /** Two active records of one status: the first one's timestamp is shown. */
  lemma DuplicateKeepsFirst<S(!new)>(s: S, first: Instant, second: Instant)
    ensures ActiveStatusMap([StatusRecord(s, true, first), StatusRecord(s, true, second)]) == map[s := first]
  {
    var rs := [StatusRecord(s, true, first), StatusRecord(s, true, second)];
    var m := ActiveStatusMap(rs);
    assert IsActiveIn(rs, s);
    var i :| IsFirstActive(rs, s, i) && m[s] == rs[i].updatedAt;
    assert i == 0;
    assert m.Keys == {s};
  }

  /** After an order transaction, the view shows every status the rule switches on and none it
      only switches off. */
  lemma ViewAfterOrderTransaction(rs: seq<OrderRecord>, t: SalesTransaction, now: Instant)
    requires ApplyOrderStatusChange(rs, t, now).Success? && OrderRule(t).Some?
    ensures var m := ActiveStatusMap(ApplyOrderStatusChange(rs, t, now).value);
      var rule := OrderRule(t).value;
      && (forall a :: a in rule.activate ==> a in m)
      && (forall d :: d in rule.deactivate && d !in rule.activate ==> d !in m)
  {
    var out := ApplyOrderStatusChange(rs, t, now).value;
    var rule := OrderRule(t).value;
    assert Realises(rs, rule, out);
    forall d | d in rule.deactivate && d !in rule.activate ensures !IsActiveIn(out, d) {
      forall i | 0 <= i < |out| && out[i].id == d ensures !out[i].active {
      }
    }
  }
}
