/** The sales-order aggregate as an immutable value: the order header, its status history and its
    line items, each with its own status history and optional backorder record. */
module Aggregate {
  import opened Wrappers
  import opened StatusIds
  import opened StatusRules
  import opened StatusEngine
  import opened Errors
  import opened StatusManagement

  /** Order and item identities; the repository's UUIDs are abstracted to naturals. */
  type OrderId = nat
  type ItemId = nat

  /** The backorder record attached to an item; `quantity` is the requested backorder quantity. */
  datatype BackOrderedItem = BackOrderedItem(quantity: int)

  datatype Item = Item(id: ItemId, statuses: seq<ItemRecord>, backorder: Option<BackOrderedItem>)

  /** The delivery-speed enum is not part of this model; its constant is carried by name. */
  datatype DeliverySpeed = DeliverySpeed(name: string)

  /** The shipping address is a payload the status logic never inspects. */
  datatype ShipmentAddress = ShipmentAddress(fields: seq<string>)

  datatype RecurrentOrderDetails = RecurrentOrderDetails(installments: int, gapInDays: int, requestedOffsetInDays: int)

  datatype Order = Order(
    id: OrderId,
    recurrent: bool,
    inTransit: bool,
    deliverySpeed: DeliverySpeed,
    address: ShipmentAddress,
    recurrence: Option<RecurrentOrderDetails>,
    statuses: seq<OrderRecord>,
    items: seq<Item>)

  /** The item ids of a list of items, in order. */
  function IdsOf(items: seq<Item>): (r: seq<ItemId>)
    ensures |r| == |items|
    ensures forall k :: 0 <= k < |items| ==> r[k] == items[k].id
    ensures forall k :: 0 <= k < |items| ==> items[k].id in r
  {
    if |items| == 0 then [] else [items[0].id] + IdsOf(items[1..])
  }

  /** Item ids are primary keys: no two items of an order share one. */
  predicate UniqueItemIds(items: seq<Item>) {
    forall j, k :: 0 <= j < k < |items| ==> items[j].id != items[k].id
  }

  /** An item counts as cancelled while a customer or system cancel status is active on it. */
  predicate IsCancelled(item: Item) {
    IsActiveIn(item.statuses, E_CNCL_CUST) || IsActiveIn(item.statuses, E_CNCL_SYS)
  }

  /** True when no item of the order remains uncancelled. */
  predicate AllCancelled(items: seq<Item>) {
    forall k :: 0 <= k < |items| ==> IsCancelled(items[k])
  }
}
