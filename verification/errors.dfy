/** The three business-facing failure kinds an operation can end in. */
module Errors {
  import opened StatusIds

  /** The status that blocked a transaction, on the header or on an item. */
  datatype BlockingStatus = HeaderStatus(order: OrderStatusId) | ItemStatus(item: ItemStatusId)

  /** NotFound: referenced items absent or not matching the request.
      InvalidArgument: a transaction used on the wrong aggregate kind or through the wrong entry
      point, or a business rule on the order's flags.
      Conflict: an active status forbids the transaction. */
  datatype Error = NotFound | InvalidArgument | Conflict(blockedBy: BlockingStatus)
}
