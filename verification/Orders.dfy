/**
  Values shared by every part of the engine: machine integers, orders, commands, fills
  and the errors that the matching path can report.
 */
module Orders {
  const U64_MOD: int := 0x1_0000_0000_0000_0000
  const NULL: u32 := 0xFFFF_FFFF

  type byte = x: int | 0 <= x < 0x100
  type u32 = x: int | 0 <= x < 0x1_0000_0000
  type u64 = x: int | 0 <= x < 0x1_0000_0000_0000_0000
  type i64 = x: int | -0x8000_0000_0000_0000 <= x < 0x8000_0000_0000_0000

  datatype Option<+T> = None | Some(value: T)

  datatype Result<+T, +E> = Success(value: T) | Failure(error: E)

  datatype Side = Bid | Ask {
    function Opposite(): Side { if Bid? then Ask else Bid }
  }

  datatype Order = Order(
    id: u64, traderId: u64, side: Side, price: i64, quantity: u64, timestamp: u64)

  datatype Command = NewOrder(order: Order) | CancelOrder(orderId: u64)

  datatype Fill = Fill(
    takerOrderId: u64, makerOrderId: u64, price: i64, quantity: u64, makerFullyFilled: bool)

  datatype OrderStatus = FullyFilled | PartiallyFilled | Resting | CancelledSelfTrade

  datatype AddOrderResult = AddOrderResult(orderId: u64, status: OrderStatus, fills: seq<Fill>)

  datatype BookError =
    | DuplicateOrderId(id: u64)
    | OrderNotFound(id: u64)
    | PriceLevelNotFound(price: i64)
    | FillExceedsQuantity(available: u64, requested: u64)
    | ArenaFull

  datatype MatchingError = BookFailure(error: BookError) | ZeroQuantity

  /** What one engine call hands back to its caller. */
  datatype Output =
    | Added(added: Result<AddOrderResult, MatchingError>)
    | Cancelled(cancelled: Result<Order, MatchingError>)

  function Min(a: u64, b: u64): u64 { if a <= b then a else b }

  /** A price that trades before another one on the given side. */
  predicate Better(side: Side, p: int, q: int) {
    if side.Bid? then p > q else p < q
  }

  function TotalQuantity(orders: seq<Order>): nat {
    if orders == [] then 0 else orders[0].quantity + TotalQuantity(orders[1..])
  }

  predicate HoldsId(orders: seq<Order>, id: u64) {
    exists i :: 0 <= i < |orders| && orders[i].id == id
  }

  predicate DistinctIds(orders: seq<Order>) {
    forall i, j :: 0 <= i < j < |orders| ==> orders[i].id != orders[j].id
  }
}
