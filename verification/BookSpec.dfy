/**
  The book as a reader of the exchange rules would describe it: each side is one sequence
  of orders in price-time priority. Matching walks the opposite sequence from the front;
  resting is a stable insertion; a cancel deletes one element.

  The arena, the linked lists, the price maps and the cached best prices of src/book.rs
  and src/arena.rs are proved to agree with this (modules OrderBooks and Engines).
 */
module BookSpec {
  import opened Orders

  datatype Book = Book(bids: seq<Order>, asks: seq<Order>, capacity: nat) {
    function On(side: Side): seq<Order> { if side.Bid? then bids else asks }

    function With(side: Side, orders: seq<Order>): Book {
      if side.Bid? then this.(bids := orders) else this.(asks := orders)
    }

    function Count(): nat { |bids| + |asks| }

    predicate Contains(id: u64) { HoldsId(bids, id) || HoldsId(asks, id) }
  }

  function EmptyBook(capacity: nat): Book { Book([], [], capacity) }

  // ----- Insertion and cancellation

  /** Behind every order whose price is at least as good: price first, then arrival. */
  function InsertSorted(orders: seq<Order>, o: Order): seq<Order> {
    if orders == [] || Better(o.side, o.price, orders[0].price) then [o] + orders
    else [orders[0]] + InsertSorted(orders[1..], o)
  }

  function Insert(b: Book, o: Order): Result<Book, BookError> {
    if b.Contains(o.id) then Failure(DuplicateOrderId(o.id))
    else if b.Count() >= b.capacity then Failure(ArenaFull)
    else Success(b.With(o.side, InsertSorted(b.On(o.side), o)))
  }

  function IndexOf(orders: seq<Order>, id: u64): (i: nat)
    ensures i <= |orders|
    ensures i < |orders| <==> HoldsId(orders, id)
    ensures i < |orders| ==> orders[i].id == id
    ensures forall k :: 0 <= k < i ==> orders[k].id != id
  {
    if orders == [] then 0
    else if orders[0].id == id then assert HoldsId(orders, id); 0
    else
      var i := IndexOf(orders[1..], id);
      assert i < |orders[1..]| ==> orders[i + 1].id == id;
      assert HoldsId(orders, id) ==> HoldsId(orders[1..], id) by {
        if HoldsId(orders, id) {
          var k :| 0 <= k < |orders| && orders[k].id == id;
          assert orders[1..][k - 1].id == id;
        }
      }
      i + 1
  }

  function RemoveAt(orders: seq<Order>, i: nat): seq<Order>
    requires i < |orders|
  {
    orders[..i] + orders[i + 1..]
  }

  function Cancel(b: Book, id: u64): (Book, Result<Order, BookError>) {
    var i := IndexOf(b.bids, id);
    if i < |b.bids| then (b.(bids := RemoveAt(b.bids, i)), Success(b.bids[i]))
    else
      var j := IndexOf(b.asks, id);
      if j < |b.asks| then (b.(asks := RemoveAt(b.asks, j)), Success(b.asks[j]))
      else (b, Failure(OrderNotFound(id)))
  }

  // ----- Matching

  predicate Crosses(taker: Order, price: int) {
    !Better(taker.side, price, taker.price)
  }

  datatype MatchResult = MatchResult(fills: seq<Fill>, rest: seq<Order>, left: u64, selfTrade: bool)

  function FillOf(taker: Order, maker: Order): Fill {
    var q := Min(taker.quantity, maker.quantity);
    Fill(taker.id, maker.id, maker.price, q, maker.quantity == q)
  }

  /** `makers` is the opposite side in priority order. */
  function Match(makers: seq<Order>, taker: Order): MatchResult {
    if taker.quantity == 0 || makers == [] || !Crosses(taker, makers[0].price) then
      MatchResult([], makers, taker.quantity, false)
    else if makers[0].traderId == taker.traderId then
      MatchResult([], makers, taker.quantity, true)
    else
      var f := FillOf(taker, makers[0]);
      var taker' := taker.(quantity := taker.quantity - f.quantity);
      if f.makerFullyFilled then
        var r := Match(makers[1..], taker');
        r.(fills := [f] + r.fills)
      else
        MatchResult([f], [makers[0].(quantity := makers[0].quantity - f.quantity)] + makers[1..],
                    taker'.quantity, false)
  }

  function AddOrder(b: Book, o: Order): (Book, Result<AddOrderResult, MatchingError>) {
    if o.quantity == 0 then (b, Failure(ZeroQuantity))
    else
      var m := Match(b.On(o.side.Opposite()), o);
      var matched := b.With(o.side.Opposite(), m.rest);
      if m.selfTrade then
        (matched, Success(AddOrderResult(o.id, CancelledSelfTrade, m.fills)))
      else if m.left == 0 then
        (matched, Success(AddOrderResult(o.id, FullyFilled, m.fills)))
      else
        match Insert(matched, o.(quantity := m.left))
        case Failure(e) => (matched, Failure(BookFailure(e)))
        case Success(rested) =>
          var status := if m.fills == [] then Resting else PartiallyFilled;
          (rested, Success(AddOrderResult(o.id, status, m.fills)))
  }

  // ----- Command sequences

  function Step(b: Book, cmd: Command): (Book, Output) {
    match cmd
    case NewOrder(o) =>
      var (b', r) := AddOrder(b, o);
      (b', Added(r))
    case CancelOrder(id) =>
      var (b', r) := Cancel(b, id);
      (b', Cancelled(match r case Success(o) => Success(o) case Failure(e) => Failure(BookFailure(e))))
  }

  function Replay(b: Book, cmds: seq<Command>): Book
    decreases |cmds|
  {
    if cmds == [] then b else Replay(Step(b, cmds[0]).0, cmds[1..])
  }

  function Outputs(b: Book, cmds: seq<Command>): seq<Output>
    decreases |cmds|
  {
    if cmds == [] then [] else
    var (b', out) := Step(b, cmds[0]);
    [out] + Outputs(b', cmds[1..])
  }

  // ----- Snapshots

  /** The canonical listing: asks best price first, then bids best price first. */
  function AllResting(b: Book): seq<Order> { b.asks + b.bids }

  /** Direct insertion without matching; the first refusal ends it. */
  function InsertAll(b: Book, orders: seq<Order>): Result<Book, BookError>
    decreases |orders|
  {
    if orders == [] then Success(b)
    else match Insert(b, orders[0])
      case Failure(e) => Failure(e)
      case Success(b') => InsertAll(b', orders[1..])
  }

  function Restore(orders: seq<Order>, capacity: nat): Result<Book, BookError> {
    InsertAll(EmptyBook(capacity), orders)
  }

  // ----- What every reachable book satisfies

  predicate PrioritySorted(side: Side, orders: seq<Order>) {
    forall i, j :: 0 <= i < j < |orders| ==> !Better(side, orders[j].price, orders[i].price)
  }

  predicate OnSide(side: Side, orders: seq<Order>) {
    forall i :: 0 <= i < |orders| ==> orders[i].side == side
  }

  predicate Positive(orders: seq<Order>) {
    forall i :: 0 <= i < |orders| ==> orders[i].quantity > 0
  }

  predicate DisjointIds(a: seq<Order>, b: seq<Order>) {
    forall i, j :: 0 <= i < |a| && 0 <= j < |b| ==> a[i].id != b[j].id
  }

  /** One side: sorted by price then arrival, every order on its side, ids distinct. */
  predicate WellFormedSide(side: Side, orders: seq<Order>) {
    PrioritySorted(side, orders) && OnSide(side, orders) && DistinctIds(orders)
  }

  predicate WellFormed(b: Book) {
    && WellFormedSide(Bid, b.bids)
    && WellFormedSide(Ask, b.asks)
    && DisjointIds(b.bids, b.asks)
    && b.Count() <= b.capacity
  }

  predicate Uncrossed(b: Book) {
    b.bids != [] && b.asks != [] ==> b.bids[0].price < b.asks[0].price
  }

  predicate Inv(b: Book) {
    WellFormed(b) && Uncrossed(b) && Positive(b.bids) && Positive(b.asks)
  }
}
