/**
  The matching engine of src/matching.rs. Its methods run on the linked, indexed and cached
  book and are proved to return exactly what the flat specification returns.
 */
module Engines {
  import opened Orders
  import opened Levels
  import opened OrderBooks
  import BookSpec
  import BookTheorems

  ghost function ViewOf(bids: Queues, asks: Queues, capacity: nat): BookSpec.Book {
    BookSpec.Book(Flatten(Bid, bids), Flatten(Ask, asks), capacity)
  }

  lemma ViewAppended(bids: Queues, asks: Queues, o: Order, bids': Queues, asks': Queues, capacity: nat)
    requires WfQueues(o.side, if o.side.Bid? then bids else asks)
    requires if o.side.Bid? then bids' == AppendTo(bids, o) && asks' == asks
                            else bids' == bids && asks' == AppendTo(asks, o)
    ensures var b := ViewOf(bids, asks, capacity);
      ViewOf(bids', asks', capacity) == b.With(o.side, BookSpec.InsertSorted(b.On(o.side), o))
  {
    AppendFlattens(if o.side.Bid? then bids else asks, o);
  }

  class MatchingEngine {
    const book: OrderBook

    ghost predicate Valid()
      reads book, book.arena, book.arena.storage
    {
      book.Valid()
    }

    ghost function View(): BookSpec.Book
      reads book
    {
      book.View()
    }

    constructor (capacity: u32)
      ensures Valid() && fresh(book) && fresh(book.arena) && fresh(book.arena.storage)
      ensures View() == BookSpec.EmptyBook(capacity)
    {
      book := new OrderBook(capacity);
    }

    /** The best opposite price and its oldest order are the head of the opposite side. */
    method BestMaker(side: Side) returns (r: Option<Order>)
      requires Valid()
      ensures r == if View().On(side) == [] then None else Some(View().On(side)[0])
      ensures r.Some? ==> book.BestOn(side) == Some(r.value.price) && r.value.price in book.QueuesOn(side)
      ensures r.Some? ==> book.QueuesOn(side).Keys != {} && BestKey(side, book.QueuesOn(side).Keys) == r.value.price
      ensures r.Some? ==> WfQueues(side, book.QueuesOn(side)) && book.QueuesOn(side)[r.value.price][0] == r.value
    {
      book.SideShape(side);
      FlattenHead(side, book.QueuesOn(side), book.QueuesOn(side).Keys);
      var best := book.BestOn(side);
      if best.None? {
        return None;
      }
      r := book.PeekFront(side, best.value);
      assert r.Some?;  // the best level exists and is not empty
    }

    /** The cached best price is the price at the head of the side. */
    lemma CachedBest(side: Side)
      requires Valid()
      ensures book.BestOn(side) == if View().On(side) == [] then None else Some(View().On(side)[0].price)
    {
      book.SideShape(side);
      FlattenHead(side, book.QueuesOn(side), book.QueuesOn(side).Keys);
    }

    /** Fills the best maker; the book errors of this call are unreachable here. */
    method FillBest(side: Side, fill: u64) returns (remaining: u64)
      requires Valid() && View().On(side) != [] && fill <= View().On(side)[0].quantity
      modifies book, book.arena, book.arena.storage
      ensures Valid()
      ensures View() == old(View()).With(side, TakeFrom(old(View()).On(side), fill))
      ensures remaining == old(View()).On(side)[0].quantity - fill
    {
      book.SideShape(side);
      FlattenHead(side, book.QueuesOn(side), book.QueuesOn(side).Keys);
      TakeFlattens(side, book.QueuesOn(side), fill);
      var r := book.ReduceFrontQuantity(side, book.BestOn(side).value, fill);
      assert r.Success?;
      remaining := r.value;
    }

    /** Rests an order; refused exactly as the specification refuses it. */
    method Rest(order: Order) returns (r: Result<(), BookError>)
      requires Valid()
      modifies book, book.arena, book.arena.storage
      ensures Valid()
      ensures match BookSpec.Insert(old(View()), order)
        case Failure(e) => r == Failure(e) && View() == old(View())
        case Success(b) => r == Success(()) && View() == b
    {
      ghost var bids, asks := book.bidQueues, book.askQueues;
      book.ViewCounts(order.id);
      book.SideShape(order.side);
      r := book.InsertOrder(order);
      if r.Success? {
        ViewAppended(bids, asks, order, book.bidQueues, book.askQueues, book.arena.capacity);
      }
    }

    /**
      The matching loop. The source writes it twice, once per side, with the sides and the
      price comparison mirrored; here the taker's side selects them.
     */
    method MatchLoop(order: Order) returns (fills: seq<Fill>, left: u64, selfTrade: bool)
      requires Valid()
      modifies book, book.arena, book.arena.storage
      ensures Valid()
      ensures Matched(old(View()), View(), order,
                      BookSpec.MatchResult(fills, View().On(order.side.Opposite()), left, selfTrade))
    {
      fills, left, selfTrade := [], order.quantity, false;
      ghost var b0 := View();
      LoopStarts(b0, order);
      while left > 0
        invariant Valid() && !selfTrade
        invariant Looping(b0, View(), order, left, fills)
        decreases |View().On(order.side.Opposite())|, left
      {
        var f, own := Advance(b0, order, left, fills);
        if f.None? {
          return fills, left, own;
        }
        fills, left := fills + [f.value], left - f.value.quantity;
      }
      LoopEnds(b0, View(), order, fills);
    }

    /** One turn, and what it means for the loop. */
    method Advance(ghost b0: BookSpec.Book, order: Order, left: u64, ghost fills: seq<Fill>)
      returns (f: Option<Fill>, own: bool)
      requires Valid() && left > 0 && Looping(b0, View(), order, left, fills)
      modifies book, book.arena, book.arena.storage
      ensures Valid()
      ensures f.None? ==>
        Matched(b0, View(), order, BookSpec.MatchResult(fills, View().On(order.side.Opposite()), left, own))
      ensures f.Some? ==>
        && f.value.quantity <= left && Looping(b0, View(), order, left - f.value.quantity, fills + [f.value])
        && NearerEnd(old(View()), View(), order, left - f.value.quantity)
    {
      ghost var b := View();
      f, own := Turn(order.(quantity := left));
      LoopTurn(b0, b, View(), order, left, fills, f, own);
    }

    /** One turn of the loop: a fill against the best maker, or the reason there is none. */
    method Turn(taker: Order) returns (f: Option<Fill>, own: bool)
      requires Valid() && taker.quantity > 0
      modifies book, book.arena, book.arena.storage
      ensures Valid()
      ensures Turned(old(View()), taker, f, own, View())
    {
      var side := taker.side.Opposite();
      var maker := BestMaker(side);
      if maker.None? || !BookSpec.Crosses(taker, maker.value.price) {
        return None, false;
      }
      if maker.value.traderId == taker.traderId {
        return None, true;
      }
      var fill := Min(taker.quantity, maker.value.quantity);
      var remaining := FillBest(side, fill);
      f, own := Some(Fill(taker.id, maker.value.id, maker.value.price, fill, remaining == 0)), false;
    }

    /** Adds an order: match, then rest what is left. Same answer and same book as the specification. */
    method AddOrder(order: Order) returns (r: Result<AddOrderResult, MatchingError>)
      requires Valid()
      modifies book, book.arena, book.arena.storage
      ensures Valid()
      ensures (View(), r) == BookSpec.AddOrder(old(View()), order)
    {
      if order.quantity == 0 {
        return Failure(ZeroQuantity);
      }
      var fills, left, selfTrade := MatchLoop(order);
      if selfTrade {
        return Success(AddOrderResult(order.id, CancelledSelfTrade, fills));
      }
      if left == 0 {
        return Success(AddOrderResult(order.id, FullyFilled, fills));
      }
      var rested := Rest(order.(quantity := left));
      match rested
      case Failure(e) => r := Failure(BookFailure(e));
      case Success(_) =>
        r := Success(AddOrderResult(order.id, if fills == [] then Resting else PartiallyFilled, fills));
    }

    /** What cancelling in the view asks of the queues. */
    lemma CancelShape()
      requires Valid()
      ensures Removable(book.bidQueues, book.askQueues)
    {
      book.SideShape(Bid);
      book.SideShape(Ask);
      book.ViewApart();
    }

    method CancelOrder(id: u64) returns (r: Result<Order, MatchingError>)
      requires Valid()
      modifies book, book.arena, book.arena.storage
      ensures Valid()
      ensures BookTheorems.Cancels(old(View()), id, View(), r)
    {
      ghost var b, bids, asks := View(), book.bidQueues, book.askQueues;
      book.ViewCounts(id);
      book.ViewWellFormed();
      CancelShape();
      var c;
      ghost var k;
      c, k := book.CancelOrder(id);
      match c {
        case Failure(e) =>
          r := Failure(BookFailure(e));
          CancelMissing(b, id);
        case Success(o) =>
          r := Success(o);
          ViewRemoved(bids, asks, o, k, book.bidQueues, book.askQueues, book.arena.capacity);
      }
      BookTheorems.CancelCancels(b, id, View(), c);
    }

    /** One command, answered as the specification answers it. */
    method Apply(cmd: Command) returns (out: Output)
      requires Valid()
      modifies book, book.arena, book.arena.storage
      ensures Valid()
      ensures (View(), out) == BookSpec.Step(old(View()), cmd)
    {
      match cmd
      case NewOrder(o) =>
        var r := AddOrder(o);
        out := Added(r);
      case CancelOrder(id) =>
        ghost var b := View();
        book.ViewWellFormed();
        var r := CancelOrder(id);
        BookTheorems.CancelsIsStep(b, id, View(), r);
        out := Cancelled(r);
    }

    method AllRestingOrders() returns (orders: seq<Order>)
      requires Valid()
      ensures orders == View().asks + View().bids
    {
      orders := book.AllRestingOrders();
    }
  }

  /** One turn: a fill against the head of the opposite side, or none and the reason. */
  ghost predicate Turned(b: BookSpec.Book, taker: Order, f: Option<Fill>, own: bool, b': BookSpec.Book) {
    var side := taker.side.Opposite();
    var makers := b.On(side);
    if BookTheorems.Trades(makers, taker) then
      && f == Some(BookSpec.FillOf(taker, makers[0]))
      && b' == b.With(side, TakeFrom(makers, f.value.quantity))
    else
      && f == None && b' == b
      && own == (makers != [] && BookSpec.Crosses(taker, makers[0].price))
  }

  /** The loop so far: the fills made, then what matching the rest would give, is the whole match. */
  ghost predicate Looping(b0: BookSpec.Book, b: BookSpec.Book, order: Order, left: u64, fills: seq<Fill>) {
    var side := order.side.Opposite();
    var r := BookSpec.Match(b.On(side), order.(quantity := left));
    && BookSpec.Match(b0.On(side), order) == r.(fills := fills + r.fills)
    && b == b0.With(side, b.On(side))
  }

  /** The match of an order is `m`, and the opposite side of the book is what `m` left of it. */
  ghost predicate Matched(b0: BookSpec.Book, b: BookSpec.Book, order: Order, m: BookSpec.MatchResult) {
    m == BookSpec.Match(b0.On(order.side.Opposite()), order) && b == b0.With(order.side.Opposite(), m.rest)
  }

  /** A maker is gone, or the taker is spent. */
  ghost predicate NearerEnd(b: BookSpec.Book, b': BookSpec.Book, order: Order, left: nat) {
    var n, n' := |b.On(order.side.Opposite())|, |b'.On(order.side.Opposite())|;
    n' < n || (n' == n && left == 0)
  }

  lemma LoopStarts(b: BookSpec.Book, order: Order)
    ensures Looping(b, b, order, order.quantity, [])
  {
  }

  /** The head's fill, then the match of what is left, is the match. */
  lemma MatchTurn(makers: seq<Order>, taker: Order)
    requires BookTheorems.Trades(makers, taker)
    ensures var f := BookSpec.FillOf(taker, makers[0]);
      var rest, taker' := TakeFrom(makers, f.quantity), taker.(quantity := taker.quantity - f.quantity);
      var r := BookSpec.Match(rest, taker');
      && BookSpec.Match(makers, taker) == r.(fills := [f] + r.fills)
      && (|rest| < |makers| || (|rest| == |makers| && taker'.quantity == 0))
  {
    var f := BookSpec.FillOf(taker, makers[0]);
    if !f.makerFullyFilled {
      assert [f] + [] == [f];
    }
  }

  lemma MatchStuck(makers: seq<Order>, taker: Order)
    requires taker.quantity > 0 && !BookTheorems.Trades(makers, taker)
    ensures BookSpec.Match(makers, taker) == BookSpec.MatchResult(
      [], makers, taker.quantity, makers != [] && BookSpec.Crosses(taker, makers[0].price))
  {
  }

  lemma LoopTurn(b0: BookSpec.Book, b: BookSpec.Book, b': BookSpec.Book, order: Order, left: u64, fills: seq<Fill>,
                 f: Option<Fill>, own: bool)
    requires Looping(b0, b, order, left, fills) && left > 0 && Turned(b, order.(quantity := left), f, own, b')
    ensures f.None? ==>
      Matched(b0, b', order, BookSpec.MatchResult(fills, b'.On(order.side.Opposite()), left, own))
    ensures f.Some? ==>
      && f.value.quantity <= left && Looping(b0, b', order, left - f.value.quantity, fills + [f.value])
      && NearerEnd(b, b', order, left - f.value.quantity)
  {
    var makers, taker := b.On(order.side.Opposite()), order.(quantity := left);
    if BookTheorems.Trades(makers, taker) {
      MatchTurn(makers, taker);
      var rest := BookSpec.Match(TakeFrom(makers, f.value.quantity), order.(quantity := left - f.value.quantity)).fills;
      assert fills + ([f.value] + rest) == fills + [f.value] + rest;
    } else {
      MatchStuck(makers, taker);
      assert fills + [] == fills;
    }
  }

  lemma LoopEnds(b0: BookSpec.Book, b: BookSpec.Book, order: Order, fills: seq<Fill>)
    requires Looping(b0, b, order, 0, fills)
    ensures Matched(b0, b, order, BookSpec.MatchResult(fills, b.On(order.side.Opposite()), 0, false))
  {
    assert fills + [] == fills;
  }

  lemma CancelMissing(b: BookSpec.Book, id: u64)
    requires !b.Contains(id)
    ensures BookSpec.Cancel(b, id) == (b, Failure(OrderNotFound(id)))
  {
  }

  ghost predicate Removable(bids: Queues, asks: Queues) {
    && WfQueues(Bid, bids) && WfQueues(Ask, asks) && DistinctQueues(bids) && DistinctQueues(asks)
    && BookSpec.DisjointIds(Flatten(Bid, bids), Flatten(Ask, asks))
  }

  /** Deleting an order from its queue is cancelling it in the view. */
  lemma ViewRemoved(bids: Queues, asks: Queues, o: Order, k: nat, bids': Queues, asks': Queues, capacity: nat)
    requires Removable(bids, asks)
    requires var m := if o.side.Bid? then bids else asks;
      && o.price in m && k < |m[o.price]| && m[o.price][k] == o
      && if o.side.Bid? then bids' == WithQueue(bids, o.price, BookSpec.RemoveAt(m[o.price], k)) && asks' == asks
                        else bids' == bids && asks' == WithQueue(asks, o.price, BookSpec.RemoveAt(m[o.price], k))
    ensures BookSpec.Cancel(ViewOf(bids, asks, capacity), o.id) == (ViewOf(bids', asks', capacity), Success(o))
  {
    var b := ViewOf(bids, asks, capacity);
    if o.side.Bid? {
      RemoveFlattens(Bid, bids, o.price, k);
    } else {
      RemoveFlattens(Ask, asks, o.price, k);
      NotOnBoth(b.bids, b.asks, o.id);
    }
  }

  lemma NotOnBoth(bids: seq<Order>, asks: seq<Order>, id: u64)
    requires BookSpec.DisjointIds(bids, asks) && HoldsId(asks, id)
    ensures BookSpec.IndexOf(bids, id) == |bids|
  {
  }

  /** Restores a book by direct insertion; the first refusal is the result. */
  method RestoreFromOrders(orders: seq<Order>, capacity: u32)
    returns (r: Result<MatchingEngine, MatchingError>)
    ensures match BookSpec.Restore(orders, capacity)
      case Failure(e) => r == Failure(BookFailure(e))
      case Success(b) =>
        && r.Success? && r.value.Valid() && r.value.View() == b
        && fresh(r.value.book) && fresh(r.value.book.arena) && fresh(r.value.book.arena.storage)
  {
    var engine := new MatchingEngine(capacity);
    var i := 0;
    while i < |orders|
      invariant 0 <= i <= |orders|
      invariant engine.Valid()
      invariant fresh(engine.book) && fresh(engine.book.arena) && fresh(engine.book.arena.storage)
      invariant BookSpec.InsertAll(engine.View(), orders[i..]) == BookSpec.Restore(orders, capacity)
    {
      assert orders[i..][0] == orders[i] && orders[i..][1..] == orders[i + 1..];
      var rested := engine.Rest(orders[i]);
      match rested
      case Failure(e) => return Failure(BookFailure(e));
      case Success(_) =>
      i := i + 1;
    }
    r := Success(engine);
  }

  // ----- A restored engine beside the original

  /** Runs a list of commands and collects the answers. */
  method ApplyAll(engine: MatchingEngine, cmds: seq<Command>) returns (outs: seq<Output>)
    requires engine.Valid()
    modifies engine.book, engine.book.arena, engine.book.arena.storage
    ensures engine.Valid()
    ensures engine.View() == BookSpec.Replay(old(engine.View()), cmds)
    ensures outs == BookSpec.Outputs(old(engine.View()), cmds)
  {
    outs := [];
    var i := 0;
    while i < |cmds|
      invariant 0 <= i <= |cmds| && engine.Valid()
      invariant GoesOn(old(engine.View()), cmds, engine.View(), i, outs)
    {
      GoesOnStep(old(engine.View()), cmds, engine.View(), i, outs);
      var out := engine.Apply(cmds[i]);
      outs, i := outs + [out], i + 1;
    }
  }

  /** After i commands the book is `b` and the answers are `outs`; the rest follows from `b`. */
  ghost predicate GoesOn(start: BookSpec.Book, cmds: seq<Command>, b: BookSpec.Book, i: nat, outs: seq<Output>) {
    && i <= |cmds| && BookSpec.Replay(start, cmds) == BookSpec.Replay(b, cmds[i..])
    && BookSpec.Outputs(start, cmds) == outs + BookSpec.Outputs(b, cmds[i..])
  }

  lemma GoesOnStep(start: BookSpec.Book, cmds: seq<Command>, b: BookSpec.Book, i: nat, outs: seq<Output>)
    requires GoesOn(start, cmds, b, i, outs) && i < |cmds|
    ensures var (b', out) := BookSpec.Step(b, cmds[i]);
      GoesOn(start, cmds, b', i + 1, outs + [out])
  {
    assert cmds[i..][0] == cmds[i] && cmds[i..][1..] == cmds[i + 1..];
  }

  /** An engine restored from another one's listing: the same book, whatever the slots of either. */
  method RestoredTwin(engine: MatchingEngine) returns (twin: MatchingEngine)
    requires engine.Valid()
    ensures twin.Valid() && twin.View() == engine.View()
    ensures fresh(twin.book) && fresh(twin.book.arena) && fresh(twin.book.arena.storage)
  {
    engine.book.ViewWellFormed();
    BookTheorems.RestoreListing(engine.View());
    var orders := engine.AllRestingOrders();
    var r := RestoreFromOrders(orders, engine.book.arena.capacity);
    twin := r.value;
  }

  /** Two engines with the same book, whatever the slots of either, answer any commands alike. */
  method AnswersAlike(engine: MatchingEngine, twin: MatchingEngine, cmds: seq<Command>)
    returns (outs: seq<Output>, twinOuts: seq<Output>)
    requires engine.Valid() && twin.Valid() && engine.View() == twin.View()
    requires engine.book != twin.book && engine.book.arena != twin.book.arena
    requires engine.book.arena.storage != twin.book.arena.storage
    modifies engine.book, engine.book.arena, engine.book.arena.storage
    modifies twin.book, twin.book.arena, twin.book.arena.storage
    ensures engine.Valid() && twin.Valid() && engine.View() == twin.View()
    ensures outs == twinOuts == BookSpec.Outputs(old(engine.View()), cmds) && |outs| == |cmds|
  {
    ghost var b := engine.View();
    OneAnswerEach(b, cmds);
    outs := ApplyAll(engine, cmds);
    assert twin.Valid() && twin.View() == b;
    twinOuts := ApplyAll(twin, cmds);
    assert engine.Valid();
  }

  /** In particular an engine and the one restored from its listing. */
  method RestoredAnswersAlike(engine: MatchingEngine, cmds: seq<Command>)
    returns (twin: MatchingEngine, outs: seq<Output>, twinOuts: seq<Output>)
    requires engine.Valid()
    modifies engine.book, engine.book.arena, engine.book.arena.storage
    ensures engine.Valid() && twin.Valid() && engine.View() == twin.View()
    ensures outs == twinOuts == BookSpec.Outputs(old(engine.View()), cmds) && |outs| == |cmds|
  {
    twin := RestoredTwin(engine);
    outs, twinOuts := AnswersAlike(engine, twin, cmds);
  }

  lemma {:induction false} OneAnswerEach(b: BookSpec.Book, cmds: seq<Command>)
    ensures |BookSpec.Outputs(b, cmds)| == |cmds|
    decreases |cmds|
  {
    if cmds != [] {
      OneAnswerEach(BookSpec.Step(b, cmds[0]).0, cmds[1..]);
    }
  }
}
