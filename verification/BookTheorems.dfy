/**
  What the exchange promises about the book, for every input and every run: price-time
  priority, conservation of quantity, the uncrossed invariant, and the exact conditions
  under which a refused order leaves the book as it was.
 */
module BookTheorems {
  import opened Orders
  import opened BookSpec

  // ----- Price-time priority

  function FilledQuantity(fills: seq<Fill>): nat {
    if fills == [] then 0 else fills[0].quantity + FilledQuantity(fills[1..])
  }

  /** Matching has a next fill. */
  predicate Trades(makers: seq<Order>, taker: Order) {
    taker.quantity > 0 && makers != [] && Crosses(taker, makers[0].price) && makers[0].traderId != taker.traderId
  }

  function AfterFill(taker: Order, maker: Order): Order {
    taker.(quantity := taker.quantity - FillOf(taker, maker).quantity)
  }

  /**
    Why matching stopped after consuming `n` makers, and that it could not have stopped
    earlier: every consumed maker was crossing and belonged to another trader.
   */
  predicate StopsExactlyAt(makers: seq<Order>, taker: Order, n: nat, left: nat, selfTrade: bool)
    requires n <= |makers|
  {
    && (forall i :: 0 <= i < n ==> Crosses(taker, makers[i].price) && makers[i].traderId != taker.traderId)
    && (selfTrade <==> left > 0 && n < |makers| && Crosses(taker, makers[n].price)
                       && makers[n].traderId == taker.traderId)
    && (left > 0 && !selfTrade ==> n == |makers| || !Crosses(taker, makers[n].price))
  }

  /** Fill i is against maker i, at the maker's price; only the last maker may survive. */
  predicate FillsPrefix(makers: seq<Order>, taker: Order, fills: seq<Fill>)
    requires |fills| <= |makers|
  {
    forall i :: 0 <= i < |fills| ==>
      && fills[i].takerOrderId == taker.id
      && fills[i].makerOrderId == makers[i].id
      && fills[i].price == makers[i].price
      && fills[i].quantity <= makers[i].quantity
      && (fills[i].makerFullyFilled <==> fills[i].quantity == makers[i].quantity)
      && (i < |fills| - 1 ==> fills[i].makerFullyFilled)
  }

  predicate LastFillFits(makers: seq<Order>, fills: seq<Fill>) {
    |fills| <= |makers| && (fills != [] ==> fills[|fills| - 1].quantity <= makers[|fills| - 1].quantity)
  }

  /** What is left of the makers: the unfilled part of the last one touched, then the rest. */
  function Survivors(makers: seq<Order>, fills: seq<Fill>): seq<Order>
    requires LastFillFits(makers, fills)
  {
    var n := |fills|;
    if n == 0 || fills[n - 1].makerFullyFilled then makers[n..]
    else [makers[n - 1].(quantity := makers[n - 1].quantity - fills[n - 1].quantity)] + makers[n..]
  }

  lemma {:induction false} MatchFillsPrefix(makers: seq<Order>, taker: Order)
    ensures var r := Match(makers, taker);
      && |r.fills| <= |makers|
      && FillsPrefix(makers, taker, r.fills)
      && (r.fills != [] && !r.fills[|r.fills| - 1].makerFullyFilled ==> r.left == 0)
  {
    if Trades(makers, taker) && FillOf(taker, makers[0]).makerFullyFilled {
      var taker' := AfterFill(taker, makers[0]);
      MatchFillsPrefix(makers[1..], taker');
      var fills, fills' := Match(makers, taker).fills, Match(makers[1..], taker').fills;
      assert fills == [FillOf(taker, makers[0])] + fills';
      assert forall i :: 1 <= i < |fills| ==> fills[i] == fills'[i - 1] && makers[i] == makers[1..][i - 1];
    }
  }

  lemma {:induction false} MatchSurvivors(makers: seq<Order>, taker: Order)
    ensures var r := Match(makers, taker);
      && LastFillFits(makers, r.fills)
      && r.rest == Survivors(makers, r.fills)
  {
    if Trades(makers, taker) && FillOf(taker, makers[0]).makerFullyFilled {
      var taker' := AfterFill(taker, makers[0]);
      MatchSurvivors(makers[1..], taker');
      var fills, fills' := Match(makers, taker).fills, Match(makers[1..], taker').fills;
      assert fills == [fills[0]] + fills';
      assert makers[|fills|..] == makers[1..][|fills'|..];
      if fills' != [] {
        assert fills[|fills| - 1] == fills'[|fills'| - 1] && makers[|fills| - 1] == makers[1..][|fills'| - 1];
      }
    }
  }

  lemma {:induction false} MatchStops(makers: seq<Order>, taker: Order)
    ensures var r := Match(makers, taker);
      && |r.fills| <= |makers|
      && StopsExactlyAt(makers, taker, |r.fills|, r.left, r.selfTrade)
  {
    if Trades(makers, taker) && FillOf(taker, makers[0]).makerFullyFilled {
      MatchStops(makers[1..], AfterFill(taker, makers[0]));
      assert forall i :: 1 <= i < |makers| ==> makers[i] == makers[1..][i - 1];
    }
  }

  lemma {:induction false} MatchSpendsTaker(makers: seq<Order>, taker: Order)
    ensures var r := Match(makers, taker);
      taker.quantity == FilledQuantity(r.fills) + r.left
  {
    var r := Match(makers, taker);
    if Trades(makers, taker) {
      if FillOf(taker, makers[0]).makerFullyFilled {
        MatchSpendsTaker(makers[1..], AfterFill(taker, makers[0]));
        assert r.fills[1..] == Match(makers[1..], AfterFill(taker, makers[0])).fills;
      } else {
        assert r.fills[1..] == [];
      }
    }
  }

  /**
    Greedy price-time priority, without recursion: the fills are against a prefix of the
    opposite side in order, each at its maker's price and all but the last of them complete;
    what survives is the suffix; and matching stops exactly when the taker is spent, the
    next price no longer crosses, or the next maker is the taker's own.
   */
  lemma {:induction false} PriceTimePriority(makers: seq<Order>, taker: Order)
    ensures var r := Match(makers, taker);
      && |r.fills| <= |makers|
      && FillsPrefix(makers, taker, r.fills)
      && LastFillFits(makers, r.fills)
      && r.rest == Survivors(makers, r.fills)
      && StopsExactlyAt(makers, taker, |r.fills|, r.left, r.selfTrade)
      && taker.quantity == FilledQuantity(r.fills) + r.left
      && (r.fills != [] && !r.fills[|r.fills| - 1].makerFullyFilled ==> r.left == 0)
  {
    MatchFillsPrefix(makers, taker);
    MatchSurvivors(makers, taker);
    MatchStops(makers, taker);
    MatchSpendsTaker(makers, taker);
  }

  // ----- Quantity is conserved

  lemma {:induction false} TotalSplit(a: seq<Order>, b: seq<Order>)
    ensures TotalQuantity(a + b) == TotalQuantity(a) + TotalQuantity(b)
  {
    if a == [] {
      assert a + b == b;
    } else {
      assert (a + b)[1..] == a[1..] + b;
      TotalSplit(a[1..], b);
    }
  }

  lemma {:induction false} MatchMovesQuantity(makers: seq<Order>, taker: Order)
    ensures var r := Match(makers, taker);
      TotalQuantity(makers) == TotalQuantity(r.rest) + FilledQuantity(r.fills)
  {
    var r := Match(makers, taker);
    if taker.quantity == 0 || makers == [] || !Crosses(taker, makers[0].price) {
    } else if makers[0].traderId == taker.traderId {
    } else {
      var f := FillOf(taker, makers[0]);
      if f.makerFullyFilled {
        MatchMovesQuantity(makers[1..], taker.(quantity := taker.quantity - f.quantity));
        assert r.fills[1..] == Match(makers[1..], taker.(quantity := taker.quantity - f.quantity)).fills;
      } else {
        assert r.rest[1..] == makers[1..];
        assert r.fills[1..] == [];
      }
    }
  }

  lemma {:induction false} InsertAddsQuantity(orders: seq<Order>, o: Order)
    ensures TotalQuantity(InsertSorted(orders, o)) == TotalQuantity(orders) + o.quantity
  {
    var r := InsertSorted(orders, o);
    if orders == [] || Better(o.side, o.price, orders[0].price) {
      assert r[1..] == orders;
    } else {
      assert r[1..] == InsertSorted(orders[1..], o);
      InsertAddsQuantity(orders[1..], o);
    }
  }

  /** The part of a taker that an accepted order leaves in the book. */
  function RestingPart(o: Order, r: AddOrderResult): int {
    if r.status.Resting? || r.status.PartiallyFilled? then o.quantity - FilledQuantity(r.fills) else 0
  }

  /** The part of a taker that self-trade prevention throws away. */
  function DiscardedPart(o: Order, r: AddOrderResult): int {
    if r.status.CancelledSelfTrade? then o.quantity - FilledQuantity(r.fills) else 0
  }

  lemma AddConservesQuantity(b: Book, o: Order)
    requires AddOrder(b, o).1.Success?
    ensures var (b', r) := AddOrder(b, o);
      && o.quantity == FilledQuantity(r.value.fills) + RestingPart(o, r.value) + DiscardedPart(o, r.value)
      && RestingPart(o, r.value) >= 0 && DiscardedPart(o, r.value) >= 0
      && TotalQuantity(b'.On(o.side.Opposite())) ==
           TotalQuantity(b.On(o.side.Opposite())) - FilledQuantity(r.value.fills)
      && TotalQuantity(b'.On(o.side)) == TotalQuantity(b.On(o.side)) + RestingPart(o, r.value)
  {
    var makers := b.On(o.side.Opposite());
    var m := Match(makers, o);
    PriceTimePriority(makers, o);
    MatchMovesQuantity(makers, o);
    if !m.selfTrade && m.left > 0 {
      InsertAddsQuantity(b.On(o.side), o.(quantity := m.left));
    }
  }

  // ----- Invariants kept by each operation

  lemma {:induction false} InsertShape(orders: seq<Order>, o: Order) returns (k: nat)
    ensures k <= |orders|
    ensures InsertSorted(orders, o) == orders[..k] + [o] + orders[k..]
    ensures forall i :: 0 <= i < k ==> !Better(o.side, o.price, orders[i].price)
    ensures k < |orders| ==> Better(o.side, o.price, orders[k].price)
  {
    if orders == [] || Better(o.side, o.price, orders[0].price) {
      k := 0;
    } else {
      var j := InsertShape(orders[1..], o);
      k := j + 1;
      assert orders[..k] == [orders[0]] + orders[1..][..j];
      assert orders[k..] == orders[1..][j..];
    }
  }

  lemma {:induction false} InsertKeepsSide(side: Side, orders: seq<Order>, o: Order)
    requires WellFormedSide(side, orders) && o.side == side && !HoldsId(orders, o.id)
    ensures WellFormedSide(side, InsertSorted(orders, o))
    ensures |InsertSorted(orders, o)| == |orders| + 1
    ensures forall x :: x in InsertSorted(orders, o) <==> x == o || x in orders
  {
    var k := InsertShape(orders, o);
    SplicedSide(side, orders, o, k, orders[..k] + [o] + orders[k..]);
  }

  /** `o` between the first k orders and the others, where the prices allow it. */
  lemma {:induction false} SplicedSide(side: Side, orders: seq<Order>, o: Order, k: nat, r: seq<Order>)
    requires WellFormedSide(side, orders) && o.side == side && !HoldsId(orders, o.id)
    requires k <= |orders| && r == orders[..k] + [o] + orders[k..]
    requires forall i :: 0 <= i < k ==> !Better(side, o.price, orders[i].price)
    requires k < |orders| ==> Better(side, o.price, orders[k].price)
    ensures WellFormedSide(side, r)
    ensures forall x :: x in r <==> x == o || x in orders
  {
    assert orders == orders[..k] + orders[k..];
    forall i | 0 <= i < |r|
      ensures r[i] == (if i < k then orders[i] else if i == k then o else orders[i - 1]) && r[i].side == side
    {
    }
    forall i, j | 0 <= i < j < |r|
      ensures !Better(side, r[j].price, r[i].price) && r[i].id != r[j].id
    {
      if k < |orders| && j > k + 1 {
        assert !Better(side, orders[j - 1].price, orders[k].price);
      }
    }
  }

  /** The survivors are the makers' last ones, the first of them possibly with less quantity. */
  lemma {:induction false} SurvivorsAreSuffix(makers: seq<Order>, taker: Order) returns (d: nat)
    ensures SuffixOf(Match(makers, taker).rest, makers, d)
  {
    if Trades(makers, taker) && FillOf(taker, makers[0]).makerFullyFilled {
      var d' := SurvivorsAreSuffix(makers[1..], AfterFill(taker, makers[0]));
      d := d' + 1;
      SuffixGrows(Match(makers, taker).rest, makers, d');
    } else {
      d := 0;
    }
  }

  /** The orders of `rest` are the last ones of `makers`, up to quantity. */
  predicate SuffixOf(rest: seq<Order>, makers: seq<Order>, d: nat) {
    d + |rest| == |makers| && forall i :: 0 <= i < |rest| ==> SameButQuantity(rest[i], makers[d + i])
  }

  lemma SuffixGrows(rest: seq<Order>, makers: seq<Order>, d: nat)
    requires makers != [] && SuffixOf(rest, makers[1..], d)
    ensures SuffixOf(rest, makers, d + 1)
  {
  }

  predicate SameButQuantity(a: Order, b: Order) { a == b.(quantity := a.quantity) }

  lemma {:induction false} MatchKeepsPositive(makers: seq<Order>, taker: Order)
    requires Positive(makers)
    ensures Positive(Match(makers, taker).rest)
  {
    if Trades(makers, taker) && FillOf(taker, makers[0]).makerFullyFilled {
      MatchKeepsPositive(makers[1..], AfterFill(taker, makers[0]));
    }
  }

  lemma MatchKeepsSide(side: Side, makers: seq<Order>, taker: Order)
    requires WellFormedSide(side, makers)
    ensures var rest := Match(makers, taker).rest;
      && WellFormedSide(side, rest)
      && |rest| <= |makers|
      && (forall i :: 0 <= i < |rest| ==> HoldsId(makers, rest[i].id))
      && (rest != [] ==> !Better(side, rest[0].price, makers[0].price))
  {
    var d := SurvivorsAreSuffix(makers, taker);
    var rest := Match(makers, taker).rest;
    forall i | 0 <= i < |rest| ensures HoldsId(makers, rest[i].id) {
      assert SameButQuantity(rest[i], makers[d + i]);
      assert makers[d + i].id == rest[i].id;
    }
  }

  lemma RemoveKeepsSide(side: Side, orders: seq<Order>, i: nat)
    requires WellFormedSide(side, orders) && i < |orders|
    ensures WellFormedSide(side, RemoveAt(orders, i))
    ensures forall k :: 0 <= k < |orders| - 1 ==>
      RemoveAt(orders, i)[k] == if k < i then orders[k] else orders[k + 1]
  {
  }

  lemma InsertKeepsWellFormed(b: Book, o: Order)
    requires WellFormed(b) && Insert(b, o).Success?
    ensures var b' := Insert(b, o).value;
      WellFormed(b') && b'.Count() == b.Count() + 1 && b'.capacity == b.capacity
  {
    InsertKeepsSide(o.side, b.On(o.side), o);
    var r := InsertSorted(b.On(o.side), o);
    forall i | 0 <= i < |r| ensures r[i] == o || r[i] in b.On(o.side) {
      assert r[i] in r;
    }
  }

  /** After matching, whatever is left of the taker no longer crosses the opposite side. */
  lemma {:induction false} LeftoverDoesNotCross(makers: seq<Order>, taker: Order)
    ensures var m := Match(makers, taker);
      m.left > 0 && !m.selfTrade && m.rest != [] ==> !Crosses(taker, m.rest[0].price)
  {
    if Trades(makers, taker) && FillOf(taker, makers[0]).makerFullyFilled {
      LeftoverDoesNotCross(makers[1..], AfterFill(taker, makers[0]));
    }
  }

  lemma MatchKeepsInv(b: Book, o: Order)
    requires Inv(b)
    ensures var m := Match(b.On(o.side.Opposite()), o);
      Inv(b.With(o.side.Opposite(), m.rest))
  {
    var side := o.side.Opposite();
    var makers, rest := b.On(side), Match(b.On(side), o).rest;
    MatchKeepsSide(side, makers, o);
    MatchKeepsPositive(makers, o);
    forall i, j | 0 <= i < |rest| && 0 <= j < |b.On(o.side)| ensures rest[i].id != b.On(o.side)[j].id {
      assert HoldsId(makers, rest[i].id);
    }
  }

  lemma {:induction false} InsertKeepsPositive(orders: seq<Order>, o: Order)
    requires Positive(orders) && o.quantity > 0
    ensures Positive(InsertSorted(orders, o))
    ensures InsertSorted(orders, o) != []
    ensures InsertSorted(orders, o)[0] == o || (orders != [] && InsertSorted(orders, o)[0] == orders[0])
  {
    if orders != [] && !Better(o.side, o.price, orders[0].price) {
      InsertKeepsPositive(orders[1..], o);
    }
  }

  lemma InsertKeepsInv(b: Book, o: Order)
    requires Inv(b) && o.quantity > 0 && Insert(b, o).Success?
    requires var makers := b.On(o.side.Opposite()); makers != [] ==> !Crosses(o, makers[0].price)
    ensures Inv(Insert(b, o).value)
  {
    InsertKeepsWellFormed(b, o);
    InsertKeepsPositive(b.On(o.side), o);
  }

  lemma CancelKeepsInv(b: Book, id: u64)
    requires Inv(b)
    ensures Inv(Cancel(b, id).0)
    ensures Cancel(b, id).0.capacity == b.capacity
  {
    var i := IndexOf(b.bids, id);
    var j := IndexOf(b.asks, id);
    if i < |b.bids| {
      RemoveKeepsSide(Bid, b.bids, i);
    } else if j < |b.asks| {
      RemoveKeepsSide(Ask, b.asks, j);
    }
  }

  lemma StepKeepsInv(b: Book, cmd: Command)
    requires Inv(b)
    ensures Inv(Step(b, cmd).0)
    ensures Step(b, cmd).0.capacity == b.capacity
  {
    match cmd
    case CancelOrder(id) => CancelKeepsInv(b, id);
    case NewOrder(o) =>
      if o.quantity > 0 {
        MatchKeepsInv(b, o);
        LeftoverDoesNotCross(b.On(o.side.Opposite()), o);
        var m := Match(b.On(o.side.Opposite()), o);
        var b' := b.With(o.side.Opposite(), m.rest);
        if m.left > 0 && !m.selfTrade && Insert(b', o.(quantity := m.left)).Success? {
          InsertKeepsInv(b', o.(quantity := m.left));
        }
      }
  }

  /**
    After any run of adds and cancels, refused calls and self-trade cancels included, the
    book is uncrossed, in priority order, free of duplicate ids, within capacity, and holds
    only positive quantities.
   */
  lemma {:induction false} RunKeepsInv(b: Book, cmds: seq<Command>)
    requires Inv(b)
    ensures Inv(Replay(b, cmds)) && Replay(b, cmds).capacity == b.capacity
    decreases |cmds|
  {
    if cmds != [] {
      StepKeepsInv(b, cmds[0]);
      RunKeepsInv(Step(b, cmds[0]).0, cmds[1..]);
    }
  }

  // ----- Errors

  /** The capacity refusal never follows a fill, and changes nothing. */
  lemma ArenaFullOnlyUntouched(b: Book, o: Order)
    requires b.Count() <= b.capacity
    requires AddOrder(b, o).1 == Failure(BookFailure(ArenaFull))
    ensures AddOrder(b, o).0 == b
    ensures Match(b.On(o.side.Opposite()), o).fills == []
    ensures b.Count() == b.capacity
  {
    var makers := b.On(o.side.Opposite());
    PriceTimePriority(makers, o);
    var m := Match(makers, o);
    if m.fills == [] {
      assert m.rest == makers;
    }
  }

  /** The only errors, and exactly when each is returned. */
  lemma AddErrors(b: Book, o: Order)
    requires b.Count() <= b.capacity
    ensures var r := AddOrder(b, o).1;
      var m := Match(b.On(o.side.Opposite()), o);
      var matched := b.With(o.side.Opposite(), m.rest);
      var rests := o.quantity > 0 && !m.selfTrade && m.left > 0;
      && (r.Failure? ==> r.error in {ZeroQuantity, BookFailure(DuplicateOrderId(o.id)), BookFailure(ArenaFull)})
      && (r == Failure(ZeroQuantity) <==> o.quantity == 0)
      && (r == Failure(BookFailure(DuplicateOrderId(o.id))) <==> rests && matched.Contains(o.id))
      && (r == Failure(BookFailure(ArenaFull)) <==>
            rests && !b.Contains(o.id) && m.fills == [] && b.Count() == b.capacity)
  {
    var makers := b.On(o.side.Opposite());
    PriceTimePriority(makers, o);
    var m := Match(makers, o);
    if m.fills == [] {
      assert m.rest == makers;
    }
  }

  /**
    A refused order leaves the book unchanged unless it is refused as a duplicate after
    trading: that happens exactly when the best opposite price crosses it.
   */
  lemma RefusedAddKeepsBook(b: Book, o: Order)
    requires Inv(b) && AddOrder(b, o).1.Failure?
    ensures var makers := b.On(o.side.Opposite());
      AddOrder(b, o).0 == b <==> o.quantity == 0 || makers == [] || !Crosses(o, makers[0].price)
  {
    var makers := b.On(o.side.Opposite());
    var m := Match(makers, o);
    PriceTimePriority(makers, o);
    MatchMovesQuantity(makers, o);
    if o.quantity > 0 && makers != [] && Crosses(o, makers[0].price) {
      assert m.fills != [];
      assert FilledQuantity(m.fills) > 0;
      assert m.rest != makers;
    }
  }

  /** A book and an order that trades and is then refused: the ask is gone, the bid was not accepted. */
  lemma DuplicateAfterTrade()
    ensures var b := Book([Order(7, 1, Bid, 90, 5, 0)], [Order(8, 2, Ask, 100, 3, 0)], 16);
      var o := Order(7, 3, Bid, 100, 10, 0);
      && Inv(b)
      && AddOrder(b, o) == (b.(asks := []), Failure(BookFailure(DuplicateOrderId(7))))
  {
  }

  // ----- What each command does, in full

  /** The order with this id leaves its side and is returned; no other order moves. */
  ghost predicate Cancels(b: Book, id: u64, b': Book, r: Result<Order, MatchingError>) {
    && b'.capacity == b.capacity
    && (forall k :: 0 <= k < |b.bids| && b.bids[k].id == id ==>
          r == Success(b.bids[k]) && b'.bids == b.bids[..k] + b.bids[k + 1..] && b'.asks == b.asks)
    && (forall k :: 0 <= k < |b.asks| && b.asks[k].id == id ==>
          r == Success(b.asks[k]) && b'.asks == b.asks[..k] + b.asks[k + 1..] && b'.bids == b.bids)
    && ((forall x :: x in b.bids || x in b.asks ==> x.id != id) ==>
          r == Failure(BookFailure(OrderNotFound(id))) && b'.bids == b.bids && b'.asks == b.asks)
  }

  lemma StepCancels(b: Book, id: u64)
    requires WellFormed(b)
    ensures var (b', out) := Step(b, CancelOrder(id));
      out.Cancelled? && Cancels(b, id, b', out.cancelled)
  {
    var i, j := IndexOf(b.bids, id), IndexOf(b.asks, id);
    if i < |b.bids| {
      assert b.bids[i] in b.bids;
    } else if j < |b.asks| {
      assert b.asks[j] in b.asks;
    }
  }

  lemma CancelCancels(b: Book, id: u64, b': Book, r: Result<Order, BookError>)
    requires WellFormed(b) && Cancel(b, id) == (b', r)
    ensures Cancels(b, id, b', match r case Success(o) => Success(o) case Failure(e) => Failure(BookFailure(e)))
  {
    StepCancels(b, id);
  }

  /** There is only one such outcome. */
  lemma CancelsIsStep(b: Book, id: u64, b': Book, r: Result<Order, MatchingError>)
    requires WellFormed(b) && Cancels(b, id, b', r)
    ensures Step(b, CancelOrder(id)) == (b', Cancelled(r))
  {
    StepCancels(b, id);
    HoldsById(b.bids, id);
    HoldsById(b.asks, id);
  }

  /** The own side takes in what is left, as the last of its price, if and only if the answer says so. */
  predicate RestsIn(own: seq<Order>, o: Order, r: AddOrderResult, own': seq<Order>, k: nat) {
    if r.status in {Resting, PartiallyFilled} then
      && k <= |own| && o.quantity > FilledQuantity(r.fills)
      && own' == own[..k] + [o.(quantity := o.quantity - FilledQuantity(r.fills))] + own[k..]
      && (forall i :: 0 <= i < k ==> !Better(o.side, o.price, own[i].price))
      && (k < |own| ==> Better(o.side, o.price, own[k].price))
    else own' == own
  }

  /** What a status tells about an order of quantity `quantity`. */
  predicate StatusTells(quantity: nat, r: AddOrderResult) {
    && (r.status.FullyFilled? <==> FilledQuantity(r.fills) == quantity)
    && (r.status.Resting? ==> r.fills == [])
    && (r.status.PartiallyFilled? ==> r.fills != [])
  }

  /** The opposite side loses a prefix to the fills, and matching went on as long as it could. */
  predicate Consumes(makers: seq<Order>, o: Order, r: AddOrderResult, makers': seq<Order>) {
    && |r.fills| <= |makers| && FillsPrefix(makers, o, r.fills)
    && FilledQuantity(r.fills) <= o.quantity && makers' == Survivors(makers, r.fills)
    && StopsExactlyAt(makers, o, |r.fills|, o.quantity - FilledQuantity(r.fills), r.status.CancelledSelfTrade?)
  }

  /** Everything an accepted order does: its trades, what comes to rest and where, and the answer. */
  predicate Accepts(b: Book, o: Order, b': Book, r: AddOrderResult, k: nat) {
    && r.orderId == o.id && StatusTells(o.quantity, r)
    && RestsIn(b.On(o.side), o, r, b'.On(o.side), k)
    && Consumes(b.On(o.side.Opposite()), o, r, b'.On(o.side.Opposite()))
  }

  /** A refused order does not rest; it may have traded, and the reason is the first that applies. */
  predicate Refuses(b: Book, o: Order, b': Book, e: MatchingError) {
    && b'.On(o.side) == b.On(o.side)
    && b'.On(o.side.Opposite()) == Match(b.On(o.side.Opposite()), o).rest
    && e == if o.quantity == 0 then ZeroQuantity
            else BookFailure(if b'.Contains(o.id) then DuplicateOrderId(o.id) else ArenaFull)
  }

  lemma {:induction false} AcceptTrades(b: Book, o: Order)
    requires AddOrder(b, o).1.Success?
    ensures var (b', r) := AddOrder(b, o);
      && r.value.orderId == o.id && b'.capacity == b.capacity
      && Consumes(b.On(o.side.Opposite()), o, r.value, b'.On(o.side.Opposite()))
  {
    PriceTimePriority(b.On(o.side.Opposite()), o);
  }

  lemma {:induction false} AcceptRests(b: Book, o: Order) returns (k: nat)
    requires AddOrder(b, o).1.Success?
    ensures var (b', r) := AddOrder(b, o);
      StatusTells(o.quantity, r.value) && RestsIn(b.On(o.side), o, r.value, b'.On(o.side), k)
  {
    var m := Match(b.On(o.side.Opposite()), o);
    MatchSpendsTaker(b.On(o.side.Opposite()), o);
    MatchStops(b.On(o.side.Opposite()), o);
    k := InsertShape(b.On(o.side), o.(quantity := m.left));
    assert FilledQuantity([]) == 0;
  }

  lemma AcceptOutcome(b: Book, o: Order) returns (k: nat)
    requires AddOrder(b, o).1.Success?
    ensures var (b', r) := AddOrder(b, o);
      b'.capacity == b.capacity && Accepts(b, o, b', r.value, k)
  {
    AcceptTrades(b, o);
    k := AcceptRests(b, o);
  }

  lemma RefuseOutcome(b: Book, o: Order)
    requires AddOrder(b, o).1.Failure?
    ensures var (b', r) := AddOrder(b, o);
      b'.capacity == b.capacity && Refuses(b, o, b', r.error)
  {
  }

  lemma AddOutcome(b: Book, o: Order) returns (k: nat)
    ensures var (b', r) := AddOrder(b, o);
      && b'.capacity == b.capacity
      && (r.Success? ==> Accepts(b, o, b', r.value, k))
      && (r.Failure? ==> Refuses(b, o, b', r.error))
  {
    if AddOrder(b, o).1.Success? {
      k := AcceptOutcome(b, o);
    } else {
      RefuseOutcome(b, o);
      k := 0;
    }
  }

  lemma StepAdds(b: Book, o: Order) returns (k: nat)
    ensures var (b', out) := Step(b, NewOrder(o));
      && b'.capacity == b.capacity && out.Added?
      && (out.added.Success? ==> Accepts(b, o, b', out.added.value, k))
      && (out.added.Failure? ==> Refuses(b, o, b', out.added.error))
  {
    k := AddOutcome(b, o);
  }

  /** Answer i is the answer of the book as the first i commands left it. */
  lemma {:induction false} AnswerAt(b: Book, cmds: seq<Command>, i: nat)
    requires i < |cmds|
    ensures |Outputs(b, cmds)| == |cmds| && Outputs(b, cmds)[i] == Step(Replay(b, cmds[..i]), cmds[i]).1
    ensures Replay(b, cmds[..i + 1]) == Step(Replay(b, cmds[..i]), cmds[i]).0
    decreases |cmds|
  {
    var b' := Step(b, cmds[0]).0;
    if i > 0 {
      AnswerAt(b', cmds[1..], i - 1);
      assert cmds[..i][1..] == cmds[1..][..i - 1] && cmds[..i + 1][1..] == cmds[1..][..i];
    } else if |cmds| > 1 {
      AnswerAt(b', cmds[1..], 0);
    }
    assert cmds[..1][1..] == [];
  }

  // ----- A cancel undoes an insertion

  lemma IndexOfCons(x: Order, rest: seq<Order>, id: u64)
    ensures IndexOf([x] + rest, id) == if x.id == id then 0 else IndexOf(rest, id) + 1
  {
  }

  lemma NotInTail(orders: seq<Order>, id: u64)
    requires orders != [] && !HoldsId(orders, id)
    ensures orders[0].id != id && !HoldsId(orders[1..], id)
  {
  }

  /** Looking up `o` in `longer` finds it, and without it `longer` is `orders`. */
  predicate ExtendedBy(longer: seq<Order>, o: Order, orders: seq<Order>) {
    var k := IndexOf(longer, o.id);
    k < |longer| && longer[k] == o && RemoveAt(longer, k) == orders
  }

  lemma ExtendedFront(o: Order, orders: seq<Order>)
    ensures ExtendedBy([o] + orders, o, orders)
  {
    IndexOfCons(o, orders, o.id);
  }

  lemma ExtendedBehind(x: Order, longer: seq<Order>, o: Order, orders: seq<Order>)
    requires x.id != o.id && ExtendedBy(longer, o, orders)
    ensures ExtendedBy([x] + longer, o, [x] + orders)
  {
    IndexOfCons(x, longer, o.id);
  }

  lemma {:induction false} RemoveUndoesInsert(orders: seq<Order>, o: Order)
    requires !HoldsId(orders, o.id)
    ensures ExtendedBy(InsertSorted(orders, o), o, orders)
  {
    if orders == [] || Better(o.side, o.price, orders[0].price) {
      ExtendedFront(o, orders);
    } else {
      NotInTail(orders, o.id);
      RemoveUndoesInsert(orders[1..], o);
      ExtendedBehind(orders[0], InsertSorted(orders[1..], o), o, orders[1..]);
      assert [orders[0]] + orders[1..] == orders;
    }
  }

  /** Inserting an order and cancelling it gives back the book and the order, wherever it went. */
  lemma CancelUndoesInsert(b: Book, o: Order)
    requires Insert(b, o).Success?
    ensures Cancel(Insert(b, o).value, o.id) == (b, Success(o))
  {
    RemoveUndoesInsert(b.On(o.side), o);
  }

  /** A cancel of a resting order takes out that order and nothing else; any other id is refused. */
  lemma CancelTakesOne(b: Book, id: u64)
    requires WellFormed(b)
    ensures var (b', r) := Cancel(b, id);
      && (r.Success? <==> b.Contains(id))
      && (r.Failure? ==> b' == b && r.error == OrderNotFound(id))
      && (r.Success? ==> r.value.id == id && !b'.Contains(id) && b'.Count() == b.Count() - 1)
      && (forall other :: other != id ==> (b'.Contains(other) <==> b.Contains(other)))
  {
    var i, j := IndexOf(b.bids, id), IndexOf(b.asks, id);
    if i < |b.bids| {
      RemovedIds(b.bids, i);
    } else if j < |b.asks| {
      RemovedIds(b.asks, j);
    }
  }

  lemma RemovedIds(orders: seq<Order>, i: nat)
    requires DistinctIds(orders) && i < |orders|
    ensures !HoldsId(RemoveAt(orders, i), orders[i].id)
    ensures forall id :: id != orders[i].id ==> (HoldsId(RemoveAt(orders, i), id) <==> HoldsId(orders, id))
  {
    var r := RemoveAt(orders, i);
    forall id | id != orders[i].id ensures HoldsId(r, id) <==> HoldsId(orders, id) {
      if HoldsId(orders, id) {
        var k :| 0 <= k < |orders| && orders[k].id == id;
        assert r[if k < i then k else k - 1].id == id;
      }
      if HoldsId(r, id) {
        var k :| 0 <= k < |r| && r[k].id == id;
        assert orders[if k < i then k else k + 1].id == id;
      }
    }
  }

  // ----- Snapshot listing and restoring

  lemma InsertLast(orders: seq<Order>, o: Order)
    requires forall i :: 0 <= i < |orders| ==> !Better(o.side, o.price, orders[i].price)
    ensures InsertSorted(orders, o) == orders + [o]
  {
  }

  /** Re-inserting a well-formed side from its front rebuilds it. */
  lemma {:induction false} InsertAllSide(b: Book, side: Side, done: nat, orders: seq<Order>)
    requires WellFormedSide(side, orders) && done <= |orders|
    requires b.On(side) == orders[..done]
    requires DisjointIds(orders, b.On(side.Opposite()))
    requires |orders| + |b.On(side.Opposite())| <= b.capacity
    ensures InsertAll(b, orders[done..]) == Success(b.With(side, orders))
    decreases |orders| - done
  {
    if done == |orders| {
      assert orders[..done] == orders;
    } else {
      var o := orders[done];
      assert orders[done..][0] == o && orders[done..][1..] == orders[done + 1..];
      assert !b.Contains(o.id);
      InsertLast(b.On(side), o);
      assert orders[..done] + [o] == orders[..done + 1];
      InsertAllSide(b.With(side, orders[..done + 1]), side, done + 1, orders);
    }
  }

  lemma {:induction false} InsertAllSplit(b: Book, first: seq<Order>, second: seq<Order>)
    ensures InsertAll(b, first + second) ==
      match InsertAll(b, first) case Failure(e) => Failure(e) case Success(b') => InsertAll(b', second)
    decreases |first|
  {
    if first == [] {
      assert first + second == second;
    } else {
      assert (first + second)[1..] == first[1..] + second;
      if Insert(b, first[0]).Success? {
        InsertAllSplit(Insert(b, first[0]).value, first[1..], second);
      }
    }
  }

  /** Listing a book and restoring the listing gives the same book back. */
  lemma RestoreListing(b: Book)
    requires WellFormed(b)
    ensures Restore(AllResting(b), b.capacity) == Success(b)
  {
    var e := EmptyBook(b.capacity);
    InsertAllSplit(e, b.asks, b.bids);
    InsertAllSide(e, Ask, 0, b.asks);
    assert b.asks[0..] == b.asks && b.bids[0..] == b.bids;
    InsertAllSide(e.(asks := b.asks), Bid, 0, b.bids);
  }

  /** Room and a free id for each of these orders, besides what the book holds. */
  predicate Fits(b: Book, orders: seq<Order>) {
    && DistinctIds(orders) && b.Count() + |orders| <= b.capacity
    && forall i :: 0 <= i < |orders| ==> !b.Contains(orders[i].id)
  }

  /** `b'` is `b` with these orders added, each on its own side. */
  ghost predicate HoldsBoth(b: Book, orders: seq<Order>, b': Book) {
    && b'.capacity == b.capacity && b'.Count() == b.Count() + |orders|
    && (forall x :: x in b'.bids <==> x in b.bids || (x in orders && x.side == Bid))
    && (forall x :: x in b'.asks <==> x in b.asks || (x in orders && x.side == Ask))
  }

  lemma FitsCons(b: Book, orders: seq<Order>)
    requires WellFormed(b) && orders != [] && Insert(b, orders[0]).Success?
    ensures Fits(b, orders) <==> Fits(Insert(b, orders[0]).value, orders[1..])
  {
    var o, rest := orders[0], orders[1..];
    var b' := Insert(b, o).value;
    InsertKeepsSide(o.side, b.On(o.side), o);
    forall id ensures b'.Contains(id) <==> b.Contains(id) || id == o.id {
      HoldsInserted(b.On(o.side), o, id);
    }
    assert forall i :: 0 <= i < |rest| ==> rest[i] == orders[i + 1];
    if Fits(b', rest) {
      forall i, j | 0 <= i < j < |orders| ensures orders[i].id != orders[j].id {
        assert orders[j] == rest[j - 1];
        if i > 0 {
          assert orders[i] == rest[i - 1];
        }
      }
    }
  }

  lemma HoldsInserted(orders: seq<Order>, o: Order, id: u64)
    ensures HoldsId(InsertSorted(orders, o), id) <==> HoldsId(orders, id) || id == o.id
  {
    var k := InsertShape(orders, o);
    var r := InsertSorted(orders, o);
    assert r[k] == o;
    if HoldsId(orders, id) {
      var i :| 0 <= i < |orders| && orders[i].id == id;
      assert r[if i < k then i else i + 1].id == id;
    }
    if HoldsId(r, id) && id != o.id {
      var i :| 0 <= i < |r| && r[i].id == id;
      assert orders[if i < k then i else i - 1].id == id;
    }
  }

  /**
    Restoring any list of orders: it succeeds if and only if their ids are distinct and there is
    room for all, and then the book holds exactly those orders, each on its side, well formed.
   */
  lemma {:induction false} InsertAllIff(b: Book, orders: seq<Order>)
    requires WellFormed(b)
    ensures InsertAll(b, orders).Success? <==> Fits(b, orders)
    ensures InsertAll(b, orders).Success? ==>
      WellFormed(InsertAll(b, orders).value) && HoldsBoth(b, orders, InsertAll(b, orders).value)
    decreases |orders|
  {
    if orders != [] {
      if Insert(b, orders[0]).Success? {
        var b' := Insert(b, orders[0]).value;
        InsertKeepsWellFormed(b, orders[0]);
        FitsCons(b, orders);
        InsertAllIff(b', orders[1..]);
        if InsertAll(b, orders).Success? {
          HoldsBothCons(b, orders, InsertAll(b, orders).value);
        }
      }
    }
  }

  lemma HoldsBothCons(b: Book, orders: seq<Order>, b'': Book)
    requires WellFormed(b) && orders != [] && Insert(b, orders[0]).Success?
    requires HoldsBoth(Insert(b, orders[0]).value, orders[1..], b'')
    ensures HoldsBoth(b, orders, b'')
  {
    InsertKeepsSide(orders[0].side, b.On(orders[0].side), orders[0]);
    assert orders == [orders[0]] + orders[1..];
  }

  /** A restore that fails reports the first order that does not fit, and why. */
  lemma {:induction false} InsertAllError(b: Book, orders: seq<Order>, k: nat)
    requires WellFormed(b) && k < |orders| && Fits(b, orders[..k]) && !Fits(b, orders[..k + 1])
    ensures InsertAll(b, orders) == Failure(
      if b.Contains(orders[k].id) || HoldsId(orders[..k], orders[k].id) then DuplicateOrderId(orders[k].id)
      else ArenaFull)
    decreases k
  {
    var id := orders[k].id;
    InsertAllIff(b, orders[..k]);
    InsertAllSplit(b, orders[..k], orders[k..]);
    assert orders[..k] + orders[k..] == orders;
    var b' := InsertAll(b, orders[..k]).value;
    HoldsEither(b, orders[..k], b', id);
    FitsSnoc(b, orders[..k], orders[k]);
    assert orders[..k] + [orders[k]] == orders[..k + 1];
    assert orders[k..][0] == orders[k];
  }

  lemma HoldsEither(b: Book, orders: seq<Order>, b': Book, id: u64)
    requires HoldsBoth(b, orders, b')
    ensures b'.Contains(id) <==> b.Contains(id) || HoldsId(orders, id)
  {
    HoldsById(b.bids, id);
    HoldsById(b.asks, id);
    HoldsById(b'.bids, id);
    HoldsById(b'.asks, id);
    HoldsById(orders, id);
  }

  lemma HoldsById(orders: seq<Order>, id: u64)
    ensures HoldsId(orders, id) <==> exists x :: x in orders && x.id == id
  {
    if HoldsId(orders, id) {
      var i :| 0 <= i < |orders| && orders[i].id == id;
      assert orders[i] in orders;
    }
  }

  lemma FitsSnoc(b: Book, orders: seq<Order>, o: Order)
    requires Fits(b, orders)
    ensures Fits(b, orders + [o]) <==>
      !b.Contains(o.id) && !HoldsId(orders, o.id) && b.Count() + |orders| < b.capacity
  {
    var all := orders + [o];
    assert all[|orders|] == o;
    assert forall i :: 0 <= i < |orders| ==> all[i] == orders[i];
  }

  // ----- Replaying

  lemma {:induction false} ReplaySplit(b: Book, first: seq<Command>, second: seq<Command>)
    ensures Replay(b, first + second) == Replay(Replay(b, first), second)
    decreases |first|
  {
    if first == [] {
      assert first + second == second;
    } else {
      assert (first + second)[1..] == first[1..] + second;
      ReplaySplit(Step(b, first[0]).0, first[1..], second);
    }
  }
}
