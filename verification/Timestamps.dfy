/**
  Timestamps: the engine carries them and never looks at them. The log does not keep them
  (src/protocol.rs decodes every order with timestamp 0), so a rebuilt book can differ from
  the live one in timestamps and in nothing else. This module says exactly when it does.
 */
module Timestamps {
  import opened Orders
  import opened BookSpec
  import BookTheorems

  // ----- Changing timestamps

  /** A new timestamp for an order, from its id and its old timestamp. */
  type Stamping = (u64, u64) -> u64

  function RestampOrder(f: Stamping, o: Order): Order { o.(timestamp := f(o.id, o.timestamp)) }

  function RestampAll(f: Stamping, orders: seq<Order>): seq<Order> {
    seq(|orders|, i requires 0 <= i < |orders| => RestampOrder(f, orders[i]))
  }

  function RestampBook(f: Stamping, b: Book): Book {
    Book(RestampAll(f, b.bids), RestampAll(f, b.asks), b.capacity)
  }

  function RestampCommand(f: Stamping, c: Command): Command {
    match c case NewOrder(o) => NewOrder(RestampOrder(f, o)) case CancelOrder(_) => c
  }

  function RestampCommands(f: Stamping, cs: seq<Command>): seq<Command> {
    seq(|cs|, i requires 0 <= i < |cs| => RestampCommand(f, cs[i]))
  }

  /** Only the answer to a cancel has a timestamp in it: that of the order it took out. */
  function RestampOutput(f: Stamping, out: Output): Output {
    match out
    case Added(_) => out
    case Cancelled(r) =>
      Cancelled(match r case Success(o) => Success(RestampOrder(f, o)) case Failure(_) => r)
  }

  // ----- Every step commutes with that

  lemma {:induction false} RestampInsert(f: Stamping, orders: seq<Order>, o: Order)
    ensures RestampAll(f, InsertSorted(orders, o)) == InsertSorted(RestampAll(f, orders), RestampOrder(f, o))
  {
    var rs := RestampAll(f, orders);
    if orders == [] || Better(o.side, o.price, orders[0].price) {
      assert RestampAll(f, [o] + orders) == [RestampOrder(f, o)] + rs;
    } else {
      var tail := InsertSorted(orders[1..], o);
      RestampInsert(f, orders[1..], o);
      assert rs[1..] == RestampAll(f, orders[1..]);
      assert RestampAll(f, [orders[0]] + tail) == [RestampOrder(f, orders[0])] + RestampAll(f, tail);
    }
  }

  /** Matching looks neither at the makers' timestamps nor at the taker's. */
  lemma {:induction false} RestampMatch(f: Stamping, makers: seq<Order>, taker: Order, stamp: u64)
    ensures var r := Match(makers, taker);
      Match(RestampAll(f, makers), taker.(timestamp := stamp)) == r.(rest := RestampAll(f, r.rest))
  {
    if BookTheorems.Trades(makers, taker) {
      var fill := FillOf(taker, makers[0]);
      assert RestampAll(f, makers)[1..] == RestampAll(f, makers[1..]);
      if fill.makerFullyFilled {
        RestampMatch(f, makers[1..], taker.(quantity := taker.quantity - fill.quantity), stamp);
      } else {
        var left := makers[0].(quantity := makers[0].quantity - fill.quantity);
        assert RestampAll(f, [left] + makers[1..]) == [RestampOrder(f, left)] + RestampAll(f, makers[1..]);
      }
    }
  }

  lemma RestampHolds(f: Stamping, orders: seq<Order>, id: u64)
    ensures HoldsId(RestampAll(f, orders), id) <==> HoldsId(orders, id)
    ensures IndexOf(RestampAll(f, orders), id) == IndexOf(orders, id)
  {
    var s := RestampAll(f, orders);
    if HoldsId(orders, id) {
      var k :| 0 <= k < |orders| && orders[k].id == id;
      assert s[k].id == id;
    }
    var i, j := IndexOf(orders, id), IndexOf(s, id);
    assert i < |orders| ==> s[i].id == id;
    assert j < |s| ==> orders[j].id == id;
  }

  lemma RestampRemove(f: Stamping, orders: seq<Order>, i: nat)
    requires i < |orders|
    ensures RemoveAt(RestampAll(f, orders), i) == RestampAll(f, RemoveAt(orders, i))
    ensures RestampAll(f, orders)[i] == RestampOrder(f, orders[i])
  {
  }

  lemma RestampCancel(f: Stamping, b: Book, id: u64)
    ensures var (b', out) := Step(b, CancelOrder(id));
      Step(RestampBook(f, b), CancelOrder(id)) == (RestampBook(f, b'), RestampOutput(f, out))
  {
    RestampHolds(f, b.bids, id);
    RestampHolds(f, b.asks, id);
    var i, j := IndexOf(b.bids, id), IndexOf(b.asks, id);
    if i < |b.bids| {
      RestampRemove(f, b.bids, i);
    } else if j < |b.asks| {
      RestampRemove(f, b.asks, j);
    }
  }

  /** Two stampings that differ on one id only. */
  ghost predicate AgreeBut(f: Stamping, g: Stamping, id: u64) {
    forall x: u64, t: u64 {:trigger g(x, t)} :: x != id ==> f(x, t) == g(x, t)
  }

  lemma RestampAbsent(f: Stamping, g: Stamping, orders: seq<Order>, id: u64)
    requires AgreeBut(f, g, id) && !HoldsId(orders, id)
    ensures RestampAll(f, orders) == RestampAll(g, orders)
  {
  }

  /** Resting a restamped order in a book restamped alike, the order's own id aside. */
  lemma RestampRest(f: Stamping, g: Stamping, b: Book, o: Order)
    requires AgreeBut(f, g, o.id)
    ensures Insert(RestampBook(f, b), RestampOrder(g, o)) ==
      match Insert(b, o) case Failure(e) => Failure(e) case Success(b') => Success(RestampBook(g, b'))
  {
    RestampHolds(f, b.bids, o.id);
    RestampHolds(f, b.asks, o.id);
    if Insert(b, o).Success? {
      RestampAbsent(f, g, b.bids, o.id);
      RestampAbsent(f, g, b.asks, o.id);
      RestampInsert(g, b.On(o.side), o);
    }
  }

  predicate CameToRest(out: Output) {
    out.Added? && out.added.Success? && out.added.value.status in {Resting, PartiallyFilled}
  }

  lemma RestampAdd(f: Stamping, g: Stamping, b: Book, o: Order)
    requires AgreeBut(f, g, o.id)
    ensures var (b', out) := Step(b, NewOrder(o));
      Step(RestampBook(f, b), NewOrder(RestampOrder(g, o)))
        == (RestampBook(if CameToRest(out) then g else f, b'), out)
  {
    var opp := o.side.Opposite();
    var m := Match(b.On(opp), o);
    var matched := b.With(opp, m.rest);
    RestampMatch(f, b.On(opp), o, g(o.id, o.timestamp));
    assert RestampBook(f, b).With(opp, RestampAll(f, m.rest)) == RestampBook(f, matched);
    RestampRest(f, g, matched, o.(quantity := m.left));
  }

  /**
    Changing timestamps, in any way, commutes with every engine step. The answer is the same,
    except that a cancelled order is returned with its changed timestamp.
   */
  lemma StepRestamps(f: Stamping, b: Book, cmd: Command)
    ensures var (b', out) := Step(b, cmd);
      Step(RestampBook(f, b), RestampCommand(f, cmd)) == (RestampBook(f, b'), RestampOutput(f, out))
  {
    match cmd
    case CancelOrder(id) => RestampCancel(f, b, id);
    case NewOrder(o) => RestampAdd(f, f, b, o);
  }

  lemma {:induction false} ReplayRestamps(f: Stamping, b: Book, cmds: seq<Command>)
    ensures Replay(RestampBook(f, b), RestampCommands(f, cmds)) == RestampBook(f, Replay(b, cmds))
    decreases |cmds|
  {
    if cmds != [] {
      StepRestamps(f, b, cmds[0]);
      assert RestampCommands(f, cmds)[1..] == RestampCommands(f, cmds[1..]);
      ReplayRestamps(f, Step(b, cmds[0]).0, cmds[1..]);
    }
  }

  // ----- Erasing timestamps

  function NoStamp(id: u64, timestamp: u64): u64 { 0 }

  function StripOrder(o: Order): Order { RestampOrder(NoStamp, o) }

  function StripBook(b: Book): Book { RestampBook(NoStamp, b) }

  function StripCommand(c: Command): Command { RestampCommand(NoStamp, c) }

  function StripCommands(cs: seq<Command>): seq<Command> { RestampCommands(NoStamp, cs) }

  function StripOutput(out: Output): Output { RestampOutput(NoStamp, out) }

  /** Erasing timestamps commutes with every engine step; only a cancelled order shows it. */
  lemma StepIgnoresTimestamps(b: Book, cmd: Command)
    ensures var (b', out) := Step(b, cmd);
      Step(StripBook(b), StripCommand(cmd)) == (StripBook(b'), StripOutput(out))
  {
    StepRestamps(NoStamp, b, cmd);
  }

  lemma ReplayIgnoresTimestamps(b: Book, cmds: seq<Command>)
    ensures Replay(StripBook(b), StripCommands(cmds)) == StripBook(Replay(b, cmds))
  {
    ReplayRestamps(NoStamp, b, cmds);
  }

  lemma StripTwice(cmds: seq<Command>, b: Book)
    ensures StripCommands(StripCommands(cmds)) == StripCommands(cmds)
    ensures StripBook(StripBook(b)) == StripBook(b)
  {
  }

  /**
    A book that agrees with the first k commands up to timestamps, carried over commands
    k+1..n read back without timestamps, agrees with all n commands up to timestamps.
   */
  lemma ReplayFromAnyPoint(start: Book, capacity: nat, cmds: seq<Command>, k: nat)
    requires k <= |cmds|
    requires StripBook(start) == StripBook(Replay(EmptyBook(capacity), cmds[..k]))
    ensures StripBook(Replay(start, StripCommands(cmds[k..]))) == StripBook(Replay(EmptyBook(capacity), cmds))
  {
    var mid := Replay(EmptyBook(capacity), cmds[..k]);
    assert cmds == cmds[..k] + cmds[k..];
    BookTheorems.ReplaySplit(EmptyBook(capacity), cmds[..k], cmds[k..]);
    ReplayIgnoresTimestamps(mid, cmds[k..]);
    StripTwice(cmds[k..], start);
    ReplayIgnoresTimestamps(start, StripCommands(cmds[k..]));
  }

  // ----- When a rebuilt book is the live book

  /** The ids of the orders that came to rest, as the engine's answers tell them. */
  function Rested(outs: seq<Output>): set<u64> {
    set i | 0 <= i < |outs| && CameToRest(outs[i]) :: outs[i].added.value.orderId
  }

  /** Erases the timestamps of these orders and keeps those of all others. */
  function Forget(ids: set<u64>): Stamping {
    (id: u64, timestamp: u64) => if id in ids then 0 else timestamp
  }

  function RestedBy(out: Output): set<u64> {
    if CameToRest(out) then {out.added.value.orderId} else {}
  }

  lemma RestedCons(out: Output, outs: seq<Output>)
    ensures Rested([out] + outs) == RestedBy(out) + Rested(outs)
  {
    var all := [out] + outs;
    forall id ensures id in Rested(all) <==> id in RestedBy(out) + Rested(outs) {
      if id in Rested(outs) {
        var i :| 0 <= i < |outs| && CameToRest(outs[i]) && outs[i].added.value.orderId == id;
        assert all[i + 1] == outs[i];
      }
      if id in RestedBy(out) {
        assert all[0] == out;
      }
    }
  }

  /** One command read back from the log, on a book that has forgotten some timestamps. */
  lemma StepForgets(b: Book, cmd: Command, ids: set<u64>)
    ensures var (b', out) := Step(b, cmd);
      Step(RestampBook(Forget(ids), b), StripCommand(cmd)).0 == RestampBook(Forget(ids + RestedBy(out)), b')
  {
    match cmd
    case CancelOrder(id) =>
      RestampCancel(Forget(ids), b, id);
      assert ids + {} == ids;
    case NewOrder(o) =>
      RestampAdd(Forget(ids), Forget(ids + {o.id}), b, o);
      assert ids + {} == ids;
  }

  /** Replaying a stretch of the log forgets the timestamps of the orders that came to rest in it. */
  lemma {:induction false} ReplayForgets(b: Book, cmds: seq<Command>, ids: set<u64>)
    ensures Replay(RestampBook(Forget(ids), b), StripCommands(cmds))
         == RestampBook(Forget(ids + Rested(Outputs(b, cmds))), Replay(b, cmds))
    decreases |cmds|
  {
    if cmds == [] {
      assert ids + Rested([]) == ids;
    } else {
      var (b', out) := Step(b, cmds[0]);
      StepForgets(b, cmds[0], ids);
      assert StripCommands(cmds)[1..] == StripCommands(cmds[1..]);
      ReplayForgets(b', cmds[1..], ids + RestedBy(out));
      RestedCons(out, Outputs(b', cmds[1..]));
      assert ids + RestedBy(out) + Rested(Outputs(b', cmds[1..])) == ids + Rested(Outputs(b, cmds));
    }
  }

  /** No order with one of these ids rests with a timestamp. */
  ghost predicate Unstamped(b: Book, ids: set<u64>) {
    forall o :: (o in b.bids || o in b.asks) && o.id in ids ==> o.timestamp == 0
  }

  lemma ForgetIsIdentityIff(orders: seq<Order>, ids: set<u64>)
    ensures RestampAll(Forget(ids), orders) == orders
      <==> forall o :: o in orders && o.id in ids ==> o.timestamp == 0
  {
    var rs := RestampAll(Forget(ids), orders);
    assert forall i :: 0 <= i < |orders| ==> rs[i] == RestampOrder(Forget(ids), orders[i]);
  }

  lemma ForgetBookIff(b: Book, ids: set<u64>)
    ensures RestampBook(Forget(ids), b) == b <==> Unstamped(b, ids)
  {
    ForgetIsIdentityIff(b.bids, ids);
    ForgetIsIdentityIff(b.asks, ids);
  }

  /**
    From any book, commands read back from the log rebuild the live book except that the orders
    which came to rest meanwhile lose their timestamps. So the two are equal exactly when no such
    order still rests with a timestamp.
   */
  lemma ReplayIsExactIff(start: Book, cmds: seq<Command>)
    ensures var live, rebuilt := Replay(start, cmds), Replay(start, StripCommands(cmds));
      var ids := Rested(Outputs(start, cmds));
      rebuilt == RestampBook(Forget(ids), live) && (rebuilt == live <==> Unstamped(live, ids))
  {
    var ids := Rested(Outputs(start, cmds));
    ForgetBookIff(start, {});
    ReplayForgets(start, cmds, {});
    assert {} + ids == ids;
    ForgetBookIff(Replay(start, cmds), ids);
  }

  /** From an empty book: exactly when no resting order has a timestamp. */
  lemma FreshReplayIsExactIff(capacity: nat, cmds: seq<Command>)
    ensures var live := Replay(EmptyBook(capacity), cmds);
      var rebuilt := Replay(EmptyBook(capacity), StripCommands(cmds));
      && rebuilt == StripBook(live)
      && (rebuilt == live <==> forall o :: o in live.bids || o in live.asks ==> o.timestamp == 0)
  {
    var live := Replay(EmptyBook(capacity), cmds);
    ReplayIgnoresTimestamps(EmptyBook(capacity), cmds);
    assert StripBook(EmptyBook(capacity)) == EmptyBook(capacity);
    StripIsIdentityIff(live.bids);
    StripIsIdentityIff(live.asks);
  }

  lemma StripIsIdentityIff(orders: seq<Order>)
    ensures RestampAll(NoStamp, orders) == orders <==> forall o :: o in orders ==> o.timestamp == 0
  {
    var rs := RestampAll(NoStamp, orders);
    assert forall i :: 0 <= i < |orders| ==> rs[i] == StripOrder(orders[i]);
  }

  /** One order with a timestamp is enough for the rebuilt book to differ from the live one. */
  lemma TimestampsAreLost()
    ensures var cmds := [NewOrder(Order(1, 1, Bid, 100, 5, 777))];
      Replay(EmptyBook(4), StripCommands(cmds)) != Replay(EmptyBook(4), cmds)
  {
    var o := Order(1, 1, Bid, 100, 5, 777);
    var cmds := [NewOrder(o)];
    assert cmds[1..] == [];
    assert Replay(EmptyBook(4), cmds) == Step(EmptyBook(4), NewOrder(o)).0;
    assert Step(EmptyBook(4), NewOrder(o)).0 == Book([o], [], 4);
    FreshReplayIsExactIff(4, cmds);
    assert o in Replay(EmptyBook(4), cmds).bids;
  }

  // ----- With a clock that runs forward

  function After(cut: u64): Stamping {
    (id: u64, timestamp: u64) => if timestamp > cut then 0 else timestamp
  }

  ghost predicate StampedBy(b: Book, cut: u64) {
    forall o :: o in b.bids || o in b.asks ==> o.timestamp <= cut
  }

  ghost predicate StampedAfter(cmds: seq<Command>, cut: u64) {
    forall i :: 0 <= i < |cmds| && cmds[i].NewOrder? ==> cmds[i].order.timestamp > cut
  }

  lemma KeepsIff(orders: seq<Order>, cut: u64)
    ensures RestampAll(After(cut), orders) == orders <==> forall o :: o in orders ==> o.timestamp <= cut
  {
    var rs := RestampAll(After(cut), orders);
    assert forall i :: 0 <= i < |orders| ==> rs[i] == RestampOrder(After(cut), orders[i]);
  }

  lemma KeepsBookIff(b: Book, cut: u64)
    ensures RestampBook(After(cut), b) == b <==> StampedBy(b, cut)
  {
    KeepsIff(b.bids, cut);
    KeepsIff(b.asks, cut);
  }

  /**
    When everything resting at the start was stamped by some moment and every later order after
    it, the rebuilt book is the live one exactly when all that rests is from before that moment.
   */
  lemma ReplayIsExactIffOld(start: Book, cmds: seq<Command>, cut: u64)
    requires StampedBy(start, cut) && StampedAfter(cmds, cut)
    ensures var live, rebuilt := Replay(start, cmds), Replay(start, StripCommands(cmds));
      rebuilt == RestampBook(After(cut), live) && (rebuilt == live <==> StampedBy(live, cut))
  {
    KeepsBookIff(start, cut);
    KeepsBookIff(Replay(start, cmds), cut);
    assert RestampCommands(After(cut), cmds) == StripCommands(cmds);
    ReplayRestamps(After(cut), start, cmds);
  }
}
