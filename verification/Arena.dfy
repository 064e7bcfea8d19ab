/**
  The slab of src/arena.rs: one fixed array of nodes holds a singly linked free list and
  any number of doubly linked price-level lists, all through the same `next` field.

  Links are specified on `storage[..]`, the array read as a sequence; the ghost sequences
  `free` and `q` name the slots of each list in order.
 */
module Arenas {
  import opened Orders

  datatype Node = Node(
    id: u64, traderId: u64, price: i64, quantity: u64, timestamp: u64, prev: u32, next: u32, side: Side)

  datatype PriceLevel = PriceLevel(head: u32, tail: u32, count: u32, qty: u64)

  const EMPTY_LEVEL: PriceLevel := PriceLevel(NULL, NULL, 0, 0)

  function FromOrder(o: Order): Node {
    Node(o.id, o.traderId, o.price, o.quantity, o.timestamp, NULL, NULL, o.side)
  }

  function ToOrder(n: Node): Order {
    Order(n.id, n.traderId, n.side, n.price, n.quantity, n.timestamp)
  }

  /** Release-build arithmetic on the level's quantity counter, which wraps. */
  function WrapAdd(a: u64, b: u64): u64 { (a + b) % U64_MOD }

  function WrapSub(a: u64, b: u64): u64 { (a - b) % U64_MOD }

  // ----- Lists of slots

  predicate NoDup(q: seq<u32>) {
    forall i, j :: 0 <= i < j < |q| ==> q[i] != q[j]
  }

  predicate InRange(q: seq<u32>, n: nat) {
    forall i :: 0 <= i < |q| ==> q[i] < n
  }

  /** The slot at a position, or NULL past either end. */
  function At(q: seq<u32>, i: int): u32 {
    if 0 <= i < |q| then q[i] else NULL
  }

  function Without(q: seq<u32>, k: nat): seq<u32>
    requires k < |q|
  {
    q[..k] + q[k + 1..]
  }

  lemma {:induction false} Pigeonhole(q: seq<u32>, n: nat)
    requires NoDup(q) && InRange(q, n)
    ensures |q| <= n
  {
    if q != [] {
      assert q[0] < n;
      if exists k :: 0 <= k < |q| && q[k] == n - 1 {
        var k :| 0 <= k < |q| && q[k] == n - 1;
        Pigeonhole(Without(q, k), n - 1);
      } else {
        Pigeonhole(q, n - 1);
      }
    }
  }

  /** Forward links follow the list and end in NULL. */
  ghost predicate Forward(mem: seq<Node>, q: seq<u32>) {
    InRange(q, |mem|) && forall i {:trigger mem[q[i]]} :: 0 <= i < |q| ==> mem[q[i]].next == At(q, i + 1)
  }

  /** Backward links mirror it. */
  ghost predicate Backward(mem: seq<Node>, q: seq<u32>) {
    InRange(q, |mem|) && forall i {:trigger mem[q[i]]} :: 0 <= i < |q| ==> mem[q[i]].prev == At(q, i - 1)
  }

  ghost predicate Linked(mem: seq<Node>, level: PriceLevel, q: seq<u32>) {
    && NoDup(q) && Forward(mem, q) && Backward(mem, q)
    && level.head == At(q, 0) && level.tail == At(q, |q| - 1) && level.count == |q|
  }

  /** Only links changed, and only in the named slots. */
  ghost predicate OnlyLinks(mem: seq<Node>, mem': seq<Node>, touched: seq<u32>) {
    && |mem'| == |mem|
    && forall s :: 0 <= s < |mem| ==> ToOrder(mem'[s]) == ToOrder(mem[s]) && (s !in touched ==> mem'[s] == mem[s])
  }

  lemma WithoutEnds(q: seq<u32>, k: nat)
    requires k < |q|
    ensures At(Without(q, k), 0) == if k == 0 then At(q, 1) else q[0]
    ensures At(Without(q, k), |q| - 2) == if k + 1 == |q| then At(q, k - 1) else q[|q| - 1]
  {
  }

  ghost function Reduced(mem: seq<Node>, s: u32, fill: u64): seq<Node>
    requires s < |mem| && fill <= mem[s].quantity
  {
    mem[s := mem[s].(quantity := mem[s].quantity - fill)]
  }

  // ----- The three list edits, on the array read as a sequence

  ghost function LinkBack(mem: seq<Node>, q: seq<u32>, index: u32): seq<Node>
    requires InRange(q, |mem|) && index < |mem| && index !in q
  {
    if q == [] then mem[index := mem[index].(prev := NULL, next := NULL)]
    else
      var last := q[|q| - 1];
      mem[last := mem[last].(next := index)][index := mem[index].(prev := last, next := NULL)]
  }

  ghost function Bridged(mem: seq<Node>, prev: u32, next: u32): seq<Node>
    requires prev != NULL ==> prev < |mem|
    requires next != NULL ==> next < |mem|
  {
    var mem1 := if prev == NULL then mem else mem[prev := mem[prev].(next := next)];
    if next == NULL then mem1 else mem1[next := mem1[next].(prev := prev)]
  }

  ghost function Unlink(mem: seq<Node>, q: seq<u32>, k: nat): seq<Node>
    requires InRange(q, |mem|) && k < |q|
  {
    Bridged(mem, At(q, k - 1), At(q, k + 1))
  }

  lemma LinkBackForward(mem: seq<Node>, q: seq<u32>, index: u32)
    requires NoDup(q) && Forward(mem, q) && index < |mem| && index !in q
    ensures Forward(LinkBack(mem, q, index), q + [index])
  {
  }

  lemma LinkBackBackward(mem: seq<Node>, q: seq<u32>, index: u32)
    requires NoDup(q) && Backward(mem, q) && index < |mem| && index !in q
    ensures Backward(LinkBack(mem, q, index), q + [index])
  {
  }

  lemma LinkBackTouches(mem: seq<Node>, q: seq<u32>, index: u32)
    requires InRange(q, |mem|) && index < |mem| && index !in q
    ensures OnlyLinks(mem, LinkBack(mem, q, index), q + [index])
  {
  }

  lemma LinkBackExtends(mem: seq<Node>, q: seq<u32>, index: u32)
    requires NoDup(q) && Forward(mem, q) && Backward(mem, q) && index < |mem| && index !in q
    ensures var mem' := LinkBack(mem, q, index);
      && NoDup(q + [index]) && Forward(mem', q + [index]) && Backward(mem', q + [index])
      && OnlyLinks(mem, mem', q + [index])
  {
    LinkBackForward(mem, q, index);
    LinkBackBackward(mem, q, index);
    LinkBackTouches(mem, q, index);
  }

  lemma UnlinkForward(mem: seq<Node>, q: seq<u32>, k: nat)
    requires NoDup(q) && Forward(mem, q) && k < |q| && |mem| <= NULL
    ensures Forward(Unlink(mem, q, k), Without(q, k))
  {
    var mem', q' := Unlink(mem, q, k), Without(q, k);
    forall i | 0 <= i < |q'| ensures q'[i] < |mem'| && mem'[q'[i]].next == At(q', i + 1) {
      var j := if i < k then i else i + 1;
      assert q'[i] == q[j];
      if j != k - 1 { assert mem'[q[j]].next == mem[q[j]].next; }
    }
  }

  lemma UnlinkBackward(mem: seq<Node>, q: seq<u32>, k: nat)
    requires NoDup(q) && Backward(mem, q) && k < |q| && |mem| <= NULL
    ensures Backward(Unlink(mem, q, k), Without(q, k))
  {
    var mem', q' := Unlink(mem, q, k), Without(q, k);
    forall i | 0 <= i < |q'| ensures q'[i] < |mem'| && mem'[q'[i]].prev == At(q', i - 1) {
      var j := if i < k then i else i + 1;
      assert q'[i] == q[j];
      if j != k + 1 { assert mem'[q[j]].prev == mem[q[j]].prev; }
    }
  }

  lemma UnlinkTouches(mem: seq<Node>, q: seq<u32>, k: nat)
    requires NoDup(q) && InRange(q, |mem|) && k < |q| && |mem| <= NULL
    ensures OnlyLinks(mem, Unlink(mem, q, k), Without(q, k))
    ensures NoDup(Without(q, k))
    ensures Unlink(mem, q, k)[q[k]] == mem[q[k]]
  {
  }

  lemma UnlinkShortens(mem: seq<Node>, q: seq<u32>, k: nat)
    requires NoDup(q) && Forward(mem, q) && Backward(mem, q) && k < |q| && |mem| <= NULL
    ensures var mem' := Unlink(mem, q, k);
      && NoDup(Without(q, k)) && Forward(mem', Without(q, k)) && Backward(mem', Without(q, k))
      && OnlyLinks(mem, mem', Without(q, k))
      && mem'[q[k]] == mem[q[k]]
  {
    UnlinkForward(mem, q, k);
    UnlinkBackward(mem, q, k);
    UnlinkTouches(mem, q, k);
  }

  lemma UnlinkedLevel(mem: seq<Node>, level: PriceLevel, q: seq<u32>, k: nat, level': PriceLevel)
    requires Linked(mem, level, q) && k < |q| && |mem| <= NULL
    requires level'.head == (if k > 0 then level.head else At(q, 1))
    requires level'.tail == (if k + 1 < |q| then level.tail else At(q, k - 1))
    requires level'.count == level.count - 1
    ensures Linked(Unlink(mem, q, k), level', Without(q, k))
    ensures OnlyLinks(mem, Unlink(mem, q, k), Without(q, k))
  {
    WithoutEnds(q, k);
    UnlinkShortens(mem, q, k);
  }

  lemma UnlinkKeepsFree(mem: seq<Node>, q: seq<u32>, k: nat, free: seq<u32>)
    requires NoDup(q) && InRange(q, |mem|) && k < |q| && |mem| <= NULL && Forward(mem, free)
    requires forall i :: 0 <= i < |q| ==> q[i] !in free
    ensures Forward(Unlink(mem, q, k), free)
  {
  }

  lemma ForwardElsewhere(mem: seq<Node>, mem': seq<Node>, touched: seq<u32>, q: seq<u32>)
    requires OnlyLinks(mem, mem', touched) && Forward(mem, q)
    requires forall i :: 0 <= i < |q| ==> q[i] !in touched
    ensures Forward(mem', q)
  {
  }

  // ----- The arena

  class Arena {
    const capacity: u32
    const storage: array<Node>
    var freeHead: u32
    var count: u32
    ghost var free: seq<u32>

    ghost predicate Valid()
      reads this, storage
    {
      && storage.Length == capacity
      && NoDup(free) && Forward(storage[..], free) && freeHead == At(free, 0)
      && count + |free| == capacity
    }

    constructor (capacity: u32)
      ensures Valid() && fresh(storage)
      ensures this.capacity == capacity && count == 0
      ensures |free| == capacity && forall i :: 0 <= i < capacity ==> free[i] == i
    {
      this.capacity := capacity;
      var nodes := new Node[capacity](i => Node(0, 0, 0, 0, 0, NULL, NULL, Bid));
      var i := 0;
      while i < capacity
        invariant 0 <= i <= capacity
        invariant forall k :: 0 <= k < i ==> nodes[k].next == if k + 1 < capacity then k + 1 else NULL
      {
        nodes[i] := nodes[i].(next := if i + 1 < capacity then i + 1 else NULL);
        i := i + 1;
      }
      storage := nodes;
      freeHead := if capacity > 0 then 0 else NULL;
      count := 0;
      free := seq(capacity, k requires 0 <= k < capacity => k);
    }

    /** Takes the head of the free list; fails exactly when the list is empty. */
    method Alloc(order: Order) returns (r: Result<u32, ()>)
      requires Valid()
      modifies this, storage
      ensures Valid()
      ensures r.Failure? <==> old(free) == []
      ensures r.Failure? ==> unchanged(this) && unchanged(storage)
      ensures r.Success? ==> r.value < capacity && r.value == old(free)[0] && free == old(free)[1..]
      ensures r.Success? ==> storage[..] == old(storage[..])[r.value := FromOrder(order)]
    {
      if freeHead == NULL {
        return Failure(());
      }
      var index := freeHead;
      ghost var mem, q := storage[..], free;
      assert mem[q[0]].next == At(q, 1);
      freeHead := storage[index].next;
      storage[index] := FromOrder(order);
      count := count + 1;
      free := free[1..];
      assert storage[..] == mem[index := FromOrder(order)];
      return Success(index);
    }

    /** Puts a slot that is not free at the head of the free list. */
    method Dealloc(index: u32)
      requires Valid() && index < capacity && index !in free
      modifies this, storage
      ensures Valid()
      ensures free == [index] + old(free)
      ensures storage[..] == old(storage[..])[index := old(storage[..])[index].(next := old(freeHead))]
    {
      ghost var mem, q := storage[..], free;
      Pigeonhole([index] + q, capacity);
      storage[index] := storage[index].(next := freeHead);
      freeHead := index;
      count := count - 1;
      free := [index] + free;
      assert storage[..] == mem[index := mem[index].(next := At(q, 0))];
    }

    /** Appends an allocated slot to a level's list. */
    method PushBack(level: PriceLevel, index: u32, ghost q: seq<u32>) returns (level': PriceLevel)
      requires Valid() && Linked(storage[..], level, q)
      requires index < capacity && index !in q && index !in free
      requires forall i :: 0 <= i < |q| ==> q[i] !in free
      modifies storage
      ensures Valid()
      ensures Linked(storage[..], level', q + [index])
      ensures OnlyLinks(old(storage[..]), storage[..], q + [index])
      ensures level'.qty == WrapAdd(level.qty, old(storage[index].quantity))
    {
      ghost var mem := storage[..];
      LinkBackExtends(mem, q, index);
      Pigeonhole(q + [index], capacity);
      var quantity := storage[index].quantity;
      level' := level;
      if level.tail != NULL {
        var oldTail := level.tail;
        storage[oldTail] := storage[oldTail].(next := index);
        storage[index] := storage[index].(prev := oldTail);
      } else {
        level' := level'.(head := index);
        storage[index] := storage[index].(prev := NULL);
      }
      storage[index] := storage[index].(next := NULL);
      level' := level'.(tail := index, count := level'.count + 1, qty := WrapAdd(level'.qty, quantity));
      assert storage[..] == LinkBack(mem, q, index);
      ForwardElsewhere(mem, storage[..], q + [index], free);
    }

    /** Unlinks the oldest order of a level, if it has one. */
    method PopFront(level: PriceLevel, ghost q: seq<u32>) returns (level': PriceLevel, popped: Option<u32>)
      requires Valid() && Linked(storage[..], level, q)
      requires forall i :: 0 <= i < |q| ==> q[i] !in free
      modifies storage
      ensures Valid()
      ensures q == [] ==> popped == None && level' == level && storage[..] == old(storage[..])
      ensures q != [] ==> storage[..] == Unlink(old(storage[..]), q, 0)
      ensures q != [] ==> popped == Some(q[0]) && Linked(storage[..], level', Without(q, 0))
      ensures q != [] ==> OnlyLinks(old(storage[..]), storage[..], Without(q, 0))
      ensures q != [] ==> level'.qty == WrapSub(level.qty, old(storage[..])[q[0]].quantity)
    {
      level' := level;
      if level.head == NULL {
        return level', None;
      }
      ghost var mem := storage[..];
      UnlinkShortens(mem, q, 0);
      var index := level.head;
      var next := storage[index].next;
      var quantity := storage[index].quantity;
      assert next == At(q, 1);
      if next != NULL {
        storage[next] := storage[next].(prev := NULL);
        level' := level'.(head := next);
      } else {
        level' := level'.(head := NULL, tail := NULL);
      }
      level' := level'.(count := level'.count - 1, qty := WrapSub(level'.qty, quantity));
      popped := Some(index);
      assert storage[..] == Unlink(mem, q, 0);
      ForwardElsewhere(mem, storage[..], Without(q, 0), free);
    }

    /** Unlinks a slot from anywhere in a level's list. */
    method Remove(level: PriceLevel, index: u32, ghost q: seq<u32>, ghost k: nat) returns (level': PriceLevel)
      requires Valid() && Linked(storage[..], level, q)
      requires k < |q| && q[k] == index
      requires forall i :: 0 <= i < |q| ==> q[i] !in free
      modifies storage
      ensures Valid()
      ensures storage[..] == Unlink(old(storage[..]), q, k)
      ensures Linked(storage[..], level', Without(q, k))
      ensures OnlyLinks(old(storage[..]), storage[..], Without(q, k))
      ensures level'.qty == WrapSub(level.qty, old(storage[..])[index].quantity)
    {
      ghost var mem := storage[..];
      assert mem[q[k]] == storage[index];
      var prevIdx := storage[index].prev;
      var nextIdx := storage[index].next;
      var quantity := storage[index].quantity;
      level' := level.(head := if prevIdx != NULL then level.head else nextIdx,
                       tail := if nextIdx != NULL then level.tail else prevIdx,
                       count := level.count - 1, qty := WrapSub(level.qty, quantity));
      UnlinkedLevel(mem, level, q, k, level');
      UnlinkKeepsFree(mem, q, k, free);
      Bridge(prevIdx, nextIdx);
    }

    /** Makes two neighbours (either may be NULL) point at each other. */
    method Bridge(prevIdx: u32, nextIdx: u32)
      requires prevIdx != NULL ==> prevIdx < storage.Length
      requires nextIdx != NULL ==> nextIdx < storage.Length
      modifies storage
      ensures storage[..] == Bridged(old(storage[..]), prevIdx, nextIdx)
    {
      if prevIdx != NULL {
        storage[prevIdx] := storage[prevIdx].(next := nextIdx);
      }
      if nextIdx != NULL {
        storage[nextIdx] := storage[nextIdx].(prev := prevIdx);
      }
    }

    /** Alloc, then PushBack: a new order joins the back of a level, or there is no slot for it. */
    method AllocBack(order: Order, level: PriceLevel, ghost q: seq<u32>) returns (r: Result<(u32, PriceLevel), ()>)
      requires Valid() && Linked(storage[..], level, q)
      requires forall i :: 0 <= i < |q| ==> q[i] !in free
      modifies this, storage
      ensures Valid()
      ensures r.Failure? <==> old(count) == capacity
      ensures r.Failure? ==> unchanged(this) && unchanged(storage)
      ensures r.Success? ==>
        && old(free) != [] && NoDup(old(free)) && r.value.0 == old(free)[0] && r.value.0 < capacity
        && free == old(free)[1..] && count == old(count) + 1
        && Linked(storage[..], r.value.1, q + [r.value.0])
        && OnlyLinks(old(storage[..])[r.value.0 := FromOrder(order)], storage[..], q + [r.value.0])
        && r.value.1.qty == WrapAdd(level.qty, order.quantity)
    {
      ghost var mem, free0 := storage[..], free;
      var a := Alloc(order);
      if a.Failure? {
        return Failure(());
      }
      assert free0 == [a.value] + free;
      LinkedIgnores(mem, a.value, FromOrder(order), level, q);
      var level' := PushBack(level, a.value, q);
      r := Success((a.value, level'));
    }

    /** Remove, then Dealloc: a slot leaves its level and becomes the first free one. */
    method RemoveFree(level: PriceLevel, index: u32, ghost q: seq<u32>, ghost k: nat) returns (level': PriceLevel)
      requires Valid() && Linked(storage[..], level, q)
      requires k < |q| && q[k] == index
      requires forall i :: 0 <= i < |q| ==> q[i] !in free
      modifies this, storage
      ensures Valid() && free == [index] + old(free) && old(count) > 0 && count == old(count) - 1
      ensures FreedFrom(old(storage[..]), storage[..], old(freeHead), level, level', q, k)
    {
      level' := Remove(level, index, q, k);
      Dealloc(index);
    }

    /** Takes a fill off one node's quantity. */
    method Reduce(index: u32, fill: u64)
      requires Valid() && index < capacity && fill <= storage[index].quantity
      modifies storage
      ensures Valid()
      ensures storage[..] == Reduced(old(storage[..]), index, fill)
    {
      ghost var mem := storage[..];
      storage[index] := storage[index].(quantity := storage[index].quantity - fill);
      assert storage[..] == Reduced(mem, index, fill);
      assert forall i :: 0 <= i < |free| ==> storage[..][free[i]].next == mem[free[i]].next;
    }

    /** Takes the whole quantity off a level's front node, then unlinks and frees it. */
    method Consume(level: PriceLevel, fill: u64, ghost q: seq<u32>) returns (level': PriceLevel)
      requires Valid() && Linked(storage[..], level, q) && q != [] && fill == storage[q[0]].quantity
      requires forall i :: 0 <= i < |q| ==> q[i] !in free
      modifies this, storage
      ensures Valid() && free == [q[0]] + old(free) && old(count) > 0 && count == old(count) - 1
      ensures FreedFrom(Reduced(old(storage[..]), q[0], fill), storage[..], old(freeHead),
                        level.(qty := WrapSub(level.qty, fill)), level', q, 0)
    {
      ghost var mem := storage[..];
      Reduce(level.head, fill);
      assert forall i :: 0 <= i < |q| ==>
        storage[..][q[i]].next == mem[q[i]].next && storage[..][q[i]].prev == mem[q[i]].prev;
      level' := PopFree(level.(qty := WrapSub(level.qty, fill)), q);
    }

    /** PopFront, then Dealloc. */
    method PopFree(level: PriceLevel, ghost q: seq<u32>) returns (level': PriceLevel)
      requires Valid() && Linked(storage[..], level, q) && q != []
      requires forall i :: 0 <= i < |q| ==> q[i] !in free
      modifies this, storage
      ensures Valid() && free == [q[0]] + old(free) && old(count) > 0 && count == old(count) - 1
      ensures FreedFrom(old(storage[..]), storage[..], old(freeHead), level, level', q, 0)
    {
      var popped;
      level', popped := PopFront(level, q);
      Dealloc(popped.value);
    }
  }

  /** mem' is mem with q[k] unlinked, and then put on the free list in front of `next`. */
  ghost predicate FreedFrom(mem: seq<Node>, mem': seq<Node>, next: u32, level: PriceLevel, level': PriceLevel,
                            q: seq<u32>, k: nat)
    requires InRange(q, |mem|) && k < |q|
  {
    var mem1 := Unlink(mem, q, k);
    && OnlyLinks(mem, mem1, Without(q, k)) && Linked(mem1, level', Without(q, k))
    && mem' == mem1[q[k] := mem1[q[k]].(next := next)]
    && level'.qty == WrapSub(level.qty, mem[q[k]].quantity)
  }

  lemma LinkedIgnores(mem: seq<Node>, s: u32, n: Node, level: PriceLevel, q: seq<u32>)
    requires Linked(mem, level, q) && s < |mem| && s !in q
    ensures Linked(mem[s := n], level, q)
  {
  }
}
