/**
  The single-producer single-consumer ring of src/ring.rs as a transition system. A step is
  one load, one slot access or one store of `push` or `pop`, with the local computation
  around it; producer and consumer steps interleave in any order.

  Cursors are free-running 64-bit counters that wrap; slots are addressed by masking. The
  acquire loads are weak: a load may return any value the other side has stored since the
  newest one this side is known to have seen, not just the latest.
 */
module Rings {
  import opened Orders
  import opened Bits

  datatype Slot<T> = Vacant | Live(value: T)

  /** Where the producer is inside `push(v)`. */
  datatype ProducerPc<T> = PIdle | PReload(v: T) | PWrite(v: T) | PStore(v: T)

  /** Where the consumer is inside `pop()`. */
  datatype ConsumerPc<T> = CIdle | CReload | CRead | CStore(v: T)

  datatype Producer<T> = Producer(cachedHead: u64, cachedTail: u64, pc: ProducerPc<T>)

  datatype Consumer<T> = Consumer(cachedTail: u64, cachedHead: u64, pc: ConsumerPc<T>)

  /**
    History that the program does not keep. A position is an unbounded count of pushes or
    pops: `seenTail` and `seenHead` are the positions behind the two cached cursors, and
    `headFloor` is the oldest head position a load by the consumer may still return.
   */
  datatype History<T> = History(pushed: seq<T>, popped: seq<T>, seenTail: nat, seenHead: nat, headFloor: nat)

  datatype Ring<T> = Ring(
    bits: nat, buffer: seq<Slot<T>>, head: u64, tail: u64, p: Producer<T>, c: Consumer<T>, h: History<T>)
  {
    function Capacity(): (n: nat) ensures n > 0 { Pow2(bits) }

    /** What is in the queue, as its users see it. */
    function Queue(): seq<T>
      requires |h.popped| <= |h.pushed|
    {
      h.pushed[|h.popped|..]
    }
  }

  datatype Action<T> =
    | PushStart(v: T)          // compare the cached cursors
    | PushReload(tailPos: nat) // acquire-load the tail
    | PushWrite                // write the slot
    | PushStore                // release-store the head
    | PopStart
    | PopReload(headPos: nat)
    | PopRead
    | PopStore
    | Synchronise(headPos: nat) // the consumer learns, by other means, of pushes up to here

  function WrapAdd1(x: u64): u64 { (x + 1) % U64_MOD }

  function WrapMinus(x: u64, y: u64): u64 { (x - y) % U64_MOD }

  /** Cursor to slot: bitwise AND with capacity - 1. */
  function SlotOf<T>(s: Ring<T>, cursor: u64): nat { And(cursor, s.Capacity() - 1) }

  ghost predicate Init<T(!new)>(s: Ring<T>) {
    && s.bits <= 63
    && |s.buffer| == s.Capacity() && (forall i :: 0 <= i < |s.buffer| ==> s.buffer[i] == Vacant)
    && s.head == 0 && s.tail == 0
    && s.p == Producer(0, 0, PIdle) && s.c == Consumer(0, 0, CIdle)
    && s.h == History([], [], 0, 0, 0)
  }

  ghost predicate Next<T(!new)>(s: Ring<T>, a: Action<T>, s': Ring<T>) {
    match a
    case PushStart(v) =>
      && s.p.pc.PIdle?
      && var full := WrapMinus(s.p.cachedHead, s.p.cachedTail) == s.Capacity();
         s' == s.(p := s.p.(pc := if full then PReload(v) else PWrite(v)))
    case PushReload(j) =>
      && s.p.pc.PReload? && s.h.seenTail <= j <= |s.h.popped|
      && var full := WrapMinus(s.p.cachedHead, j % U64_MOD) == s.Capacity();
         s' == s.(p := s.p.(cachedTail := j % U64_MOD, pc := if full then PIdle else PWrite(s.p.pc.v)),
                  h := s.h.(seenTail := j))
    case PushWrite =>
      && s.p.pc.PWrite?
      && var i := SlotOf(s, s.p.cachedHead);
         i < |s.buffer| && s' == s.(buffer := s.buffer[i := Live(s.p.pc.v)], p := s.p.(pc := PStore(s.p.pc.v)))
    case PushStore =>
      && s.p.pc.PStore?
      && var head := WrapAdd1(s.p.cachedHead);
         s' == s.(head := head, p := s.p.(cachedHead := head, pc := PIdle),
                  h := s.h.(pushed := s.h.pushed + [s.p.pc.v]))
    case PopStart =>
      && s.c.pc.CIdle?
      && s' == s.(c := s.c.(pc := if s.c.cachedTail == s.c.cachedHead then CReload else CRead))
    case PopReload(j) =>
      && s.c.pc.CReload? && s.h.headFloor <= j <= |s.h.pushed|
      && s' == s.(c := s.c.(cachedHead := j % U64_MOD, pc := if s.c.cachedTail == j % U64_MOD then CIdle else CRead),
                  h := s.h.(seenHead := j, headFloor := j))
    case PopRead =>
      && s.c.pc.CRead?
      && var i := SlotOf(s, s.c.cachedTail);
         i < |s.buffer| && s.buffer[i].Live?
         && s' == s.(buffer := s.buffer[i := Vacant], c := s.c.(pc := CStore(s.buffer[i].value)))
    case PopStore =>
      && s.c.pc.CStore?
      && var tail := WrapAdd1(s.c.cachedTail);
         s' == s.(tail := tail, c := s.c.(cachedTail := tail, pc := CIdle),
                  h := s.h.(popped := s.h.popped + [s.c.pc.v]))
    case Synchronise(j) =>
      s.h.headFloor <= j <= |s.h.pushed| && s' == s.(h := s.h.(headFloor := j))
  }

  // ----- Arithmetic of wrapped cursors

  lemma {:induction false} Pow2Divides(n: nat, m: nat)
    requires n <= m
    ensures Pow2(m) == Pow2(n) * Pow2(m - n)
    decreases m - n
  {
    if n < m {
      Pow2Divides(n, m - 1);
      assert Pow2(m) == 2 * (Pow2(n) * Pow2(m - 1 - n));
    }
  }

  lemma Pow2Of64()
    ensures Pow2(64) == U64_MOD
    ensures Pow2(63) == 0x8000_0000_0000_0000
  {
    assert Pow2(8) == 0x100;
    assert Pow2(16) == 0x1_0000 by { Pow2Divides(8, 16); }
    assert Pow2(32) == 0x1_0000_0000 by { Pow2Divides(16, 32); }
    Pow2Divides(32, 64);
  }

  /** The capacity divides 2^64, so masking a wrapped cursor is masking the position. */
  lemma WrapMask(pos: nat, bits: nat)
    requires bits <= 63
    ensures And(pos % U64_MOD, Pow2(bits) - 1) == pos % Pow2(bits)
  {
    var c, k := Pow2(bits), Pow2(64 - bits);
    Pow2Of64();
    Pow2Divides(bits, 64);
    MaskIsMod(pos % U64_MOD, bits);
    ModOfMod(pos, c, k);
  }

  lemma ModOfMod(pos: nat, c: nat, k: nat)
    requires c > 0 && k > 0
    ensures c * k > 0 && pos % (c * k) % c == pos % c
  {
    var m := c * k;
    assert m > 0 by { TimesAtLeast(k, c); }
    var q, r := pos / m, pos % m;
    DivMod(pos, m);
    DivMod(r, c);
    assert pos == (q * k + r / c) * c + r % c by {
      assert q * m == q * k * c;
    }
    ModUnique(pos, c, q * k + r / c, r % c);
  }

  lemma CapacityBound(bits: nat)
    requires bits <= 63
    ensures 0 < Pow2(bits) <= 0x8000_0000_0000_0000
  {
    Pow2Of64();
    Pow2Divides(bits, 63);
    TimesAtLeast(Pow2(63 - bits), Pow2(bits));
  }

  /** Positions less than a capacity apart lie in different slots. */
  lemma DistinctSlots(i: nat, j: nat, c: nat)
    requires c > 0 && i < j < i + c
    ensures i % c != j % c
  {
    DivMod(i, c);
    DivMod(j, c);
    if i % c == j % c {
      assert (j / c - i / c) * c == j - i by { Distribute(j / c, i / c, c); }
      TimesAtLeast(j / c - i / c, c);
    }
  }

  lemma WrapDifference(a: nat, b: nat)
    requires b <= a < b + U64_MOD
    ensures WrapMinus(a % U64_MOD, b % U64_MOD) == a - b
    ensures a % U64_MOD == b % U64_MOD <==> a == b
  {
  }

  lemma WrapNext(n: nat)
    ensures WrapAdd1(n % U64_MOD) == (n + 1) % U64_MOD
  {
  }

  // ----- The invariant

  /** First position whose slot has not been read out yet. */
  function Lo<T>(s: Ring<T>): nat { |s.h.popped| + (if s.c.pc.CStore? then 1 else 0) }

  /** First position whose slot has not been written yet. */
  function Hi<T>(s: Ring<T>): nat { |s.h.pushed| + (if s.p.pc.PStore? then 1 else 0) }

  /** What the slot of a position holds while the position is within a capacity of Lo. */
  function Content<T>(s: Ring<T>, i: nat): Slot<T> {
    if i < |s.h.pushed| then Live(s.h.pushed[i])
    else if i == |s.h.pushed| && s.p.pc.PStore? then Live(s.p.pc.v)
    else Vacant
  }

  ghost predicate SlotAt<T>(s: Ring<T>, i: nat) {
    i % s.Capacity() < |s.buffer| && s.buffer[i % s.Capacity()] == Content(s, i)
  }

  ghost predicate Slots<T>(s: Ring<T>) {
    |s.buffer| == s.Capacity() && forall i: nat :: Lo(s) <= i < Lo(s) + s.Capacity() ==> SlotAt(s, i)
  }

  /** Real cursors are the positions, wrapped. */
  ghost predicate Cursors<T>(s: Ring<T>) {
    && s.head == |s.h.pushed| % U64_MOD && s.p.cachedHead == s.head
    && s.tail == |s.h.popped| % U64_MOD && s.c.cachedTail == s.tail
    && s.p.cachedTail == s.h.seenTail % U64_MOD && s.c.cachedHead == s.h.seenHead % U64_MOD
  }

  ghost predicate Positions<T>(s: Ring<T>) {
    && s.h.seenTail <= |s.h.popped| <= |s.h.pushed| && s.h.popped == s.h.pushed[..|s.h.popped|]
    && Lo(s) <= s.h.seenHead <= s.h.headFloor <= |s.h.pushed|
    && Hi(s) <= s.h.seenTail + s.Capacity()
    && (s.p.pc.PWrite? ==> |s.h.pushed| < s.h.seenTail + s.Capacity())
    && (s.p.pc.PReload? ==> |s.h.pushed| == s.h.seenTail + s.Capacity())
    && (s.c.pc.CRead? ==> |s.h.popped| < s.h.seenHead)
    && (s.c.pc.CReload? ==> |s.h.popped| == s.h.seenHead)
    && (s.c.pc.CStore? ==> s.c.pc.v == s.h.pushed[|s.h.popped|])
  }

  ghost predicate RingInv<T>(s: Ring<T>) {
    s.bits <= 63 && Cursors(s) && Positions(s) && Slots(s)
  }

  lemma InitHolds<T(!new)>(s: Ring<T>)
    requires Init(s)
    ensures RingInv(s)
  {
  }

  /** The two cached-cursor tests say what they mean: full, and empty, as far as this side knows. */
  lemma CachedTests<T>(s: Ring<T>, j: nat)
    requires RingInv(s) && s.h.seenTail <= j <= |s.h.popped|
    ensures WrapMinus(s.p.cachedHead, j % U64_MOD) == s.Capacity() <==> |s.h.pushed| == j + s.Capacity()
    ensures s.c.cachedTail == s.c.cachedHead <==> |s.h.popped| == s.h.seenHead
  {
    CapacityBound(s.bits);
    WrapDifference(|s.h.pushed|, j);
    WrapDifference(s.h.seenHead, |s.h.popped|);
  }

  lemma EmptyTest<T>(s: Ring<T>, j: nat)
    requires RingInv(s) && |s.h.popped| <= j <= |s.h.pushed|
    ensures s.c.cachedTail == j % U64_MOD <==> |s.h.popped| == j
  {
    CapacityBound(s.bits);
    WrapDifference(j, |s.h.popped|);
  }

  /** The slots a masked cursor selects are the slots of the positions. */
  lemma CursorSlots<T>(s: Ring<T>)
    requires RingInv(s)
    ensures SlotOf(s, s.p.cachedHead) == |s.h.pushed| % s.Capacity() < |s.buffer|
    ensures SlotOf(s, s.c.cachedTail) == |s.h.popped| % s.Capacity() < |s.buffer|
  {
    WrapMask(|s.h.pushed|, s.bits);
    WrapMask(|s.h.popped|, s.bits);
    DivMod(|s.h.pushed|, s.Capacity());
    DivMod(|s.h.popped|, s.Capacity());
  }

  /** Steps that leave the buffer and both unread and unwritten ranges alone leave the slots alone. */
  lemma SlotsKept<T>(s: Ring<T>, s': Ring<T>)
    requires Slots(s) && s'.buffer == s.buffer && s'.bits == s.bits && Lo(s') == Lo(s)
    requires forall i: nat :: Content(s', i) == Content(s, i)
    ensures Slots(s')
  {
    forall i: nat | Lo(s') <= i < Lo(s') + s'.Capacity() ensures SlotAt(s', i) {
      assert SlotAt(s, i);
    }
  }

  lemma WriteHolds<T(!new)>(s: Ring<T>, s': Ring<T>)
    requires RingInv(s) && Next(s, PushWrite, s')
    ensures RingInv(s')
  {
    var n, c := |s.h.pushed|, s.Capacity();
    CursorSlots(s);
    forall i: nat | Lo(s') <= i < Lo(s') + c ensures SlotAt(s', i) {
      assert SlotAt(s, i);
      if i < n { DistinctSlots(i, n, c); }
      if i > n { DistinctSlots(n, i, c); }
    }
  }

  lemma ReadHolds<T(!new)>(s: Ring<T>, s': Ring<T>)
    requires RingInv(s) && Next(s, PopRead, s')
    ensures RingInv(s')
  {
    var n, c := |s.h.popped|, s.Capacity();
    CursorSlots(s);
    assert SlotAt(s, n);
    forall i: nat | n + 1 <= i < n + 1 + c ensures SlotAt(s', i) {
      if i < n + c {
        assert SlotAt(s, i);
        DistinctSlots(n, i, c);
      } else {
        DivMod(n, c);
        assert n + c == (n / c + 1) * c + n % c by { Distribute(n / c + 1, 1, c); }
        ModUnique(n + c, c, n / c + 1, n % c);
      }
    }
  }

  lemma PushStoreHolds<T(!new)>(s: Ring<T>, s': Ring<T>)
    requires RingInv(s) && Next(s, PushStore, s')
    ensures RingInv(s')
  {
    WrapNext(|s.h.pushed|);
    SlotsKept(s, s');
    assert s'.h.pushed[..|s.h.popped|] == s.h.pushed[..|s.h.popped|];
  }

  lemma PopStoreHolds<T(!new)>(s: Ring<T>, s': Ring<T>)
    requires RingInv(s) && Next(s, PopStore, s')
    ensures RingInv(s')
  {
    WrapNext(|s.h.popped|);
    SlotsKept(s, s');
    assert s'.h.popped == s'.h.pushed[..|s.h.popped|] + [s'.h.pushed[|s.h.popped|]];
  }

  lemma LocalHolds<T(!new)>(s: Ring<T>, a: Action<T>, s': Ring<T>)
    requires RingInv(s) && Next(s, a, s')
    requires a.PushStart? || a.PopStart? || a.PushReload? || a.PopReload? || a.Synchronise?
    ensures RingInv(s')
  {
    CachedTests(s, s.h.seenTail);
    if a.PushReload? { CachedTests(s, a.tailPos); }
    if a.PopReload? { EmptyTest(s, a.headPos); }
    SlotsKept(s, s');
  }

  lemma NextHolds<T(!new)>(s: Ring<T>, a: Action<T>, s': Ring<T>)
    requires RingInv(s) && Next(s, a, s')
    ensures RingInv(s')
  {
    match a
    case PushWrite => WriteHolds(s, s');
    case PopRead => ReadHolds(s, s');
    case PushStore => PushStoreHolds(s, s');
    case PopStore => PopStoreHolds(s, s');
    case PushStart(_) => LocalHolds(s, a, s');
    case PopStart => LocalHolds(s, a, s');
    case PushReload(_) => LocalHolds(s, a, s');
    case PopReload(_) => LocalHolds(s, a, s');
    case Synchronise(_) => LocalHolds(s, a, s');
  }

  // ----- Every interleaving

  ghost predicate IsRun<T(!new)>(states: seq<Ring<T>>, actions: seq<Action<T>>) {
    && |states| == |actions| + 1 && Init(states[0])
    && forall i :: 0 <= i < |actions| ==> Next(states[i], actions[i], states[i + 1])
  }

  lemma {:induction false} EveryRunHolds<T(!new)>(states: seq<Ring<T>>, actions: seq<Action<T>>, n: nat)
    requires IsRun(states, actions) && n < |states|
    ensures RingInv(states[n])
  {
    if n == 0 {
      InitHolds(states[0]);
    } else {
      EveryRunHolds(states, actions, n - 1);
      NextHolds(states[n - 1], actions[n - 1], states[n]);
    }
  }

  /**
    In every state of every interleaving, across any number of cursor wraps: what was popped
    is a prefix of what was pushed, and the queue never exceeds its capacity.
   */
  lemma PoppedIsPrefix<T(!new)>(states: seq<Ring<T>>, actions: seq<Action<T>>, n: nat)
    requires IsRun(states, actions) && n < |states|
    ensures var s := states[n];
      && s.h.popped <= s.h.pushed && s.h.pushed == s.h.popped + s.Queue()
      && |s.Queue()| <= s.Capacity()
  {
    EveryRunHolds(states, actions, n);
    var s := states[n];
    assert s.h.pushed == s.h.pushed[..|s.h.popped|] + s.h.pushed[|s.h.popped|..];
  }

  // ----- Refinement of a bounded FIFO queue

  /** What a step does to the queue, as its users see it. */
  ghost predicate QueueStep<T(!new)>(s: Ring<T>, a: Action<T>, s': Ring<T>)
    requires RingInv(s) && RingInv(s')
  {
    match a
    case PushStore => s.p.pc.PStore? && |s.Queue()| < s.Capacity() && s'.Queue() == s.Queue() + [s.p.pc.v]
    case PopStore => s.c.pc.CStore? && s.Queue() != [] && s.c.pc.v == s.Queue()[0] && s'.Queue() == s.Queue()[1..]
    case _ => s'.Queue() == s.Queue()
  }

  lemma RefinesQueue<T(!new)>(s: Ring<T>, a: Action<T>, s': Ring<T>)
    requires RingInv(s) && Next(s, a, s')
    ensures RingInv(s') && QueueStep(s, a, s')
  {
    NextHolds(s, a, s');
  }

  /**
    `Full` is answered exactly when the tail the load returned was a capacity behind the head;
    a load of the latest tail answers it exactly when the queue is full.
   */
  lemma FullMeansFull<T(!new)>(s: Ring<T>, j: nat, s': Ring<T>)
    requires RingInv(s) && Next(s, PushReload(j), s')
    ensures s'.p.pc.PIdle? <==> |s.h.pushed| - j == s.Capacity()
    ensures j == |s.h.popped| ==> (s'.p.pc.PIdle? <==> |s.Queue()| == s.Capacity())
  {
    CachedTests(s, j);
  }

  lemma EmptyMeansEmpty<T(!new)>(s: Ring<T>, j: nat, s': Ring<T>)
    requires RingInv(s) && Next(s, PopReload(j), s')
    ensures s'.c.pc.CIdle? <==> j == |s.h.popped|
    ensures j == |s.h.pushed| ==> (s'.c.pc.CIdle? <==> s.Queue() == [])
  {
    EmptyTest(s, j);
  }

  // ----- Every push with room and every pop with something to pop can complete

  /** These actions lead from `s` to `s'`. */
  ghost predicate Leads<T(!new)>(s: Ring<T>, actions: seq<Action<T>>, s': Ring<T>)
    decreases |actions|
  {
    if actions == [] then s == s'
    else exists s1 :: Next(s, actions[0], s1) && Leads(s1, actions[1..], s')
  }

  lemma LeadsFirst<T(!new)>(s: Ring<T>, a: Action<T>, s1: Ring<T>, actions: seq<Action<T>>, s': Ring<T>)
    requires Next(s, a, s1) && Leads(s1, actions, s')
    ensures Leads(s, [a] + actions, s')
  {
    assert ([a] + actions)[1..] == actions;
  }

  lemma {:induction false} LeadsConcat<T(!new)>(
    s: Ring<T>, a: seq<Action<T>>, s1: Ring<T>, b: seq<Action<T>>, s': Ring<T>)
    requires Leads(s, a, s1) && Leads(s1, b, s')
    ensures Leads(s, a + b, s')
    decreases |a|
  {
    if a == [] {
      assert a + b == b;
    } else {
      var s2 :| Next(s, a[0], s2) && Leads(s2, a[1..], s1);
      LeadsConcat(s2, a[1..], s1, b, s');
      LeadsFirst(s, a[0], s2, a[1..] + b, s');
      assert [a[0]] + (a[1..] + b) == a + b;
    }
  }

  /** The next step of a push of `v`, whose loads return the latest value. */
  function PushTurn<T>(s: Ring<T>, v: T): (Action<T>, Ring<T>)
    requires |s.buffer| > 0
  {
    match s.p.pc
    case PIdle =>
      var full := WrapMinus(s.p.cachedHead, s.p.cachedTail) == s.Capacity();
      (PushStart(v), s.(p := s.p.(pc := if full then PReload(v) else PWrite(v))))
    case PReload(w) =>
      var j := |s.h.popped|;
      var full := WrapMinus(s.p.cachedHead, j % U64_MOD) == s.Capacity();
      (PushReload(j), s.(p := s.p.(cachedTail := j % U64_MOD, pc := if full then PIdle else PWrite(w)),
                         h := s.h.(seenTail := j)))
    case PWrite(w) =>
      var i := SlotOf(s, s.p.cachedHead);
      (PushWrite, s.(buffer := s.buffer[(if i < |s.buffer| then i else 0) := Live(w)], p := s.p.(pc := PStore(w))))
    case PStore(w) =>
      var head := WrapAdd1(s.p.cachedHead);
      (PushStore, s.(head := head, p := s.p.(cachedHead := head, pc := PIdle), h := s.h.(pushed := s.h.pushed + [w])))
  }

  /** The next step of a pop, whose loads return the latest value. */
  function PopTurn<T>(s: Ring<T>): (Action<T>, Ring<T>)
    requires |s.buffer| > 0
  {
    match s.c.pc
    case CIdle =>
      (PopStart, s.(c := s.c.(pc := if s.c.cachedTail == s.c.cachedHead then CReload else CRead)))
    case CReload =>
      var j := |s.h.pushed|;
      (PopReload(j), s.(c := s.c.(cachedHead := j % U64_MOD,
                                  pc := if s.c.cachedTail == j % U64_MOD then CIdle else CRead),
                        h := s.h.(seenHead := j, headFloor := j)))
    case CRead =>
      var i := SlotOf(s, s.c.cachedTail);
      if i < |s.buffer| && s.buffer[i].Live? then
        (PopRead, s.(buffer := s.buffer[i := Vacant], c := s.c.(pc := CStore(s.buffer[i].value))))
      else (PopRead, s)
    case CStore(v) =>
      var tail := WrapAdd1(s.c.cachedTail);
      (PopStore, s.(tail := tail, c := s.c.(cachedTail := tail, pc := CIdle), h := s.h.(popped := s.h.popped + [v])))
  }

  /** The producer is never stuck. */
  lemma PushTurns<T(!new)>(s: Ring<T>, v: T)
    requires RingInv(s)
    ensures |s.buffer| > 0 && Next(s, PushTurn(s, v).0, PushTurn(s, v).1) && RingInv(PushTurn(s, v).1)
    ensures s.p.pc.PReload? && |s.Queue()| < s.Capacity() ==> PushTurn(s, v).1.p.pc == PWrite(s.p.pc.v)
  {
    CursorSlots(s);
    NextHolds(s, PushTurn(s, v).0, PushTurn(s, v).1);
    CachedTests(s, |s.h.popped|);
  }

  /** Nor is the consumer. */
  lemma PopTurns<T(!new)>(s: Ring<T>)
    requires RingInv(s)
    ensures |s.buffer| > 0 && Next(s, PopTurn(s).0, PopTurn(s).1) && RingInv(PopTurn(s).1)
    ensures s.c.pc.CReload? ==> PopTurn(s).1.c.pc == if s.Queue() == [] then CIdle else CRead
  {
    CursorSlots(s);
    assert SlotAt(s, Lo(s));
    NextHolds(s, PopTurn(s).0, PopTurn(s).1);
    EmptyTest(s, |s.h.pushed|);
  }

  lemma LeadsTwo<T(!new)>(s: Ring<T>, a: Action<T>, s1: Ring<T>, b: Action<T>, s': Ring<T>)
    requires Next(s, a, s1) && Next(s1, b, s')
    ensures Leads(s, [a, b], s')
  {
    LeadsFirst(s1, b, s', [], s');
    assert [b] + [] == [b];
    LeadsFirst(s, a, s1, [b], s');
    assert [a] + [b] == [a, b];
  }

  lemma LeadsOne<T(!new)>(s: Ring<T>, a: Action<T>, s': Ring<T>)
    requires Next(s, a, s')
    ensures Leads(s, [a], s')
  {
    LeadsFirst(s, a, s', [], s');
    assert [a] + [] == [a];
  }

  /** From idle to the slot access, reloading the tail if the cached one looks full. */
  lemma PushAdmitted<T(!new)>(s: Ring<T>, v: T) returns (actions: seq<Action<T>>, s': Ring<T>)
    requires RingInv(s) && s.p.pc.PIdle? && |s.Queue()| < s.Capacity()
    ensures actions == [PushStart(v)] || actions == [PushStart(v), PushReload(|s.h.popped|)]
    ensures Leads(s, actions, s') && RingInv(s') && s'.p.pc == PWrite(v) && s'.c == s.c
    ensures s'.h.pushed == s.h.pushed && s'.h.popped == s.h.popped
  {
    PushTurns(s, v);
    var s1 := PushTurn(s, v).1;
    if s1.p.pc.PWrite? {
      actions, s' := [PushStart(v)], s1;
      LeadsOne(s, PushStart(v), s1);
    } else {
      PushTurns(s1, v);
      s' := PushTurn(s1, v).1;
      actions := [PushStart(v), PushReload(|s.h.popped|)];
      LeadsTwo(s, PushStart(v), s1, PushReload(|s.h.popped|), s');
    }
  }

  /**
    A push into a ring with room can complete in three steps of the producer, or in four if it has
    to reload the tail, and then the value is at the back of the queue.
   */
  lemma PushCompletes<T(!new)>(s: Ring<T>, v: T) returns (actions: seq<Action<T>>, s': Ring<T>)
    requires RingInv(s) && s.p.pc.PIdle? && |s.Queue()| < s.Capacity()
    ensures actions == [PushStart(v)] + [PushWrite, PushStore]
      || actions == [PushStart(v), PushReload(|s.h.popped|)] + [PushWrite, PushStore]
    ensures Leads(s, actions, s') && RingInv(s') && s'.p.pc.PIdle? && s'.c == s.c
    ensures s'.Queue() == s.Queue() + [v] && s'.h.popped == s.h.popped
  {
    var first, s1 := PushAdmitted(s, v);
    PushTurns(s1, v);
    var s2 := PushTurn(s1, v).1;
    PushTurns(s2, v);
    s' := PushTurn(s2, v).1;
    LeadsTwo(s1, PushWrite, s2, PushStore, s');
    actions := first + [PushWrite, PushStore];
    LeadsConcat(s, first, s1, [PushWrite, PushStore], s');
  }

  lemma PopAdmitted<T(!new)>(s: Ring<T>) returns (actions: seq<Action<T>>, s': Ring<T>)
    requires RingInv(s) && s.c.pc.CIdle? && s.Queue() != []
    ensures actions == [PopStart] || actions == [PopStart, PopReload(|s.h.pushed|)]
    ensures Leads(s, actions, s') && RingInv(s') && s'.c.pc.CRead? && s'.p == s.p
    ensures s'.h.pushed == s.h.pushed && s'.h.popped == s.h.popped
  {
    PopTurns(s);
    var s1 := PopTurn(s).1;
    if s1.c.pc.CRead? {
      actions, s' := [PopStart], s1;
      LeadsOne(s, PopStart, s1);
    } else {
      PopTurns(s1);
      s' := PopTurn(s1).1;
      actions := [PopStart, PopReload(|s.h.pushed|)];
      LeadsTwo(s, PopStart, s1, PopReload(|s.h.pushed|), s');
    }
  }

  /** A pop from a ring that is not empty can complete, and takes the value at the front. */
  lemma PopCompletes<T(!new)>(s: Ring<T>) returns (actions: seq<Action<T>>, s': Ring<T>)
    requires RingInv(s) && s.c.pc.CIdle? && s.Queue() != []
    ensures actions == [PopStart] + [PopRead, PopStore]
      || actions == [PopStart, PopReload(|s.h.pushed|)] + [PopRead, PopStore]
    ensures Leads(s, actions, s') && RingInv(s') && s'.c.pc.CIdle? && s'.p == s.p
    ensures s'.Queue() == s.Queue()[1..] && s'.h.popped == s.h.popped + [s.Queue()[0]]
  {
    var first, s1 := PopAdmitted(s);
    PopTurns(s1);
    var s2 := PopTurn(s1).1;
    PopTurns(s2);
    s' := PopTurn(s2).1;
    LeadsTwo(s1, PopRead, s2, PopStore, s');
    actions := first + [PopRead, PopStore];
    LeadsConcat(s, first, s1, [PopRead, PopStore], s');
  }

  // ----- Slot safety

  /**
    When the producer is about to write, the slot is vacant, the consumer is not about to read
    it, and the read that vacated it lies behind the tail the producer has acquired.
   */
  lemma WriteIsSafe<T(!new)>(s: Ring<T>)
    requires RingInv(s) && s.p.pc.PWrite?
    ensures var i := SlotOf(s, s.p.cachedHead);
      && i < |s.buffer| && s.buffer[i] == Vacant
      && (s.c.pc.CRead? ==> SlotOf(s, s.c.cachedTail) != i)
    ensures |s.h.pushed| - s.Capacity() < s.h.seenTail
  {
    var n, c := |s.h.pushed|, s.Capacity();
    CursorSlots(s);
    if n < Lo(s) + c {
      assert SlotAt(s, n);
    }
    if s.c.pc.CRead? {
      DistinctSlots(|s.h.popped|, n, c);
    }
  }

  /**
    When the consumer is about to read, the slot holds the oldest value not yet popped, and
    its write lies behind the head the consumer has acquired.
   */
  lemma ReadIsSafe<T(!new)>(s: Ring<T>)
    requires RingInv(s) && s.c.pc.CRead?
    ensures var i := SlotOf(s, s.c.cachedTail);
      i < |s.buffer| && s.Queue() != [] && s.buffer[i] == Live(s.Queue()[0])
    ensures |s.h.popped| < s.h.seenHead
  {
    CursorSlots(s);
    assert SlotAt(s, |s.h.popped|);
  }

  // ----- Dropping the ring

  /**
    The drop loop, run when neither side is inside a call: it visits exactly the slots of the
    values never popped, each once and in order, and leaves every slot vacant.
   */
  method Drop<T(!new)>(s: Ring<T>) returns (dropped: seq<T>, buffer: seq<Slot<T>>)
    requires RingInv(s) && s.p.pc.PIdle? && s.c.pc.CIdle?
    ensures s.h.popped + dropped == s.h.pushed
    ensures |buffer| == s.Capacity() && forall i :: 0 <= i < |buffer| ==> buffer[i] == Vacant
  {
    dropped, buffer := [], s.buffer;
    var i := s.tail;
    ghost var n := |s.h.popped|;
    CapacityBound(s.bits);
    DropStart(s);
    while i != s.head
      invariant |s.h.popped| <= n <= |s.h.pushed| && i == n % U64_MOD
      invariant s.h.pushed[..n] == s.h.popped + dropped && Dropping(s, buffer, n)
      decreases |s.h.pushed| - n
    {
      WrapDifference(|s.h.pushed|, n);
      WrapMask(n, s.bits);
      DropStep(s, buffer, n);
      var slot := SlotOf(s, i);
      dropped := dropped + [buffer[slot].value];
      buffer := buffer[slot := Vacant];
      WrapNext(n);
      i := WrapAdd1(i);
      n := n + 1;
    }
    WrapDifference(|s.h.pushed|, n);
    AllDropped(s, buffer);
  }

  /** Having dropped the positions before n: they are vacant, the others as they were. */
  ghost predicate DropSlot<T>(s: Ring<T>, buffer: seq<Slot<T>>, n: nat, k: nat) {
    var i := k % s.Capacity();
    i < |buffer| && buffer[i] == if k < n then Vacant else Content(s, k)
  }

  ghost predicate Dropping<T>(s: Ring<T>, buffer: seq<Slot<T>>, n: nat) {
    && |buffer| == s.Capacity()
    && forall k: nat :: |s.h.popped| <= k < |s.h.popped| + s.Capacity() ==> DropSlot(s, buffer, n, k)
  }

  lemma DropStart<T>(s: Ring<T>)
    requires Slots(s) && s.c.pc.CIdle?
    ensures Dropping(s, s.buffer, |s.h.popped|)
  {
    var n := |s.h.popped|;
    forall k: nat | n <= k < n + s.Capacity() ensures DropSlot(s, s.buffer, n, k) {
      assert SlotAt(s, k);
    }
  }

  lemma DropStep<T>(s: Ring<T>, buffer: seq<Slot<T>>, n: nat)
    requires Dropping(s, buffer, n) && |s.h.popped| <= n < |s.h.pushed| <= |s.h.popped| + s.Capacity()
    ensures var i := n % s.Capacity();
      && i < |buffer| && buffer[i] == Live(s.h.pushed[n]) && Dropping(s, buffer[i := Vacant], n + 1)
    ensures s.h.pushed[..n + 1] == s.h.pushed[..n] + [s.h.pushed[n]]
  {
    var lo, c := |s.h.popped|, s.Capacity();
    assert DropSlot(s, buffer, n, n);
    var buffer', m := buffer[n % c := Vacant], n + 1;
    forall k: nat | lo <= k < lo + c ensures DropSlot(s, buffer', m, k) {
      assert DropSlot(s, buffer, n, k);
      if k < n { DistinctSlots(k, n, c); }
      if k > n { DistinctSlots(n, k, c); }
    }
  }

  lemma AllDropped<T>(s: Ring<T>, buffer: seq<Slot<T>>)
    requires Dropping(s, buffer, |s.h.pushed|) && s.p.pc.PIdle?
    ensures forall i :: 0 <= i < |buffer| ==> buffer[i] == Vacant
  {
    forall x | 0 <= x < |buffer| ensures buffer[x] == Vacant {
      var k := PositionIn(|s.h.popped|, s.Capacity(), x);
      assert DropSlot(s, buffer, |s.h.pushed|, k);
    }
  }

  /** Every slot is the slot of some position within a capacity of `lo`. */
  lemma PositionIn(lo: nat, c: nat, x: nat) returns (k: nat)
    requires c > 0 && x < c
    ensures lo <= k < lo + c && k % c == x
  {
    DivMod(lo, c);
    var base := lo - lo % c;
    k := if x >= lo % c then base + x else base + c + x;
    assert k == (lo / c + (if x >= lo % c then 0 else 1)) * c + x by {
      Distribute(lo / c + 1, 1, c);
    }
    ModUnique(k, c, lo / c + (if x >= lo % c then 0 else 1), x);
  }
}
