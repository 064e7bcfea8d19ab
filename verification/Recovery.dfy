/**
  Snapshots and crash recovery: src/snapshot.rs and src/recovery.rs. Recovery restores the
  newest intact snapshot, re-opens the log and replays the records behind the snapshot.
 */
module Recovery {
  import opened Orders
  import opened Codec
  import opened Walks
  import opened WalFormat
  import opened Wals
  import opened Engines
  import BookSpec
  import BookTheorems
  import Timestamps

  // ----- Snapshots

  datatype Snapshot = Snapshot(
    walRecordCount: nat, orders: seq<Order>, bestBid: Option<i64>, bestAsk: Option<i64>, checksum: u32)

  /** CRC32 of the serialized orders; any function will do. */
  type Checksum = seq<Order> -> u32

  function BestOf(orders: seq<Order>): Option<i64> { if orders == [] then None else Some(orders[0].price) }

  function CaptureOf(sum: Checksum, b: BookSpec.Book, count: nat): Snapshot {
    var orders := BookSpec.AllResting(b);
    Snapshot(count, orders, BestOf(b.bids), BestOf(b.asks), sum(orders))
  }

  predicate Intact(sum: Checksum, file: Option<Snapshot>) {
    file.Some? && file.value.checksum == sum(file.value.orders)
  }

  predicate NewestIntact(sum: Checksum, files: seq<Option<Snapshot>>, i: nat)
    requires i < |files|
  {
    Intact(sum, files[i]) && forall j :: i < j < |files| ==> !Intact(sum, files[j])
  }

  method Capture(sum: Checksum, engine: MatchingEngine, count: nat) returns (snap: Snapshot)
    requires engine.Valid()
    ensures snap == CaptureOf(sum, engine.View(), count)
  {
    var orders := engine.AllRestingOrders();
    snap := Snapshot(count, orders, engine.book.BestOn(Bid), engine.book.BestOn(Ask), sum(orders));
    engine.CachedBest(Bid);
    engine.CachedBest(Ask);
  }

  /** The newest file that can be read and whose checksum matches; unreadable files are None. */
  method LoadLatest(sum: Checksum, files: seq<Option<Snapshot>>) returns (r: Option<Snapshot>)
    ensures r.None? ==> forall i :: 0 <= i < |files| ==> !Intact(sum, files[i])
    ensures r.Some? ==> exists i :: 0 <= i < |files| && files[i] == r && NewestIntact(sum, files, i)
    ensures r.Some? ==> r.value.checksum == sum(r.value.orders)
    ensures r.Some? ==>
      exists i ::
        && 0 <= i < |files| && files[i] == r
        && forall j :: i < j < |files| && files[j].Some? ==> files[j].value.checksum != sum(files[j].value.orders)
    ensures r.None? ==>
      forall i :: 0 <= i < |files| && files[i].Some? ==> files[i].value.checksum != sum(files[i].value.orders)
  {
    var n := |files|;
    while n > 0
      invariant 0 <= n <= |files|
      invariant forall j :: n <= j < |files| ==> !Intact(sum, files[j])
    {
      n := n - 1;
      if files[n].Some? && files[n].value.checksum == sum(files[n].value.orders) {
        assert NewestIntact(sum, files, n);
        return files[n];
      }
    }
    r := None;
  }

  // ----- Recovery

  datatype RecoveryError = WalFailure(error: WalError) | RestoreFailure(restore: MatchingError)

  function ReplayItems(b: BookSpec.Book, items: seq<Item>): Result<BookSpec.Book, WalError>
    decreases |items|
  {
    if items == [] then Success(b)
    else match items[0]
      case Failure(e) => Failure(e)
      case Success((_, cmd)) => ReplayItems(BookSpec.Step(b, cmd).0, items[1..])
  }

  /** The book a recovery starts from, and how many records it already covers. */
  function StartOf(snap: Option<Snapshot>, capacity: u32): Result<(BookSpec.Book, nat), RecoveryError> {
    match snap
    case None => Success((BookSpec.EmptyBook(capacity), 0))
    case Some(s) =>
      match BookSpec.Restore(s.orders, capacity)
      case Failure(e) => Failure(RestoreFailure(BookFailure(e)))
      case Success(b) => Success((b, s.walRecordCount))
  }

  function RecoverOf(crc: Crc, snap: Option<Snapshot>, walFile: seq<byte>, initialSize: nat, capacity: u32)
    : Result<(BookSpec.Book, Image), RecoveryError>
  {
    match StartOf(snap, capacity)
    case Failure(e) => Failure(e)
    case Success((b, start)) =>
      var img := OpenImage(crc, walFile, initialSize);
      match ReplayItems(b, Items(crc, img.file, img.writePos, start))
      case Failure(e) => Failure(WalFailure(e))
      case Success(b') => Success((b', img))
  }

  /**
    Recovery from a chosen snapshot. The branch that truncates a damaged log is unreachable:
    the scan that opened the log stopped in front of any damage.
   */
  method RecoverFrom(crc: Crc, snap: Option<Snapshot>, walFile: seq<byte>, initialSize: nat, capacity: u32)
    returns (r: Result<(MatchingEngine, Wal), RecoveryError>)
    ensures match RecoverOf(crc, snap, walFile, initialSize, capacity)
      case Failure(e) => r == Failure(e)
      case Success((b, img)) =>
        r.Success? && r.value.0.Valid() && r.value.0.View() == b && r.value.1.Valid() && r.value.1.Contents() == img
  {
    var engine: MatchingEngine;
    var start := 0;
    match snap {
      case None => engine := new MatchingEngine(capacity);
      case Some(s) =>
        var restored := RestoreFromOrders(s.orders, capacity);
        if restored.Failure? {
          return Failure(RestoreFailure(restored.error));
        }
        engine, start := restored.value, s.walRecordCount;
    }
    var wal := new Wal.Open(crc, walFile, initialSize);
    var replayed := ReplayLog(engine, wal, start);
    match replayed
    case Failure(e) => r := Failure(WalFailure(e));
    case Success(_) => r := Success((engine, wal));
  }

  /** Replays the records behind `start` of a log that has just been opened. */
  method ReplayLog(engine: MatchingEngine, wal: Wal, start: nat) returns (r: Result<(), WalError>)
    requires engine.Valid() && wal.Valid() && (wal.writePos, wal.recordCount) == ScanFile(wal.crc, wal.mmap)
    modifies engine.book, engine.book.arena, engine.book.arena.storage
    ensures engine.Valid()
    ensures match ReplayItems(old(engine.View()), Items(wal.crc, wal.mmap, wal.writePos, start))
      case Failure(e) => r == Failure(e)
      case Success(b) => r == Success(()) && engine.View() == b
  {
    WalkIsUndamaged(wal.crc, wal.mmap, start);
    var it := wal.IterFrom(start);
    r := ReplayRest(engine, it);
  }

  /** The loop: a damaged record would have to be truncated away, but there is none. */
  method ReplayRest(engine: MatchingEngine, it: WalIterator) returns (r: Result<(), WalError>)
    requires engine.Valid() && it.Valid() && Undamaged(it.Rest())
    modifies engine.book, engine.book.arena, engine.book.arena.storage, it
    ensures engine.Valid()
    ensures match ReplayItems(old(engine.View()), DecodeAll(old(it.Rest())))
      case Failure(e) => r == Failure(e)
      case Success(b) => r == Success(()) && engine.View() == b
  {
    ghost var whole := ReplayItems(engine.View(), DecodeAll(it.Rest()));
    while true
      invariant engine.Valid() && it.Valid()
      invariant ReplaysTo(engine.View(), it.Rest(), whole)
      decreases it.endPos - it.readPos
    {
      ReplayTurn(engine.View(), it.Rest(), whole);
      var item := it.Next();
      if item.None? {
        return Success(());
      }
      if IsDamage(item.value) {
        assert false;  // truncating the log
      }
      match item.value
      case Failure(e) => return Failure(e);
      case Success((n, cmd)) =>
        var out := engine.Apply(cmd);
    }
  }

  /** What is yet to be found is undamaged, and replaying it gives the result of the whole replay. */
  ghost predicate ReplaysTo(b: BookSpec.Book, rest: seq<Found>, whole: Result<BookSpec.Book, WalError>) {
    Undamaged(rest) && ReplayItems(b, DecodeAll(rest)) == whole
  }

  lemma ReplayTurn(b: BookSpec.Book, rest: seq<Found>, whole: Result<BookSpec.Book, WalError>)
    requires ReplaysTo(b, rest, whole)
    ensures rest == [] ==> whole == Success(b)
    ensures rest != [] ==>
      && !IsDamage(DecodeFound(rest[0]))
      && match DecodeFound(rest[0])
         case Failure(e) => whole == Failure(e)
         case Success((_, cmd)) => ReplaysTo(BookSpec.Step(b, cmd).0, rest[1..], whole)
  {
    if rest != [] {
      DecodeCons(rest);
    }
  }

  ghost predicate Undamaged(fs: seq<Found>) { forall i :: 0 <= i < |fs| ==> fs[i].Payload? }

  lemma DecodeCons(fs: seq<Found>)
    requires fs != []
    ensures DecodeAll(fs)[0] == DecodeFound(fs[0]) && DecodeAll(fs)[1..] == DecodeAll(fs[1..])
    ensures IsDamage(DecodeFound(fs[0])) <==> fs[0].DamagedAt?
    ensures Undamaged(fs) ==> Undamaged(fs[1..]) && fs[0].Payload?
  {
  }

  lemma WalkIsUndamaged(crc: Crc, file: seq<byte>, start: nat)
    ensures var (end, count) := ScanFile(crc, file);
      Sound(ParserOf(crc, file)) && Undamaged(Walk(ParserOf(crc, file), end, 0, 0, start))
  {
    ParserFacts(crc, file);
    WalkScanned(ParserOf(crc, file), |file|, 0, 0, start);
  }

  /** Recovery as the gateway calls it: newest intact snapshot first. */
  method Recover(crc: Crc, sum: Checksum, files: seq<Option<Snapshot>>, walFile: seq<byte>, initialSize: nat,
                 capacity: u32)
    returns (r: Result<(MatchingEngine, Wal), RecoveryError>, snap: Option<Snapshot>)
    ensures snap.None? ==> forall i :: 0 <= i < |files| ==> !Intact(sum, files[i])
    ensures snap.Some? ==> exists i :: 0 <= i < |files| && files[i] == snap && NewestIntact(sum, files, i)
    ensures match RecoverOf(crc, snap, walFile, initialSize, capacity)
      case Failure(e) => r == Failure(e)
      case Success((b, img)) =>
        r.Success? && r.value.0.Valid() && r.value.0.View() == b && r.value.1.Valid() && r.value.1.Contents() == img
  {
    snap := LoadLatest(sum, files);
    r := RecoverFrom(crc, snap, walFile, initialSize, capacity);
  }

  // ----- What recovery achieves

  /** A starting point that stands for the first `count` commands of a log, timestamps aside. */
  ghost predicate Covers(snap: Option<Snapshot>, capacity: u32, cmds: seq<Command>) {
    match StartOf(snap, capacity)
    case Failure(_) => false
    case Success((b, count)) =>
      && count <= |cmds| && BookSpec.Inv(b) && b.capacity == capacity
      && Timestamps.StripBook(b)
           == Timestamps.StripBook(BookSpec.Replay(BookSpec.EmptyBook(capacity), cmds[..count]))
  }

  lemma {:induction false} ReplayNumbered(b: BookSpec.Book, cmds: seq<Command>, current: nat)
    ensures ReplayItems(b, NumberedCommands(cmds, current))
         == Success(BookSpec.Replay(b, Timestamps.StripCommands(cmds)))
    decreases |cmds|
  {
    if cmds != [] {
      var stripped := Timestamps.StripCommands(cmds);
      assert NumberedCommands(cmds, current)[1..] == NumberedCommands(cmds[1..], current + 1);
      assert stripped[1..] == Timestamps.StripCommands(cmds[1..]);
      ReplayNumbered(BookSpec.Step(b, stripped[0]).0, cmds[1..], current + 1);
    }
  }

  /**
    What recovery makes of any file, torn at its end or not: if a log lies at its front and no
    record can be read behind that, exactly that log is replayed on the starting point and kept.
   */
  lemma RecoverReadable(crc: Crc, file: seq<byte>, end: nat, cmds: seq<Command>, snap: Option<Snapshot>,
                        initialSize: nat, capacity: u32)
    requires LogAt(crc, file, 0, end, cmds) && !ReadableBehind(crc, file, end, initialSize)
    requires StartsWithin(snap, capacity, cmds) && AllLoggable(cmds[StartOf(snap, capacity).value.1..])
    ensures var (b, start) := StartOf(snap, capacity).value;
      RecoverOf(crc, snap, file, initialSize, capacity) ==
        Success((BookSpec.Replay(b, Timestamps.StripCommands(cmds[start..])),
                 Image(Extended(file, initialSize), end, |cmds|)))
  {
    var (b, start) := StartOf(snap, capacity).value;
    OpenExactIff(crc, file, end, cmds, initialSize);
    IterateLog(crc, Extended(file, initialSize), end, cmds, start);
    ReplayNumbered(b, cmds[start..], start);
  }

  /** A record can be read at `end` once the file has been extended to its initial size. */
  predicate ReadableBehind(crc: Crc, file: seq<byte>, end: nat, initialSize: nat) {
    var f := Extended(file, initialSize);
    RecordAt(crc, f, |f|, end)
  }

  /** The starting point can be restored and counts no more records than there are. */
  predicate StartsWithin(snap: Option<Snapshot>, capacity: u32, cmds: seq<Command>) {
    StartOf(snap, capacity).Success? && StartOf(snap, capacity).value.1 <= |cmds|
  }

  lemma NothingBehind(crc: Crc, img: Image, cmds: seq<Command>, initialSize: nat)
    requires IsLog(crc, img, cmds)
    ensures !ReadableBehind(crc, img.file, img.writePos, initialSize)
  {
    var f := Extended(img.file, initialSize);
    ParseZeros(crc, f, img.writePos);
    ParseMeans(crc, f, |f|, img.writePos);
  }

  /**
    A log overwritten from some offset on: if nothing behind its first j records can be read,
    and those ended before the damage, recovery gives the book of exactly those j.
   */
  lemma RecoverTornTail(crc: Crc, file: seq<byte>, end: nat, cmds: seq<Command>, damaged: seq<byte>, offset: nat,
                        j: nat, snap: Option<Snapshot>, initialSize: nat, capacity: u32)
    requires LogAt(crc, file, 0, end, cmds) && j <= |cmds| && AllLoggable(cmds[..j])
    requires offset <= |file| && offset <= |damaged| && damaged[..offset] == file[..offset]
    requires |LogBytes(crc, cmds[..j])| <= offset
    requires !ReadableBehind(crc, damaged, |LogBytes(crc, cmds[..j])|, initialSize)
    requires Covers(snap, capacity, cmds[..j])
    ensures var r := RecoverOf(crc, snap, damaged, initialSize, capacity);
      && r.Success? && r.value.1.count == j && r.value.1.writePos == |LogBytes(crc, cmds[..j])|
      && Timestamps.StripBook(r.value.0)
           == Timestamps.StripBook(BookSpec.Replay(BookSpec.EmptyBook(capacity), cmds[..j]))
  {
    var (b, start) := StartOf(snap, capacity).value;
    IntactPrefix(crc, file, end, cmds, damaged, offset, j);
    RecoverReadable(crc, damaged, |LogBytes(crc, cmds[..j])|, cmds[..j], snap, initialSize, capacity);
    Timestamps.ReplayFromAnyPoint(b, capacity, cmds[..j], start);
  }

  /**
    Whichever starting point covers a prefix of the log, recovery succeeds and gives the book
    of the whole log, timestamps aside, with the log itself as it was.
   */
  lemma RecoverLog(crc: Crc, img: Image, cmds: seq<Command>, snap: Option<Snapshot>, initialSize: nat, capacity: u32)
    requires IsLog(crc, img, cmds) && AllLoggable(cmds) && Covers(snap, capacity, cmds)
    ensures var r := RecoverOf(crc, snap, img.file, initialSize, capacity);
      && r.Success?
      && Timestamps.StripBook(r.value.0)
           == Timestamps.StripBook(BookSpec.Replay(BookSpec.EmptyBook(capacity), cmds))
      && BookSpec.Inv(r.value.0) && r.value.0.capacity == capacity
      && IsLog(crc, r.value.1, cmds) && r.value.1.writePos == img.writePos && r.value.1.count == img.count
  {
    var (b, start) := StartOf(snap, capacity).value;
    NothingBehind(crc, img, cmds, initialSize);
    RecoverReadable(crc, img.file, img.writePos, cmds, snap, initialSize, capacity);
    ReopenKeepsLog(crc, img, cmds, initialSize);
    Timestamps.ReplayFromAnyPoint(b, capacity, cmds, start);
    BookTheorems.RunKeepsInv(b, Timestamps.StripCommands(cmds[start..]));
  }

  // ----- When recovery is exact

  /** The book the engine would have, had it gone on from the starting point without a crash. */
  function LiveBook(b: BookSpec.Book, cmds: seq<Command>, start: nat): BookSpec.Book
    requires start <= |cmds|
  {
    BookSpec.Replay(b, cmds[start..])
  }

  /**
    Recovery gives back the live book, except that orders which came to rest behind the snapshot
    lose their timestamps; so it is exact if and only if none of those rests with a timestamp.
    For a captured snapshot the starting point is the captured book (CaptureRestores).
   */
  lemma RecoveryIsExactIff(crc: Crc, file: seq<byte>, end: nat, cmds: seq<Command>, snap: Option<Snapshot>,
                           initialSize: nat, capacity: u32)
    requires LogAt(crc, file, 0, end, cmds) && !ReadableBehind(crc, file, end, initialSize)
    requires StartsWithin(snap, capacity, cmds) && AllLoggable(cmds[StartOf(snap, capacity).value.1..])
    ensures var (b, start) := StartOf(snap, capacity).value;
      var r, live := RecoverOf(crc, snap, file, initialSize, capacity), LiveBook(b, cmds, start);
      var ids := Timestamps.Rested(BookSpec.Outputs(b, cmds[start..]));
      && r.Success? && r.value.0 == Timestamps.RestampBook(Timestamps.Forget(ids), live)
      && (r.value.0 == live <==> Timestamps.Unstamped(live, ids))
  {
    var (b, start) := StartOf(snap, capacity).value;
    RecoverReadable(crc, file, end, cmds, snap, initialSize, capacity);
    Timestamps.ReplayIsExactIff(b, cmds[start..]);
  }

  /**
    The same by the clock: if the snapshot's orders were stamped by `cut` and the orders logged
    behind it after `cut`, recovery is exact if and only if all that rests is from before `cut`.
   */
  lemma RecoveryIsExactIffOld(crc: Crc, file: seq<byte>, end: nat, cmds: seq<Command>, snap: Option<Snapshot>,
                              initialSize: nat, capacity: u32, cut: u64)
    requires LogAt(crc, file, 0, end, cmds) && !ReadableBehind(crc, file, end, initialSize)
    requires StartsWithin(snap, capacity, cmds) && AllLoggable(cmds[StartOf(snap, capacity).value.1..])
    requires Timestamps.StampedBy(StartOf(snap, capacity).value.0, cut)
    requires Timestamps.StampedAfter(cmds[StartOf(snap, capacity).value.1..], cut)
    ensures var (b, start) := StartOf(snap, capacity).value;
      var r, live := RecoverOf(crc, snap, file, initialSize, capacity), LiveBook(b, cmds, start);
      && r.Success? && r.value.0 == Timestamps.RestampBook(Timestamps.After(cut), live)
      && (r.value.0 == live <==> Timestamps.StampedBy(live, cut))
  {
    var (b, start) := StartOf(snap, capacity).value;
    RecoverReadable(crc, file, end, cmds, snap, initialSize, capacity);
    Timestamps.ReplayIsExactIffOld(b, cmds[start..], cut);
  }

  /** A snapshot of the whole log needs no replay and loses nothing. */
  lemma FullSnapshotIsExact(crc: Crc, sum: Checksum, img: Image, cmds: seq<Command>, b: BookSpec.Book,
                            initialSize: nat, capacity: u32)
    requires IsLog(crc, img, cmds) && BookSpec.WellFormed(b) && b.capacity == capacity
    ensures var r := RecoverOf(crc, Some(CaptureOf(sum, b, |cmds|)), img.file, initialSize, capacity);
      r.Success? && r.value.0 == b
  {
    var snap := Some(CaptureOf(sum, b, |cmds|));
    CaptureRestores(sum, b, |cmds|, capacity);
    assert cmds[|cmds|..] == [];
    NothingBehind(crc, img, cmds, initialSize);
    RecoveryIsExactIff(crc, img.file, img.writePos, cmds, snap, initialSize, capacity);
  }

  /** Replay stops at the first error. */
  lemma {:induction false} ReplayStopsAtError(b: BookSpec.Book, items: seq<Item>, i: nat, e: WalError)
    requires i < |items| && items[i].Failure?
    requires forall j :: 0 <= j < |items| && items[j].Failure? ==> items[j].error == e
    ensures ReplayItems(b, items) == Failure(e)
    decreases |items|
  {
    if items[0].Success? {
      ReplayStopsAtError(BookSpec.Step(b, items[0].value.1).0, items[1..], i - 1, e);
    }
  }

  /** Recovery fails exactly when a record behind the starting point is an order of zero quantity. */
  lemma RecoveryNeedsPositive(crc: Crc, img: Image, cmds: seq<Command>, snap: Option<Snapshot>, initialSize: nat,
                              capacity: u32)
    requires IsLog(crc, img, cmds) && StartsWithin(snap, capacity, cmds)
    ensures var r := RecoverOf(crc, snap, img.file, initialSize, capacity);
      && (r.Success? <==> AllLoggable(cmds[StartOf(snap, capacity).value.1..]))
      && (r.Failure? ==> r.error == WalFailure(Protocol(ZeroOrderQuantity)))
  {
    var (b, start) := StartOf(snap, capacity).value;
    if AllLoggable(cmds[start..]) {
      NothingBehind(crc, img, cmds, initialSize);
      RecoverReadable(crc, img.file, img.writePos, cmds, snap, initialSize, capacity);
    } else {
      var i :| 0 <= i < |cmds[start..]| && !Loggable(cmds[start..][i]);
      ZeroQuantityStops(crc, img, cmds, b, start, start + i, initialSize);
    }
  }

  lemma ZeroQuantityStops(crc: Crc, img: Image, cmds: seq<Command>, b: BookSpec.Book, start: nat, i: nat,
                          initialSize: nat)
    requires IsLog(crc, img, cmds) && start <= i < |cmds| && !Loggable(cmds[i])
    ensures var img' := OpenImage(crc, img.file, initialSize);
      ReplayItems(b, Items(crc, img'.file, img'.writePos, start)) == Failure(Protocol(ZeroOrderQuantity))
  {
    ReopenKeepsLog(crc, img, cmds, initialSize);
    var img' := OpenImage(crc, img.file, initialSize);
    ItemsStop(crc, img'.file, img'.writePos, cmds, b, start, i);
  }

  lemma ItemsStop(crc: Crc, file: seq<byte>, end: nat, cmds: seq<Command>, b: BookSpec.Book, start: nat, i: nat)
    requires LogAt(crc, file, 0, end, cmds) && start <= i < |cmds| && !Loggable(cmds[i])
    ensures ReplayItems(b, Items(crc, file, end, start)) == Failure(Protocol(ZeroOrderQuantity))
  {
    IterateZeroQuantity(crc, file, end, cmds, start);
    ZeroItem(cmds[start..], start, i - start);
    ReplayStopsAtError(b, ItemsOf(cmds[start..], start), i - start, Protocol(ZeroOrderQuantity));
  }

  lemma ZeroItem(cmds: seq<Command>, current: nat, i: nat)
    requires i < |cmds| && !Loggable(cmds[i])
    ensures var items := ItemsOf(cmds, current);
      && items[i].Failure?
      && forall j :: 0 <= j < |items| && items[j].Failure? ==> items[j].error == Protocol(ZeroOrderQuantity)
  {
  }

  /** A snapshot that cannot be restored makes recovery fail, with the reason; nothing else does so. */
  lemma RecoveryRefusesSnapshot(crc: Crc, snap: Snapshot, walFile: seq<byte>, initialSize: nat, capacity: u32)
    ensures var r := RecoverOf(crc, Some(snap), walFile, initialSize, capacity);
      (r.Failure? && r.error.RestoreFailure?) <==> !DistinctIds(snap.orders) || |snap.orders| > capacity
    ensures StartOf(Some(snap), capacity).Success? ==>
      var (b, start) := StartOf(Some(snap), capacity).value;
      && start == snap.walRecordCount && BookSpec.WellFormed(b)
      && BookTheorems.HoldsBoth(BookSpec.EmptyBook(capacity), snap.orders, b)
  {
    BookTheorems.InsertAllIff(BookSpec.EmptyBook(capacity), snap.orders);
  }

  // ----- Recovery of any file

  /** Command i is what the payload of record `start + i` decodes to. */
  ghost predicate DecodedFrom(file: seq<byte>, bs: seq<nat>, start: nat, cmds: seq<Command>) {
    && |cmds| == Max0(|bs| - 1 - start)
    && forall i :: 0 <= i < |cmds| ==>
         && bs[start + i] + 8 <= |file| && RecordEnd(file, bs[start + i]) <= |file|
         && DecodeMessage(PayloadAt(file, bs[start + i])) == Success(cmds[i])
  }

  /** The commands of a replay that met no error. */
  lemma {:induction false} ReplayedCommands(b: BookSpec.Book, items: seq<Item>) returns (cmds: seq<Command>)
    requires ReplayItems(b, items).Success?
    ensures |cmds| == |items| && ReplayItems(b, items).value == BookSpec.Replay(b, cmds)
    ensures forall i :: 0 <= i < |items| ==> items[i].Success? && items[i].value.1 == cmds[i]
    decreases |items|
  {
    if items == [] {
      cmds := [];
    } else {
      var cmd := items[0].value.1;
      var rest := ReplayedCommands(BookSpec.Step(b, cmd).0, items[1..]);
      cmds := [cmd] + rest;
      assert cmds[1..] == rest;
      assert forall i :: 1 <= i < |items| ==> items[i] == items[1..][i - 1] && cmds[i] == rest[i - 1];
    }
  }

  /**
    What recovery makes of any file at all: the records with matching checksums at its front are
    the log, and those behind the starting point are decoded and replayed, no other bytes.
   */
  lemma RecoverMeans(crc: Crc, file: seq<byte>, snap: Option<Snapshot>, initialSize: nat, capacity: u32)
    returns (bs: seq<nat>, cmds: seq<Command>)
    requires RecoverOf(crc, snap, file, initialSize, capacity).Success?
    ensures StartOf(snap, capacity).Success? && RecordsAt(crc, Extended(file, initialSize), bs)
    ensures DecodedFrom(Extended(file, initialSize), bs, StartOf(snap, capacity).value.1, cmds)
    ensures RecoverOf(crc, snap, file, initialSize, capacity).value ==
      (BookSpec.Replay(StartOf(snap, capacity).value.0, cmds),
       Image(Extended(file, initialSize), bs[|bs| - 1], |bs| - 1))
  {
    var (b, start) := StartOf(snap, capacity).value;
    bs, cmds := ReplayMeans(crc, Extended(file, initialSize), b, start);
  }

  lemma ReplayMeans(crc: Crc, file: seq<byte>, b: BookSpec.Book, start: nat) returns (bs: seq<nat>, cmds: seq<Command>)
    requires ReplayItems(b, Items(crc, file, ScanFile(crc, file).0, start)).Success?
    ensures RecordsAt(crc, file, bs) && DecodedFrom(file, bs, start, cmds)
    ensures ScanFile(crc, file) == (bs[|bs| - 1], |bs| - 1)
    ensures ReplayItems(b, Items(crc, file, ScanFile(crc, file).0, start)).value == BookSpec.Replay(b, cmds)
  {
    bs := ScanMeans(crc, file);
    ItemsMean(crc, file, start, bs);
    var items := Items(crc, file, bs[|bs| - 1], start);
    cmds := ReplayedCommands(b, items);
    DecodedItems(crc, file, bs, start, items, cmds);
  }

  lemma DecodedItems(crc: Crc, file: seq<byte>, bs: seq<nat>, start: nat, items: seq<Item>, cmds: seq<Command>)
    requires RecordsAt(crc, file, bs) && |items| == |cmds| == Max0(|bs| - 1 - start)
    requires forall i :: 0 <= i < |items| ==>
      items[i] == DecodeFound(Payload(start + i + 1, PayloadAt(file, bs[start + i])))
    requires forall i :: 0 <= i < |items| ==> items[i].Success? && items[i].value.1 == cmds[i]
    ensures DecodedFrom(file, bs, start, cmds)
  {
    forall i | 0 <= i < |cmds|
      ensures bs[start + i] + 8 <= |file| && RecordEnd(file, bs[start + i]) <= |file|
      ensures DecodeMessage(PayloadAt(file, bs[start + i])) == Success(cmds[i])
    {
      DecodedItem(start + i + 1, PayloadAt(file, bs[start + i]), items[i]);
    }
  }

  lemma DecodedItem(n: nat, payload: seq<byte>, item: Item)
    requires item == DecodeFound(Payload(n, payload)) && item.Success?
    ensures DecodeMessage(payload) == Success(item.value.1)
  {
  }

  // ----- Captured snapshots

  /** No bid exceeds this price, and some bid has it; None if there are no bids. */
  ghost predicate HighestBid(bids: seq<Order>, best: Option<i64>) {
    match best
    case None => bids == []
    case Some(p) => (exists x :: x in bids && x.price == p) && forall x :: x in bids ==> x.price <= p
  }

  ghost predicate LowestAsk(asks: seq<Order>, best: Option<i64>) {
    match best
    case None => asks == []
    case Some(p) => (exists x :: x in asks && x.price == p) && forall x :: x in asks ==> x.price >= p
  }

  /** What a snapshot holds: all resting orders, asks first, the record count, and the best prices. */
  lemma CaptureMeans(sum: Checksum, b: BookSpec.Book, count: nat)
    requires BookSpec.WellFormed(b)
    ensures var snap := CaptureOf(sum, b, count);
      && snap.walRecordCount == count && snap.orders == b.asks + b.bids && snap.checksum == sum(b.asks + b.bids)
      && HighestBid(b.bids, snap.bestBid) && LowestAsk(b.asks, snap.bestAsk)
  {
    if b.bids != [] {
      assert b.bids[0] in b.bids;
    }
    if b.asks != [] {
      assert b.asks[0] in b.asks;
    }
  }

  /** Captures an engine and restores the snapshot: the same book, and the best prices it promised. */
  method CaptureAndRestore(sum: Checksum, engine: MatchingEngine, count: nat)
    returns (snap: Snapshot, restored: MatchingEngine)
    requires engine.Valid()
    ensures restored.Valid() && restored.View() == engine.View()
    ensures snap.walRecordCount == count && snap.checksum == sum(snap.orders)
    ensures restored.book.bestBid == snap.bestBid && restored.book.bestAsk == snap.bestAsk
    ensures HighestBid(restored.View().bids, snap.bestBid) && LowestAsk(restored.View().asks, snap.bestAsk)
  {
    engine.book.ViewWellFormed();
    snap := Capture(sum, engine, count);
    CaptureMeans(sum, engine.View(), count);
    BookTheorems.RestoreListing(engine.View());
    var r := RestoreFromOrders(snap.orders, engine.book.arena.capacity);
    restored := r.value;
    restored.CachedBest(Bid);
    restored.CachedBest(Ask);
  }

  /** A captured snapshot is intact and restores to the captured book. */
  lemma CaptureRestores(sum: Checksum, b: BookSpec.Book, count: nat, capacity: u32)
    requires BookSpec.WellFormed(b) && b.capacity == capacity
    ensures Intact(sum, Some(CaptureOf(sum, b, count)))
    ensures StartOf(Some(CaptureOf(sum, b, count)), capacity) == Success((b, count))
  {
    BookTheorems.RestoreListing(b);
  }
}
