/**
  The record format of src/wal.rs on plain bytes: what one record looks like, how a position
  is parsed, how the open scan and the iterator walk a file, and how they agree.

  CRC32 is any function from bytes to 32-bit numbers; nothing here depends on which.
 */
module WalFormat {
  import opened Orders
  import opened Bits
  import opened Codec
  import opened Walks
  import Timestamps

  type Crc = seq<byte> -> u32

  const HEADER_SIZE: nat := 8

  datatype WalError =
    | Protocol(error: ProtocolError)
    | Corruption(offset: nat)
    | TruncatedRecord(offset: nat)

  type Item = Result<(nat, Command), WalError>

  // ----- Parsing one position

  /** The record at `pos`, looking no further than `limit`. */
  function ParseAt(crc: Crc, file: seq<byte>, limit: nat, pos: nat): (p: Parsed)
    ensures p.Record? ==> p.size > 0 && pos + p.size <= limit
  {
    if limit > |file| || pos + HEADER_SIZE > limit then End
    else
      var len := U32Of(file[pos..pos + 4]);
      if len == 0 then End
      else
        var size := AlignUp(HEADER_SIZE + len);
        if pos + size > limit then Truncated
        else
          var payload := file[pos + HEADER_SIZE..pos + HEADER_SIZE + len];
          if U32Of(file[pos + 4..pos + 8]) != crc(payload) then Corrupt else Record(payload, size)
  }

  function ParserOf(crc: Crc, file: seq<byte>): Parser {
    (limit: nat, pos: nat) => ParseAt(crc, file, limit, pos)
  }

  lemma ParserFacts(crc: Crc, file: seq<byte>)
    ensures Sound(ParserOf(crc, file)) && Stable(ParserOf(crc, file), |file|)
  {
  }

  function ScanFile(crc: Crc, file: seq<byte>): (r: (nat, nat))
    ensures r.0 <= |file|
  {
    ParserFacts(crc, file);
    Scan(ParserOf(crc, file), |file|, 0)
  }

  /** An iterator's find, decoded. */
  function DecodeFound(f: Found): Item {
    match f
    case DamagedAt(offset, truncated) => Failure(if truncated then TruncatedRecord(offset) else Corruption(offset))
    case Payload(n, bytes) =>
      match DecodeMessage(bytes)
      case Success(cmd) => Success((n, cmd))
      case Failure(e) => Failure(Protocol(e))
  }

  function DecodeAll(fs: seq<Found>): seq<Item> {
    seq(|fs|, i requires 0 <= i < |fs| => DecodeFound(fs[i]))
  }

  /** Everything iteration from record `start` yields, up to the end or the first damaged record. */
  function Items(crc: Crc, file: seq<byte>, end: nat, start: nat): seq<Item> {
    ParserFacts(crc, file);
    DecodeAll(Walk(ParserOf(crc, file), end, 0, 0, start))
  }

  // ----- Writing

  function RecordSize(cmd: Command): (n: nat)
    ensures n > 0
  {
    AlignUp(HEADER_SIZE + |CommandBytes(cmd)|)
  }

  /** Length, checksum, payload, padding up to the record size. */
  function Frame(crc: Crc, payload: seq<byte>, size: nat): (b: seq<byte>)
    requires HEADER_SIZE + |payload| <= size
    ensures |b| == size
  {
    ToLE(|payload|, 4) + ToLE(crc(payload), 4) + payload + Zeros(size - HEADER_SIZE - |payload|)
  }

  function RecordBytes(crc: Crc, cmd: Command): (b: seq<byte>)
    ensures |b| == RecordSize(cmd)
  {
    Frame(crc, CommandBytes(cmd), RecordSize(cmd))
  }

  function LogBytes(crc: Crc, cmds: seq<Command>): seq<byte> {
    if cmds == [] then [] else RecordBytes(crc, cmds[0]) + LogBytes(crc, cmds[1..])
  }

  /** The file holds exactly these commands' records between `pos` and `end`. */
  predicate LogAt(crc: Crc, file: seq<byte>, pos: nat, end: nat, cmds: seq<Command>) {
    pos <= end <= |file| && file[pos..end] == LogBytes(crc, cmds)
  }

  predicate ZeroFrom(file: seq<byte>, pos: nat) {
    forall i :: pos <= i < |file| ==> file[i] == 0
  }

  lemma {:induction false} LogBytesAppend(crc: Crc, cmds: seq<Command>, cmd: Command)
    ensures LogBytes(crc, cmds + [cmd]) == LogBytes(crc, cmds) + RecordBytes(crc, cmd)
  {
    if cmds == [] {
      assert cmds + [cmd] == [cmd] && LogBytes(crc, [cmd]) == RecordBytes(crc, cmd) + [];
    } else {
      assert (cmds + [cmd])[0] == cmds[0] && (cmds + [cmd])[1..] == cmds[1..] + [cmd];
      LogBytesAppend(crc, cmds[1..], cmd);
    }
  }

  lemma {:induction false} LogBytesSplit(crc: Crc, a: seq<Command>, b: seq<Command>)
    ensures LogBytes(crc, a + b) == LogBytes(crc, a) + LogBytes(crc, b)
  {
    if a == [] {
      assert a + b == b;
    } else {
      assert (a + b)[1..] == a[1..] + b;
      LogBytesSplit(crc, a[1..], b);
    }
  }

  // ----- Parsing what was written

  lemma FourParts(a: seq<byte>, b: seq<byte>, c: seq<byte>, d: seq<byte>)
    ensures var s := a + b + c + d;
      && s[0..|a|] == a && s[|a|..|a| + |b|] == b && s[|a| + |b|..|a| + |b| + |c|] == c
  {
  }

  lemma FrameFields(crc: Crc, payload: seq<byte>, size: nat)
    requires HEADER_SIZE + |payload| <= size
    ensures var b := Frame(crc, payload, size);
      && b[0..4] == ToLE(|payload|, 4) && b[4..8] == ToLE(crc(payload), 4) && b[8..8 + |payload|] == payload
      && ZeroFrom(b, 8 + |payload|)
  {
    FourParts(ToLE(|payload|, 4), ToLE(crc(payload), 4), payload, Zeros(size - HEADER_SIZE - |payload|));
  }

  lemma SliceOfSlice(file: seq<byte>, pos: nat, n: nat, i: nat, j: nat)
    requires pos + n <= |file| && i <= j <= n
    ensures file[pos..pos + n][i..j] == file[pos + i..pos + j]
  {
    var a, b := file[pos..pos + n][i..j], file[pos + i..pos + j];
    forall k | 0 <= k < j - i ensures a[k] == b[k] {
      assert a[k] == file[pos..pos + n][i + k] == file[pos + (i + k)];
    }
  }

  /** The header and payload of a frame, found at its place in a file. */
  lemma FrameAt(crc: Crc, file: seq<byte>, pos: nat, payload: seq<byte>, size: nat)
    requires HEADER_SIZE + |payload| <= size && |payload| <= NEW_ORDER_SIZE
    requires pos + size <= |file| && file[pos..pos + size] == Frame(crc, payload, size)
    ensures U32Of(file[pos..pos + 4]) == |payload| && U32Of(file[pos + 4..pos + 8]) == crc(payload)
    ensures file[pos + HEADER_SIZE..pos + HEADER_SIZE + |payload|] == payload
  {
    FrameFields(crc, payload, size);
    SliceOfSlice(file, pos, size, 0, 4);
    SliceOfSlice(file, pos, size, 4, 8);
    SliceOfSlice(file, pos, size, 8, 8 + |payload|);
    RoundTripU32(|payload|);
    RoundTripU32(crc(payload));
  }

  /** A frame is read back, whatever the limit, as long as it fits. */
  lemma ParseFrame(crc: Crc, file: seq<byte>, limit: nat, pos: nat, payload: seq<byte>, size: nat)
    requires 0 < |payload| <= NEW_ORDER_SIZE && size == AlignUp(HEADER_SIZE + |payload|)
    requires pos + size <= limit <= |file| && file[pos..pos + size] == Frame(crc, payload, size)
    ensures ParseAt(crc, file, limit, pos) == Record(payload, size)
  {
    FrameAt(crc, file, pos, payload, size);
  }

  lemma ParseRecord(crc: Crc, file: seq<byte>, limit: nat, pos: nat, cmd: Command)
    requires pos + RecordSize(cmd) <= limit <= |file|
    requires file[pos..pos + RecordSize(cmd)] == RecordBytes(crc, cmd)
    ensures ParseAt(crc, file, limit, pos) == Record(CommandBytes(cmd), RecordSize(cmd))
  {
    ParseFrame(crc, file, limit, pos, CommandBytes(cmd), RecordSize(cmd));
  }

  lemma LogCons(crc: Crc, file: seq<byte>, pos: nat, end: nat, cmds: seq<Command>)
    requires LogAt(crc, file, pos, end, cmds) && cmds != []
    ensures pos + RecordSize(cmds[0]) <= end
    ensures file[pos..pos + RecordSize(cmds[0])] == RecordBytes(crc, cmds[0])
    ensures LogAt(crc, file, pos + RecordSize(cmds[0]), end, cmds[1..])
  {
    var n, whole := RecordSize(cmds[0]), file[pos..end];
    assert whole == RecordBytes(crc, cmds[0]) + LogBytes(crc, cmds[1..]);
    assert file[pos..pos + n] == whole[..n] && file[pos + n..end] == whole[n..];
  }

  lemma {:induction false} FromZeros(b: seq<byte>)
    requires forall i :: 0 <= i < |b| ==> b[i] == 0
    ensures FromLE(b) == 0
  {
    if b != [] {
      FromZeros(b[1..]);
    }
  }

  lemma ParseZeros(crc: Crc, file: seq<byte>, pos: nat)
    requires ZeroFrom(file, pos)
    ensures ParseAt(crc, file, |file|, pos) == End
  {
    if pos + HEADER_SIZE <= |file| {
      FromZeros(file[pos..pos + 4]);
    }
  }

  // ----- Re-opening a log

  function Recs(cmds: seq<Command>): seq<(seq<byte>, nat)> {
    seq(|cmds|, i requires 0 <= i < |cmds| => (CommandBytes(cmds[i]), RecordSize(cmds[i])))
  }

  function RecOf(cmd: Command): (seq<byte>, nat) { (CommandBytes(cmd), RecordSize(cmd)) }

  /** The records of a log form a chain. */
  lemma LogChain(crc: Crc, file: seq<byte>, pos: nat, end: nat, cmds: seq<Command>)
    requires LogAt(crc, file, pos, end, cmds)
    ensures Chain(ParserOf(crc, file), |file|, pos, end, Recs(cmds))
  {
    var parse := ParserOf(crc, file);
    var holds := (p: nat, cs: seq<Command>) => LogAt(crc, file, p, end, cs);
    forall p, cs ensures Steps(parse, |file|, end, holds, RecOf, p, cs) {
      LogSteps(crc, file, end, p, cs);
    }
    ChainInduct(parse, |file|, end, holds, RecOf, pos, cmds, Recs(cmds));
  }

  lemma LogSteps(crc: Crc, file: seq<byte>, end: nat, p: nat, cs: seq<Command>)
    ensures Steps(ParserOf(crc, file), |file|, end, (p: nat, cs: seq<Command>) => LogAt(crc, file, p, end, cs),
                  RecOf, p, cs)
  {
    if LogAt(crc, file, p, end, cs) {
      if cs == [] {
        assert |file[p..end]| == end - p;
      } else {
        LogCons(crc, file, p, end, cs);
        ReadsOne(crc, file, p, cs[0]);
      }
    }
  }

  lemma ReadsOne(crc: Crc, file: seq<byte>, pos: nat, cmd: Command)
    requires pos + RecordSize(cmd) <= |file| && file[pos..pos + RecordSize(cmd)] == RecordBytes(crc, cmd)
    ensures ReadsAs(ParserOf(crc, file), |file|, pos, RecOf(cmd))
  {
    forall limit | pos + RecordSize(cmd) <= limit <= |file|
      ensures ParserOf(crc, file)(limit, pos) == Record(CommandBytes(cmd), RecordSize(cmd))
    {
      ParseRecord(crc, file, limit, pos, cmd);
    }
  }

  /** Scanning a log with a zero tail finds its end and its length. */
  lemma ScanLog(crc: Crc, file: seq<byte>, end: nat, cmds: seq<Command>)
    requires LogAt(crc, file, 0, end, cmds) && ZeroFrom(file, end)
    ensures ScanFile(crc, file) == (end, |cmds|)
  {
    ParserFacts(crc, file);
    LogChain(crc, file, 0, end, cmds);
    ParseZeros(crc, file, end);
    ScanChain(ParserOf(crc, file), |file|, 0, end, Recs(cmds));
  }

  /**
    What a scan makes of a log with anything at all behind it: it finds at least the log, and
    exactly the log if and only if no record can be read right behind it.
   */
  lemma ScanExactIff(crc: Crc, file: seq<byte>, end: nat, cmds: seq<Command>)
    requires LogAt(crc, file, 0, end, cmds)
    ensures var (end', count) := ScanFile(crc, file);
      && end <= end' && |cmds| <= count
      && ((end', count) == (end, |cmds|) <==> !RecordAt(crc, file, |file|, end))
  {
    ParseMeans(crc, file, |file|, end);
    ParserFacts(crc, file);
    LogChain(crc, file, 0, end, cmds);
    ScanChain(ParserOf(crc, file), |file|, 0, end, Recs(cmds));
  }

  /** Commands as the iterator returns them: numbered on from `current`, timestamps gone. */
  function NumberedCommands(cmds: seq<Command>, current: nat): seq<Item> {
    seq(|cmds|, i requires 0 <= i < |cmds| => Success((current + i + 1, Timestamps.StripCommand(cmds[i]))))
  }

  /** What the iterator yields for the record of any command: an order of zero quantity is an error. */
  function ItemOf(cmd: Command, n: nat): Item {
    if Loggable(cmd) then Success((n, Timestamps.StripCommand(cmd))) else Failure(Protocol(ZeroOrderQuantity))
  }

  function ItemsOf(cmds: seq<Command>, current: nat): seq<Item> {
    seq(|cmds|, i requires 0 <= i < |cmds| => ItemOf(cmds[i], current + i + 1))
  }

  lemma DecodeRecs(cmds: seq<Command>, current: nat)
    ensures DecodeAll(Numbered(Recs(cmds), current)) == ItemsOf(cmds, current)
  {
    var items, expected := DecodeAll(Numbered(Recs(cmds), current)), ItemsOf(cmds, current);
    forall i | 0 <= i < |cmds| ensures items[i] == expected[i] {
      DecodeNth(cmds, current, i);
    }
  }

  lemma DecodeNth(cmds: seq<Command>, current: nat, i: nat)
    requires i < |cmds|
    ensures DecodeAll(Numbered(Recs(cmds), current))[i] == ItemsOf(cmds, current)[i]
  {
    NumberedAt(cmds, current, i);
    DecodeOne(cmds[i], current + i + 1);
    ItemsOfAt(cmds, current, i);
  }

  lemma NumberedAt(cmds: seq<Command>, current: nat, i: nat)
    requires i < |cmds|
    ensures DecodeAll(Numbered(Recs(cmds), current))[i]
         == DecodeFound(Payload(current + i + 1, CommandBytes(cmds[i])))
  {
  }

  lemma ItemsOfAt(cmds: seq<Command>, current: nat, i: nat)
    requires i < |cmds|
    ensures ItemsOf(cmds, current)[i] == ItemOf(cmds[i], current + i + 1)
  {
  }

  lemma DecodeOne(cmd: Command, n: nat)
    ensures DecodeFound(Payload(n, CommandBytes(cmd))) == ItemOf(cmd, n)
  {
    DecodeEncoded(cmd);
  }

  lemma DecodeNumbered(cmds: seq<Command>, current: nat)
    requires AllLoggable(cmds)
    ensures DecodeAll(Numbered(Recs(cmds), current)) == NumberedCommands(cmds, current)
  {
    DecodeRecs(cmds, current);
    LoggableItems(cmds, current);
  }

  lemma LoggableItems(cmds: seq<Command>, current: nat)
    requires AllLoggable(cmds)
    ensures ItemsOf(cmds, current) == NumberedCommands(cmds, current)
  {
  }

  /** Walking a log finds the payloads of its records, and then whatever lies behind it. */
  lemma WalkLog(crc: Crc, file: seq<byte>, limit: nat, end: nat, cmds: seq<Command>, start: nat)
    requires LogAt(crc, file, 0, end, cmds) && start <= |cmds| && end <= limit <= |file|
    ensures Sound(ParserOf(crc, file))
    ensures Walk(ParserOf(crc, file), limit, 0, 0, start)
      == Numbered(Recs(cmds[start..]), start) + Walk(ParserOf(crc, file), limit, end, |cmds|, start)
  {
    ParserFacts(crc, file);
    LogChain(crc, file, 0, end, cmds);
    WalkFromStart(ParserOf(crc, file), |file|, limit, end, Recs(cmds), start);
    RecsFrom(cmds, start);
  }

  lemma RecsFrom(cmds: seq<Command>, start: nat)
    requires start <= |cmds|
    ensures Recs(cmds)[start..] == Recs(cmds[start..]) && |Recs(cmds)| == |cmds|
  {
  }

  lemma WalkFromStart(parse: Parser, len: nat, limit: nat, end: nat, recs: seq<(seq<byte>, nat)>, start: nat)
    requires Sound(parse) && end <= limit <= len && start <= |recs|
    ensures Chain(parse, len, 0, end, recs) ==>
      Walk(parse, limit, 0, 0, start) == Numbered(recs[start..], start) + Walk(parse, limit, end, |recs|, start)
  {
    if Chain(parse, len, 0, end, recs) {
      WalkThrough(parse, len, limit, 0, end, recs, 0, start);
    }
  }

  /** What the iterator finds in a log are the payloads of its records. */
  lemma ItemsOfLog(crc: Crc, file: seq<byte>, end: nat, cmds: seq<Command>, start: nat)
    requires LogAt(crc, file, 0, end, cmds) && start <= |cmds|
    ensures Items(crc, file, end, start) == DecodeAll(Numbered(Recs(cmds[start..]), start))
  {
    WalkLog(crc, file, end, end, cmds, start);
    assert ParseAt(crc, file, end, end) == End;
  }

  /** Iterating a log from record k yields exactly the later commands, in order. */
  lemma IterateLog(crc: Crc, file: seq<byte>, end: nat, cmds: seq<Command>, start: nat)
    requires LogAt(crc, file, 0, end, cmds) && start <= |cmds| && AllLoggable(cmds[start..])
    ensures Items(crc, file, end, start) == NumberedCommands(cmds[start..], start)
  {
    ItemsOfLog(crc, file, end, cmds, start);
    DecodeNumbered(cmds[start..], start);
  }

  /** Whatever the commands, an order of zero quantity is yielded as an error; later ones are unaffected. */
  lemma IterateZeroQuantity(crc: Crc, file: seq<byte>, end: nat, cmds: seq<Command>, start: nat)
    requires LogAt(crc, file, 0, end, cmds) && start <= |cmds|
    ensures Items(crc, file, end, start) == ItemsOf(cmds[start..], start)
  {
    ItemsOfLog(crc, file, end, cmds, start);
    DecodeRecs(cmds[start..], start);
  }

  // ----- Any file at all

  predicate IsDamage(item: Item) {
    item.Failure? && (item.error.Corruption? || item.error.TruncatedRecord?)
  }

  /**
    Whatever the file holds, iterating up to where the scan stopped never meets a corrupt or
    truncated record, and yields one item for each scanned record after `start`.
   */
  lemma IterateScanned(crc: Crc, file: seq<byte>, start: nat)
    ensures var (end, count) := ScanFile(crc, file);
      var items := Items(crc, file, end, start);
      && (forall i :: 0 <= i < |items| ==> !IsDamage(items[i]))
      && |items| == Max0(count - start)
  {
    ParserFacts(crc, file);
    WalkScanned(ParserOf(crc, file), |file|, 0, 0, start);
    DecodeIntact(Walk(ParserOf(crc, file), ScanFile(crc, file).0, 0, 0, start));
  }

  lemma DecodeIntact(fs: seq<Found>)
    requires forall i :: 0 <= i < |fs| ==> fs[i].Payload?
    ensures forall i :: 0 <= i < |fs| ==> !IsDamage(DecodeAll(fs)[i])
  {
  }

  // ----- What any bytes amount to

  /** Where the record at `p` would end: header, payload, and padding to a multiple of 8. */
  function RecordEnd(file: seq<byte>, p: nat): nat
    requires p + 8 <= |file|
  {
    p + AlignUp(8 + FromLE(file[p..p + 4]))
  }

  /** A record at `p`: a length that fits below the limit, and the checksum of its payload. */
  predicate RecordAt(crc: Crc, file: seq<byte>, limit: nat, p: nat)
    requires limit <= |file|
  {
    && p + 8 <= limit && FromLE(file[p..p + 4]) > 0 && RecordEnd(file, p) <= limit
    && FromLE(file[p + 4..p + 8]) == crc(PayloadAt(file, p))
  }

  function PayloadAt(file: seq<byte>, p: nat): seq<byte>
    requires p + 8 <= |file| && RecordEnd(file, p) <= |file|
  {
    file[p + 8..p + 8 + FromLE(file[p..p + 4])]
  }

  /** What a position holds, read off its bytes: a record, an end, a cut-off one, or a damaged one. */
  lemma ParseMeans(crc: Crc, file: seq<byte>, limit: nat, pos: nat)
    requires limit <= |file|
    ensures var p := ParseAt(crc, file, limit, pos);
      && (p.Record? <==> RecordAt(crc, file, limit, pos))
      && (p.Record? ==> p.payload == PayloadAt(file, pos) && pos + p.size == RecordEnd(file, pos))
      && (p.End? <==> pos + 8 > limit || FromLE(file[pos..pos + 4]) == 0)
      && (p.Truncated? <==> pos + 8 <= limit && FromLE(file[pos..pos + 4]) > 0 && RecordEnd(file, pos) > limit)
  {
  }

  /** The records of a file lie one behind the other at these places, and none lies behind the last. */
  ghost predicate RecordsAt(crc: Crc, file: seq<byte>, bs: seq<nat>) {
    && bs != [] && bs[0] == 0 && bs[|bs| - 1] <= |file| && !RecordAt(crc, file, |file|, bs[|bs| - 1])
    && forall i :: 0 <= i < |bs| - 1 ==> RecordAt(crc, file, |file|, bs[i]) && bs[i + 1] == RecordEnd(file, bs[i])
  }

  lemma RecordsAreBounds(crc: Crc, file: seq<byte>, bs: seq<nat>)
    requires bs != [] && bs[0] == 0 && bs[|bs| - 1] <= |file|
    ensures RecordsAt(crc, file, bs) <==> Bounds(ParserOf(crc, file), |file|, bs)
  {
    var parse := ParserOf(crc, file);
    forall i | 0 <= i < |bs|
      ensures parse(|file|, bs[i]).Record? <==> RecordAt(crc, file, |file|, bs[i])
      ensures parse(|file|, bs[i]).Record? ==> bs[i] + parse(|file|, bs[i]).size == RecordEnd(file, bs[i])
    {
      ParseMeans(crc, file, |file|, bs[i]);
    }
  }

  /**
    What opening any file finds: records with matching checksums, one behind the other from its
    start, and behind the last of them no such record.
   */
  lemma ScanMeans(crc: Crc, file: seq<byte>) returns (bs: seq<nat>)
    ensures RecordsAt(crc, file, bs) && ScanFile(crc, file) == (bs[|bs| - 1], |bs| - 1)
  {
    ParserFacts(crc, file);
    bs := ScanBounds(ParserOf(crc, file), |file|, 0);
    RecordsAreBounds(crc, file, bs);
  }

  /** And what iterating it yields: those payloads, decoded and numbered. */
  lemma ItemsMean(crc: Crc, file: seq<byte>, start: nat, bs: seq<nat>)
    requires RecordsAt(crc, file, bs) && ScanFile(crc, file) == (bs[|bs| - 1], |bs| - 1)
    ensures var items := Items(crc, file, bs[|bs| - 1], start);
      && |items| == Max0(|bs| - 1 - start)
      && forall i :: 0 <= i < |items| ==>
           items[i] == DecodeFound(Payload(start + i + 1, PayloadAt(file, bs[start + i])))
  {
    IterateScanned(crc, file, start);
    var items := Items(crc, file, bs[|bs| - 1], start);
    forall i | 0 <= i < |items|
      ensures items[i] == DecodeFound(Payload(start + i + 1, PayloadAt(file, bs[start + i])))
    {
      ItemMeans(crc, file, start, bs, i);
    }
  }

  lemma ItemMeans(crc: Crc, file: seq<byte>, start: nat, bs: seq<nat>, i: nat)
    requires RecordsAt(crc, file, bs) && start + i < |bs| - 1
    ensures var items := Items(crc, file, bs[|bs| - 1], start);
      i < |items| && items[i] == DecodeFound(Payload(start + i + 1, PayloadAt(file, bs[start + i])))
  {
    ParserFacts(crc, file);
    RecordsAreBounds(crc, file, bs);
    WalkBounds(ParserOf(crc, file), |file|, bs, 0, start, i);
    ParseMeans(crc, file, |file|, bs[start + i]);
  }

  /** Behind a log, bytes whose checksum does not match end the scan exactly there. */
  lemma ChecksumStops(crc: Crc, file: seq<byte>, end: nat, cmds: seq<Command>)
    requires LogAt(crc, file, 0, end, cmds) && end + 8 <= |file|
    requires RecordEnd(file, end) <= |file| && FromLE(file[end + 4..end + 8]) != crc(PayloadAt(file, end))
    ensures ScanFile(crc, file) == (end, |cmds|)
  {
    ScanExactIff(crc, file, end, cmds);
    ParseMeans(crc, file, |file|, end);
  }

  /** An iterator that looks past a log reports a cut-off or damaged record behind it, at its offset. */
  lemma IterateDamaged(crc: Crc, file: seq<byte>, limit: nat, end: nat, cmds: seq<Command>, start: nat)
    requires LogAt(crc, file, 0, end, cmds) && start <= |cmds| && AllLoggable(cmds[start..])
    requires end + 8 <= limit <= |file| && FromLE(file[end..end + 4]) > 0 && !RecordAt(crc, file, limit, end)
    ensures Items(crc, file, limit, start) == NumberedCommands(cmds[start..], start)
      + [Failure(if RecordEnd(file, end) > limit then TruncatedRecord(end) else Corruption(end))]
  {
    WalkLog(crc, file, limit, end, cmds, start);
    DecodeNumbered(cmds[start..], start);
    DamageFound(crc, file, limit, end, |cmds|, start);
    DecodeConcat(Numbered(Recs(cmds[start..]), start), Walk(ParserOf(crc, file), limit, end, |cmds|, start));
  }

  lemma DamageFound(crc: Crc, file: seq<byte>, limit: nat, pos: nat, current: nat, start: nat)
    requires pos + 8 <= limit <= |file| && FromLE(file[pos..pos + 4]) > 0 && !RecordAt(crc, file, limit, pos)
    ensures Sound(ParserOf(crc, file))
    ensures DecodeAll(Walk(ParserOf(crc, file), limit, pos, current, start))
      == [Failure(if RecordEnd(file, pos) > limit then TruncatedRecord(pos) else Corruption(pos))]
  {
    ParserFacts(crc, file);
    ParseMeans(crc, file, limit, pos);
    assert ParserOf(crc, file)(limit, pos) == ParseAt(crc, file, limit, pos);
  }

  lemma DecodeConcat(a: seq<Found>, b: seq<Found>)
    ensures DecodeAll(a + b) == DecodeAll(a) + DecodeAll(b)
  {
  }

  /**
    Overwriting a log from some offset on, in any way, loses no record that ended before it:
    those records are scanned, and iterated first and in order.
   */
  lemma DamagedTail(crc: Crc, file: seq<byte>, end: nat, cmds: seq<Command>, damaged: seq<byte>, offset: nat, j: nat)
    requires LogAt(crc, file, 0, end, cmds) && j <= |cmds| && AllLoggable(cmds[..j])
    requires offset <= |file| && offset <= |damaged| && damaged[..offset] == file[..offset]
    requires |LogBytes(crc, cmds[..j])| <= offset
    ensures var (end', count) := ScanFile(crc, damaged);
      && |LogBytes(crc, cmds[..j])| <= end' && j <= count
      && NumberedCommands(cmds[..j], 0) <= Items(crc, damaged, end', 0)
  {
    var first, keep := cmds[..j], |LogBytes(crc, cmds[..j])|;
    IntactPrefix(crc, file, end, cmds, damaged, offset, j);
    ParserFacts(crc, damaged);
    LogChain(crc, damaged, 0, keep, first);
    ScanChain(ParserOf(crc, damaged), |damaged|, 0, keep, Recs(first));
    var end' := ScanFile(crc, damaged).0;
    WalkChain(ParserOf(crc, damaged), |damaged|, end', 0, keep, Recs(first), 0, 0);
    DecodeNumbered(first, 0);
    DecodePrefix(Numbered(Recs(first), 0), Walk(ParserOf(crc, damaged), end', 0, 0, 0));
  }

  /** The records that ended before the damage are still there. */
  lemma IntactPrefix(crc: Crc, file: seq<byte>, end: nat, cmds: seq<Command>, damaged: seq<byte>, offset: nat, j: nat)
    requires LogAt(crc, file, 0, end, cmds) && j <= |cmds|
    requires offset <= |file| && offset <= |damaged| && damaged[..offset] == file[..offset]
    requires |LogBytes(crc, cmds[..j])| <= offset
    ensures LogAt(crc, damaged, 0, |LogBytes(crc, cmds[..j])|, cmds[..j])
  {
    var keep := |LogBytes(crc, cmds[..j])|;
    LogPrefix(crc, file, end, cmds, j);
    assert damaged[0..keep] == damaged[..offset][..keep] == file[..offset][..keep] == file[..keep];
  }

  lemma DecodePrefix(a: seq<Found>, b: seq<Found>)
    requires a <= b
    ensures DecodeAll(a) <= DecodeAll(b)
  {
  }

  /** The first j records of a log are a log of their own. */
  lemma LogPrefix(crc: Crc, file: seq<byte>, end: nat, cmds: seq<Command>, j: nat)
    requires LogAt(crc, file, 0, end, cmds) && j <= |cmds|
    ensures LogAt(crc, file, 0, |LogBytes(crc, cmds[..j])|, cmds[..j])
    ensures file[..|LogBytes(crc, cmds[..j])|] == LogBytes(crc, cmds[..j])
    ensures |LogBytes(crc, cmds[..j])| <= end
  {
    assert cmds == cmds[..j] + cmds[j..];
    LogFirst(crc, file, end, cmds[..j], cmds[j..]);
  }

  lemma LogFirst(crc: Crc, file: seq<byte>, end: nat, a: seq<Command>, b: seq<Command>)
    requires LogAt(crc, file, 0, end, a + b)
    ensures |LogBytes(crc, a)| <= end && file[..|LogBytes(crc, a)|] == LogBytes(crc, a)
    ensures LogAt(crc, file, 0, |LogBytes(crc, a)|, a)
  {
    LogBytesSplit(crc, a, b);
    FirstPart(file, end, LogBytes(crc, a), LogBytes(crc, b));
  }

  lemma FirstPart(file: seq<byte>, end: nat, a: seq<byte>, b: seq<byte>)
    requires end <= |file| && file[0..end] == a + b
    ensures |a| <= end && file[0..|a|] == file[..|a|] == a
  {
  }
}
