/**
  The write-ahead log of src/wal.rs: an append-only file image with its write position and
  record count, and the iterator over it. The file grows with zeros; input and output errors
  of the operating system are not modelled.

  The header checks that the source writes out in both the scan and the iterator, in the same
  order, are the one function WalFormat.ParseAt.
 */
module Wals {
  import opened Orders
  import opened Bits
  import opened Codec
  import opened Walks
  import opened WalFormat

  /** What a log amounts to between calls. */
  datatype Image = Image(file: seq<byte>, writePos: nat, count: nat)

  function Grown(file: seq<byte>, needed: nat): (g: seq<byte>)
    ensures |g| >= needed && file <= g
  {
    if needed <= |file| then file
    else file + Zeros((if 2 * |file| >= needed then 2 * |file| else needed) - |file|)
  }

  /** A file that is too small doubles, or takes what it needs if that is more; the rest is zeros. */
  lemma GrownMeans(file: seq<byte>, needed: nat)
    ensures var g := Grown(file, needed);
      && file <= g && ZeroFrom(g, |file|)
      && (needed <= |file| ==> |g| == |file|)
      && (|file| < needed ==> |g| >= 2 * |file| && (|g| == 2 * |file| || |g| == needed))
  {
  }

  function Put(file: seq<byte>, pos: nat, bytes: seq<byte>): (f: seq<byte>)
    requires pos + |bytes| <= |file|
    ensures |f| == |file|
  {
    file[..pos] + bytes + file[pos + |bytes|..]
  }

  function AppendBytes(img: Image, bytes: seq<byte>): Image {
    Image(Put(Grown(img.file, img.writePos + |bytes|), img.writePos, bytes), img.writePos + |bytes|, img.count + 1)
  }

  function AppendImage(crc: Crc, img: Image, cmd: Command): Image { AppendBytes(img, RecordBytes(crc, cmd)) }

  /** A file as opening it leaves it: zeros up to the initial size. */
  function Extended(file: seq<byte>, initialSize: nat): (f: seq<byte>)
    ensures file <= f && ZeroFrom(f, |file|) && |f| == if |file| < initialSize then initialSize else |file|
  {
    if |file| < initialSize then file + Zeros(initialSize - |file|) else file
  }

  function OpenImage(crc: Crc, file: seq<byte>, initialSize: nat): Image {
    var f := Extended(file, initialSize);
    var (end, count) := ScanFile(crc, f);
    Image(f, end, count)
  }

  function TruncateImage(img: Image, offset: nat, count: nat): Image
    requires img.writePos <= |img.file|
  {
    Image(if offset < img.writePos then img.file[..offset] + Zeros(img.writePos - offset) + img.file[img.writePos..]
          else img.file, offset, count)
  }

  /** The image holds exactly these bytes, with nothing but zeros behind them. */
  ghost predicate HoldsBytes(img: Image, bytes: seq<byte>, count: nat) {
    && img.writePos <= |img.file| && img.file[0..img.writePos] == bytes && img.count == count
    && ZeroFrom(img.file, img.writePos)
  }

  /** The image is the log of exactly these commands. */
  ghost predicate IsLog(crc: Crc, img: Image, cmds: seq<Command>) {
    HoldsBytes(img, LogBytes(crc, cmds), |cmds|)
  }

  /** Appending extends the log by one command, whether or not the file had to grow. */
  lemma AppendKeepsLog(crc: Crc, img: Image, cmds: seq<Command>, cmd: Command)
    requires IsLog(crc, img, cmds)
    ensures IsLog(crc, AppendImage(crc, img, cmd), cmds + [cmd])
  {
    LogBytesAppend(crc, cmds, cmd);
    AppendHolds(img, LogBytes(crc, cmds), |cmds|, RecordBytes(crc, cmd));
  }

  lemma AppendHolds(img: Image, log: seq<byte>, count: nat, bytes: seq<byte>)
    requires HoldsBytes(img, log, count)
    ensures HoldsBytes(AppendBytes(img, bytes), log + bytes, count + 1)
  {
  }

  /** Re-opening restores the write position and the record count, and the log is still the same. */
  lemma ReopenKeepsLog(crc: Crc, img: Image, cmds: seq<Command>, initialSize: nat)
    requires IsLog(crc, img, cmds)
    ensures var img' := OpenImage(crc, img.file, initialSize);
      img'.writePos == img.writePos && img'.count == img.count && IsLog(crc, img', cmds)
  {
    var f := OpenImage(crc, img.file, initialSize).file;
    assert f[0..img.writePos] == img.file[0..img.writePos];
    ScanLog(crc, f, img.writePos, cmds);
  }

  /** Cutting a log back to its first j records leaves the log of those, zeros behind it. */
  lemma TruncateKeepsLog(crc: Crc, img: Image, cmds: seq<Command>, j: nat)
    requires IsLog(crc, img, cmds) && j <= |cmds|
    ensures IsLog(crc, TruncateImage(img, |LogBytes(crc, cmds[..j])|, j), cmds[..j])
  {
    var n := |LogBytes(crc, cmds[..j])|;
    LogPrefix(crc, img.file, img.writePos, cmds, j);
    var img' := TruncateImage(img, n, j);
    assert img'.file[0..n] == img.file[..n];
  }

  lemma EmptyLog(crc: Crc, initialSize: nat)
    ensures IsLog(crc, OpenImage(crc, [], initialSize), [])
  {
    var f := OpenImage(crc, [], initialSize).file;
    assert f[0..0] == [];
    ScanLog(crc, f, 0, []);
  }

  // ----- Logs with something behind them

  /** Appending keeps the records of a log whatever lies behind it. */
  lemma AppendKeepsRecords(crc: Crc, img: Image, cmds: seq<Command>, cmd: Command)
    requires LogAt(crc, img.file, 0, img.writePos, cmds)
    ensures var img' := AppendImage(crc, img, cmd);
      LogAt(crc, img'.file, 0, img'.writePos, cmds + [cmd])
  {
    LogBytesAppend(crc, cmds, cmd);
    AppendPrefix(img, LogBytes(crc, cmds), RecordBytes(crc, cmd));
  }

  lemma AppendPrefix(img: Image, log: seq<byte>, bytes: seq<byte>)
    requires img.writePos <= |img.file| && img.file[0..img.writePos] == log
    ensures var img' := AppendBytes(img, bytes);
      img'.writePos <= |img'.file| && img'.file[0..img'.writePos] == log + bytes
  {
  }

  lemma FillGap(a: seq<byte>, b: seq<byte>, c: seq<byte>, count: nat)
    ensures AppendBytes(Image(a + Zeros(|b|) + c, |a|, count), b).file == a + b + c
  {
  }

  /** What opening a log finds in it at least, and when it finds no more. */
  lemma OpenExactIff(crc: Crc, file: seq<byte>, end: nat, cmds: seq<Command>, initialSize: nat)
    requires LogAt(crc, file, 0, end, cmds)
    ensures var img := OpenImage(crc, file, initialSize);
      && LogAt(crc, img.file, 0, end, cmds) && end <= img.writePos && |cmds| <= img.count
      && ((img.writePos, img.count) == (end, |cmds|) <==> !RecordAt(crc, img.file, |img.file|, end))
  {
    var f := Extended(file, initialSize);
    assert f[0..end] == file[0..end];
    ScanExactIff(crc, f, end, cmds);
  }

  /**
    Re-opening restores the write position and the count if and only if no record can be read
    at the write position: the open scan does not clear what lies behind it.
   */
  lemma ReopenExactIff(crc: Crc, img: Image, cmds: seq<Command>, initialSize: nat)
    requires LogAt(crc, img.file, 0, img.writePos, cmds) && img.count == |cmds|
    ensures var img', f := OpenImage(crc, img.file, initialSize), Extended(img.file, initialSize);
      (img'.writePos, img'.count) == (img.writePos, img.count)
      <==> !RecordAt(crc, f, |f|, img.writePos)
  {
    OpenExactIff(crc, img.file, img.writePos, cmds, initialSize);
  }

  lemma TwoParts(crc: Crc, a: Command, gap: seq<byte>, c: seq<byte>)
    ensures var file := RecordBytes(crc, a) + gap + c;
      && LogAt(crc, file, 0, RecordSize(a), [a])
      && file[RecordSize(a)..RecordSize(a) + |gap|] == gap
  {
  }

  /** One record and a zeroed gap: opening stops in front of the gap, whatever lies behind it. */
  lemma OpenStopsAtGap(crc: Crc, a: Command, gap: nat, c: seq<byte>, initialSize: nat)
    requires gap >= HEADER_SIZE
    ensures var file := RecordBytes(crc, a) + Zeros(gap) + c;
      OpenImage(crc, file, initialSize) == Image(Extended(file, initialSize), RecordSize(a), 1)
  {
    var n, file := RecordSize(a), RecordBytes(crc, a) + Zeros(gap) + c;
    var f := Extended(file, initialSize);
    TwoParts(crc, a, Zeros(gap), c);
    OpenExactIff(crc, file, n, [a], initialSize);
    assert f[n..n + gap] == file[n..n + gap];
    GapEnds(crc, f, n, gap);
  }

  /**
    A log of one record, then a zeroed gap of the size of a record, then an old record: opening
    it finds one record, but after one append of the gap's size the next opening finds three,
    the old record among them. The sizes the file is opened with make no difference.
   */
  lemma StaleRecordReturns(crc: Crc, a: Command, b: Command, c: Command, size: nat, size': nat)
    ensures var file := RecordBytes(crc, a) + Zeros(RecordSize(b)) + RecordBytes(crc, c);
      var img := OpenImage(crc, file, size);
      var img' := OpenImage(crc, AppendImage(crc, img, b).file, size');
      img.count == 1 && img'.count == 3 && LogAt(crc, img'.file, 0, |file|, [a, b, c])
  {
    var ra, rb, rc := RecordBytes(crc, a), RecordBytes(crc, b), RecordBytes(crc, c);
    var file := ra + Zeros(|rb|) + rc;
    OpenStopsAtGap(crc, a, |rb|, rc, size);
    var zeros := Extended(file, size)[|file|..];
    assert Extended(file, size) == ra + Zeros(|rb|) + (rc + zeros);
    FillGap(ra, rb, rc + zeros, 1);
    AllThree(crc, a, b, c, zeros, size');
  }

  lemma AllThree(crc: Crc, a: Command, b: Command, c: Command, zeros: seq<byte>, initialSize: nat)
    requires ZeroFrom(zeros, 0)
    ensures var log := RecordBytes(crc, a) + RecordBytes(crc, b) + RecordBytes(crc, c);
      var img := OpenImage(crc, RecordBytes(crc, a) + RecordBytes(crc, b) + (RecordBytes(crc, c) + zeros), initialSize);
      img.count == 3 && LogAt(crc, img.file, 0, |log|, [a, b, c])
  {
    var log := LogBytes(crc, [a, b, c]);
    ThreeRecords(crc, a, b, c);
    var file := log + zeros;
    assert RecordBytes(crc, a) + RecordBytes(crc, b) + (RecordBytes(crc, c) + zeros) == file;
    assert file[0..|log|] == log;
    assert ZeroFrom(file, |log|);
    ReopenKeepsLog(crc, Image(file, |log|, 3), [a, b, c], initialSize);
  }

  lemma GapEnds(crc: Crc, file: seq<byte>, pos: nat, size: nat)
    requires size >= HEADER_SIZE && pos + size <= |file| && file[pos..pos + size] == Zeros(size)
    ensures ParseAt(crc, file, |file|, pos) == End
  {
    SliceOfSlice(file, pos, size, 0, 4);
    FromZeros(file[pos..pos + 4]);
  }

  lemma ThreeRecords(crc: Crc, a: Command, b: Command, c: Command)
    ensures LogBytes(crc, [a, b, c]) == RecordBytes(crc, a) + RecordBytes(crc, b) + RecordBytes(crc, c)
  {
    LogBytesAppend(crc, [], a);
    LogBytesAppend(crc, [a], b);
    LogBytesAppend(crc, [a, b], c);
    assert [] + [a] == [a] && [a] + [b] == [a, b] && [a, b] + [c] == [a, b, c];
    assert LogBytes(crc, []) + RecordBytes(crc, a) == RecordBytes(crc, a);
  }

  // ----- The open scan as a loop

  function ScanFrom(crc: Crc, file: seq<byte>, pos: nat): (nat, nat)
    requires pos <= |file|
  {
    ParserFacts(crc, file);
    Scan(ParserOf(crc, file), |file|, pos)
  }

  function Counting(r: (nat, nat), count: nat): (nat, nat) { (r.0, count + r.1) }

  /** `count` records lie before `pos`, and the rest of the scan is the scan from there. */
  ghost predicate ScannedTo(crc: Crc, file: seq<byte>, pos: nat, count: nat) {
    pos <= |file| && ScanFile(crc, file) == Counting(ScanFrom(crc, file, pos), count)
  }

  lemma ScanStarts(crc: Crc, file: seq<byte>)
    ensures ScannedTo(crc, file, 0, 0)
  {
  }

  lemma ScanGoesOn(crc: Crc, file: seq<byte>, pos: nat, count: nat)
    requires ScannedTo(crc, file, pos, count)
    ensures var p := ParseAt(crc, file, |file|, pos);
      if p.Record? then ScannedTo(crc, file, pos + p.size, count + 1) else ScanFile(crc, file) == (pos, count)
  {
    ParserFacts(crc, file);
    assert ParserOf(crc, file)(|file|, pos) == ParseAt(crc, file, |file|, pos);
  }

  class Wal {
    const crc: Crc
    var mmap: seq<byte>
    var writePos: nat
    var mappedSize: nat
    const encodeBuf: array<byte>
    var recordCount: nat

    ghost predicate Valid()
      reads this
    {
      encodeBuf.Length == NEW_ORDER_SIZE && mappedSize == |mmap| && writePos <= mappedSize
    }

    ghost function Contents(): Image
      reads this
    {
      Image(mmap, writePos, recordCount)
    }

    /** Opens a file, extending it with zeros to the initial size, and scans what it holds. */
    constructor Open(crc: Crc, file: seq<byte>, initialSize: nat)
      ensures Valid() && fresh(encodeBuf) && this.crc == crc
      ensures Contents() == OpenImage(crc, file, initialSize)
    {
      this.crc := crc;
      mmap := Extended(file, initialSize);
      mappedSize := if |file| < initialSize then initialSize else |file|;
      writePos, recordCount := 0, 0;
      encodeBuf := new byte[NEW_ORDER_SIZE](_ => 0);
      new;
      ScanToEnd();
    }

    method ScanToEnd()
      requires Valid()
      modifies this`writePos, this`recordCount
      ensures Valid() && (writePos, recordCount) == ScanFile(crc, mmap)
    {
      ScanStarts(crc, mmap);
      var pos, count := 0, 0;
      while true
        invariant ScannedTo(crc, mmap, pos, count)
        decreases |mmap| - pos
      {
        ScanGoesOn(crc, mmap, pos, count);
        var p := ParseAt(crc, mmap, mappedSize, pos);
        if !p.Record? {
          break;  // unwritten space, a truncated record, or a checksum that does not match
        }
        pos, count := pos + p.size, count + 1;
      }
      writePos, recordCount := pos, count;
    }

    method EnsureCapacity(needed: nat)
      requires Valid()
      modifies this`mmap, this`mappedSize
      ensures Valid() && mmap == Grown(old(mmap), writePos + needed)
    {
      if writePos + needed <= mappedSize {
        return;
      }
      var newSize := if mappedSize * 2 >= writePos + needed then mappedSize * 2 else writePos + needed;
      mmap := mmap + Zeros(newSize - mappedSize);
      mappedSize := newSize;
    }

    method Encode(cmd: Command) returns (payload: seq<byte>)
      requires Valid()
      modifies encodeBuf
      ensures payload == CommandBytes(cmd)
    {
      var r: Result<nat, ProtocolError>;
      match cmd {
        case NewOrder(order) => r := EncodeNewOrder(encodeBuf, order);
        case CancelOrder(id) => r := EncodeCancelOrder(encodeBuf, id);
      }
      assert r.Success?;  // the buffer has room for the largest command
      payload := encodeBuf[..r.value];
    }

    /** Appends one command and returns its record number, counted from one. */
    method Append(cmd: Command) returns (n: nat)
      requires Valid()
      modifies this, encodeBuf
      ensures Valid() && Contents() == AppendImage(crc, old(Contents()), cmd)
      ensures n == recordCount
    {
      var payload := Encode(cmd);
      AppendPayload(payload);
      n := recordCount;
    }

    method AppendPayload(payload: seq<byte>)
      requires Valid() && |payload| <= NEW_ORDER_SIZE
      modifies this
      ensures Valid()
      ensures Contents() == AppendBytes(old(Contents()), Frame(crc, payload, AlignUp(HEADER_SIZE + |payload|)))
    {
      var recordSize := AlignUp(HEADER_SIZE + |payload|);
      EnsureCapacity(recordSize);
      WriteRecord(writePos, payload, recordSize);
      writePos, recordCount := writePos + recordSize, recordCount + 1;
    }

    /** Length, checksum, payload, padding: four writes into the image. */
    method WriteRecord(pos: nat, payload: seq<byte>, recordSize: nat)
      requires Valid() && pos + recordSize <= |mmap| && HEADER_SIZE + |payload| <= recordSize
      requires |payload| <= NEW_ORDER_SIZE
      modifies this`mmap
      ensures Valid()
      ensures mmap == Put(old(mmap), pos, Frame(crc, payload, recordSize))
    {
      ghost var file := mmap;
      mmap := Put(mmap, pos, ToLE(|payload|, 4));
      mmap := Put(mmap, pos + 4, ToLE(crc(payload), 4));
      PutPut(file, pos, ToLE(|payload|, 4), ToLE(crc(payload), 4));
      mmap := Put(mmap, pos + HEADER_SIZE, payload);
      PutPut(file, pos, ToLE(|payload|, 4) + ToLE(crc(payload), 4), payload);
      mmap := Put(mmap, pos + HEADER_SIZE + |payload|, Zeros(recordSize - HEADER_SIZE - |payload|));
      PutPut(file, pos, ToLE(|payload|, 4) + ToLE(crc(payload), 4) + payload,
             Zeros(recordSize - HEADER_SIZE - |payload|));
    }

    /** Cuts the log back, zeroing what it gives up. */
    method TruncateTo(offset: nat, count: nat)
      requires Valid()
      modifies this`mmap, this`writePos, this`recordCount
      ensures Contents() == TruncateImage(old(Contents()), offset, count)
      ensures writePos == offset && recordCount == count && |mmap| == |old(mmap)|
      ensures forall i :: 0 <= i < |mmap| ==> mmap[i] == if offset <= i < old(writePos) then 0 else old(mmap)[i]
      ensures offset <= mappedSize ==> Valid()
    {
      if writePos > offset {
        mmap := mmap[..offset] + Zeros(writePos - offset) + mmap[writePos..];
      }
      writePos, recordCount := offset, count;
    }

    method IterFrom(start: nat) returns (it: WalIterator)
      requires Valid()
      ensures fresh(it) && it.Valid()
      ensures it.crc == crc && it.mmap == mmap && it.endPos == writePos && it.startRecord == start
      ensures it.readPos == 0 && it.currentRecord == 0
    {
      it := new WalIterator(crc, mmap, writePos, start);
    }
  }

  lemma PutPut(file: seq<byte>, pos: nat, a: seq<byte>, b: seq<byte>)
    requires pos + |a| + |b| <= |file|
    ensures Put(Put(file, pos, a), pos + |a|, b) == Put(file, pos, a + b)
  {
  }

  class WalIterator {
    const crc: Crc
    const mmap: seq<byte>
    var readPos: nat
    const endPos: nat
    var currentRecord: nat
    const startRecord: nat

    ghost predicate Valid()
      reads this
    {
      readPos <= endPos <= |mmap|
    }

    /** What the iterator has yet to find. */
    ghost function Rest(): seq<Found>
      requires Valid()
      reads this
    {
      ParserFacts(crc, mmap);
      Walk(ParserOf(crc, mmap), endPos, readPos, currentRecord, startRecord)
    }

    constructor (crc: Crc, mmap: seq<byte>, endPos: nat, startRecord: nat)
      requires endPos <= |mmap|
      ensures Valid()
      ensures this.crc == crc && this.mmap == mmap && this.endPos == endPos && this.startRecord == startRecord
      ensures readPos == 0 && currentRecord == 0
    {
      this.crc, this.mmap, this.endPos, this.startRecord := crc, mmap, endPos, startRecord;
      readPos, currentRecord := 0, 0;
    }

    /** The next record after `startRecord`, decoded; damage is reported without moving on. */
    method Next() returns (item: Option<Item>)
      requires Valid()
      modifies this
      ensures Valid()
      ensures item.None? <==> old(Rest()) == []
      ensures item.Some? ==> item.value == DecodeFound(old(Rest())[0])
      ensures item.Some? && !IsDamage(item.value) ==> Rest() == old(Rest())[1..] && old(readPos) < readPos
    {
      ParserFacts(crc, mmap);
      ghost var parse := ParserOf(crc, mmap);
      ghost var pos0, current0 := readPos, currentRecord;
      ghost var walk := Rest();
      while true
        invariant Valid() && pos0 <= readPos
        invariant Rest() == walk
        decreases endPos - readPos
      {
        ghost var p := parse(endPos, readPos);
        match ParseAt(crc, mmap, endPos, readPos) {
          case End => return None;
          case Truncated => return Some(Failure(TruncatedRecord(readPos)));
          case Corrupt => return Some(Failure(Corruption(readPos)));
          case Record(payload, size) =>
            assert p == Record(payload, size);
            readPos, currentRecord := readPos + size, currentRecord + 1;
            if currentRecord > startRecord {
              assert walk == [Payload(currentRecord, payload)] + Rest();
              return Some(DecodeFound(Payload(currentRecord, payload)));
            }
        }
      }
    }
  }
}
