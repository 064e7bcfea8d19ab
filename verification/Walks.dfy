/**
  How a log is walked, for any way of parsing a position: the open scan, the iterator, and
  how the two agree. WalFormat supplies the parser of src/wal.rs.
 */
module Walks {
  import opened Orders

  datatype Parsed = End | Truncated | Corrupt | Record(payload: seq<byte>, size: nat)

  /** What is at a position, looking no further than a limit: `parse(limit, pos)`. */
  type Parser = (nat, nat) -> Parsed

  ghost predicate Sound(parse: Parser) {
    forall limit: nat, pos: nat :: parse(limit, pos).Record? ==>
      parse(limit, pos).size > 0 && pos + parse(limit, pos).size <= limit
  }

  datatype Found = Payload(number: nat, bytes: seq<byte>) | DamagedAt(offset: nat, truncated: bool)

  /** The open scan: where the valid records from `pos` end, and how many there are. */
  function Scan(parse: Parser, len: nat, pos: nat): (r: (nat, nat))
    requires Sound(parse) && pos <= len
    ensures pos <= r.0 <= len
    decreases len - pos
  {
    var p := parse(len, pos);
    if p.Record? then
      var (end, count) := Scan(parse, len, pos + p.size);
      (end, count + 1)
    else (pos, 0)
  }

  /** Everything the iterator finds, up to the end or the first damaged record. */
  function Walk(parse: Parser, end: nat, pos: nat, current: nat, start: nat): seq<Found>
    requires Sound(parse) && pos <= end
    decreases end - pos
  {
    match parse(end, pos)
    case End => []
    case Truncated => [DamagedAt(pos, true)]
    case Corrupt => [DamagedAt(pos, false)]
    case Record(payload, size) =>
      var rest := Walk(parse, end, pos + size, current + 1, start);
      if current + 1 <= start then rest else [Payload(current + 1, payload)] + rest
  }

  // ----- Files that hold known records

  /** The records from `pos` to `end`, readable under every limit up to `len` that covers them. */
  ghost predicate Chain(parse: Parser, len: nat, pos: nat, end: nat, recs: seq<(seq<byte>, nat)>)
    decreases |recs|
  {
    if recs == [] then pos == end <= len
    else
      && recs[0].1 > 0
      && (forall limit :: pos + recs[0].1 <= limit <= len ==> parse(limit, pos) == Record(recs[0].0, recs[0].1))
      && Chain(parse, len, pos + recs[0].1, end, recs[1..])
  }

  lemma {:induction false} ChainBounds(parse: Parser, len: nat, pos: nat, end: nat, recs: seq<(seq<byte>, nat)>)
    requires Chain(parse, len, pos, end, recs)
    ensures pos <= end <= len
    decreases |recs|
  {
    if recs != [] {
      ChainBounds(parse, len, pos + recs[0].1, end, recs[1..]);
    }
  }

  /** This record is read at `pos` under every limit that covers it. */
  ghost predicate ReadsAs(parse: Parser, len: nat, pos: nat, rec: (seq<byte>, nat)) {
    rec.1 > 0 && forall limit :: pos + rec.1 <= limit <= len ==> parse(limit, pos) == Record(rec.0, rec.1)
  }

  /** If things stand as `holds` says, the first record is read and they go on standing so behind it. */
  ghost predicate Steps<C(!new)>(parse: Parser, len: nat, end: nat, holds: (nat, seq<C>) -> bool,
                                 recOf: C -> (seq<byte>, nat), pos: nat, cs: seq<C>) {
    holds(pos, cs) ==>
      if cs == [] then pos == end <= len
      else ReadsAs(parse, len, pos, recOf(cs[0])) && holds(pos + recOf(cs[0]).1, cs[1..])
  }

  lemma {:induction false} ChainInduct<C(!new)>(
    parse: Parser, len: nat, end: nat, holds: (nat, seq<C>) -> bool, recOf: C -> (seq<byte>, nat),
    pos: nat, cs: seq<C>, recs: seq<(seq<byte>, nat)>)
    requires |recs| == |cs| && forall i :: 0 <= i < |cs| ==> recs[i] == recOf(cs[i])
    requires holds(pos, cs) && forall p, rest :: Steps(parse, len, end, holds, recOf, p, rest)
    ensures Chain(parse, len, pos, end, recs)
    decreases |cs|
  {
    assert Steps(parse, len, end, holds, recOf, pos, cs);
    if cs != [] {
      ChainInduct(parse, len, end, holds, recOf, pos + recOf(cs[0]).1, cs[1..], recs[1..]);
    }
  }

  function Numbered(recs: seq<(seq<byte>, nat)>, current: nat): seq<Found> {
    seq(|recs|, i requires 0 <= i < |recs| => Payload(current + i + 1, recs[i].0))
  }

  /** A scan goes through known records, and stops behind them if nothing can be read there. */
  lemma {:induction false} ScanChain(parse: Parser, len: nat, pos: nat, end: nat, recs: seq<(seq<byte>, nat)>)
    requires Sound(parse) && Chain(parse, len, pos, end, recs) && pos <= end <= len
    ensures var (end', count) := Scan(parse, len, pos);
      && end <= end' && |recs| <= count
      && (!parse(len, end).Record? ==> end' == end && count == |recs|)
      && (parse(len, end).Record? ==> end' > end && count > |recs|)
    decreases |recs|
  {
    if recs != [] {
      ChainBounds(parse, len, pos + recs[0].1, end, recs[1..]);
      ScanChain(parse, len, pos + recs[0].1, end, recs[1..]);
    }
  }

  /** Walking known records finds each of them once, in order, and then whatever lies behind. */
  lemma {:induction false} WalkEach(parse: Parser, len: nat, limit: nat, pos: nat, end: nat,
                                    recs: seq<(seq<byte>, nat)>, current: nat, start: nat)
    requires Sound(parse) && Chain(parse, len, pos, end, recs) && pos <= end <= limit <= len && start <= current
    ensures Walk(parse, limit, pos, current, start)
      == Numbered(recs, current) + Walk(parse, limit, end, current + |recs|, start)
    decreases |recs|
  {
    if recs == [] {
      assert Numbered(recs, current) == [];
    } else {
      ChainBounds(parse, len, pos + recs[0].1, end, recs[1..]);
      WalkEach(parse, len, limit, pos + recs[0].1, end, recs[1..], current + 1, start);
      NumberedCons(recs, current);
    }
  }

  lemma NumberedCons(recs: seq<(seq<byte>, nat)>, current: nat)
    requires recs != []
    ensures Numbered(recs, current) == [Payload(current + 1, recs[0].0)] + Numbered(recs[1..], current + 1)
  {
  }

  /** Records up to `start` are passed over. */
  lemma {:induction false} WalkThrough(parse: Parser, len: nat, limit: nat, pos: nat, end: nat,
                                       recs: seq<(seq<byte>, nat)>, current: nat, start: nat)
    requires Sound(parse) && Chain(parse, len, pos, end, recs) && pos <= end <= limit <= len
    requires current <= start <= current + |recs|
    ensures Walk(parse, limit, pos, current, start)
      == Numbered(recs[start - current..], start) + Walk(parse, limit, end, current + |recs|, start)
    decreases |recs|
  {
    if current == start {
      assert recs[0..] == recs;
      WalkEach(parse, len, limit, pos, end, recs, current, start);
    } else {
      ChainBounds(parse, len, pos + recs[0].1, end, recs[1..]);
      assert recs[1..][start - current - 1..] == recs[start - current..];
      WalkThrough(parse, len, limit, pos + recs[0].1, end, recs[1..], current + 1, start);
    }
  }

  lemma WalkChain(parse: Parser, len: nat, limit: nat, pos: nat, end: nat,
                  recs: seq<(seq<byte>, nat)>, current: nat, start: nat)
    requires Sound(parse) && Chain(parse, len, pos, end, recs) && pos <= end <= limit <= len && start <= current
    ensures Numbered(recs, current) <= Walk(parse, limit, pos, current, start)
    ensures limit == end && parse(end, end).End? ==> Walk(parse, limit, pos, current, start) == Numbered(recs, current)
  {
    WalkEach(parse, len, limit, pos, end, recs, current, start);
  }

  lemma WalkSkips(parse: Parser, len: nat, pos: nat, end: nat,
                  recs: seq<(seq<byte>, nat)>, current: nat, start: nat)
    requires Sound(parse) && Chain(parse, len, pos, end, recs) && pos <= end <= len && parse(end, end).End?
    requires current <= start <= current + |recs|
    ensures Walk(parse, end, pos, current, start) == Numbered(recs[start - current..], start)
  {
    WalkThrough(parse, len, end, pos, end, recs, current, start);
  }

  // ----- Any file at all

  /** A record readable within the whole file is readable within any limit that covers it. */
  ghost predicate Stable(parse: Parser, len: nat) {
    && (forall limit: nat, pos: nat {:trigger parse(limit, pos)} ::
          parse(len, pos).Record? && pos + parse(len, pos).size <= limit <= len ==>
            parse(limit, pos) == parse(len, pos))
    && (forall pos: nat :: parse(pos, pos).End?)
  }

  function Max0(n: int): nat { if n > 0 then n else 0 }

  /**
    Whatever the file holds, walking up to where the scan stopped never meets a damaged
    record, and finds one payload for each scanned record after `start`.
   */
  lemma {:induction false} WalkScanned(parse: Parser, len: nat, pos: nat, current: nat, start: nat)
    requires Sound(parse) && Stable(parse, len) && pos <= len
    ensures var (end, count) := Scan(parse, len, pos);
      var walk := Walk(parse, end, pos, current, start);
      && (forall i :: 0 <= i < |walk| ==> walk[i].Payload?)
      && |walk| == Max0(count - Max0(start - current))
    decreases len - pos
  {
    var (end, count) := Scan(parse, len, pos);
    var p := parse(len, pos);
    if p.Record? {
      assert parse(end, pos) == p;
      WalkScanned(parse, len, pos + p.size, current + 1, start);
    } else {
      assert parse(pos, pos).End?;
    }
  }

  /** Where the records of a file lie: record i from `bs[i]` to `bs[i + 1]`, and none behind. */
  ghost predicate Bounds(parse: Parser, len: nat, bs: seq<nat>) {
    && bs != [] && !parse(len, bs[|bs| - 1]).Record?
    && forall i :: 0 <= i < |bs| - 1 ==>
         parse(len, bs[i]).Record? && bs[i + 1] == bs[i] + parse(len, bs[i]).size
  }

  lemma {:induction false} ScanBounds(parse: Parser, len: nat, pos: nat) returns (bs: seq<nat>)
    requires Sound(parse) && pos <= len
    ensures Bounds(parse, len, bs) && bs[0] == pos
    ensures Scan(parse, len, pos) == (bs[|bs| - 1], |bs| - 1)
    decreases len - pos
  {
    var p := parse(len, pos);
    if p.Record? {
      var rest := ScanBounds(parse, len, pos + p.size);
      bs := [pos] + rest;
      assert forall i :: 1 <= i < |bs| ==> bs[i] == rest[i - 1];
    } else {
      bs := [pos];
    }
  }

  /** What the iterator finds up to where the scan stopped are the payloads at those places. */
  lemma {:induction false} WalkBounds(parse: Parser, len: nat, bs: seq<nat>, current: nat, start: nat, i: nat)
    requires Sound(parse) && Stable(parse, len) && Bounds(parse, len, bs) && bs[0] <= bs[|bs| - 1] <= len
    requires Max0(start - current) + i < |bs| - 1
    ensures var k, walk := Max0(start - current) + i, Walk(parse, bs[|bs| - 1], bs[0], current, start);
      i < |walk| && walk[i] == Payload(current + k + 1, parse(len, bs[k]).payload)
    decreases |bs|
  {
    var end, pos, rest := bs[|bs| - 1], bs[0], bs[1..];
    BoundsRest(parse, len, bs);
    assert parse(end, pos) == parse(len, pos);
    if current + 1 <= start {
      WalkBounds(parse, len, rest, current + 1, start, i);
    } else if i > 0 {
      WalkBounds(parse, len, rest, current + 1, start, i - 1);
    }
  }

  lemma {:induction false} BoundsRest(parse: Parser, len: nat, bs: seq<nat>)
    requires Sound(parse) && Bounds(parse, len, bs) && |bs| > 1
    ensures Bounds(parse, len, bs[1..]) && bs[0] + parse(len, bs[0]).size == bs[1] <= bs[|bs| - 1]
    decreases |bs|
  {
    var rest := bs[1..];
    forall i | 0 <= i < |rest| - 1
      ensures parse(len, rest[i]).Record? && rest[i + 1] == rest[i] + parse(len, rest[i]).size
    {
      assert rest[i] == bs[i + 1];
    }
    if |rest| > 1 {
      BoundsRest(parse, len, rest);
    }
  }
}
