/**
  The wire format of src/protocol.rs: fixed-size little-endian messages, and the framing
  by which the gateway's client loop cuts a byte stream into commands.
 */
module Codec {
  import opened Orders
  import opened Bits
  import Timestamps

  const MSG_NEW_ORDER: byte := 1
  const MSG_CANCEL_ORDER: byte := 2
  const MSG_EXECUTION_REPORT: byte := 3
  const NEW_ORDER_SIZE: nat := 40
  const CANCEL_ORDER_SIZE: nat := 16
  const EXECUTION_REPORT_SIZE: nat := 48

  datatype ProtocolError =
    | BufferTooShort
    | UnknownMessageType(msgType: byte)
    | InvalidSide(side: byte)
    | ZeroOrderQuantity

  datatype ExecutionReport = ExecutionReport(
    seqNum: u32, takerOrderId: u64, makerOrderId: u64, price: i64, quantity: u64, timestamp: u64)

  // ----- Little-endian integers

  function Pow256(n: nat): (p: nat)
    ensures p > 0
  {
    if n == 0 then 1 else 256 * Pow256(n - 1)
  }

  /** The n low-order bytes of v, least significant first. */
  function ToLE(v: nat, n: nat): (b: seq<byte>)
    ensures |b| == n
  {
    if n == 0 then [] else [v % 256] + ToLE(v / 256, n - 1)
  }

  function FromLE(b: seq<byte>): nat {
    if b == [] then 0 else b[0] + 256 * FromLE(b[1..])
  }

  lemma {:induction false} FromToLE(v: nat, n: nat)
    requires v < Pow256(n)
    ensures FromLE(ToLE(v, n)) == v
  {
    if n > 0 {
      FromToLE(v / 256, n - 1);
      assert ToLE(v, n)[1..] == ToLE(v / 256, n - 1);
    }
  }

  lemma {:induction false} ToFromLE(b: seq<byte>)
    ensures FromLE(b) < Pow256(|b|) && ToLE(FromLE(b), |b|) == b
  {
    if b != [] {
      ToFromLE(b[1..]);
      assert b == [b[0]] + b[1..];
    }
  }

  /** Byte i is the coefficient of 256^i. */
  lemma {:induction false} ByteOfLE(v: nat, n: nat, i: nat)
    requires i < n
    ensures ToLE(v, n)[i] == v / Pow256(i) % 256
  {
    if i > 0 {
      ByteOfLE(v / 256, n - 1, i - 1);
      DivTwice(v, 256, Pow256(i - 1));
    }
  }

  lemma DivTwice(v: nat, a: nat, b: nat)
    requires a > 0 && b > 0
    ensures a * b > 0 && v / a / b == v / (a * b)
  {
    var m := a * b;
    TimesAtLeast(a, b);
    var q, r := v / a / b, v / a % b;
    DivMod(v / a, b);
    DivMod(v, a);
    var rest := r * a + v % a;
    assert v == q * m + rest by { assert (q * b + r) * a == q * (a * b) + r * a; }
    assert 0 <= rest < m by { assert r * a <= (b - 1) * a == m - a; }
    QuotientUnique(v, m, q, rest);
  }

  lemma Pow256Values()
    ensures Pow256(4) == 0x1_0000_0000
    ensures Pow256(8) == U64_MOD
  {
  }

  function U32Of(b: seq<byte>): u32
    requires |b| == 4
  {
    Pow256Values();
    ToFromLE(b);
    FromLE(b)
  }

  function U64Of(b: seq<byte>): u64
    requires |b| == 8
  {
    Pow256Values();
    ToFromLE(b);
    FromLE(b)
  }

  /** Two's complement. */
  function Unsigned(v: i64): u64 { if v < 0 then v + U64_MOD else v }

  function Signed(v: u64): i64 { if v >= 0x8000_0000_0000_0000 then v - U64_MOD else v }

  lemma RoundTripU64(v: u64)
    ensures U64Of(ToLE(v, 8)) == v
  {
    Pow256Values();
    FromToLE(v, 8);
  }

  lemma RoundTripU32(v: u32)
    ensures U32Of(ToLE(v, 4)) == v
  {
    Pow256Values();
    FromToLE(v, 4);
  }

  // ----- Reading

  function ReadU8(buf: seq<byte>, offset: nat): Result<byte, ProtocolError> {
    if offset < |buf| then Success(buf[offset]) else Failure(BufferTooShort)
  }

  function ReadU64(buf: seq<byte>, offset: nat): Result<u64, ProtocolError> {
    if offset + 8 <= |buf| then Success(U64Of(buf[offset..offset + 8])) else Failure(BufferTooShort)
  }

  function DecodeSide(val: byte): Result<Side, ProtocolError> {
    if val == 0 then Success(Bid) else if val == 1 then Success(Ask) else Failure(InvalidSide(val))
  }

  function EncodeSide(side: Side): byte { if side.Bid? then 0 else 1 }

  function DecodeNewOrder(buf: seq<byte>): Result<Order, ProtocolError> {
    if |buf| < NEW_ORDER_SIZE then Failure(BufferTooShort)
    else match DecodeSide(buf[1])
      case Failure(e) => Failure(e)
      case Success(side) =>
        var quantity := U64Of(buf[32..40]);
        if quantity == 0 then Failure(ZeroOrderQuantity)
        else Success(Order(U64Of(buf[8..16]), U64Of(buf[16..24]), side, Signed(U64Of(buf[24..32])), quantity, 0))
  }

  function DecodeCancelOrder(buf: seq<byte>): Result<u64, ProtocolError> {
    if |buf| < CANCEL_ORDER_SIZE then Failure(BufferTooShort) else ReadU64(buf, 8)
  }

  function DecodeMessage(buf: seq<byte>): Result<Command, ProtocolError> {
    match ReadU8(buf, 0)
    case Failure(e) => Failure(e)
    case Success(msgType) =>
      if msgType == MSG_NEW_ORDER then
        match DecodeNewOrder(buf)
        case Failure(e) => Failure(e)
        case Success(o) => Success(NewOrder(o))
      else if msgType == MSG_CANCEL_ORDER then
        match DecodeCancelOrder(buf)
        case Failure(e) => Failure(e)
        case Success(id) => Success(CancelOrder(id))
      else Failure(UnknownMessageType(msgType))
  }

  function MessageSize(msgType: byte): Result<nat, ProtocolError> {
    if msgType == MSG_NEW_ORDER then Success(NEW_ORDER_SIZE)
    else if msgType == MSG_CANCEL_ORDER then Success(CANCEL_ORDER_SIZE)
    else Failure(UnknownMessageType(msgType))
  }

  function DecodeExecutionReport(buf: seq<byte>): Result<ExecutionReport, ProtocolError> {
    if |buf| < EXECUTION_REPORT_SIZE then Failure(BufferTooShort)
    else Success(ExecutionReport(U32Of(buf[4..8]), U64Of(buf[8..16]), U64Of(buf[16..24]),
                                 Signed(U64Of(buf[24..32])), U64Of(buf[32..40]), U64Of(buf[40..48])))
  }

  // ----- What a message looks like

  function Zeros(n: nat): (z: seq<byte>)
    ensures |z| == n && forall i :: 0 <= i < n ==> z[i] == 0
  {
    seq(n, _ => 0)
  }

  function NewOrderBytes(o: Order): (b: seq<byte>)
    ensures |b| == NEW_ORDER_SIZE
  {
    [MSG_NEW_ORDER, EncodeSide(o.side)] + Zeros(6) + ToLE(o.id, 8) + ToLE(o.traderId, 8)
    + ToLE(Unsigned(o.price), 8) + ToLE(o.quantity, 8)
  }

  function CancelOrderBytes(id: u64): (b: seq<byte>)
    ensures |b| == CANCEL_ORDER_SIZE
  {
    [MSG_CANCEL_ORDER] + Zeros(7) + ToLE(id, 8)
  }

  function CommandBytes(cmd: Command): (b: seq<byte>)
    ensures |b| == CANCEL_ORDER_SIZE || |b| == NEW_ORDER_SIZE
  {
    match cmd case NewOrder(o) => NewOrderBytes(o) case CancelOrder(id) => CancelOrderBytes(id)
  }

  function ReportBytes(seqNum: u32, f: Fill, timestamp: u64): (b: seq<byte>)
    ensures |b| == EXECUTION_REPORT_SIZE
  {
    [MSG_EXECUTION_REPORT] + Zeros(3) + ToLE(seqNum, 4) + ToLE(f.takerOrderId, 8) + ToLE(f.makerOrderId, 8)
    + ToLE(Unsigned(f.price), 8) + ToLE(f.quantity, 8) + ToLE(timestamp, 8)
  }

  // ----- Encoding into a buffer

  /** Copies `bytes` into the buffer at `offset`. */
  method WriteBytes(buf: array<byte>, offset: nat, bytes: seq<byte>)
    requires offset + |bytes| <= buf.Length
    modifies buf
    ensures buf[..offset + |bytes|] == old(buf[..offset]) + bytes
    ensures forall i :: offset + |bytes| <= i < buf.Length ==> buf[i] == old(buf[i])
  {
    forall i | 0 <= i < |bytes| {
      buf[offset + i] := bytes[i];
    }
  }

  method Clear(buf: array<byte>, n: nat)
    requires n <= buf.Length
    modifies buf
    ensures buf[..n] == Zeros(n)
    ensures forall i :: n <= i < buf.Length ==> buf[i] == old(buf[i])
  {
    forall i | 0 <= i < n {
      buf[i] := 0;
    }
  }

  method EncodeNewOrder(buf: array<byte>, order: Order) returns (r: Result<nat, ProtocolError>)
    modifies buf
    ensures buf.Length < NEW_ORDER_SIZE ==> r == Failure(BufferTooShort) && unchanged(buf)
    ensures buf.Length >= NEW_ORDER_SIZE ==> r == Success(NEW_ORDER_SIZE)
    ensures buf.Length >= NEW_ORDER_SIZE ==>
      buf[..NEW_ORDER_SIZE] == NewOrderBytes(order) && buf[NEW_ORDER_SIZE..] == old(buf[NEW_ORDER_SIZE..])
  {
    if buf.Length < NEW_ORDER_SIZE {
      return Failure(BufferTooShort);
    }
    Clear(buf, NEW_ORDER_SIZE);
    assert forall i :: 0 <= i < 8 ==> buf[i] == buf[..NEW_ORDER_SIZE][i] == 0;
    WriteBytes(buf, 0, [MSG_NEW_ORDER]);
    WriteBytes(buf, 1, [EncodeSide(order.side)]);
    assert buf[..8] == buf[..2] + Zeros(6);
    WriteBytes(buf, 8, ToLE(order.id, 8));
    WriteBytes(buf, 16, ToLE(order.traderId, 8));
    WriteBytes(buf, 24, ToLE(Unsigned(order.price), 8));
    WriteBytes(buf, 32, ToLE(order.quantity, 8));
    r := Success(NEW_ORDER_SIZE);
  }

  method EncodeCancelOrder(buf: array<byte>, id: u64) returns (r: Result<nat, ProtocolError>)
    modifies buf
    ensures buf.Length < CANCEL_ORDER_SIZE ==> r == Failure(BufferTooShort) && unchanged(buf)
    ensures buf.Length >= CANCEL_ORDER_SIZE ==> r == Success(CANCEL_ORDER_SIZE)
    ensures buf.Length >= CANCEL_ORDER_SIZE ==>
      buf[..CANCEL_ORDER_SIZE] == CancelOrderBytes(id) && buf[CANCEL_ORDER_SIZE..] == old(buf[CANCEL_ORDER_SIZE..])
  {
    if buf.Length < CANCEL_ORDER_SIZE {
      return Failure(BufferTooShort);
    }
    Clear(buf, CANCEL_ORDER_SIZE);
    assert forall i :: 0 <= i < 8 ==> buf[i] == buf[..CANCEL_ORDER_SIZE][i] == 0;
    WriteBytes(buf, 0, [MSG_CANCEL_ORDER]);
    assert buf[..8] == buf[..1] + Zeros(7);
    WriteBytes(buf, 8, ToLE(id, 8));
    r := Success(CANCEL_ORDER_SIZE);
  }

  method EncodeExecutionReport(buf: array<byte>, seqNum: u32, fill: Fill, timestamp: u64)
    returns (r: Result<nat, ProtocolError>)
    modifies buf
    ensures buf.Length < EXECUTION_REPORT_SIZE ==> r == Failure(BufferTooShort) && unchanged(buf)
    ensures buf.Length >= EXECUTION_REPORT_SIZE ==> r == Success(EXECUTION_REPORT_SIZE)
    ensures buf.Length >= EXECUTION_REPORT_SIZE ==>
      && buf[..EXECUTION_REPORT_SIZE] == ReportBytes(seqNum, fill, timestamp)
      && buf[EXECUTION_REPORT_SIZE..] == old(buf[EXECUTION_REPORT_SIZE..])
  {
    if buf.Length < EXECUTION_REPORT_SIZE {
      return Failure(BufferTooShort);
    }
    Clear(buf, EXECUTION_REPORT_SIZE);
    assert forall i :: 0 <= i < 4 ==> buf[i] == buf[..EXECUTION_REPORT_SIZE][i] == 0;
    WriteBytes(buf, 0, [MSG_EXECUTION_REPORT]);
    assert buf[..4] == buf[..1] + Zeros(3);
    WriteBytes(buf, 4, ToLE(seqNum, 4));
    WriteBytes(buf, 8, ToLE(fill.takerOrderId, 8));
    WriteBytes(buf, 16, ToLE(fill.makerOrderId, 8));
    WriteBytes(buf, 24, ToLE(Unsigned(fill.price), 8));
    WriteBytes(buf, 32, ToLE(fill.quantity, 8));
    WriteBytes(buf, 40, ToLE(timestamp, 8));
    r := Success(EXECUTION_REPORT_SIZE);
  }

  // ----- Round trips

  lemma NewOrderFields(o: Order)
    ensures var b := NewOrderBytes(o);
      && b[0] == MSG_NEW_ORDER && b[1] == EncodeSide(o.side)
      && b[8..16] == ToLE(o.id, 8) && b[16..24] == ToLE(o.traderId, 8)
      && b[24..32] == ToLE(Unsigned(o.price), 8) && b[32..40] == ToLE(o.quantity, 8)
  {
  }

  /**
    Decoding an encoded command gives the command back without its timestamp, over the whole
    u64/i64 range, except that an order of zero quantity is refused.
   */
  lemma DecodeEncoded(cmd: Command)
    ensures DecodeMessage(CommandBytes(cmd)) ==
      if cmd.NewOrder? && cmd.order.quantity == 0 then Failure(ZeroOrderQuantity)
      else Success(Timestamps.StripCommand(cmd))
    ensures MessageSize(CommandBytes(cmd)[0]) == Success(|CommandBytes(cmd)|)
  {
    match cmd
    case NewOrder(o) =>
      NewOrderFields(o);
      RoundTripU64(o.id);
      RoundTripU64(o.traderId);
      RoundTripU64(Unsigned(o.price));
      RoundTripU64(o.quantity);
    case CancelOrder(id) =>
      assert CancelOrderBytes(id)[8..16] == ToLE(id, 8);
      RoundTripU64(id);
  }

  /** A message with its reserved bytes zeroed. */
  function Canonical(buf: seq<byte>): seq<byte>
    requires |buf| >= CANCEL_ORDER_SIZE
  {
    if buf[0] == MSG_NEW_ORDER then buf[..2] + Zeros(6) + buf[8..] else buf[..1] + Zeros(7) + buf[8..]
  }

  lemma FourWords(buf: seq<byte>)
    requires |buf| == NEW_ORDER_SIZE
    ensures buf == buf[..8] + buf[8..16] + buf[16..24] + buf[24..32] + buf[32..40]
    ensures buf[..2] + Zeros(6) + buf[8..] == buf[..2] + Zeros(6) + buf[8..16] + buf[16..24] + buf[24..32] + buf[32..40]
  {
  }

  lemma NewOrderReencodes(buf: seq<byte>)
    requires |buf| == NEW_ORDER_SIZE && buf[0] == MSG_NEW_ORDER && DecodeNewOrder(buf).Success?
    ensures NewOrderBytes(DecodeNewOrder(buf).value) == Canonical(buf)
  {
    var o := DecodeNewOrder(buf).value;
    ToFromLE(buf[8..16]);
    ToFromLE(buf[16..24]);
    ToFromLE(buf[24..32]);
    ToFromLE(buf[32..40]);
    assert Unsigned(o.price) == U64Of(buf[24..32]);
    assert buf[..2] == [MSG_NEW_ORDER, EncodeSide(o.side)];
    FourWords(buf);
  }

  /** Any accepted message of full size re-encodes to itself, reserved bytes aside. */
  lemma ReencodeDecoded(buf: seq<byte>)
    requires buf != [] && MessageSize(buf[0]) == Success(|buf|) && DecodeMessage(buf).Success?
    ensures CommandBytes(DecodeMessage(buf).value) == Canonical(buf)
  {
    if buf[0] == MSG_NEW_ORDER {
      NewOrderReencodes(buf);
    } else {
      ToFromLE(buf[8..16]);
      assert buf[..1] == [MSG_CANCEL_ORDER];
      assert buf[8..] == buf[8..16];
    }
  }

  lemma ReportRoundTrip(seqNum: u32, f: Fill, timestamp: u64)
    ensures DecodeExecutionReport(ReportBytes(seqNum, f, timestamp))
         == Success(ExecutionReport(seqNum, f.takerOrderId, f.makerOrderId, f.price, f.quantity, timestamp))
  {
    var b := ReportBytes(seqNum, f, timestamp);
    assert b[4..8] == ToLE(seqNum, 4);
    assert b[8..16] == ToLE(f.takerOrderId, 8);
    assert b[16..24] == ToLE(f.makerOrderId, 8);
    assert b[24..32] == ToLE(Unsigned(f.price), 8);
    assert b[32..40] == ToLE(f.quantity, 8);
    assert b[40..48] == b[40..] == ToLE(timestamp, 8);
    RoundTripU32(seqNum);
    RoundTripU64(f.takerOrderId);
    RoundTripU64(f.makerOrderId);
    RoundTripU64(Unsigned(f.price));
    RoundTripU64(f.quantity);
    RoundTripU64(timestamp);
  }

  // ----- What given bytes mean, byte by byte

  lemma {:induction false} ZeroLE(b: seq<byte>)
    ensures FromLE(b) == 0 <==> forall i :: 0 <= i < |b| ==> b[i] == 0
  {
    if b != [] {
      ZeroLE(b[1..]);
      assert forall i :: 1 <= i < |b| ==> b[i] == b[1..][i - 1];
    }
  }

  /** The order in a message of type 1: side, id, trader, two's complement price, quantity. */
  predicate OrderIn(buf: seq<byte>, o: Order)
    requires |buf| >= 40
  {
    && o.side == (if buf[1] == 0 then Bid else Ask)
    && o.id == FromLE(buf[8..16]) && o.traderId == FromLE(buf[16..24])
    && o.price % 0x1_0000_0000_0000_0000 == FromLE(buf[24..32]) && o.quantity == FromLE(buf[32..40])
    && o.timestamp == 0
  }

  /** A message of type 1 is an order if its side is 0 or 1 and its quantity is not all zeros. */
  lemma OrderMeans(buf: seq<byte>)
    requires buf != [] && buf[0] == 1
    ensures |buf| < 40 ==> DecodeMessage(buf) == Failure(BufferTooShort)
    ensures |buf| >= 40 && buf[1] > 1 ==> DecodeMessage(buf) == Failure(InvalidSide(buf[1]))
    ensures |buf| >= 40 && buf[1] <= 1 ==>
      if forall i :: 32 <= i < 40 ==> buf[i] == 0 then DecodeMessage(buf) == Failure(ZeroOrderQuantity)
      else DecodeMessage(buf).Success? && DecodeMessage(buf).value.NewOrder?
           && OrderIn(buf, DecodeMessage(buf).value.order)
  {
    if |buf| >= 40 {
      ZeroLE(buf[32..40]);
      assert forall i :: 0 <= i < 8 ==> buf[32..40][i] == buf[i + 32];
      assert forall i :: 32 <= i < 40 ==> buf[i] == buf[32..40][i - 32];
    }
  }

  /** A message of type 2 is a cancel of the id in its second word; no other type is a command. */
  lemma OtherMeans(buf: seq<byte>)
    requires buf == [] || buf[0] != 1
    ensures buf == [] ==> DecodeMessage(buf) == Failure(BufferTooShort)
    ensures buf != [] && buf[0] == 2 ==>
      if |buf| < 16 then DecodeMessage(buf) == Failure(BufferTooShort)
      else DecodeMessage(buf).Success? && DecodeMessage(buf).value.CancelOrder?
           && DecodeMessage(buf).value.orderId == FromLE(buf[8..16])
    ensures buf != [] && buf[0] != 2 ==> DecodeMessage(buf) == Failure(UnknownMessageType(buf[0]))
  {
  }

  /** How many bytes a message of each type has. */
  lemma SizeMeans(msgType: byte)
    ensures MessageSize(msgType) ==
      if msgType == 1 then Success(40) else if msgType == 2 then Success(16) else Failure(UnknownMessageType(msgType))
  {
  }

  /** Number, taker, maker, two's complement price, quantity and timestamp of a report. */
  predicate ReportIn(buf: seq<byte>, r: ExecutionReport)
    requires |buf| >= 48
  {
    && r.seqNum == FromLE(buf[4..8])
    && r.takerOrderId == FromLE(buf[8..16]) && r.makerOrderId == FromLE(buf[16..24])
    && r.price % 0x1_0000_0000_0000_0000 == FromLE(buf[24..32])
    && r.quantity == FromLE(buf[32..40]) && r.timestamp == FromLE(buf[40..48])
  }

  lemma ReportMeans(buf: seq<byte>)
    ensures |buf| < 48 ==> DecodeExecutionReport(buf) == Failure(BufferTooShort)
    ensures |buf| >= 48 ==> DecodeExecutionReport(buf).Success? && ReportIn(buf, DecodeExecutionReport(buf).value)
  {
  }

  predicate ZeroBetween(b: seq<byte>, i: nat, j: nat) { forall k :: i <= k < j && k < |b| ==> b[k] == 0 }

  /** What the encoders write, byte by byte. */
  lemma OrderWritten(o: Order)
    ensures var b := NewOrderBytes(o);
      && |b| == 40 && b[0] == 1 && b[1] == (if o.side == Bid then 0 else 1) && ZeroBetween(b, 2, 8)
      && OrderIn(b, o.(timestamp := 0))
  {
    NewOrderFields(o);
    RoundTripU64(o.id);
    RoundTripU64(o.traderId);
    RoundTripU64(Unsigned(o.price));
    RoundTripU64(o.quantity);
  }

  lemma CancelWritten(id: u64)
    ensures var b := CancelOrderBytes(id);
      |b| == 16 && b[0] == 2 && ZeroBetween(b, 1, 8) && FromLE(b[8..16]) == id
  {
    assert CancelOrderBytes(id)[8..16] == ToLE(id, 8);
    RoundTripU64(id);
  }

  lemma ReportWritten(seqNum: u32, f: Fill, timestamp: u64)
    ensures var b := ReportBytes(seqNum, f, timestamp);
      && |b| == 48 && b[0] == 3 && ZeroBetween(b, 1, 4)
      && ReportIn(b, ExecutionReport(seqNum, f.takerOrderId, f.makerOrderId, f.price, f.quantity, timestamp))
  {
    ReportRoundTrip(seqNum, f, timestamp);
    ReportMeans(ReportBytes(seqNum, f, timestamp));
  }

  // ----- Framing of a client's byte stream

  /** How the client loop ends: the stream closed, possibly inside a message, or was malformed. */
  datatype StreamEnd = Closed | Malformed(error: ProtocolError)

  function Frames(stream: seq<byte>): (seq<Command>, StreamEnd)
    decreases |stream|
  {
    if stream == [] then ([], Closed)
    else match MessageSize(stream[0])
      case Failure(e) => ([], Malformed(e))
      case Success(size) =>
        if |stream| < size then ([], Closed)
        else match DecodeMessage(stream[..size])
          case Failure(e) => ([], Malformed(e))
          case Success(cmd) =>
            var (cmds, end) := Frames(stream[size..]);
            ([cmd] + cmds, end)
  }

  /** Where in the stream the first i commands end. */
  function EndOf(cmds: seq<Command>, i: nat): nat
    requires i <= |cmds|
  {
    if i == 0 then 0 else EndOf(cmds, i - 1) + if cmds[i - 1].NewOrder? then 40 else 16
  }

  lemma {:induction false} EndOfCons(cmds: seq<Command>, i: nat)
    requires 0 < i <= |cmds|
    ensures EndOf(cmds, i) == (if cmds[0].NewOrder? then 40 else 16) + EndOf(cmds[1..], i - 1)
  {
    if i > 1 {
      EndOfCons(cmds, i - 1);
    }
  }

  /** Why the client loop stopped in front of this: nothing, a cut-off message, or a bad one. */
  predicate StopsAt(tail: seq<byte>, end: StreamEnd) {
    if tail == [] then end == Closed
    else if tail[0] != 1 && tail[0] != 2 then end == Malformed(UnknownMessageType(tail[0]))
    else
      var size := if tail[0] == 1 then 40 else 16;
      if |tail| < size then end == Closed
      else DecodeMessage(tail[..size]).Failure? && end == Malformed(DecodeMessage(tail[..size]).error)
  }

  ghost predicate FramedAt(stream: seq<byte>, cmds: seq<Command>, i: nat)
    requires i < |cmds|
  {
    && EndOf(cmds, i) <= EndOf(cmds, i + 1) <= |stream|
    && DecodeMessage(stream[EndOf(cmds, i)..EndOf(cmds, i + 1)]) == Success(cmds[i])
  }

  /**
    What any stream is read as: its commands lie one behind the other from its start, and what
    follows them is the reason to stop.
   */
  lemma {:induction false} FramesMean(stream: seq<byte>)
    ensures var (cmds, end) := Frames(stream);
      && EndOf(cmds, |cmds|) <= |stream| && StopsAt(stream[EndOf(cmds, |cmds|)..], end)
      && forall i :: 0 <= i < |cmds| ==> FramedAt(stream, cmds, i)
    decreases |stream|
  {
    var (cmds, end) := Frames(stream);
    if cmds == [] {
      assert stream[0..] == stream;
    } else {
      var size := MessageSize(stream[0]).value;
      var rest, cmds' := stream[size..], cmds[1..];
      assert cmds' == Frames(rest).0;
      FramesMean(rest);
      FirstFrame(stream);
      EndOfCons(cmds, |cmds|);
      assert stream[EndOf(cmds, |cmds|)..] == rest[EndOf(cmds', |cmds'|)..];
      forall i | 0 <= i < |cmds| ensures FramedAt(stream, cmds, i) {
        FramedShift(stream, cmds, i);
      }
    }
  }

  /** The first command read is the one in the first message, and as long as its type says. */
  lemma FirstFrame(stream: seq<byte>)
    requires Frames(stream).0 != []
    ensures var cmd := Frames(stream).0[0];
      && |stream| >= (if cmd.NewOrder? then 40 else 16) && MessageSize(stream[0]).Success?
      && MessageSize(stream[0]).value == (if cmd.NewOrder? then 40 else 16)
      && DecodeMessage(stream[..MessageSize(stream[0]).value]) == Success(cmd)
  {
  }

  lemma TailSlice(s: seq<byte>, n: nat, i: nat, j: nat)
    requires i <= j && n + j <= |s|
    ensures s[n..][i..j] == s[n + i..n + j]
  {
    var a, b := s[n..][i..j], s[n + i..n + j];
    forall k | 0 <= k < j - i ensures a[k] == b[k] {
      assert a[k] == s[n..][i + k] == s[n + (i + k)];
    }
  }

  lemma FramedShift(stream: seq<byte>, cmds: seq<Command>, i: nat)
    requires i < |cmds|
    requires var size := if cmds[0].NewOrder? then 40 else 16;
      && |stream| >= size && DecodeMessage(stream[..size]) == Success(cmds[0])
      && (i > 0 ==> FramedAt(stream[size..], cmds[1..], i - 1))
    ensures FramedAt(stream, cmds, i)
  {
    var size := if cmds[0].NewOrder? then 40 else 16;
    EndOfCons(cmds, i + 1);
    if i == 0 {
      assert stream[0..size] == stream[..size];
    } else {
      EndOfCons(cmds, i);
      var p, q := EndOf(cmds[1..], i - 1), EndOf(cmds[1..], i);
      TailSlice(stream, size, p, q);
    }
  }

  /** The read loop of the client handler: type byte, size, rest of the message, decode, push. */
  method ReadClient(stream: seq<byte>) returns (cmds: seq<Command>, end: StreamEnd)
    ensures (cmds, end) == Frames(stream)
  {
    var pos := 0;
    cmds, end := [], Closed;
    assert stream[0..] == stream && cmds + Frames(stream).0 == Frames(stream).0;
    while pos < |stream|
      invariant 0 <= pos <= |stream|
      invariant Frames(stream) == (cmds + Frames(stream[pos..]).0, Frames(stream[pos..]).1)
      invariant end == Closed
    {
      ghost var rest := stream[pos..];
      assert rest[0] == stream[pos] && cmds + [] == cmds;
      var size := MessageSize(stream[pos]);
      if size.Failure? {
        return cmds, Malformed(size.error);
      }
      if |stream| - pos < size.value {
        return cmds, Closed;
      }
      var cmd := DecodeMessage(stream[pos..pos + size.value]);
      assert rest[..size.value] == stream[pos..pos + size.value];
      assert rest[size.value..] == stream[pos + size.value..];
      if cmd.Failure? {
        return cmds, Malformed(cmd.error);
      }
      assert cmds + ([cmd.value] + Frames(rest[size.value..]).0) == cmds + [cmd.value] + Frames(rest[size.value..]).0;
      cmds := cmds + [cmd.value];
      pos := pos + size.value;
    }
    assert stream[pos..] == [] && cmds + [] == cmds;
  }

  function StreamOf(cmds: seq<Command>): seq<byte> {
    if cmds == [] then [] else CommandBytes(cmds[0]) + StreamOf(cmds[1..])
  }

  predicate Loggable(cmd: Command) { cmd.NewOrder? ==> cmd.order.quantity > 0 }

  predicate AllLoggable(cmds: seq<Command>) { forall i :: 0 <= i < |cmds| ==> Loggable(cmds[i]) }

  /** Whatever bytes a client sends, no order of zero quantity gets past the decoder. */
  lemma {:induction false} FramesAreLoggable(stream: seq<byte>)
    ensures AllLoggable(Frames(stream).0)
    decreases |stream|
  {
    if stream != [] && MessageSize(stream[0]).Success? && |stream| >= MessageSize(stream[0]).value {
      var size := MessageSize(stream[0]).value;
      DecodedIsLoggable(stream[..size]);
      FramesAreLoggable(stream[size..]);
    }
  }

  lemma DecodedIsLoggable(buf: seq<byte>)
    ensures DecodeMessage(buf).Success? ==> Loggable(DecodeMessage(buf).value)
  {
  }

  /** The start of a message that was cut off. */
  predicate CutOff(tail: seq<byte>) {
    tail != [] ==> MessageSize(tail[0]).Success? && |tail| < MessageSize(tail[0]).value
  }

  lemma StreamCons(cmds: seq<Command>, tail: seq<byte>)
    requires cmds != []
    ensures StreamOf(cmds) + tail == CommandBytes(cmds[0]) + (StreamOf(cmds[1..]) + tail)
  {
  }

  lemma StripCons(cmds: seq<Command>)
    requires cmds != []
    ensures Timestamps.StripCommands(cmds)
         == [Timestamps.StripCommand(cmds[0])] + Timestamps.StripCommands(cmds[1..])
  {
  }

  lemma FramesStep(cmd: Command, rest: seq<byte>)
    requires Loggable(cmd)
    ensures Frames(CommandBytes(cmd) + rest) == ([Timestamps.StripCommand(cmd)] + Frames(rest).0, Frames(rest).1)
  {
    var first := CommandBytes(cmd);
    DecodeEncoded(cmd);
    assert (first + rest)[..|first|] == first && (first + rest)[|first|..] == rest;
  }

  /**
    Any concatenation of encoded commands with positive quantities, followed by any cut-off
    message, is read back as exactly those commands with their timestamps zeroed.
   */
  lemma {:induction false} FramesOfStream(cmds: seq<Command>, tail: seq<byte>)
    requires AllLoggable(cmds) && CutOff(tail)
    ensures Frames(StreamOf(cmds) + tail) == (Timestamps.StripCommands(cmds), Closed)
    decreases |cmds|
  {
    if cmds == [] {
      assert StreamOf(cmds) + tail == tail && Timestamps.StripCommands(cmds) == [];
    } else {
      var rest := StreamOf(cmds[1..]) + tail;
      FramesStep(cmds[0], rest);
      FramesOfStream(cmds[1..], tail);
      StreamCons(cmds, tail);
      StripCons(cmds);
    }
  }

  /** Two command lists with the same bytes are the same up to timestamps. */
  lemma UniquelyDecodable(cmds: seq<Command>, cmds': seq<Command>)
    requires AllLoggable(cmds) && AllLoggable(cmds') && StreamOf(cmds) == StreamOf(cmds')
    ensures Timestamps.StripCommands(cmds) == Timestamps.StripCommands(cmds')
  {
    FramesOfStream(cmds, []);
    FramesOfStream(cmds', []);
    assert StreamOf(cmds) + [] == StreamOf(cmds) && StreamOf(cmds') + [] == StreamOf(cmds');
  }
}
