/**
  The matching thread's work on one command, src/gateway.rs: log it, apply it, report each
  fill under the next sequence number, and now and then take a snapshot. Sending a report is
  modelled by returning its bytes; saving a snapshot by returning it.
 */
module Gateway {
  import opened Orders
  import opened Codec
  import opened Wals
  import opened Engines
  import opened Recovery
  import opened Persistence
  import BookSpec

  const U32_MOD: int := 0x1_0000_0000

  /** The reports of a list of fills: consecutive sequence numbers, wrapping at 2^32. */
  function Reports(fills: seq<Fill>, seqNum: u32, timestamp: u64): (r: seq<seq<byte>>)
    ensures |r| == |fills|
  {
    seq(|fills|, i requires 0 <= i < |fills| => ReportBytes((seqNum + i + 1) % U32_MOD, fills[i], timestamp))
  }

  function ReportsOf(cmd: Command, out: Output, seqNum: u32): seq<seq<byte>> {
    if cmd.NewOrder? && out.Added? && out.added.Success? then
      Reports(out.added.value.fills, seqNum, cmd.order.timestamp)
    else []
  }

  /** These bytes are report number n, modulo 2^32, of this fill. */
  predicate Reported(bytes: seq<byte>, n: nat, f: Fill, timestamp: u64) {
    && |bytes| == 48 && bytes[0] == 3
    && DecodeExecutionReport(bytes) == Success(ExecutionReport(
         n % 0x1_0000_0000, f.takerOrderId, f.makerOrderId, f.price, f.quantity, timestamp))
  }

  /** An accepted order is reported fill by fill, in order and numbered on; nothing else is reported. */
  lemma ReportsMean(cmd: Command, out: Output, seqNum: u32)
    ensures cmd.NewOrder? && out.Added? && out.added.Success? ==>
      var fills := out.added.value.fills;
      && |ReportsOf(cmd, out, seqNum)| == |fills|
      && forall i :: 0 <= i < |fills| ==>
           Reported(ReportsOf(cmd, out, seqNum)[i], seqNum + i + 1, fills[i], cmd.order.timestamp)
    ensures cmd.CancelOrder? || (out.Added? && out.added.Failure?) ==> ReportsOf(cmd, out, seqNum) == []
  {
    if cmd.NewOrder? && out.Added? && out.added.Success? {
      var fills := out.added.value.fills;
      forall i | 0 <= i < |fills|
        ensures Reported(ReportsOf(cmd, out, seqNum)[i], seqNum + i + 1, fills[i], cmd.order.timestamp)
      {
        BytesAreReport((seqNum + i + 1) % U32_MOD, fills[i], cmd.order.timestamp);
      }
    }
  }

  lemma BytesAreReport(n: u32, f: Fill, timestamp: u64)
    ensures Reported(ReportBytes(n, f, timestamp), n, f, timestamp)
  {
    ReportRoundTrip(n, f, timestamp);
    ReportWritten(n, f, timestamp);
  }

  // ----- The reports of many commands

  /** All executions of a list of commands: each fill with the timestamp of the order that took it. */
  function Executions(cmds: seq<Command>, outs: seq<Output>): seq<(Fill, u64)>
    requires |outs| == |cmds|
  {
    if cmds == [] then []
    else ExecutionsOf(cmds[0], outs[0]) + Executions(cmds[1..], outs[1..])
  }

  function ExecutionsOf(cmd: Command, out: Output): seq<(Fill, u64)> {
    if cmd.NewOrder? && out.Added? && out.added.Success? then
      var fills := out.added.value.fills;
      seq(|fills|, i requires 0 <= i < |fills| => (fills[i], cmd.order.timestamp))
    else []
  }

  /** Report p is execution p, under the next number each time: 1, 2, 3 and so on from a fresh start. */
  ghost predicate ReportedAll(sent: seq<seq<byte>>, seqNum: nat, done: seq<(Fill, u64)>) {
    |sent| == |done| && forall p :: 0 <= p < |sent| ==> Reported(sent[p], seqNum + p + 1, done[p].0, done[p].1)
  }

  lemma ReportedConcat(a: seq<seq<byte>>, b: seq<seq<byte>>, m: nat, n: nat, x: seq<(Fill, u64)>, y: seq<(Fill, u64)>)
    requires ReportedAll(a, m, x) && ReportedAll(b, n, y) && n == (m + |a|) % U32_MOD
    ensures ReportedAll(a + b, m, x + y)
  {
    forall p | 0 <= p < |a + b| ensures Reported((a + b)[p], m + p + 1, (x + y)[p].0, (x + y)[p].1) {
      if p >= |a| {
        var q := p - |a|;
        assert Reported(b[q], n + q + 1, y[q].0, y[q].1);
        WrapNumber(m + |a|, q + 1);
      }
    }
  }

  lemma WrapNumber(n: nat, k: nat)
    ensures (n % U32_MOD + k) % U32_MOD == (n + k) % U32_MOD
  {
  }

  lemma ReportsAreExecutions(cmd: Command, out: Output, seqNum: u32)
    requires cmd.NewOrder? ==> out.Added?
    ensures ReportedAll(ReportsOf(cmd, out, seqNum), seqNum, ExecutionsOf(cmd, out))
  {
    ReportsMean(cmd, out, seqNum);
  }

  lemma {:induction false} ExecutionsSplit(a: seq<Command>, x: seq<Output>, b: seq<Command>, y: seq<Output>)
    requires |a| == |x| && |b| == |y|
    ensures Executions(a + b, x + y) == Executions(a, x) + Executions(b, y)
  {
    if a == [] {
      assert a + b == b && x + y == y;
    } else {
      assert (a + b)[1..] == a[1..] + b && (x + y)[1..] == x[1..] + y;
      ExecutionsSplit(a[1..], x[1..], b, y);
    }
  }

  /** The fills of an accepted order lie together, behind the executions of all earlier commands. */
  lemma ExecutionsAt(a: seq<Command>, x: seq<Output>, cmd: Command, out: Output,
                     b: seq<Command>, y: seq<Output>, i: nat)
    requires |a| == |x| && |b| == |y| && cmd.NewOrder? && out.Added? && out.added.Success?
    requires i < |out.added.value.fills|
    ensures var all, p := Executions(a + ([cmd] + b), x + ([out] + y)), |Executions(a, x)| + i;
      p < |all| && all[p] == (out.added.value.fills[i], cmd.order.timestamp)
  {
    FirstExecutions([cmd] + b, [out] + y, i);
    LaterExecutions(a, x, [cmd] + b, [out] + y, i);
  }

  lemma {:induction false} LaterExecutions(a: seq<Command>, x: seq<Output>, b: seq<Command>, y: seq<Output>, i: nat)
    requires |a| == |x| && |b| == |y| && i < |Executions(b, y)|
    ensures var p := |Executions(a, x)| + i;
      p < |Executions(a + b, x + y)| && Executions(a + b, x + y)[p] == Executions(b, y)[i]
  {
    ExecutionsSplit(a, x, b, y);
  }

  lemma {:induction false} FirstExecutions(cmds: seq<Command>, outs: seq<Output>, i: nat)
    requires |outs| == |cmds| > 0 && cmds[0].NewOrder? && outs[0].Added? && outs[0].added.Success?
    requires i < |outs[0].added.value.fills|
    ensures i < |Executions(cmds, outs)|
    ensures Executions(cmds, outs)[i] == (outs[0].added.value.fills[i], cmds[0].order.timestamp)
  {
    assert i < |ExecutionsOf(cmds[0], outs[0])|;
  }

  lemma ExecutionsSnoc(cmds: seq<Command>, outs: seq<Output>, cmd: Command, out: Output)
    requires |outs| == |cmds|
    ensures Executions(cmds + [cmd], outs + [out]) == Executions(cmds, outs) + ExecutionsOf(cmd, out)
  {
    ExecutionsSplit(cmds, outs, [cmd], [out]);
    assert Executions([cmd], [out]) == ExecutionsOf(cmd, out) + [];
  }

  /** One more command: its reports go on where the last ones ended. */
  lemma ReportedSnoc(sent: seq<seq<byte>>, cmds: seq<Command>, outs: seq<Output>, cmd: Command, out: Output)
    requires |outs| == |cmds| && (cmd.NewOrder? ==> out.Added?)
    requires ReportedAll(sent, 0, Executions(cmds, outs))
    ensures var more := ReportsOf(cmd, out, |sent| % U32_MOD);
      ReportedAll(sent + more, 0, Executions(cmds + [cmd], outs + [out]))
  {
    var n := |sent| % U32_MOD;
    ReportsAreExecutions(cmd, out, n);
    ReportedConcat(sent, ReportsOf(cmd, out, n), 0, n, Executions(cmds, outs), ExecutionsOf(cmd, out));
    ExecutionsSnoc(cmds, outs, cmd, out);
  }

  /** The objects that handling a command may change. */
  ghost function Footprint(engine: MatchingEngine, wal: Option<Wal>): set<object> {
    {engine.book, engine.book.arena, engine.book.arena.storage}
    + (if wal.Some? then {wal.value, wal.value.encodeBuf} else {})
  }

  method SendReports(fills: seq<Fill>, seqNum: u32, timestamp: u64, reportBuf: array<byte>)
    returns (seqNum': u32, sent: seq<seq<byte>>)
    requires reportBuf.Length == EXECUTION_REPORT_SIZE
    modifies reportBuf
    ensures sent == Reports(fills, seqNum, timestamp)
    ensures seqNum' == (seqNum + |fills|) % U32_MOD
  {
    seqNum', sent := seqNum, [];
    var i := 0;
    while i < |fills|
      invariant 0 <= i <= |fills|
      invariant seqNum' == (seqNum + i) % U32_MOD
      invariant sent == Reports(fills[..i], seqNum, timestamp)
    {
      NextNumber(seqNum, i);
      NextReport(fills, i, seqNum, timestamp);
      seqNum' := (seqNum' + 1) % U32_MOD;
      var r := EncodeExecutionReport(reportBuf, seqNum', fills[i], timestamp);
      assert r.Success? && reportBuf[..] == reportBuf[..EXECUTION_REPORT_SIZE];
      sent, i := sent + [reportBuf[..]], i + 1;
    }
    assert fills[..i] == fills;
  }

  lemma NextNumber(seqNum: u32, i: nat)
    ensures ((seqNum + i) % U32_MOD + 1) % U32_MOD == (seqNum + i + 1) % U32_MOD
  {
  }

  lemma NextReport(fills: seq<Fill>, i: nat, seqNum: u32, timestamp: u64)
    requires i < |fills|
    ensures Reports(fills[..i + 1], seqNum, timestamp)
      == Reports(fills[..i], seqNum, timestamp) + [ReportBytes((seqNum + i + 1) % U32_MOD, fills[i], timestamp)]
  {
  }

  /** Reports what a command did, if it was an order that the engine took. */
  method Report(cmd: Command, out: Output, seqNum: u32, reportBuf: array<byte>)
    returns (seqNum': u32, sent: seq<seq<byte>>)
    requires (cmd.NewOrder? ==> out.Added?) && reportBuf.Length == EXECUTION_REPORT_SIZE
    modifies reportBuf
    ensures sent == ReportsOf(cmd, out, seqNum)
    ensures seqNum' == (seqNum + |sent|) % U32_MOD
  {
    seqNum', sent := seqNum, [];
    if cmd.NewOrder? && out.added.Success? {
      seqNum', sent := SendReports(out.added.value.fills, seqNum, cmd.order.timestamp, reportBuf);
    }
  }

  /** The log comes first: a command is on disk before the engine sees it. */
  method LogAndApply(cmd: Command, engine: MatchingEngine, wal: Option<Wal>) returns (out: Output)
    requires engine.Valid() && (wal.Some? ==> wal.value.Valid())
    modifies Footprint(engine, wal)
    ensures engine.Valid()
    ensures wal.Some? ==>
      wal.value.Valid() && wal.value.Contents() == AppendImage(wal.value.crc, old(wal.value.Contents()), cmd)
    ensures (engine.View(), out) == BookSpec.Step(old(engine.View()), cmd)
  {
    if wal.Some? {
      var n := wal.value.Append(cmd);
    }
    out := engine.Apply(cmd);
  }

  /** Logs, applies and reports one command. */
  method ProcessCommand(cmd: Command, engine: MatchingEngine, wal: Option<Wal>, seqNum: u32, reportBuf: array<byte>)
    returns (seqNum': u32, sent: seq<seq<byte>>)
    requires engine.Valid() && (wal.Some? ==> wal.value.Valid() && reportBuf != wal.value.encodeBuf)
    requires reportBuf.Length == EXECUTION_REPORT_SIZE
    modifies Footprint(engine, wal), reportBuf
    ensures engine.Valid()
    ensures wal.Some? ==>
      wal.value.Valid() && wal.value.Contents() == AppendImage(wal.value.crc, old(wal.value.Contents()), cmd)
    ensures engine.View() == BookSpec.Step(old(engine.View()), cmd).0
    ensures sent == ReportsOf(cmd, BookSpec.Step(old(engine.View()), cmd).1, seqNum)
    ensures seqNum' == (seqNum + |sent|) % U32_MOD
  {
    var out := LogAndApply(cmd, engine, wal);
    seqNum', sent := Report(cmd, out, seqNum, reportBuf);
  }

  /** What the matching thread amounts to between two commands. */
  ghost function SystemOf(engine: MatchingEngine, wal: Wal, snapshots: seq<Option<Snapshot>>, history: seq<Command>)
    : System
    reads engine.book, wal
  {
    System(wal.Contents(), Some(engine.View()), None, snapshots, history)
  }

  /** Logging, applying, and possibly a snapshot: two or three steps of the persistent system. */
  ghost predicate Served(c: Config, s: System, cmd: Command, s': System) {
    exists s1, s2 ::
      && Persistence.Next(c, s, Log(cmd), s1) && Persistence.Next(c, s1, Action.Apply, s2)
      && (s' == s2 || Persistence.Next(c, s2, TakeSnapshot, s'))
  }

  /** One turn of the matching loop with a log and a snapshot directory. */
  method ServeCommand(c: Config, cmd: Command, engine: MatchingEngine, wal: Wal, interval: nat, since: nat,
                      seqNum: u32, reportBuf: array<byte>,
                      ghost snapshots: seq<Option<Snapshot>>, ghost history: seq<Command>)
    returns (since': nat, seqNum': u32, sent: seq<seq<byte>>, snap: Option<Snapshot>)
    requires engine.Valid() && wal.Valid() && wal.crc == c.crc
    requires reportBuf.Length == EXECUTION_REPORT_SIZE && reportBuf != wal.encodeBuf
    modifies Footprint(engine, Some(wal)), reportBuf
    ensures engine.Valid() && wal.Valid()
    ensures Served(c, old(SystemOf(engine, wal, snapshots, history)), cmd,
                   SystemOf(engine, wal, if snap.Some? then snapshots + [snap] else snapshots, history + [cmd]))
    ensures snap.Some? <==> since + 1 >= interval
    ensures since' == if snap.Some? then 0 else since + 1
    ensures sent == ReportsOf(cmd, BookSpec.Step(old(engine.View()), cmd).1, seqNum)
    ensures seqNum' == (seqNum + |sent|) % U32_MOD
  {
    ghost var s := SystemOf(engine, wal, snapshots, history);
    ghost var s1 := s.(img := AppendImage(c.crc, s.img, cmd), pending := Some(cmd), history := history + [cmd]);
    ghost var s2 := s1.(book := Some(BookSpec.Step(s.book.value, cmd).0), pending := None);
    seqNum', sent := ProcessCommand(cmd, engine, Some(wal), seqNum, reportBuf);
    since', snap := since + 1, None;
    assert Persistence.Next(c, s, Log(cmd), s1) && Persistence.Next(c, s1, Action.Apply, s2);
    assert SystemOf(engine, wal, snapshots, history + [cmd]) == s2;
    if since' >= interval {
      var taken := Capture(c.sum, engine, wal.recordCount);
      since', snap := 0, Some(taken);
      assert Persistence.Next(c, s2, TakeSnapshot, s2.(snapshots := snapshots + [snap]));
    }
  }

  // ----- The matching loop over many commands

  /** Consecutive states are related through the commands between them. */
  ghost predicate Chained(rel: (System, Command, System) -> bool, states: seq<System>, cmds: seq<Command>) {
    |states| == |cmds| + 1 && forall i :: 0 <= i < |cmds| ==> rel(states[i], cmds[i], states[i + 1])
  }

  lemma ChainedSnoc(
    rel: (System, Command, System) -> bool, states: seq<System>, cmds: seq<Command>, cmd: Command, s': System)
    requires Chained(rel, states, cmds) && rel(states[|cmds|], cmd, s')
    ensures Chained(rel, states + [s'], cmds + [cmd])
  {
    var states', cmds' := states + [s'], cmds + [cmd];
    forall i | 0 <= i < |cmds'| ensures rel(states'[i], cmds'[i], states'[i + 1]) {
      if i < |cmds| {
        assert states'[i] == states[i] && states'[i + 1] == states[i + 1];
      }
    }
  }

  ghost function ServedBy(c: Config): (System, Command, System) -> bool { (s, cmd, s') => Served(c, s, cmd, s') }

  /** Each command in turn served, from `states[0]` on. */
  ghost predicate ServedAll(c: Config, states: seq<System>, cmds: seq<Command>) { Chained(ServedBy(c), states, cmds) }

  lemma ServedMeans(c: Config, s: System, cmd: Command, s': System)
    requires Served(c, s, cmd, s')
    ensures s.book.Some? && s'.book == Some(BookSpec.Step(s.book.value, cmd).0)
    ensures s'.history == s.history + [cmd]
  {
  }

  /** The first commands have been served; `outs` are their answers. */
  ghost predicate Serving(rel: (System, Command, System) -> bool, s0: System, cmds: seq<Command>,
                          outs: seq<Output>, states: seq<System>) {
    var i := |outs|;
    && i <= |cmds| && Chained(rel, states, cmds[..i]) && states[0] == s0
    && s0.book.Some? && states[i].book.Some? && GoesOn(s0.book.value, cmds, states[i].book.value, i, outs)
    && states[i].history == s0.history + cmds[..i]
  }

  lemma ServingStart(rel: (System, Command, System) -> bool, s0: System, cmds: seq<Command>)
    requires s0.book.Some?
    ensures Serving(rel, s0, cmds, [], [s0])
  {
    assert cmds[0..] == cmds;
  }

  lemma ServingTurn(rel: (System, Command, System) -> bool, s0: System, cmds: seq<Command>,
                    outs: seq<Output>, states: seq<System>, out: Output, s': System)
    requires Serving(rel, s0, cmds, outs, states) && |outs| < |cmds| && rel(states[|outs|], cmds[|outs|], s')
    requires (s'.book, out) == var (b, o) := BookSpec.Step(states[|outs|].book.value, cmds[|outs|]); (Some(b), o)
    requires s'.history == states[|outs|].history + [cmds[|outs|]]
    ensures Serving(rel, s0, cmds, outs + [out], states + [s'])
  {
    var i := |outs|;
    ChainedSnoc(rel, states, cmds[..i], cmds[i], s');
    assert cmds[..i] + [cmds[i]] == cmds[..i + 1];
    GoesOnStep(s0.book.value, cmds, states[i].book.value, i, outs);
  }

  lemma ServingDone(rel: (System, Command, System) -> bool, s0: System, cmds: seq<Command>,
                    outs: seq<Output>, states: seq<System>)
    requires Serving(rel, s0, cmds, outs, states) && |outs| == |cmds|
    ensures states[|cmds|].book == Some(BookSpec.Replay(s0.book.value, cmds))
    ensures outs == BookSpec.Outputs(s0.book.value, cmds)
    ensures Chained(rel, states, cmds) && states[|cmds|].history == s0.history + cmds
  {
    assert cmds[..|cmds|] == cmds && cmds[|cmds|..] == [];
  }

  /** What was sent so far reports all executions so far, and this is the last number used. */
  ghost predicate Reporting(cmds: seq<Command>, outs: seq<Output>, sent: seq<seq<byte>>, seqNum: u32) {
    && |outs| <= |cmds| && ReportedAll(sent, 0, Executions(cmds[..|outs|], outs))
    && seqNum == |sent| % U32_MOD
  }

  lemma ReportingTurn(cmds: seq<Command>, outs: seq<Output>, sent: seq<seq<byte>>, seqNum: u32,
                      out: Output, more: seq<seq<byte>>, seqNum': u32)
    requires Reporting(cmds, outs, sent, seqNum) && |outs| < |cmds| && (cmds[|outs|].NewOrder? ==> out.Added?)
    requires more == ReportsOf(cmds[|outs|], out, seqNum) && seqNum' == (seqNum + |more|) % U32_MOD
    ensures Reporting(cmds, outs + [out], sent + more, seqNum')
  {
    var i := |outs|;
    ReportedSnoc(sent, cmds[..i], outs, cmds[i], out);
    assert cmds[..i] + [cmds[i]] == cmds[..i + 1];
    WrapNumber(|sent|, |more|);
  }

  lemma ReportingDone(b: BookSpec.Book, cmds: seq<Command>, sent: seq<seq<byte>>, seqNum: u32)
    requires |BookSpec.Outputs(b, cmds)| == |cmds| && Reporting(cmds, BookSpec.Outputs(b, cmds), sent, seqNum)
    ensures ReportedAll(sent, 0, ExecutionsFrom(b, cmds))
  {
    assert cmds[..|cmds|] == cmds;
  }

  /** What the engine executes from a book, given these commands. */
  function ExecutionsFrom(b: BookSpec.Book, cmds: seq<Command>): seq<(Fill, u64)> {
    OneAnswerEach(b, cmds);
    Executions(cmds, BookSpec.Outputs(b, cmds))
  }

  /**
    The matching loop over the commands it pops, from its start: the sequence number begins at 0
    and is carried from command to command, so the reports are numbered 1, 2, 3 and so on.
   */
  method ServeAll(c: Config, cmds: seq<Command>, engine: MatchingEngine, wal: Wal, interval: nat,
                  reportBuf: array<byte>, ghost snapshots: seq<Option<Snapshot>>, ghost history: seq<Command>)
    returns (sent: seq<seq<byte>>, ghost states: seq<System>, ghost snapshots': seq<Option<Snapshot>>)
    requires engine.Valid() && wal.Valid() && wal.crc == c.crc
    requires reportBuf.Length == EXECUTION_REPORT_SIZE && reportBuf != wal.encodeBuf
    modifies Footprint(engine, Some(wal)), reportBuf
    ensures engine.Valid() && wal.Valid()
    ensures engine.View() == BookSpec.Replay(old(engine.View()), cmds)
    ensures ReportedAll(sent, 0, ExecutionsFrom(old(engine.View()), cmds))
    ensures ServedAll(c, states, cmds) && states[0] == old(SystemOf(engine, wal, snapshots, history))
    ensures states[|cmds|] == SystemOf(engine, wal, snapshots', history + cmds)
  {
    var since, seqNum := 0, 0;
    ghost var s0, outs := SystemOf(engine, wal, snapshots, history), [];
    sent, states, snapshots' := [], [s0], snapshots;
    ServingStart(ServedBy(c), s0, cmds);
    var i := 0;
    while i < |cmds|
      invariant 0 <= i == |outs| <= |cmds| && engine.Valid() && wal.Valid()
      invariant Serving(ServedBy(c), s0, cmds, outs, states)
      invariant Reporting(cmds, outs, sent, seqNum)
      invariant states[i] == SystemOf(engine, wal, snapshots', states[i].history)
    {
      ghost var s, n, out := states[i], seqNum, BookSpec.Step(engine.View(), cmds[i]).1;
      var more, snap;
      since, seqNum, more, snap :=
        ServeCommand(c, cmds[i], engine, wal, interval, since, seqNum, reportBuf, snapshots', s.history);
      snapshots' := if snap.Some? then snapshots' + [snap] else snapshots';
      ghost var s' := SystemOf(engine, wal, snapshots', s.history + [cmds[i]]);
      ServedMeans(c, s, cmds[i], s');
      ServingTurn(ServedBy(c), s0, cmds, outs, states, out, s');
      ReportingTurn(cmds, outs, sent, n, out, more, seqNum);
      sent, states, outs, i := sent + more, states + [s'], outs + [out], i + 1;
    }
    ServingDone(ServedBy(c), s0, cmds, outs, states);
    ReportingDone(s0.book.value, cmds, sent, seqNum);
  }
}
