/**
  Whole runs of the persistent engine: log a command, apply it, take snapshots, lose
  snapshots, crash between any two of these, recover. The log is the byte image of
  src/wal.rs; recovery is the function that Recovery.RecoverFrom was proved to compute.
 */
module Persistence {
  import opened Orders
  import opened Codec
  import opened WalFormat
  import opened Wals
  import opened Recovery
  import BookSpec
  import BookTheorems
  import Timestamps

  datatype Config = Config(crc: Crc, sum: Checksum, capacity: u32)

  /**
    `book` is None while the process is down. `pending` is the command that has been logged
    and not yet applied. `history` is every command ever logged, with its timestamp; the
    program itself does not keep it.
   */
  datatype System = System(
    img: Image, book: Option<BookSpec.Book>, pending: Option<Command>,
    snapshots: seq<Option<Snapshot>>, history: seq<Command>)

  datatype Action =
    | Log(cmd: Command)
    | Apply
    | TakeSnapshot
    | LoseSnapshot(i: nat)
    | Crash
    | Restart(snap: Option<Snapshot>, initialSize: nat)

  ghost predicate Init(c: Config, s: System) {
    exists size: nat :: s == System(OpenImage(c.crc, [], size), Some(BookSpec.EmptyBook(c.capacity)), None, [], [])
  }

  ghost predicate Next(c: Config, s: System, a: Action, s': System) {
    match a
    case Log(cmd) =>
      && s.book.Some? && s.pending.None?
      && s' == s.(img := AppendImage(c.crc, s.img, cmd), pending := Some(cmd), history := s.history + [cmd])
    case Apply =>
      && s.book.Some? && s.pending.Some?
      && s' == s.(book := Some(BookSpec.Step(s.book.value, s.pending.value).0), pending := None)
    case TakeSnapshot =>
      && s.book.Some? && s.pending.None?
      && s' == s.(snapshots := s.snapshots + [Some(CaptureOf(c.sum, s.book.value, s.img.count))])
    case LoseSnapshot(i) =>
      i < |s.snapshots| && s' == s.(snapshots := s.snapshots[i := None])
    case Crash =>
      s' == s.(book := None, pending := None)
    case Restart(snap, size) =>
      && s.book.None? && (snap.Some? ==> snap in s.snapshots)
      && match RecoverOf(c.crc, snap, s.img.file, size, c.capacity)
         case Success((b, img)) => s' == s.(book := Some(b), img := img)
         case Failure(_) => s' == s.(book := Some(BookSpec.EmptyBook(c.capacity)))
  }

  /** Only commands that a client can get past the decoder are logged (Codec.FramesAreLoggable). */
  predicate Decodable(a: Action) { a.Log? ==> Loggable(a.cmd) }

  /** How many of the logged commands the live book has seen. */
  function Applied(s: System): int { |s.history| - (if s.pending.Some? then 1 else 0) }

  ghost predicate AgreesWith(c: Config, b: BookSpec.Book, cmds: seq<Command>) {
    && BookSpec.Inv(b) && b.capacity == c.capacity
    && Timestamps.StripBook(b) == Timestamps.StripBook(BookSpec.Replay(BookSpec.EmptyBook(c.capacity), cmds))
  }

  ghost predicate SnapshotOk(c: Config, file: Option<Snapshot>, history: seq<Command>) {
    file.Some? ==> Intact(c.sum, file) && Covers(file, c.capacity, history)
  }

  /**
    The log holds the history; the live book agrees with replaying the history, all of it or
    all but the one pending command; every snapshot agrees with replaying its prefix.
   */
  ghost predicate SystemInv(c: Config, s: System) {
    && IsLog(c.crc, s.img, s.history) && AllLoggable(s.history)
    && (s.pending.Some? ==> s.book.Some? && s.history != [] && s.pending.value == s.history[|s.history| - 1])
    && (s.book.Some? ==> AgreesWith(c, s.book.value, s.history[..Applied(s)]))
    && (forall i :: 0 <= i < |s.snapshots| ==> SnapshotOk(c, s.snapshots[i], s.history))
  }

  lemma InitHolds(c: Config, s: System)
    requires Init(c, s)
    ensures SystemInv(c, s)
  {
    var size: nat :| s == System(OpenImage(c.crc, [], size), Some(BookSpec.EmptyBook(c.capacity)), None, [], []);
    EmptyLog(c.crc, size);
  }

  lemma CoversLonger(snap: Option<Snapshot>, capacity: u32, cmds: seq<Command>, cmd: Command)
    requires Covers(snap, capacity, cmds)
    ensures Covers(snap, capacity, cmds + [cmd])
  {
    var count := StartOf(snap, capacity).value.1;
    assert (cmds + [cmd])[..count] == cmds[..count];
  }

  lemma LogHolds(c: Config, s: System, cmd: Command, s': System)
    requires SystemInv(c, s) && Next(c, s, Log(cmd), s') && Loggable(cmd)
    ensures SystemInv(c, s')
  {
    AppendKeepsLog(c.crc, s.img, s.history, cmd);
    assert s'.history[..|s.history|] == s.history == s.history[..Applied(s)];
    forall i | 0 <= i < |s'.snapshots| ensures SnapshotOk(c, s'.snapshots[i], s'.history) {
      if s.snapshots[i].Some? {
        CoversLonger(s.snapshots[i], c.capacity, s.history, cmd);
      }
    }
  }

  lemma ApplyAgrees(c: Config, b: BookSpec.Book, cmds: seq<Command>, cmd: Command)
    requires AgreesWith(c, b, cmds)
    ensures AgreesWith(c, BookSpec.Step(b, cmd).0, cmds + [cmd])
  {
    var e := BookSpec.EmptyBook(c.capacity);
    var r := BookSpec.Replay(e, cmds);
    BookTheorems.StepKeepsInv(b, cmd);
    BookTheorems.ReplaySplit(e, cmds, [cmd]);
    assert BookSpec.Replay(r, [cmd]) == BookSpec.Step(r, cmd).0;
    Timestamps.StepIgnoresTimestamps(b, cmd);
    Timestamps.StepIgnoresTimestamps(r, cmd);
  }

  /** The live book caught up with the history: everything else is as before. */
  lemma CaughtUp(c: Config, s: System, s': System, b: BookSpec.Book, img: Image)
    requires SystemInv(c, s) && AgreesWith(c, b, s.history) && IsLog(c.crc, img, s.history)
    requires s' == s.(book := Some(b), img := img, pending := None)
    ensures SystemInv(c, s')
  {
    assert s'.history[..Applied(s')] == s.history;
  }

  lemma ApplyHolds(c: Config, s: System, s': System)
    requires SystemInv(c, s) && Next(c, s, Apply, s')
    ensures SystemInv(c, s')
  {
    var n, b, cmd := |s.history| - 1, s.book.value, s.pending.value;
    var b' := s'.book.value;
    assert s.history[..n] + [cmd] == s.history;
    ApplyAgrees(c, b, s.history[..n], cmd);
    CaughtUp(c, s, s', b', s.img);
  }

  lemma SnapshotHolds(c: Config, s: System, s': System)
    requires SystemInv(c, s) && Next(c, s, TakeSnapshot, s')
    ensures SystemInv(c, s')
  {
    var b, n := s.book.value, |s.history|;
    CaptureRestores(c.sum, b, n, c.capacity);
    assert s.img.count == n;
    assert SnapshotOk(c, Some(CaptureOf(c.sum, b, n)), s.history);
  }

  lemma RestartHolds(c: Config, s: System, snap: Option<Snapshot>, size: nat, s': System)
    requires SystemInv(c, s) && Next(c, s, Restart(snap, size), s')
    ensures SystemInv(c, s')
    ensures RecoverOf(c.crc, snap, s.img.file, size, c.capacity).Success?
  {
    ChoiceCovers(c, s, snap);
    RecoverLog(c.crc, s.img, s.history, snap, size, c.capacity);
    var (b, img) := RecoverOf(c.crc, snap, s.img.file, size, c.capacity).value;
    CaughtUp(c, s, s', b, img);
  }

  /** Any snapshot of the run, or none at all, covers a prefix of the history. */
  lemma ChoiceCovers(c: Config, s: System, snap: Option<Snapshot>)
    requires SystemInv(c, s) && (snap.Some? ==> snap in s.snapshots)
    ensures Covers(snap, c.capacity, s.history)
  {
  }

  lemma NextHolds(c: Config, s: System, a: Action, s': System)
    requires SystemInv(c, s) && Next(c, s, a, s') && Decodable(a)
    ensures SystemInv(c, s')
  {
    match a
    case Log(cmd) => LogHolds(c, s, cmd, s');
    case Apply => ApplyHolds(c, s, s');
    case TakeSnapshot => SnapshotHolds(c, s, s');
    case LoseSnapshot(i) =>
    case Crash =>
    case Restart(snap, size) => RestartHolds(c, s, snap, size, s');
  }

  ghost predicate IsRun(c: Config, states: seq<System>, actions: seq<Action>) {
    && |states| == |actions| + 1 && Init(c, states[0])
    && forall i :: 0 <= i < |actions| ==> Next(c, states[i], actions[i], states[i + 1]) && Decodable(actions[i])
  }

  /** The invariant holds in every state of every run, with any number of crashes. */
  lemma {:induction false} EveryRunHolds(c: Config, states: seq<System>, actions: seq<Action>, n: nat)
    requires IsRun(c, states, actions) && n < |states|
    ensures SystemInv(c, states[n])
  {
    if n == 0 {
      InitHolds(c, states[0]);
    } else {
      EveryRunHolds(c, states, actions, n - 1);
      NextHolds(c, states[n - 1], actions[n - 1], states[n]);
    }
  }

  /** No restart in any run falls back to a fresh, empty engine. */
  lemma EveryRestartRecovers(c: Config, states: seq<System>, actions: seq<Action>, n: nat)
    requires IsRun(c, states, actions) && n < |actions| && actions[n].Restart?
    ensures RecoverOf(c.crc, actions[n].snap, states[n].img.file, actions[n].initialSize, c.capacity).Success?
    ensures AgreesWith(c, states[n + 1].book.value, states[n + 1].history)
  {
    EveryRunHolds(c, states, actions, n);
    RestartHolds(c, states[n], actions[n].snap, actions[n].initialSize, states[n + 1]);
    var s' := states[n + 1];
    assert s'.history[..Applied(s')] == s'.history;
  }

  /**
    A crash and a restart cannot be observed: the recovered engine answers any later commands
    exactly as the engine that never went down, timestamps aside.
   */
  lemma {:induction false} SameAnswers(b: BookSpec.Book, b': BookSpec.Book, cmds: seq<Command>, i: nat)
    requires Timestamps.StripBook(b) == Timestamps.StripBook(b') && i < |cmds|
    ensures |BookSpec.Outputs(b, cmds)| == |BookSpec.Outputs(b', cmds)| == |cmds|
    ensures Timestamps.StripOutput(BookSpec.Outputs(b, cmds)[i])
         == Timestamps.StripOutput(BookSpec.Outputs(b', cmds)[i])
    decreases |cmds|
  {
    Timestamps.StepIgnoresTimestamps(b, cmds[0]);
    Timestamps.StepIgnoresTimestamps(b', cmds[0]);
    if |cmds| > 1 {
      SameAnswers(BookSpec.Step(b, cmds[0]).0, BookSpec.Step(b', cmds[0]).0, cmds[1..], if i > 0 then i - 1 else 0);
    }
  }
}
