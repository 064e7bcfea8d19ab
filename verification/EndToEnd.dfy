/**
  From a client's bytes to the log: the ring and its two threads (Pipeline), the framing of the
  client's stream (Codec) and the persistent engine (Persistence) in one system. A session is
  one life of src/gateway.rs `run`: one client, from its first byte until the matching thread
  has exited. Sessions start from whatever earlier sessions, crashes and restarts left.
 */
module EndToEnd {
  import opened Orders
  import opened Codec
  import opened Wals
  import opened Persistence
  import opened Pipeline
  import opened Gateway
  import opened Timestamps
  import BookSpec

  /** A client's bytes, and what was persistent when it connected. */
  datatype Session = Session(config: Config, stream: seq<byte>, before: System)

  datatype State = State(threads: Threads<Command>, system: System)

  /** The persistent system after some run with any number of crashes. */
  ghost predicate Reached(c: Config, s: System) {
    exists states, actions :: Persistence.IsRun(c, states, actions) && states[|actions|] == s
  }

  /** It is up, and no command waits between being logged and being applied. */
  ghost predicate Ready(c: Config, s: System) { Reached(c, s) && s.book.Some? && s.pending.None? }

  ghost predicate Init(x: Session, s: State) {
    Ready(x.config, x.before) && Pipeline.Init(s.threads) && s.system == x.before
  }

  /**
    The client thread accepts the commands of the stream in turn, each order stamped with the
    time of its arrival, and ends when there are no more. Processing a command is logging it,
    applying it and possibly taking a snapshot.
   */
  ghost predicate Next(x: Session, s: State, m: Move<Command>, s': State) {
    && Pipeline.Next(s.threads, m, s'.threads)
    && var cmds, n := Frames(x.stream).0, |s.threads.accepted|;
    match m
    case Accept(v) => n < |cmds| && cmds[n] == StripCommand(v) && s'.system == s.system
    case EndOfStream => n == |cmds| && s'.system == s.system
    case Process => Served(x.config, s.system, s.threads.matcher.v, s'.system)
    case _ => s'.system == s.system
  }

  ghost predicate IsRun(x: Session, states: seq<State>, moves: seq<Move<Command>>) {
    && |states| == |moves| + 1 && Init(x, states[0])
    && forall i :: 0 <= i < |moves| ==> Next(x, states[i], moves[i], states[i + 1])
  }

  /** What has been accepted so far is the front of the stream, all of it once the client closes. */
  ghost predicate AcceptedInv(x: Session, t: Threads<Command>) {
    && StripCommands(t.accepted) <= Frames(x.stream).0
    && (t.client.Closing? || t.client.Closed? ==> StripCommands(t.accepted) == Frames(x.stream).0)
  }

  ghost predicate SessionInv(x: Session, s: State) {
    && PipelineInv(s.threads) && AcceptedInv(x, s.threads) && Ready(x.config, s.system)
    && s.system.history == x.before.history + s.threads.processed
  }

  // ----- The persistent side

  lemma RunExtends(c: Config, states: seq<System>, actions: seq<Persistence.Action>, a: Persistence.Action, s': System)
    requires Persistence.IsRun(c, states, actions)
    requires Persistence.Next(c, states[|actions|], a, s') && Decodable(a)
    ensures Persistence.IsRun(c, states + [s'], actions + [a])
  {
    var states', actions' := states + [s'], actions + [a];
    forall i | 0 <= i < |actions'|
      ensures Persistence.Next(c, states'[i], actions'[i], states'[i + 1]) && Decodable(actions'[i])
    {
      if i < |actions| {
        assert states'[i] == states[i] && states'[i + 1] == states[i + 1] && actions'[i] == actions[i];
      }
    }
  }

  lemma ReachedNext(c: Config, s: System, a: Persistence.Action, s': System)
    requires Reached(c, s) && Persistence.Next(c, s, a, s') && Decodable(a)
    ensures Reached(c, s')
  {
    var states, actions :| Persistence.IsRun(c, states, actions) && states[|actions|] == s;
    RunExtends(c, states, actions, a, s');
    assert (states + [s'])[|actions + [a]|] == s';
  }

  /** Serving a command that came through the decoder leaves the system ready for the next one. */
  lemma ServedIsReady(c: Config, s: System, cmd: Command, s': System)
    requires Ready(c, s) && Served(c, s, cmd, s') && Loggable(cmd)
    ensures Ready(c, s') && s'.history == s.history + [cmd]
  {
    var s1, s2 :|
      && Persistence.Next(c, s, Log(cmd), s1) && Persistence.Next(c, s1, Persistence.Action.Apply, s2)
      && (s' == s2 || Persistence.Next(c, s2, TakeSnapshot, s'));
    ReachedNext(c, s, Log(cmd), s1);
    ReachedNext(c, s1, Persistence.Action.Apply, s2);
    if s' != s2 {
      ReachedNext(c, s2, TakeSnapshot, s');
    }
  }

  lemma ReadyHolds(c: Config, s: System)
    requires Ready(c, s)
    ensures IsLog(c.crc, s.img, s.history) && AgreesWith(c, s.book.value, s.history)
  {
    var states, actions :| Persistence.IsRun(c, states, actions) && states[|actions|] == s;
    Persistence.EveryRunHolds(c, states, actions, |actions|);
    assert s.history[..Applied(s)] == s.history;
  }

  // ----- Every session

  lemma AcceptedHolds(x: Session, s: State, m: Move<Command>, s': State)
    requires FlagInv(s.threads) && AcceptedInv(x, s.threads) && Next(x, s, m, s')
    ensures AcceptedInv(x, s'.threads)
  {
    if m.Accept? {
      StripSnoc(s.threads.accepted, m.v);
    }
  }

  lemma StripSnoc(cmds: seq<Command>, cmd: Command)
    ensures StripCommands(cmds + [cmd]) == StripCommands(cmds) + [StripCommand(cmd)]
  {
  }

  /** The command in the matching thread's hands came out of the decoder. */
  lemma HeldIsLoggable(x: Session, t: Threads<Command>)
    requires PipelineInv(t) && AcceptedInv(x, t) && t.matcher.Got?
    ensures Loggable(t.matcher.v)
  {
    var n := |t.processed|;
    assert t.ring.h.popped == t.ring.h.pushed[..|t.ring.h.popped|];
    assert t.accepted[n] == t.ring.h.pushed[n] == t.ring.h.popped[n] == t.matcher.v;
    FramesAreLoggable(x.stream);
    assert StripCommands(t.accepted)[n] == StripCommand(t.matcher.v) == Frames(x.stream).0[n];
  }

  lemma SystemHolds(x: Session, s: State, m: Move<Command>, s': State)
    requires Next(x, s, m, s') && (m.Process? ==> Loggable(s.threads.matcher.v))
    requires Ready(x.config, s.system) && s.system.history == x.before.history + s.threads.processed
    ensures Ready(x.config, s'.system) && s'.system.history == x.before.history + s'.threads.processed
  {
    if m.Process? {
      ServedIsReady(x.config, s.system, s.threads.matcher.v, s'.system);
    }
  }

  lemma StepHolds(x: Session, s: State, m: Move<Command>, s': State)
    requires SessionInv(x, s) && Next(x, s, m, s')
    ensures SessionInv(x, s')
  {
    Pipeline.StepHolds(s.threads, m, s'.threads);
    AcceptedHolds(x, s, m, s');
    if m.Process? {
      HeldIsLoggable(x, s.threads);
    }
    SystemHolds(x, s, m, s');
  }

  lemma {:induction false} EveryRunHolds(x: Session, states: seq<State>, moves: seq<Move<Command>>, n: nat)
    requires IsRun(x, states, moves) && n < |states|
    ensures SessionInv(x, states[n])
  {
    if n == 0 {
      Pipeline.InitHolds(states[0].threads);
      assert StripCommands([]) == [];
    } else {
      EveryRunHolds(x, states, moves, n - 1);
      StepHolds(x, states[n - 1], moves[n - 1], states[n]);
    }
  }

  /**
    In every interleaving of a session, the log is the log of all earlier commands followed by the
    processed ones, the book agrees with replaying them, and a crash at this point is a crash of
    a system that Persistence covers. Once the matching thread has exited, the processed commands
    are exactly the commands of the client's stream, in order, stamped on arrival.
   */
  lemma StreamReachesLog(x: Session, states: seq<State>, moves: seq<Move<Command>>, n: nat)
    requires IsRun(x, states, moves) && n < |states|
    ensures var s, done := states[n].system, states[n].threads.processed;
      && Ready(x.config, s) && s.history == x.before.history + done
      && IsLog(x.config.crc, s.img, s.history) && AgreesWith(x.config, s.book.value, s.history)
      && StripCommands(done) <= Frames(x.stream).0
      && (states[n].threads.matcher.Exited? ==> StripCommands(done) == Frames(x.stream).0)
  {
    EveryRunHolds(x, states, moves, n);
    ReadyHolds(x.config, states[n].system);
    ProcessedFromStream(x, states[n].threads);
  }

  lemma ProcessedFromStream(x: Session, t: Threads<Command>)
    requires PipelineInv(t) && AcceptedInv(x, t)
    ensures StripCommands(t.processed) <= Frames(x.stream).0
    ensures t.matcher.Exited? ==> StripCommands(t.processed) == Frames(x.stream).0
  {
    assert t.ring.h.popped == t.ring.h.pushed[..|t.ring.h.popped|];
    assert t.processed <= t.accepted;
    assert StripCommands(t.processed) <= StripCommands(t.accepted);
  }

  // ----- Every session can finish

  ghost predicate Leads(x: Session, s: State, moves: seq<Move<Command>>, s': State)
    decreases |moves|
  {
    if moves == [] then s == s'
    else exists s1 :: Next(x, s, moves[0], s1) && Leads(x, s1, moves[1..], s')
  }

  lemma LeadsFirst(x: Session, s: State, m: Move<Command>, s1: State, moves: seq<Move<Command>>, s': State)
    requires Next(x, s, m, s1) && Leads(x, s1, moves, s')
    ensures Leads(x, s, [m] + moves, s')
  {
    assert ([m] + moves)[1..] == moves;
  }

  /** A system that is ready can serve any command. */
  lemma CanServe(c: Config, s: System, cmd: Command) returns (s': System)
    requires Ready(c, s)
    ensures Served(c, s, cmd, s')
  {
    var s1 := s.(img := AppendImage(c.crc, s.img, cmd), pending := Some(cmd), history := s.history + [cmd]);
    s' := s1.(book := Some(BookSpec.Step(s.book.value, cmd).0), pending := None);
    assert Persistence.Next(c, s, Log(cmd), s1) && Persistence.Next(c, s1, Persistence.Action.Apply, s');
  }

  /** Commands of the stream that the client has not accepted yet. */
  function Unread(x: Session, t: Threads<Command>): int { |Frames(x.stream).0| - |t.accepted| }

  ghost predicate Accepting(x: Session, t: Threads<Command>) { t.client.Reading? && Unread(x, t) > 0 }

  /** While there are commands to read and the client is reading, it can accept the next one. */
  lemma AcceptMove(x: Session, s: State) returns (m: Move<Command>, s': State)
    requires SessionInv(x, s) && Accepting(x, s.threads)
    ensures Next(x, s, m, s') && SessionInv(x, s') && Unread(x, s'.threads) < Unread(x, s.threads)
  {
    var v := Frames(x.stream).0[|s.threads.accepted|];
    m := Accept(v);
    s' := s.(threads := s.threads.(client := Pushing(v), accepted := s.threads.accepted + [v]));
    FramesAreStripped(x.stream, |s.threads.accepted|);
    StepHolds(x, s, m, s');
  }

  /** The decoder leaves every timestamp 0. */
  lemma FramesAreStripped(stream: seq<byte>, i: nat)
    requires i < |Frames(stream).0|
    ensures StripCommand(Frames(stream).0[i]) == Frames(stream).0[i]
  {
    FramesMean(stream);
    assert FramedAt(stream, Frames(stream).0, i);
  }

  /** A move of either thread, taken along with what it does to the persistent system. */
  lemma LiftMove(x: Session, s: State, m: Move<Command>, t': Threads<Command>) returns (s': State)
    requires SessionInv(x, s) && Pipeline.Next(s.threads, m, t') && !m.Accept?
    requires m.EndOfStream? ==> Unread(x, s.threads) == 0
    ensures Next(x, s, m, s') && SessionInv(x, s') && s'.threads == t'
  {
    var system := s.system;
    if m.Process? {
      system := CanServe(x.config, s.system, s.threads.matcher.v);
    }
    s' := State(t', system);
    StepHolds(x, s, m, s');
  }

  /**
    From every state of every session, the session can run to its end, and then every command of
    the client's stream is in the log.
   */
  lemma {:induction false} SessionCanFinish(x: Session, s: State) returns (moves: seq<Move<Command>>, s': State)
    requires SessionInv(x, s)
    ensures Leads(x, s, moves, s') && SessionInv(x, s') && s'.threads.matcher.Exited?
    ensures StripCommands(s'.threads.processed) == Frames(x.stream).0
    decreases Unread(x, s.threads), ClientLeft(s.threads), Unpopped(s.threads), MatcherLeft(s.threads)
  {
    var t := s.threads;
    assert |StripCommands(t.accepted)| == |t.accepted|;
    if !Accepting(x, t) && !ClientCanMove(t) && t.matcher.Exited? {
      moves, s' := [], s;
      ProcessedFromStream(x, t);
    } else {
      var m, s1;
      if Accepting(x, t) {
        m, s1 := AcceptMove(x, s);
      } else {
        var t';
        if ClientCanMove(t) {
          m, t' := ClientMoves(t);
        } else {
          m, t' := MatcherMoves(t);
        }
        s1 := LiftMove(x, s, m, t');
      }
      var rest;
      rest, s' := SessionCanFinish(x, s1);
      moves := [m] + rest;
      LeadsFirst(x, s, m, s1, rest, s');
    }
  }
}
