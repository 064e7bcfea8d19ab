/**
  The two threads of src/gateway.rs around the ring: the client thread accepts commands,
  pushes each one until there is room, and raises the shutdown flag when the stream ends;
  the matching thread pops and processes, looks at the flag when the ring seems empty, and
  drains the ring once more before it exits.

  The flag is stored with release and loaded with acquire: a load may miss a recent store,
  and a load that sees it also sees every push before it.
 */
module Pipeline {
  import opened Rings

  datatype ClientPc<T> = Reading | Pushing(v: T) | Closing | Closed

  datatype MatcherPc<T> = Popping(draining: bool) | Got(v: T, draining: bool) | CheckFlag | Exited

  /** `flagPos` is how many values had been pushed when the flag was raised; the program does not keep it. */
  datatype Threads<T> = Threads(
    ring: Ring<T>, client: ClientPc<T>, matcher: MatcherPc<T>, flag: bool, flagPos: nat,
    accepted: seq<T>, processed: seq<T>)

  datatype Move<T> =
    | Accept(v: T)
    | ClientStep(a: Action<T>)
    | EndOfStream
    | RaiseFlag
    | MatcherStep(a: Action<T>)
    | Process
    | LoadFlag(seen: bool)

  ghost predicate Init<T(!new)>(s: Threads<T>) {
    Rings.Init(s.ring) && s == Threads(s.ring, Reading, Popping(false), false, 0, [], [])
  }

  predicate ByProducer<T>(a: Action<T>) { a.PushStart? || a.PushReload? || a.PushWrite? || a.PushStore? }

  predicate ByConsumer<T>(a: Action<T>) { a.PopStart? || a.PopReload? || a.PopRead? || a.PopStore? }

  ghost predicate Next<T(!new)>(s: Threads<T>, m: Move<T>, s': Threads<T>) {
    match m
    case Accept(v) =>
      s.client.Reading? && s' == s.(client := Pushing(v), accepted := s.accepted + [v])
    case ClientStep(a) =>
      && s.client.Pushing? && ByProducer(a) && (a.PushStart? ==> a.v == s.client.v)
      && Rings.Next(s.ring, a, s'.ring)
      && s' == s.(ring := s'.ring, client := if a.PushStore? then Reading else s.client)
    case EndOfStream =>
      s.client.Reading? && s' == s.(client := Closing)
    case RaiseFlag =>
      && (s.client.Closing? || s.client.Closed?)
      && s' == s.(client := Closed, flag := true, flagPos := |s.ring.h.pushed|)
    case MatcherStep(a) =>
      && s.matcher.Popping? && ByConsumer(a) && Rings.Next(s.ring, a, s'.ring)
      && s' == s.(ring := s'.ring, matcher :=
           if a.PopStore? && s.ring.c.pc.CStore? then Got(s.ring.c.pc.v, s.matcher.draining)
           else if a.PopReload? && s'.ring.c.pc.CIdle? then (if s.matcher.draining then Exited else CheckFlag)
           else s.matcher)
    case Process =>
      && s.matcher.Got?
      && s' == s.(matcher := Popping(s.matcher.draining), processed := s.processed + [s.matcher.v])
    case LoadFlag(seen) =>
      && s.matcher.CheckFlag? && (seen ==> s.flag)
      && if !seen then s' == s.(matcher := Popping(false))
         else
           var floor := if s.ring.h.headFloor >= s.flagPos then s.ring.h.headFloor else s.flagPos;
           && Rings.Next(s.ring, Synchronise(floor), s'.ring)
           && s' == s.(ring := s'.ring, matcher := Popping(true))
  }

  /** The client has pushed everything it accepted, except the command it is pushing. */
  ghost predicate ClientInv<T>(s: Threads<T>) {
    match s.client
    case Pushing(v) =>
      && s.accepted == s.ring.h.pushed + [v]
      && s.ring.p.pc in {PIdle, PReload(v), PWrite(v), PStore(v)}
    case _ => s.accepted == s.ring.h.pushed && s.ring.p.pc.PIdle?
  }

  /** The matcher has processed everything it popped, except the command it holds. */
  ghost predicate MatcherInv<T>(s: Threads<T>) {
    && (match s.matcher
        case Popping(_) => s.processed == s.ring.h.popped
        case Got(v, _) => s.processed + [v] == s.ring.h.popped && s.ring.c.pc.CIdle?
        case CheckFlag => s.processed == s.ring.h.popped && s.ring.c.pc.CIdle?
        case Exited => s.processed == s.ring.h.popped == s.ring.h.pushed && s.flag)
    && (Draining(s) ==> s.flag && s.ring.h.headFloor == |s.ring.h.pushed|)
  }

  predicate Draining<T>(s: Threads<T>) {
    (s.matcher.Popping? && s.matcher.draining) || (s.matcher.Got? && s.matcher.draining)
  }

  /** Once the flag is up nothing more is pushed. */
  ghost predicate FlagInv<T>(s: Threads<T>) {
    (s.flag <==> s.client.Closed?) && (s.flag ==> s.flagPos == |s.ring.h.pushed|)
  }

  ghost predicate PipelineInv<T>(s: Threads<T>) {
    RingInv(s.ring) && ClientInv(s) && MatcherInv(s) && FlagInv(s)
  }

  lemma InitHolds<T(!new)>(s: Threads<T>)
    requires Init(s)
    ensures PipelineInv(s)
  {
  }

  lemma ClientHolds<T(!new)>(s: Threads<T>, a: Action<T>, s': Threads<T>)
    requires PipelineInv(s) && Next(s, ClientStep(a), s')
    ensures PipelineInv(s')
  {
    NextHolds(s.ring, a, s'.ring);
  }

  lemma MatcherHolds<T(!new)>(s: Threads<T>, a: Action<T>, s': Threads<T>)
    requires PipelineInv(s) && Next(s, MatcherStep(a), s')
    ensures PipelineInv(s')
  {
    NextHolds(s.ring, a, s'.ring);
    if a.PopReload? {
      EmptyMeansEmpty(s.ring, a.headPos, s'.ring);
      if s'.ring.c.pc.CIdle? && s.matcher.draining {
        assert s.ring.h.popped == s.ring.h.pushed[..|s.ring.h.pushed|];
      }
    }
  }

  lemma OwnHolds<T(!new)>(s: Threads<T>, m: Move<T>, s': Threads<T>)
    requires PipelineInv(s) && Next(s, m, s') && !m.ClientStep? && !m.MatcherStep?
    ensures PipelineInv(s')
  {
    if m.LoadFlag? && m.seen {
      var floor := if s.ring.h.headFloor >= s.flagPos then s.ring.h.headFloor else s.flagPos;
      NextHolds(s.ring, Synchronise(floor), s'.ring);
    }
  }

  lemma StepHolds<T(!new)>(s: Threads<T>, m: Move<T>, s': Threads<T>)
    requires PipelineInv(s) && Next(s, m, s')
    ensures PipelineInv(s')
  {
    match m
    case ClientStep(a) => ClientHolds(s, a, s');
    case MatcherStep(a) => MatcherHolds(s, a, s');
    case _ => OwnHolds(s, m, s');
  }

  ghost predicate IsRun<T(!new)>(states: seq<Threads<T>>, moves: seq<Move<T>>) {
    && |states| == |moves| + 1 && Init(states[0])
    && forall i :: 0 <= i < |moves| ==> Next(states[i], moves[i], states[i + 1])
  }

  lemma {:induction false} EveryRunHolds<T(!new)>(states: seq<Threads<T>>, moves: seq<Move<T>>, n: nat)
    requires IsRun(states, moves) && n < |states|
    ensures PipelineInv(states[n])
  {
    if n == 0 {
      InitHolds(states[0]);
    } else {
      EveryRunHolds(states, moves, n - 1);
      StepHolds(states[n - 1], moves[n - 1], states[n]);
    }
  }

  /**
    In every interleaving, commands are processed once each in the order they were accepted,
    and the matching thread exits only after the client closed and every command was processed.
   */
  lemma NothingLost<T(!new)>(states: seq<Threads<T>>, moves: seq<Move<T>>, n: nat)
    requires IsRun(states, moves) && n < |states|
    ensures states[n].processed <= states[n].accepted
    ensures states[n].matcher.Exited? ==>
      && states[n].client.Closed? && states[n].processed == states[n].accepted
      && states[n].ring.h.popped == states[n].ring.h.pushed
  {
    EveryRunHolds(states, moves, n);
    var s := states[n];
    assert s.ring.h.popped == s.ring.h.pushed[..|s.ring.h.popped|];
  }

  // ----- The pipeline can always finish

  ghost predicate Leads<T(!new)>(s: Threads<T>, moves: seq<Move<T>>, s': Threads<T>)
    decreases |moves|
  {
    if moves == [] then s == s'
    else exists s1 :: Next(s, moves[0], s1) && Leads(s1, moves[1..], s')
  }

  lemma LeadsFirst<T(!new)>(s: Threads<T>, m: Move<T>, s1: Threads<T>, moves: seq<Move<T>>, s': Threads<T>)
    requires Next(s, m, s1) && Leads(s1, moves, s')
    ensures Leads(s, [m] + moves, s')
  {
    assert ([m] + moves)[1..] == moves;
  }

  /** How far the client is from having closed, if it accepts nothing more. */
  function ClientLeft<T>(s: Threads<T>): nat {
    match s.client
    case Pushing(_) =>
      (match s.ring.p.pc case PIdle => 7 case PReload(_) => 6 case PWrite(_) => 5 case PStore(_) => 4)
    case Reading => 2
    case Closing => 1
    case Closed => 0
  }

  /** How many values the matching thread has yet to pop. */
  function Unpopped<T>(s: Threads<T>): nat
    requires RingInv(s.ring)
  {
    |s.ring.Queue()|
  }

  function PopRank<T>(pc: ConsumerPc<T>): nat {
    match pc case CIdle => 4 case CReload => 3 case CRead => 2 case CStore(_) => 1
  }

  /** How far the matching thread is from its next pop, or from exiting. */
  function MatcherLeft<T>(s: Threads<T>): nat {
    match s.matcher
    case Exited => 0
    case Popping(draining) => PopRank(s.ring.c.pc) + (if draining then 0 else 10)
    case Got(_, draining) => 5 + (if draining then 0 else 10)
    case CheckFlag => if s.flag then 8 else 20
  }

  /** The client has something to do, and room to do it. */
  ghost predicate ClientCanMove<T>(s: Threads<T>)
    requires RingInv(s.ring)
  {
    match s.client
    case Pushing(_) => |s.ring.Queue()| < s.ring.Capacity() || s.ring.p.pc.PWrite? || s.ring.p.pc.PStore?
    case Reading => true
    case Closing => true
    case Closed => false
  }

  lemma ClientMoves<T(!new)>(s: Threads<T>) returns (m: Move<T>, s': Threads<T>)
    requires PipelineInv(s) && ClientCanMove(s)
    ensures Next(s, m, s') && PipelineInv(s') && s'.accepted == s.accepted && ClientLeft(s') < ClientLeft(s)
    ensures m.EndOfStream? || m.RaiseFlag? || m.ClientStep?
  {
    match s.client {
      case Reading => m, s' := EndOfStream, s.(client := Closing);
      case Closing => m, s' := RaiseFlag, s.(client := Closed, flag := true, flagPos := |s.ring.h.pushed|);
      case Pushing(v) =>
        PushTurns(s.ring, v);
        var (a, ring) := PushTurn(s.ring, v);
        m, s' := ClientStep(a), s.(ring := ring, client := if a.PushStore? then Reading else s.client);
    }
    StepHolds(s, m, s');
  }

  /** Otherwise the matching thread gets nearer to its next pop, or to exiting once the client closed. */
  lemma MatcherMoves<T(!new)>(s: Threads<T>) returns (m: Move<T>, s': Threads<T>)
    requires PipelineInv(s) && !ClientCanMove(s) && !s.matcher.Exited?
    ensures Next(s, m, s') && PipelineInv(s') && s'.accepted == s.accepted && ClientLeft(s') == ClientLeft(s)
    ensures m.Process? || m.MatcherStep? || m.LoadFlag?
    ensures Unpopped(s') < Unpopped(s) || (Unpopped(s') == Unpopped(s) && MatcherLeft(s') < MatcherLeft(s))
  {
    match s.matcher {
      case Got(v, draining) => m, s' := Process, s.(matcher := Popping(draining), processed := s.processed + [v]);
      case CheckFlag => m, s' := FlagMove(s);
      case Popping(_) => m, s' := PopMove(s);
    }
    StepHolds(s, m, s');
  }

  lemma PopMove<T(!new)>(s: Threads<T>) returns (m: Move<T>, s': Threads<T>)
    requires PipelineInv(s) && s.matcher.Popping? && !ClientCanMove(s)
    ensures Next(s, m, s') && m.MatcherStep? && RingInv(s'.ring) && s'.accepted == s.accepted
    ensures s'.client == s.client && s'.ring.p.pc == s.ring.p.pc
    ensures Unpopped(s') < Unpopped(s) || (Unpopped(s') == Unpopped(s) && MatcherLeft(s') < MatcherLeft(s))
  {
    var draining := s.matcher.draining;
    PopTurns(s.ring);
    var (a, ring) := PopTurn(s.ring);
    m, s' := MatcherStep(a), s.(ring := ring, matcher :=
      if a.PopStore? then Got(s.ring.c.pc.v, draining)
      else if a.PopReload? && ring.c.pc.CIdle? then (if draining then Exited else CheckFlag)
      else s.matcher);
    assert s.ring.Queue() == [] ==> s.client.Closed?;
  }

  lemma FlagMove<T(!new)>(s: Threads<T>) returns (m: Move<T>, s': Threads<T>)
    requires PipelineInv(s) && s.matcher.CheckFlag?
    ensures Next(s, m, s') && m.LoadFlag?
    ensures s'.accepted == s.accepted && s'.client == s.client && s'.ring.p == s.ring.p
    ensures s'.ring.h.pushed == s.ring.h.pushed && s'.ring.h.popped == s.ring.h.popped
    ensures MatcherLeft(s') < MatcherLeft(s)
  {
    if s.flag {
      var ring := s.ring.(h := s.ring.h.(headFloor := s.flagPos));
      m, s' := LoadFlag(true), s.(ring := ring, matcher := Popping(true));
    } else {
      m, s' := LoadFlag(false), s.(matcher := Popping(false));
    }
  }

  /**
    Nothing can get stuck: from every state that can be reached, the threads can run to the end
    without accepting another command, and every command accepted so far has then been processed.
   */
  lemma {:induction false} CanFinish<T(!new)>(s: Threads<T>) returns (moves: seq<Move<T>>, s': Threads<T>)
    requires PipelineInv(s)
    ensures Leads(s, moves, s') && PipelineInv(s') && s'.matcher.Exited?
    ensures s'.client.Closed? && s'.processed == s'.accepted == s.accepted
    decreases ClientLeft(s), Unpopped(s), MatcherLeft(s)
  {
    if s.matcher.Exited? && !ClientCanMove(s) {
      moves, s' := [], s;
    } else {
      var m, s1;
      if ClientCanMove(s) {
        m, s1 := ClientMoves(s);
      } else {
        m, s1 := MatcherMoves(s);
      }
      var rest;
      rest, s' := CanFinish(s1);
      moves := [m] + rest;
      LeadsFirst(s, m, s1, rest, s');
    }
  }
}
