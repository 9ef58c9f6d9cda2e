/** The channel always comes to rest, and at rest nothing is left undelivered. */
module UartDelivery {
  import opened UartProtocol
  import opened UartSafety

  /** What goes on without any new request or input: the chip raises the two data interrupts when
      they are enabled and their condition holds, and shifts bytes out; ISR and worker go on. */
  predicate Urgent(s: State, e: Event) {
    Enabled(s, e) &&
    match e
    case Raise(src, _) =>
      (src == ThrEmpty && s.tx.fifo == []) || (src == DataReady && s.rx.fifo != [])
    case PostJob => true
    case TakeJob => true
    case Work => true
    case Drain => true
    case _ => false
  }

  predicate UrgentRun(cfg: Config, s: State, es: seq<Event>)
    decreases |es|
  {
    es == [] || (Urgent(s, es[0]) && UrgentRun(cfg, Step(cfg, s, es[0]), es[1..]))
  }

  /** Nothing urgent is left to do. */
  ghost predicate AtRest(s: State) {
    forall e :: !Urgent(s, e)
  }

  function TxStage(s: State): nat {
    5 * B2N(s.isr == Posting(WriteJob)) + 4 * CountOf(s.queue, WriteJob)
    + match s.worker
      case WrEntry => 3
      case WrCheck => 2
      case WrPull(_) => 1
      case WrPut(_, _) => 9
      case _ => 0
  }

  function TxRank(s: State): nat {
    9 * |s.tx.source| + 6 * |s.tx.fifo| + TxStage(s)
    + if s.hwIer.tx then (if s.tx.fifo == [] then 6 else 1) else 0
  }

  function RxStage(s: State): nat {
    3 * B2N(s.isr == Posting(ReadJob)) + 2 * CountOf(s.queue, ReadJob)
    + match s.worker
      case RdPoll => 1
      case RdDeliver(_) => 2
      case _ => 0
  }

  function RxRank(s: State): nat {
    2 * |s.rx.fifo| + RxStage(s) + if s.hwIer.rx && s.rx.fifo != [] then 4 else 0
  }

  function Rank(s: State): nat { TxRank(s) + RxRank(s) }

  /** A posted job is one stage further, on its own side only. */
  lemma PostTxRank(cfg: Config, s: State)
    requires s.isr.Posting?
    ensures TxRank(Step(cfg, s, PostJob)) == TxRank(s) - B2N(s.isr.job == WriteJob)
  {
    QueueEnds(s.queue, s.isr.job);
  }

  lemma PostRxRank(cfg: Config, s: State)
    requires s.isr.Posting?
    ensures RxRank(Step(cfg, s, PostJob)) == RxRank(s) - B2N(s.isr.job == ReadJob)
  {
    QueueEnds(s.queue, s.isr.job);
  }

  lemma PostRankDrops(cfg: Config, s: State)
    requires s.isr.Posting?
    ensures Rank(Step(cfg, s, PostJob)) < Rank(s)
  {
    PostTxRank(cfg, s);
    PostRxRank(cfg, s);
  }

  lemma TakeRankDrops(cfg: Config, s: State)
    requires s.worker == Idle && s.queue != []
    ensures Rank(Step(cfg, s, TakeJob)) < Rank(s)
  {
    TakeTxRank(cfg, s);
    TakeRxRank(cfg, s);
  }

  /** A job taken is one stage further, on its own side only. */
  lemma TakeTxRank(cfg: Config, s: State)
    requires s.worker == Idle && s.queue != []
    ensures TxRank(Step(cfg, s, TakeJob)) == TxRank(s) - B2N(s.queue[0] == WriteJob)
  {
    QueueEnds(s.queue, ReadJob);
  }

  lemma TakeRxRank(cfg: Config, s: State)
    requires s.worker == Idle && s.queue != []
    ensures RxRank(Step(cfg, s, TakeJob)) == RxRank(s) - B2N(s.queue[0] == ReadJob)
  {
    QueueEnds(s.queue, ReadJob);
  }

  lemma LookTxRank(s: State)
    requires s.worker == WrEntry || s.worker == WrCheck
    ensures TxRank(WrLook(s)) < TxRank(s)
  {
  }

  /** A look of the write job leaves the receive side alone when the registers agree on it. */
  lemma LookRxRank(s: State)
    requires s.worker == WrEntry || s.worker == WrCheck
    requires s.hwIer.rx == s.ier.rx
    ensures RxRank(WrLook(s)) == RxRank(s)
  {
  }

  lemma LookRankDrops(cfg: Config, s: State)
    requires s.worker == WrEntry || s.worker == WrCheck
    requires s.hwIer.rx == s.ier.rx
    ensures Rank(WorkerSection(cfg, s)) < Rank(s)
  {
    var t := if s.worker == WrEntry then s.(txDefer := false) else s;
    LookTxRank(t);
    LookRxRank(t);
  }

  lemma BurstRankDrops(cfg: Config, s: State)
    requires s.worker.WrPull? || s.worker.WrPut?
    ensures Rank(WorkerSection(cfg, s)) < Rank(s)
  {
  }

  lemma ReadRankDrops(cfg: Config, s: State)
    requires s.worker == RdPoll || s.worker.RdDeliver?
    requires s.ier.tx ==> s.hwIer.tx
    ensures Rank(WorkerSection(cfg, s)) < Rank(s)
  {
  }

  lemma RaiseRankDrops(cfg: Config, s: State, e: Event)
    requires CarefulInv(cfg, s) && Urgent(s, e) && e.Raise?
    ensures Rank(Step(cfg, s, e)) < Rank(s)
  {
  }

  lemma RankDrops(cfg: Config, s: State, e: Event)
    requires CarefulInv(cfg, s) && Urgent(s, e)
    ensures Rank(Step(cfg, s, e)) < Rank(s)
  {
    match e
    case Raise(src, msr) => RaiseRankDrops(cfg, s, e);
    case PostJob => PostRankDrops(cfg, s);
    case TakeJob => TakeRankDrops(cfg, s);
    case Work =>
      if s.worker == RdPoll || s.worker.RdDeliver? {
        ReadRankDrops(cfg, s);
      } else if s.worker == WrEntry || s.worker == WrCheck {
        LookRankDrops(cfg, s);
      } else {
        BurstRankDrops(cfg, s);
      }
    case _ =>
  }

  /** Once input stops, every schedule of what is left ends after at most Rank(s) steps. */
  lemma {:induction false} AlwaysComesToRest(cfg: Config, s: State, es: seq<Event>)
    requires cfg.Ok() && CarefulInv(cfg, s) && UrgentRun(cfg, s, es)
    ensures Feasible(cfg, Careful, s, es) && |es| <= Rank(s)
    ensures CarefulInv(cfg, After(cfg, Careful, s, es))
    decreases |es|
  {
    if es == [] {
    } else {
      RankDrops(cfg, s, es[0]);
      CarefulStep(cfg, s, es[0]);
      AlwaysComesToRest(cfg, Step(cfg, s, es[0]), es[1..]);
    }
  }

  /** Nothing new comes in meanwhile, and characters all announced stay so. */
  predicate AddsNothing(s: State, t: State) {
    && t.tx.queued == s.tx.queued && t.rx.arrived == s.rx.arrived
    && (s.tx.armed == |s.tx.source| ==> t.tx.armed == |t.tx.source|)
  }

  lemma {:induction false} UrgentRunAddsNothing(cfg: Config, s: State, es: seq<Event>)
    requires cfg.Ok() && CarefulInv(cfg, s) && UrgentRun(cfg, s, es) && Feasible(cfg, Careful, s, es)
    ensures AddsNothing(s, After(cfg, Careful, s, es))
    decreases |es|
  {
    if es == [] {
    } else {
      UrgentAddsNothing(cfg, s, es[0]);
      CarefulStep(cfg, s, es[0]);
      UrgentRunAddsNothing(cfg, Step(cfg, s, es[0]), es[1..]);
    }
  }

  lemma UrgentAddsNothing(cfg: Config, s: State, e: Event)
    requires Urgent(s, e) && FlowInv(cfg, s)
    ensures AddsNothing(s, Step(cfg, s, e))
  {
  }

  /** At rest every byte that came in has been delivered, the transmitter is empty, and only
      bytes never announced by a start-up call remain with the upper layer. */
  lemma RestMeansDelivered(cfg: Config, s: State)
    requires CarefulInv(cfg, s) && AtRest(s)
    ensures s.rx.delivered == s.rx.arrived
    ensures s.tx.armed == 0 && s.tx.queued == s.tx.wire + s.tx.source
  {
    assert !Urgent(s, PostJob) && !Urgent(s, TakeJob) && !Urgent(s, Work) && !Urgent(s, Drain);
    assert !Urgent(s, Raise(ThrEmpty, Msr(false, false)));
    assert !Urgent(s, Raise(DataReady, Msr(false, false)));
    assert s.queue == [] && s.tx.fifo == [];
  }

  /** Total delivery: from any state reached in interrupt mode by a careful run, in which all
      queued bytes were announced, every schedule of the remaining work is finite and, when it
      cannot be extended, has sent exactly the queued bytes and delivered exactly the arrived
      ones, in order. */
  lemma EverythingDelivered(cfg: Config, s0: State, before: seq<Event>, es: seq<Event>)
    requires cfg.Ok() && Started(cfg, s0) && Feasible(cfg, Careful, s0, before)
    requires var s := After(cfg, Careful, s0, before); s.tx.armed == |s.tx.source| && UrgentRun(cfg, s, es)
    ensures var s := After(cfg, Careful, s0, before);
      && |es| <= Rank(s) && Feasible(cfg, Careful, s, es)
      && var t := After(cfg, Careful, s, es);
        AtRest(t) ==> t.tx.wire == s.tx.queued && t.rx.delivered == s.rx.arrived
  {
    StartedInv(cfg, s0);
    EveryRun(cfg, Careful, s0, before);
    var s := After(cfg, Careful, s0, before);
    AlwaysComesToRest(cfg, s, es);
    UrgentRunAddsNothing(cfg, s, es);
    var t := After(cfg, Careful, s, es);
    if AtRest(t) {
      RestMeansDelivered(cfg, t);
      assert t.tx.source == [];
    }
  }

  /** And rest is always within reach. */
  lemma {:induction false} RestIsReachable(cfg: Config, s: State) returns (es: seq<Event>)
    requires cfg.Ok() && CarefulInv(cfg, s)
    ensures UrgentRun(cfg, s, es) && Feasible(cfg, Careful, s, es) && AtRest(After(cfg, Careful, s, es))
    decreases Rank(s)
  {
    if AtRest(s) {
      es := [];
    } else {
      var e :| Urgent(s, e);
      RankDrops(cfg, s, e);
      CarefulStep(cfg, s, e);
      var rest := RestIsReachable(cfg, Step(cfg, s, e));
      UrgentFirst(cfg, s, e, rest);
      es := [e] + rest;
    }
  }

  lemma UrgentFirst(cfg: Config, s: State, e: Event, rest: seq<Event>)
    requires Urgent(s, e) && UrgentRun(cfg, Step(cfg, s, e), rest) && Feasible(cfg, Careful, Step(cfg, s, e), rest)
    ensures UrgentRun(cfg, s, [e] + rest) && Feasible(cfg, Careful, s, [e] + rest)
    ensures After(cfg, Careful, s, [e] + rest) == After(cfg, Careful, Step(cfg, s, e), rest)
  {
    assert ([e] + rest)[1..] == rest;
  }
}
