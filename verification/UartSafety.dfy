/** What holds in every reachable state of the channel, over all interleavings. */
module UartSafety {
  import opened Values
  import opened UartProtocol

  function B2N(b: bool): nat { if b then 1 else 0 }

  function CountOf(q: seq<Job>, j: Job): nat { multiset(q)[j] }

  /** Write jobs that are being posted, queued, or taken but not yet at the clear. */
  function PendingWrites(s: State): nat {
    B2N(s.isr == Posting(WriteJob)) + CountOf(s.queue, WriteJob) + B2N(s.worker == WrEntry)
  }

  /** Read jobs that are being posted, queued, or running. */
  function OutstandingReads(s: State): nat {
    B2N(s.isr == Posting(ReadJob)) + CountOf(s.queue, ReadJob)
    + B2N(s.worker == RdPoll || s.worker.RdDeliver?)
  }

  predicate WriteRunning(s: State) {
    s.worker == WrCheck || s.worker.WrPull? || s.worker.WrPut?
  }

  lemma QueueEnds(q: seq<Job>, j: Job)
    ensures forall k :: CountOf(q + [j], k) == CountOf(q, k) + B2N(j == k)
    ensures forall k :: q != [] ==> CountOf(q, k) == CountOf(q[1..], k) + B2N(q[0] == k)
  {
    if q != [] {
      assert q == [q[0]] + q[1..];
    }
  }

  // ----- All modes, all options -----

  /** The write job is pending exactly once when txDefer is set and not at all when clear. */
  predicate DeferInv(s: State) {
    PendingWrites(s) == B2N(s.txDefer)
  }

  function TxInFlight(w: WorkerPc): seq<byte> { if w.WrPut? then [w.c] else [] }

  function RxInFlight(w: WorkerPc): seq<byte> { if w.RdDeliver? then [w.r] else [] }

  /** Bytes are handed on once and in order, and a burst never outgrows the FIFO. */
  predicate FlowInv(cfg: Config, s: State) {
    && s.tx.queued == s.tx.pulled + s.tx.source
    && s.tx.pulled == s.tx.written + TxInFlight(s.worker)
    && s.tx.armed <= |s.tx.source|
    && s.rx.read == s.rx.delivered + RxInFlight(s.worker)
    && |s.tx.fifo| <= cfg.fifoSize
    && (s.worker.WrPull? ==> |s.tx.fifo| <= s.worker.i < cfg.fifoSize)
    && (s.worker.WrPut? ==> |s.tx.fifo| <= s.worker.j < cfg.fifoSize)
  }

  /** The caller's own sections, and the chip's. */
  predicate OfOthers(e: Event) {
    e.Enqueue? || e.TxStartup? || e.ModeSet? || e.OptsSet? || e.Arrive? || e.Drain?
  }

  lemma DeferQueue(cfg: Config, s: State, e: Event)
    requires DeferInv(s) && Enabled(s, e) && (e.PostJob? || e.TakeJob?)
    ensures DeferInv(Step(cfg, s, e))
  {
    QueueEnds(s.queue, if e.PostJob? then s.isr.job else ReadJob);
  }

  lemma DeferWork(cfg: Config, s: State)
    requires DeferInv(s) && s.worker != Idle
    ensures DeferInv(WorkerSection(cfg, s))
  {
  }

  lemma DeferOthers(cfg: Config, s: State, e: Event)
    requires DeferInv(s) && Enabled(s, e) && OfOthers(e)
    ensures DeferInv(Step(cfg, s, e))
  {
  }

  lemma DeferStep(cfg: Config, s: State, e: Event)
    requires DeferInv(s) && Enabled(s, e)
    ensures DeferInv(Step(cfg, s, e))
  {
    match e
    case Raise(src, msr) =>
    case PostJob => DeferQueue(cfg, s, e);
    case TakeJob => DeferQueue(cfg, s, e);
    case Work => DeferWork(cfg, s);
    case _ => DeferOthers(cfg, s, e);
  }

  lemma FlowWork(cfg: Config, s: State)
    requires cfg.Ok() && FlowInv(cfg, s) && s.worker != Idle
    ensures FlowInv(cfg, WorkerSection(cfg, s))
  {
    match s.worker
    case WrPull(i) => FlowAsk(cfg, s, i);
    case RdPoll =>
    case _ =>
  }

  lemma FlowAsk(cfg: Config, s: State, i: nat)
    requires FlowInv(cfg, s) && s.worker == WrPull(i)
    ensures FlowInv(cfg, WrAsk(s, i))
  {
    if s.tx.source != [] {
      assert s.tx.source == [s.tx.source[0]] + s.tx.source[1..];
    }
  }

  lemma FlowOthers(cfg: Config, s: State, e: Event)
    requires FlowInv(cfg, s) && Enabled(s, e) && OfOthers(e)
    ensures FlowInv(cfg, Step(cfg, s, e))
  {
  }

  lemma FlowStep(cfg: Config, s: State, e: Event)
    requires cfg.Ok() && FlowInv(cfg, s) && Enabled(s, e)
    ensures FlowInv(cfg, Step(cfg, s, e))
  {
    match e
    case Raise(src, msr) =>
    case PostJob =>
    case TakeJob =>
    case Work => FlowWork(cfg, s);
    case _ => FlowOthers(cfg, s, e);
  }

  // ----- Clear to send, any modes and options -----

  /** In interrupt mode the register enables at least what the shadow says; the modem status interrupt
      is enabled exactly without CLOCAL. */
  predicate RegsInv(s: State) {
    && (s.ier.emsi <==> !s.options.clocal)
    && (s.options.clocal ==> !s.hwIer.emsi)
    && (s.mode == Interrupt ==> Within(s.ier, s.hwIer))
  }

  /** Armed characters still have somebody who will come for them. */
  predicate ArmedInv(s: State) {
    s.tx.armed > 0 ==> PendingWrites(s) > 0 || WriteRunning(s) || s.ier.tx
  }

  lemma RegsWork(cfg: Config, s: State)
    requires RegsInv(s) && s.worker != Idle
    ensures RegsInv(WorkerSection(cfg, s))
  {
  }

  lemma RegsOthers(cfg: Config, s: State, e: Event)
    requires cfg.Ok() && RegsInv(s) && Enabled(s, e) && OfOthers(e) && Allowed(Clear, s, e)
    ensures RegsInv(Step(cfg, s, e))
  {
  }

  lemma RegsStep(cfg: Config, s: State, e: Event)
    requires cfg.Ok() && RegsInv(s) && Enabled(s, e) && Allowed(Clear, s, e)
    ensures RegsInv(Step(cfg, s, e))
  {
    match e
    case Raise(src, msr) =>
    case PostJob =>
    case TakeJob =>
    case Work => RegsWork(cfg, s);
    case _ => RegsOthers(cfg, s, e);
  }

  lemma ArmedQueue(cfg: Config, s: State, e: Event)
    requires ArmedInv(s) && Enabled(s, e) && (e.PostJob? || e.TakeJob?)
    ensures ArmedInv(Step(cfg, s, e))
  {
    QueueEnds(s.queue, if e.PostJob? then s.isr.job else ReadJob);
  }

  lemma ArmedWork(cfg: Config, s: State)
    requires FlowInv(cfg, s) && ArmedInv(s) && s.worker != Idle
    ensures ArmedInv(WorkerSection(cfg, s))
  {
  }

  lemma ArmedOthers(cfg: Config, s: State, e: Event)
    requires DeferInv(s) && ArmedInv(s)
    requires Enabled(s, e) && OfOthers(e) && Allowed(Clear, s, e)
    ensures ArmedInv(Step(cfg, s, e))
  {
  }

  lemma ArmedStep(cfg: Config, s: State, e: Event)
    requires DeferInv(s) && FlowInv(cfg, s) && RegsInv(s) && ArmedInv(s)
    requires Enabled(s, e) && Allowed(Clear, s, e)
    ensures ArmedInv(Step(cfg, s, e))
  {
    match e
    case Raise(src, msr) =>
    case PostJob => ArmedQueue(cfg, s, e);
    case TakeJob => ArmedQueue(cfg, s, e);
    case Work => ArmedWork(cfg, s);
    case _ => ArmedOthers(cfg, s, e);
  }

  // ----- Interrupt mode, set carefully -----

  /** Right after options with CREAD, and then interrupt mode, were set on a fresh channel. */
  ghost predicate Started(cfg: Config, s: State) {
    exists s0, o, cts :: StartedFrom(cfg, s0, o, cts, s)
  }

  predicate StartedFrom(cfg: Config, s0: State, o: Options, cts: bool, s: State) {
    Init(cfg, s0) && o.cread && s == ModeSection(cfg, OptsSection(cfg, s0, o), Interrupt, cts)
  }

  /** Without the option setting the channel has the default options. */
  lemma StartsWithDefaults(cfg: Config, s0: State, cts: bool)
    requires Init(cfg, s0)
    ensures Started(cfg, ModeSection(cfg, s0, Interrupt, cts))
  {
    assert OptsSection(cfg, s0, Options(true, true)) == s0;
    assert StartedFrom(cfg, s0, Options(true, true), cts, ModeSection(cfg, s0, Interrupt, cts));
  }

  /** The receive interrupt is enabled exactly when no read job is outstanding. */
  predicate ReadInv(s: State) {
    && OutstandingReads(s) <= 1
    && (s.ier.rx <==> OutstandingReads(s) == 0)
    && (s.hwIer.rx <==> OutstandingReads(s) == 0)
  }

  /** With no FIFO reset, every byte is somewhere. */
  predicate ConserveInv(s: State) {
    && s.tx.written == s.tx.wire + s.tx.fifo
    && s.rx.arrived == s.rx.read + s.rx.fifo
  }

  predicate SteadyInv(cfg: Config, s: State) {
    ClearInv(cfg, s) && ReadInv(s) && s.mode == Interrupt && s.options.cread
  }

  predicate CarefulInv(cfg: Config, s: State) {
    SteadyInv(cfg, s) && ConserveInv(s)
  }

  lemma ReadQueue(cfg: Config, s: State, e: Event)
    requires ReadInv(s) && Enabled(s, e) && (e.PostJob? || e.TakeJob?)
    ensures ReadInv(Step(cfg, s, e))
  {
    QueueEnds(s.queue, if e.PostJob? then s.isr.job else ReadJob);
  }

  lemma ReadWork(cfg: Config, s: State)
    requires ReadInv(s) && s.worker != Idle
    ensures ReadInv(WorkerSection(cfg, s))
  {
  }

  lemma ReadOthers(cfg: Config, s: State, e: Event)
    requires ReadInv(s) && Enabled(s, e) && OfOthers(e) && Allowed(Steady, s, e)
    requires e.OptsSet? ==> s.mode == Interrupt
    ensures ReadInv(Step(cfg, s, e))
  {
  }

  lemma ReadStep(cfg: Config, s: State, e: Event)
    requires ReadInv(s) && May(Steady, s, e)
    requires e.OptsSet? ==> s.mode == Interrupt
    ensures ReadInv(Step(cfg, s, e))
  {
    match e
    case Raise(src, msr) =>
    case PostJob => ReadQueue(cfg, s, e);
    case TakeJob => ReadQueue(cfg, s, e);
    case Work => ReadWork(cfg, s);
    case _ => ReadOthers(cfg, s, e);
  }

  lemma IsrKeepsBytes(s: State, src: Source, msr: Msr)
    ensures var t := IsrSection(s, src, msr); t.tx == s.tx && t.rx == s.rx
  {
  }

  lemma ConserveWork(cfg: Config, s: State)
    requires ConserveInv(s) && s.worker != Idle
    ensures ConserveInv(WorkerSection(cfg, s))
  {
    if s.worker == RdPoll && s.rx.fifo != [] {
      assert s.rx.fifo == [s.rx.fifo[0]] + s.rx.fifo[1..];
    } else if s.worker.WrPut? {
      assert s.tx.written + [s.worker.c] == s.tx.wire + (s.tx.fifo + [s.worker.c]);
    }
  }

  lemma ConserveOthers(cfg: Config, s: State, e: Event)
    requires ConserveInv(s) && Enabled(s, e) && OfOthers(e) && Allowed(Careful, s, e)
    ensures ConserveInv(Step(cfg, s, e))
  {
    if e.Drain? {
      assert s.tx.fifo == [s.tx.fifo[0]] + s.tx.fifo[1..];
    } else if e.Arrive? {
      assert s.rx.arrived + [e.b] == s.rx.read + (s.rx.fifo + [e.b]);
    }
  }

  lemma ConserveStep(cfg: Config, s: State, e: Event)
    requires ConserveInv(s) && May(Careful, s, e)
    ensures ConserveInv(Step(cfg, s, e))
  {
    match e
    case Raise(src, msr) => IsrKeepsBytes(s, src, msr);
    case PostJob =>
    case TakeJob =>
    case Work => ConserveWork(cfg, s);
    case _ => ConserveOthers(cfg, s, e);
  }

  lemma SettingsStep(cfg: Config, s: State, e: Event)
    requires May(Steady, s, e) && s.mode == Interrupt && s.options.cread
    ensures var t := Step(cfg, s, e); t.mode == Interrupt && t.options.cread
  {
  }

  lemma SteadyStep(cfg: Config, s: State, e: Event)
    requires cfg.Ok() && SteadyInv(cfg, s) && May(Steady, s, e)
    ensures SteadyInv(cfg, Step(cfg, s, e))
  {
    ClearStep(cfg, s, e);
    ReadStep(cfg, s, e);
    SettingsStep(cfg, s, e);
  }

  lemma CarefulStep(cfg: Config, s: State, e: Event)
    requires cfg.Ok() && CarefulInv(cfg, s) && May(Careful, s, e)
    ensures CarefulInv(cfg, Step(cfg, s, e))
  {
    SteadyStep(cfg, s, e);
    ConserveStep(cfg, s, e);
  }

  lemma StartedInv(cfg: Config, s: State)
    requires cfg.Ok() && Started(cfg, s)
    ensures CarefulInv(cfg, s)
  {
    var s0, o, cts :| StartedFrom(cfg, s0, o, cts, s);
  }

  // ----- Every run -----

  predicate BaseInv(cfg: Config, s: State) { DeferInv(s) && FlowInv(cfg, s) }

  predicate ClearInv(cfg: Config, s: State) { BaseInv(cfg, s) && RegsInv(s) && ArmedInv(s) }

  lemma BaseStep(cfg: Config, s: State, e: Event)
    requires cfg.Ok() && BaseInv(cfg, s) && Enabled(s, e)
    ensures BaseInv(cfg, Step(cfg, s, e))
  {
    DeferStep(cfg, s, e);
    FlowStep(cfg, s, e);
  }

  lemma ClearStep(cfg: Config, s: State, e: Event)
    requires cfg.Ok() && ClearInv(cfg, s) && May(Clear, s, e)
    ensures ClearInv(cfg, Step(cfg, s, e))
  {
    BaseStep(cfg, s, e);
    RegsStep(cfg, s, e);
    ArmedStep(cfg, s, e);
  }

  /** What holds in every reachable state, by what the others refrain from. */
  predicate Inv(cfg: Config, p: Policy, s: State) {
    match p
    case Anything => BaseInv(cfg, s)
    case Clear => ClearInv(cfg, s)
    case Steady => SteadyInv(cfg, s)
    case Careful => CarefulInv(cfg, s)
    case Polled => BaseInv(cfg, s)
  }

  lemma InvStep(cfg: Config, p: Policy, s: State, e: Event)
    requires cfg.Ok() && Inv(cfg, p, s) && May(p, s, e)
    ensures Inv(cfg, p, Step(cfg, s, e))
  {
    match p
    case Anything => BaseStep(cfg, s, e);
    case Clear => ClearStep(cfg, s, e);
    case Steady => SteadyStep(cfg, s, e);
    case Careful => CarefulStep(cfg, s, e);
    case Polled => BaseStep(cfg, s, e);
  }

  lemma {:induction false} EveryRun(cfg: Config, p: Policy, s: State, es: seq<Event>)
    requires cfg.Ok() && Inv(cfg, p, s) && Feasible(cfg, p, s, es)
    ensures Inv(cfg, p, After(cfg, p, s, es))
    decreases |es|
  {
    if es == [] {
    } else {
      InvStep(cfg, p, s, es[0]);
      EveryRun(cfg, p, Step(cfg, s, es[0]), es[1..]);
    }
  }

  /** From one state to another the invariants of a policy are kept. */
  ghost predicate Kept(cfg: Config, p: Policy, s: State, t: State) {
    cfg.Ok() && Inv(cfg, p, s) ==> Inv(cfg, p, t)
  }

  /** Reachable states keep them, which is how the routines of the driver relate their states. */
  lemma EveryReachable(cfg: Config, p: Policy, s: State, t: State)
    requires Reaches(cfg, p, s, t)
    ensures Kept(cfg, p, s, t)
  {
    if cfg.Ok() && Inv(cfg, p, s) {
      var es :| Feasible(cfg, p, s, es) && After(cfg, p, s, es) == t;
      EveryRun(cfg, p, s, es);
    }
  }

  lemma InitInv(cfg: Config, s: State)
    requires cfg.Ok() && Init(cfg, s)
    ensures Inv(cfg, Anything, s) && Inv(cfg, Clear, s)
  {
  }

  // ----- What that means -----

  /** In every run from start-up, whatever the modes and options: the write job is never queued
      twice, and txDefer says whether it is pending. */
  lemma WriteJobNeverDoubled(cfg: Config, s: State, es: seq<Event>)
    requires cfg.Ok() && Init(cfg, s) && Feasible(cfg, Anything, s, es)
    ensures var t := After(cfg, Anything, s, es);
      PendingWrites(t) == (if t.txDefer then 1 else 0) && CountOf(t.queue, WriteJob) <= 1
  {
    InitInv(cfg, s);
    EveryRun(cfg, Anything, s, es);
  }

  /** In every run: the bytes written to the holding register are the bytes pulled, in order,
      with at most one between; the bytes read reach the upper layer once each, in order; and
      the transmit FIFO of `fifoSize` bytes never overflows. */
  lemma BytesConserved(cfg: Config, s: State, es: seq<Event>)
    requires cfg.Ok() && Init(cfg, s) && Feasible(cfg, Anything, s, es)
    ensures var t := After(cfg, Anything, s, es);
      && t.tx.written <= t.tx.pulled <= t.tx.queued
      && |t.tx.pulled| <= |t.tx.written| + 1
      && t.rx.delivered <= t.rx.read && |t.rx.read| <= |t.rx.delivered| + 1
      && |t.tx.fifo| <= cfg.fifoSize
  {
    InitInv(cfg, s);
    EveryRun(cfg, Anything, s, es);
  }

  /** Somebody will come for the armed characters. */
  predicate WakeupPending(s: State) {
    s.mode == Interrupt && s.tx.armed > 0 ==>
      || PendingWrites(s) == 1
      || WriteRunning(s)
      || (s.ier.tx && s.hwIer.tx)
  }

  lemma InvWakeup(cfg: Config, p: Policy, s: State)
    requires Inv(cfg, p, s) && p != Anything && p != Polled
    ensures WakeupPending(s)
  {
  }

  /** No lost transmit wake-up: whenever the channel is in interrupt mode, a character that was
      queued before some completed start-up call and is not yet pulled has a write job pending,
      or a write job still pulling, or the Tx bit set in both the shadow and the register. */
  lemma NoLostWakeup(cfg: Config, s: State, es: seq<Event>)
    requires cfg.Ok() && Init(cfg, s) && Feasible(cfg, Clear, s, es)
    ensures WakeupPending(After(cfg, Clear, s, es))
  {
    InitInv(cfg, s);
    EveryRun(cfg, Clear, s, es);
    InvWakeup(cfg, Clear, After(cfg, Clear, s, es));
  }

  lemma ArmedCountsStep(cfg: Config, s: State, e: Event, q: nat)
    requires FlowInv(cfg, s) && Enabled(s, e) && q <= |s.tx.queued| && q <= s.tx.armed + |s.tx.pulled|
    ensures var t := Step(cfg, s, e); q <= |t.tx.queued| && q <= t.tx.armed + |t.tx.pulled|
  {
  }

  /** Characters once announced and not yet pulled stay counted. */
  lemma {:induction false} ArmedCounts(cfg: Config, p: Policy, s: State, es: seq<Event>, q: nat)
    requires cfg.Ok() && BaseInv(cfg, s) && Feasible(cfg, p, s, es)
    requires q <= |s.tx.queued| && q <= s.tx.armed + |s.tx.pulled|
    ensures var t := After(cfg, p, s, es); q <= t.tx.armed + |t.tx.pulled|
    decreases |es|
  {
    if es != [] {
      BaseStep(cfg, s, es[0]);
      ArmedCountsStep(cfg, s, es[0], q);
      ArmedCounts(cfg, p, Step(cfg, s, es[0]), es[1..], q);
    }
  }

  /** The same in terms of a start-up call: after it completed in interrupt mode, and as long as a
      character that was queued by then is not pulled, somebody will come for it. */
  lemma StartupIsNotLost(cfg: Config, s: State, before: seq<Event>, cts: bool, after: seq<Event>)
    requires cfg.Ok() && Init(cfg, s) && Feasible(cfg, Clear, s, before)
    requires var u := After(cfg, Clear, s, before);
      && u.mode == Interrupt && May(Clear, u, TxStartup(cts))
      && Feasible(cfg, Clear, Step(cfg, u, TxStartup(cts)), after)
    ensures var u := After(cfg, Clear, s, before);
      var t := After(cfg, Clear, Step(cfg, u, TxStartup(cts)), after);
      t.mode == Interrupt && |t.tx.pulled| < |u.tx.queued| ==>
        PendingWrites(t) == 1 || WriteRunning(t) || (t.ier.tx && t.hwIer.tx)
  {
    InitInv(cfg, s);
    EveryRun(cfg, Clear, s, before);
    var u := After(cfg, Clear, s, before);
    var v := Step(cfg, u, TxStartup(cts));
    InvStep(cfg, Clear, u, TxStartup(cts));
    EveryRun(cfg, Clear, v, after);
    ArmedCounts(cfg, Clear, v, after, |u.tx.queued|);
    InvWakeup(cfg, Clear, After(cfg, Clear, v, after));
  }

  /** No lost and no doubled receive job in runs that keep CLOCAL, CREAD and interrupt mode and set
      them again with the Rx bit set only: the Rx bit is set in the shadow, and in the register,
      exactly when no read job is outstanding; at most one ever is; at most one job of each kind is
      queued; and every byte read is delivered once and in order, or in the job's hand.  Without
      option settings, which reset the FIFOs, every byte that arrived is read or still there. */
  lemma NoLostOrDoubledRead(cfg: Config, p: Policy, s: State, es: seq<Event>)
    requires cfg.Ok() && Started(cfg, s) && (p == Steady || p == Careful) && Feasible(cfg, p, s, es)
    ensures var t := After(cfg, p, s, es);
      && OutstandingReads(t) <= 1
      && (t.ier.rx <==> OutstandingReads(t) == 0)
      && (t.hwIer.rx <==> t.ier.rx)
      && |t.queue| <= 2
      && t.rx.read == t.rx.delivered + RxInFlight(t.worker)
      && (p == Careful ==> t.rx.arrived == t.rx.read + t.rx.fifo)
  {
    StartedInv(cfg, s);
    EveryRun(cfg, p, s, es);
    QueueLength(After(cfg, p, s, es).queue);
  }

  lemma {:induction false} QueueLength(q: seq<Job>)
    ensures |q| == CountOf(q, ReadJob) + CountOf(q, WriteJob)
  {
    if q == [] {
    } else {
      QueueEnds(q, ReadJob);
      QueueLength(q[1..]);
    }
  }

  // ----- Setting interrupt mode or options again -----

  /** At most one read job is outstanding, and none while the receive interrupt is enabled. */
  predicate OneRead(s: State) {
    OutstandingReads(s) <= 1 && (s.ier.rx || s.hwIer.rx ==> OutstandingReads(s) == 0)
  }

  lemma OneReadQueue(cfg: Config, s: State, e: Event)
    requires OneRead(s) && Enabled(s, e) && (e.PostJob? || e.TakeJob?)
    ensures OneRead(Step(cfg, s, e))
  {
    QueueEnds(s.queue, if e.PostJob? then s.isr.job else ReadJob);
  }

  lemma OneReadWork(cfg: Config, s: State)
    requires OneRead(s) && s.worker != Idle
    ensures OneRead(WorkerSection(cfg, s))
  {
  }

  lemma OneReadOthers(cfg: Config, s: State, e: Event)
    requires OneRead(s) && Enabled(s, e) && OfOthers(e) && Allowed(Steady, s, e)
    ensures OneRead(Step(cfg, s, e))
  {
  }

  lemma OneReadStep(cfg: Config, s: State, e: Event)
    requires OneRead(s) && May(Steady, s, e)
    ensures OneRead(Step(cfg, s, e))
  {
    match e
    case Raise(src, msr) =>
    case PostJob => OneReadQueue(cfg, s, e);
    case TakeJob => OneReadQueue(cfg, s, e);
    case Work => OneReadWork(cfg, s);
    case _ => OneReadOthers(cfg, s, e);
  }

  lemma {:induction false} OneReadRun(cfg: Config, s: State, es: seq<Event>)
    requires OneRead(s) && Feasible(cfg, Steady, s, es)
    ensures OneRead(After(cfg, Steady, s, es))
    decreases |es|
  {
    if es != [] {
      OneReadStep(cfg, s, es[0]);
      OneReadRun(cfg, Step(cfg, s, es[0]), es[1..]);
    }
  }

  /** Two read jobs are never outstanding in what can follow. */
  ghost predicate NeverTwoReads(cfg: Config, s: State) {
    forall t :: Reaches(cfg, Steady, s, t) ==> OutstandingReads(t) <= 1
  }

  lemma OneReadStays(cfg: Config, s: State)
    requires OneRead(s)
    ensures NeverTwoReads(cfg, s)
  {
    forall t | Reaches(cfg, Steady, s, t) ensures OutstandingReads(t) <= 1 {
      var es :| Feasible(cfg, Steady, s, es) && After(cfg, Steady, s, es) == t;
      OneReadRun(cfg, s, es);
    }
  }

  /** With a read job outstanding and the receive interrupt enabled, the next byte brings another. */
  lemma SecondRead(cfg: Config, s: State, b: byte) returns (t: State)
    requires OutstandingReads(s) == 1 && s.hwIer.rx
    ensures Reaches(cfg, Steady, s, t) && OutstandingReads(t) == 2
  {
    ReachesSelf(cfg, Steady, s);
    ReachesByStep(cfg, Steady, s, s, Arrive(b));
    t := Step(cfg, s, Arrive(b));
    if t.isr.Posting? {
      QueueEnds(t.queue, t.isr.job);
      ReachesByStep(cfg, Steady, s, t, PostJob);
      t := Step(cfg, t, PostJob);
    }
    var raise := Raise(DataReady, Msr(false, false));
    ReachesByStep(cfg, Steady, s, t, raise);
    t := Step(cfg, t, raise);
  }

  /** Setting interrupt mode again is safe if and only if CLOCAL is off or the Rx bit is set in the
      shadow; otherwise two outstanding read jobs can follow. */
  lemma ModeSetKeepsReadDiscipline(cfg: Config, s: State, cts: bool)
    requires SteadyInv(cfg, s)
    ensures NeverTwoReads(cfg, ModeSection(cfg, s, Interrupt, cts)) <==> (s.options.clocal ==> s.ier.rx)
  {
    var t := ModeSection(cfg, s, Interrupt, cts);
    if s.options.clocal ==> s.ier.rx {
      OneReadStays(cfg, t);
    } else {
      var u := SecondRead(cfg, t, 0);
    }
  }

  /** Setting options is safe if and only if they leave CREAD out, or the Rx bit is set in the
      shadow. */
  lemma OptsSetKeepsReadDiscipline(cfg: Config, s: State, o: Options)
    requires SteadyInv(cfg, s)
    ensures NeverTwoReads(cfg, OptsSection(cfg, s, o)) <==> (o.cread ==> s.ier.rx)
  {
    var t := OptsSection(cfg, s, o);
    if o.cread ==> s.ier.rx {
      OneReadStays(cfg, t);
    } else {
      var u := SecondRead(cfg, t, 0);
    }
  }

  /** From start-up a second read job can even be queued beside the first, by setting interrupt mode
      again under CLOCAL or by setting the options in force again. */
  lemma SettingCanDoubleReadJob(cfg: Config, s0: State, cts: bool, b: byte, again: Event)
    requires cfg.Ok() && Init(cfg, s0)
    requires again == ModeSet(Interrupt, false) || again == OptsSet(Options(true, true))
    ensures var s := ModeSection(cfg, s0, Interrupt, cts);
      exists t :: Reaches(cfg, Clear, s, t) && t.queue == [ReadJob, ReadJob]
  {
    var s := ModeSection(cfg, s0, Interrupt, cts);
    ReachesSelf(cfg, Clear, s);
    var t := NextReadJob(cfg, s, s, b);
    var u := OneMore(cfg, s, t, again);
    var v := NextReadJob(cfg, s, u, b);
  }

  /** A byte arrives with the receive interrupt enabled: one more read job is queued. */
  lemma NextReadJob(cfg: Config, s: State, t: State, b: byte) returns (u: State)
    requires Reaches(cfg, Clear, s, t) && t.isr == IsrIdle && t.hwIer.rx
    ensures Reaches(cfg, Clear, s, u) && u.isr == IsrIdle && u.queue == t.queue + [ReadJob]
    ensures u.mode == t.mode && u.options == t.options
  {
    var arrived := OneMore(cfg, s, t, Arrive(b));
    var raised := OneMore(cfg, s, arrived, Raise(DataReady, Msr(false, false)));
    u := OneMore(cfg, s, raised, PostJob);
  }

  lemma OneMore(cfg: Config, s: State, t: State, e: Event) returns (u: State)
    requires Reaches(cfg, Clear, s, t) && May(Clear, t, e)
    ensures u == Step(cfg, t, e) && Reaches(cfg, Clear, s, u)
  {
    ReachesByStep(cfg, Clear, s, t, e);
    u := Step(cfg, t, e);
  }
}
