/** When the channel is quiet: in poll mode, without CTS, without CREAD; and what the sections do to the
    interrupt enables apart from that. */
module UartQuiet {
  import opened UartProtocol
  import opened UartSafety

  // ----- Poll mode -----

  /** Interrupts stay off as long as nobody sets interrupt mode. */
  ghost predicate StaysSilent(cfg: Config, s: State) {
    forall t :: Reaches(cfg, Polled, s, t) ==> Silent(cfg, t)
  }

  /** The register is as initialised, and the chip can raise none of the data and modem interrupts. */
  predicate Silent(cfg: Config, s: State) {
    && s.hwIer == cfg.ierInit
    && !CanRaise(s, DataReady) && !CanRaise(s, ThrEmpty) && !CanRaise(s, ModemStatus)
  }

  /** No interrupt being served, no job queued, no job running. */
  predicate NothingDeferred(s: State) {
    s.isr == IsrIdle && s.queue == [] && s.worker == Idle
  }

  predicate PollInv(cfg: Config, s: State) {
    NothingDeferred(s) && s.mode == Poll && s.hwIer == cfg.ierInit
  }

  lemma PollStep(cfg: Config, s: State, e: Event)
    requires cfg.Ok() && !cfg.ierInit.elsi && PollInv(cfg, s) && May(Polled, s, e)
    ensures PollInv(cfg, Step(cfg, s, e)) && !e.Raise?
  {
  }

  lemma {:induction false} PollRun(cfg: Config, s: State, es: seq<Event>)
    requires cfg.Ok() && !cfg.ierInit.elsi && PollInv(cfg, s) && Feasible(cfg, Polled, s, es)
    ensures PollInv(cfg, After(cfg, Polled, s, es)) && forall i :: 0 <= i < |es| ==> !es[i].Raise?
    decreases |es|
  {
    if es != [] {
      PollStep(cfg, s, es[0]);
      PollRun(cfg, Step(cfg, s, es[0]), es[1..]);
      assert forall i :: 1 <= i < |es| ==> es[i] == es[1..][i - 1];
    }
  }

  /** Right after the call the register is silent in every state. */
  lemma PollSilencesAtOnce(cfg: Config, s: State, cts: bool)
    requires cfg.Ok()
    ensures Silent(cfg, ModeSection(cfg, s, Poll, cts)) && ModeSection(cfg, s, Poll, cts).mode == Poll
  {
  }

  /** Poll mode keeps the interrupts off, whatever happens but the setting of interrupt mode, if and only
      if nothing was deferred when it was set: a job that is still to end enables its interrupt again. */
  lemma PollSilencesExactly(cfg: Config, s: State, cts: bool)
    requires cfg.Ok() && !cfg.ierInit.elsi
    ensures StaysSilent(cfg, ModeSection(cfg, s, Poll, cts)) <==> NothingDeferred(s)
  {
    var t := ModeSection(cfg, s, Poll, cts);
    if NothingDeferred(s) {
      forall u | Reaches(cfg, Polled, t, u) ensures Silent(cfg, u) {
        var es :| Feasible(cfg, Polled, t, es) && After(cfg, Polled, t, es) == u;
        PollRun(cfg, t, es);
      }
    } else {
      ReachesSelf(cfg, Polled, t);
      var u := WorkerEnds(cfg, t, t);
    }
  }

  /** And no interrupt is ever raised in it. */
  lemma PollModeRaisesNothing(cfg: Config, s: State, cts: bool, es: seq<Event>)
    requires cfg.Ok() && !cfg.ierInit.elsi && NothingDeferred(s)
    requires Feasible(cfg, Polled, ModeSection(cfg, s, Poll, cts), es)
    ensures forall i :: 0 <= i < |es| ==> !es[i].Raise?
  {
    PollRun(cfg, ModeSection(cfg, s, Poll, cts), es);
  }

  lemma Next(cfg: Config, s: State, t: State, e: Event) returns (u: State)
    requires Reaches(cfg, Polled, s, t) && May(Polled, t, e)
    ensures u == Step(cfg, t, e) && Reaches(cfg, Polled, s, u)
  {
    ReachesByStep(cfg, Polled, s, t, e);
    u := Step(cfg, t, e);
  }

  /** Deferred work can go on to a state in which an interrupt is enabled. */
  lemma WorkerEnds(cfg: Config, s: State, t: State) returns (u: State)
    requires cfg.Ok() && Reaches(cfg, Polled, s, t) && !NothingDeferred(t)
    ensures Reaches(cfg, Polled, s, u) && !Silent(cfg, u)
  {
    u := t;
    if u.worker == Idle {
      if u.isr.Posting? {
        u := Next(cfg, s, u, PostJob);
      }
      u := Next(cfg, s, u, TakeJob);
    }
    u := JobEnds(cfg, s, u);
  }

  lemma JobEnds(cfg: Config, s: State, t: State) returns (u: State)
    requires cfg.Ok() && Reaches(cfg, Polled, s, t) && t.worker != Idle
    ensures Reaches(cfg, Polled, s, u) && !Silent(cfg, u)
  {
    if t.worker == RdPoll || t.worker.RdDeliver? {
      u := ReadEnds(cfg, s, t);
    } else if t.worker.WrPut? {
      u := Next(cfg, s, t, Work);
      u := BurstEnds(cfg, s, u);
    } else if t.worker.WrPull? {
      u := BurstEnds(cfg, s, t);
    } else {
      u := LookEnds(cfg, s, t);
    }
  }

  /** The read job, once the FIFO is empty, which setting options brings about. */
  lemma ReadEnds(cfg: Config, s: State, t: State) returns (u: State)
    requires cfg.Ok() && Reaches(cfg, Polled, s, t) && (t.worker == RdPoll || t.worker.RdDeliver?)
    ensures Reaches(cfg, Polled, s, u) && !Silent(cfg, u)
  {
    u := t;
    if u.worker.RdDeliver? {
      u := Next(cfg, s, u, Work);
    }
    u := Next(cfg, s, u, OptsSet(u.options));
    u := Next(cfg, s, u, Work);
  }

  /** The write job at its look at the line status. */
  lemma LookEnds(cfg: Config, s: State, t: State) returns (u: State)
    requires cfg.Ok() && Reaches(cfg, Polled, s, t) && (t.worker == WrEntry || t.worker == WrCheck)
    ensures Reaches(cfg, Polled, s, u) && !Silent(cfg, u)
  {
    u := Next(cfg, s, t, Work);
    if t.tx.fifo == [] {
      u := BurstEnds(cfg, s, u);
    }
  }

  /** A burst that never runs out of characters, and the look that follows it. */
  lemma BurstEnds(cfg: Config, s: State, t: State) returns (u: State)
    requires cfg.Ok() && Reaches(cfg, Polled, s, t)
    requires t.worker.WrPull? || (t.worker == WrCheck && t.tx.fifo != [])
    ensures Reaches(cfg, Polled, s, u) && !Silent(cfg, u)
    decreases if t.worker.WrPull? then 1 + (if t.worker.i < cfg.fifoSize then cfg.fifoSize - t.worker.i else 0) else 0
  {
    if t.worker.WrPull? {
      u := Next(cfg, s, t, Enqueue(0));
      u := Next(cfg, s, u, Work);
      u := Next(cfg, s, u, Work);
      u := BurstEnds(cfg, s, u);
    } else {
      u := Next(cfg, s, t, Work);
    }
  }

  // ----- Without CTS -----

  /** Transmission is stopped: no CLOCAL, no write job, no transmit interrupt. */
  predicate Stopped(s: State) {
    !s.options.clocal && !s.ier.tx && !s.hwIer.tx && PendingWrites(s) == 0 && !WriteRunning(s)
  }

  /** CTS stays off wherever it is looked at, and CLOCAL stays off. */
  predicate NoCts(e: Event) {
    match e
    case Raise(ModemStatus, msr) => !msr.cts
    case TxStartup(cts) => !cts
    case ModeSet(_, cts) => !cts
    case OptsSet(o) => !o.clocal
    case _ => true
  }

  lemma StoppedQueue(cfg: Config, s: State, e: Event)
    requires Stopped(s) && Enabled(s, e) && (e.PostJob? || e.TakeJob?)
    ensures Stopped(Step(cfg, s, e)) && Step(cfg, s, e).tx.written == s.tx.written
  {
    QueueEnds(s.queue, if e.PostJob? then s.isr.job else ReadJob);
  }

  lemma StoppedStep(cfg: Config, s: State, e: Event)
    requires cfg.Ok() && Stopped(s) && Enabled(s, e) && NoCts(e)
    ensures Stopped(Step(cfg, s, e)) && Step(cfg, s, e).tx.written == s.tx.written
  {
    if e.PostJob? || e.TakeJob? {
      StoppedQueue(cfg, s, e);
    }
  }

  /** Once stopped, nothing is transmitted until CTS comes back, announced or not. */
  lemma {:induction false} StoppedTransmitsNothing(cfg: Config, s: State, es: seq<Event>)
    requires cfg.Ok() && Stopped(s) && Feasible(cfg, Anything, s, es)
    requires forall i :: 0 <= i < |es| ==> NoCts(es[i])
    ensures Stopped(After(cfg, Anything, s, es)) && After(cfg, Anything, s, es).tx.written == s.tx.written
    decreases |es|
  {
    if es != [] {
      StoppedStep(cfg, s, es[0]);
      assert forall i :: 0 <= i < |es[1..]| ==> es[1..][i] == es[i + 1];
      StoppedTransmitsNothing(cfg, Step(cfg, s, es[0]), es[1..]);
    }
  }

  /** What stops it, with no write job about: the start-up call or the setting of interrupt mode with CTS
      off, the interrupt that reports the change, and the loss of CLOCAL. */
  lemma CtsOffStops(cfg: Config, s: State, e: Event)
    requires cfg.Ok() && Enabled(s, e) && PendingWrites(s) == 0 && !WriteRunning(s) && NoCts(e)
    requires match e
      case TxStartup(_) => s.mode == Interrupt && !s.options.clocal
      case ModeSet(mode, _) => mode == Interrupt && !s.options.clocal
      case Raise(src, msr) => src == ModemStatus && msr.dcts && !s.options.clocal
      case OptsSet(_) => true
      case _ => false
    ensures Stopped(Step(cfg, s, e))
  {
  }

  /** And the interrupt that reports CTS enables transmission again. */
  lemma CtsOnStarts(cfg: Config, s: State, msr: Msr)
    requires s.isr == IsrIdle && CanRaise(s, ModemStatus) && msr.dcts && msr.cts
    ensures var t := Step(cfg, s, Raise(ModemStatus, msr)); t.ier.tx && t.hwIer.tx
  {
  }

  /** A stopped channel in interrupt mode listens for that interrupt. */
  lemma StoppedListens(cfg: Config, s: State)
    requires ClearInv(cfg, s) && s.mode == Interrupt && !s.options.clocal
    ensures CanRaise(s, ModemStatus)
  {
  }

  // ----- Without CREAD -----

  /** Reception is off: no read job, no receive interrupt. */
  predicate Deaf(s: State) {
    !s.ier.rx && !s.hwIer.rx && OutstandingReads(s) == 0
  }

  /** Nobody asks for reception: no CREAD, and no setting of interrupt mode under CLOCAL, which enables it
      in the chip whatever the options. */
  predicate NoReading(s: State, e: Event) {
    (e.OptsSet? ==> !e.o.cread) && (e.ModeSet? && e.mode == Interrupt ==> !s.options.clocal)
  }

  predicate DeafRun(cfg: Config, s: State, es: seq<Event>)
    requires Feasible(cfg, Anything, s, es)
    decreases |es|
  {
    es == [] || (NoReading(s, es[0]) && DeafRun(cfg, Step(cfg, s, es[0]), es[1..]))
  }

  lemma DeafQueue(cfg: Config, s: State, e: Event)
    requires Deaf(s) && Enabled(s, e) && (e.PostJob? || e.TakeJob?)
    ensures Deaf(Step(cfg, s, e)) && Step(cfg, s, e).rx.read == s.rx.read
  {
    QueueEnds(s.queue, if e.PostJob? then s.isr.job else ReadJob);
  }

  lemma DeafStep(cfg: Config, s: State, e: Event)
    requires cfg.Ok() && Deaf(s) && Enabled(s, e) && NoReading(s, e)
    ensures Deaf(Step(cfg, s, e)) && Step(cfg, s, e).rx.read == s.rx.read
  {
    if e.PostJob? || e.TakeJob? {
      DeafQueue(cfg, s, e);
    }
  }

  /** Without CREAD nothing is read. */
  lemma {:induction false} DeafReadsNothing(cfg: Config, s: State, es: seq<Event>)
    requires cfg.Ok() && Deaf(s) && Feasible(cfg, Anything, s, es) && DeafRun(cfg, s, es)
    ensures After(cfg, Anything, s, es).rx.read == s.rx.read
    decreases |es|
  {
    if es != [] {
      DeafStep(cfg, s, es[0]);
      DeafReadsNothing(cfg, Step(cfg, s, es[0]), es[1..]);
    }
  }

  /** Setting options makes the channel deaf if and only if they leave CREAD out and no read job is
      outstanding; one that is enables reception again when it ends. */
  lemma OptsSetDeafensExactly(cfg: Config, s: State, o: Options)
    requires cfg.Ok()
    ensures Deaf(OptsSection(cfg, s, o)) <==> !o.cread && OutstandingReads(s) == 0
  {
  }

  /** Setting interrupt mode under CLOCAL ends that, with or without CREAD. */
  lemma ModeSetHears(cfg: Config, s: State, cts: bool)
    requires s.options.clocal
    ensures ModeSection(cfg, s, Interrupt, cts).hwIer.rx && !Deaf(ModeSection(cfg, s, Interrupt, cts))
  {
  }

  // ----- The enables, section by section -----

  /** After every look of the ISR that served a source the chip enables what the shadow says. */
  lemma IsrRestoresRegister(cfg: Config, s: State, src: Source, msr: Msr)
    requires s.isr == IsrIdle && CanRaise(s, src)
    ensures var t := Step(cfg, s, Raise(src, msr)); t.hwIer == t.ier
    ensures src == LineStatus ==> Step(cfg, s, Raise(src, msr)).ier == s.ier
  {
  }

  /** Interrupt mode under CLOCAL lets the chip raise both data interrupts at once, and leaves the shadow. */
  lemma ModeSetStartsChip(cfg: Config, s: State, cts: bool)
    requires s.options.clocal
    ensures var t := ModeSection(cfg, s, Interrupt, cts);
      CanRaise(t, DataReady) && CanRaise(t, ThrEmpty) && t.ier == s.ier
  {
  }

  /** While a write job is pending a start-up call enables nothing, as long as CTS is on or not looked at. */
  lemma StartupLeavesPendingJob(cfg: Config, s: State, cts: bool)
    requires DeferInv(s) && PendingWrites(s) > 0 && (s.options.clocal || cts)
    ensures StartupSection(s, cts).ier == s.ier
  {
  }

  /** The same after a start-up call in interrupt mode and after options were set in it. */
  lemma CallersRestoreRegister(cfg: Config, s: State, cts: bool, o: Options)
    requires s.mode == Interrupt
    ensures var t := StartupSection(s, cts); t.hwIer == t.ier
    ensures var t := OptsSection(cfg, s, o); t.hwIer == t.ier
  {
  }

  /** What an event may do to the other enables: nothing to the line status enable, only option setting to
      the modem status enable, only ISR, read job and option setting to the receive enable. */
  predicate EnablesStay(s: State, e: Event, t: Ier) {
    && t.elsi == s.ier.elsi
    && (!e.OptsSet? ==> t.emsi == s.ier.emsi)
    && (!e.OptsSet? && !e.Raise? && !(e.Work? && s.worker == RdPoll) ==> t.rx == s.ier.rx)
  }

  lemma WorkEnablesStay(cfg: Config, s: State)
    requires s.worker != Idle
    ensures EnablesStay(s, Work, WorkerSection(cfg, s).ier)
  {
  }

  lemma OthersEnablesStay(cfg: Config, s: State, e: Event)
    requires Enabled(s, e) && OfOthers(e)
    ensures EnablesStay(s, e, Step(cfg, s, e).ier)
  {
  }

  lemma OtherEnablesStay(cfg: Config, s: State, e: Event)
    requires Enabled(s, e)
    ensures EnablesStay(s, e, Step(cfg, s, e).ier)
  {
    match e
    case Raise(_, _) =>
    case PostJob =>
    case TakeJob =>
    case Work => WorkEnablesStay(cfg, s);
    case _ => OthersEnablesStay(cfg, s, e);
  }

  /** Options in force are those last set; the mode is the one last set. */
  lemma SettingsAreKept(cfg: Config, s: State, e: Event)
    requires Enabled(s, e)
    ensures Step(cfg, s, e).options == if e.OptsSet? then e.o else s.options
    ensures Step(cfg, s, e).mode == if e.ModeSet? then e.mode else s.mode
  {
  }

  /** Setting options loses exactly what the FIFOs hold. */
  lemma OptsSetLosesFifos(cfg: Config, s: State, o: Options)
    requires ConserveInv(s)
    ensures ConserveInv(OptsSection(cfg, s, o)) <==> s.tx.fifo == [] && s.rx.fifo == []
    ensures var t := OptsSection(cfg, s, o); t.rx.fifo == [] && t.tx.fifo == [] && t.rx.read == s.rx.read
  {
  }
}
