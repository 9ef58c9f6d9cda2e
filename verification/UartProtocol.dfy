/** The NS16550 channel as a transition system: the interrupt service routine, the
    deferred-job worker, the callers of the driver and the chip take atomic steps over
    one shared state.  Every step is one spinlock-protected section of the driver, one
    callback, or one event of the chip. */
module UartProtocol {
  import opened Values

  /** The defined bits of the interrupt enable register: received data, holding register
      empty, line status, modem status. */
  datatype Ier = Ier(rx: bool, tx: bool, elsi: bool, emsi: bool)

  /** The register byte; the masks are RxFIFO_BIT, TxFIFO_BIT, IER_ELSI and IER_EMSI. */
  function IerOfByte(b: bv8): Ier {
    Ier(b & 0x01 != 0, b & 0x02 != 0, b & 0x04 != 0, b & 0x08 != 0)
  }

  /** Setting and clearing one field is the driver's masking of the byte. */
  lemma MasksAreFields(b: bv8)
    ensures IerOfByte(b | 0x01) == IerOfByte(b).(rx := true)
    ensures IerOfByte(b | 0x02) == IerOfByte(b).(tx := true)
    ensures IerOfByte(b | 0x08) == IerOfByte(b).(emsi := true)
    ensures IerOfByte(b & !0x01) == IerOfByte(b).(rx := false)
    ensures IerOfByte(b & !0x02) == IerOfByte(b).(tx := false)
    ensures IerOfByte(b & !0x08) == IerOfByte(b).(emsi := false)
  {
  }

  predicate Within(a: Ier, b: Ier) {
    (a.rx ==> b.rx) && (a.tx ==> b.tx) && (a.elsi ==> b.elsi) && (a.emsi ==> b.emsi)
  }

  /** The modem status bits the driver reads: CTS and its change flag. */
  datatype Msr = Msr(dcts: bool, cts: bool)

  datatype Mode = Undefined | Poll | Interrupt

  /** The hardware options that reach the interrupt protocol. */
  datatype Options = Options(clocal: bool, cread: bool)

  datatype Job = ReadJob | WriteJob

  /** What the interrupt identification register reports. */
  datatype Source = LineStatus | DataReady | ThrEmpty | ModemStatus

  datatype IsrPc = IsrIdle | Posting(job: Job)

  /** Where the worker is: taken but not entered (WrEntry), about to look at the line status
      again (WrCheck), about to ask for the i-th character of a burst, about to write it. */
  datatype WorkerPc =
    | Idle
    | WrEntry
    | WrCheck
    | WrPull(i: nat)
    | WrPut(j: nat, c: byte)
    | RdPoll
    | RdDeliver(r: byte)

  /** Transmit side: `source` is what getTxChar will still hand out; the first `armed` bytes of
      it were followed by a start-up call in interrupt mode.  `queued`, `pulled`, `written` and
      `wire` are histories. */
  datatype TxSide = TxSide(source: seq<byte>, armed: nat, fifo: seq<byte>,
                           queued: seq<byte>, pulled: seq<byte>, written: seq<byte>, wire: seq<byte>)

  /** Receive side: `arrived`, `read` and `delivered` are histories. */
  datatype RxSide = RxSide(fifo: seq<byte>, arrived: seq<byte>, read: seq<byte>, delivered: seq<byte>)

  datatype State = State(
    ier: Ier, hwIer: Ier, txDefer: bool, mode: Mode, options: Options,
    isr: IsrPc, queue: seq<Job>, worker: WorkerPc, tx: TxSide, rx: RxSide)

  /** Constants of one channel. */
  datatype Config = Config(ierInit: Ier, fifoSize: nat)
  {
    predicate Ok() {
      !ierInit.rx && !ierInit.tx && !ierInit.emsi && fifoSize >= 1
    }
  }

  // ----- Sections of the driver -----

  /** The ISR's section for one reported source. */
  function IsrSection(s: State, src: Source, msr: Msr): State {
    match src
    case LineStatus => s.(hwIer := s.ier)
    case DataReady =>
      var ier := s.ier.(rx := false);
      s.(ier := ier, hwIer := ier, isr := Posting(ReadJob))
    case ThrEmpty =>
      var ier := s.ier.(tx := false);
      if s.txDefer then s.(ier := ier, hwIer := ier)
      else s.(ier := ier, hwIer := ier, txDefer := true, isr := Posting(WriteJob))
    case ModemStatus =>
      var ier := if !msr.dcts then s.ier
                 else if msr.cts then s.ier.(tx := true)
                 else s.ier.(tx := false);
      s.(ier := ier, hwIer := ier)
  }

  /** One look of the write job at the line status: start a burst when the holding register is
      empty, otherwise re-enable the transmit interrupt and finish. */
  function WrLook(s: State): State {
    if s.tx.fifo == [] then s.(worker := WrPull(0))
    else
      var ier := s.ier.(tx := true);
      s.(ier := ier, hwIer := ier, worker := Idle)
  }

  /** getTxChar: the next byte of the source, or the end of the write job. */
  function WrAsk(s: State, i: nat): State {
    if s.tx.source == [] then s.(worker := Idle)
    else
      var c := s.tx.source[0];
      s.(worker := WrPut(i, c),
         tx := s.tx.(source := s.tx.source[1..],
                     armed := if s.tx.armed > 0 then s.tx.armed - 1 else 0,
                     pulled := s.tx.pulled + [c]))
  }

  function WrSend(cfg: Config, s: State, i: nat, c: byte): State {
    s.(worker := if i + 1 < cfg.fifoSize then WrPull(i + 1) else WrCheck,
       tx := s.tx.(fifo := s.tx.fifo + [c], written := s.tx.written + [c]))
  }

  /** One poll of the read job: take a byte, or re-enable the receive interrupt and finish. */
  function RdLook(s: State): State {
    if s.rx.fifo != [] then
      s.(worker := RdDeliver(s.rx.fifo[0]),
         rx := s.rx.(fifo := s.rx.fifo[1..], read := s.rx.read + [s.rx.fifo[0]]))
    else
      var ier := s.ier.(rx := true);
      s.(ier := ier, hwIer := ier, worker := Idle)
  }

  function WorkerSection(cfg: Config, s: State): State
    requires s.worker != Idle
  {
    match s.worker
    case WrEntry => WrLook(s.(txDefer := false))
    case WrCheck => WrLook(s)
    case WrPull(i) => WrAsk(s, i)
    case WrPut(i, c) => WrSend(cfg, s, i, c)
    case RdPoll => RdLook(s)
    case RdDeliver(c) => s.(worker := RdPoll, rx := s.rx.(delivered := s.rx.delivered + [c]))
  }

  /** The start-up call: only interrupt mode enables anything. */
  function StartupSection(s: State, cts: bool): State {
    if s.mode != Interrupt then s
    else
      var ier :=
        if s.options.clocal || cts then (if s.txDefer then s.ier else s.ier.(tx := true))
        else s.ier.(tx := false);
      s.(ier := ier, hwIer := ier, tx := s.tx.(armed := |s.tx.source|))
  }

  /** Mode setting.  Under CLOCAL the hardware register alone receives the Rx and Tx bits. */
  function ModeSection(cfg: Config, s: State, mode: Mode, cts: bool): State {
    if mode != Interrupt then s.(hwIer := cfg.ierInit, mode := mode)
    else if s.options.clocal then s.(hwIer := s.ier.(rx := true, tx := true), mode := mode)
    else
      var ier := if cts then s.ier.(tx := true) else s.ier.(tx := false);
      s.(ier := ier, hwIer := ier, mode := mode)
  }

  /** Without CLOCAL the modem status interrupt replaces the transmit interrupt; CREAD enables the
      receive interrupt. */
  function OptsIer(ier: Ier, o: Options): Ier {
    Ier(o.cread, o.clocal && ier.tx, ier.elsi, !o.clocal)
  }

  /** Option setting: resets both FIFOs and reprograms the interrupt enables. */
  function OptsSection(cfg: Config, s: State, o: Options): State {
    var ier := OptsIer(s.ier, o);
    s.(ier := ier, hwIer := if s.mode == Interrupt then ier else cfg.ierInit, options := o,
       tx := s.tx.(fifo := []), rx := s.rx.(fifo := []))
  }

  // ----- The transition system -----

  datatype Event =
    | Raise(src: Source, msr: Msr)
    | PostJob
    | TakeJob
    | Work
    | Enqueue(c: byte)
    | TxStartup(cts: bool)
    | ModeSet(mode: Mode, mcts: bool)
    | OptsSet(o: Options)
    | Arrive(b: byte)
    | Drain

  /** The chip raises only what the hardware register enables. */
  predicate CanRaise(s: State, src: Source) {
    match src
    case LineStatus => s.hwIer.elsi
    case DataReady => s.hwIer.rx
    case ThrEmpty => s.hwIer.tx
    case ModemStatus => s.hwIer.emsi
  }

  predicate Enabled(s: State, e: Event) {
    match e
    case Raise(src, _) => s.isr == IsrIdle && CanRaise(s, src)
    case PostJob => s.isr.Posting?
    case TakeJob => s.worker == Idle && s.queue != []
    case Work => s.worker != Idle
    case ModeSet(mode, _) => mode != Undefined
    case Drain => s.tx.fifo != []
    case _ => true
  }

  function Step(cfg: Config, s: State, e: Event): State
    requires Enabled(s, e)
  {
    match e
    case Raise(src, msr) => IsrSection(s, src, msr)
    case PostJob => s.(queue := s.queue + [s.isr.job], isr := IsrIdle)
    case TakeJob =>
      s.(queue := s.queue[1..], worker := if s.queue[0] == WriteJob then WrEntry else RdPoll)
    case Work => WorkerSection(cfg, s)
    case Enqueue(c) =>
      s.(tx := s.tx.(source := s.tx.source + [c], queued := s.tx.queued + [c]))
    case TxStartup(cts) => StartupSection(s, cts)
    case ModeSet(mode, cts) => ModeSection(cfg, s, mode, cts)
    case OptsSet(o) => OptsSection(cfg, s, o)
    case Arrive(b) =>
      s.(rx := s.rx.(fifo := s.rx.fifo + [b], arrived := s.rx.arrived + [b]))
    case Drain =>
      s.(tx := s.tx.(fifo := s.tx.fifo[1..], wire := s.tx.wire + [s.tx.fifo[0]]))
  }

  /** After the driver has set a channel up (default options, both FIFOs reset). */
  predicate Init(cfg: Config, s: State) {
    && s.ier.rx && !s.ier.emsi && s.hwIer == cfg.ierInit
    && !s.txDefer && s.mode == Undefined && s.options == Options(true, true)
    && s.isr == IsrIdle && s.queue == [] && s.worker == Idle
    && s.tx == TxSide([], 0, [], [], [], [], [])
    && s.rx == RxSide([], [], [], [])
  }

  // ----- Runs -----

  /** What the other threads and the line refrain from.  Clear: from looking at CTS while it is off,
      unless CLOCAL says not to look, and from giving CLOCAL up while characters wait.  Steady: also
      from giving up CREAD, from leaving interrupt mode, and from setting options, or interrupt mode
      under CLOCAL, while the Rx bit is clear in the shadow.  Careful: also from setting options at
      all, which resets the FIFOs.  Polled: from setting interrupt mode. */
  datatype Policy = Anything | Clear | Steady | Careful | Polled

  predicate ClearToSend(s: State, e: Event) {
    match e
    case Raise(ModemStatus, msr) => s.options.clocal || !msr.dcts || msr.cts
    case TxStartup(cts) => s.options.clocal || cts
    case ModeSet(mode, cts) => mode != Interrupt || s.options.clocal || cts
    case OptsSet(o) => o.clocal || s.tx.armed == 0
    case _ => true
  }

  predicate KeepsReading(s: State, e: Event) {
    match e
    case ModeSet(mode, _) => mode == Interrupt && (s.options.clocal ==> s.ier.rx)
    case OptsSet(o) => o.cread && s.ier.rx
    case _ => true
  }

  predicate Allowed(p: Policy, s: State, e: Event) {
    match p
    case Anything => true
    case Clear => ClearToSend(s, e)
    case Steady => ClearToSend(s, e) && KeepsReading(s, e)
    case Careful => ClearToSend(s, e) && KeepsReading(s, e) && !e.OptsSet?
    case Polled => !(e.ModeSet? && e.mode == Interrupt)
  }

  predicate May(p: Policy, s: State, e: Event) { Enabled(s, e) && Allowed(p, s, e) }

  /** The events `es` can happen one after the other from `s`, and the policy allows them. */
  predicate Feasible(cfg: Config, p: Policy, s: State, es: seq<Event>)
    decreases |es|
  {
    es == [] || (May(p, s, es[0]) && Feasible(cfg, p, Step(cfg, s, es[0]), es[1..]))
  }

  function After(cfg: Config, p: Policy, s: State, es: seq<Event>): State
    requires Feasible(cfg, p, s, es)
    decreases |es|
  {
    if es == [] then s else After(cfg, p, Step(cfg, s, es[0]), es[1..])
  }

  ghost predicate Reaches(cfg: Config, p: Policy, s: State, t: State) {
    exists es :: Feasible(cfg, p, s, es) && After(cfg, p, s, es) == t
  }

  lemma {:induction false} RunsCompose(cfg: Config, p: Policy, s: State, es: seq<Event>, fs: seq<Event>)
    requires Feasible(cfg, p, s, es) && Feasible(cfg, p, After(cfg, p, s, es), fs)
    ensures Feasible(cfg, p, s, es + fs)
    ensures After(cfg, p, s, es + fs) == After(cfg, p, After(cfg, p, s, es), fs)
    decreases |es|
  {
    if es == [] {
      assert es + fs == fs;
    } else {
      assert (es + fs)[0] == es[0] && (es + fs)[1..] == es[1..] + fs;
      RunsCompose(cfg, p, Step(cfg, s, es[0]), es[1..], fs);
    }
  }

  lemma ReachesTransitive(cfg: Config, p: Policy, s: State, t: State, u: State)
    requires Reaches(cfg, p, s, t) && Reaches(cfg, p, t, u)
    ensures Reaches(cfg, p, s, u)
  {
    var es :| Feasible(cfg, p, s, es) && After(cfg, p, s, es) == t;
    var fs :| Feasible(cfg, p, t, fs) && After(cfg, p, t, fs) == u;
    RunsCompose(cfg, p, s, es, fs);
  }

  lemma ReachesByStep(cfg: Config, p: Policy, s: State, t: State, e: Event)
    requires Reaches(cfg, p, s, t) && May(p, t, e)
    ensures Reaches(cfg, p, s, Step(cfg, t, e))
  {
    var u := Step(cfg, t, e);
    assert [e][1..] == [] && Feasible(cfg, p, u, []) && After(cfg, p, u, []) == u;
    assert Feasible(cfg, p, t, [e]) && After(cfg, p, t, [e]) == u;
    ReachesTransitive(cfg, p, s, t, u);
  }

  lemma ReachesSelf(cfg: Config, p: Policy, s: State)
    ensures Reaches(cfg, p, s, s)
  {
    assert Feasible(cfg, p, s, []) && After(cfg, p, s, []) == s;
  }
}
