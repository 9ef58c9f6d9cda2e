/** The driver routines over one channel record, with its spinlock, while the other threads and
    the chip run in between.  Every execution of a routine is a run of the transition system, the
    lock is left as it was found, and nothing that may block is called with it held. */
module UartChannel {
  import opened Values
  import opened UartProtocol
  import opened UartSafety

  datatype Actor = Isr | Worker

  predicate By(a: Actor, e: Event) {
    match a
    case Isr => e.Raise? || e.PostJob?
    case Worker => e.TakeJob? || e.Work?
  }

  /** An actor's program counter is moved by its own events only, and only the worker transmits. */
  lemma OthersKeepPc(cfg: Config, s: State, e: Event)
    requires Enabled(s, e)
    ensures !By(Isr, e) ==> Step(cfg, s, e).isr == s.isr
    ensures !By(Worker, e) ==> Step(cfg, s, e).worker == s.worker && Step(cfg, s, e).tx.written == s.tx.written
  {
  }

  /** The interrupt identification register reports an enabled source, or none; the modem status is
      one the policy admits. */
  predicate CanReport(p: Policy, s: State, iir: Option<Source>, msr: Msr) {
    iir.Some? ==> CanRaise(s, iir.value) && Allowed(p, s, Raise(iir.value, msr))
  }

  /** After the ISR's section for what the register reported. */
  function Looked(s: State, iir: Option<Source>, msr: Msr): State {
    if iir.Some? then IsrSection(s, iir.value, msr) else s
  }

  lemma LookReaches(cfg: Config, p: Policy, s: State, iir: Option<Source>, msr: Msr)
    requires s.isr == IsrIdle && CanReport(p, s, iir, msr)
    ensures Reaches(cfg, p, s, Looked(s, iir, msr))
  {
    ReachesSelf(cfg, p, s);
    if iir.Some? {
      ReachesByStep(cfg, p, s, s, Raise(iir.value, msr));
    }
  }

  /** Iterations of the ISR on a channel that is not on PCI. */
  const INT_COUNT: nat := 2

  class Channel {
    const cfg: Config
    /** What the other threads and the line refrain from. */
    const policy: Policy
    /** Whether a core can tell that it holds the lock; in a uniprocessor build, and before the lock
        is in use, the test says no. */
    const heldTest: bool

    // The driver's record
    var ier: Ier
    var txDefer: bool
    var channelMode: Mode
    var options: Options
    var locked: bool

    // The chip's register, and the byte streams on both sides of the chip
    var ierReg: Ier
    var tx: TxSide
    var rx: RxSide

    // Deferred work, and where ISR and worker stand
    var queue: seq<Job>
    var isr: IsrPc
    var worker: WorkerPc

    /** What the other threads and the chip will still do, in order. */
    var env: seq<Event>

    constructor (cfg: Config, policy: Policy, heldTest: bool, s: State, env: seq<Event>)
      ensures this.cfg == cfg && this.policy == policy && this.heldTest == heldTest
      ensures Abs() == s && !locked && this.env == env
    {
      this.cfg, this.policy, this.heldTest := cfg, policy, heldTest;
      ier, ierReg, txDefer, channelMode, options := s.ier, s.hwIer, s.txDefer, s.mode, s.options;
      isr, queue, worker, tx, rx := s.isr, s.queue, s.worker, s.tx, s.rx;
      this.env := env;
      locked := false;
    }

    function Abs(): State
      reads this
    {
      State(ier, ierReg, txDefer, channelMode, options, isr, queue, worker, tx, rx)
    }

    method Take()
      requires !locked
      modifies this`locked
      ensures locked
    {
      locked := true;
    }

    method Give()
      requires locked
      modifies this`locked
      ensures !locked
    {
      locked := false;
    }

    method Become(s: State)
      modifies this
      ensures Abs() == s && locked == old(locked) && env == old(env)
    {
      ier, ierReg, txDefer, channelMode, options := s.ier, s.hwIer, s.txDefer, s.mode, s.options;
      isr, queue, worker, tx, rx := s.isr, s.queue, s.worker, s.tx, s.rx;
    }

    /** Any number of steps of everybody but `a`, as far as the policy allows them.  Only with the
        lock free. */
    method Interfere(a: Actor)
      requires !locked
      modifies this
      ensures !locked && Reaches(cfg, policy, old(Abs()), Abs())
      ensures |env| <= |old(env)| && (|env| == |old(env)| ==> Abs() == old(Abs()))
      ensures a == Isr ==> isr == old(isr)
      ensures a == Worker ==> worker == old(worker) && tx.written == old(tx.written)
    {
      ReachesSelf(cfg, policy, Abs());
      var steps: nat := *;
      while steps > 0 && env != []
        invariant !locked && Reaches(cfg, policy, old(Abs()), Abs())
        invariant |env| <= |old(env)| && (|env| == |old(env)| ==> Abs() == old(Abs()))
        invariant a == Isr ==> isr == old(isr)
        invariant a == Worker ==> worker == old(worker) && tx.written == old(tx.written)
      {
        var e := env[0];
        env := env[1..];
        if May(policy, Abs(), e) && !By(a, e) {
          OthersKeepPc(cfg, Abs(), e);
          ReachesByStep(cfg, policy, old(Abs()), Abs(), e);
          Become(Step(cfg, Abs(), e));
        }
        steps := steps - 1;
      }
    }

    /** Interference in the middle of a run that began in `s`. */
    method InterfereFrom(a: Actor, ghost s: State)
      requires !locked && Reaches(cfg, policy, s, Abs())
      modifies this
      ensures !locked && Reaches(cfg, policy, s, Abs())
      ensures |env| <= |old(env)| && (|env| == |old(env)| ==> Abs() == old(Abs()))
      ensures a == Isr ==> isr == old(isr)
      ensures a == Worker ==> worker == old(worker) && tx.written == old(tx.written)
    {
      Interfere(a);
      ReachesTransitive(cfg, policy, s, old(Abs()), Abs());
    }

    /** Reads the interrupt identification register, and the modem status register with it. */
    method ReadIir() returns (src: Option<Source>, msr: Msr)
      ensures CanReport(policy, Abs(), src, msr)
    {
      src, msr := *, *;
      if !CanReport(policy, Abs(), src, msr) {
        src := None;
      }
    }

    /** isrDeferJobAdd takes a lock of its own, so the channel lock must be free. */
    method DeferJobAdd(job: Job)
      requires !locked && isr == Posting(job)
      modifies this`queue, this`isr
      ensures Abs() == Step(cfg, old(Abs()), PostJob)
    {
      queue := queue + [job];
      isr := IsrIdle;
    }

    /** ns16550vxbInt: look at the chip INT_COUNT times; `iir` and `msr` are what the first look
        reads. */
    method Int(iir: Option<Source>, msr: Msr)
      requires !locked && isr == IsrIdle && CanReport(policy, Abs(), iir, msr)
      modifies this
      ensures !locked && isr == IsrIdle && Reaches(cfg, policy, Looked(old(Abs()), iir, msr), Abs())
      ensures Kept(cfg, policy, old(Abs()), Abs())
    {
      LookReaches(cfg, policy, Abs(), iir, msr);
      var count, src, modem := INT_COUNT, iir, msr;
      ghost var first := Looked(Abs(), iir, msr);
      while count > 0
        invariant !locked && isr == IsrIdle && CanReport(policy, Abs(), src, modem)
        invariant if count == INT_COUNT then Looked(Abs(), src, modem) == first else Reaches(cfg, policy, first, Abs())
      {
        ghost var s := Abs();
        IntOnce(src, modem);
        if count < INT_COUNT {
          LookReaches(cfg, policy, s, src, modem);
          ReachesTransitive(cfg, policy, first, s, Looked(s, src, modem));
          ReachesTransitive(cfg, policy, first, Looked(s, src, modem), Abs());
        }
        InterfereFrom(Isr, first);
        src, modem := ReadIir();
        count := count - 1;
      }
      ReachesTransitive(cfg, policy, old(Abs()), first, Abs());
      EveryReachable(cfg, policy, old(Abs()), Abs());
    }

    /** One look: under the lock, silence the chip, serve the reported source, restore the
        register from the shadow; a job is posted only after the lock was given back. */
    method IntOnce(iir: Option<Source>, msr: Msr)
      requires !locked && isr == IsrIdle && CanReport(policy, Abs(), iir, msr)
      modifies this
      ensures !locked && isr == IsrIdle && Reaches(cfg, policy, Looked(old(Abs()), iir, msr), Abs())
      ensures iir == None ==> Abs() == old(Abs())
    {
      ghost var s := Looked(Abs(), iir, msr);
      ReachesSelf(cfg, policy, s);
      Take();
      if iir == None {
        Give();
        return;
      }
      ierReg := cfg.ierInit;
      match iir.value {
        case LineStatus =>
        case DataReady =>
          ier := ier.(rx := false);
          ierReg := ier;
          isr := Posting(ReadJob);
          Give();
          PostWithoutLock(ReadJob, s);
          return;
        case ThrEmpty =>
          ier := ier.(tx := false);
          if !txDefer {
            txDefer := true;
            ierReg := ier;
            isr := Posting(WriteJob);
            Give();
            PostWithoutLock(WriteJob, s);
            return;
          }
        case ModemStatus =>
          if msr.dcts {
            if msr.cts {
              ier := ier.(tx := true);
            } else {
              ier := ier.(tx := false);
            }
          }
      }
      ierReg := ier;
      Give();
    }

    /** The tail of the ISR: others run, then the job is added. */
    method PostWithoutLock(job: Job, ghost s: State)
      requires !locked && isr == Posting(job) && Reaches(cfg, policy, s, Abs())
      modifies this
      ensures !locked && isr == IsrIdle && Reaches(cfg, policy, s, Abs())
    {
      InterfereFrom(Isr, s);
      ghost var t := Abs();
      DeferJobAdd(job);
      ReachesByStep(cfg, policy, s, t, PostJob);
    }

    /** getTxChar may block on other locks, so the channel lock must be free. */
    method GetTxChar(i: nat) returns (c: Option<byte>)
      requires !locked && worker == WrPull(i)
      modifies this`tx, this`worker
      ensures Abs() == Step(cfg, old(Abs()), Work)
      ensures c == None <==> old(tx.source) == []
      ensures c.Some? ==> worker == WrPut(i, c.value) && tx.source == old(tx.source[1..])
      ensures c == None ==> worker == Idle
      ensures tx.written == old(tx.written)
    {
      if tx.source == [] {
        worker := Idle;
        return None;
      }
      c := Some(tx.source[0]);
      tx := tx.(source := tx.source[1..], armed := if tx.armed > 0 then tx.armed - 1 else 0,
                pulled := tx.pulled + [c.value]);
      worker := WrPut(i, c.value);
    }

    /** putRcvChar, likewise. */
    method PutRcvChar(c: byte)
      requires !locked && worker == RdDeliver(c)
      modifies this`rx, this`worker
      ensures Abs() == Step(cfg, old(Abs()), Work)
      ensures worker == RdPoll && rx.fifo == old(rx.fifo)
    {
      rx := rx.(delivered := rx.delivered + [c]);
      worker := RdPoll;
    }

    /** The write of one character to the holding register, under the lock. */
    method SendChar(i: nat, c: byte)
      requires !locked && worker == WrPut(i, c)
      modifies this`tx, this`worker, this`locked
      ensures !locked && Abs() == Step(cfg, old(Abs()), Work)
      ensures worker == (if i + 1 < cfg.fifoSize then WrPull(i + 1) else WrCheck)
      ensures tx.source == old(tx.source) && tx.written == old(tx.written) + [c]
    {
      Take();
      tx := tx.(fifo := tx.fifo + [c], written := tx.written + [c]);
      worker := if i + 1 < cfg.fifoSize then WrPull(i + 1) else WrCheck;
      Give();
    }

    /** One character from the source to the holding register; none when the source is dry. */
    method MoveOne(i: nat, ghost s: State) returns (sent: bool)
      requires !locked && worker == WrPull(i) && Reaches(cfg, policy, s, Abs())
      modifies this
      ensures !locked && Reaches(cfg, policy, s, Abs())
      ensures worker == if !sent then Idle else if i + 1 < cfg.fifoSize then WrPull(i + 1) else WrCheck
      ensures old(tx.written) <= tx.written && |tx.written| == |old(tx.written)| + if sent then 1 else 0
      ensures |env| <= |old(env)|
      ensures sent && |env| == |old(env)| ==> |tx.source| + 1 == |old(tx.source)|
    {
      InterfereFrom(Worker, s);
      ghost var t := Abs();
      var c := GetTxChar(i);
      ReachesByStep(cfg, policy, s, t, Work);
      if c == None {
        return false;
      }
      InterfereFrom(Worker, s);
      t := Abs();
      SendChar(i, c.value);
      ReachesByStep(cfg, policy, s, t, Work);
      return true;
    }

    /** A burst transmits as much as the FIFO holds, or less when the source runs dry. */
    predicate Burst(before: seq<byte>, after: seq<byte>, more: bool) {
      && before <= after && |after| <= |before| + cfg.fifoSize
      && (more <==> |after| == |before| + cfg.fifoSize)
    }

    /** The for loop of the write job: up to fifoSize characters, the lock taken for each write
        only.  `more` is false when the source ran dry. */
    method SendBurst() returns (more: bool)
      requires cfg.fifoSize >= 1 && !locked && worker == WrPull(0)
      modifies this
      ensures !locked && Reaches(cfg, policy, old(Abs()), Abs())
      ensures worker == if more then WrCheck else Idle
      ensures Burst(old(tx.written), tx.written, more)
      ensures |env| <= |old(env)|
      ensures more && |env| == |old(env)| ==> |tx.source| < |old(tx.source)|
    {
      ghost var s := Abs();
      ReachesSelf(cfg, policy, s);
      var i := 0;
      while i < cfg.fifoSize
        invariant i <= cfg.fifoSize && !locked && Reaches(cfg, policy, s, Abs())
        invariant worker == if i < cfg.fifoSize then WrPull(i) else WrCheck
        invariant old(tx.written) <= tx.written && |tx.written| == |old(tx.written)| + i
        invariant |env| <= |old(env)|
        invariant |env| == |old(env)| ==> |tx.source| + i == |old(tx.source)|
      {
        var sent := MoveOne(i, s);
        if !sent {
          return false;
        }
        i := i + 1;
      }
      return true;
    }

    /** The end of the write job: re-enable the transmit interrupt before the lock goes back. */
    method FinishWrite()
      requires locked
      modifies this`ier, this`ierReg, this`worker, this`locked
      ensures !locked
      ensures var enabled := old(ier).(tx := true);
        Abs() == old(Abs()).(ier := enabled, hwIer := enabled, worker := Idle)
    {
      ier := ier.(tx := true);
      ierReg := ier;
      worker := Idle;
      Give();
    }

    /** ns16550vxbIntWr2 */
    method IntWr2()
      requires cfg.fifoSize >= 1 && !locked && worker == WrEntry
      modifies this
      ensures !locked && worker == Idle && Reaches(cfg, policy, old(Abs()), Abs())
      ensures Kept(cfg, policy, old(Abs()), Abs())
    {
      ghost var s := Abs();
      ReachesSelf(cfg, policy, s);
      ghost var t := s;
      Take();
      txDefer := false;
      while true
        invariant locked && Reaches(cfg, policy, s, t)
        invariant t.worker == WrEntry || t.worker == WrCheck
        invariant Abs() == if t.worker == WrEntry then t.(txDefer := false) else t
        decreases |env|, |tx.source|
      {
        var thre := tx.fifo == [];
        if !thre {
          FinishWrite();
          ReachesByStep(cfg, policy, s, t, Work);
          EveryReachable(cfg, policy, s, Abs());
          return;
        }
        worker := WrPull(0);
        Give();
        ReachesByStep(cfg, policy, s, t, Work);
        t := Abs();
        var more := SendBurst();
        ReachesTransitive(cfg, policy, s, t, Abs());
        if !more {
          EveryReachable(cfg, policy, s, Abs());
          return;
        }
        InterfereFrom(Worker, s);
        t := Abs();
        Take();
      }
    }

    /** ns16550vxbPollInput, called with the lock held: a byte if the line status shows one. */
    method PollInput() returns (c: Option<byte>)
      requires locked
      modifies this`rx
      ensures c == None <==> old(rx.fifo) == []
      ensures c == None ==> rx == old(rx)
      ensures c.Some? ==> old(rx.fifo) == [c.value] + rx.fifo
      ensures c.Some? ==> rx == old(rx).(fifo := rx.fifo, read := old(rx.read) + [c.value])
    {
      if rx.fifo == [] {
        return None;
      }
      c := Some(rx.fifo[0]);
      rx := rx.(fifo := rx.fifo[1..], read := rx.read + [c.value]);
    }

    /** The end of the read job: re-enable the receive interrupt before the lock goes back. */
    method FinishRead()
      requires locked && worker == RdPoll && rx.fifo == []
      modifies this`ier, this`ierReg, this`worker, this`locked
      ensures !locked && worker == Idle && Abs() == Step(cfg, old(Abs()), Work)
    {
      ier := ier.(rx := true);
      ierReg := ier;
      worker := Idle;
      Give();
    }

    /** One poll of the read job: with a byte the lock is given back, without one it stays taken. */
    method PollOnce(ghost s: State) returns (c: Option<byte>)
      requires !locked && worker == RdPoll && Reaches(cfg, policy, s, Abs())
      modifies this
      ensures Reaches(cfg, policy, s, Abs()) && |env| <= |old(env)|
      ensures c == None ==> locked && worker == RdPoll && rx.fifo == []
      ensures c.Some? ==> !locked && worker == RdDeliver(c.value)
      ensures c.Some? && |env| == |old(env)| ==> |rx.fifo| < |old(rx.fifo)|
    {
      InterfereFrom(Worker, s);
      ghost var t := Abs();
      Take();
      c := PollInput();
      if c.Some? {
        worker := RdDeliver(c.value);
        Give();
        ReachesByStep(cfg, policy, s, t, Work);
      }
    }

    /** ns16550vxbIntRd2 */
    method IntRd2()
      requires !locked && worker == RdPoll
      modifies this
      ensures !locked && worker == Idle && Reaches(cfg, policy, old(Abs()), Abs())
      ensures Kept(cfg, policy, old(Abs()), Abs())
    {
      ghost var s := Abs();
      ReachesSelf(cfg, policy, s);
      while true
        invariant !locked && worker == RdPoll && Reaches(cfg, policy, s, Abs())
        decreases |env|, |rx.fifo|
      {
        var c := PollOnce(s);
        if c == None {
          break;
        }
        DeliverOne(c.value, s);
      }
      ghost var t := Abs();
      FinishRead();
      ReachesByStep(cfg, policy, s, t, Work);
      EveryReachable(cfg, policy, s, Abs());
    }

    /** The byte read is passed on with the lock free. */
    method DeliverOne(c: byte, ghost s: State)
      requires !locked && worker == RdDeliver(c) && Reaches(cfg, policy, s, Abs())
      modifies this
      ensures !locked && worker == RdPoll && Reaches(cfg, policy, s, Abs())
      ensures |env| <= |old(env)| && (|env| == |old(env)| ==> rx.fifo == old(rx.fifo))
    {
      InterfereFrom(Worker, s);
      ghost var t := Abs();
      PutRcvChar(c);
      ReachesByStep(cfg, policy, s, t, Work);
    }

    /** The worker runs the oldest deferred job to its end; others run before it is entered. */
    method RunJob()
      requires cfg.fifoSize >= 1 && !locked && worker == Idle && queue != []
      modifies this
      ensures !locked && worker == Idle && Reaches(cfg, policy, old(Abs()), Abs())
      ensures Kept(cfg, policy, old(Abs()), Abs())
    {
      ghost var s := Abs();
      ReachesSelf(cfg, policy, s);
      var job := queue[0];
      queue := queue[1..];
      worker := if job == WriteJob then WrEntry else RdPoll;
      ReachesByStep(cfg, policy, s, s, TakeJob);
      InterfereFrom(Worker, s);
      ghost var t := Abs();
      if job == WriteJob {
        IntWr2();
      } else {
        IntRd2();
      }
      ReachesTransitive(cfg, policy, s, t, Abs());
      EveryReachable(cfg, policy, s, Abs());
    }

    /** ns16550vxbTxStartup, where the modem status register reads `msr`: the lock is taken unless
        this core already holds it, and is left as it was found.  ENOSYS outside interrupt mode. */
    method TxStartup(msr: Msr) returns (ok: bool)
      requires heldTest || !locked
      modifies this
      ensures locked == old(locked) && env == old(env)
      ensures ok <==> old(channelMode) == Interrupt
      ensures Abs() == StartupSection(old(Abs()), msr.cts)
    {
      var spinLockOwn := heldTest && locked;
      if !spinLockOwn {
        Take();
      }
      ok := channelMode == Interrupt;
      if ok {
        if options.clocal {
          if !txDefer {
            ier := ier.(tx := true);
          }
        } else if msr.cts {
          if !txDefer {
            ier := ier.(tx := true);
          }
        } else {
          ier := ier.(tx := false);
        }
        ierReg := ier;
        tx := tx.(armed := |tx.source|);
      }
      if !spinLockOwn {
        Give();
      }
    }

    /** ns16550vxbModeSet: an unknown mode is refused and nothing changes. */
    method ModeSet(newMode: Mode, msr: Msr) returns (ok: bool)
      requires heldTest || !locked
      modifies this
      ensures locked == old(locked) && env == old(env)
      ensures ok <==> newMode != Undefined
      ensures !ok ==> Abs() == old(Abs())
      ensures ok ==> Abs() == ModeSection(cfg, old(Abs()), newMode, msr.cts)
    {
      if newMode != Poll && newMode != Interrupt {
        return false;
      }
      var spinLockOwn := heldTest && locked;
      if newMode == Interrupt {
        if !spinLockOwn {
          Take();
        }
        if options.clocal {
          var ierLocal := ier.(rx := true, tx := true);
          ierReg := ierLocal;
        } else {
          if msr.cts {
            ier := ier.(tx := true);
          } else {
            ier := ier.(tx := false);
          }
          ierReg := ier;
        }
      } else {
        if !spinLockOwn {
          Take();
        }
        ierReg := cfg.ierInit;
      }
      channelMode := newMode;
      if !spinLockOwn {
        Give();
      }
      return true;
    }

    method ResetFifos()
      requires locked
      modifies this`rx, this`tx
      ensures rx == old(rx).(fifo := []) && tx == old(tx).(fifo := [])
    {
      rx := rx.(fifo := []);
      tx := tx.(fifo := []);
    }

    method SetModemControl(clocal: bool)
      requires locked
      modifies this`ier
      ensures ier == old(ier).(tx := clocal && old(ier.tx), emsi := !clocal)
    {
      if !clocal {
        ier := ier.(tx := false);
        ier := ier.(emsi := true);
      } else {
        ier := ier.(emsi := false);
      }
    }

    method EnableReceiver(cread: bool)
      requires locked
      modifies this`ier, this`ierReg
      ensures ier == old(ier).(rx := cread)
      ensures ierReg == if channelMode == Interrupt then ier else old(ierReg)
    {
      if cread {
        ier := ier.(rx := true);
      } else {
        ier := ier.(rx := false);
      }
      if channelMode == Interrupt {
        ierReg := ier;
      }
    }

    method Reprogram(o: Options)
      requires locked
      modifies this`ier, this`ierReg, this`rx, this`tx
      ensures ier == OptsIer(old(ier), o)
      ensures ierReg == if channelMode == Interrupt then ier else cfg.ierInit
      ensures rx == old(rx).(fifo := []) && tx == old(tx).(fifo := [])
    {
      ierReg := cfg.ierInit;
      SetModemControl(o.clocal);
      ResetFifos();
      EnableReceiver(o.cread);
    }

    /** ns16550vxbOptsSet, its effect on interrupts and FIFOs; options with bits that are not
        defined are refused. */
    method OptsSet(o: Options, undefinedBits: bool) returns (ok: bool)
      requires !locked
      modifies this
      ensures !locked && env == old(env)
      ensures ok <==> !undefinedBits
      ensures ok ==> Abs() == OptsSection(cfg, old(Abs()), o)
      ensures !ok ==> Abs() == old(Abs())
    {
      if undefinedBits {
        return false;
      }
      Take();
      Reprogram(o);
      options := o;
      Give();
      return true;
    }
  }

  /** What the identification register of a channel would read, state by state. */
  type Chip = State -> Option<Source>

  function Report(chip: Chip, p: Policy, s: State, msr: Msr): Option<Source> {
    if CanReport(p, s, chip(s), msr) then chip(s) else None
  }

  /** From `s` to `u`: others ran on the channel, the ISR served what was reported then, others ran. */
  ghost predicate Served(cfg: Config, p: Policy, s: State, u: State, chip: Chip, msr: Msr) {
    exists t :: ServedAt(cfg, p, s, t, u, chip, msr)
  }

  ghost predicate ServedAt(cfg: Config, p: Policy, s: State, t: State, u: State, chip: Chip, msr: Msr) {
    && t.isr == IsrIdle && Reaches(cfg, p, s, t)
    && Reaches(cfg, p, Looked(t, Report(chip, p, t, msr), msr), u)
  }

  lemma ServedKeeps(cfg: Config, p: Policy, s: State, u: State, chip: Chip, msr: Msr)
    requires Served(cfg, p, s, u, chip, msr)
    ensures Kept(cfg, p, s, u)
  {
    var t :| ServedAt(cfg, p, s, t, u, chip, msr);
    var iir := Report(chip, p, t, msr);
    LookReaches(cfg, p, t, iir, msr);
    ReachesTransitive(cfg, p, s, t, Looked(t, iir, msr));
    ReachesTransitive(cfg, p, s, Looked(t, iir, msr), u);
    EveryReachable(cfg, p, s, u);
  }

  lemma ServedOn(cfg: Config, p: Policy, s: State, u: State, v: State, chip: Chip, msr: Msr)
    requires Served(cfg, p, s, u, chip, msr) && Reaches(cfg, p, u, v)
    ensures Served(cfg, p, s, v, chip, msr)
  {
    var t :| ServedAt(cfg, p, s, t, u, chip, msr);
    ReachesTransitive(cfg, p, Looked(t, Report(chip, p, t, msr), msr), u, v);
    assert ServedAt(cfg, p, s, t, v, chip, msr);
  }

  /** How a quiet channel stands: since `start` it was served, or others ran only. */
  ghost predicate Stands(c: Channel, start: State, served: bool, chip: Chip, msr: Msr)
    reads c
  {
    && !c.locked && c.isr == IsrIdle
    && if served then Served(c.cfg, c.policy, start, c.Abs(), chip, msr)
       else Reaches(c.cfg, c.policy, start, c.Abs())
  }

  /** Others run on one channel. */
  method RunOn(c: Channel, ghost start: State, ghost served: bool, ghost chip: Chip, ghost msr: Msr)
    requires Stands(c, start, served, chip, msr)
    modifies c
    ensures Stands(c, start, served, chip, msr)
  {
    ghost var u := c.Abs();
    c.Interfere(Isr);
    if served {
      ServedOn(c.cfg, c.policy, start, u, c.Abs(), chip, msr);
    } else {
      ReachesTransitive(c.cfg, c.policy, start, u, c.Abs());
    }
  }

  method ServeOne(c: Channel, ghost start: State, chip: Chip, msr: Msr)
    requires Stands(c, start, false, chip, msr)
    modifies c
    ensures Stands(c, start, true, chip, msr)
  {
    ghost var t := c.Abs();
    c.IntOnce(Report(chip, c.policy, c.Abs(), msr), msr);
    assert ServedAt(c.cfg, c.policy, start, t, c.Abs(), chip, msr);
  }

  /** ns16550vxbInt for a device on PCI: each channel of the device once, by its list, while others
      go on using all of them. */
  method IntPci(chans: seq<Channel>, chips: seq<Chip>, msrs: seq<Msr>, ghost starts: seq<State>)
    requires |chips| == |chans| && |msrs| == |chans| && |starts| == |chans|
    requires forall i, j :: 0 <= i < j < |chans| ==> chans[i] != chans[j]
    requires forall i :: 0 <= i < |chans| ==>
      !chans[i].locked && chans[i].isr == IsrIdle && chans[i].Abs() == starts[i]
    modifies set c | c in chans
    ensures forall i :: 0 <= i < |chans| ==> Stands(chans[i], starts[i], true, chips[i], msrs[i])
    ensures forall i :: 0 <= i < |chans| ==> Kept(chans[i].cfg, chans[i].policy, starts[i], chans[i].Abs())
  {
    forall i | 0 <= i < |chans| ensures Stands(chans[i], starts[i], false, chips[i], msrs[i]) {
      ReachesSelf(chans[i].cfg, chans[i].policy, starts[i]);
    }
    var n := 0;
    while n < |chans|
      invariant n <= |chans|
      invariant forall i :: 0 <= i < |chans| ==> Stands(chans[i], starts[i], i < n, chips[i], msrs[i])
    {
      var k := 0;
      while k < |chans|
        invariant k <= |chans|
        invariant forall i :: 0 <= i < |chans| ==> Stands(chans[i], starts[i], i < n, chips[i], msrs[i])
      {
        RunOn(chans[k], starts[k], k < n, chips[k], msrs[k]);
        k := k + 1;
      }
      ServeOne(chans[n], starts[n], chips[n], msrs[n]);
      n := n + 1;
    }
    forall i | 0 <= i < |chans| ensures Kept(chans[i].cfg, chans[i].policy, starts[i], chans[i].Abs()) {
      ServedKeeps(chans[i].cfg, chans[i].policy, starts[i], chans[i].Abs(), chips[i], msrs[i]);
    }
  }
}
