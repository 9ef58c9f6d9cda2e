/** The linked list of bridges, grown through a tail pointer, and the routines that walk it. */
module PciRouter {
  import opened Values
  import opened PciRouting
  import opened PciConfig

  class Node {
    const info: Bridge
    var next: Node?

    constructor (info: Bridge)
      ensures this.info == info && next == null
    {
      this.info := info;
      next := null;
    }
  }

  /** For which functions there is memory for a record, and whether the enumeration stops at the
      first ERROR. */
  datatype Memory = Memory(available: Func -> bool, stops: bool)

  /** The bridges that get into the list. */
  function Found(c: Space, fs: seq<Func>, m: Memory): seq<Bridge> {
    if fs == [] then []
    else if BridgeAt(c, fs[0]) == None || m.available(fs[0]) then BridgesIn(c, [fs[0]]) + Found(c, fs[1..], m)
    else if m.stops then []
    else Found(c, fs[1..], m)
  }

  /** What the next function adds to a list. */
  lemma FoundNext(c: Space, fs: seq<Func>, i: nat, m: Memory, bs: seq<Bridge>)
    requires i < |fs|
    ensures bs + Found(c, fs[i..], m) ==
      if BridgeAt(c, fs[i]) == None || m.available(fs[i])
      then (bs + BridgesIn(c, [fs[i]])) + Found(c, fs[i + 1..], m)
      else if m.stops then bs else bs + Found(c, fs[i + 1..], m)
  {
    assert fs[i..][0] == fs[i] && fs[i..][1..] == fs[i + 1..];
    if BridgeAt(c, fs[i]) == None || m.available(fs[i]) {
      var b, rest := BridgesIn(c, [fs[i]]), Found(c, fs[i + 1..], m);
      assert bs + (b + rest) == (bs + b) + rest;
    } else if m.stops {
      assert bs + [] == bs;
    }
  }

  lemma {:induction false} EnoughMemory(c: Space, fs: seq<Func>, m: Memory)
    requires forall f :: f in fs ==> m.available(f)
    ensures Found(c, fs, m) == BridgesIn(c, fs)
    decreases |fs|
  {
    if fs != [] {
      assert fs == [fs[0]] + fs[1..];
      EnoughMemory(c, fs[1..], m);
      BridgesInJoin(c, [fs[0]], fs[1..]);
    }
  }

  class Router {
    const apics: Apics
    const mp: seq<MpEntry>
    var cfg: Space

    // pPciBridgeList and the static pListPri
    var head: Node?
    var tail: Node?

    /** The nodes in list order. */
    ghost var nodes: seq<Node>
    ghost var repr: set<Node>

    constructor (apics: Apics, mp: seq<MpEntry>, cfg: Space)
      ensures Valid() && fresh(repr) && Contents() == []
      ensures this.apics == apics && this.mp == mp && this.cfg == cfg
    {
      this.apics, this.mp, this.cfg := apics, mp, cfg;
      head, tail, nodes, repr := null, null, [], {};
    }

    ghost predicate Valid()
      reads this, repr
    {
      && (forall i :: 0 <= i < |nodes| ==> nodes[i] in repr)
      && (nodes == [] ==> head == null && tail == null)
      && (nodes != [] ==> head == nodes[0] && tail == nodes[|nodes| - 1])
      && (forall i {:trigger nodes[i].next} :: 0 <= i < |nodes| ==>
            nodes[i].next == if i + 1 < |nodes| then nodes[i + 1] else null)
      && (forall i, j :: 0 <= i < j < |nodes| ==> nodes[i] != nodes[j])
    }

    ghost function Contents(): seq<Bridge>
      reads this
    {
      var ns := nodes;
      seq(|ns|, i requires 0 <= i < |ns| => ns[i].info)
    }

    ghost function Platform(): Platform
      reads this
    {
      PciConfig.Platform.Platform(apics, mp, Contents())
    }

    /** sysPciFindBridge: a bridge is appended to the list; without memory nothing happens. */
    method FindBridge(f: Func, memory: bool) returns (ok: bool)
      requires Valid()
      modifies this`head, this`tail, this`nodes, this`repr, repr
      ensures Valid()
      ensures ok <==> BridgeAt(cfg, f) == None || memory
      ensures ok ==> Contents() == old(Contents()) + BridgesIn(cfg, [f])
      ensures !ok ==> Contents() == old(Contents())
      ensures fresh(repr - old(repr))
    {
      var b := BridgeAt(cfg, f);
      assert [f][1..] == [];
      if b == None {
        assert Contents() + [] == Contents();
        return true;
      }
      if !memory {
        return false;
      }
      var pList := new Node(b.value);
      if tail != null {
        tail.next := pList;
      }
      tail := pList;
      if head == null {
        head := pList;
      }
      nodes, repr := nodes + [pList], repr + {pList};
      return true;
    }

    /** The walk to the bridge above a bus. */
    method FindParent(bus: nat) returns (p: Node?)
      requires Valid()
      ensures p == null <==> Parent(Contents(), bus) == None
      ensures p != null ==> Parent(Contents(), bus) == Some(p.info)
    {
      p := head;
      ghost var i := 0;
      while p != null
        invariant i <= |nodes| && p == (if i < |nodes| then nodes[i] else null)
        invariant Parent(Contents(), bus) == Parent(Contents()[i..], bus)
        decreases |nodes| - i
      {
        assert Contents()[i..][0] == p.info && Contents()[i..][1..] == Contents()[i + 1..];
        if p.info.secBus == bus {
          break;
        }
        p := p.next;
        i := i + 1;
      }
    }

    /** One round of the climb: the bridge above, the pin there, and what the table says. */
    method Round(bus: nat, dev: nat, pin: nat) returns (p: Node?, up: nat, irq: int)
      requires Valid() && Topology(Contents()) && pin >= 1
      ensures var r := Climb(apics, mp, Contents(), bus, dev, pin);
        if p == null then r == None
        else if Usable(irq) then r == Some(irq)
        else r == Climb(apics, mp, Contents(), p.info.bus, p.info.dev, up + 1) && (p.info.bus == 0 ==> r == None)
      ensures p != null ==> p.info.bus < bus
    {
      up, irq := (dev + (pin - 1)) % 4, NO_ENTRY;
      p := FindParent(bus);
      if p == null {
        return;
      }
      if p.info.cardbus && p.info.pin != 0 {
        up := p.info.pin;
      }
      irq := FindMpEntry(apics, mp, p.info.bus, p.info.dev, up + 1);
      ClimbRound(apics, mp, Contents(), bus, dev, pin, p.info, up);
    }

    /** The climb, with the exit at the root bus when `rootExit`. */
    method ClimbList(bus: nat, dev: nat, pin: nat, rootExit: bool) returns (r: Option<nat>)
      requires Valid() && Topology(Contents()) && pin >= 1
      ensures r == Climb(apics, mp, Contents(), bus, dev, pin)
    {
      ghost var bs := Contents();
      ghost var answer := Climb(apics, mp, bs, bus, dev, pin);
      assert head == null ==> bs == [] && answer == None;
      var copyBus, copyDev, copyPin := bus, dev, pin;
      var pList := head;
      while pList != null
        invariant copyPin >= 1 && pList == head
        invariant Climb(apics, mp, bs, copyBus, copyDev, copyPin) == answer
        decreases copyBus
      {
        var pinPri, irq;
        pList, pinPri, irq := Round(copyBus, copyDev, copyPin);
        if pList == null {
          return None;
        }
        if irq != NO_ENTRY && irq >= IOAPIC_PIRQA_INT_LVL {
          return Some(irq);
        }
        if rootExit && pList.info.bus == 0 && pList.info.priBus == 0 {
          return None;
        }
        copyPin := pinPri + 1;
        copyDev := pList.info.dev;
        copyBus := pList.info.bus;
        pList := head;
      }
      return None;
    }

    /** sysPciShowIrq: the irq it prints, if any. */
    method ShowIrq(f: Func) returns (r: Option<nat>)
      requires Valid() && Topology(Contents())
      ensures r == IrqFor(Platform(), cfg, f)
      ensures forall i :: 1 <= Read(cfg, PinOf(f)) <= 4 && IsFirst(mp, f.bus, f.dev, Read(cfg, PinOf(f)), i) ==>
        r == Some(IrqOf(apics, mp[i]))
    {
      forall i | 1 <= Read(cfg, PinOf(f)) <= 4 && IsFirst(mp, f.bus, f.dev, Read(cfg, PinOf(f)), i)
        ensures IrqFor(Platform(), cfg, f) == Some(IrqOf(apics, mp[i]))
      {
        OwnEntryWins(apics, mp, Contents(), f.bus, f.dev, Read(cfg, PinOf(f)), i);
      }
      var pin := Read(cfg, PinOf(f));
      if pin > 4 || pin == 0 {
        return None;
      }
      var irq := FindMpEntry(apics, mp, f.bus, f.dev, pin);
      if irq != NO_ENTRY {
        return Some(irq);
      }
      r := ClimbList(f.bus, f.dev, pin, false);
    }

    method OutByte(a: Addr, value: byte)
      requires Valid()
      modifies this`cfg
      ensures Valid() && Contents() == old(Contents()) && cfg == old(cfg)[a := value]
    {
      cfg := cfg[a := value];
      assert forall i {:trigger nodes[i].next} :: 0 <= i < |nodes| ==> nodes[i].next == old(nodes[i].next);
    }

    /** sysPciProgIrq */
    method ProgramIrq(f: Func, enable: bool, irq: nat)
      requires Valid()
      modifies this`cfg
      ensures Valid() && Contents() == old(Contents()) && cfg == ProgIrq(old(cfg), f, enable, irq)
    {
      if irq > 0xff {
        return;
      }
      if enable {
        OutByte(LineOf(f), irq);
      }
      var offset;
      if irq == 16 || irq == 17 || irq == 18 || irq == 19 {
        offset := ICH_LPC_PIRQA + irq - 16;
      } else if irq == 20 || irq == 21 || irq == 22 || irq == 23 {
        offset := ICH_LPC_PIRQE + irq - 20;
      } else {
        offset := ICH_LPC_PIRQA;
      }
      var irqroute := Read(cfg, Route(offset));
      irqroute := SetDisable(irqroute, enable);
      OutByte(Route(offset), irqroute);
    }

    /** sysPciPirqEnable2 */
    method PirqEnable2(f: Func, enable: bool)
      requires Valid() && Topology(Contents())
      modifies this`cfg
      ensures Valid() && cfg == EnableOne(Platform(), old(cfg), f, enable)
    {
      var pin := Read(cfg, PinOf(f));
      if pin > 4 || pin == 0 {
        return;
      }
      var irq := FindMpEntry(apics, mp, f.bus, f.dev, pin);
      if irq != NO_ENTRY {
        ProgramIrq(f, enable, irq);
        return;
      }
      var r := ClimbList(f.bus, f.dev, pin, true);
      if r.Some? {
        ProgramIrq(f, enable, r.value);
      }
    }

    /** Entry i of the MP table is the one for a function's pin, and its irq fits a byte. */
    predicate HasEntry(c: Space, f: Func, i: int)
      reads this
    {
      var pin := Read(c, PinOf(f));
      1 <= pin <= 4 && IsFirst(mp, f.bus, f.dev, pin, i) && IrqOf(apics, mp[i]) <= 0xff
    }

    /** The first pass of sysPciPirqEnable. */
    method ScanBridges(fs: seq<Func>, m: Memory)
      requires Valid()
      modifies this`head, this`tail, this`nodes, this`repr, repr
      ensures Valid() && fresh(repr - old(repr))
      ensures Contents() == old(Contents()) + Found(cfg, fs, m)
    {
      var i := 0;
      while i < |fs|
        invariant i <= |fs| && Valid() && fresh(repr - old(repr))
        invariant Contents() + Found(cfg, fs[i..], m) == old(Contents()) + Found(cfg, fs, m)
      {
        FoundNext(cfg, fs, i, m, Contents());
        var ok := FindBridge(fs[i], m.available(fs[i]));
        if !ok && m.stops {
          return;
        }
        i := i + 1;
      }
    }

    /** sysPciPirqEnable over the enumerated functions. */
    method PirqEnable(fs: seq<Func>, m: Memory, enable: bool)
      requires Valid() && Topology(Contents() + Found(cfg, fs, m))
      modifies this`cfg, this`head, this`tail, this`nodes, this`repr, repr
      ensures Valid() && Contents() == old(Contents()) + Found(old(cfg), fs, m)
      ensures fresh(repr - old(repr))
      ensures Topology(Contents()) && cfg == EnableAll(Platform(), old(cfg), fs, enable)
      ensures enable ==> forall f, i :: f in fs && HasEntry(old(cfg), f, i) ==>
        Read(cfg, LineOf(f)) == IrqOf(apics, mp[i])
    {
      ScanBridges(fs, m);
      ghost var p := Platform();
      var i := 0;
      while i < |fs|
        invariant i <= |fs| && Valid() && Platform() == p && fresh(repr - old(repr))
        invariant EnableAll(p, cfg, fs[i..], enable) == EnableAll(p, old(cfg), fs, enable)
      {
        assert fs[i..][0] == fs[i] && fs[i..][1..] == fs[i + 1..];
        PirqEnable2(fs[i], enable);
        i := i + 1;
      }
      forall f, j | enable && f in fs && HasEntry(old(cfg), f, j)
        ensures Read(cfg, LineOf(f)) == IrqOf(apics, mp[j])
      {
        LineOfOwnEntry(p, old(cfg), fs, f, j);
      }
    }

    /** sysPciPirqEnable called twice with memory for every bridge: the bridges are listed twice, every
        function resolves as it did at first, and a repetition of the first call changes no byte. */
    method EnableTwice(fs: seq<Func>, enable: bool, again: bool)
      requires Valid() && Contents() == [] && Topology(BridgesIn(cfg, fs))
      modifies this`cfg, this`head, this`tail, this`nodes, this`repr, repr
      ensures Valid() && Contents() == BridgesIn(old(cfg), fs) + BridgesIn(old(cfg), fs)
      ensures Platform().Ok()
      ensures forall f :: IrqFor(Platform(), cfg, f) == IrqFor(Scanned(apics, mp, old(cfg), fs), old(cfg), f)
      ensures again == enable ==> forall x ::
        Read(cfg, x) == Read(EnableAll(Scanned(apics, mp, old(cfg), fs), old(cfg), fs, enable), x)
    {
      ghost var c, p := cfg, Scanned(apics, mp, cfg, fs);
      assert Contents() + p.bridges == p.bridges;
      var m := Memory(_ => true, true);
      EnoughMemory(cfg, fs, m);
      PirqEnable(fs, m, enable);
      ghost var d := cfg;
      BridgesStay(p, c, fs, enable, fs);
      TopologyTwice(p.bridges);
      EnoughMemory(cfg, fs, m);
      PirqEnable(fs, m, again);
      ghost var q := Platform();
      forall f ensures IrqFor(q, cfg, f) == IrqFor(p, c, f) {
        SecondEnableResolvesAlike(p, c, fs, enable, f);
        PinStays(q, d, fs, again, f);
      }
      if again == enable {
        forall x ensures Read(cfg, x) == Read(d, x) {
          SecondEnableChangesNothing(p, c, fs, enable, x);
        }
      }
    }
  }

  lemma TopologyTwice(bs: seq<Bridge>)
    requires Topology(bs)
    ensures Topology(bs + bs)
  {
  }

  lemma PinStays(p: Platform, c: Space, fs: seq<Func>, enable: bool, f: Func)
    requires p.Ok()
    ensures IrqFor(p, EnableAll(p, c, fs, enable), f) == IrqFor(p, c, f)
  {
    HeaderStays(p, c, fs, enable, PinOf(f));
  }
}
