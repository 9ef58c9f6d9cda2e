/** Programming the resolved interrupts into configuration space. */
module PciConfig {
  import opened Values
  import opened PciRouting

  datatype Func = Func(bus: nat, dev: nat, func: nat)

  datatype Addr = Addr(f: Func, off: nat)

  /** Configuration space; an address nobody answers reads as all ones. */
  type Space = map<Addr, byte>

  function Read(c: Space, a: Addr): byte { if a in c then c[a] else 0xff }

  // Offsets in the header of a function
  const DEV_INT_LINE: nat := 0x3c
  const DEV_INT_PIN: nat := 0x3d
  const BRG_INT_PIN: nat := 0x3d
  const SUBCLASS: nat := 0x0a
  const CLASS: nat := 0x0b
  const PRIMARY_BUS: nat := 0x18
  const SECONDARY_BUS: nat := 0x19

  const CLASS_BRIDGE: int := 0x06
  const SUBCLASS_P2P: int := 0x04
  const SUBCLASS_CARDBUS: int := 0x07

  // The routing registers of the LPC bridge
  const LPC: Func := Func(0, 0x1f, 0)
  const ICH_LPC_PIRQA: nat := 0x60
  const ICH_LPC_PIRQE: nat := 0x68

  function LineOf(f: Func): Addr { Addr(f, DEV_INT_LINE) }

  function PinOf(f: Func): Addr { Addr(f, DEV_INT_PIN) }

  function Route(off: nat): Addr { Addr(LPC, off) }

  function RouteOffset(irq: nat): nat {
    if 16 <= irq <= 19 then ICH_LPC_PIRQA + irq - 16
    else if 20 <= irq <= 23 then ICH_LPC_PIRQE + irq - 20
    else ICH_LPC_PIRQA
  }

  /** The routing registers PIRQA to PIRQD and PIRQE to PIRQH belong to the irqs 16 to 23; any other irq
      selects PIRQA. */
  lemma RouteRegisters(irq: nat)
    ensures RouteOffset(16) == 0x60 && RouteOffset(17) == 0x61 && RouteOffset(18) == 0x62 && RouteOffset(19) == 0x63
    ensures RouteOffset(20) == 0x68 && RouteOffset(21) == 0x69 && RouteOffset(22) == 0x6a && RouteOffset(23) == 0x6b
    ensures irq < 16 || irq > 23 ==> RouteOffset(irq) == 0x60
  {
  }

  /** `x | ICH_IRQ_DIS` or `x & ~ICH_IRQ_DIS`: bit 7 alone. */
  function SetDisable(x: byte, on: bool): byte {
    if on then (if x < 128 then x + 128 else x) else x % 128
  }

  /** The other seven bits stay. */
  lemma OtherBitsKept(x: byte, on: bool)
    ensures SetDisable(x, on) % 128 == x % 128
    ensures SetDisable(x, on) / 128 == if on then 1 else 0
    ensures SetDisable(SetDisable(x, on), on) == SetDisable(x, on)
  {
  }

  function ProgIrq(c: Space, f: Func, enable: bool, irq: nat): Space {
    if irq > 0xff then c
    else
      var d := if enable then c[LineOf(f) := irq] else c;
      var r := Route(RouteOffset(irq));
      d[r := SetDisable(Read(d, r), enable)]
  }

  /** The bridge a function is, read from its header; other functions are none. */
  function BridgeAt(c: Space, f: Func): Option<Bridge> {
    var pciClass := Read(c, Addr(f, CLASS)) as int * 0x100 + Read(c, Addr(f, SUBCLASS));
    if pciClass == CLASS_BRIDGE * 0x100 + SUBCLASS_P2P || pciClass == CLASS_BRIDGE * 0x100 + SUBCLASS_CARDBUS
    then Some(Bridge(f.bus, f.dev, f.func, Read(c, Addr(f, PRIMARY_BUS)), Read(c, Addr(f, SECONDARY_BUS)),
                     Read(c, Addr(f, BRG_INT_PIN)), pciClass == CLASS_BRIDGE * 0x100 + SUBCLASS_CARDBUS))
    else None
  }

  /** A bridge has class 06 and subclass 04 (PCI to PCI) or 07 (CardBus); its buses and its pin are bytes
      18, 19 and 3d of the header. */
  lemma BridgeAtIs(c: Space, f: Func)
    ensures BridgeAt(c, f).Some? <==> Read(c, Addr(f, 0x0b)) == 0x06 && Read(c, Addr(f, 0x0a)) in {0x04, 0x07}
    ensures BridgeAt(c, f).Some? ==> var b := BridgeAt(c, f).value;
      && b.bus == f.bus && b.dev == f.dev && b.func == f.func
      && b.priBus == Read(c, Addr(f, 0x18)) && b.secBus == Read(c, Addr(f, 0x19)) && b.pin == Read(c, Addr(f, 0x3d))
      && (b.cardbus <==> Read(c, Addr(f, 0x0a)) == 0x07)
  {
  }

  /** The bridges among the functions, in enumeration order. */
  function BridgesIn(c: Space, fs: seq<Func>): seq<Bridge> {
    if fs == [] then []
    else
      var rest := BridgesIn(c, fs[1..]);
      match BridgeAt(c, fs[0])
      case None => rest
      case Some(b) => [b] + rest
  }

  /** What the MP table and the bridges say for a function. */
  datatype Platform = Platform(apics: Apics, mp: seq<MpEntry>, bridges: seq<Bridge>)
  {
    predicate Ok() { Topology(bridges) }
  }

  /** The irq a function resolves to, by the pin its header shows. */
  function IrqFor(p: Platform, c: Space, f: Func): Option<nat>
    requires p.Ok()
  {
    Resolve(p.apics, p.mp, p.bridges, f.bus, f.dev, Read(c, PinOf(f)))
  }

  function EnableOne(p: Platform, c: Space, f: Func, enable: bool): Space
    requires p.Ok()
  {
    match IrqFor(p, c, f)
    case None => c
    case Some(irq) => ProgIrq(c, f, enable, irq)
  }

  function EnableAll(p: Platform, c: Space, fs: seq<Func>, enable: bool): Space
    requires p.Ok()
    decreases |fs|
  {
    if fs == [] then c else EnableAll(p, EnableOne(p, c, fs[0], enable), fs[1..], enable)
  }

  /** An irq that is really programmed. */
  predicate Programs(p: Platform, c: Space, f: Func, irq: nat)
    requires p.Ok()
  {
    IrqFor(p, c, f) == Some(irq) && irq <= 0xff
  }

  predicate Routes(p: Platform, c: Space, f: Func, off: nat)
    requires p.Ok()
  {
    var i := IrqFor(p, c, f);
    i.Some? && i.value <= 0xff && RouteOffset(i.value) == off
  }

  /** The value an address has at the end, from the initial space and the set of functions. */
  ghost function Final(p: Platform, c: Space, fs: seq<Func>, enable: bool, a: Addr): byte
    requires p.Ok()
  {
    if a.off == DEV_INT_LINE then
      if enable && a.f in fs && IrqFor(p, c, a.f).Some? && IrqFor(p, c, a.f).value <= 0xff
      then IrqFor(p, c, a.f).value else Read(c, a)
    else if a.f == LPC && exists f :: f in fs && Routes(p, c, f, a.off) then SetDisable(Read(c, a), enable)
    else Read(c, a)
  }

  /** Programming one function changes its line and one route register, never an interrupt pin. */
  lemma OneStep(p: Platform, c: Space, f: Func, enable: bool, a: Addr)
    requires p.Ok()
    ensures var d := EnableOne(p, c, f, enable);
      && (forall g :: IrqFor(p, d, g) == IrqFor(p, c, g))
      && Read(d, a) == Final(p, c, [f], enable, a)
  {
    var d := EnableOne(p, c, f, enable);
    forall g ensures IrqFor(p, d, g) == IrqFor(p, c, g) {
      assert Read(d, PinOf(g)) == Read(c, PinOf(g));
    }
    if a.off != DEV_INT_LINE {
      assert f in [f];
      assert Routes(p, c, f, a.off) ==> exists g :: g in [f] && Routes(p, c, g, a.off);
    }
  }

  /** Enabling (or disabling) a list of functions ends in exactly the space `Final` describes: the
      line of each resolved function is its irq, bit 7 is set (or cleared) exactly in the selected
      route registers, everything else is as before. */
  lemma {:induction false} EnableAllExactly(p: Platform, c: Space, fs: seq<Func>, enable: bool, a: Addr)
    requires p.Ok()
    ensures Read(EnableAll(p, c, fs, enable), a) == Final(p, c, fs, enable, a)
    decreases |fs|
  {
    if fs == [] {
    } else {
      var d := EnableOne(p, c, fs[0], enable);
      OneStep(p, c, fs[0], enable, a);
      EnableAllExactly(p, d, fs[1..], enable, a);
      FinalCombines(p, c, d, fs, enable, a);
    }
  }

  lemma FinalCombines(p: Platform, c: Space, d: Space, fs: seq<Func>, enable: bool, a: Addr)
    requires p.Ok() && fs != []
    requires forall g :: IrqFor(p, d, g) == IrqFor(p, c, g)
    requires Read(d, a) == Final(p, c, [fs[0]], enable, a)
    ensures Final(p, d, fs[1..], enable, a) == Final(p, c, fs, enable, a)
  {
    assert fs == [fs[0]] + fs[1..];
    if a.off != DEV_INT_LINE {
      assert forall g :: Routes(p, d, g, a.off) == Routes(p, c, g, a.off);
      var head := Routes(p, c, fs[0], a.off);
      var tail := exists g :: g in fs[1..] && Routes(p, c, g, a.off);
      var all := exists g :: g in fs && Routes(p, c, g, a.off);
      assert head ==> all by { assert fs[0] in fs; }
      assert all <==> head || tail;
      assert (exists g :: g in [fs[0]] && Routes(p, c, g, a.off)) <==> head by {
        assert fs[0] in [fs[0]];
      }
      OtherBitsKept(Read(c, a), enable);
    }
  }

  /** An enumerated function with an MP entry of its own ends up with that entry's irq in its line. */
  lemma LineOfOwnEntry(p: Platform, c: Space, fs: seq<Func>, f: Func, i: int)
    requires p.Ok() && f in fs && 1 <= Read(c, PinOf(f)) <= 4
    requires IsFirst(p.mp, f.bus, f.dev, Read(c, PinOf(f)), i) && IrqOf(p.apics, p.mp[i]) <= 0xff
    ensures Read(EnableAll(p, c, fs, true), LineOf(f)) == IrqOf(p.apics, p.mp[i])
  {
    OwnEntryWins(p.apics, p.mp, p.bridges, f.bus, f.dev, Read(c, PinOf(f)), i);
    EnableAllExactly(p, c, fs, true, LineOf(f));
  }

  /** One without, below plain bridges, with the irq of the lowest bridge that has one at its pin; when
      there is none, or it does not fit a byte, the line stays. */
  lemma LineOfBridges(p: Platform, c: Space, fs: seq<Func>, f: Func)
    requires p.Ok() && f in fs && 1 <= Read(c, PinOf(f)) <= 4 && PlainPath(p.bridges, f.bus)
    requires forall e :: e in p.mp ==> !Matches(e, f.bus, f.dev, Read(c, PinOf(f)))
    ensures var irq := FirstUsable(PathIrqs(p.apics, p.mp, Path(p.bridges, f.bus), f.dev, Read(c, PinOf(f))));
      Read(EnableAll(p, c, fs, true), LineOf(f))
      == if irq.Some? && irq.value <= 0xff then irq.value else Read(c, LineOf(f))
  {
    OthersGetTheBridges(p.apics, p.mp, p.bridges, f.bus, f.dev, Read(c, PinOf(f)));
    EnableAllExactly(p, c, fs, true, LineOf(f));
  }

  // ----- Both passes: the enumeration also fills the list of bridges -----

  ghost predicate SameFuncs(fs: seq<Func>, gs: seq<Func>) {
    forall f :: f in fs <==> f in gs
  }

  /** The platform after the first pass over `fs`. */
  function Scanned(apics: Apics, mp: seq<MpEntry>, c: Space, fs: seq<Func>): Platform {
    Platform.Platform(apics, mp, BridgesIn(c, fs))
  }

  lemma {:induction false} BridgesInAre(c: Space, fs: seq<Func>, b: Bridge)
    ensures b in BridgesIn(c, fs) <==> exists f :: f in fs && BridgeAt(c, f) == Some(b)
    decreases |fs|
  {
    if fs != [] {
      BridgesInAre(c, fs[1..], b);
      assert fs == [fs[0]] + fs[1..];
    }
  }

  lemma SameFuncsSameBridges(c: Space, fs: seq<Func>, gs: seq<Func>)
    requires SameFuncs(fs, gs)
    ensures SameBridges(BridgesIn(c, fs), BridgesIn(c, gs))
  {
    forall b ensures b in BridgesIn(c, fs) <==> b in BridgesIn(c, gs) {
      BridgesInAre(c, fs, b);
      BridgesInAre(c, gs, b);
    }
  }

  /** Platforms that resolve alike end in the same space. */
  lemma FinalAlike(p: Platform, q: Platform, c: Space, fs: seq<Func>, gs: seq<Func>, enable: bool, x: Addr)
    requires p.Ok() && q.Ok() && SameFuncs(fs, gs)
    requires forall f :: IrqFor(p, c, f) == IrqFor(q, c, f)
    ensures Final(p, c, fs, enable, x) == Final(q, c, gs, enable, x)
  {
    if x.off != DEV_INT_LINE {
      assert forall f :: Routes(p, c, f, x.off) == Routes(q, c, f, x.off);
    }
  }

  lemma ResolveAlike(a: Apics, mp: seq<MpEntry>, bs: seq<Bridge>, cs: seq<Bridge>, c: Space, f: Func)
    requires Topology(bs) && AlikeParents(bs) && SameBridges(bs, cs)
    ensures Topology(cs) && IrqFor(Platform.Platform(a, mp, bs), c, f) == IrqFor(Platform.Platform(a, mp, cs), c, f)
  {
    SameTopology(bs, cs);
    var pin := Read(c, PinOf(f));
    if 1 <= pin <= 4 {
      OrderChangesNothing(a, mp, bs, cs, f.bus, f.dev, pin);
    }
  }

  /** When bridges to the same bus are alike, the space after both passes does not depend on the
      order, or on repetitions, of the enumeration, which also orders the list of bridges. */
  lemma EnumerationOrderIrrelevant(a: Apics, mp: seq<MpEntry>, c: Space, fs: seq<Func>, gs: seq<Func>,
                                   enable: bool, x: Addr)
    requires SameFuncs(fs, gs) && Topology(BridgesIn(c, fs)) && AlikeParents(BridgesIn(c, fs))
    ensures Topology(BridgesIn(c, gs))
    ensures Read(EnableAll(Scanned(a, mp, c, fs), c, fs, enable), x)
      == Read(EnableAll(Scanned(a, mp, c, gs), c, gs, enable), x)
  {
    var p, q := Scanned(a, mp, c, fs), Scanned(a, mp, c, gs);
    SameFuncsSameBridges(c, fs, gs);
    SameTopology(p.bridges, q.bridges);
    forall f ensures IrqFor(p, c, f) == IrqFor(q, c, f) {
      ResolveAlike(a, mp, p.bridges, q.bridges, c, f);
    }
    EnableAllExactly(p, c, fs, enable, x);
    EnableAllExactly(q, c, gs, enable, x);
    FinalAlike(p, q, c, fs, gs, enable, x);
  }

  const F1: Func := Func(0, 1, 0)
  const F2: Func := Func(0, 2, 0)
  const DEVICE: Func := Func(1, 0, 0)

  /** Two bridges to bus 1, and a device there that uses its first pin. */
  const TWO_BRIDGES: Space := map[
    Addr(F1, CLASS) := 0x06, Addr(F1, SUBCLASS) := 0x04, Addr(F1, SECONDARY_BUS) := 1,
    Addr(F2, CLASS) := 0x06, Addr(F2, SUBCLASS) := 0x04, Addr(F2, SECONDARY_BUS) := 1,
    PinOf(DEVICE) := 1]

  lemma TwoBridgesListed(f: Func, g: Func)
    requires (f == F1 && g == F2) || (f == F2 && g == F1)
    ensures BridgesIn(TWO_BRIDGES, [f, g, DEVICE])
      == [Bridge(0, f.dev, 0, 0xff, 1, 0xff, false), Bridge(0, g.dev, 0, 0xff, 1, 0xff, false)]
  {
    assert [f, g, DEVICE][1..] == [g, DEVICE] && [g, DEVICE][1..] == [DEVICE] && [DEVICE][1..] == [];
    assert BridgeAt(TWO_BRIDGES, DEVICE) == None;
    assert BridgeAt(TWO_BRIDGES, f) == Some(Bridge(0, f.dev, 0, 0xff, 1, 0xff, false));
    assert BridgeAt(TWO_BRIDGES, g) == Some(Bridge(0, g.dev, 0, 0xff, 1, 0xff, false));
    assert BridgesIn(TWO_BRIDGES, [DEVICE]) == [];
    assert BridgesIn(TWO_BRIDGES, [g, DEVICE]) == [Bridge(0, g.dev, 0, 0xff, 1, 0xff, false)];
  }

  /** Otherwise it can: the device gets the irq of the bridge that was enumerated first. */
  lemma EnumerationOrderCanMatter(f: Func, g: Func)
    requires (f == F1 && g == F2) || (f == F2 && g == F1)
    ensures var mp := [MpEntry(0, 4, 0, 16), MpEntry(0, 8, 0, 17)];
      var p := Scanned(Apics(0, 1, 1), mp, TWO_BRIDGES, [f, g, DEVICE]);
      p.Ok() && Read(EnableAll(p, TWO_BRIDGES, [f, g, DEVICE], true), LineOf(DEVICE)) == 15 + f.dev
  {
    var mp := [MpEntry(0, 4, 0, 16), MpEntry(0, 8, 0, 17)];
    var p := Scanned(Apics(0, 1, 1), mp, TWO_BRIDGES, [f, g, DEVICE]);
    TwoBridgesListed(f, g);
    assert mp[1..] == [mp[1]] && mp[1..][1..] == [];
    ClimbRound(p.apics, mp, p.bridges, 1, 0, 1, p.bridges[0], 0);
    assert IrqFor(p, TWO_BRIDGES, DEVICE) == Some(15 + f.dev);
    EnableAllExactly(p, TWO_BRIDGES, [f, g, DEVICE], true, LineOf(DEVICE));
  }

  // ----- Exactly when the order shows -----

  /** Every rearrangement of the enumeration ends in the same space, whatever the MP table says. */
  ghost predicate EnumerationIrrelevant(c: Space, fs: seq<Func>) {
    forall a, mp, gs, enable, x :: ShowsNothing(a, mp, c, fs, gs, enable, x)
  }

  ghost predicate ShowsNothing(a: Apics, mp: seq<MpEntry>, c: Space, fs: seq<Func>, gs: seq<Func>,
                               enable: bool, x: Addr)
  {
    multiset(fs) == multiset(gs) && Topology(BridgesIn(c, fs)) && Topology(BridgesIn(c, gs)) ==>
      Read(EnableAll(Scanned(a, mp, c, fs), c, fs, enable), x)
      == Read(EnableAll(Scanned(a, mp, c, gs), c, gs, enable), x)
  }

  /** One more function, which is no bridge and uses its first interrupt pin. */
  function WithDevice(c: Space, f: Func): Space {
    c[Addr(f, CLASS) := 0][PinOf(f) := 1]
  }

  lemma {:induction false} DeviceAddsNoBridge(c: Space, fs: seq<Func>, f: Func)
    requires f !in fs
    ensures BridgesIn(WithDevice(c, f), fs) == BridgesIn(c, fs)
    decreases |fs|
  {
    if fs != [] {
      assert BridgeAt(WithDevice(c, f), fs[0]) == BridgeAt(c, fs[0]);
      DeviceAddsNoBridge(c, fs[1..], f);
    }
  }

  lemma DeviceIsNoBridge(c: Space, f: Func)
    ensures BridgeAt(WithDevice(c, f), f) == None && BridgesIn(WithDevice(c, f), [f]) == []
  {
    assert [f][1..] == [];
  }

  lemma {:induction false} BridgesInJoin(c: Space, fs: seq<Func>, gs: seq<Func>)
    ensures BridgesIn(c, fs + gs) == BridgesIn(c, fs) + BridgesIn(c, gs)
    decreases |fs|
  {
    if fs == [] {
      assert fs + gs == gs;
    } else {
      assert (fs + gs)[0] == fs[0] && (fs + gs)[1..] == fs[1..] + gs;
      BridgesInJoin(c, fs[1..], gs);
    }
  }

  function Front(fs: seq<Func>, i: nat): seq<Func>
    requires i < |fs|
  {
    [fs[i]] + fs[..i] + fs[i + 1..]
  }

  lemma FrontRearranges(fs: seq<Func>, i: nat)
    requires i < |fs|
    ensures multiset(Front(fs, i)) == multiset(fs) && SameFuncs(fs, Front(fs, i))
  {
    assert fs == fs[..i] + [fs[i]] + fs[i + 1..];
    forall f ensures f in fs <==> f in Front(fs, i) {
      assert f in fs <==> f in multiset(fs);
    }
  }

  /** A bridge enumerated first is the one taken for its bus. */
  lemma FrontIsParent(c: Space, fs: seq<Func>, i: nat, b: Bridge)
    requires i < |fs| && BridgeAt(c, fs[i]) == Some(b) && Topology(BridgesIn(c, fs))
    ensures Topology(BridgesIn(c, Front(fs, i)))
    ensures Parent(BridgesIn(c, Front(fs, i)), b.secBus) == Some(b)
  {
    FrontRearranges(fs, i);
    SameFuncsSameBridges(c, fs, Front(fs, i));
    SameTopology(BridgesIn(c, fs), BridgesIn(c, Front(fs, i)));
    assert Front(fs, i)[0] == fs[i];
  }

  lemma ResolvesToParent(p: Platform, c: Space, f: Func, b: Bridge, irq: byte)
    requires p.Ok() && Parent(p.bridges, f.bus) == Some(b) && Plain(b)
    requires f.dev == 0 && Read(c, PinOf(f)) == 1
    requires Lookup(p.apics, p.mp, f.bus, 0, 1) == NO_ENTRY
    requires Lookup(p.apics, p.mp, b.bus, b.dev, 1) == irq >= IOAPIC_PIRQA_INT_LVL
    ensures IrqFor(p, c, f) == Some(irq)
  {
    ClimbRound(p.apics, p.mp, p.bridges, f.bus, 0, 1, b, 0);
  }

  /** A device below two plain bridges at different places gets the irq of the first one. */
  lemma DeviceGetsFirst(c: Space, fs: seq<Func>, f: Func, i: nat, b: Bridge, mp: seq<MpEntry>, irq: byte)
    requires i < |fs| && f in fs && BridgeAt(c, fs[i]) == Some(b) && Topology(BridgesIn(c, fs))
    requires f.bus == b.secBus && f.dev == 0 && Read(c, PinOf(f)) == 1 && Plain(b)
    requires Lookup(Apics(0, 1, 1), mp, f.bus, 0, 1) == NO_ENTRY
    requires Lookup(Apics(0, 1, 1), mp, b.bus, b.dev, 1) == irq >= IOAPIC_PIRQA_INT_LVL
    ensures Topology(BridgesIn(c, Front(fs, i)))
    ensures var p := Scanned(Apics(0, 1, 1), mp, c, Front(fs, i));
      Read(EnableAll(p, c, Front(fs, i), true), LineOf(f)) == irq
  {
    var gs, a := Front(fs, i), Apics(0, 1, 1);
    FrontRearranges(fs, i);
    FrontIsParent(c, fs, i, b);
    var p := Scanned(a, mp, c, gs);
    ResolvesToParent(p, c, f, b, irq);
    EnableAllExactly(p, c, gs, true, LineOf(f));
  }

  /** The table that tells two bridges apart has no entry on a bus above both. */
  lemma NoEntryBelow(b: Bridge, d: Bridge, bus: nat)
    requires b.bus < bus && d.bus < bus
    ensures Lookup(Apics(0, 1, 1), [EntryFor(b, 16), EntryFor(d, 17)], bus, 0, 1) == NO_ENTRY
  {
    var mp := [EntryFor(b, 16), EntryFor(d, 17)];
    assert !Matches(mp[0], bus, 0, 1) && !Matches(mp[1], bus, 0, 1);
    assert mp[1..] == [EntryFor(d, 17)] && Lookup(Apics(0, 1, 1), [EntryFor(d, 17)], bus, 0, 1) == NO_ENTRY;
  }

  lemma OrderShows(c: Space, fs: seq<Func>, f: Func, i: nat, j: nat, b: Bridge, d: Bridge)
    requires i < |fs| && j < |fs| && f in fs && Topology(BridgesIn(c, fs))
    requires BridgeAt(c, fs[i]) == Some(b) && BridgeAt(c, fs[j]) == Some(d)
    requires b.secBus == d.secBus == f.bus && f.dev == 0 && Read(c, PinOf(f)) == 1
    requires Plain(b) && Plain(d) && !Alike(b, d) && b.bus < b.secBus && d.bus < d.secBus
    ensures !EnumerationIrrelevant(c, fs)
  {
    var a, mp := Apics(0, 1, 1), [EntryFor(b, 16), EntryFor(d, 17)];
    TwoEntries(b, d);
    NoEntryBelow(b, d, f.bus);
    DeviceGetsFirst(c, fs, f, i, b, mp, 16);
    DeviceGetsFirst(c, fs, f, j, d, mp, 17);
    FrontRearranges(fs, i);
    FrontRearranges(fs, j);
    var x := LineOf(f);
    assert !ShowsNothing(a, mp, c, fs, Front(fs, i), true, x) || !ShowsNothing(a, mp, c, fs, Front(fs, j), true, x);
  }

  /** A function number that is still free on a bus. */
  lemma {:induction false} FreeFunc(fs: seq<Func>, bus: nat) returns (n: nat)
    ensures forall k: nat :: k >= n ==> Func(bus, 0, k) !in fs
    decreases |fs|
  {
    if fs == [] {
      n := 0;
    } else {
      var m := FreeFunc(fs[1..], bus);
      n := if fs[0].func >= m then fs[0].func + 1 else m;
      assert fs == [fs[0]] + fs[1..];
    }
  }

  lemma BridgeHasFunc(c: Space, fs: seq<Func>, i: nat) returns (k: nat)
    requires i < |BridgesIn(c, fs)|
    ensures k < |fs| && BridgeAt(c, fs[k]) == Some(BridgesIn(c, fs)[i])
  {
    BridgesInAre(c, fs, BridgesIn(c, fs)[i]);
    var f :| f in fs && BridgeAt(c, f) == Some(BridgesIn(c, fs)[i]);
    k :| 0 <= k < |fs| && fs[k] == f;
  }

  /** For plain bridges: whatever device is added, the order of the enumeration is irrelevant, if and
      only if bridges to the same bus sit at the same place. */
  lemma EnumerationOrderExactly(c: Space, fs: seq<Func>)
    requires Topology(BridgesIn(c, fs)) && forall b :: b in BridgesIn(c, fs) ==> Plain(b)
    ensures AlikeParents(BridgesIn(c, fs)) <==>
      forall f :: f !in fs ==> EnumerationIrrelevant(WithDevice(c, f), fs + [f])
  {
    var bs := BridgesIn(c, fs);
    if AlikeParents(bs) {
      forall f | f !in fs ensures EnumerationIrrelevant(WithDevice(c, f), fs + [f]) {
        DeviceBridges(c, fs, f);
        AlikeShowsNothing(WithDevice(c, f), fs + [f]);
      }
    } else {
      var i, j :| 0 <= i < |bs| && 0 <= j < |bs| && bs[i].secBus == bs[j].secBus && !Alike(bs[i], bs[j]);
      var n := FreeFunc(fs, bs[i].secBus);
      var f := Func(bs[i].secBus, 0, n);
      DeviceShowsOrder(c, fs, f, i, j);
    }
  }

  lemma DeviceBridges(c: Space, fs: seq<Func>, f: Func)
    requires f !in fs
    ensures BridgesIn(WithDevice(c, f), fs + [f]) == BridgesIn(c, fs)
  {
    BridgesInJoin(WithDevice(c, f), fs, [f]);
    DeviceAddsNoBridge(c, fs, f);
    DeviceIsNoBridge(c, f);
  }

  lemma AlikeShowsNothing(c: Space, fs: seq<Func>)
    requires AlikeParents(BridgesIn(c, fs))
    ensures EnumerationIrrelevant(c, fs)
  {
    forall a, mp, gs, enable, x ensures ShowsNothing(a, mp, c, fs, gs, enable, x) {
      if multiset(fs) == multiset(gs) && Topology(BridgesIn(c, fs)) {
        forall f ensures f in fs <==> f in gs {
          assert f in fs <==> f in multiset(fs);
        }
        EnumerationOrderIrrelevant(a, mp, c, fs, gs, enable, x);
      }
    }
  }

  lemma DeviceShowsOrder(c: Space, fs: seq<Func>, f: Func, i: nat, j: nat)
    requires var bs := BridgesIn(c, fs);
      && Topology(bs) && i < |bs| && j < |bs| && Plain(bs[i]) && Plain(bs[j])
      && bs[i].secBus == bs[j].secBus == f.bus && !Alike(bs[i], bs[j])
    requires f !in fs && f.dev == 0
    ensures !EnumerationIrrelevant(WithDevice(c, f), fs + [f])
  {
    var c2, fs2, bs := WithDevice(c, f), fs + [f], BridgesIn(c, fs);
    DeviceBridges(c, fs, f);
    var k := BridgeHasFunc(c2, fs2, i);
    var l := BridgeHasFunc(c2, fs2, j);
    OrderShows(c2, fs2, f, k, l, bs[i], bs[j]);
  }

  // ----- Calling it again -----

  /** No pass touches what a bridge is recognised by. */
  lemma {:induction false} BridgesStay(p: Platform, c: Space, fs: seq<Func>, enable: bool, gs: seq<Func>)
    requires p.Ok()
    ensures BridgesIn(EnableAll(p, c, fs, enable), gs) == BridgesIn(c, gs)
    decreases |gs|
  {
    if gs != [] {
      BridgeStays(p, c, fs, enable, gs[0]);
      BridgesStay(p, c, fs, enable, gs[1..]);
    }
  }

  lemma BridgeStays(p: Platform, c: Space, fs: seq<Func>, enable: bool, f: Func)
    requires p.Ok()
    ensures BridgeAt(EnableAll(p, c, fs, enable), f) == BridgeAt(c, f)
  {
    HeaderStays(p, c, fs, enable, Addr(f, CLASS));
    HeaderStays(p, c, fs, enable, Addr(f, SUBCLASS));
    HeaderStays(p, c, fs, enable, Addr(f, PRIMARY_BUS));
    HeaderStays(p, c, fs, enable, Addr(f, SECONDARY_BUS));
    HeaderStays(p, c, fs, enable, Addr(f, BRG_INT_PIN));
  }

  lemma HeaderStays(p: Platform, c: Space, fs: seq<Func>, enable: bool, x: Addr)
    requires p.Ok() && x.off != DEV_INT_LINE && x.off < ICH_LPC_PIRQA
    ensures Read(EnableAll(p, c, fs, enable), x) == Read(c, x)
  {
    EnableAllExactly(p, c, fs, enable, x);
  }

  /** A second call lists every bridge again; every function still resolves, in the space the first
      call left behind, as it did before. */
  lemma SecondEnableResolvesAlike(p: Platform, c: Space, fs: seq<Func>, enable: bool, f: Func)
    requires p.Ok()
    ensures Topology(p.bridges + p.bridges)
    ensures IrqFor(p.(bridges := p.bridges + p.bridges), EnableAll(p, c, fs, enable), f) == IrqFor(p, c, f)
  {
    HeaderStays(p, c, fs, enable, PinOf(f));
    var pin := Read(c, PinOf(f));
    if 1 <= pin <= 4 {
      RescanChangesNothing(p.apics, p.mp, p.bridges, f.bus, f.dev, pin);
    }
  }

  /** A repeated call changes no byte. */
  lemma SecondEnableChangesNothing(p: Platform, c: Space, fs: seq<Func>, enable: bool, x: Addr)
    requires p.Ok()
    ensures Topology(p.bridges + p.bridges)
    ensures var d := EnableAll(p, c, fs, enable);
      Read(EnableAll(p.(bridges := p.bridges + p.bridges), d, fs, enable), x) == Read(d, x)
  {
    var d, q := EnableAll(p, c, fs, enable), p.(bridges := p.bridges + p.bridges);
    forall f ensures q.Ok() && IrqFor(q, d, f) == IrqFor(p, c, f) {
      SecondEnableResolvesAlike(p, c, fs, enable, f);
    }
    EnableAllExactly(p, c, fs, enable, x);
    EnableAllExactly(q, d, fs, enable, x);
    if x.off != DEV_INT_LINE {
      assert forall f :: Routes(q, d, f, x.off) == Routes(p, c, f, x.off);
      OtherBitsKept(Read(c, x), enable);
    }
  }

  /** In the enabled space every function of the enumeration with a small irq has it in its line
      register, the seven low bits of every route register are as before, and bit 7 is set in
      addition exactly at the registers those irqs select. */
  lemma EnabledSpace(p: Platform, c: Space, fs: seq<Func>, f: Func, irq: nat, off: nat)
    requires p.Ok() && off != DEV_INT_LINE
    ensures var d := EnableAll(p, c, fs, true);
      && (f in fs && Programs(p, c, f, irq) ==> Read(d, LineOf(f)) == irq)
      && Read(d, Route(off)) % 128 == Read(c, Route(off)) % 128
      && (Read(d, Route(off)) >= 128 <==>
            Read(c, Route(off)) >= 128 || exists g :: g in fs && Routes(p, c, g, off))
  {
    EnableAllExactly(p, c, fs, true, LineOf(f));
    EnableAllExactly(p, c, fs, true, Route(off));
    OtherBitsKept(Read(c, Route(off)), true);
  }
}
