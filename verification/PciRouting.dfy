/** Which interrupt a PCI function gets: the MP table first, then the bridges above it. */
module PciRouting {
  import opened Values

  const NO_ENTRY: int := -1
  /** The first interrupt of the PCI router; lower ones belong to ISA devices. */
  const IOAPIC_PIRQA_INT_LVL: int := 16

  /** An interrupt entry of the MP configuration table: the source irq byte holds the device number
      above two bits of pin. */
  datatype MpEntry = MpEntry(sourceBusId: nat, sourceBusIrq: nat, destApicId: nat, destApicIntIn: nat)

  /** IO APIC ids are consecutive from `baseId`; each has `entries` inputs. */
  datatype Apics = Apics(baseId: nat, count: nat, entries: nat)

  predicate Matches(e: MpEntry, bus: int, dev: int, pin: int) {
    bus == e.sourceBusId && dev == e.sourceBusIrq / 4 && pin == 1 + e.sourceBusIrq % 4
  }

  function IrqOf(a: Apics, e: MpEntry): nat {
    if a.baseId < e.destApicId < a.baseId + a.count
    then e.destApicIntIn + a.entries * (e.destApicId - a.baseId)
    else e.destApicIntIn
  }

  function Lookup(a: Apics, mp: seq<MpEntry>, bus: int, dev: int, pin: int): (irq: int)
    ensures irq >= NO_ENTRY
  {
    if mp == [] then NO_ENTRY
    else if Matches(mp[0], bus, dev, pin) then IrqOf(a, mp[0])
    else Lookup(a, mp[1..], bus, dev, pin)
  }

  /** Entry i is the first that matches. */
  predicate IsFirst(mp: seq<MpEntry>, bus: int, dev: int, pin: int, i: int) {
    && 0 <= i < |mp| && Matches(mp[i], bus, dev, pin)
    && (forall j :: 0 <= j < i ==> !Matches(mp[j], bus, dev, pin))
  }

  /** sysPciFindMpEntry */
  method FindMpEntry(a: Apics, mp: seq<MpEntry>, bus: int, dev: int, pin: int) returns (irq: int)
    ensures irq == Lookup(a, mp, bus, dev, pin)
    ensures irq == NO_ENTRY <==> forall e :: e in mp ==> !Matches(e, bus, dev, pin)
    ensures irq != NO_ENTRY ==> exists i :: IsFirst(mp, bus, dev, pin, i) && irq == IrqOf(a, mp[i])
  {
    var i := 0;
    while i < |mp|
      invariant i <= |mp|
      invariant forall j :: 0 <= j < i ==> !Matches(mp[j], bus, dev, pin)
      invariant Lookup(a, mp, bus, dev, pin) == Lookup(a, mp[i..], bus, dev, pin)
    {
      assert mp[i..][0] == mp[i] && mp[i..][1..] == mp[i + 1..];
      if Matches(mp[i], bus, dev, pin) {
        assert IsFirst(mp, bus, dev, pin, i);
        irq := mp[i].destApicIntIn;
        if mp[i].destApicId > a.baseId && mp[i].destApicId < a.baseId + a.count {
          irq := irq + a.entries * (mp[i].destApicId - a.baseId);
        }
        return;
      }
      i := i + 1;
    }
    return NO_ENTRY;
  }

  /** An entry's irq byte names one device and one pin: it matches there and nowhere else. */
  lemma MatchesExactly(bus: nat, dev: nat, pin: nat, apic: nat, input: nat, b: int, d: int, p: int)
    requires 1 <= pin <= 4
    ensures Matches(MpEntry(bus, 4 * dev + (pin - 1), apic, input), b, d, p) <==> b == bus && d == dev && p == pin
  {
  }

  /** The table says what its first matching entry says. */
  lemma {:induction false} LookupIsFirst(a: Apics, mp: seq<MpEntry>, bus: int, dev: int, pin: int, i: int)
    requires IsFirst(mp, bus, dev, pin, i)
    ensures Lookup(a, mp, bus, dev, pin) == IrqOf(a, mp[i])
    decreases i
  {
    if i > 0 {
      assert IsFirst(mp[1..], bus, dev, pin, i - 1);
      LookupIsFirst(a, mp[1..], bus, dev, pin, i - 1);
    }
  }

  lemma {:induction false} NoMatchNoEntry(a: Apics, mp: seq<MpEntry>, bus: int, dev: int, pin: int)
    requires forall e :: e in mp ==> !Matches(e, bus, dev, pin)
    ensures Lookup(a, mp, bus, dev, pin) == NO_ENTRY
    decreases |mp|
  {
    if mp != [] {
      NoMatchNoEntry(a, mp[1..], bus, dev, pin);
    }
  }

  /** An entry for an IO APIC outside the known ones keeps its input number. */
  lemma OtherApicKeepsInput(a: Apics, e: MpEntry)
    requires e.destApicId <= a.baseId || e.destApicId >= a.baseId + a.count
    ensures IrqOf(a, e) == e.destApicIntIn
  {
  }

  /** From the irq number the APIC and its input can always be derived again. */
  lemma IrqTellsApicAndPin(a: Apics, e: MpEntry)
    requires a.baseId <= e.destApicId < a.baseId + a.count && e.destApicIntIn < a.entries
    ensures IrqOf(a, e) / a.entries == e.destApicId - a.baseId
    ensures IrqOf(a, e) % a.entries == e.destApicIntIn
  {
    DivModIs(e.destApicId - a.baseId, a.entries, e.destApicIntIn);
  }

  lemma DivModIs(q: nat, n: nat, r: nat)
    requires r < n
    ensures (r + n * q) / n == q && (r + n * q) % n == r
  {
    var x := r + n * q;
    var k := x / n;
    assert x == n * k + x % n;
    SameMultiple(n, k, x % n, q, r);
  }

  lemma SameMultiple(n: nat, k: int, s: nat, q: int, r: nat)
    requires s < n && r < n && n * k + s == n * q + r
    ensures k == q && s == r
  {
    assert n * (k - q) == r - s;
    if k >= q + 1 {
      MultipleAtLeast(n, k - q);
    } else if q >= k + 1 {
      assert n * (q - k) == s - r;
      MultipleAtLeast(n, q - k);
    }
  }

  lemma MultipleAtLeast(n: nat, d: int)
    requires d >= 1
    ensures n * d >= n
  {
  }

  // ----- The bridges -----

  datatype Bridge = Bridge(bus: nat, dev: nat, func: nat, priBus: nat, secBus: nat, pin: nat, cardbus: bool)

  /** Every bridge leads away from the root. */
  predicate Topology(bs: seq<Bridge>) {
    forall i :: 0 <= i < |bs| ==> bs[i].bus < bs[i].secBus
  }

  /** The first listed bridge whose secondary bus is `bus`. */
  function Parent(bs: seq<Bridge>, bus: nat): (p: Option<Bridge>)
    ensures p.Some? ==> p.value in bs && p.value.secBus == bus
    ensures p == None <==> forall b :: b in bs ==> b.secBus != bus
  {
    if bs == [] then None
    else if bs[0].secBus == bus then Some(bs[0])
    else Parent(bs[1..], bus)
  }

  /** The zero-based pin on the primary side: the swizzle, unless a CardBus bridge has its own. */
  function PinUp(b: Bridge, dev: nat, pin: nat): nat
    requires pin >= 1
  {
    if b.cardbus && b.pin != 0 then b.pin else (dev + (pin - 1)) % 4
  }

  predicate Usable(irq: int) { irq != NO_ENTRY && irq >= IOAPIC_PIRQA_INT_LVL }

  /** The climb from a device that has no entry of its own. */
  function Climb(a: Apics, mp: seq<MpEntry>, bs: seq<Bridge>, bus: nat, dev: nat, pin: nat): Option<nat>
    requires Topology(bs) && pin >= 1
    decreases bus
  {
    match Parent(bs, bus)
    case None => None
    case Some(b) =>
      var up := PinUp(b, dev, pin);
      var irq := Lookup(a, mp, b.bus, b.dev, up + 1);
      if Usable(irq) then Some(irq)
      else if b.bus == 0 && b.priBus == 0 then None
      else Climb(a, mp, bs, b.bus, b.dev, up + 1)
  }

  /** The same without the exit at the root bus. */
  function ClimbToTop(a: Apics, mp: seq<MpEntry>, bs: seq<Bridge>, bus: nat, dev: nat, pin: nat): Option<nat>
    requires Topology(bs) && pin >= 1
    decreases bus
  {
    match Parent(bs, bus)
    case None => None
    case Some(b) =>
      var up := PinUp(b, dev, pin);
      var irq := Lookup(a, mp, b.bus, b.dev, up + 1);
      if Usable(irq) then Some(irq) else ClimbToTop(a, mp, bs, b.bus, b.dev, up + 1)
  }

  /** The whole resolution of a function with interrupt pin `pin`. */
  function Resolve(a: Apics, mp: seq<MpEntry>, bs: seq<Bridge>, bus: nat, dev: nat, pin: nat): Option<nat>
    requires Topology(bs)
  {
    if pin > 4 || pin == 0 then None
    else
      var irq := Lookup(a, mp, bus, dev, pin);
      if irq != NO_ENTRY then Some(irq) else Climb(a, mp, bs, bus, dev, pin)
  }

  lemma {:induction false} RootExitChangesNothing(
    a: Apics, mp: seq<MpEntry>, bs: seq<Bridge>, bus: nat, dev: nat, pin: nat)
    requires Topology(bs) && pin >= 1
    ensures Climb(a, mp, bs, bus, dev, pin) == ClimbToTop(a, mp, bs, bus, dev, pin)
    decreases bus
  {
    match Parent(bs, bus)
    case None =>
    case Some(b) =>
      RootExitChangesNothing(a, mp, bs, b.bus, b.dev, PinUp(b, dev, pin) + 1);
      if b.bus == 0 {
        assert Parent(bs, 0) == None;
      }
  }

  /** One round of the climb: without a usable entry it goes on above, root exit or not. */
  lemma ClimbRound(a: Apics, mp: seq<MpEntry>, bs: seq<Bridge>, bus: nat, dev: nat, pin: nat, b: Bridge, up: nat)
    requires Topology(bs) && pin >= 1 && Parent(bs, bus) == Some(b) && up == PinUp(b, dev, pin)
    ensures b.bus < bus
    ensures var irq := Lookup(a, mp, b.bus, b.dev, up + 1);
      && (Usable(irq) ==> Climb(a, mp, bs, bus, dev, pin) == Some(irq))
      && (!Usable(irq) ==>
            && Climb(a, mp, bs, bus, dev, pin) == Climb(a, mp, bs, b.bus, b.dev, up + 1)
            && (b.bus == 0 ==> Climb(a, mp, bs, bus, dev, pin) == None))
  {
    if b.bus == 0 {
      assert Parent(bs, 0) == None;
    }
  }

  // ----- The swizzle rule -----

  /** The bridges above a bus, lowest first. */
  function Path(bs: seq<Bridge>, bus: nat): seq<Bridge>
    requires Topology(bs)
    decreases bus
  {
    match Parent(bs, bus)
    case None => []
    case Some(b) => [b] + Path(bs, b.bus)
  }

  function SumDev(p: seq<Bridge>): nat {
    if p == [] then 0 else p[0].dev + SumDev(p[1..])
  }

  predicate Plain(b: Bridge) { !(b.cardbus && b.pin != 0) }

  /** The pin at the k-th bridge, by the rule of the PCI-to-PCI bridge specification. */
  function SwizzledPin(p: seq<Bridge>, dev: nat, pin: nat, k: nat): nat
    requires pin >= 1 && k <= |p|
  {
    1 + (pin - 1 + dev + SumDev(p[..k])) % 4
  }

  /** What the MP table says for the k-th bridge of the path at its swizzled pin. */
  function IrqAt(a: Apics, mp: seq<MpEntry>, p: seq<Bridge>, dev: nat, pin: nat, k: nat): int
    requires pin >= 1 && k < |p|
  {
    Lookup(a, mp, p[k].bus, p[k].dev, SwizzledPin(p, dev, pin, k))
  }

  /** One step up: pins above the first bridge seen from it are pins seen from the device. */
  lemma SwizzleShifts(p: seq<Bridge>, dev: nat, pin: nat, k: nat)
    requires pin >= 1 && 1 <= k <= |p|
    ensures SwizzledPin(p[1..], p[0].dev, SwizzledPin(p, dev, pin, 0), k - 1) == SwizzledPin(p, dev, pin, k)
  {
    assert p[..k][0] == p[0] && p[..k][1..] == p[1..][..k - 1];
    assert p[..0] == [];
    var rest := SumDev(p[1..][..k - 1]);
    assert SumDev(p[..k]) == p[0].dev + rest;
    ModAdds(pin - 1 + dev, p[0].dev + rest);
  }

  lemma ModAdds(x: nat, y: nat)
    ensures (x % 4 + y) % 4 == (x + y) % 4
  {
  }

  function PathIrqs(a: Apics, mp: seq<MpEntry>, p: seq<Bridge>, dev: nat, pin: nat): (irqs: seq<int>)
    requires pin >= 1
  {
    seq(|p|, k requires 0 <= k < |p| => IrqAt(a, mp, p, dev, pin, k))
  }

  /** The first irq of a list that is of the PCI router; those below 16 belong to ISA devices. */
  function FirstUsable(irqs: seq<int>): Option<nat> {
    if irqs == [] then None
    else if irqs[0] >= 16 then Some(irqs[0])
    else FirstUsable(irqs[1..])
  }

  /** FirstUsable is what its name says. */
  lemma {:induction false} FirstUsableIs(irqs: seq<int>, k: nat)
    requires k <= |irqs| && (k < |irqs| ==> irqs[k] >= 16)
    requires forall j :: 0 <= j < k ==> irqs[j] < 16
    ensures FirstUsable(irqs) == if k < |irqs| then Some(irqs[k]) else None
  {
    if k > 0 {
      FirstUsableIs(irqs[1..], k - 1);
    }
  }

  lemma FirstUsableCons(x: int, irqs: seq<int>)
    ensures FirstUsable([x] + irqs) == if x >= 16 then Some(x) else FirstUsable(irqs)
  {
    assert ([x] + irqs)[1..] == irqs;
  }

  /** All bridges on the path above a bus are plain. */
  predicate PlainPath(bs: seq<Bridge>, bus: nat)
    requires Topology(bs)
    decreases bus
  {
    match Parent(bs, bus)
    case None => true
    case Some(b) => Plain(b) && PlainPath(bs, b.bus)
  }

  /** The climb without root exit, one plain bridge at a time. */
  lemma {:induction false} ToTopIsLowestSwizzled(
    a: Apics, mp: seq<MpEntry>, bs: seq<Bridge>, bus: nat, dev: nat, pin: nat)
    requires Topology(bs) && pin >= 1 && PlainPath(bs, bus)
    ensures ClimbToTop(a, mp, bs, bus, dev, pin) == FirstUsable(PathIrqs(a, mp, Path(bs, bus), dev, pin))
    decreases bus
  {
    match Parent(bs, bus)
    case None =>
    case Some(b) =>
      var p := Path(bs, bus);
      PathIrqsCons(a, mp, b, Path(bs, b.bus), dev, pin);
      var first := SwizzledPin(p, dev, pin, 0);
      FirstPin(p, dev, pin);
      FirstUsableCons(Lookup(a, mp, b.bus, b.dev, first), PathIrqs(a, mp, Path(bs, b.bus), b.dev, first));
      ToTopIsLowestSwizzled(a, mp, bs, b.bus, b.dev, first);
  }

  lemma PathIrqsCons(a: Apics, mp: seq<MpEntry>, b: Bridge, q: seq<Bridge>, dev: nat, pin: nat)
    requires pin >= 1
    ensures var first := SwizzledPin([b] + q, dev, pin, 0);
      PathIrqs(a, mp, [b] + q, dev, pin)
      == [Lookup(a, mp, b.bus, b.dev, first)] + PathIrqs(a, mp, q, b.dev, first)
  {
    var p := [b] + q;
    assert p[1..] == q;
    PathIrqsShift(a, mp, p, dev, pin);
    var irqs := PathIrqs(a, mp, p, dev, pin);
    assert irqs == [irqs[0]] + irqs[1..];
  }

  lemma FirstPin(p: seq<Bridge>, dev: nat, pin: nat)
    requires pin >= 1 && p != [] && Plain(p[0])
    ensures SwizzledPin(p, dev, pin, 0) == PinUp(p[0], dev, pin) + 1
  {
    assert p[..0] == [];
  }

  /** The climb meets the rule: above plain bridges it yields the usable irq of the lowest bridge on
      the path that has one at its swizzled pin, and none when no bridge has. */
  lemma ClimbIsLowestSwizzled(a: Apics, mp: seq<MpEntry>, bs: seq<Bridge>, bus: nat, dev: nat, pin: nat)
    requires Topology(bs) && pin >= 1 && PlainPath(bs, bus)
    ensures Climb(a, mp, bs, bus, dev, pin) == FirstUsable(PathIrqs(a, mp, Path(bs, bus), dev, pin))
  {
    RootExitChangesNothing(a, mp, bs, bus, dev, pin);
    ToTopIsLowestSwizzled(a, mp, bs, bus, dev, pin);
  }

  lemma PathIrqsShift(a: Apics, mp: seq<MpEntry>, p: seq<Bridge>, dev: nat, pin: nat)
    requires pin >= 1 && p != []
    ensures PathIrqs(a, mp, p, dev, pin)[1..]
      == PathIrqs(a, mp, p[1..], p[0].dev, SwizzledPin(p, dev, pin, 0))
  {
    var irqs := PathIrqs(a, mp, p, dev, pin);
    var rest := PathIrqs(a, mp, p[1..], p[0].dev, SwizzledPin(p, dev, pin, 0));
    forall k | 0 <= k < |p| - 1 ensures irqs[1..][k] == rest[k] {
      SwizzleShifts(p, dev, pin, k + 1);
    }
  }

  // ----- The whole resolution -----

  /** A function with an entry of its own gets the irq of the first one, ISA or not, bridges or not. */
  lemma OwnEntryWins(a: Apics, mp: seq<MpEntry>, bs: seq<Bridge>, bus: nat, dev: nat, pin: nat, i: int)
    requires Topology(bs) && 1 <= pin <= 4 && IsFirst(mp, bus, dev, pin, i)
    ensures Resolve(a, mp, bs, bus, dev, pin) == Some(IrqOf(a, mp[i]))
  {
    LookupIsFirst(a, mp, bus, dev, pin, i);
  }

  /** Without one it gets what the bridges above yield: nothing, if they have no entry either. */
  lemma OthersGetTheBridges(a: Apics, mp: seq<MpEntry>, bs: seq<Bridge>, bus: nat, dev: nat, pin: nat)
    requires Topology(bs) && 1 <= pin <= 4 && PlainPath(bs, bus)
    requires forall e :: e in mp ==> !Matches(e, bus, dev, pin)
    ensures Resolve(a, mp, bs, bus, dev, pin) == FirstUsable(PathIrqs(a, mp, Path(bs, bus), dev, pin))
  {
    NoMatchNoEntry(a, mp, bus, dev, pin);
    ClimbIsLowestSwizzled(a, mp, bs, bus, dev, pin);
  }

  /** A function without a pin, or with a number that is none, gets nothing. */
  lemma NoPinNoIrq(a: Apics, mp: seq<MpEntry>, bs: seq<Bridge>, bus: nat, dev: nat, pin: nat)
    requires Topology(bs) && !(1 <= pin <= 4)
    ensures Resolve(a, mp, bs, bus, dev, pin) == None
  {
  }

  /** Below a CardBus bridge that has a pin of its own neither slot nor pin of the device matter: the
      bridge is looked up, and the climb goes on, under the bridge's pin number plus one. */
  lemma CardBusPinWins(a: Apics, mp: seq<MpEntry>, bs: seq<Bridge>, bus: nat, dev: nat, pin: nat, b: Bridge)
    requires Topology(bs) && pin >= 1 && Parent(bs, bus) == Some(b) && b.cardbus && b.pin != 0
    ensures var irq := Lookup(a, mp, b.bus, b.dev, b.pin + 1);
      Climb(a, mp, bs, bus, dev, pin) == if irq >= 16 then Some(irq) else Climb(a, mp, bs, b.bus, b.dev, b.pin + 1)
  {
    ClimbRound(a, mp, bs, bus, dev, pin, b, b.pin);
  }

  // ----- The list of bridges -----

  /** Two bridges that a climb cannot tell apart: the same place, and the same pin above. */
  predicate Alike(b: Bridge, c: Bridge) {
    b.bus == c.bus && b.dev == c.dev && (Plain(b) <==> Plain(c)) && (!Plain(b) ==> b.pin == c.pin)
  }

  /** Whatever the bus, the bridges above it in the two lists are alike. */
  ghost predicate ParentsAlike(bs: seq<Bridge>, cs: seq<Bridge>) {
    forall bus: nat :: AlikeIfAny(Parent(bs, bus), Parent(cs, bus))
  }

  predicate AlikeIfAny(p: Option<Bridge>, q: Option<Bridge>) {
    (p == None <==> q == None) && (p.Some? ==> q.Some? && Alike(p.value, q.value))
  }

  /** Lists with alike parents give the same climb. */
  lemma {:induction false} ClimbByParents(
    a: Apics, mp: seq<MpEntry>, bs: seq<Bridge>, cs: seq<Bridge>, bus: nat, dev: nat, pin: nat)
    requires Topology(bs) && Topology(cs) && ParentsAlike(bs, cs) && pin >= 1
    ensures Climb(a, mp, bs, bus, dev, pin) == Climb(a, mp, cs, bus, dev, pin)
    decreases bus
  {
    var p, q := Parent(bs, bus), Parent(cs, bus);
    assert AlikeIfAny(p, q);
    if p.Some? {
      var b, up := p.value, PinUp(p.value, dev, pin);
      ClimbRound(a, mp, bs, bus, dev, pin, b, up);
      ClimbRound(a, mp, cs, bus, dev, pin, q.value, up);
      ClimbByParents(a, mp, bs, cs, b.bus, b.dev, up + 1);
    }
  }

  /** Two listed bridges with the same secondary bus are alike. */
  predicate AlikeParents(bs: seq<Bridge>) {
    forall i, j :: 0 <= i < |bs| && 0 <= j < |bs| && bs[i].secBus == bs[j].secBus ==> Alike(bs[i], bs[j])
  }

  ghost predicate SameBridges(bs: seq<Bridge>, cs: seq<Bridge>) {
    forall b :: b in bs <==> b in cs
  }

  lemma SameParents(bs: seq<Bridge>, cs: seq<Bridge>)
    requires AlikeParents(bs) && SameBridges(bs, cs)
    ensures ParentsAlike(bs, cs)
  {
    forall bus: nat ensures AlikeIfAny(Parent(bs, bus), Parent(cs, bus)) {
      var p, q := Parent(bs, bus), Parent(cs, bus);
      if p.Some? {
        assert p.value in cs;
      }
      if q.Some? {
        assert q.value in bs;
      }
    }
  }

  lemma SameTopology(bs: seq<Bridge>, cs: seq<Bridge>)
    requires Topology(bs) && SameBridges(bs, cs)
    ensures Topology(cs)
  {
    forall i | 0 <= i < |cs| ensures cs[i].bus < cs[i].secBus {
      assert cs[i] in bs;
    }
  }

  /** However the list is ordered, and however often a bridge is listed, the resolution is one. */
  lemma OrderChangesNothing(a: Apics, mp: seq<MpEntry>, bs: seq<Bridge>, cs: seq<Bridge>, bus: nat, dev: nat, pin: nat)
    requires Topology(bs) && AlikeParents(bs) && SameBridges(bs, cs) && pin >= 1
    ensures Topology(cs) && Climb(a, mp, bs, bus, dev, pin) == Climb(a, mp, cs, bus, dev, pin)
  {
    SameTopology(bs, cs);
    SameParents(bs, cs);
    ClimbByParents(a, mp, bs, cs, bus, dev, pin);
  }

  // ----- When the order matters -----

  /** Every rearrangement of the list gives the same climbs, whatever the MP table says. */
  ghost predicate OrderIrrelevant(bs: seq<Bridge>) {
    forall cs, a, mp, bus: nat, dev: nat, pin: nat ::
      Topology(bs) && Topology(cs) && multiset(bs) == multiset(cs) && pin >= 1 ==>
        Climb(a, mp, bs, bus, dev, pin) == Climb(a, mp, cs, bus, dev, pin)
  }

  function ToFront(bs: seq<Bridge>, i: nat): seq<Bridge>
    requires i < |bs|
  {
    [bs[i]] + bs[..i] + bs[i + 1..]
  }

  lemma ToFrontRearranges(bs: seq<Bridge>, i: nat)
    requires i < |bs|
    ensures multiset(ToFront(bs, i)) == multiset(bs)
    ensures Topology(bs) ==> Topology(ToFront(bs, i))
    ensures Parent(ToFront(bs, i), bs[i].secBus) == Some(bs[i])
  {
    assert bs == bs[..i] + [bs[i]] + bs[i + 1..];
  }

  /** The entry of the first pin of a device, and the irq it stands for. */
  function EntryFor(b: Bridge, irq: nat): MpEntry {
    MpEntry(b.bus, 4 * b.dev, 0, irq)
  }

  /** An MP table that tells two places apart tells which of the two bridges is listed first. */
  lemma FrontDecides(bs: seq<Bridge>, i: nat, mp: seq<MpEntry>, irq: nat)
    requires Topology(bs) && i < |bs| && Plain(bs[i]) && irq >= IOAPIC_PIRQA_INT_LVL
    requires Lookup(Apics(0, 1, 1), mp, bs[i].bus, bs[i].dev, 1) == irq
    ensures Topology(ToFront(bs, i)) && multiset(ToFront(bs, i)) == multiset(bs)
    ensures Climb(Apics(0, 1, 1), mp, ToFront(bs, i), bs[i].secBus, 0, 1) == Some(irq)
  {
    ToFrontRearranges(bs, i);
    ClimbRound(Apics(0, 1, 1), mp, ToFront(bs, i), bs[i].secBus, 0, 1, bs[i], 0);
  }

  lemma TwoEntries(b: Bridge, c: Bridge)
    requires b.bus != c.bus || b.dev != c.dev
    ensures var mp := [EntryFor(b, 16), EntryFor(c, 17)];
      && Lookup(Apics(0, 1, 1), mp, b.bus, b.dev, 1) == 16
      && Lookup(Apics(0, 1, 1), mp, c.bus, c.dev, 1) == 17
  {
    var mp := [EntryFor(b, 16), EntryFor(c, 17)];
    assert mp[1..] == [EntryFor(c, 17)];
    assert Matches(mp[0], b.bus, b.dev, 1) && Matches(mp[1], c.bus, c.dev, 1);
    assert !Matches(mp[0], c.bus, c.dev, 1);
  }

  /** Two plain bridges at different places lead to the same bus: the order of the list decides. */
  lemma OrderCanMatter(bs: seq<Bridge>, i: nat, j: nat)
    requires Topology(bs) && i < |bs| && j < |bs| && bs[i].secBus == bs[j].secBus
    requires Plain(bs[i]) && Plain(bs[j]) && !Alike(bs[i], bs[j])
    ensures !OrderIrrelevant(bs)
  {
    var mp := [EntryFor(bs[i], 16), EntryFor(bs[j], 17)];
    TwoEntries(bs[i], bs[j]);
    FrontDecides(bs, i, mp, 16);
    FrontDecides(bs, j, mp, 17);
  }

  /** For lists of plain bridges the order is irrelevant if and only if bridges with the same
      secondary bus sit at the same place. */
  lemma OrderIrrelevantExactly(bs: seq<Bridge>)
    requires Topology(bs) && forall b :: b in bs ==> Plain(b)
    ensures OrderIrrelevant(bs) <==> AlikeParents(bs)
  {
    if AlikeParents(bs) {
      forall cs, a, mp, bus: nat, dev: nat, pin: nat | Topology(cs) && multiset(bs) == multiset(cs) && pin >= 1
        ensures Climb(a, mp, bs, bus, dev, pin) == Climb(a, mp, cs, bus, dev, pin)
      {
        RearrangedIsSame(bs, cs);
        OrderChangesNothing(a, mp, bs, cs, bus, dev, pin);
      }
    } else {
      var i, j :| 0 <= i < |bs| && 0 <= j < |bs| && bs[i].secBus == bs[j].secBus && !Alike(bs[i], bs[j]);
      OrderCanMatter(bs, i, j);
    }
  }

  lemma RearrangedIsSame(bs: seq<Bridge>, cs: seq<Bridge>)
    requires multiset(bs) == multiset(cs)
    ensures SameBridges(bs, cs)
  {
    forall b ensures b in bs <==> b in cs {
      assert b in bs <==> b in multiset(bs);
    }
  }

  lemma {:induction false} ParentOfAppended(bs: seq<Bridge>, cs: seq<Bridge>, bus: nat)
    ensures Parent(bs + cs, bus) == if Parent(bs, bus).Some? then Parent(bs, bus) else Parent(cs, bus)
    decreases |bs|
  {
    if bs == [] {
      assert bs + cs == cs;
    } else {
      assert (bs + cs)[0] == bs[0] && (bs + cs)[1..] == bs[1..] + cs;
      ParentOfAppended(bs[1..], cs, bus);
    }
  }

  /** Scanning the bridges a second time, which lists each of them again behind the first
      listing, changes no resolution; the bridges need not have distinct secondary buses. */
  lemma RescanChangesNothing(a: Apics, mp: seq<MpEntry>, bs: seq<Bridge>, bus: nat, dev: nat, pin: nat)
    requires Topology(bs) && pin >= 1
    ensures Topology(bs + bs) && Climb(a, mp, bs + bs, bus, dev, pin) == Climb(a, mp, bs, bus, dev, pin)
  {
    forall bus: nat ensures AlikeIfAny(Parent(bs + bs, bus), Parent(bs, bus)) {
      ParentOfAppended(bs, bs, bus);
    }
    ClimbByParents(a, mp, bs + bs, bs, bus, dev, pin);
  }
}
