/** Mapping the usable ranges of the BIOS memory map. */
module MmuE820 {
  import opened MmuTable
  import opened MmuCoverage

  const LOCAL_MEM_LOCAL_ADRS: nat := 0x0010_0000
  const PAGE_SIZE_4MB: nat := 0x0040_0000

  /** One BIOS descriptor; address and length are 64 bits wide. */
  datatype MapDesc = MapDesc(usable: bool, addr: nat, len: nat)

  predicate Qualifies(d: MapDesc) {
    && d.usable && d.addr != 0 && d.addr != LOCAL_MEM_LOCAL_ADRS
    && d.addr < U32 && d.len >= PAGE_SIZE_4MB
  }

  /** What is to be mapped: usable memory that is neither at address 0 nor the memory at 1 MB, which is
      mapped already, begins in the 32-bit space and is at least 4 MB large. */
  predicate ToBeMapped(d: MapDesc) {
    && d.usable
    && d.addr != 0 && d.addr != 0x10_0000 && d.addr < 0x1_0000_0000
    && d.len >= 0x40_0000
  }

  /** Address and length are cut to 32 bits for the call. */
  function RequestOf(d: MapDesc, mask: nat, state: nat): Request {
    Request(d.addr % U32, d.len % U32, mask, state)
  }

  /** Every call that is made fits the 32-bit space and finds room. */
  predicate Mappable(t: Table, ds: seq<MapDesc>, mask: nat, state: nat)
    decreases |ds|
  {
    ds == [] ||
    if !Qualifies(ds[0]) then Mappable(t, ds[1..], mask, state)
    else
      var r := RequestOf(ds[0], mask, state);
      && Fits(r) && Room(t, r)
      && (Add(t, r).1 == OK ==> Mappable(Add(t, r).0, ds[1..], mask, state))
  }

  /** How many descriptors are processed before the first refusal, and the table then. */
  function MapUsable(t: Table, ds: seq<MapDesc>, mask: nat, state: nat): (Table, nat)
    requires Mappable(t, ds, mask, state)
    decreases |ds|
  {
    if ds == [] then (t, 0)
    else if !Qualifies(ds[0]) then
      var (u, n) := MapUsable(t, ds[1..], mask, state);
      (u, n + 1)
    else
      var (t1, st) := Add(t, RequestOf(ds[0], mask, state));
      if st == ERROR then (t, 0)
      else
        var (u, n) := MapUsable(t1, ds[1..], mask, state);
        (u, n + 1)
  }

  /** Every request to be made before the first refusal is covered at the end, no earlier entry was
      altered, and if the loop stopped early it stopped at a range to be mapped that was refused. */
  lemma {:induction false} RequestsCovered(t: Table, ds: seq<MapDesc>, mask: nat, state: nat)
    requires TableOk(t) && Mappable(t, ds, mask, state)
    ensures var (u, n) := MapUsable(t, ds, mask, state);
      && TableOk(u) && Extends(t, u) && n <= |ds|
      && (forall k :: 0 <= k < n && ToBeMapped(ds[k]) ==> Covered(u, RequestOf(ds[k], mask, state)))
      && (n < |ds| ==> ToBeMapped(ds[n]) && Refused(u, ds[n], mask, state))
    decreases |ds|
  {
    if ds == [] {
    } else if !Qualifies(ds[0]) {
      RequestsCovered(t, ds[1..], mask, state);
    } else {
      var r := RequestOf(ds[0], mask, state);
      AddKeepsAndCovers(t, r);
      var (t1, st) := Add(t, r);
      if st == OK {
        RequestsCovered(t1, ds[1..], mask, state);
        var (u, n) := MapUsable(t, ds, mask, state);
        assert u == MapUsable(t1, ds[1..], mask, state).0;
        ExtendsKeepsCovered(t1, u, r);
        forall k | 0 <= k < n && ToBeMapped(ds[k]) ensures Covered(u, RequestOf(ds[k], mask, state)) {
          if k > 0 {
            assert ds[k] == ds[1..][k - 1];
          }
        }
      }
    }
  }

  /** An entry comes from a range: it covers nothing but pages requested for it. */
  ghost predicate From(d: Desc, m: MapDesc, mask: nat, state: nat) {
    forall p :: Covers(d, p) ==> InRequest(RequestOf(m, mask, state), p)
  }

  ghost predicate FromOne(d: Desc, ds: seq<MapDesc>, mask: nat, state: nat) {
    exists k :: 0 <= k < |ds| && ToBeMapped(ds[k]) && From(d, ds[k], mask, state)
  }

  /** What one call adds covers nothing but pages requested. */
  lemma AddedFromRequest(t: Table, r: Request, i: nat, p: int)
    requires TableOk(t) && Fits(r) && Room(t, r) && t.num <= i < Add(t, r).0.num
    ensures i < |Add(t, r).0.desc| && (Covers(Add(t, r).0.desc[i], p) ==> InRequest(r, p))
  {
    var h := FirstHit(t.desc[..t.num], r);
    if h < t.num {
      RemainderIsExact(t.desc[h], r);
    } else {
      WholeIsExact(r);
    }
  }

  /** Nothing else is mapped: every entry added comes from some range that was to be mapped. */
  lemma {:induction false} NothingElseMapped(t: Table, ds: seq<MapDesc>, mask: nat, state: nat)
    requires TableOk(t) && Mappable(t, ds, mask, state)
    ensures var u := MapUsable(t, ds, mask, state).0;
      u.num <= |u.desc| && forall i :: t.num <= i < u.num ==> FromOne(u.desc[i], ds, mask, state)
    decreases |ds|
  {
    RequestsCovered(t, ds, mask, state);
    if ds != [] {
      var u := MapUsable(t, ds, mask, state).0;
      if !Qualifies(ds[0]) {
        NothingElseMapped(t, ds[1..], mask, state);
        forall i | t.num <= i < u.num ensures FromOne(u.desc[i], ds, mask, state) {
          FromRest(u.desc[i], ds, mask, state);
        }
      } else if Add(t, RequestOf(ds[0], mask, state)).1 == OK {
        var r := RequestOf(ds[0], mask, state);
        var t1 := Add(t, r).0;
        AddKeepsAndCovers(t, r);
        RequestsCovered(t1, ds[1..], mask, state);
        NothingElseMapped(t1, ds[1..], mask, state);
        forall i | t.num <= i < u.num ensures FromOne(u.desc[i], ds, mask, state) {
          if i < t1.num {
            forall p ensures Covers(u.desc[i], p) ==> InRequest(r, p) {
              AddedFromRequest(t, r, i, p);
            }
            assert From(u.desc[i], ds[0], mask, state);
          } else {
            FromRest(u.desc[i], ds, mask, state);
          }
        }
      }
    }
  }

  lemma FromRest(d: Desc, ds: seq<MapDesc>, mask: nat, state: nat)
    requires ds != [] && FromOne(d, ds[1..], mask, state)
    ensures FromOne(d, ds, mask, state)
  {
    var k :| 0 <= k < |ds[1..]| && ToBeMapped(ds[1..][k]) && From(d, ds[1..][k], mask, state);
    assert ds[k + 1] == ds[1..][k];
  }

  predicate Refused(u: Table, d: MapDesc, mask: nat, state: nat) {
    && InArray(u, RequestOf(d, mask, state))
    && Add(u, RequestOf(d, mask, state)).1 == ERROR
  }

  // ----- The ranges themselves -----

  predicate InRange(d: MapDesc, p: int) { d.addr <= p < d.addr + d.len }

  predicate MapsAt(d: Desc, p: int, mask: nat, state: nat) {
    Covers(d, p) && d.physicalAddr == d.virtualAddr && d.mask == mask && d.state == state
  }

  /** Some entry identity-maps the address with the mask and state. */
  ghost predicate MappedAt(t: Table, p: int, mask: nat, state: nat)
    requires t.num <= |t.desc|
  {
    exists i :: 0 <= i < t.num && MapsAt(t.desc[i], p, mask, state)
  }

  /** Every address of the range is identity-mapped with the mask and state. */
  ghost predicate RangeMapped(t: Table, d: MapDesc, mask: nat, state: nat)
    requires t.num <= |t.desc|
  {
    forall p :: InRange(d, p) ==> MappedAt(t, p, mask, state)
  }

  /** The pages of the call hold the whole range. */
  predicate InPages(d: MapDesc, mask: nat, state: nat) {
    d.len < U32 && d.addr % PAGE + d.len <= PageLength(RequestOf(d, mask, state))
  }

  lemma InPagesExactly(d: MapDesc, mask: nat, state: nat)
    requires ToBeMapped(d) && Fits(RequestOf(d, mask, state))
    ensures (forall p :: InRange(d, p) ==> InRequest(RequestOf(d, mask, state), p)) <==> InPages(d, mask, state)
    ensures d.addr % PAGE == 0 ==> (InPages(d, mask, state) <==> d.len < U32)
  {
    var r := RequestOf(d, mask, state);
    if d.len < U32 {
      assert forall p :: InRange(d, p) <==> AskedFor(r, p);
      PagesHoldBytesExactly(r);
      assert r.length <= PageLength(r);
    } else {
      RequestShape(r);
      assert InRange(d, U32) && !InRequest(r, U32);
    }
  }

  /** A range of four gigabytes or more is never mapped: its length was cut for the call. */
  lemma LongRangeNotMapped(t: Table, d: MapDesc, mask: nat, state: nat)
    requires TableOk(t) && ToBeMapped(d) && d.len >= U32
    ensures !RangeMapped(t, d, mask, state)
  {
    assert InRange(d, U32);
    assert forall i :: 0 <= i < t.num ==> !Covers(t.desc[i], U32);
  }

  /** The page behind those requested. */
  function NextPage(r: Request): nat { PageStart(r) + PageLength(r) }

  /** An entry that maps the start of a page maps all of it. */
  lemma MapsWholePage(d: Desc, a: nat, p: int, mask: nat, state: nat)
    requires EntryOk(d) && a % PAGE == 0 && a <= p < a + PAGE
    ensures MapsAt(d, a, mask, state) <==> MapsAt(d, p, mask, state)
  {
    if Live(d) {
      PagesAdd(d.virtualAddr, d.len);
      PageBelow(a, d.virtualAddr);
      PageBelow(a, d.virtualAddr + d.len);
    }
  }

  /** What is not in the pages requested lies in the next page. */
  lemma TailInNextPage(d: MapDesc, mask: nat, state: nat, p: int)
    requires ToBeMapped(d) && Fits(RequestOf(d, mask, state)) && d.len < U32
    ensures InRange(d, p) && !InRequest(RequestOf(d, mask, state), p) ==>
      var a := NextPage(RequestOf(d, mask, state)); a % PAGE == 0 && a <= p < a + PAGE
    ensures !InPages(d, mask, state) ==> InRange(d, NextPage(RequestOf(d, mask, state)))
  {
    var r := RequestOf(d, mask, state);
    RequestShape(r);
    PagesAdd(PageStart(r), PageLength(r));
    assert PageStart(r) + r.address % PAGE == r.address;
    assert r.length <= PageLength(r);
  }

  /** At the end a qualifying range before the first refusal is mapped as a whole if and only if it is
      shorter than 2^32 and its pages were requested, or the page behind them is mapped anyway. */
  lemma UsableRangesMapped(t: Table, ds: seq<MapDesc>, mask: nat, state: nat, k: nat)
    requires TableOk(t) && Mappable(t, ds, mask, state)
    requires k < MapUsable(t, ds, mask, state).1 && k < |ds| && ToBeMapped(ds[k])
    ensures var (u, d) := (MapUsable(t, ds, mask, state).0, ds[k]);
      var r := RequestOf(d, mask, state);
      && u.num <= |u.desc|
      && (RangeMapped(u, d, mask, state) <==>
            d.len < U32 && (InPages(d, mask, state) || MappedAt(u, NextPage(r), mask, state)))
      && (d.addr % PAGE == 0 ==> (RangeMapped(u, d, mask, state) <==> d.len < U32))
  {
    RequestsCovered(t, ds, mask, state);
    ProcessedFits(t, ds, mask, state, k);
    var u := MapUsable(t, ds, mask, state).0;
    InPagesExactly(ds[k], mask, state);
    if ds[k].len >= U32 {
      LongRangeNotMapped(u, ds[k], mask, state);
    } else {
      ShortRangeMapped(u, ds[k], mask, state);
    }
  }

  lemma ShortRangeMapped(u: Table, d: MapDesc, mask: nat, state: nat)
    requires TableOk(u) && ToBeMapped(d) && d.len < U32
    requires Fits(RequestOf(d, mask, state)) && Covered(u, RequestOf(d, mask, state))
    ensures var r := RequestOf(d, mask, state);
      RangeMapped(u, d, mask, state) <==> InPages(d, mask, state) || MappedAt(u, NextPage(r), mask, state)
  {
    var r := RequestOf(d, mask, state);
    InPagesExactly(d, mask, state);
    TailInNextPage(d, mask, state, 0);
    forall p | InRequest(r, p) ensures MappedAt(u, p, mask, state) {
      var i :| 0 <= i < u.num && Serves(u.desc[i], r, p);
      assert MapsAt(u.desc[i], p, mask, state);
    }
    if MappedAt(u, NextPage(r), mask, state) {
      var i :| 0 <= i < u.num && MapsAt(u.desc[i], NextPage(r), mask, state);
      forall p | InRange(d, p) ensures MappedAt(u, p, mask, state) {
        if !InRequest(r, p) {
          TailInNextPage(d, mask, state, p);
          MapsWholePage(u.desc[i], NextPage(r), p, mask, state);
        }
      }
    }
  }

  lemma {:induction false} ProcessedFits(t: Table, ds: seq<MapDesc>, mask: nat, state: nat, k: nat)
    requires Mappable(t, ds, mask, state)
    requires k < MapUsable(t, ds, mask, state).1 && k < |ds| && ToBeMapped(ds[k])
    ensures Fits(RequestOf(ds[k], mask, state))
    decreases |ds|
  {
    if k > 0 {
      var t1 := if Qualifies(ds[0]) then Add(t, RequestOf(ds[0], mask, state)).0 else t;
      ProcessedFits(t1, ds[1..], mask, state, k - 1);
    }
  }

  const LONG: MapDesc := MapDesc(true, 0x0020_0000, 0x1_0040_0000)
  const SHIFTED: MapDesc := MapDesc(true, 0x0020_0800, 0x0040_0000)

  /** Four gigabytes and four megabytes: the call succeeds and maps the four megabytes. */
  lemma LongRangeIsCut()
    ensures var t := Example(Desc(0, 0, 0x1000, 1, 1), DUMMY);
      && TableOk(t) && Mappable(t, [LONG], 1, 1) && MapUsable(t, [LONG], 1, 1).1 == 1
      && var u := MapUsable(t, [LONG], 1, 1).0; u.num <= |u.desc| && !RangeMapped(u, LONG, 1, 1)
  {
    var t, r := Example(Desc(0, 0, 0x1000, 1, 1), DUMMY), RequestOf(LONG, 1, 1);
    FirstHitIs(t.desc[..2], r, 2);
    assert [LONG][1..] == [];
    AddKeepsAndCovers(t, r);
    LongRangeNotMapped(Add(t, r).0, LONG, 1, 1);
  }

  /** A range that starts in the middle of a page: its last half page stays unmapped. */
  lemma ShiftedTailNotMapped()
    ensures var t := Example(Desc(0, 0, 0x1000, 1, 1), DUMMY);
      && TableOk(t) && Mappable(t, [SHIFTED], 1, 1) && MapUsable(t, [SHIFTED], 1, 1).1 == 1
      && var u := MapUsable(t, [SHIFTED], 1, 1).0; u.num <= |u.desc| && !RangeMapped(u, SHIFTED, 1, 1)
  {
    var t, r := Example(Desc(0, 0, 0x1000, 1, 1), DUMMY), RequestOf(SHIFTED, 1, 1);
    FirstHitIs(t.desc[..2], r, 2);
    assert [SHIFTED][1..] == [];
    AddKeepsAndCovers(t, r);
    var u := Add(t, r).0;
    assert InRange(SHIFTED, 0x0060_0000);
    assert forall i :: 0 <= i < u.num ==> !Covers(u.desc[i], 0x0060_0000);
  }

  /** The loop of sysPhysMemTop over the BIOS descriptors. */
  method MapAll(table: PhysMemTable, ds: seq<MapDesc>, mask: nat, state: nat)
    requires Mappable(table.Abs(), ds, mask, state)
    modifies table`numEnt, table.desc
    ensures table.Abs() == MapUsable(old(table.Abs()), ds, mask, state).0
  {
    ghost var t := table.Abs();
    var ix := 0;
    while ix < |ds|
      invariant ix <= |ds| && Mappable(table.Abs(), ds[ix..], mask, state)
      invariant MapUsable(table.Abs(), ds[ix..], mask, state).0 == MapUsable(t, ds, mask, state).0
    {
      var mapDesc := ds[ix];
      assert mapDesc == ds[ix..][0] && ds[ix..][1..] == ds[ix + 1..];
      if Qualifies(mapDesc) {
        var r := RequestOf(mapDesc, mask, state);
        var result := table.SysMmuMapAdd(r);
        if result == ERROR {
          return;
        }
      }
      ix := ix + 1;
    }
  }
}
