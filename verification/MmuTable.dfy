/** The physical memory table: adding a mapping, as a function of table and request. */
module MmuTable {
  import opened Values

  const PAGE: nat := 0x1000
  const U32: nat := 0x1_0000_0000

  datatype Status = OK | ERROR

  datatype Desc = Desc(virtualAddr: nat, physicalAddr: nat, len: nat, mask: nat, state: nat)

  const DUMMY: Desc := Desc(U32 - 1, U32 - 1, U32 - 1, U32 - 1, U32 - 1)

  datatype Request = Request(address: nat, length: nat, mask: nat, state: nat)

  /** The array and the number of active entries. */
  datatype Table = Table(desc: seq<Desc>, num: nat)

  // ----- 32-bit page arithmetic -----

  function RoundDown(x: nat): nat { x / PAGE * PAGE }

  function RoundUp(x: nat): nat { (x + PAGE - 1) % U32 / PAGE * PAGE }

  function PageStart(r: Request): nat { RoundDown(r.address) }

  function PageLength(r: Request): nat { RoundUp(r.length) }

  function PageEnd(r: Request): nat {
    (PageStart(r) + PageLength(r) + U32 - 1) % U32 / PAGE * PAGE
  }

  function MapStart(d: Desc): nat { d.virtualAddr }

  function MapEnd(d: Desc): nat { (d.virtualAddr + d.len + U32 - PAGE) % U32 }

  // ----- How a request meets an entry -----

  predicate Contained(d: Desc, r: Request) {
    PageStart(r) >= MapStart(d) && PageEnd(r) <= MapEnd(d)
  }

  predicate TopOverlap(d: Desc, r: Request) {
    PageStart(r) >= MapStart(d) && PageEnd(r) > MapEnd(d) && PageStart(r) < MapEnd(d)
  }

  predicate BottomOverlap(d: Desc, r: Request) {
    PageStart(r) < MapStart(d) && PageEnd(r) <= MapEnd(d) && PageEnd(r) > MapStart(d)
  }

  predicate Hits(d: Desc, r: Request) {
    Contained(d, r) || TopOverlap(d, r) || BottomOverlap(d, r)
  }

  predicate Suits(d: Desc, r: Request) {
    d.mask == r.mask && d.state == r.state && d.virtualAddr == d.physicalAddr
  }

  /** The first active entry the scan stops at, or the number of entries. */
  function FirstHit(s: seq<Desc>, r: Request): (i: nat)
    ensures i <= |s| && (i < |s| ==> Hits(s[i], r))
    ensures forall k :: 0 <= k < i ==> !Hits(s[k], r)
  {
    if s == [] then 0
    else if Hits(s[0], r) then 0
    else 1 + FirstHit(s[1..], r)
  }

  function Whole(r: Request): Desc {
    Desc(PageStart(r), PageStart(r), PageLength(r), r.mask, r.state)
  }

  /** What a partial overlap leaves of the request. */
  function Remainder(d: Desc, r: Request): Desc {
    if TopOverlap(d, r) then
      var a := (MapEnd(d) + PAGE) % U32;
      Desc(a, a, PageEnd(r) - MapEnd(d), r.mask, r.state)
    else
      var len := if MapStart(d) >= PageStart(r) then MapStart(d) - PageStart(r) else 0;
      Desc(PageStart(r), PageStart(r), len, r.mask, r.state)
  }

  /** By how much the number of active entries is to rise: a partial overlap uses up two slots,
      the remainder and a dummy. */
  function SlotsUsed(t: Table, r: Request): nat
    requires t.num <= |t.desc|
  {
    var i := FirstHit(t.desc[..t.num], r);
    if t.num == 0 then 0
    else if i == t.num then 1
    else if !Suits(t.desc[i], r) || Contained(t.desc[i], r) then 0
    else 2
  }

  /** The slot the routine looks at is in the array; it looks at none that it does not need. */
  predicate InArray(t: Table, r: Request) {
    t.num <= |t.desc| && (SlotsUsed(t, r) > 0 ==> t.num < |t.desc|)
  }

  /** And the number of active entries stays in the array, too. */
  predicate Room(t: Table, r: Request) {
    t.num <= |t.desc| && t.num + SlotsUsed(t, r) <= |t.desc|
  }

  /** The whole operation. */
  function Add(t: Table, r: Request): (Table, Status)
    requires InArray(t, r)
  {
    var i := FirstHit(t.desc[..t.num], r);
    if t.num == 0 then (t, OK)
    else if i < t.num && !Suits(t.desc[i], r) then (t, ERROR)
    else if i < t.num && Contained(t.desc[i], r) then (t, OK)
    else if t.desc[t.num].virtualAddr != DUMMY.virtualAddr then (t, ERROR)
    else if i < t.num then (Table(t.desc[t.num := Remainder(t.desc[i], r)], t.num + 2), OK)
    else (Table(t.desc[t.num := Whole(r)], t.num + 1), OK)
  }

  // ----- The routine in place -----

  class PhysMemTable {
    const desc: array<Desc>
    var numEnt: nat

    constructor (desc: array<Desc>, numEnt: nat)
      ensures this.desc == desc && this.numEnt == numEnt
    {
      this.desc := desc;
      this.numEnt := numEnt;
    }

    function Abs(): Table
      reads this, desc
    {
      Table(desc[..], numEnt)
    }

    /** sysMmuMapAdd */
    method SysMmuMapAdd(r: Request) returns (result: Status)
      requires InArray(Abs(), r)
      modifies this`numEnt, desc
      ensures (Abs(), result) == Add(old(Abs()), r)
    {
      ghost var t := Abs();
      var pageLength := RoundUp(r.length);
      var pageStart := RoundDown(r.address);
      var pageEnd := PageEnd(r);
      var pageAddressTop, pageLengthTop, pageAddressBottom, pageLengthBottom := 0, 0, 0, 0;
      var pageNotMapped, noOverlap, topOverlap, bottomOverlap := false, false, false, false;
      result := OK;

      var i := 0;
      while i < numEnt
        invariant i <= numEnt && Abs() == t
        invariant result == OK && !topOverlap && !bottomOverlap
        invariant noOverlap == pageNotMapped == (i > 0)
        invariant forall k :: 0 <= k < i ==> !Hits(desc[k], r)
      {
        pageNotMapped := true;
        noOverlap := true;
        var mapStart := MapStart(desc[i]);
        var mapEnd := MapEnd(desc[i]);
        if pageStart >= mapStart && pageEnd <= mapEnd {
          if !Suits(desc[i], r) {
            result := ERROR;
            break;
          }
          noOverlap := false;
          pageNotMapped := false;
          break;
        }
        if pageStart >= mapStart && pageEnd > mapEnd && pageStart < mapEnd {
          if !Suits(desc[i], r) {
            result := ERROR;
            break;
          }
          topOverlap := true;
          pageAddressTop := (mapEnd + PAGE) % U32;
          pageLengthTop := pageEnd - mapEnd;
        }
        if pageStart < mapStart && pageEnd <= mapEnd && pageEnd > mapStart {
          if !Suits(desc[i], r) {
            result := ERROR;
            break;
          }
          bottomOverlap := true;
          pageAddressBottom := pageStart;
          pageLengthBottom := mapStart - pageStart;
        }
        if topOverlap || bottomOverlap {
          break;
        }
        i := i + 1;
      }
      FirstHitIs(t.desc[..t.num], r, i);

      if pageNotMapped && result != ERROR {
        if desc[numEnt].virtualAddr != DUMMY.virtualAddr {
          result := ERROR;
        } else {
          Enter(if noOverlap then Some(Desc(pageStart, pageStart, pageLength, r.mask, r.state)) else None,
                if topOverlap then Some(Desc(pageAddressTop, pageAddressTop, pageLengthTop, r.mask, r.state)) else None,
                if bottomOverlap
                then Some(Desc(pageAddressBottom, pageAddressBottom, pageLengthBottom, r.mask, r.state))
                else None);
        }
      }
    }

    /** The writes at the end: up to three entries go to the same slot, and each one counts. */
    method Enter(whole: Option<Desc>, top: Option<Desc>, bottom: Option<Desc>)
      requires numEnt < desc.Length && whole.Some?
      modifies this`numEnt, desc
      ensures numEnt == old(numEnt) + 1 + (if top.Some? then 1 else 0) + (if bottom.Some? then 1 else 0)
      ensures var last := if bottom.Some? then bottom.value else if top.Some? then top.value else whole.value;
        desc[..] == old(desc[..])[old(numEnt) := last]
    {
      var slot := numEnt;
      if whole.Some? {
        desc[slot] := whole.value;
        numEnt := numEnt + 1;
      }
      if top.Some? {
        desc[slot] := top.value;
        numEnt := numEnt + 1;
      }
      if bottom.Some? {
        desc[slot] := bottom.value;
        numEnt := numEnt + 1;
      }
    }
  }

  lemma FirstHitIs(s: seq<Desc>, r: Request, i: nat)
    requires i <= |s| && (i < |s| ==> Hits(s[i], r))
    requires forall k :: 0 <= k < i ==> !Hits(s[k], r)
    ensures FirstHit(s, r) == i
  {
  }
}
