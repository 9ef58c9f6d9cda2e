/** What the physical memory table guarantees over any sequence of added mappings. */
module MmuCoverage {
  import opened MmuTable

  predicate Live(d: Desc) { d.virtualAddr != DUMMY.virtualAddr }

  /** Entries are dummies, or non-empty page ranges inside the address space. */
  predicate EntryOk(d: Desc) {
    d == DUMMY ||
    (d.virtualAddr % PAGE == 0 && d.len % PAGE == 0 && d.len > 0 && d.virtualAddr + d.len <= U32)
  }

  predicate TableOk(t: Table) {
    && 1 <= t.num <= |t.desc|
    && (forall i :: 0 <= i < t.num ==> EntryOk(t.desc[i]))
    && (forall i :: t.num <= i < |t.desc| ==> t.desc[i] == DUMMY)
  }

  /** The request is not empty, rounding its length does not wrap, and the rounded range does not
      leave the address space. */
  predicate Fits(r: Request) {
    0 < r.length && r.length + PAGE - 1 < U32 && PageStart(r) + (r.length + PAGE - 1) / PAGE * PAGE <= U32
  }

  predicate Covers(d: Desc, p: int) {
    Live(d) && d.virtualAddr <= p < d.virtualAddr + d.len
  }

  predicate InRequest(r: Request, p: int) {
    PageStart(r) <= p < PageStart(r) + PageLength(r)
  }

  /** The pages of a request: rounded down at the start, and up in length. */
  lemma RoundingIs(r: Request)
    requires r.length + PAGE - 1 < U32
    ensures PageStart(r) % PAGE == 0 && PageStart(r) <= r.address < PageStart(r) + PAGE
    ensures PageLength(r) % PAGE == 0 && r.length <= PageLength(r) < r.length + PAGE
  {
    Multiple(r.address);
    Multiple(r.length + PAGE - 1);
  }

  lemma Multiple(x: nat)
    ensures x / PAGE * PAGE % PAGE == 0 && x / PAGE * PAGE <= x < x / PAGE * PAGE + PAGE
  {
  }

  lemma RequestShape(r: Request)
    requires Fits(r)
    ensures PageStart(r) % PAGE == 0 && PageLength(r) % PAGE == 0 && PageLength(r) >= PAGE
    ensures PageStart(r) + PageLength(r) <= U32
    ensures PageEnd(r) == PageStart(r) + PageLength(r) - PAGE
  {
    PagesAdd(PageStart(r), PageLength(r));
    LastPage(PageStart(r) + PageLength(r));
  }

  lemma LastPage(e: nat)
    requires e % PAGE == 0 && PAGE <= e <= U32
    ensures (e + U32 - 1) % U32 / PAGE * PAGE == e - PAGE
  {
    assert (e + U32 - 1) % U32 == e - 1;
  }

  /** The three cases of the scan, as facts about half-open ranges. */
  lemma HitShape(d: Desc, r: Request)
    requires EntryOk(d) && Fits(r)
    ensures var (a, b, s, e) := (PageStart(r), PageStart(r) + PageLength(r), d.virtualAddr, d.virtualAddr + d.len);
      && (Contained(d, r) <==> Live(d) && s <= a && b <= e)
      && (TopOverlap(d, r) <==> Live(d) && s <= a && a + PAGE < e < b)
      && (BottomOverlap(d, r) <==> Live(d) && a < s && s + PAGE < b <= e)
      && (Live(d) ==> MapEnd(d) == e - PAGE)
  {
    RequestShape(r);
    if Live(d) {
      assert MapEnd(d) == d.virtualAddr + d.len - PAGE;
    }
  }

  predicate Extends(t: Table, u: Table) {
    && |t.desc| == |u.desc| && t.num <= u.num && t.num <= |t.desc|
    && (forall i :: 0 <= i < t.num ==> u.desc[i] == t.desc[i])
  }

  /** Identity-mapped, with the mask and the state asked for. */
  predicate AsAsked(d: Desc, r: Request) {
    d.physicalAddr == d.virtualAddr && d.mask == r.mask && d.state == r.state
  }

  predicate Serves(d: Desc, r: Request, p: int) { Covers(d, p) && AsAsked(d, r) }

  /** Every address of the request's pages is identity-mapped with the requested mask and state. */
  ghost predicate Covered(t: Table, r: Request)
    requires t.num <= |t.desc|
  {
    forall p :: InRequest(r, p) ==> exists i :: 0 <= i < t.num && Serves(t.desc[i], r, p)
  }

  predicate RunsFromTo(d: Desc, a: nat, b: nat) {
    d.virtualAddr == a && a < b && a + d.len == b
  }

  /** `m` runs from the end of `d` to `b`, or from `a` to the start of `d`, where [a, b) reaches
      over that end of `d` only. */
  predicate Splits(m: Desc, d: Desc, a: nat, b: nat) {
    var (s, e) := (d.virtualAddr, d.virtualAddr + d.len);
    && Live(d) && a % PAGE == 0 && b % PAGE == 0 && b <= U32
    && ((s <= a < e && RunsFromTo(m, e, b)) || (s < b <= e && RunsFromTo(m, a, s)))
  }

  lemma RemainderSplits(d: Desc, r: Request)
    requires EntryOk(d) && Fits(r) && (TopOverlap(d, r) || BottomOverlap(d, r))
    ensures AsAsked(Remainder(d, r), r)
    ensures Splits(Remainder(d, r), d, PageStart(r), PageStart(r) + PageLength(r))
  {
    RequestShape(r);
    PagesAdd(PageStart(r), PageLength(r));
    HitShape(d, r);
    if TopOverlap(d, r) {
      TopEnd(d.virtualAddr + d.len);
    }
  }

  /** Stepping back to the last page and forward again. */
  lemma TopEnd(e: nat)
    requires PAGE <= e < U32
    ensures ((e + U32 - PAGE) % U32 + PAGE) % U32 == e
  {
  }

  /** The part of [a, b) outside an entry that reaches over one of its ends. */
  lemma SplitIsExact(m: Desc, d: Desc, a: nat, b: nat)
    requires EntryOk(d) && Splits(m, d, a, b)
    ensures EntryOk(m) && Live(m)
    ensures forall p :: Covers(m, p) <==> a <= p < b && !Covers(d, p)
  {
    PagesAdd(d.virtualAddr, d.len);
    PagesSubtract(b, d.virtualAddr + d.len);
    PagesSubtract(d.virtualAddr, a);
  }

  lemma PagesAdd(x: nat, y: nat)
    ensures x % PAGE == 0 && y % PAGE == 0 ==> (x + y) % PAGE == 0
  {
  }

  lemma PagesSubtract(x: nat, y: nat)
    ensures x % PAGE == 0 && y % PAGE == 0 ==> (x - y) % PAGE == 0
  {
  }

  /** In a partial overlap with a suiting entry, the remainder is exactly the uncovered part. */
  lemma RemainderIsExact(d: Desc, r: Request)
    requires EntryOk(d) && Fits(r) && (TopOverlap(d, r) || BottomOverlap(d, r))
    ensures EntryOk(Remainder(d, r)) && Live(Remainder(d, r)) && AsAsked(Remainder(d, r), r)
    ensures forall p :: Covers(Remainder(d, r), p) <==> InRequest(r, p) && !Covers(d, p)
  {
    RemainderSplits(d, r);
    SplitIsExact(Remainder(d, r), d, PageStart(r), PageStart(r) + PageLength(r));
  }

  lemma WholeIsExact(r: Request)
    requires Fits(r)
    ensures EntryOk(Whole(r)) && Live(Whole(r)) && AsAsked(Whole(r), r)
    ensures forall p :: Covers(Whole(r), p) <==> InRequest(r, p)
  {
    RequestShape(r);
  }

  /** One call: the table stays well formed, no active entry is altered, ERROR changes nothing,
      and OK means that the whole request is covered. */
  lemma AddKeepsAndCovers(t: Table, r: Request)
    requires TableOk(t) && Fits(r) && Room(t, r)
    ensures var (u, st) := Add(t, r);
      && TableOk(u) && Extends(t, u)
      && (st == ERROR ==> u == t)
      && (st == OK ==> Covered(u, r))
  {
    var (u, st) := Add(t, r);
    var s := t.desc[..t.num];
    var i := FirstHit(s, r);
    if i < t.num {
      var d := t.desc[i];
      HitShape(d, r);
      if Suits(d, r) {
        forall p | InRequest(r, p) ensures exists k :: 0 <= k < u.num && Serves(u.desc[k], r, p) {
          if Covers(d, p) {
            assert Serves(u.desc[i], r, p);
          } else {
            RemainderIsExact(d, r);
            assert Serves(u.desc[t.num], r, p);
          }
        }
        if !Contained(d, r) {
          RemainderIsExact(d, r);
        }
      }
    } else {
      WholeIsExact(r);
      forall p | InRequest(r, p) ensures exists k :: 0 <= k < u.num && Serves(u.desc[k], r, p) {
        assert Serves(u.desc[t.num], r, p);
      }
    }
  }

  /** Entry i is the first the scan stops at, and has other attributes. */
  predicate StopsAtOther(t: Table, r: Request, i: nat)
    requires t.num <= |t.desc|
  {
    && i < t.num && Hits(t.desc[i], r) && !AsAsked(t.desc[i], r)
    && (forall k :: 0 <= k < i ==> !Hits(t.desc[k], r))
  }

  /** ERROR is returned exactly when the first entry the scan stops at has other attributes, or when
      a slot is needed and the next one is taken. */
  lemma ErrorExactly(t: Table, r: Request)
    requires InArray(t, r)
    ensures Add(t, r).1 == ERROR <==>
      (exists i :: StopsAtOther(t, r, i)) || (SlotsUsed(t, r) > 0 && Live(t.desc[t.num]))
  {
    var s := t.desc[..t.num];
    var i := FirstHit(s, r);
    if i < t.num && !Suits(t.desc[i], r) {
      forall k | 0 <= k < i ensures !Hits(t.desc[k], r) {
        assert !Hits(s[k], r);
      }
      assert StopsAtOther(t, r, i);
    }
    if j :| StopsAtOther(t, r, j) {
      FirstHitIs(s, r, j);
    }
  }

  /** The number of active entries leaves the array exactly when a partial overlap finds one free
      slot only. */
  lemma CountOverrunsExactly(t: Table, r: Request)
    requires TableOk(t) && InArray(t, r)
    ensures Add(t, r).0.num <= |t.desc| <==> Room(t, r)
    ensures !Room(t, r) <==> SlotsUsed(t, r) == 2 && t.num + 1 == |t.desc|
  {
  }

  /** One free slot, and a request that lies over the end of the only entry: the call returns OK with
      more active entries than the array has. */
  lemma CountCanOverrun()
    ensures var t := Table([Desc(0x1000, 0x1000, 0x3000, 1, 1), DUMMY], 1);
      var r := Request(0x2000, 0x4000, 1, 1);
      TableOk(t) && Fits(r) && InArray(t, r) && Add(t, r).1 == OK && Add(t, r).0.num == 3
  {
    var t := Table([Desc(0x1000, 0x1000, 0x3000, 1, 1), DUMMY], 1);
    FirstHitIs(t.desc[..1], Request(0x2000, 0x4000, 1, 1), 0);
  }

  /** The bytes asked for, without rounding. */
  predicate AskedFor(r: Request, p: int) { r.address <= p < r.address + r.length }

  /** Address and length are rounded independently: the pages requested hold the bytes asked for
      exactly when the length counted from the start of the page still rounds to the same. */
  lemma PagesHoldBytesExactly(r: Request)
    requires Fits(r)
    ensures (forall p :: AskedFor(r, p) ==> InRequest(r, p)) <==> r.address % PAGE + r.length <= PageLength(r)
  {
    assert PageStart(r) + r.address % PAGE == r.address;
    assert AskedFor(r, r.address + r.length - 1);
  }

  // ----- Sequences of calls -----

  /** There is always room for the next call. */
  predicate Runnable(t: Table, rs: seq<Request>)
    decreases |rs|
  {
    rs == [] || (Room(t, rs[0]) && Fits(rs[0]) && Runnable(Add(t, rs[0]).0, rs[1..]))
  }

  function Run(t: Table, rs: seq<Request>): Table
    requires Runnable(t, rs)
    decreases |rs|
  {
    if rs == [] then t else Run(Add(t, rs[0]).0, rs[1..])
  }

  function Statuses(t: Table, rs: seq<Request>): (ss: seq<Status>)
    requires Runnable(t, rs)
    ensures |ss| == |rs|
    decreases |rs|
  {
    if rs == [] then [] else [Add(t, rs[0]).1] + Statuses(Add(t, rs[0]).0, rs[1..])
  }

  lemma ExtendsKeepsCovered(t: Table, u: Table, r: Request)
    requires t.num <= |t.desc| && u.num <= |u.desc| && Extends(t, u) && Covered(t, r)
    ensures Covered(u, r)
  {
    forall p | InRequest(r, p) ensures exists i :: 0 <= i < u.num && Serves(u.desc[i], r, p) {
      var i :| 0 <= i < t.num && Serves(t.desc[i], r, p);
      assert Serves(u.desc[i], r, p);
    }
  }

  /** Over any sequence of calls: no active entry is ever altered, and every request that
      returned OK is still covered at the end. */
  lemma {:induction false} OkStaysCovered(t: Table, rs: seq<Request>)
    requires TableOk(t) && Runnable(t, rs)
    ensures var u := Run(t, rs);
      && TableOk(u) && Extends(t, u)
      && forall k :: 0 <= k < |rs| && Statuses(t, rs)[k] == OK ==> Covered(u, rs[k])
    decreases |rs|
  {
    if rs == [] {
    } else {
      var t1 := Add(t, rs[0]).0;
      AddKeepsAndCovers(t, rs[0]);
      OkStaysCovered(t1, rs[1..]);
      var u := Run(t, rs);
      assert Extends(t1, u);
      forall k | 0 <= k < |rs| && Statuses(t, rs)[k] == OK ensures Covered(u, rs[k]) {
        if k == 0 {
          ExtendsKeepsCovered(t1, u, rs[0]);
        } else {
          assert rs[1..][k - 1] == rs[k];
          assert Statuses(t1, rs[1..])[k - 1] == OK;
        }
      }
    }
  }

  /** With no active entry at all the routine reports OK and maps nothing. */
  lemma EmptyTableMapsNothing(t: Table, r: Request)
    requires Room(t, r) && t.num == 0 && Fits(r)
    ensures Add(t, r) == (t, OK) && !Covered(t, r)
  {
    RequestShape(r);
    assert InRequest(r, PageStart(r));
  }

  // ----- Disjointness -----

  predicate Apart(d: Desc, e: Desc) {
    Live(d) && Live(e) ==> d.virtualAddr + d.len <= e.virtualAddr || e.virtualAddr + e.len <= d.virtualAddr
  }

  /** Live active entries share no page. */
  predicate Disjoint(t: Table)
    requires t.num <= |t.desc|
  {
    forall i, j :: 0 <= i < j < t.num ==> Apart(t.desc[i], t.desc[j])
  }

  predicate AwayFrom(d: Desc, r: Request) {
    Live(d) ==> d.virtualAddr + d.len <= PageStart(r) || PageStart(r) + PageLength(r) <= d.virtualAddr
  }

  /** The request meets no entry, lies in one, or partially overlaps exactly one, by at least two
      pages and without strictly enclosing it. */
  ghost predicate Benign(t: Table, r: Request)
    requires t.num <= |t.desc|
  {
    || (forall i :: 0 <= i < t.num ==> AwayFrom(t.desc[i], r))
    || (exists i :: 0 <= i < t.num && Contained(t.desc[i], r))
    || (exists i :: 0 <= i < t.num && (TopOverlap(t.desc[i], r) || BottomOverlap(t.desc[i], r))
          && (forall j :: 0 <= j < t.num && j != i ==> AwayFrom(t.desc[j], r)))
  }

  lemma HitMeansMeets(d: Desc, r: Request)
    requires EntryOk(d) && Fits(r) && Hits(d, r)
    ensures Live(d) && !AwayFrom(d, r)
  {
    RequestShape(r);
    HitShape(d, r);
  }

  /** Of pairwise disjoint entries, one that contains the request is the only one it meets. */
  lemma ContainedMeetsOnlyOne(t: Table, r: Request, i: nat, j: nat)
    requires TableOk(t) && Disjoint(t) && Fits(r)
    requires i < t.num && j < t.num && i != j && Contained(t.desc[i], r)
    ensures AwayFrom(t.desc[j], r)
  {
    HitShape(t.desc[i], r);
    RequestShape(r);
    if i < j {
      assert Apart(t.desc[i], t.desc[j]);
    } else {
      assert Apart(t.desc[j], t.desc[i]);
    }
  }

  /** A new live entry `d` in the next slot keeps disjointness iff it is apart from all others. */
  lemma AppendDisjoint(t: Table, u: Table, d: Desc)
    requires TableOk(t) && Disjoint(t) && Live(d) && Extends(t, u)
    requires t.num < u.num <= t.num + 2 && u.num <= |u.desc|
    requires u.desc[t.num] == d && (u.num == t.num + 2 ==> u.desc[t.num + 1] == DUMMY)
    ensures Disjoint(u) <==> forall i :: 0 <= i < t.num ==> Apart(t.desc[i], d)
  {
    if Disjoint(u) {
      forall i | 0 <= i < t.num ensures Apart(t.desc[i], d) {
        assert Apart(u.desc[i], u.desc[t.num]);
      }
    }
    if forall i :: 0 <= i < t.num ==> Apart(t.desc[i], d) {
      forall i, j | 0 <= i < j < u.num ensures Apart(u.desc[i], u.desc[j]) {
        if j < t.num {
          assert Apart(t.desc[i], t.desc[j]);
        }
      }
    }
  }

  /** On a table of disjoint entries, a call that returns OK leaves them disjoint exactly when the
      request was benign. */
  lemma DisjointKeptExactly(t: Table, r: Request)
    requires TableOk(t) && Room(t, r) && Fits(r) && Disjoint(t) && Add(t, r).1 == OK
    ensures AddKeepsBounds(t, r)
    ensures Disjoint(Add(t, r).0) <==> Benign(t, r)
  {
    AddKeepsAndCovers(t, r);
    var u := Add(t, r).0;
    var s := t.desc[..t.num];
    var i := FirstHit(s, r);
    if i == t.num {
      WholeIsExact(r);
      AppendDisjoint(t, u, Whole(r));
      NoHitCase(t, r);
    } else if Contained(t.desc[i], r) {
      assert Benign(t, r);
    } else {
      var d := Remainder(t.desc[i], r);
      RemainderIsExact(t.desc[i], r);
      AppendDisjoint(t, u, d);
      PartialCase(t, r, i);
    }
  }

  predicate AddKeepsBounds(t: Table, r: Request)
    requires InArray(t, r)
  {
    Add(t, r).0.num <= |Add(t, r).0.desc|
  }

  /** Without any hit, benign can only mean away from everything. */
  lemma NoHitCase(t: Table, r: Request)
    requires TableOk(t) && Fits(r)
    requires forall k :: 0 <= k < t.num ==> !Hits(t.desc[..t.num][k], r)
    ensures Benign(t, r) <==> forall k :: 0 <= k < t.num ==> Apart(t.desc[k], Whole(r))
  {
    WholeIsExact(r);
    forall k | 0 <= k < t.num ensures !Hits(t.desc[k], r) {
      assert !Hits(t.desc[..t.num][k], r);
    }
    assert forall k :: 0 <= k < t.num ==> (Apart(t.desc[k], Whole(r)) <==> AwayFrom(t.desc[k], r));
  }

  /** In a partial overlap with entry i, the remainder is apart from the others exactly when the
      request is. */
  lemma PartialCase(t: Table, r: Request, i: nat)
    requires TableOk(t) && Disjoint(t) && Fits(r) && i < t.num
    requires TopOverlap(t.desc[i], r) || BottomOverlap(t.desc[i], r)
    ensures Benign(t, r) <==> forall k :: 0 <= k < t.num ==> Apart(t.desc[k], Remainder(t.desc[i], r))
  {
    var d := Remainder(t.desc[i], r);
    RequestShape(r);
    HitShape(t.desc[i], r);
    RemainderIsExact(t.desc[i], r);
    forall k | 0 <= k < t.num && k != i
      ensures Apart(t.desc[k], d) <==> AwayFrom(t.desc[k], r)
    {
      SplitAway(t, r, i, k);
    }
    assert Apart(t.desc[i], d);
    if Benign(t, r) {
      HitMeansMeets(t.desc[i], r);
      if c :| 0 <= c < t.num && Contained(t.desc[c], r) {
        ContainedMeetsOnlyOne(t, r, c, i);
      }
    }
  }

  lemma SplitAway(t: Table, r: Request, i: nat, k: nat)
    requires TableOk(t) && Disjoint(t) && Fits(r) && i < t.num && k < t.num && k != i
    requires TopOverlap(t.desc[i], r) || BottomOverlap(t.desc[i], r)
    ensures Apart(t.desc[k], Remainder(t.desc[i], r)) <==> AwayFrom(t.desc[k], r)
  {
    RemainderSplits(t.desc[i], r);
    RemainderIsExact(t.desc[i], r);
    assert if i < k then Apart(t.desc[i], t.desc[k]) else Apart(t.desc[k], t.desc[i]);
    ApartFromSplit(Remainder(t.desc[i], r), t.desc[i], t.desc[k], PageStart(r), PageStart(r) + PageLength(r));
  }

  /** An entry apart from `d` is apart from the rest `m` of [a, b) when it is apart from [a, b). */
  lemma ApartFromSplit(m: Desc, d: Desc, other: Desc, a: nat, b: nat)
    requires Splits(m, d, a, b) && Live(m) && EntryOk(d) && EntryOk(other)
    requires Apart(d, other)
    ensures Apart(other, m) <==> (Live(other) ==> other.virtualAddr + other.len <= a || b <= other.virtualAddr)
  {
  }

  /** Whether each call of a sequence is refused or benign at the table it finds. */
  ghost predicate AllBenign(t: Table, rs: seq<Request>)
    requires TableOk(t) && Runnable(t, rs)
    decreases |rs|
  {
    rs == [] ||
    (AddKeepsAndCovers(t, rs[0]);
     (Add(t, rs[0]).1 == ERROR || Benign(t, rs[0])) && AllBenign(Add(t, rs[0]).0, rs[1..]))
  }

  /** Live entries stay pairwise disjoint over any sequence of benign or refused requests. */
  lemma {:induction false} BenignRunsStayDisjoint(t: Table, rs: seq<Request>)
    requires TableOk(t) && Disjoint(t) && Runnable(t, rs) && AllBenign(t, rs)
    ensures TableOk(Run(t, rs)) && Disjoint(Run(t, rs))
    decreases |rs|
  {
    if rs == [] {
    } else {
      AddKeepsAndCovers(t, rs[0]);
      if Add(t, rs[0]).1 == OK {
        DisjointKeptExactly(t, rs[0]);
      }
      BenignRunsStayDisjoint(Add(t, rs[0]).0, rs[1..]);
    }
  }

  // ----- The documented attribute check -----

  /** Some page of the request is already mapped with other attributes. */
  ghost predicate Conflicts(t: Table, r: Request)
    requires t.num <= |t.desc|
  {
    exists i :: 0 <= i < t.num && !AwayFrom(t.desc[i], r) && !AsAsked(t.desc[i], r)
  }

  /** For benign requests over disjoint entries the documentation holds: ERROR exactly when a
      page was mapped with other attributes before. */
  lemma BenignConflictsAreRefused(t: Table, r: Request)
    requires TableOk(t) && Disjoint(t) && Room(t, r) && Fits(r) && Benign(t, r)
    ensures Add(t, r).1 == ERROR <==> Conflicts(t, r)
  {
    var s := t.desc[..t.num];
    var i := FirstHit(s, r);
    if i < t.num {
      HitMeansMeets(t.desc[i], r);
      forall j | 0 <= j < t.num && j != i ensures AwayFrom(t.desc[j], r) {
        if c :| 0 <= c < t.num && Contained(t.desc[c], r) {
          if c != i {
            ContainedMeetsOnlyOne(t, r, c, i);
          }
          ContainedMeetsOnlyOne(t, r, i, j);
        }
      }
    } else {
      assert forall k :: 0 <= k < t.num ==> !Hits(s[k], r) && s[k] == t.desc[k];
    }
  }

  // The ways a live entry can meet a request [a, b), in addresses

  predicate Contains(d: Desc, r: Request) {
    var (a, b, s, e) := (PageStart(r), PageStart(r) + PageLength(r), d.virtualAddr, d.virtualAddr + d.len);
    Live(d) && s <= a && b <= e
  }

  /** Over one end of the request, by two pages or more. */
  predicate OverAnEnd(d: Desc, r: Request) {
    var (a, b, s, e) := (PageStart(r), PageStart(r) + PageLength(r), d.virtualAddr, d.virtualAddr + d.len);
    Live(d) && ((s <= a && a + PAGE < e < b) || (a < s && s + PAGE < b <= e))
  }

  /** Over one end of the request, by one page. */
  predicate OnePageOver(d: Desc, r: Request) {
    var (a, b, s, e) := (PageStart(r), PageStart(r) + PageLength(r), d.virtualAddr, d.virtualAddr + d.len);
    Live(d) && ((s <= a && a + PAGE == e < b) || (a < s && s + PAGE == b <= e))
  }

  predicate Enclosed(d: Desc, r: Request) {
    var (a, b, s, e) := (PageStart(r), PageStart(r) + PageLength(r), d.virtualAddr, d.virtualAddr + d.len);
    Live(d) && a < s && e < b
  }

  /** These are all, and the scan sees the first two kinds. */
  lemma MeetingKinds(d: Desc, r: Request)
    requires EntryOk(d) && Fits(r)
    ensures !AwayFrom(d, r) <==> Contains(d, r) || OverAnEnd(d, r) || OnePageOver(d, r) || Enclosed(d, r)
    ensures Hits(d, r) <==> Contains(d, r) || OverAnEnd(d, r)
    ensures Contained(d, r) <==> Contains(d, r)
    ensures Contains(d, r) || OverAnEnd(d, r) ==> !OnePageOver(d, r) && !Enclosed(d, r)
  {
    RequestShape(r);
    HitShape(d, r);
    if Live(d) {
      KindsOfOverlap(PageStart(r), PageStart(r) + PageLength(r), d.virtualAddr, d.virtualAddr + d.len);
    }
  }

  lemma KindsOfOverlap(a: nat, b: nat, s: nat, e: nat)
    requires a % PAGE == 0 && b % PAGE == 0 && s % PAGE == 0 && e % PAGE == 0 && a < b && s < e
    ensures s < b && a < e <==>
      || (s <= a && b <= e)
      || (s <= a && a + PAGE <= e < b) || (a < s && s + PAGE <= b <= e)
      || (a < s && e < b)
  {
    PageBelow(a, e);
    PageBelow(s, b);
  }

  lemma PageBelow(x: nat, y: nat)
    requires x % PAGE == 0 && y % PAGE == 0
    ensures x < y ==> x + PAGE <= y
  {
  }

  /** Entry i is the first that contains the request or lies over an end of it. */
  predicate FirstSeen(t: Table, r: Request, i: nat)
    requires t.num <= |t.desc|
  {
    && i < t.num && (Contains(t.desc[i], r) || OverAnEnd(t.desc[i], r))
    && (forall k :: 0 <= k < i ==> !Contains(t.desc[k], r) && !OverAnEnd(t.desc[k], r))
  }

  /** The table sees nothing of the request. */
  predicate SeesNothing(t: Table, r: Request)
    requires t.num <= |t.desc|
  {
    forall i :: 0 <= i < t.num ==> !Contains(t.desc[i], r) && !OverAnEnd(t.desc[i], r)
  }

  lemma FirstHitSees(t: Table, r: Request)
    requires TableOk(t) && Fits(r)
    ensures var i := FirstHit(t.desc[..t.num], r);
      if i == t.num then SeesNothing(t, r) else FirstSeen(t, r, i)
  {
    var i := FirstHit(t.desc[..t.num], r);
    forall k | 0 <= k < t.num && k <= i
      ensures Hits(t.desc[..t.num][k], r) <==> Contains(t.desc[k], r) || OverAnEnd(t.desc[k], r)
    {
      MeetingKinds(t.desc[k], r);
    }
  }

  /** The first entry the scan sees lies over an end and has the requested attributes. */
  predicate StopsAtSuiting(t: Table, r: Request, i: nat)
    requires t.num <= |t.desc|
  {
    FirstSeen(t, r, i) && OverAnEnd(t.desc[i], r) && AsAsked(t.desc[i], r)
  }

  /** The documentation promises an ERROR for every conflict.  A conflicting request is accepted if
      and only if each entry it meets is enclosed or met in one page at an end, or the first entry
      that lies over an end by more has the requested attributes. */
  lemma ConflictAcceptedExactly(t: Table, r: Request)
    requires TableOk(t) && Disjoint(t) && Fits(r) && InArray(t, r) && Conflicts(t, r)
    ensures Add(t, r).1 == OK <==> SeesNothing(t, r) || exists i :: StopsAtSuiting(t, r, i)
  {
    var i := FirstHit(t.desc[..t.num], r);
    FirstHitSees(t, r);
    if i < t.num {
      MeetingKinds(t.desc[i], r);
      if Suits(t.desc[i], r) {
        ConflictIsElsewhere(t, r, i);
        assert StopsAtSuiting(t, r, i);
      } else {
        forall j: nat | StopsAtSuiting(t, r, j) ensures false {
          SeenOnce(t, r, i, j);
        }
      }
    }
  }

  /** A suiting entry that holds the whole request rules every conflict out. */
  lemma ConflictIsElsewhere(t: Table, r: Request, i: nat)
    requires TableOk(t) && Disjoint(t) && Fits(r) && Conflicts(t, r)
    requires i < t.num && Suits(t.desc[i], r)
    ensures !Contains(t.desc[i], r)
  {
    MeetingKinds(t.desc[i], r);
    var j :| 0 <= j < t.num && !AwayFrom(t.desc[j], r) && !AsAsked(t.desc[j], r);
    if Contains(t.desc[i], r) {
      ContainedMeetsOnlyOne(t, r, i, j);
    }
  }

  lemma SeenOnce(t: Table, r: Request, i: nat, j: nat)
    requires t.num <= |t.desc| && FirstSeen(t, r, i) && FirstSeen(t, r, j)
    ensures i == j
  {
  }

  /** An accepted conflict leaves some page mapped twice. */
  lemma AcceptedConflictOverlaps(t: Table, r: Request)
    requires TableOk(t) && Disjoint(t) && Fits(r) && Room(t, r) && Conflicts(t, r) && Add(t, r).1 == OK
    ensures AddKeepsBounds(t, r) && !Disjoint(Add(t, r).0)
  {
    DisjointKeptExactly(t, r);
    if Benign(t, r) {
      BenignConflictsAreRefused(t, r);
    }
  }

  // One accepted conflict of each kind

  function Example(d: Desc, e: Desc): Table { Table([d, e, DUMMY, DUMMY], 2) }

  /** What makes an example: a well-formed table, a conflict, and nevertheless OK. */
  ghost predicate BreaksThePromise(t: Table, r: Request) {
    TableOk(t) && Disjoint(t) && Room(t, r) && Fits(r) && Conflicts(t, r) && Add(t, r).1 == OK
  }

  /** The request encloses an entry with other attributes. */
  lemma EnclosingConflictIsAccepted()
    ensures BreaksThePromise(Example(Desc(0x3000, 0x3000, 0x1000, 1, 1), DUMMY), Request(0x2000, 0x3000, 1, 2))
  {
    var t, r := Example(Desc(0x3000, 0x3000, 0x1000, 1, 1), DUMMY), Request(0x2000, 0x3000, 1, 2);
    MeetingKinds(t.desc[0], r);
    assert !AwayFrom(t.desc[0], r) && !AsAsked(t.desc[0], r);
    FirstHitIs(t.desc[..2], r, 2);
  }

  /** The request shares its first page with an entry with other attributes. */
  lemma OnePageConflictIsAccepted()
    ensures BreaksThePromise(Example(Desc(0x1000, 0x1000, 0x2000, 1, 1), DUMMY), Request(0x2000, 0x3000, 1, 2))
  {
    var t, r := Example(Desc(0x1000, 0x1000, 0x2000, 1, 1), DUMMY), Request(0x2000, 0x3000, 1, 2);
    assert !AwayFrom(t.desc[0], r) && !AsAsked(t.desc[0], r);
    FirstHitIs(t.desc[..2], r, 2);
  }

  /** The scan stops at a suiting entry and never sees the conflicting one behind it. */
  lemma LaterConflictIsAccepted()
    ensures BreaksThePromise(
      Example(Desc(0x1000, 0x1000, 0x3000, 1, 2), Desc(0x6000, 0x6000, 0x3000, 1, 1)), Request(0x2000, 0x6000, 1, 2))
  {
    var t := Example(Desc(0x1000, 0x1000, 0x3000, 1, 2), Desc(0x6000, 0x6000, 0x3000, 1, 1));
    var r := Request(0x2000, 0x6000, 1, 2);
    assert !AwayFrom(t.desc[1], r) && !AsAsked(t.desc[1], r);
    FirstHitIs(t.desc[..2], r, 0);
  }
}
