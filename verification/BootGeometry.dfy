/** Absolute sectors and the cylinder/head/sector registers of the BIOS disk call. */
module BootGeometry {
  import opened Values

  const W: nat := 0x1_0000

  /** What the BIOS reports: up to 63 sectors a track, up to 255 heads. */
  datatype Geometry = Geometry(secPerTrack: word, numHeads: word)
  {
    predicate Ok() { 1 <= secPerTrack <= 63 && 1 <= numHeads <= 255 }
  }

  /** The registers of the call: CH, CL and DH. */
  datatype Chs = Chs(ch: byte, cl: byte, dh: byte)

  function Div(x: nat, m: nat): nat
    requires m > 0
  {
    x / m
  }

  function Mod(x: nat, m: nat): (r: nat)
    requires m > 0
    ensures r < m
  {
    x % m
  }

  /** The track number, which DIV delivers in sixteen bits or faults. */
  function Track(g: Geometry, lba: nat): nat
    requires g.Ok()
  {
    Div(lba, g.secPerTrack)
  }

  function Cylinder(g: Geometry, lba: nat): nat
    requires g.Ok()
  {
    Div(Track(g, lba), g.numHeads)
  }

  predicate Divides(g: Geometry, lba: nat)
    requires g.Ok()
  {
    Track(g, lba) < W
  }

  /** The packing boot_read_disk builds: cylinder bits 8 and 9 end up above the sector number. */
  function Pack(g: Geometry, lba: nat): Chs
    requires g.Ok() && Divides(g, lba)
  {
    var cyl := Cylinder(g, lba);
    Chs(cyl % 0x100, cyl / 0x100 % 4 * 64 + (Mod(lba, g.secPerTrack) + 1), Mod(Track(g, lba), g.numHeads))
  }

  /** What the BIOS makes of the registers. */
  function Unpack(g: Geometry, c: Chs): int
    requires g.Ok()
  {
    ((c.ch + c.cl / 64 * 0x100) * g.numHeads + c.dh) * g.secPerTrack + (c.cl % 64 - 1)
  }

  lemma DivMod(x: nat, m: nat)
    requires m > 0
    ensures m * Div(x, m) + Mod(x, m) == x
  {
  }

  /** Decoding the registers gives the sector back, except that only ten cylinder bits survive. */
  lemma UnpackPack(g: Geometry, lba: nat)
    requires g.Ok() && Divides(g, lba)
    ensures var cyl := Cylinder(g, lba);
      Unpack(g, Pack(g, lba)) == lba - (cyl - cyl % 1024) * g.numHeads * g.secPerTrack
  {
    var spt, heads := g.secPerTrack, g.numHeads;
    var t, cyl := Track(g, lba), Cylinder(g, lba);
    var s, h := Mod(lba, spt), Mod(t, heads);
    DivMod(lba, spt);
    DivMod(t, heads);
    var c := Pack(g, lba);
    TenBits(cyl, s);
    var lost := cyl - cyl % 1024;
    assert c.ch + c.cl / 64 * 0x100 == cyl - lost && c.cl % 64 - 1 == s;
    Recompose(cyl, lost, h, s, heads, spt);
  }

  lemma TenBits(cyl: nat, s: nat)
    requires s < 63
    ensures var cl := cyl / 0x100 % 4 * 64 + (s + 1);
      cl < 256 && cl % 64 == s + 1 && cyl % 0x100 + cl / 64 * 0x100 == cyl % 1024
  {
    SixBits(cyl / 0x100 % 4, s + 1);
    TwoMoreBits(cyl);
  }

  lemma SixBits(q: nat, r: nat)
    requires q < 4 && r < 64
    ensures (q * 64 + r) % 64 == r && (q * 64 + r) / 64 == q
  {
  }

  lemma TwoMoreBits(cyl: nat)
    ensures cyl % 0x100 + cyl / 0x100 % 4 * 0x100 == cyl % 1024
  {
  }

  lemma Recompose(cyl: nat, lost: nat, h: nat, s: nat, heads: nat, spt: nat)
    ensures ((cyl - lost) * heads + h) * spt + s
      == spt * (heads * cyl + h) + s - lost * heads * spt
  {
    assert (cyl - lost) * heads == heads * cyl - lost * heads;
    assert (heads * cyl + h - lost * heads) * spt == spt * (heads * cyl + h) - lost * heads * spt;
  }

  /** The round trip holds exactly below cylinder 1024. */
  lemma RoundTripExactly(g: Geometry, lba: nat)
    requires g.Ok() && Divides(g, lba)
    ensures Unpack(g, Pack(g, lba)) == lba <==> Cylinder(g, lba) < 1024
  {
    UnpackPack(g, lba);
    var cyl := Cylinder(g, lba);
    var lost := cyl - cyl % 1024;
    if cyl >= 1024 {
      assert lost >= 1024;
      assert lost * g.numHeads >= 1 by { ProductPositive(lost, g.numHeads); }
      ProductPositive(lost * g.numHeads, g.secPerTrack);
    } else {
      assert lost == 0;
    }
  }

  /** The first sector of cylinder 1024 is read as the first of the disk. */
  lemma CylinderCanBeLost()
    ensures var g, lba := Geometry(63, 16), 1024 * 16 * 63;
      g.Ok() && Divides(g, lba) && Unpack(g, Pack(g, lba)) == 0
  {
    var g, lba := Geometry(63, 16), 1024 * 16 * 63;
    assert Track(g, lba) == 1024 * 16 && Cylinder(g, lba) == 1024;
    UnpackPack(g, lba);
  }

  /** With 255 heads the track number overflows first: the division faults. */
  lemma DivisionCanFault()
    ensures var g := Geometry(63, 255); g.Ok() && !Divides(g, 1024 * 255 * 63)
  {
  }

  lemma ProductPositive(a: nat, b: nat)
    requires a >= 1 && b >= 1
    ensures a * b >= 1
  {
  }

  lemma ProductGrows(a: nat, x: nat, y: nat)
    requires x <= y
    ensures a * x <= a * y
  {
  }

  lemma DivBelowExactly(x: nat, m: nat, n: nat)
    requires m > 0
    ensures Div(x, m) < n <==> x < m * n
  {
    DivMod(x, m);
    if Div(x, m) >= n {
      ProductGrows(m, n, Div(x, m));
    } else {
      ProductGrows(m, Div(x, m) + 1, n);
      assert m * (Div(x, m) + 1) == m * Div(x, m) + m;
    }
  }

  /** The sectors of the first 1024 cylinders are those below 1024 cylinders' worth. */
  lemma CylinderBelow(g: Geometry, lba: nat)
    requires g.Ok()
    ensures Cylinder(g, lba) < 1024 <==> lba < 1024 * g.numHeads * g.secPerTrack
  {
    var spt: nat, heads: nat := g.secPerTrack, g.numHeads;
    assert 1024 * heads * spt == spt * (heads * 1024);
    DivBelowExactly(lba, spt, heads * 1024);
    DivBelowExactly(Track(g, lba), heads, 1024);
  }

  /** From the cylinder in AX and the sector in BX to CH and CL: swap, shift, overlay. */
  method FoldCylinder(ax0: word, bx: word) returns (ch: byte, cl: byte)
    requires 1 <= bx < 64
    ensures ch == ax0 % 0x100 && cl == ax0 / 0x100 % 4 * 64 + bx
  {
    var al, ah := ax0 % 0x100, ax0 / 0x100;
    al, ah := ah, al;
    al := (al * 64) % 0x100;
    Overlay(ax0 / 0x100);
    ch, cl := ah, al + bx % 0x100;
  }

  lemma Overlay(x: nat)
    ensures (x * 64) % 0x100 == x % 4 * 64
  {
  }

  lemma QuotientSmaller(x: nat, m: nat)
    requires m > 0
    ensures Div(x, m) <= x
  {
    DivMod(x, m);
    ProductGrows(Div(x, m), 1, m);
  }

  /** The register arithmetic of boot_read_disk for the sector in DX:AX.  DIV faults when the
      track number does not fit AX. */
  method PackRegisters(g: Geometry, dxax: nat) returns (fault: bool, c: Chs)
    requires g.Ok()
    ensures fault <==> !Divides(g, dxax)
    ensures !fault ==> c == Pack(g, dxax)
  {
    c := Chs(0, 0, 0);
    var ax: nat, dx: nat := Div(dxax, g.secPerTrack), Mod(dxax, g.secPerTrack);
    if ax >= W {
      return true, c;
    }
    dx := dx + 1;
    var bx := dx;
    dx := 0;
    QuotientSmaller(ax, g.numHeads);
    dx, ax := Mod(ax, g.numHeads), Div(ax, g.numHeads);
    var ch, cl := FoldCylinder(ax, bx);
    return false, Chs(ch, cl, dx);
  }
}
