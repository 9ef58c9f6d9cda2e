/** Checking a FAT12/FAT16 boot sector in 32-bit arithmetic, and installing boot code in it. */
module BootSector {
  import opened Values

  const U32: nat := 0x1_0000_0000

  /** A boot sector has at least 512 bytes. */
  type Sector = s: seq<byte> | |s| >= 512 witness seq(512, _ => 0)

  // ----- Disk to host and back -----

  function Get16(s: Sector, off: nat): (w: nat)
    requires off + 2 <= |s|
    ensures w < 0x1_0000
  {
    0x100 * (s[off + 1] as int) + s[off]
  }

  function Get32(s: Sector, off: nat): (w: nat)
    requires off + 4 <= |s|
    ensures w < U32
  {
    0x100_0000 * (s[off + 3] as int) + 0x1_0000 * (s[off + 2] as int) + 0x100 * (s[off + 1] as int) + s[off]
  }

  function ByteOf(w: nat, k: nat): byte
    requires k < 4
  {
    if k == 0 then w % 256
    else if k == 1 then w / 0x100 % 256
    else if k == 2 then w / 0x1_0000 % 256
    else w / 0x100_0000 % 256
  }

  lemma BytesMakeWord(w: nat)
    requires w < U32
    ensures 0x100_0000 * ByteOf(w, 3) + 0x1_0000 * ByteOf(w, 2) + 0x100 * ByteOf(w, 1) + ByteOf(w, 0) == w
  {
    var a, b, c := w / 0x100, w / 0x1_0000, w / 0x100_0000;
    assert w == 0x100 * a + w % 0x100;
    assert a == 0x100 * b + a % 0x100;
    assert b == 0x100 * c + b % 0x100;
  }

  // ----- The fields the check reads -----

  const BYTES_PER_SEC: nat := 0x0b
  const SEC_PER_CLUST: nat := 0x0d
  const NRESRVD_SECS: nat := 0x0e
  const NFATS: nat := 0x10
  const MAX_ROOT_ENTS: nat := 0x11
  const NSECTORS: nat := 0x13
  const SEC_PER_FAT: nat := 0x16
  const NHIDDEN_SECS: nat := 0x1c
  const LONG_NSECTORS: nat := 0x20
  const SEC_PER_FAT32: nat := 0x24

  /** The boot parameters as numbers; a 16-bit FAT size or sector count of zero means the 32-bit
      field. */
  datatype Bpb = Bpb(bytesPerSec: nat, secPerClust: nat, reserved: nat, nFats: nat,
                     rootEnts: nat, fatSz: nat, totSec: nat)

  function BpbOf(s: Sector): Bpb {
    Bpb(Get16(s, BYTES_PER_SEC), s[SEC_PER_CLUST], Get16(s, NRESRVD_SECS), s[NFATS],
        Get16(s, MAX_ROOT_ENTS),
        if Get16(s, SEC_PER_FAT) == 0 then Get32(s, SEC_PER_FAT32) else Get16(s, SEC_PER_FAT),
        if Get16(s, NSECTORS) == 0 then Get32(s, LONG_NSECTORS) else Get16(s, NSECTORS))
  }

  /** The geometry the drive reports: its sector size and the sectors of the partition. */
  datatype Drive = Drive(bytesPerSector: nat, sectors: nat)
  {
    predicate Ok() { 512 <= bytesPerSector < U32 }

    /** The buffer holds one sector of this drive. */
    predicate Holds(s: Sector) { Ok() && |s| == bytesPerSector }
  }

  function Quot(x: nat, m: nat): nat
    requires m > 0
  {
    x / m
  }

  // ----- The check, as computed -----

  function RootDirSectors(b: Bpb, bps: nat): nat
    requires bps > 0
  {
    Quot((b.rootEnts * 32 + (bps - 1)) % U32, bps)
  }

  /** Reserved, FAT and root directory sectors, summed with wrap-around. */
  function MetaWrapped(b: Bpb, bps: nat): nat
    requires bps > 0
  {
    (b.reserved + (b.nFats * b.fatSz) % U32 + RootDirSectors(b, bps)) % U32
  }

  function DataSec(b: Bpb, bps: nat): nat
    requires bps > 0
  {
    (b.totSec + U32 - MetaWrapped(b, bps)) % U32
  }

  function CountOfClusters(b: Bpb, bps: nat): nat
    requires bps > 0
  {
    if b.secPerClust == 0 then 0 else Quot(DataSec(b, bps), b.secPerClust)
  }

  predicate PowerOfTwo(x: nat) { x in {1, 2, 4, 8, 16, 32, 64, 128} }

  /** strchr also finds the terminator. */
  predicate InClusterString(x: nat) { PowerOfTwo(x) || x == 0 }

  function EntryWidth(clusters: nat): nat { if clusters < 4085 then 3 else 4 }

  predicate Signed(s: Sector, d: Drive)
    requires d.Holds(s)
  {
    Get16(s, 510) == 0xAA55 || Get16(s, d.bytesPerSector - 2) == 0xAA55
  }

  predicate AcceptsBpb(b: Bpb, d: Drive)
    requires d.Ok()
  {
    var bps := d.bytesPerSector;
    var clusters := CountOfClusters(b, bps);
    && clusters < 65525
    && b.bytesPerSec == bps
    && RootDirSectors(b, bps) != 0
    && b.nFats != 0
    && b.nFats <= 2
    && b.totSec <= d.sectors
    && (b.secPerClust * bps) % U32 <= 0x8000
    && InClusterString(b.secPerClust)
    && DataSec(b, bps) < b.totSec
    && b.reserved != 0
    && Quot(((clusters + 2) * EntryWidth(clusters) + 2 * bps - 1) % U32, 2 * bps) <= b.fatSz
  }

  /** The whole condition on a sector read from the drive. */
  predicate Accepts(s: Sector, d: Drive)
    requires d.Holds(s)
  {
    Signed(s, d) && AcceptsBpb(BpbOf(s), d)
  }

  // ----- What a legal volume is, over the integers -----

  /** Sectors before the data area. */
  function Meta(b: Bpb, bps: nat): nat
    requires bps > 0
  {
    b.reserved + b.nFats * b.fatSz + Quot(b.rootEnts * 32 + bps - 1, bps)
  }

  /** The bits of a FAT entry: FAT12 below 4085 clusters, FAT16 from there on. */
  function EntryBits(clusters: nat): nat { if clusters < 4085 then 12 else 16 }

  /** Each FAT copy has room, in bits, for two entries more than clusters. */
  predicate FatHolds(clusters: nat, fatSz: nat, bps: nat) {
    (clusters + 2) * EntryBits(clusters) <= 8 * (fatSz * bps)
  }

  predicate LegalBpb(b: Bpb, d: Drive)
    requires d.Ok()
  {
    var bps := d.bytesPerSector;
    && b.bytesPerSec == bps
    && 1 <= b.nFats <= 2 && 1 <= b.reserved && 1 <= b.rootEnts
    && PowerOfTwo(b.secPerClust) && b.secPerClust * bps <= 0x8000
    && Meta(b, bps) <= b.totSec <= d.sectors
    && var clusters := Quot(b.totSec - Meta(b, bps), b.secPerClust);
      clusters < 65525 && FatHolds(clusters, b.fatSz, bps)
  }

  /** Halving ends at one. */
  predicate IsPowerOfTwo(x: nat) {
    x == 1 || (x > 1 && x % 2 == 0 && IsPowerOfTwo(x / 2))
  }

  /** The cluster sizes the string lists are the powers of two that fit a byte. */
  lemma {:induction false} PowersOfTwo(x: nat)
    requires x < 256
    ensures PowerOfTwo(x) <==> IsPowerOfTwo(x)
    decreases x
  {
    if x > 1 && x % 2 == 0 {
      PowersOfTwo(x / 2);
    }
  }

  /** The signature is the bytes 55 AA, at 510 or at the end of the sector. */
  lemma SignedBytes(s: Sector, d: Drive)
    requires d.Holds(s)
    ensures Signed(s, d) <==>
      || s[510..512] == [0x55, 0xAA]
      || s[|s| - 2..] == [0x55, 0xAA]
  {
    SignatureAt(s, 510);
    SignatureAt(s, |s| - 2);
  }

  lemma SignatureAt(s: Sector, off: nat)
    requires off + 2 <= |s|
    ensures Get16(s, off) == 0xAA55 <==> s[off..off + 2] == [0x55, 0xAA]
  {
    if Get16(s, off) == 0xAA55 {
      assert s[off..off + 2] == [0x55, 0xAA];
    } else {
      assert s[off..off + 2][0] == s[off] && s[off..off + 2][1] == s[off + 1];
    }
  }

  /** Where the parameters lie in the sector, as little-endian numbers. */
  lemma ParametersAre(s: Sector)
    ensures var b := BpbOf(s);
      && b.bytesPerSec == Number(s[11..13]) && b.secPerClust == Number(s[13..14])
      && b.reserved == Number(s[14..16]) && b.nFats == Number(s[16..17]) && b.rootEnts == Number(s[17..19])
      && b.totSec == (if Number(s[19..21]) != 0 then Number(s[19..21]) else Number(s[32..36]))
      && b.fatSz == (if Number(s[22..24]) != 0 then Number(s[22..24]) else Number(s[36..40]))
  {
    NumberOfOne(s[13..14]);
    NumberOfOne(s[16..17]);
    NumberOfTwo(s[11..13]);
    NumberOfTwo(s[14..16]);
    NumberOfTwo(s[17..19]);
    NumberOfTwo(s[19..21]);
    NumberOfTwo(s[22..24]);
    NumberOfFour(s[32..36]);
    NumberOfFour(s[36..40]);
  }

  /** A signed FAT12 or FAT16 volume that fits the partition and whose parts fit the volume. */
  predicate Legal(s: Sector, d: Drive)
    requires d.Holds(s)
  {
    Signed(s, d) && LegalBpb(BpbOf(s), d)
  }

  lemma CeilDivAtMost(x: nat, m: nat, f: nat)
    requires m > 0
    ensures Quot(x + m - 1, m) <= f <==> x <= f * m
  {
    var q := Quot(x + m - 1, m);
    assert m * q <= x + m - 1 < m * q + m;
    if q <= f {
      assert m * q <= m * f;
    } else {
      assert m * (f + 1) <= m * q;
    }
  }

  /** Fields read from disk are bytes and words. */
  predicate Narrow(b: Bpb) {
    && b.bytesPerSec < 0x1_0000 && b.secPerClust < 256 && b.reserved < 0x1_0000
    && b.nFats < 256 && b.rootEnts < 0x1_0000 && b.fatSz < U32 && b.totSec < U32
  }

  lemma RootFits(b: Bpb, bps: nat)
    requires Narrow(b) && 512 <= bps < 0x1_0000
    ensures RootDirSectors(b, bps) == Quot(b.rootEnts * 32 + bps - 1, bps)
    ensures RootDirSectors(b, bps) == 0 <==> b.rootEnts == 0
    ensures RootDirSectors(b, bps) <= 0x1_0000
  {
    assert b.rootEnts * 32 + bps - 1 < U32;
    CeilDivAtMost(b.rootEnts * 32, bps, 0);
    CeilDivAtMost(b.rootEnts * 32, bps, 0x1_0000);
  }

  /** When the sum of the parts does not wrap, the wrapped difference tells whether they fit. */
  lemma DataSecExactly(b: Bpb, bps: nat)
    requires Narrow(b) && 512 <= bps < 0x1_0000 && Meta(b, bps) < U32 && 1 <= b.reserved
    ensures DataSec(b, bps) < b.totSec <==> Meta(b, bps) <= b.totSec
    ensures Meta(b, bps) <= b.totSec ==> DataSec(b, bps) == b.totSec - Meta(b, bps)
  {
    RootFits(b, bps);
    Differences(b.totSec, b.reserved, b.nFats * b.fatSz, RootDirSectors(b, bps));
  }

  lemma Differences(tot: nat, res: nat, fats: nat, root: nat)
    requires tot < U32 && 1 <= res && res + fats + root < U32
    ensures var m := (res + fats % U32 + root) % U32;
      && ((tot + U32 - m) % U32 < tot <==> res + fats + root <= tot)
      && (res + fats + root <= tot ==> (tot + U32 - m) % U32 == tot - (res + fats + root))
  {
    assert fats % U32 == fats;
  }

  /** The FAT size test does not wrap and is the rounded-up quotient of the bytes needed. */
  lemma FatTestExactly(clusters: nat, fatSz: nat, bps: nat)
    requires clusters < 65525 && 512 <= bps < 0x1_0000
    ensures Quot(((clusters + 2) * EntryWidth(clusters) + 2 * bps - 1) % U32, 2 * bps) <= fatSz
      <==> FatHolds(clusters, fatSz, bps)
  {
    var x := (clusters + 2) * EntryWidth(clusters);
    assert x <= 4 * (clusters + 2);
    CeilDivAtMost(x, 2 * bps, fatSz);
    assert fatSz * (2 * bps) == 2 * (fatSz * bps);
    assert 4 * x == (clusters + 2) * EntryBits(clusters);
  }

  lemma AcceptsBpbExactly(b: Bpb, d: Drive)
    requires d.Ok() && Narrow(b)
    ensures LegalBpb(b, d) <==>
      AcceptsBpb(b, d) && b.secPerClust != 0 && Meta(b, d.bytesPerSector) < U32
  {
    var bps := d.bytesPerSector;
    if b.bytesPerSec == bps && 1 <= b.reserved && Meta(b, bps) < U32 && b.secPerClust != 0 {
      RootFits(b, bps);
      DataSecExactly(b, bps);
      ClusterBytes(b.secPerClust, bps);
      var c := CountOfClusters(b, bps);
      if c < 65525 {
        FatTestExactly(c, b.fatSz, bps);
      }
    }
  }

  lemma ClusterBytes(spc: nat, bps: nat)
    requires spc < 256 && bps < 0x1_0000
    ensures (spc * bps) % U32 == spc * bps
  {
    FactorAtMost(bps, spc, 256);
  }

  lemma FactorAtMost(a: nat, x: nat, y: nat)
    requires x <= y
    ensures x * a <= y * a
  {
  }

  lemma FieldsAreNarrow(s: Sector)
    ensures Narrow(BpbOf(s))
  {
  }

  /** The check decides exactly this: a sector describes a legal volume if and only if it is
      accepted, its cluster size is not zero, and the sum of its parts does not wrap. */
  lemma AcceptsExactlyLegal(s: Sector, d: Drive)
    requires d.Holds(s)
    ensures Legal(s, d) <==>
      Accepts(s, d) && BpbOf(s).secPerClust != 0 && Meta(BpbOf(s), d.bytesPerSector) < U32
  {
    FieldsAreNarrow(s);
    AcceptsBpbExactly(BpbOf(s), d);
  }

  /** A FAT size that came from the 16-bit field rules the wrap out. */
  lemma SmallFatNeverWraps(b: Bpb, d: Drive)
    requires d.Ok() && Narrow(b) && AcceptsBpb(b, d) && b.fatSz < 0x1_0000
    ensures Meta(b, d.bytesPerSector) < U32
  {
    RootFits(b, d.bytesPerSector);
    assert b.nFats * b.fatSz <= 2 * b.fatSz;
  }

  /** For sectors with a 16-bit FAT size and a cluster size, accepting is being legal. */
  lemma AcceptedLayoutFits(s: Sector, d: Drive)
    requires d.Holds(s) && Get16(s, SEC_PER_FAT) != 0 && BpbOf(s).secPerClust != 0
    ensures Accepts(s, d) <==> Legal(s, d)
  {
    AcceptsExactlyLegal(s, d);
    FieldsAreNarrow(s);
    if Accepts(s, d) {
      SmallFatNeverWraps(BpbOf(s), d);
    }
  }

  // ----- Two sectors that are accepted but not legal -----

  function Example(spc: byte, fat16: byte, fat32top: byte): Sector {
    seq(512, i =>
      if i == 0x0c then 2 else if i == 0x0d then spc else if i == 0x0e then 1
      else if i == 0x10 then 2 else if i == 0x11 then 16 else if i == 0x13 then 100
      else if i == 0x16 then fat16 else if i == 0x27 then fat32top
      else if i == 510 then 0x55 else if i == 511 then 0xAA else 0)
  }

  // ----- Sectors that are accepted, and rightly -----

  /** The parameter block of a volume with one reserved sector and two FATs. */
  function Volume(spc: byte, rootEnts: word, total: nat, fatSz: word): Sector
    requires total < U32
  {
    var tot16 := if total < 0x1_0000 then total else 0;
    var tot32 := if total < 0x1_0000 then 0 else total;
    seq(512, i requires 0 <= i < 512 =>
      if i == 0x0c then 2 else if i == 0x0d then spc else if i == 0x0e then 1 else if i == 0x10 then 2
      else if i == 0x11 then rootEnts % 0x100 else if i == 0x12 then rootEnts / 0x100
      else if i == 0x13 then tot16 % 0x100 else if i == 0x14 then tot16 / 0x100
      else if i == 0x16 then fatSz % 0x100 else if i == 0x17 then fatSz / 0x100
      else if 0x20 <= i < 0x24 then ByteOf(tot32, i - 0x20)
      else if i == 510 then 0x55 else if i == 511 then 0xAA else 0)
  }

  lemma VolumeParameters(spc: byte, rootEnts: word, total: nat, fatSz: word)
    requires total < U32 && fatSz > 0 && total > 0
    ensures BpbOf(Volume(spc, rootEnts, total, fatSz)) == Bpb(512, spc, 1, 2, rootEnts, fatSz, total)
  {
    BytesMakeWord(total);
    var s := Volume(spc, rootEnts, total, fatSz);
    assert Get16(s, NSECTORS) == if total < 0x1_0000 then total else 0;
    assert Get16(s, SEC_PER_FAT) == fatSz;
    if total >= 0x1_0000 {
      assert Get32(s, LONG_NSECTORS) == total;
    }
  }

  /** The 1.44 MB floppy: FAT12 with 2847 clusters, whose FATs just have the room. */
  lemma FloppyAccepted(d: Drive)
    requires d.bytesPerSector == 512 && d.sectors >= 2880
    ensures var s := Volume(1, 224, 2880, 9); Accepts(s, d) && Legal(s, d)
  {
    VolumeParameters(1, 224, 2880, 9);
    AcceptsExactlyLegal(Volume(1, 224, 2880, 9), d);
  }

  /** A FAT16 volume of 16 MB. */
  lemma Fat16Accepted(d: Drive)
    requires d.bytesPerSector == 512 && d.sectors >= 32768
    ensures var s := Volume(4, 512, 32768, 32); Accepts(s, d) && Legal(s, d)
  {
    VolumeParameters(4, 512, 32768, 32);
    AcceptsExactlyLegal(Volume(4, 512, 32768, 32), d);
  }

  /** A FAT16 volume of 64 MB, whose sectors are counted in the 32-bit field. */
  lemma LargeVolumeAccepted(d: Drive)
    requires d.bytesPerSector == 512 && d.sectors >= 131072
    ensures var s := Volume(4, 512, 131072, 128); Accepts(s, d) && Legal(s, d)
  {
    VolumeParameters(4, 512, 131072, 128);
    AcceptsExactlyLegal(Volume(4, 512, 131072, 128), d);
  }

  /** A zero cluster size passes the string search, and so the whole check. */
  lemma ZeroClusterSizeAccepted(d: Drive)
    requires d.bytesPerSector == 512 && d.sectors >= 100
    ensures var s := Example(0, 1, 0); Accepts(s, d) && !Legal(s, d)
  {
    assert BpbOf(Example(0, 1, 0)) == Bpb(512, 0, 1, 2, 16, 1, 100);
  }

  /** Two FAT copies of 2^31 sectors wrap to nothing. */
  lemma WrappingFatAccepted(d: Drive)
    requires d.bytesPerSector == 512 && d.sectors >= 100
    ensures var s := Example(1, 0, 0x80);
      Accepts(s, d) && !Legal(s, d) && Meta(BpbOf(s), 512) > BpbOf(s).totSec
  {
    var b := BpbOf(Example(1, 0, 0x80));
    assert b == Bpb(512, 1, 1, 2, 16, 0x8000_0000, 100);
    assert DataSec(b, 512) == 98;
  }

  // ----- Installing boot code -----

  /** Where the boot code goes: the jump, and everything from 0x3e up to the signature. */
  predicate IsCode(i: int) { 0 <= i < 3 || 0x3e <= i < 510 }

  predicate IsHidden(i: int) { NHIDDEN_SECS <= i < NHIDDEN_SECS + 4 }

  function Patched(s: Sector, code: Sector, hidden: nat): (p: Sector)
    ensures |p| == |s|
  {
    seq(|s|, i requires 0 <= i < |s| =>
      if IsCode(i) then code[i] else if IsHidden(i) then ByteOf(hidden, i - NHIDDEN_SECS) else s[i])
  }

  /** The patch of the sector buffer. */
  method Install(pBoot: array<byte>, code: Sector, hidden: nat)
    requires pBoot.Length >= 512
    modifies pBoot
    ensures pBoot[..] == Patched(old(pBoot[..]), code, hidden)
  {
    forall i | 0 <= i < 3 {
      pBoot[i] := code[i];
    }
    forall i | 0x3e <= i < 0x3e + (512 - 0x3e - 2) {
      pBoot[i] := code[i];
    }
    pBoot[NHIDDEN_SECS] := ByteOf(hidden, 0);
    pBoot[NHIDDEN_SECS + 1] := ByteOf(hidden, 1);
    pBoot[NHIDDEN_SECS + 2] := ByteOf(hidden, 2);
    pBoot[NHIDDEN_SECS + 3] := ByteOf(hidden, 3);
  }

  /** The check reads nothing the patch writes: every sector keeps its verdict. */
  lemma InstallKeepsVerdict(s: Sector, d: Drive, code: Sector, hidden: nat)
    requires d.Holds(s)
    ensures Accepts(Patched(s, code, hidden), d) <==> Accepts(s, d)
  {
    var p := Patched(s, code, hidden);
    assert BpbOf(p) == BpbOf(s);
    assert Signed(p, d) == Signed(s, d);
  }

  lemma InstallIdempotent(s: Sector, code: Sector, hidden: nat)
    ensures Patched(Patched(s, code, hidden), code, hidden) == Patched(s, code, hidden)
  {
  }

  /** The parameter block outside the hidden-sector field, and everything from the signature on,
      stay; the hidden-sector field reads back; the code is in place. */
  lemma InstallPreserves(s: Sector, code: Sector, hidden: nat)
    requires hidden < U32
    ensures var p := Patched(s, code, hidden);
      && (forall i :: (3 <= i < 0x3e && !IsHidden(i)) || 510 <= i < |s| ==> p[i] == s[i])
      && Get32(p, NHIDDEN_SECS) == hidden
      && p[..3] == code[..3] && p[0x3e..510] == code[0x3e..510]
  {
    BytesMakeWord(hidden);
  }

  /** What to do with the sector once it is read. */
  datatype Job = InstallCode | RestoreFrom(file: Sector) | SaveOnly

  /** The sector buffer after the job. */
  function Done(job: Job, s: Sector, code: Sector, hidden: nat): Sector {
    match job
    case InstallCode => Patched(s, code, hidden)
    case RestoreFrom(file) => file
    case SaveOnly => s
  }

  /** Check, then do the job: without `ignore` a rejected sector is left as it is; a sector that got
      new code, or was only saved, is accepted afterwards as it was before. */
  method CheckAndDo(pBoot: array<byte>, d: Drive, ignore: bool, job: Job, code: Sector, hidden: nat)
    returns (ok: bool)
    requires pBoot.Length == d.bytesPerSector && d.Ok()
    requires job.RestoreFrom? ==> |job.file| == d.bytesPerSector
    modifies pBoot
    ensures ok <==> ignore || Accepts(old(pBoot[..]), d)
    ensures pBoot[..] == if ok then Done(job, old(pBoot[..]), code, hidden) else old(pBoot[..])
    ensures ok && !ignore && !job.RestoreFrom? ==> Accepts(pBoot[..], d)
    ensures ok && job.RestoreFrom? ==> pBoot[..] == job.file
    ensures job.SaveOnly? ==> pBoot[..] == old(pBoot[..])
  {
    if !ignore && !Accepts(pBoot[..], d) {
      return false;
    }
    match job {
      case RestoreFrom(file) =>
        forall i | 0 <= i < pBoot.Length {
          pBoot[i] := file[i];
        }
        assert pBoot[..] == file;
      case InstallCode =>
        InstallKeepsVerdict(pBoot[..], d, code, hidden);
        Install(pBoot, code, hidden);
      case SaveOnly =>
    }
    return true;
  }
}
