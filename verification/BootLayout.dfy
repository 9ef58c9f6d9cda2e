/** Where the stage 1 loader looks for things: the layout, the directory scan and the file, as
    functions of the boot parameters and the disk. */
module BootLayout {
  import opened Values
  import opened BootGeometry

  const DW: nat := 0x1_0000_0000
  const SECTOR: nat := 512

  type Block = b: seq<byte> | |b| == SECTOR witness seq(SECTOR, _ => 0)

  /** The boot parameter words the loader uses; `direntSize` is the word it keeps in res2. */
  datatype Bpb = Bpb(bytPerSec: word, secPerClu: byte, numResSec: word, numFats: byte, rootSize: word,
                     secPerFat: word, numHidSec: word, numHidSec2: word, direntSize: word)
  {
    /** Buffers are one 512-byte sector; entries are 32 bytes, or 64 with long names. */
    predicate Ok() {
      bytPerSec == SECTOR && (direntSize == 32 || direntSize == 64)
    }
  }

  /** A disk behind the BIOS call. */
  datatype Disk = Disk(g: Geometry, blocks: seq<Block>)
  {
    predicate Ok() { g.Ok() }

    /** One read, by way of the registers: nothing when DIV faults or the BIOS reports an error. */
    function At(lba: nat): Option<Block> {
      if !Ok() || !Divides(g, lba) then None
      else
        var s := Unpack(g, Pack(g, lba));
        if 0 <= s < |blocks| then Some(blocks[s]) else None
    }

    /** How many sectors lie below cylinder 1024, on tracks numbered in sixteen bits. */
    function Reach(): nat {
      Least(|blocks|, Least(1024 * g.numHeads * g.secPerTrack, g.secPerTrack * W))
    }

    /** The sectors the loader can address. */
    function Near(): seq<Block> { blocks[..Reach()] }
  }

  function Least(x: nat, y: nat): nat { if x <= y then x else y }

  /** Reading sectors by number. */
  type Reader = nat -> Option<Block>

  /** A read delivers the sector asked for when its registers decode to it. */
  lemma ReadsTheSector(d: Disk, lba: nat)
    requires d.Ok() && lba < |d.blocks| && Divides(d.g, lba) && Cylinder(d.g, lba) < 1024
    ensures d.At(lba) == Some(d.blocks[lba])
  {
    RoundTripExactly(d.g, lba);
  }

  /** These sectors are the addressable ones. */
  lemma NearExactly(d: Disk, lba: nat)
    requires d.Ok()
    ensures lba < |d.Near()| <==> lba < |d.blocks| && Divides(d.g, lba) && Cylinder(d.g, lba) < 1024
  {
    DivBelowExactly(lba, d.g.secPerTrack, W);
    CylinderBelow(d.g, lba);
  }

  // ----- The layout -----

  /** DX:AX after adding a word to AX and the carry to DX. */
  function AddLong(dxax: nat, x: nat): nat { (dxax + x) % DW }

  lemma AddLongTwice(dxax: nat, x: nat, y: nat)
    ensures AddLong(AddLong(dxax, x), y) == AddLong(dxax, x + y)
  {
  }

  /** The counter word for `left` sectors. */
  function Counter(left: nat): word
    requires left <= W
  {
    if left == W then 0 else left
  }

  /** Rounds of a LOOP with this count in CX. */
  function Rounds(count: word): nat { if count == 0 then W else count }

  /** First sector of the root directory, in DX:AX. */
  function RootStart(b: Bpb): nat {
    (b.numFats * b.secPerFat + b.numResSec + b.numHidSec + W * b.numHidSec2) % DW
  }

  /** The layout, area by area: the hidden sectors, the reserved ones, one FAT after the other. */
  function FatCopy(b: Bpb, i: nat): nat {
    if i == 0 then W * b.numHidSec2 + b.numHidSec + b.numResSec else FatCopy(b, i - 1) + b.secPerFat
  }

  /** Behind the last FAT comes the root directory. */
  function RootDirectory(b: Bpb): nat { FatCopy(b, b.numFats) }

  lemma {:induction false} FatCopiesAdd(b: Bpb, i: nat)
    ensures FatCopy(b, i) == FatCopy(b, 0) + i * b.secPerFat
    decreases i
  {
    if i > 0 {
      FatCopiesAdd(b, i - 1);
      assert (i - 1) * b.secPerFat + b.secPerFat == i * b.secPerFat;
    }
  }

  /** The start computed is the start of the root directory, as far as 32 bits go. */
  lemma RootStartExactly(b: Bpb)
    ensures RootStart(b) == RootDirectory(b) % DW
    ensures RootStart(b) == RootDirectory(b) <==> RootDirectory(b) < DW
  {
    FatCopiesAdd(b, b.numFats);
  }

  function RootBytes(b: Bpb): nat { b.direntSize * b.rootSize }

  lemma RootBytesFit(b: Bpb)
    requires b.Ok()
    ensures RootBytes(b) <= 64 * (W - 1)
    ensures CountedSectors(RootBytes(b)) <= 0x2000 && RootSectors(b) <= 0x2000
  {
    ProductGrows(b.rootSize, b.direntSize, 64);
    CountedSmall(RootBytes(b));
  }

  /** The division by the sector size as computed: the addition to AX drops its carry. */
  function CountedSectors(bytes: nat): nat {
    (bytes / W * W + (bytes % W + SECTOR + W - 1) % W) / SECTOR
  }

  /** The rounded-up quotient, which is what the computation is for. */
  function NeededSectors(bytes: nat): nat { (bytes + SECTOR - 1) / SECTOR }

  lemma CountedExactly(bytes: nat)
    ensures CountedSectors(bytes) == NeededSectors(bytes) <==> bytes % W + SECTOR - 1 < W
  {
    var dx, ax := bytes / W, bytes % W;
    assert (ax + SECTOR + W - 1) % W == if ax + SECTOR - 1 < W then ax + SECTOR - 1 else ax + SECTOR - 1 - W;
    assert bytes == dx * W + ax;
  }

  function RootCount(b: Bpb): word
    requires b.Ok()
  {
    RootBytesFit(b);
    CountedSectors(RootBytes(b))
  }

  function RootSectors(b: Bpb): nat { NeededSectors(RootBytes(b)) }

  lemma CountedSmall(bytes: nat)
    requires bytes <= 64 * (W - 1)
    ensures CountedSectors(bytes) <= 0x2000 && NeededSectors(bytes) <= 0x2000
  {
  }

  /** The scan is over the sectors of the root directory exactly when that is not empty and the
      addition does not carry; otherwise it is over fewer, or over 65536. */
  lemma RootCountExactly(b: Bpb)
    requires b.Ok()
    ensures RootCount(b) == RootSectors(b) <==> b.direntSize * b.rootSize % W + SECTOR - 1 < W
    ensures Rounds(RootCount(b)) == RootSectors(b) <==>
      b.direntSize * b.rootSize > 0 && b.direntSize * b.rootSize % W + SECTOR - 1 < W
  {
    RootBytesFit(b);
    CountedExactly(RootBytes(b));
    NeededNone(RootBytes(b));
  }

  /** These are the sectors it takes to hold all entries, and one less would not do. */
  lemma RootSectorsHold(b: Bpb)
    ensures b.rootSize * b.direntSize <= RootSectors(b) * 512
    ensures RootSectors(b) > 0 ==> (RootSectors(b) - 1) * 512 < b.rootSize * b.direntSize
  {
  }

  lemma NeededNone(bytes: nat)
    ensures NeededSectors(bytes) == 0 <==> bytes == 0
  {
  }

  /** 2047 entries of 32 bytes need 128 sectors; none is counted, and LOOP runs 65536 rounds. */
  lemma RootCountCanBeLost(b: Bpb)
    requires b.bytPerSec == SECTOR && b.direntSize == 32 && b.rootSize == 2047
    ensures RootSectors(b) == 128 && RootCount(b) == 0 && Rounds(RootCount(b)) == W
  {
  }

  // ----- The directory scan -----

  /** "BOOTAPP SYS", as the eleven bytes of a directory entry. */
  const NAME: seq<byte> := [0x42, 0x4f, 0x4f, 0x54, 0x41, 0x50, 0x50, 0x20, 0x53, 0x59, 0x53]

  predicate NameAt(s: Block, off: nat)
    requires off + 11 <= SECTOR
  {
    s[off..off + 11] == NAME
  }

  /** A multiple of the entry size, which is 32 or 64. */
  predicate Aligned(off: nat, size: nat) {
    (size == 32 && off % 32 == 0) || (size == 64 && off % 64 == 0)
  }

  predicate EntryOffset(off: nat, size: nat) {
    Aligned(off, size) && off + size <= SECTOR
  }

  /** The first entry of a sector, from `off` on, that has the name. */
  function ScanSector(s: Block, size: word, off: nat): (r: Option<nat>)
    requires off <= SECTOR && Aligned(off, size)
    ensures r.Some? ==> off <= r.value && EntryOffset(r.value, size) && NameAt(s, r.value)
    decreases SECTOR - off
  {
    if off == SECTOR then None
    else if NameAt(s, off) then Some(off)
    else ScanSector(s, size, off + size)
  }

  /** One comparison of the scan in a sector. */
  lemma ScanStep(s: Block, size: word, off: nat)
    requires off < SECTOR && Aligned(off, size)
    ensures off + size <= SECTOR && Aligned(off + size, size)
    ensures ScanSector(s, size, off) == if s[off..off + 11] == NAME then Some(off) else ScanSector(s, size, off + size)
  {
  }

  lemma EntriesApart(off: nat, o: nat, size: nat)
    requires Aligned(off, size) && Aligned(o, size) && off < o
    ensures off + size <= o
  {
  }

  /** Nothing before the result has the name. */
  lemma {:induction false} ScanSectorIsFirst(s: Block, size: word, off: nat, o: nat)
    requires off <= SECTOR && Aligned(off, size)
    requires off <= o && EntryOffset(o, size)
    requires var r := ScanSector(s, size, off); r.Some? ==> o < r.value
    ensures !NameAt(s, o)
    decreases SECTOR - off
  {
    ScanStep(s, size, off);
    if o != off {
      EntriesApart(off, o, size);
      ScanSectorIsFirst(s, size, off + size, o);
    }
  }

  /** What is looked for in one sector. */
  type Finder = Block -> Option<nat>

  function Entry(size: word): Finder
    requires size == 32 || size == 64
  {
    (s: Block) => ScanSector(s, size, 0)
  }

  /** Found in the k-th root sector (whose contents are `dir`) at offset `off`. */
  datatype Scan = Found(k: nat, off: nat, dir: Block) | Missing | Unreadable

  /** The scan of `n` sectors from `start`, in order. */
  function ScanRoot(read: Reader, find: Finder, start: nat, n: nat): Scan
    decreases n
  {
    if n == 0 then Missing
    else
      match read(start)
      case None => Unreadable
      case Some(s) =>
        match find(s)
        case Some(off) => Found(0, off, s)
        case None => Later(ScanRoot(read, find, AddLong(start, 1), n - 1), 1)
  }

  /** A scan result, `k` sectors later. */
  function Later(r: Scan, k: nat): Scan {
    if r.Found? then Found(r.k + k, r.off, r.dir) else r
  }

  /** The scan, one sector at a time. */
  lemma ScanRound(read: Reader, find: Finder, start: nat, n: nat, k: nat)
    requires n >= 1
    ensures var r := Later(ScanRoot(read, find, start, n), k);
      match read(start)
      case None => r == Unreadable
      case Some(s) =>
        match find(s)
        case Some(off) => r == Found(k, off, s)
        case None => r == Later(ScanRoot(read, find, AddLong(start, 1), n - 1), k + 1)
  {
  }

  /** An entry found has the name, and lies inside its sector. */
  lemma {:induction false} FoundHasTheName(read: Reader, size: word, start: nat, n: nat)
    requires size == 32 || size == 64
    ensures match ScanRoot(read, Entry(size), start, n)
      case Found(k, off, dir) => k < n && EntryOffset(off, size) && NameAt(dir, off)
      case _ => true
    decreases n
  {
    if n > 0 {
      ScanRound(read, Entry(size), start, n, 0);
      FoundHasTheName(read, size, AddLong(start, 1), n - 1);
    }
  }

  // ----- The entry found -----

  function WordAt(s: Block, off: nat): word
    requires off + 2 <= SECTOR
  {
    (s[off] as int) + 0x100 * (s[off + 1] as int)
  }

  /** With long names the fields are in the second half of the entry. */
  function Fields(size: word): nat { if size == 0x40 then 0x20 else 0 }

  /** What the loader takes from a directory entry. */
  datatype DirEntry = DirEntry(cluster: word, size: nat)

  function EntryAt(s: Block, size: word, off: nat): DirEntry
    requires EntryOffset(off, size)
  {
    var f := off + Fields(size);
    DirEntry(WordAt(s, f + 0x1a), WordAt(s, f + 0x1c) + W * WordAt(s, f + 0x1e))
  }

  /** The fields are little-endian numbers: the cluster in bytes 26 and 27, the size in bytes 28 to 31
      of the entry, or of its second half with long names. */
  lemma EntryFieldsAre(s: Block, off: nat)
    ensures EntryOffset(off, 32) ==> var e := EntryAt(s, 32, off);
      e.cluster == Number(s[off + 26..off + 28]) && e.size == Number(s[off + 28..off + 32])
    ensures EntryOffset(off, 64) ==> var e := EntryAt(s, 64, off);
      e.cluster == Number(s[off + 58..off + 60]) && e.size == Number(s[off + 60..off + 64])
  {
    if EntryOffset(off, 32) {
      NumberOfTwo(s[off + 26..off + 28]);
      NumberOfFour(s[off + 28..off + 32]);
    }
    if EntryOffset(off, 64) {
      NumberOfTwo(s[off + 58..off + 60]);
      NumberOfFour(s[off + 60..off + 64]);
    }
  }

  lemma NameSpells()
    ensures |NAME| == |"BOOTAPP SYS"| && forall i :: 0 <= i < |NAME| ==> NAME[i] == "BOOTAPP SYS"[i] as int
  {
  }

  /** First sector of the file: clusters count from 2, in sixteen bits. */
  function FirstSector(b: Bpb, dataStart: nat, cluster: word): nat {
    ((cluster + W - 2) % W * b.secPerClu + dataStart) % DW
  }

  /** The bytes of `n` consecutive sectors, if all can be read. */
  function Image(read: Reader, first: nat, n: nat): (r: Option<seq<byte>>)
    ensures r.Some? ==> |r.value| == n * SECTOR
    decreases n
  {
    if n == 0 then Some([])
    else
      match read(first)
      case None => None
      case Some(s) => Behind(s, Image(read, AddLong(first, 1), n - 1))
  }

  /** A rest, if there is one, behind what is already there. */
  function Behind(done: seq<byte>, rest: Option<seq<byte>>): Option<seq<byte>> {
    if rest.Some? then Some(done + rest.value) else None
  }

  /** What is still missing of an image after `done`: `left` sectors from `sector` on. */
  ghost predicate Lacks(image: Option<seq<byte>>, done: seq<byte>, read: Reader, sector: nat, left: nat) {
    image == Behind(done, Image(read, sector, left))
  }

  lemma LacksAll(read: Reader, first: nat, n: nat)
    ensures Lacks(Image(read, first, n), [], read, first, n)
  {
    var image := Image(read, first, n);
    if image.Some? {
      assert [] + image.value == image.value;
    }
  }

  lemma LacksNothing(image: Option<seq<byte>>, done: seq<byte>, read: Reader, sector: nat)
    requires Lacks(image, done, read, sector, 0)
    ensures image == Some(done)
  {
    assert done + [] == done;
  }

  /** The image, one sector at a time. */
  lemma ImageRound(image: Option<seq<byte>>, done: seq<byte>, read: Reader, sector: nat, left: nat)
    requires Lacks(image, done, read, sector, left) && left >= 1
    ensures match read(sector)
      case None => image == None
      case Some(s) => Lacks(image, done + s, read, AddLong(sector, 1), left - 1)
  {
    if read(sector).Some? {
      var s, rest := read(sector).value, Image(read, AddLong(sector, 1), left - 1);
      if rest.Some? {
        assert done + (s + rest.value) == (done + s) + rest.value;
      }
    }
  }

  datatype Outcome = Loaded(image: seq<byte>, size: nat) | NotFound | Halted

  /** Loading `size` bytes from sector `first` on, and the rest of the last sector read; a DIV
      faults when the number of sectors does not fit. */
  function LoadExtent(read: Reader, first: nat, size: nat): Outcome {
    if size / SECTOR >= W then Halted
    else
      match Image(read, first, size / SECTOR + 1)
      case None => Halted
      case Some(image) => Loaded(image, size)
  }

  /** Loading the file of a directory entry. */
  function LoadEntry(b: Bpb, read: Reader, dataStart: nat, e: DirEntry): Outcome {
    LoadExtent(read, FirstSector(b, dataStart, e.cluster), e.size)
  }

  /** Where the data area is taken to begin when the entry was in sector k of n: the scan has come
      to start + k and skips the count that is left in a word. */
  function DataArea(start: nat, n: nat, k: nat): nat
    requires k < n <= W
  {
    AddLong(start, k + Counter(n - k))
  }

  /** The scan of `n` root sectors from `start`, and the file found; the data area follows the
      root directory. */
  function LoadFrom(b: Bpb, read: Reader, start: nat, n: nat): Outcome
    requires b.Ok() && n <= W
  {
    FoundHasTheName(read, b.direntSize, start, n);
    match ScanRoot(read, Entry(b.direntSize), start, n)
    case Missing => NotFound
    case Unreadable => Halted
    case Found(k, off, dir) => LoadEntry(b, read, DataArea(start, n, k), EntryAt(dir, b.direntSize, off))
  }

  /** Everything the loader does. */
  function Load(b: Bpb, d: Disk): Outcome
    requires b.Ok()
  {
    LoadFrom(b, d.At, RootStart(b), Rounds(RootCount(b)))
  }
}
