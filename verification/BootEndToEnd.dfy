/** The loader end to end, for contiguous files on volumes it can address. */
module BootEndToEnd {
  import opened Values
  import opened BootGeometry
  import opened BootLayout
  import opened BootLoader

  /** Every block is delivered when asked for. */
  ghost predicate Delivers(read: Reader, blocks: seq<Block>) {
    |blocks| < DW && forall lba: nat :: lba < |blocks| ==> read(lba) == Some(blocks[lba])
  }

  lemma NearDelivers(d: Disk)
    requires d.Ok()
    ensures Delivers(d.At, d.Near())
  {
    SmallReach(d);
    forall lba: nat | lba < |d.Near()| ensures d.At(lba) == Some(d.Near()[lba]) {
      NearExactly(d, lba);
      ReadsTheSector(d, lba);
    }
  }

  lemma SmallReach(d: Disk)
    requires d.Ok()
    ensures |d.Near()| < DW
  {
    ProductGrows(W, d.g.secPerTrack, 63);
  }

  /** The entry at `off` is named BOOTAPP.SYS, in the eleven characters of a directory. */
  predicate Named(s: Block, off: nat)
    requires off + 11 <= SECTOR
  {
    forall i :: 0 <= i < 11 ==> s[off + i] == "BOOTAPP SYS"[i] as int
  }

  lemma NamedExactly(s: Block, off: nat)
    requires off + 11 <= SECTOR
    ensures Named(s, off) <==> NameAt(s, off)
  {
    NameSpells();
    if Named(s, off) {
      assert s[off..off + 11] == NAME;
    } else if NameAt(s, off) {
      forall i | 0 <= i < 11 ensures s[off + i] == "BOOTAPP SYS"[i] as int {
        assert s[off + i] == s[off..off + 11][i] == NAME[i];
      }
    }
  }

  ghost predicate NoName(s: Block, size: word) {
    forall o: nat :: EntryOffset(o, size) && o + 11 <= SECTOR ==> !Named(s, o)
  }

  ghost predicate FirstName(s: Block, size: word, off: nat) {
    && EntryOffset(off, size) && off + 11 <= SECTOR && Named(s, off)
    && (forall o: nat :: o < off && EntryOffset(o, size) && o + 11 <= SECTOR ==> !Named(s, o))
  }

  lemma NoNameScans(s: Block, size: word)
    requires size == 32 || size == 64
    ensures NoName(s, size) <==> Entry(size)(s) == None
  {
    var r := ScanSector(s, size, 0);
    if r == None {
      forall o: nat | EntryOffset(o, size) && o + 11 <= SECTOR ensures !Named(s, o) {
        ScanSectorIsFirst(s, size, 0, o);
        NamedExactly(s, o);
      }
    } else {
      NamedExactly(s, r.value);
    }
  }

  lemma FirstNameScans(s: Block, size: word, off: nat)
    requires (size == 32 || size == 64) && FirstName(s, size, off)
    ensures Entry(size)(s) == Some(off)
  {
    var r := ScanSector(s, size, 0);
    NamedExactly(s, off);
    if r == None || off < r.value {
      ScanSectorIsFirst(s, size, 0, off);
    } else if r.value < off {
      NamedExactly(s, r.value);
    }
  }

  /** The scan stops at the first sector, and in it the first entry, that has the name. */
  lemma {:induction false} ScanFindsFirst(
    read: Reader, blocks: seq<Block>, find: Finder, start: nat, n: nat, k: nat, off: nat)
    requires Delivers(read, blocks) && start + n <= |blocks| && k < n
    requires forall j :: start <= j < start + k ==> find(blocks[j]) == None
    requires find(blocks[start + k]) == Some(off)
    ensures ScanRoot(read, find, start, n) == Found(k, off, blocks[start + k])
    decreases n
  {
    ScanRound(read, find, start, n, 0);
    if k > 0 {
      NextSectorIs(start);
      ScanFindsFirst(read, blocks, find, start + 1, n - 1, k - 1, off);
    }
  }

  lemma {:induction false} ScanMissesExactly(read: Reader, blocks: seq<Block>, find: Finder, start: nat, n: nat)
    requires Delivers(read, blocks) && start + n <= |blocks|
    ensures ScanRoot(read, find, start, n) == Missing <==>
      forall j :: start <= j < start + n ==> find(blocks[j]) == None
    decreases n
  {
    if n > 0 {
      ScanRound(read, find, start, n, 0);
      if n > 1 {
        NextSectorIs(start);
        ScanMissesExactly(read, blocks, find, start + 1, n - 1);
      }
    }
  }

  lemma NextSectorIs(s: nat)
    requires s + 1 < DW
    ensures AddLong(s, 1) == s + 1
  {
  }

  /** Reading `n` sectors that lie on the disk gives exactly their bytes. */
  lemma {:induction false} ImageIs(read: Reader, blocks: seq<Block>, first: nat, n: nat)
    requires Delivers(read, blocks) && first + n <= |blocks|
    ensures Image(read, first, n).Some?
    ensures forall i :: 0 <= i < n * SECTOR ==>
      Image(read, first, n).value[i] == blocks[first + i / SECTOR][i % SECTOR]
    decreases n
  {
    if n > 0 {
      NextSectorIs(first);
      ImageIs(read, blocks, first + 1, n - 1);
      var s, rest := blocks[first], Image(read, first + 1, n - 1).value;
      var image: seq<byte> := s + rest;
      assert Image(read, first, n) == Some(image);
      forall i | 0 <= i < n * SECTOR
        ensures image[i] == blocks[first + i / SECTOR][i % SECTOR]
      {
        if i >= SECTOR {
          assert rest[i - SECTOR] == blocks[first + 1 + (i - SECTOR) / SECTOR][(i - SECTOR) % SECTOR];
        }
      }
    }
  }

  function WithLast(head: seq<byte>, last: Option<Block>): Option<seq<byte>> {
    if last.Some? then Some(head + last.value) else None
  }

  /** One more sector at the end of an image. */
  lemma {:induction false} ImageGrows(read: Reader, first: nat, n: nat)
    requires first < DW
    ensures Image(read, first, n + 1) ==
      match Image(read, first, n)
      case None => None
      case Some(head) => WithLast(head, read(AddLong(first, n)))
    decreases n
  {
    var next := AddLong(first, 1);
    if n == 0 {
      OneSector(read, first);
    } else if read(first).Some? {
      AddLongTwice(first, 1, n - 1);
      ImageGrows(read, next, n - 1);
      var s, head, last := read(first).value, Image(read, next, n - 1), read(AddLong(first, n));
      if head.Some? && last.Some? {
        assert s + (head.value + last.value) == (s + head.value) + last.value;
      }
    }
  }

  lemma OneSector(read: Reader, first: nat)
    requires first < DW
    ensures Image(read, first, 1) == WithLast([], read(AddLong(first, 0)))
  {
    assert AddLong(first, 0) == first;
    if read(first).Some? {
      assert read(first).value + [] == [] + read(first).value;
    }
  }

  /** The file's bytes, in consecutive sectors from `first`. */
  predicate Contiguous(blocks: seq<Block>, first: nat, file: seq<byte>) {
    && first + NeededSectors(|file|) <= |blocks|
    && (forall i :: 0 <= i < |file| ==> file[i] == blocks[first + i / SECTOR][i % SECTOR])
  }

  /** The first sector of a directory entry's file, in a data area at `dataStart`. */
  function Place(b: Bpb, dataStart: nat, e: DirEntry): nat
    requires e.cluster >= 2
  {
    dataStart + (e.cluster - 2) * b.secPerClu
  }

  /** The file of a directory entry: its size, and its place. */
  predicate IsFile(b: Bpb, blocks: seq<Block>, dataStart: nat, e: DirEntry, file: seq<byte>) {
    e.size == |file| && e.cluster >= 2 && Contiguous(blocks, Place(b, dataStart, e), file)
  }

  /** The loaded image is whole sectors, begins with the file, and is at most a sector longer. */
  predicate Carries(o: Outcome, file: seq<byte>) {
    && o.Loaded? && o.size == |file|
    && file <= o.image && |file| < |o.image| <= |file| + SECTOR && |o.image| % SECTOR == 0
  }

  /** The sectors of a file can be counted in a word, and the last one the loader reads, which is the
      one behind a file of whole sectors, can be read. */
  predicate LastRead(read: Reader, first: nat, size: nat) {
    size < W * SECTOR && read(AddLong(first, size / SECTOR)).Some?
  }

  /** The full sectors of a file, and one more. */
  lemma ExtentImage(read: Reader, blocks: seq<Block>, first: nat, file: seq<byte>)
    requires Delivers(read, blocks) && Contiguous(blocks, first, file)
    ensures var (n, r) := (|file| / SECTOR, Image(read, first, |file| / SECTOR + 1));
      match read(AddLong(first, n))
      case None => r == None
      case Some(s) => r.Some? && file <= r.value && |r.value| == (n + 1) * SECTOR
  {
    var n := |file| / SECTOR;
    ImageIs(read, blocks, first, n);
    ImageGrows(read, first, n);
    assert AddLong(first, n) == first + n;
    if read(first + n).Some? {
      var head, s := Image(read, first, n).value, read(first + n).value;
      forall i | 0 <= i < |file| ensures (head + s)[i] == file[i] {
        if i >= n * SECTOR {
          assert i / SECTOR == n && i % SECTOR == i - n * SECTOR;
        }
      }
    }
  }

  /** A file that lies on the disk is loaded if and only if the last sector read is there; otherwise the
      loader halts. */
  lemma ExtentLoadsExactly(read: Reader, blocks: seq<Block>, first: nat, file: seq<byte>)
    requires Delivers(read, blocks) && Contiguous(blocks, first, file)
    ensures LoadsIf(LoadExtent(read, first, |file|), file, LastRead(read, first, |file|))
  {
    ExtentImage(read, blocks, first, file);
  }

  predicate LoadsIf(o: Outcome, file: seq<byte>, ok: bool) {
    (Carries(o, file) <==> ok) && (!ok ==> o == Halted)
  }

  lemma EntryLoads(b: Bpb, read: Reader, blocks: seq<Block>, dataStart: nat, e: DirEntry, file: seq<byte>)
    requires Delivers(read, blocks) && IsFile(b, blocks, dataStart, e, file)
    ensures LoadsIf(LoadEntry(b, read, dataStart, e), file, LastRead(read, Place(b, dataStart, e), |file|))
  {
    FirstSectorIs(b, dataStart, e.cluster, Place(b, dataStart, e));
    ExtentLoadsExactly(read, blocks, Place(b, dataStart, e), file);
  }

  /** Below the end of the disk nothing in the sector computation wraps. */
  lemma FirstSectorIs(b: Bpb, dataStart: nat, cluster: word, first: nat)
    requires cluster >= 2 && first < DW
    requires first == dataStart + (cluster - 2) * b.secPerClu
    ensures FirstSector(b, dataStart, cluster) == first
  {
    assert (cluster + W - 2) % W == cluster - 2;
  }

  /** In a root directory of `n` sectors from `start`, the first entry with the name is at offset
      `off` of the k-th sector. */
  ghost predicate FirstEntry(blocks: seq<Block>, size: word, start: nat, n: nat, k: nat, off: nat) {
    && k < n && start + n <= |blocks|
    && (forall j :: start <= j < start + k ==> NoName(blocks[j], size))
    && FirstName(blocks[start + k], size, off)
  }

  lemma ScanFindsFirstEntry(read: Reader, blocks: seq<Block>, size: word, start: nat, n: nat, k: nat, off: nat)
    requires Delivers(read, blocks) && (size == 32 || size == 64)
    requires FirstEntry(blocks, size, start, n, k, off)
    ensures ScanRoot(read, Entry(size), start, n) == Found(k, off, blocks[start + k])
  {
    forall j | start <= j < start + k ensures Entry(size)(blocks[j]) == None {
      NoNameScans(blocks[j], size);
    }
    FirstNameScans(blocks[start + k], size, off);
    ScanFindsFirst(read, blocks, Entry(size), start, n, k, off);
  }

  /** The data area is computed right whichever root sector held the entry. */
  lemma FoundLoads(b: Bpb, read: Reader, start: nat, n: nat, k: nat, off: nat, dir: Block)
    requires b.Ok() && start + n < DW && k < n < W
    requires EntryOffset(off, b.direntSize)
    requires ScanRoot(read, Entry(b.direntSize), start, n) == Found(k, off, dir)
    ensures LoadFrom(b, read, start, n) == LoadEntry(b, read, start + n, EntryAt(dir, b.direntSize, off))
  {
    DataAreaIs(start, n, k);
    FoundLoadsFrom(b, read, start, n, k, off, dir);
  }

  lemma DataAreaIs(start: nat, n: nat, k: nat)
    requires k < n < W && start + n < DW
    ensures DataArea(start, n, k) == start + n
  {
  }

  lemma FoundLoadsFrom(b: Bpb, read: Reader, start: nat, n: nat, k: nat, off: nat, dir: Block)
    requires b.Ok() && k < n <= W && EntryOffset(off, b.direntSize)
    requires ScanRoot(read, Entry(b.direntSize), start, n) == Found(k, off, dir)
    ensures LoadFrom(b, read, start, n)
      == LoadEntry(b, read, DataArea(start, n, k), EntryAt(dir, b.direntSize, off))
  {
  }

  lemma FirstEntryLoads(b: Bpb, read: Reader, blocks: seq<Block>, start: nat, n: nat, k: nat, off: nat)
    requires b.Ok() && Delivers(read, blocks) && n < W
    requires FirstEntry(blocks, b.direntSize, start, n, k, off)
    ensures LoadFrom(b, read, start, n) ==
      LoadEntry(b, read, start + n, EntryAt(blocks[start + k], b.direntSize, off))
  {
    ScanFindsFirstEntry(read, blocks, b.direntSize, start, n, k, off);
    FoundLoads(b, read, start, n, k, off, blocks[start + k]);
  }

  /** The file named by the first matching entry of a root directory of `n` sectors from `start`: the
      k-th sector and the offset, the entry and the bytes, contiguous in `blocks`. */
  ghost predicate FileOfFirst(b: Bpb, blocks: seq<Block>, start: nat, n: nat, k: nat, off: nat,
                              e: DirEntry, file: seq<byte>)
  {
    && FirstEntry(blocks, b.direntSize, start, n, k, off)
    && e == EntryAt(blocks[start + k], b.direntSize, off)
    && IsFile(b, blocks, start + n, e, file)
  }

  lemma LoadsFrom(b: Bpb, read: Reader, blocks: seq<Block>, start: nat, n: nat, k: nat, off: nat,
                  e: DirEntry, file: seq<byte>, o: Outcome, ok: bool)
    requires b.Ok() && Delivers(read, blocks) && n < W
    requires FileOfFirst(b, blocks, start, n, k, off, e, file)
    requires o == LoadFrom(b, read, start, n) && ok == LastRead(read, Place(b, start + n, e), e.size)
    ensures LoadsIf(o, file, ok)
  {
    FirstEntryLoads(b, read, blocks, start, n, k, off);
    EntryLoads(b, read, blocks, start + n, e, file);
  }

  /** A volume within the limits of the loader's arithmetic: the scan is over the root directory,
      which lies on the disk. */
  predicate VolumeOk(b: Bpb, d: Disk) {
    && b.Ok() && d.Ok()
    && Rounds(RootCount(b)) == RootSectors(b)
    && RootDirectory(b) + RootSectors(b) <= |d.Near()|
  }

  /** In the sectors the loader can address. */
  ghost predicate BootFile(b: Bpb, d: Disk, k: nat, off: nat, e: DirEntry, file: seq<byte>) {
    FileOfFirst(b, d.Near(), RootDirectory(b), RootSectors(b), k, off, e, file)
  }

  /** The last sector read for it is there. */
  predicate LastIsThere(b: Bpb, d: Disk, e: DirEntry)
    requires e.cluster >= 2
  {
    LastRead(d.At, Place(b, RootDirectory(b) + RootSectors(b), e), e.size)
  }

  /** End to end: the contiguous file named by the first matching entry is loaded, all of its bytes
      in order at the start of the image, wherever in the root directory that entry is, if and only if
      the last sector read is there; otherwise the loader halts. */
  lemma LoadsTheFile(b: Bpb, d: Disk, k: nat, off: nat, e: DirEntry, file: seq<byte>)
    requires VolumeOk(b, d) && BootFile(b, d, k, off, e, file)
    ensures LoadsIf(Load(b, d), file, LastIsThere(b, d, e))
  {
    NearDelivers(d);
    RootBytesFit(b);
    RootStartExactly(b);
    LoadsFrom(b, d.At, d.Near(), RootDirectory(b), RootSectors(b), k, off, e, file, Load(b, d), LastIsThere(b, d, e));
  }

  /** A file that ends inside a sector needs no other; so it is always loaded. */
  lemma PartialSectorSuffices(b: Bpb, d: Disk, k: nat, off: nat, e: DirEntry, file: seq<byte>)
    requires VolumeOk(b, d) && BootFile(b, d, k, off, e, file)
    requires |file| % SECTOR != 0 && |file| < W * SECTOR
    ensures LastIsThere(b, d, e) && Carries(Load(b, d), file)
  {
    NearDelivers(d);
    PartialLast(d.At, d.Near(), Place(b, RootDirectory(b) + RootSectors(b), e), file);
    LoadsTheFile(b, d, k, off, e, file);
  }

  lemma PartialLast(read: Reader, blocks: seq<Block>, first: nat, file: seq<byte>)
    requires Delivers(read, blocks) && Contiguous(blocks, first, file)
    requires |file| % SECTOR != 0 && |file| < W * SECTOR
    ensures LastRead(read, first, |file|)
  {
    assert first + |file| / SECTOR < |blocks|;
    assert AddLong(first, |file| / SECTOR) == first + |file| / SECTOR;
  }

  // ----- A file the loader cannot load -----

  lemma BehindTheEnd(d: Disk, lba: nat)
    requires d.Ok() && lba >= |d.blocks| && Divides(d.g, lba) && Cylinder(d.g, lba) < 1024
    ensures d.At(lba) == None
  {
    RoundTripExactly(d.g, lba);
  }

  /** A file of whole sectors at the end of a disk that could have been larger. */
  lemma EndOfDiskHalts(b: Bpb, d: Disk, k: nat, off: nat, e: DirEntry, file: seq<byte>)
    requires VolumeOk(b, d) && BootFile(b, d, k, off, e, file) && |file| % SECTOR == 0
    requires Place(b, RootDirectory(b) + RootSectors(b), e) + |file| / SECTOR == |d.blocks| < DW
    requires Divides(d.g, |d.blocks|) && Cylinder(d.g, |d.blocks|) < 1024
    ensures Load(b, d) == Halted
  {
    BehindTheEnd(d, |d.blocks|);
    EndNotRead(d.At, Place(b, RootDirectory(b) + RootSectors(b), e), |file|, |d.blocks|);
    LoadsTheFile(b, d, k, off, e, file);
  }

  lemma EndNotRead(read: Reader, first: nat, size: nat, end: nat)
    requires first + size / SECTOR == end < DW && read(end) == None
    ensures !LastRead(read, first, size)
  {
    assert AddLong(first, size / SECTOR) == end;
  }

  /** One reserved sector, one FAT, one root sector, clusters of one sector. */
  const TINY: Bpb := Bpb(512, 1, 1, 1, 16, 1, 0, 0, 32)

  const ZEROS: Block := seq(SECTOR, _ => 0)

  /** An entry for a file of one sector, in cluster 2. */
  const ROOT: Block := seq(SECTOR, i requires 0 <= i < SECTOR =>
    if i < 11 then NAME[i] else if i == 0x1a || i == 0x1d then 2 else 0)

  const TINY_DISK: Disk := Disk(Geometry(63, 16), [ZEROS, ZEROS, ROOT, ZEROS])

  lemma TinyDisk()
    ensures VolumeOk(TINY, TINY_DISK) && RootDirectory(TINY) == 2 && RootSectors(TINY) == 1
    ensures TINY_DISK.Near() == TINY_DISK.blocks && EntryAt(ROOT, 32, 0) == DirEntry(2, 512)
  {
  }

  lemma TinyEntry()
    ensures FirstName(ROOT, 32, 0)
  {
    NameSpells();
  }

  lemma TinyFile()
    ensures BootFile(TINY, TINY_DISK, 0, 0, DirEntry(2, 512), ZEROS)
  {
    TinyDisk();
    TinyEntry();
    assert FirstEntry(TINY_DISK.blocks, 32, 2, 1, 0, 0);
    assert Place(TINY, 3, DirEntry(2, 512)) == 3;
    assert Contiguous(TINY_DISK.blocks, 3, ZEROS);
  }

  /** Its file is whole and on the disk, in the last sector; the loader wants the one behind, too. */
  lemma LastSectorCanHalt()
    ensures VolumeOk(TINY, TINY_DISK) && BootFile(TINY, TINY_DISK, 0, 0, DirEntry(2, 512), ZEROS)
    ensures Load(TINY, TINY_DISK) == Halted
  {
    TinyDisk();
    TinyFile();
    TinyEnd();
    EndOfDiskHalts(TINY, TINY_DISK, 0, 0, DirEntry(2, 512), ZEROS);
  }

  lemma TinyEnd()
    ensures var g := TINY_DISK.g; Divides(g, 4) && Cylinder(g, 4) < 1024
    ensures Place(TINY, RootDirectory(TINY) + RootSectors(TINY), DirEntry(2, 512)) == 3
  {
    TinyDisk();
  }

  /** Then memory holds the file at ROM_TEXT_ADRS; below it, and from a sector after the file's end
      on, memory is as it was. */
  lemma MemoryHoldsTheFile(b: Bpb, d: Disk, k: nat, off: nat, e: DirEntry, file: seq<byte>, ram: seq<byte>)
    requires VolumeOk(b, d) && BootFile(b, d, k, off, e, file) && LastIsThere(b, d, e)
    requires |ram| >= ROM_TEXT_ADRS + W * SECTOR
    ensures Load(b, d).Loaded? && ROM_TEXT_ADRS + |Load(b, d).image| <= |ram|
    ensures Holds(With(ram, Load(b, d).image), ram, file)
  {
    LoadsTheFile(b, d, k, off, e, file);
    CarriedToMemory(Load(b, d), file, ram);
  }

  /** The loader itself, on such a volume. */
  method BootTheFile(l: Loader, ghost k: nat, ghost off: nat, ghost e: DirEntry, ghost file: seq<byte>)
    returns (r: Exit)
    requires l.Valid() && VolumeOk(l.b, l.d) && BootFile(l.b, l.d, k, off, e, file)
    modifies l, l.dirBuffer, l.dataBuffer, l.mem
    ensures r == if LastIsThere(l.b, l.d, e) then Entered else Halt
    ensures r == Entered ==> l.vxsysSize == |file| && Holds(l.mem[..], old(l.mem[..]), file)
  {
    LoadsTheFile(l.b, l.d, k, off, e, file);
    if LastIsThere(l.b, l.d, e) {
      MemoryHoldsTheFile(l.b, l.d, k, off, e, file, l.mem[..]);
    }
    r := l.Boot();
  }

  predicate Holds(now: seq<byte>, before: seq<byte>, file: seq<byte>) {
    && |now| == |before|
    && forall i :: 0 <= i < |before| ==>
        if ROM_TEXT_ADRS <= i < ROM_TEXT_ADRS + |file| then now[i] == file[i - ROM_TEXT_ADRS]
        else i < ROM_TEXT_ADRS || i >= ROM_TEXT_ADRS + |file| + SECTOR ==> now[i] == before[i]
  }

  lemma CarriedToMemory(o: Outcome, file: seq<byte>, ram: seq<byte>)
    requires Carries(o, file) && |file| < W * SECTOR && |ram| >= ROM_TEXT_ADRS + W * SECTOR
    requires |o.image| % SECTOR == 0
    ensures ROM_TEXT_ADRS + |o.image| <= |ram| && Holds(With(ram, o.image), ram, file)
  {
    assert forall i :: 0 <= i < |file| ==> o.image[i] == file[i];
  }

  /** "Not found" is reported exactly when no root entry has the name. */
  lemma NotFoundExactly(b: Bpb, d: Disk)
    requires VolumeOk(b, d)
    ensures Load(b, d) == NotFound <==>
      forall j :: RootDirectory(b) <= j < RootDirectory(b) + RootSectors(b) ==> NoName(d.Near()[j], b.direntSize)
  {
    NearDelivers(d);
    RootStartExactly(b);
    NotFoundFrom(b, d.At, d.Near(), RootDirectory(b), RootSectors(b));
  }

  lemma NotFoundFrom(b: Bpb, read: Reader, blocks: seq<Block>, start: nat, n: nat)
    requires b.Ok() && Delivers(read, blocks) && start + n <= |blocks| && n <= W
    ensures LoadFrom(b, read, start, n) == NotFound <==>
      forall j :: start <= j < start + n ==> NoName(blocks[j], b.direntSize)
  {
    forall j | start <= j < start + n
      ensures NoName(blocks[j], b.direntSize) <==> Entry(b.direntSize)(blocks[j]) == None
    {
      NoNameScans(blocks[j], b.direntSize);
    }
    ScanMissesExactly(read, blocks, Entry(b.direntSize), start, n);
  }
}
