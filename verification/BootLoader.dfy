/** The stage 1 loader in place: memory words, two sector buffers and RAM. */
module BootLoader {
  import opened Values
  import opened BootGeometry
  import opened BootLayout

  /** Where the image goes. */
  const ROM_TEXT_ADRS: nat := 0x0040_8000

  /** Longs of four bytes in one sector. */
  const LONGS: nat := 128

  datatype Exit = Entered | NoFile | Halt

  lemma MulHalves(x: byte, y: word)
    ensures 0 <= x * y < DW
  {
    ProductGrows(y, x, 255);
  }

  /** Adding the reserved and hidden sectors to the product in DX:AX, carry by carry. */
  lemma CarryChain(p: nat, res: word, hid: word, hid2: word)
    requires p < DW
    ensures var s1 := res as nat + hid;
      var s2 := s1 % W + p % W;
      var dx := ((p / W + hid2 + s1 / W) % W + s2 / W) % W;
      dx * W + s2 % W == (p + res + hid + W * hid2) % DW
  {
    var s1 := res as nat + hid;
    var s2 := s1 % W + p % W;
    var high := p / W + hid2 + s1 / W + s2 / W;
    CarryOut(p / W + hid2 + s1 / W, s2 / W);
    assert high * W + s2 % W == p + res + hid + W * hid2;
    HighWord(high, s2 % W);
  }

  lemma CarryOut(x: nat, carry: nat)
    ensures (x % W + carry) % W == (x + carry) % W
  {
  }

  lemma HighWord(high: nat, low: word)
    ensures (high * W + low) % DW == high % W * W + low
  {
  }

  lemma CountInRegisters(bytes: nat)
    requires bytes <= 64 * (W - 1)
    ensures (bytes / W * W + ((SECTOR + bytes % W) % W + W - 1) % W) / SECTOR == CountedSectors(bytes)
  {
    AddThenDec(bytes % W);
  }

  lemma AddThenDec(ax: word)
    ensures ((SECTOR + ax) % W + W - 1) % W == (ax + SECTOR + W - 1) % W
  {
  }

  /** DEC of a counter word, which may have started at zero for 65536. */
  function Dec(x: word): word { if x == 0 then W - 1 else x - 1 }

  lemma RoundsCounted(count: word)
    ensures 1 <= Rounds(count) <= W && Counter(Rounds(count)) == count
  {
  }

  lemma DecCounts(left: nat)
    requires 1 <= left <= W
    ensures Dec(Counter(left)) == Counter(left - 1)
    ensures Counter(left - 1) == 0 <==> left == 1
  {
  }

  /** data_start at `pos` has moved on from `start` by k sectors: adding to it is adding as much to
      start + k. */
  ghost predicate MovedOn(start: nat, pos: nat, k: nat) {
    forall c: nat :: AddLong(pos, c) == AddLong(start, k + c)
  }

  lemma NotMoved(start: nat)
    ensures MovedOn(start, start, 0)
  {
  }

  lemma MovesOn(start: nat, pos: nat, k: nat)
    requires MovedOn(start, pos, k)
    ensures MovedOn(start, AddLong(pos, 1), k + 1)
  {
    forall c: nat ensures AddLong(AddLong(pos, 1), c) == AddLong(start, k + 1 + c) {
      AddLongTwice(pos, 1, c);
      assert AddLong(pos, 1 + c) == AddLong(start, k + (1 + c));
    }
  }

  /** Adding the rest of the count gives the data area. */
  lemma SkipsRest(start: nat, pos: nat, n: nat, k: nat)
    requires k < n <= W && MovedOn(start, pos, k)
    ensures AddLong(pos, Counter(n - k)) == DataArea(start, n, k)
  {
  }

  /** What is still to come of a scan after k sectors: `left` sectors from `pos` on. */
  ghost predicate ToCome(scan: Scan, read: Reader, find: Finder, pos: nat, left: nat, k: nat) {
    scan == Later(ScanRoot(read, find, pos, left), k)
  }

  lemma AllToCome(read: Reader, find: Finder, start: nat, n: nat)
    ensures ToCome(ScanRoot(read, find, start, n), read, find, start, n, 0)
  {
  }

  lemma NothingToCome(scan: Scan, read: Reader, find: Finder, pos: nat, left: nat, k: nat)
    requires ToCome(scan, read, find, pos, left, k) && left == 0
    ensures scan == Missing
  {
  }

  lemma OneMoreSector(scan: Scan, read: Reader, find: Finder, pos: nat, left: nat, k: nat)
    requires ToCome(scan, read, find, pos, left, k) && left >= 1
    ensures match read(pos)
      case None => scan == Unreadable
      case Some(s) =>
        match find(s)
        case Some(off) => scan == Found(k, off, s)
        case None => ToCome(scan, read, find, AddLong(pos, 1), left - 1, k + 1)
  {
    ScanRound(read, find, pos, left, k);
  }

  class Loader {
    const b: Bpb
    const d: Disk
    const dirBuffer: array<byte>
    const dataBuffer: array<byte>
    const mem: array<byte>

    var dataStartL: word
    var dataStartH: word
    var num4sec: word
    var vxsysBufferPtr: nat
    var vxsysSize: nat

    constructor (b: Bpb, d: Disk, mem: array<byte>)
      ensures this.b == b && this.d == d && this.mem == mem
      ensures fresh(dirBuffer) && fresh(dataBuffer) && dirBuffer != dataBuffer
      ensures dirBuffer.Length == SECTOR && dataBuffer.Length == SECTOR
    {
      this.b, this.d, this.mem := b, d, mem;
      dirBuffer := new byte[SECTOR](_ => 0);
      dataBuffer := new byte[SECTOR](_ => 0);
      dataStartL, dataStartH, num4sec, vxsysBufferPtr, vxsysSize := 0, 0, 0, ROM_TEXT_ADRS, 0;
    }

    ghost predicate Valid()
      reads this
    {
      && b.Ok() && d.Ok()
      && dirBuffer.Length == SECTOR && dataBuffer.Length == SECTOR
      && dirBuffer != dataBuffer && dirBuffer != mem && dataBuffer != mem
      && mem.Length >= ROM_TEXT_ADRS + W * SECTOR
    }

    function DataStart(): nat
      reads this
    {
      dataStartH * W + dataStartL
    }

    /** ADD to data_startl, ADC 0 to data_starth. */
    method AddToStart(x: word)
      modifies this`dataStartL, this`dataStartH
      ensures DataStart() == AddLong(old(DataStart()), x)
    {
      var sum := dataStartL + x;
      var carry := sum / W;
      dataStartL := sum % W;
      dataStartH := (dataStartH + carry) % W;
    }

    /** boot_read_disk into a buffer; the carry flag reports failure. */
    method ReadDisk(dxax: nat, buffer: array<byte>) returns (cf: bool)
      requires d.Ok() && buffer.Length == SECTOR
      modifies buffer
      ensures cf <==> d.At(dxax) == None
      ensures !cf ==> buffer[..] == d.At(dxax).value
      ensures cf ==> buffer[..] == old(buffer[..])
    {
      var fault, c := PackRegisters(d.g, dxax);
      if fault {
        return true;
      }
      var s := Unpack(d.g, c);
      if s < 0 || s >= |d.blocks| {
        return true;
      }
      forall i | 0 <= i < SECTOR {
        buffer[i] := d.blocks[s][i];
      }
      assert buffer[..] == d.blocks[s];
      return false;
    }

    /** The additions to the product in DX:AX, in sixteen-bit registers. */
    method AddReserved(product: nat)
      requires product < DW
      modifies this`dataStartL, this`dataStartH
      ensures DataStart() == (product + b.numResSec + b.numHidSec + W * b.numHidSec2) % DW
    {
      CarryChain(product, b.numResSec, b.numHidSec, b.numHidSec2);
      var ax, dx := product % W, product / W;
      var sum := b.numResSec as nat + b.numHidSec;
      var cx := sum % W;
      dx := (dx + b.numHidSec2 + sum / W) % W;
      sum := cx + ax;
      cx := sum % W;
      dx := (dx + sum / W) % W;
      dataStartL := cx;
      dataStartH := dx;
    }

    /** The start of the root directory. */
    method FindRoot()
      modifies this`dataStartL, this`dataStartH
      ensures DataStart() == RootStart(b)
    {
      MulHalves(b.numFats, b.secPerFat);
      AddReserved(b.numFats * b.secPerFat);
    }

    /** The number of root directory sectors; the ADD to AX loses its carry. */
    method CountRoot() returns (cx: word)
      requires b.Ok()
      ensures cx == RootCount(b)
    {
      RootBytesFit(b);
      var product := RootBytes(b);
      CountInRegisters(product);
      var ax, dx := product % W, product / W;
      ax := (b.bytPerSec + ax) % W;
      ax := (ax + W - 1) % W;
      cx := (dx * W + ax) / b.bytPerSec;
    }

    /** Compares the entries of the directory buffer one after the other. */
    method FindInBuffer() returns (found: bool, di: nat)
      requires b.Ok() && dirBuffer.Length == SECTOR
      ensures found <==> ScanSector(dirBuffer[..], b.direntSize, 0).Some?
      ensures found ==> ScanSector(dirBuffer[..], b.direntSize, 0) == Some(di)
    {
      di := 0;
      var dx: nat := b.bytPerSec;
      ghost var s: Block, size := dirBuffer[..], b.direntSize;
      ghost var r := ScanSector(s, size, 0);
      while true
        invariant di < SECTOR && Aligned(di, size) && dx == SECTOR - di
        invariant r == ScanSector(s, size, di)
        decreases dx
      {
        assert dirBuffer[di..di + 11] == s[di..di + 11];
        ScanStep(s, size, di);
        if dirBuffer[di..di + 11] == NAME {
          return true, di;
        }
        di := di + b.direntSize;
        dx := dx - b.direntSize;
        if dx == 0 {
          return false, di;
        }
      }
    }

    /** One root sector: read it at data_start and look for the name. */
    method ScanOne() returns (cf: bool, found: bool, di: nat)
      requires Valid()
      modifies dirBuffer
      ensures match d.At(DataStart())
        case None => cf
        case Some(s) =>
          && !cf && dirBuffer[..] == s
          && Entry(b.direntSize)(s) == if found then Some(di) else None
    {
      found, di := false, 0;
      cf := ReadDisk(dataStartH * W + dataStartL, dirBuffer);
      if !cf {
        found, di := FindInBuffer();
      }
    }

    /** The next root sector of a scan. */
    method ScanNext(ghost scan: Scan, ghost read: Reader, ghost find: Finder, ghost left: nat, ghost k: nat)
      returns (cf: bool, found: bool, di: nat)
      requires Valid() && left >= 1 && read == d.At && find == Entry(b.direntSize)
      requires ToCome(scan, read, find, DataStart(), left, k)
      modifies dirBuffer
      ensures cf ==> scan == Unreadable
      ensures !cf && found ==> scan == Found(k, di, dirBuffer[..])
      ensures !cf && !found ==>
        ToCome(scan, read, find, AddLong(DataStart(), 1), left - 1, k + 1)
    {
      OneMoreSector(scan, read, find, DataStart(), left, k);
      cf, found, di := ScanOne();
    }

    /** The count left in CX is added to data_start. */
    method ToDataArea(cx: word, ghost start: nat, ghost n: nat, ghost k: nat)
      requires k < n <= W && cx == Counter(n - k) && MovedOn(start, DataStart(), k)
      modifies this`dataStartL, this`dataStartH
      ensures DataStart() == DataArea(start, n, k)
    {
      SkipsRest(start, DataStart(), n, k);
      AddToStart(cx);
    }

    method Bump(ghost start: nat, ghost k: nat)
      requires MovedOn(start, DataStart(), k)
      modifies this`dataStartL, this`dataStartH
      ensures DataStart() == AddLong(old(DataStart()), 1) && MovedOn(start, DataStart(), k + 1)
    {
      MovesOn(start, DataStart(), k);
      AddToStart(1);
    }

    /** The root directory scan; LOOP runs 65536 rounds for a count of zero.  data_start plus the
        sectors left never changes; CX is the count that is left. */
    method FindFile(count: word, ghost start: nat, ghost scan: Scan, ghost read: Reader, ghost find: Finder)
      returns (r: Exit, di: nat, cx: word)
      requires Valid() && DataStart() == start && read == d.At && find == Entry(b.direntSize)
      requires ToCome(scan, read, find, start, Rounds(count), 0)
      modifies this`dataStartL, this`dataStartH, dirBuffer
      ensures match scan
        case Missing => r == NoFile
        case Unreadable => r == Halt
        case Found(k, off, dir) =>
          && r == Entered && di == off && dirBuffer[..] == dir
          && k < Rounds(count) && cx == Counter(Rounds(count) - k) && MovedOn(start, DataStart(), k)
    {
      cx := count;
      ghost var k, left := 0, Rounds(count);
      NotMoved(start);
      RoundsCounted(count);
      while true
        invariant 1 <= left <= W && left == Rounds(count) - k && cx == Counter(left)
        invariant MovedOn(start, DataStart(), k)
        invariant ToCome(scan, read, find, DataStart(), left, k)
        decreases left
      {
        var cf, found;
        cf, found, di := ScanNext(scan, read, find, left, k);
        if cf {
          return Halt, 0, cx;
        }
        if found {
          return Entered, di, cx;
        }
        Bump(start, k);
        DecCounts(left);
        cx := Dec(cx);
        left, k := left - 1, k + 1;
        if cx == 0 {
          NothingToCome(scan, read, find, DataStart(), left, k);
          return NoFile, 0, cx;
        }
      }
    }

    /** boot_copy_buffer: LONGS longs from the data buffer to `edi`. */
    method CopyBuffer(edi0: nat) returns (edi: nat)
      requires dataBuffer.Length == SECTOR && dataBuffer != mem && edi0 + SECTOR <= mem.Length
      modifies mem
      ensures edi == edi0 + SECTOR
      ensures mem[..] == old(mem[..edi0]) + dataBuffer[..] + old(mem[edi0 + SECTOR..])
    {
      var esi, ecx := 0, LONGS;
      edi := edi0;
      while ecx != 0
        invariant 0 <= ecx <= LONGS && esi == 4 * (LONGS - ecx) && edi == edi0 + esi
        invariant forall i :: 0 <= i < mem.Length ==>
          mem[i] == if edi0 <= i < edi then dataBuffer[i - edi0] else old(mem[i])
      {
        mem[edi], mem[edi + 1], mem[edi + 2], mem[edi + 3] :=
          dataBuffer[esi], dataBuffer[esi + 1], dataBuffer[esi + 2], dataBuffer[esi + 3];
        esi := esi + 4;
        edi := edi + 4;
        ecx := ecx - 1;
      }
    }

    /** One round of the sector loop: read, copy, advance the destination. */
    method LoadOne(dxax: nat) returns (cf: bool)
      requires Valid() && vxsysBufferPtr + SECTOR <= mem.Length
      modifies this`vxsysBufferPtr, dataBuffer, mem
      ensures match d.At(dxax)
        case None => cf && vxsysBufferPtr == old(vxsysBufferPtr) && mem[..] == old(mem[..])
        case Some(s) =>
          && !cf && vxsysBufferPtr == old(vxsysBufferPtr) + SECTOR
          && mem[..] == old(mem[..vxsysBufferPtr]) + s + old(mem[vxsysBufferPtr + SECTOR..])
    {
      cf := ReadDisk(dxax, dataBuffer);
      if !cf {
        vxsysBufferPtr := CopyBuffer(vxsysBufferPtr);
      }
    }

    /** The sector loop: `total` sectors from `first`, counted down in a word that may start at
        zero for 65536. */
    method LoadSectors(first: nat, ghost total: nat) returns (r: Exit)
      requires Valid() && first < DW && 1 <= total <= W && num4sec == Counter(total)
      modifies this`num4sec, this`vxsysBufferPtr, dataBuffer, mem
      ensures match Image(d.At, first, total)
        case None => r == Halt
        case Some(image) =>
          r == Entered && mem[..] == With(old(mem[..]), image)
    {
      var dxax := first;
      vxsysBufferPtr := ROM_TEXT_ADRS;
      ghost var left, done := total, [];
      ghost var m, read: Reader := mem[..], d.At;
      ghost var image := Image(read, first, total);
      WithNothing(m);
      LacksAll(read, first, total);
      while true
        invariant 1 <= left <= total && num4sec == Counter(left)
        invariant |done| == (total - left) * SECTOR && vxsysBufferPtr == ROM_TEXT_ADRS + |done|
        invariant Lacks(image, done, read, dxax, left)
        invariant mem[..] == With(m, done)
        decreases left
      {
        ImageRound(image, done, read, dxax, left);
        var cf := LoadOne(dxax);
        if cf {
          return Halt;
        }
        AppendSector(m, done, d.At(dxax).value);
        DecCounts(left);
        num4sec := Dec(num4sec);
        left, done := left - 1, done + d.At(dxax).value;
        if num4sec == 0 {
          LacksNothing(image, done, read, AddLong(dxax, 1));
          return Entered;
        }
        dxax := AddLong(dxax, 1);
      }
    }

    /** bootSecondary from the layout to the jump into the image. */
    method Boot() returns (r: Exit)
      requires Valid()
      modifies this, dirBuffer, dataBuffer, mem
      ensures Ends(Load(b, d), r, old(mem[..]))
    {
      FindRoot();
      var cx := CountRoot();
      r := FindAndLoad(cx, RootStart(b));
    }

    /** How a run ends, for each outcome: RAM is written only by a loaded image. */
    ghost predicate Ends(o: Outcome, r: Exit, ram: seq<byte>)
      reads this, mem
    {
      match o
      case NotFound => r == NoFile && mem[..] == ram
      case Halted => r == Halt
      case Loaded(image, size) =>
        && r == Entered && vxsysSize == size && ROM_TEXT_ADRS + |image| <= |ram|
        && mem[..] == With(ram, image)
    }

    method FindAndLoad(cx: word, ghost start: nat) returns (r: Exit)
      requires Valid() && DataStart() == start
      modifies this, dirBuffer, dataBuffer, mem
      ensures Ends(LoadFrom(b, d.At, start, Rounds(cx)), r, old(mem[..]))
    {
      var di, left;
      ghost var read, find, n := d.At, Entry(b.direntSize), Rounds(cx);
      ghost var scan := ScanRoot(read, find, start, n);
      AllToCome(read, find, start, n);
      r, di, left := FindFile(cx, start, scan, read, find);
      FoundHasTheName(read, b.direntSize, start, n);
      if r == Entered {
        ToDataArea(left, start, n, scan.k);
        r := LoadFile(di);
      }
    }

    /** From the entry found to the image in memory. */
    method LoadFile(di: nat) returns (r: Exit)
      requires Valid() && EntryOffset(di, b.direntSize)
      modifies this`vxsysSize, this`num4sec, this`vxsysBufferPtr, dataBuffer, mem
      ensures DataStart() == old(DataStart()) && dirBuffer[..] == old(dirBuffer[..])
      ensures Ends(LoadEntry(b, d.At, DataStart(), EntryAt(dirBuffer[..], b.direntSize, di)), r, old(mem[..]))
    {
      var ok, first := ReadEntry(di);
      if !ok {
        return Halt;
      }
      r := LoadSectors(first, vxsysSize / SECTOR + 1);
    }

    /** The entry at `di`: file size, number of sectors and first sector.  DIV faults when the
        quotient does not fit AX. */
    method ReadEntry(di: nat) returns (ok: bool, first: nat)
      requires Valid() && EntryOffset(di, b.direntSize)
      modifies this`vxsysSize, this`num4sec
      ensures vxsysSize == EntryAt(dirBuffer[..], b.direntSize, di).size
      ensures ok <==> vxsysSize / SECTOR < W
      ensures ok ==> num4sec == Counter(vxsysSize / SECTOR + 1)
      ensures ok ==> first == FirstSector(b, DataStart(), EntryAt(dirBuffer[..], b.direntSize, di).cluster)
    {
      first := 0;
      var bx := 0x1c;
      if b.direntSize == 0x40 {
        bx := bx + 0x20;
      }
      bx := bx + di;
      vxsysSize := WordAt(dirBuffer[..], bx) + W * WordAt(dirBuffer[..], bx + 2);
      bx := bx + 2;
      var ax := vxsysSize / b.bytPerSec;
      if ax >= W {
        return false, 0;
      }
      num4sec := (ax + 1) % W;
      bx := bx - 4;
      first := SectorOf(WordAt(dirBuffer[..], bx));
      return true, first;
    }

    /** From the start cluster to its first sector, in DX:AX. */
    method SectorOf(cluster: word) returns (first: nat)
      ensures first == FirstSector(b, DataStart(), cluster)
    {
      var ax := (cluster + W - 2) % W;
      MulHalves(b.secPerClu, ax);
      first := (ax * b.secPerClu + DataStart()) % DW;
    }
  }

  /** Memory after an image was written at ROM_TEXT_ADRS. */
  function With(ram: seq<byte>, image: seq<byte>): seq<byte>
    requires ROM_TEXT_ADRS + |image| <= |ram|
  {
    ram[..ROM_TEXT_ADRS] + image + ram[ROM_TEXT_ADRS + |image|..]
  }

  lemma WithNothing(ram: seq<byte>)
    requires ROM_TEXT_ADRS <= |ram|
    ensures With(ram, []) == ram
  {
  }

  /** Writing one more block at the end of what was written so far. */
  lemma AppendSector(ram: seq<byte>, head: seq<byte>, block: seq<byte>)
    requires ROM_TEXT_ADRS + |head| + |block| <= |ram|
    ensures var p := ROM_TEXT_ADRS + |head|;
      With(ram, head)[..p] + block + With(ram, head)[p + |block|..] == With(ram, head + block)
  {
    var p, now := ROM_TEXT_ADRS + |head|, With(ram, head);
    assert now[..p] == ram[..ROM_TEXT_ADRS] + head;
    assert now[p + |block|..] == ram[p + |block|..];
  }
}
