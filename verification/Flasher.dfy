/**
 Two passes over the data bytes of an S-record file: the first pages them through a buffer of
 256 bytes into a size and a CRC, the second pages them in the same way into memory. Gaps
 between the bytes read as FF.
 */
module Flasher {
  import opened Crc32

  const BASE: nat := 0x10_2000
  const PAGE_SIZE: nat := 256
  const WORD: nat := 0x1_0000_0000
  const LAST_ADDRESS: nat := 0xffff_ffff

  datatype Cell = Cell(addr: nat, value: bv8)

  /** Records, already taken apart into their fields. */
  datatype Record = Data(base: nat, bytes: seq<bv8>)

  // ---- the dense image -------------------------------------------------------------------------

  function Fill(n: nat): (s: seq<bv8>)
    ensures |s| == n && forall i | 0 <= i < n :: s[i] == 0xff
  {
    seq(n, _ => 0xff)
  }

  /** The image with one more byte, the gap before it filled. */
  function Extended(image: seq<bv8>, c: Cell): seq<bv8>
    requires c.addr >= BASE + |image|
  {
    image + Fill(c.addr - BASE - |image|) + [c.value]
  }

  /** Addresses start at the base or above and go up. */
  ghost predicate Ascending(cells: seq<Cell>) {
    && (forall i | 0 <= i < |cells| :: BASE <= cells[i].addr < LAST_ADDRESS)
    && (forall i, j | 0 <= i < j < |cells| :: cells[i].addr < cells[j].addr)
  }

  function End(cells: seq<Cell>): nat {
    if cells == [] then BASE else cells[|cells| - 1].addr + 1
  }

  /** The dense image of ascending bytes. */
  function Dense(cells: seq<Cell>): (s: seq<bv8>)
    requires Ascending(cells)
    ensures BASE + |s| == End(cells)
  {
    if cells == [] then [] else
    var before := cells[..|cells| - 1];
    EndBelow(cells);
    Extended(Dense(before), cells[|cells| - 1])
  }

  lemma EndBelow(cells: seq<Cell>)
    requires Ascending(cells) && cells != []
    ensures Ascending(cells[..|cells| - 1])
    ensures End(cells[..|cells| - 1]) <= cells[|cells| - 1].addr
  {
  }

  /** A file of one byte is in order from the base up to the last address but one. */
  lemma OneByteAscends(c: Cell)
    ensures Ascending([c]) <==> 0x10_2000 <= c.addr < 0xffff_ffff
  {
    assert [c][0] == c;
  }

  /** Each byte is found at its address, */
  lemma {:induction false} DenseHolds(cells: seq<Cell>, i: nat)
    requires Ascending(cells) && i < |cells|
    ensures 0 <= cells[i].addr - 0x10_2000 < |Dense(cells)| && Dense(cells)[cells[i].addr - 0x10_2000] == cells[i].value
  {
    var n := |cells|;
    EndBelow(cells);
    if i < n - 1 {
      DenseHolds(cells[..n - 1], i);
    }
  }

  /** and every other address below the end holds FF. */
  lemma {:induction false} DenseGaps(cells: seq<Cell>, a: nat)
    requires Ascending(cells) && 0x10_2000 <= a < 0x10_2000 + |Dense(cells)|
    requires forall i | 0 <= i < |cells| :: cells[i].addr != a
    ensures Dense(cells)[a - 0x10_2000] == 0xff
  {
    var n := |cells|;
    EndBelow(cells);
    if a < End(cells[..n - 1]) {
      DenseGaps(cells[..n - 1], a);
    }
  }

  /** A number in 32 bits. */
  function Wrapped(n: nat): (r: nat)
    ensures r < WORD && (n < WORD ==> r == n)
  {
    n % WORD
  }

  /** The bytes of a record with their addresses, in 32-bit arithmetic. */
  function Cells(r: Record): (cs: seq<Cell>)
    ensures |cs| == |r.bytes|
  {
    seq(|r.bytes|, i requires 0 <= i < |r.bytes| => Cell((r.base + i) % WORD, r.bytes[i]))
  }

  lemma CellIs(r: Record, i: nat)
    requires i < |r.bytes|
    ensures Cells(r)[i] == Cell((r.base + i) % 0x1_0000_0000, r.bytes[i])
  {
  }

  /** The filling loop ends after n rounds: its 32-bit counter has passed the address. */
  predicate Passed(cur: nat, n: nat, addr: nat) {
    (cur + n) % WORD > addr
  }

  /** It ever ends exactly for addresses below the last one. */
  lemma LoopEnds(cur: nat, addr: nat)
    requires cur <= addr < WORD
    ensures (exists n: nat :: Passed(cur, n, addr)) <==> addr < 0xffff_ffff
  {
    if addr < LAST_ADDRESS {
      assert Passed(cur, addr + 1 - cur, addr);
    }
  }

  /** An input that makes it loop: a byte at 0xFFFFFFFF, from wherever the counter stands. */
  lemma LastAddressLoops(cur: nat)
    requires cur < WORD
    ensures forall n: nat :: !Passed(cur, n, 0xffff_ffff)
  {
    LoopEnds(cur, LAST_ADDRESS);
  }

  /**
   No byte at the very last address, which the address counter cannot pass, is reached: the first
   such byte comes after one that is refused.
   */
  ghost predicate Passable(rs: seq<Record>) {
    forall i | 0 <= i < |AllCells(rs)| :: AllCells(rs)[i].addr == LAST_ADDRESS ==> !Ascending(AllCells(rs)[..i])
  }

  function AllCells(rs: seq<Record>): seq<Cell> {
    if rs == [] then [] else AllCells(rs[..|rs| - 1]) + Cells(rs[|rs| - 1])
  }

  /** The part of an image that went out in whole pages. */
  function WholePages(image: seq<bv8>): (s: seq<bv8>)
    ensures |s| == |image| - |image| % PAGE_SIZE && s <= image
  {
    image[..|image| - |image| % PAGE_SIZE]
  }

  /** The part of an image behind its whole pages. */
  function LastPart(image: seq<bv8>): (s: seq<bv8>)
    ensures |s| == |image| % PAGE_SIZE
  {
    image[|image| - |image| % PAGE_SIZE..]
  }

  lemma PartsOf(image: seq<bv8>)
    ensures image == WholePages(image) + LastPart(image)
  {
  }

  class Pager {
    var currentAddr: nat
    const line: array<bv8>
    // first pass
    var flashSize: nat
    const register: Register
    var flashAddress: nat
    var flashCrc: bv32
    // second pass
    var dram: seq<bv8>
    ghost var image: seq<bv8>
    // size and register before the first data byte
    ghost var startSize: nat
    ghost var startCrc: bv32

    /** The current address is the end of the image, whose last part of a page is in the buffer. */
    ghost predicate Paged()
      reads `currentAddr, `image, line
    {
      && line.Length == PAGE_SIZE
      && currentAddr == BASE + |image| && currentAddr < WORD
      && line[..|image| % PAGE_SIZE] == LastPart(image)
    }

    /** Size and CRC describe the whole pages, on top of what they were before. */
    ghost predicate Counted()
      reads `image, `flashSize, `startSize, `startCrc, register
    {
      flashSize == Wrapped(startSize + |WholePages(image)|) && register.crc == Feed(startCrc, WholePages(image))
    }

    /** Memory holds the whole pages. */
    ghost predicate Uploaded()
      reads `image, `dram
    {
      dram == WholePages(image)
    }

    constructor ()
      ensures line.Length == 256 && Paged() && image == [] && flashSize == 0 && register.crc == 0 && dram == []
      ensures fresh(line) && fresh(register)
    {
      line := new bv8[PAGE_SIZE];
      register := new Register();
      currentAddr, flashSize, flashAddress, flashCrc, dram, image := BASE, 0, 0, 0, [], [];
      startSize, startCrc := 0, 0;
    }

    /** The place of an address in its page; the base is the start of a page. */
    lemma InPage()
      requires Paged()
      ensures currentAddr % PAGE_SIZE == |image| % PAGE_SIZE < PAGE_SIZE
      ensures (currentAddr + 1) % PAGE_SIZE == (|image| + 1) % PAGE_SIZE
    {
    }

    /** Store one byte at the current address; the buffer may be full then. */
    method StoreByte(b: bv8)
      requires Paged() && currentAddr < LAST_ADDRESS
      modifies `currentAddr, `image, line
      ensures line.Length == PAGE_SIZE && currentAddr == BASE + |image| < WORD
      ensures image == old(image) + [b] && currentAddr == old(currentAddr) + 1
      ensures currentAddr % PAGE_SIZE == |image| % PAGE_SIZE
      ensures |image| % PAGE_SIZE != 0 ==> Paged() && WholePages(image) == WholePages(old(image))
      ensures |image| % PAGE_SIZE == 0 ==>
                |image| >= PAGE_SIZE && line[..] == image[|image| - PAGE_SIZE..]
                && WholePages(image) == WholePages(old(image)) + line[..]
                && Valid(currentAddr) == PAGE_SIZE
    {
      hide WholePages, LastPart;
      InPage();
      ghost var was := line[..];
      line[currentAddr % PAGE_SIZE] := b;
      assert line[..] == was[|image| % PAGE_SIZE := b];
      OneByteMore(was, image, b);
      currentAddr := currentAddr + 1;
      image := image + [b];
    }

    // ---- first pass ------------------------------------------------------------------------------

    /** DumpToConsole: count the valid bytes of the buffer and feed them to the CRC. */
    method Count()
      requires line.Length == PAGE_SIZE && currentAddr > 0
      modifies `flashSize, register
      ensures flashSize == Wrapped(old(flashSize) + Valid(currentAddr))
      ensures register.crc == Feed(old(register.crc), line[..Valid(currentAddr)])
    {
      var n := Valid(currentAddr);
      flashSize := Wrapped(flashSize + n);
      var r := register.FeedPiece(line[..n]);
    }

    /**
     The first part of VerifyHandler: a header byte goes to the buffer, also behind data, where it
     spoils a page that is not complete; after the last header byte the counts start over.
     */
    method VerifyHeader(offset: nat, length: nat, value: bv8)
      requires line.Length == PAGE_SIZE && offset < length <= 252
      modifies line, `flashSize, register
      ensures var stored := old(line[..])[offset := value];
              line[..] == if offset == length - 1 then stored[offset + 1 := 0] else stored
      ensures if offset == length - 1 then flashSize == 0 && register.crc == START
              else flashSize == old(flashSize) && register.crc == old(register.crc)
      ensures old(Paged()) && |image| % PAGE_SIZE == 0 ==> Paged()
    {
      hide LastPart;
      line[offset] := value;
      if offset == length - 1 {
        line[offset + 1] := 0;
        flashSize := 0;
        register.Reset();
      }
      if |image| % PAGE_SIZE == 0 {
        NothingLeft(line[..], image);
        assert line[..0] == line[..][..0];
      }
    }

    /**
     VerifyHandler for a data byte: refused when its address was passed, else the image grows to
     it. At the very last address the loop does not end (LoopEnds).
     */
    method VerifyData(base: nat, offset: nat, value: bv8) returns (ret: nat)
      requires Paged() && Counted() && (base + offset) % WORD != LAST_ADDRESS
      modifies `currentAddr, `image, `flashSize, line, register
      ensures Paged() && Counted()
      ensures ret == 0 <==> (base + offset) % WORD >= old(currentAddr)
      ensures ret == 0 ==> image == Extended(old(image), Cell((base + offset) % WORD, value))
      ensures ret != 0 ==> image == old(image)
    {
      hide Paged, Counted;
      var addr := (base + offset) % WORD;
      if addr < currentAddr {
        return 0xff;
      }
      ghost var was := image;
      Bounds();
      FillNone(image);
      while currentAddr <= addr
        invariant Paged() && Counted() && currentAddr <= addr + 1
        invariant currentAddr == BASE + |image| && |was| <= |image|
        invariant image == if currentAddr <= addr then was + Fill(|image| - |was|) else Extended(was, Cell(addr, value))
        decreases addr + 1 - currentAddr
      {
        var b := if addr == currentAddr then value else 0xff;
        MoreFill(was, image, b, Cell(addr, value));
        VerifyByte(b);
      }
      return 0;
    }

    lemma Bounds()
      requires Paged()
      ensures currentAddr == BASE + |image|
    {
    }

    /** One byte of the first pass; a full page is counted and the buffer cleared. */
    method VerifyByte(b: bv8)
      requires Paged() && Counted() && currentAddr < LAST_ADDRESS
      modifies `currentAddr, `image, `flashSize, line, register
      ensures Paged() && Counted()
      ensures image == old(image) + [b] && currentAddr == old(currentAddr) + 1 == BASE + |image|
    {
      hide WholePages, Valid, LastPart, Wrapped, Feed;
      StoreByte(b);
      if currentAddr % PAGE_SIZE == 0 {
        FeedConcat(startCrc, WholePages(old(image)), line[..]);
        assert line[..PAGE_SIZE] == line[..];
        PageCount(image);
        SizeMore(startSize, |WholePages(old(image))|, PAGE_SIZE);
        Count();
        Clear();
        NothingLeft(line[..], image);
      }
    }

    method Clear()
      requires line.Length == PAGE_SIZE
      modifies line
    {
      for i := 0 to PAGE_SIZE {
        line[i] := 0;
      }
    }

    /** VerifyHandler for the terminating record: the rest of the page is counted. */
    method VerifyEnd(base: nat) returns (ret: nat)
      requires Paged() && Counted()
      modifies `flashSize, `flashAddress, `flashCrc, line, register
      ensures ret == 0 && flashAddress == base
      ensures flashSize == Wrapped(startSize + |image|) && flashCrc == Xor(Feed(startCrc, image), 0xffff_ffff)
    {
      hide WholePages, LastPart, Feed, Wrapped, Valid;
      FeedNone(Feed(startCrc, image));
      InPage();
      PartsOf(image);
      FeedConcat(startCrc, WholePages(image), LastPart(image));
      PageCount(image);
      SizeMore(startSize, |WholePages(image)|, |LastPart(image)|);
      if currentAddr % PAGE_SIZE != 0 {
        ValidIs(currentAddr);
        Count();
        Clear();
      } else {
        assert image == WholePages(image);
      }
      flashAddress := base;
      flashCrc := register.FeedPiece([]);
      return 0;
    }

    // ---- second pass -----------------------------------------------------------------------------

    /** UploadToDRAM: the valid bytes of the buffer go behind what is in memory. */
    method Upload()
      requires line.Length == PAGE_SIZE && currentAddr > 0
      modifies `dram
      ensures dram == old(dram) + line[..Valid(currentAddr)]
    {
      dram := dram + line[..Valid(currentAddr)];
    }

    /** UploadHandler for a data byte. */
    method UploadData(base: nat, offset: nat, value: bv8) returns (ret: nat)
      requires Paged() && Uploaded() && (base + offset) % WORD != LAST_ADDRESS
      modifies `currentAddr, `image, `dram, line
      ensures Paged() && Uploaded()
      ensures ret == 0 <==> (base + offset) % WORD >= old(currentAddr)
      ensures ret == 0 ==> image == Extended(old(image), Cell((base + offset) % WORD, value))
      ensures ret != 0 ==> image == old(image)
    {
      hide Paged, Uploaded;
      var addr := (base + offset) % WORD;
      if addr < currentAddr {
        return 0xff;
      }
      ghost var was := image;
      Bounds();
      FillNone(image);
      while currentAddr <= addr
        invariant Paged() && Uploaded() && currentAddr <= addr + 1
        invariant currentAddr == BASE + |image| && |was| <= |image|
        invariant image == if currentAddr <= addr then was + Fill(|image| - |was|) else Extended(was, Cell(addr, value))
        decreases addr + 1 - currentAddr
      {
        var b := if addr == currentAddr then value else 0xff;
        MoreFill(was, image, b, Cell(addr, value));
        UploadByte(b);
      }
      return 0;
    }

    /** One byte of the second pass; a full page goes to memory and the buffer is cleared. */
    method UploadByte(b: bv8)
      requires Paged() && Uploaded() && currentAddr < LAST_ADDRESS
      modifies `currentAddr, `image, `dram, line
      ensures Paged() && Uploaded()
      ensures image == old(image) + [b] && currentAddr == old(currentAddr) + 1 == BASE + |image|
    {
      hide WholePages, Valid, LastPart;
      StoreByte(b);
      if currentAddr % PAGE_SIZE == 0 {
        assert line[..PAGE_SIZE] == line[..];
        Upload();
        Clear();
        NothingLeft(line[..], image);
      }
    }

    /** UploadHandler for the terminating record. */
    method UploadEnd() returns (ret: nat)
      requires Paged() && Uploaded()
      modifies `dram, line
      ensures ret == 0 && dram == image
    {
      hide WholePages, LastPart;
      InPage();
      PartsOf(image);
      if currentAddr % PAGE_SIZE != 0 {
        ValidIs(currentAddr);
        Upload();
        Clear();
      }
      return 0;
    }

    // ---- whole files -------------------------------------------------------------------------------

    /** The bytes handed to the first pass by ParseSRecords for a run of data records. */
    method VerifyAll(rs: seq<Record>) returns (ok: bool)
      requires Paged() && Counted() && image == []
      requires Passable(rs)
      modifies `currentAddr, `image, `flashSize, line, register
      ensures Paged() && Counted()
      ensures ok <==> Ascending(AllCells(rs))
      ensures ok ==> image == Dense(AllCells(rs))
    {
      hide Paged, Counted, Dense, Ascending, Extended, End, Cells, AllCells, Passable;
      NoCells();
      ghost var done: seq<Cell> := [];
      Bounds();
      for k := 0 to |rs|
        invariant Paged() && Counted() && done == AllCells(rs[..k])
        invariant Ascending(done) && image == Dense(done) && currentAddr == BASE + |image|
      {
        ghost var before := done;
        MoreRecords(rs, k);
        for i := 0 to |rs[k].bytes|
          invariant Paged() && Counted() && done == before + Cells(rs[k])[..i]
          invariant Ascending(done) && image == Dense(done) && currentAddr == BASE + |image|
        {
          ghost var c := Cells(rs[k])[i];
          PartOfAll(rs, k, i);
          CellIs(rs[k], i);
          OneMoreCell(done, c);
          var ret := VerifyData(rs[k].base, i, rs[k].bytes[i]);
          Bounds();
          if ret != 0 {
            assert done + [c] == before + Cells(rs[k])[..i + 1];
            NotAscending(rs, k, i);
            return false;
          }
          assert Cells(rs[k])[..i + 1] == Cells(rs[k])[..i] + [c];
          done := done + [c];
        }
        assert Cells(rs[k])[..|rs[k].bytes|] == Cells(rs[k]);
      }
      assert rs[..|rs|] == rs;
      return true;
    }

    /** The same for the second pass. */
    method UploadAll(rs: seq<Record>) returns (ok: bool)
      requires Paged() && Uploaded() && image == []
      requires Passable(rs)
      modifies `currentAddr, `image, `dram, line
      ensures Paged() && Uploaded()
      ensures ok <==> Ascending(AllCells(rs))
      ensures ok ==> image == Dense(AllCells(rs))
    {
      hide Paged, Uploaded, Dense, Ascending, Extended, End, Cells, AllCells, Passable;
      NoCells();
      ghost var done: seq<Cell> := [];
      Bounds();
      for k := 0 to |rs|
        invariant Paged() && Uploaded() && done == AllCells(rs[..k])
        invariant Ascending(done) && image == Dense(done) && currentAddr == BASE + |image|
      {
        ghost var before := done;
        MoreRecords(rs, k);
        for i := 0 to |rs[k].bytes|
          invariant Paged() && Uploaded() && done == before + Cells(rs[k])[..i]
          invariant Ascending(done) && image == Dense(done) && currentAddr == BASE + |image|
        {
          ghost var c := Cells(rs[k])[i];
          PartOfAll(rs, k, i);
          CellIs(rs[k], i);
          OneMoreCell(done, c);
          var ret := UploadData(rs[k].base, i, rs[k].bytes[i]);
          Bounds();
          if ret != 0 {
            assert done + [c] == before + Cells(rs[k])[..i + 1];
            NotAscending(rs, k, i);
            return false;
          }
          assert Cells(rs[k])[..i + 1] == Cells(rs[k])[..i] + [c];
          done := done + [c];
        }
        assert Cells(rs[k])[..|rs[k].bytes|] == Cells(rs[k]);
      }
      assert rs[..|rs|] == rs;
      return true;
    }

    /**
     A whole file through the first pass: a header or none, data records, a terminating record. It
     succeeds exactly for ascending addresses. With a header, size and CRC are those of the dense
     image; without one they go on from what they were.
     */
    method Verify(header: seq<bv8>, rs: seq<Record>, entry: nat) returns (ok: bool)
      requires line.Length == PAGE_SIZE && |header| <= 252 && flashSize < WORD
      requires Passable(rs)
      modifies this, line, register
      ensures ok <==> Ascending(AllCells(rs))
      ensures ok ==> var (size, crc) := if header == [] then old((flashSize, register.crc)) else (0, START);
                     && flashSize == Wrapped(size + |Dense(AllCells(rs))|)
                     && flashCrc == Xor(Feed(crc, Dense(AllCells(rs))), 0xffff_ffff)
                     && flashAddress == entry
      ensures ok ==> (flashSize == |Dense(AllCells(rs))| && flashCrc == Crc(Dense(AllCells(rs)))
                      <==> header != [] || (old(flashSize) == 0 && old(register.crc) == START))
      ensures ok && (header != [] || (old(flashSize) == 0 && old(register.crc) == 0xffff_ffff)) ==>
                Feed(0xffff_ffff, Dense(AllCells(rs)) + Bytes(flashCrc)) == 0xdebb_20e3
    {
      hide AllCells, Ascending, Dense, Crc, LastPart, WholePages, Passable, Feed, Xor, Bytes, Wrapped;
      currentAddr, image := BASE, [];
      NothingLeft(line[..], image);
      for i := 0 to |header|
        invariant Paged() && image == []
        invariant if i == |header| > 0 then flashSize == 0 && register.crc == START
                  else flashSize == old(flashSize) && register.crc == old(register.crc)
      {
        VerifyHeader(i, |header|, header[i]);
      }
      startSize, startCrc := flashSize, register.crc;
      NoPages(startCrc);
      ok := VerifyAll(rs);
      if ok {
        var ret := VerifyEnd(entry);
        DenseFits(AllCells(rs));
        StartsOver(startSize, startCrc, image);
        Residue(image);
      }
    }

    /** A whole file through the second pass: memory holds the dense image, contiguously. */
    method UploadFile(rs: seq<Record>) returns (ok: bool)
      requires line.Length == PAGE_SIZE
      requires Passable(rs)
      modifies `currentAddr, `image, `dram, line
      ensures ok <==> Ascending(AllCells(rs))
      ensures ok ==> dram == Dense(AllCells(rs))
    {
      hide AllCells, Ascending, Dense, LastPart, WholePages, Passable;
      currentAddr, image, dram := BASE, [], [];
      NothingLeft(line[..], image);
      NoPages(START);
      ok := UploadAll(rs);
      if ok {
        var ret := UploadEnd();
      }
    }

    /** VerifyDRAMContents: the CRC of the memory is computed, and success reported whatever it is. */
    method VerifyMemory(memory: seq<bv8>, size: nat, crc: bv32) returns (ret: nat, seen: bv32)
      requires size <= |memory|
      modifies register
      ensures ret == 0 && seen == Crc(memory[..size])
    {
      hide Feed;
      register.Reset();
      FeedNone(START);
      var left, at: nat := size, 0;
      while left > 0
        invariant at + left == size && register.crc == Feed(START, memory[..at])
      {
        var n := if left >= 256 then 256 else left;
        FeedConcat(START, memory[..at], memory[at..at + n]);
        assert memory[..at] + memory[at..at + n] == memory[..at + n];
        var r := register.FeedPiece(memory[at..at + n]);
        at, left := at + n, left - n;
      }
      assert memory[..size] + [] == memory[..size];
      FeedConcat(START, memory[..size], []);
      seen := register.FeedPiece([]);
      return 0, seen;
    }

    /** FLASH_VerifySRecords: the first pass, then the CRC of as much of the flash. */
    method VerifySRecords(header: seq<bv8>, rs: seq<Record>, entry: nat, flash: nat -> bv8)
      returns (ok: bool, crcFile: bv32, crcFlash: bv32)
      requires line.Length == PAGE_SIZE && |header| <= 252 && flashSize < WORD && Passable(rs)
      modifies this, line, register
      ensures ok <==> Ascending(AllCells(rs))
      ensures ok ==> crcFile == flashCrc && crcFlash == Crc(Memory(flash, flashSize))
      ensures ok && Started(header, old(flashSize), old(register.crc)) ==>
                && flashSize == |Dense(AllCells(rs))| && crcFile == Crc(Dense(AllCells(rs)))
                && (Memory(flash, flashSize) == Dense(AllCells(rs)) ==> crcFlash == crcFile)
    {
      hide AllCells, Ascending, Dense, Crc, Feed, Passable, Memory;
      ok := Verify(header, rs, entry);
      crcFile, crcFlash := 0, 0;
      if ok {
        register.Reset();
        crcFlash := register.FeedPiece(Memory(flash, flashSize));
        CrcIs(Memory(flash, flashSize));
        crcFile := flashCrc;
      }
    }

    /** FLASH_RebootAndFlash: the second pass into memory, and its check, behind which other memory lies. */
    method RebootAndFlash(rs: seq<Record>, beyond: nat -> bv8) returns (ok: bool, seen: bv32)
      requires line.Length == PAGE_SIZE && Passable(rs)
      modifies this, line, register
      ensures flashSize == old(flashSize) && flashCrc == old(flashCrc)
      ensures ok <==> Ascending(AllCells(rs))
      ensures ok ==> dram == Dense(AllCells(rs))
      ensures ok && flashSize == |dram| ==> seen == Crc(dram)
    {
      hide AllCells, Ascending, Dense, Crc, Passable, Memory;
      ok := UploadFile(rs);
      seen := 0;
      if ok {
        var memory := if flashSize <= |dram| then dram else dram + Memory(beyond, flashSize - |dram|);
        var ret;
        ret, seen := VerifyMemory(memory, flashSize, flashCrc);
        assert flashSize == |dram| ==> memory[..flashSize] == dram;
      }
    }

    /**
     A file verified and then flashed: with a header, or from the start values, the CRC of the
     memory that is going to be flashed is the one the first pass found.
     */
    method VerifyAndFlash(header: seq<bv8>, rs: seq<Record>, entry: nat, flash: nat -> bv8, beyond: nat -> bv8)
      returns (ok: bool, crcFile: bv32, seen: bv32)
      requires line.Length == PAGE_SIZE && |header| <= 252 && flashSize < WORD && Passable(rs)
      modifies this, line, register
      ensures ok <==> Ascending(AllCells(rs))
      ensures ok ==> dram == Dense(AllCells(rs))
      ensures ok && Started(header, old(flashSize), old(register.crc)) ==> flashSize == |dram| && seen == crcFile == Crc(dram)
      ensures ok && Started(header, old(flashSize), old(register.crc)) ==>
                Feed(0xffff_ffff, dram + Bytes(seen)) == 0xdebb_20e3
    {
      hide AllCells, Ascending, Dense, Crc, Passable, Memory, Feed, Bytes;
      var crcFlash;
      seen := 0;
      ok, crcFile, crcFlash := VerifySRecords(header, rs, entry, flash);
      if ok {
        ok, seen := RebootAndFlash(rs, beyond);
        Residue(dram);
      }
    }
  }

  /** Size and CRC start over for a file: it has a header, or they stand at their start values. */
  predicate Started(header: seq<bv8>, size: nat, crc: bv32) {
    header != [] || (size == 0 && crc == START)
  }

  /** Some bytes of a memory. */
  function Memory(memory: nat -> bv8, n: nat): (s: seq<bv8>)
    ensures |s| == n
  {
    seq(n, i requires 0 <= i < n => memory(i))
  }

  lemma CrcIs(data: seq<bv8>)
    ensures Crc(data) == Xor(Feed(START, data), 0xffff_ffff)
  {
  }

  lemma FeedNone(c: bv32)
    ensures Feed(c, []) == c
  {
  }

  lemma NoPages(c: bv32)
    ensures WholePages([]) == [] && Feed(c, []) == c
  {
  }

  /** Adding up in 32 bits. */
  lemma SizeMore(a: nat, b: nat, n: nat)
    ensures Wrapped(Wrapped(a + b) + n) == Wrapped(a + (b + n))
  {
  }

  lemma DenseFits(cells: seq<Cell>)
    requires Ascending(cells)
    ensures |Dense(cells)| < WORD
  {
    hide Dense;
  }

  /** Size and CRC describe an image on their own exactly when they started over before it. */
  lemma StartsOver(size: nat, crc: bv32, image: seq<bv8>)
    requires size < WORD && |image| < WORD
    ensures Wrapped(size + |image|) == |image| && Xor(Feed(crc, image), 0xffff_ffff) == Crc(image)
            <==> size == 0 && crc == START
  {
    hide Feed, Xor;
    if Xor(Feed(crc, image), 0xffff_ffff) == Crc(image) {
      XorCancels(Feed(crc, image), Feed(START, image), 0xffff_ffff);
      FeedInjective(crc, START, image);
    }
  }

  /** An input that goes wrong: any file without header as the first one after power-up. */
  lemma FirstWithoutHeader(image: seq<bv8>)
    requires |image| < WORD
    ensures Xor(Feed(0, image), 0xffff_ffff) != Crc(image)
  {
    hide Feed, Xor;
    StartsOver(0, 0, image);
  }

  lemma NoCells()
    ensures AllCells([]) == [] && Ascending([]) && Dense([]) == []
  {
  }

  lemma MoreRecords(rs: seq<Record>, k: nat)
    requires k < |rs|
    ensures AllCells(rs[..k + 1]) == AllCells(rs[..k]) + Cells(rs[k])
  {
    assert rs[..k + 1][..k] == rs[..k];
  }

  lemma {:induction false} AllOf(rs: seq<Record>, k: nat)
    requires k <= |rs|
    ensures AllCells(rs[..k]) <= AllCells(rs)
  {
    hide Cells;
    if k < |rs| {
      AllOf(rs[..|rs| - 1], k);
      assert rs[..|rs| - 1][..k] == rs[..k];
    } else {
      assert rs[..k] == rs;
    }
  }

  /** A byte of a record is a byte of the whole file. */
  lemma PartOfAll(rs: seq<Record>, k: nat, i: nat)
    requires k < |rs| && i < |rs[k].bytes|
    ensures |AllCells(rs[..k])| + i < |AllCells(rs)|
    ensures AllCells(rs)[|AllCells(rs[..k])| + i] == Cells(rs[k])[i]
    ensures AllCells(rs[..k]) + Cells(rs[k])[..i + 1] <= AllCells(rs)
    ensures Passable(rs) && Ascending(AllCells(rs[..k]) + Cells(rs[k])[..i]) ==> Cells(rs[k])[i].addr != LAST_ADDRESS
  {
    MoreRecords(rs, k);
    AllOf(rs, k + 1);
    assert Cells(rs[k])[..i + 1] <= Cells(rs[k]);
    assert AllCells(rs)[..|AllCells(rs[..k])| + i] == AllCells(rs[..k]) + Cells(rs[k])[..i];
  }

  /** Another byte keeps the addresses ascending exactly when it is not below the end so far. */
  lemma OneMoreCell(done: seq<Cell>, c: Cell)
    requires Ascending(done) && c.addr < LAST_ADDRESS
    ensures Ascending(done + [c]) <==> c.addr >= BASE + |Dense(done)|
    ensures Ascending(done + [c]) ==> Dense(done + [c]) == Extended(Dense(done), c)
  {
    hide Ascending, Dense, Extended;
    if c.addr >= End(done) {
      CellBehind(done, c);
    } else {
      CellBefore(done, c);
    }
  }

  /** A byte at or behind the end goes on the image. */
  lemma CellBehind(done: seq<Cell>, c: Cell)
    requires Ascending(done) && End(done) <= c.addr < LAST_ADDRESS
    ensures Ascending(done + [c]) && Dense(done + [c]) == Extended(Dense(done), c)
  {
    hide Dense, Extended;
    var more := done + [c];
    forall i | 0 <= i < |more|
      ensures BASE <= more[i].addr < LAST_ADDRESS
      ensures i < |done| ==> more[i].addr < c.addr
    {
      assert 0 <= i < |done| - 1 ==> done[i].addr < done[|done| - 1].addr;
    }
    assert more[..|done|] == done;
    DenseStep(done, c);
  }

  lemma DenseStep(done: seq<Cell>, c: Cell)
    requires Ascending(done) && Ascending(done + [c]) && BASE + |Dense(done)| <= c.addr
    ensures Dense(done + [c]) == Extended(Dense(done), c)
  {
    hide Ascending, Extended;
    assert (done + [c])[..|done|] == done;
  }

  lemma CellBefore(done: seq<Cell>, c: Cell)
    requires Ascending(done) && c.addr < End(done)
    ensures !Ascending(done + [c])
  {
    var more := done + [c];
    if done != [] {
      assert more[|done| - 1] == done[|done| - 1] && more[|done|] == c;
    } else {
      assert more[0] == c;
    }
  }

  /** A file with a part that does not ascend does not ascend. */
  lemma NotAscending(rs: seq<Record>, k: nat, i: nat)
    requires k < |rs| && i < |rs[k].bytes|
    requires !Ascending(AllCells(rs[..k]) + Cells(rs[k])[..i + 1])
    ensures !Ascending(AllCells(rs))
  {
    PartOfAll(rs, k, i);
    var part := AllCells(rs[..k]) + Cells(rs[k])[..i + 1];
    if Ascending(AllCells(rs)) {
      PrefixAscends(AllCells(rs), part);
      assert false;
    }
  }

  lemma PrefixAscends(all: seq<Cell>, part: seq<Cell>)
    requires Ascending(all) && part <= all
    ensures Ascending(part)
  {
    assert forall i | 0 <= i < |part| :: part[i] == all[i];
  }

  /** The bytes of the buffer in use when an address is the next to be written. */
  function Valid(currentAddr: nat): nat
    requires currentAddr > 0
  {
    (currentAddr - 1) % PAGE_SIZE + 1
  }

  lemma ValidIs(currentAddr: nat)
    requires currentAddr > 0 && currentAddr % PAGE_SIZE != 0
    ensures Valid(currentAddr) == currentAddr % PAGE_SIZE
  {
  }

  lemma NextInPage(n: nat)
    ensures (n + 1) % PAGE_SIZE == if n % PAGE_SIZE == PAGE_SIZE - 1 then 0 else n % PAGE_SIZE + 1
    ensures (n + 1) % PAGE_SIZE == 0 ==> Valid(BASE + n + 1) == PAGE_SIZE && n + 1 >= PAGE_SIZE
  {
  }

  /** Storing a byte behind the last part of a page: the page grows, or is complete. */
  lemma OneByteMore(line: seq<bv8>, image: seq<bv8>, b: bv8)
    requires |line| == PAGE_SIZE && line[..|image| % PAGE_SIZE] == LastPart(image) && BASE + |image| < LAST_ADDRESS
    ensures var at := |image| % PAGE_SIZE;
            var line', image' := line[at := b], image + [b];
            && ((|image| + 1) % PAGE_SIZE != 0 ==>
                  line'[..(|image| + 1) % PAGE_SIZE] == LastPart(image') && WholePages(image') == WholePages(image))
            && ((|image| + 1) % PAGE_SIZE == 0 ==>
                  |image'| >= PAGE_SIZE && line' == image'[|image'| - PAGE_SIZE..]
                  && WholePages(image') == WholePages(image) + line'
                  && Valid(BASE + |image| + 1) == PAGE_SIZE)
  {
    hide Valid;
    NextInPage(|image|);
    if |image| % PAGE_SIZE == PAGE_SIZE - 1 {
      PageComplete(line, image, b);
    } else {
      PageGrows(line, image, b);
    }
  }

  lemma PageGrows(line: seq<bv8>, image: seq<bv8>, b: bv8)
    requires |line| == PAGE_SIZE && line[..|image| % PAGE_SIZE] == LastPart(image)
    requires (|image| + 1) % PAGE_SIZE == |image| % PAGE_SIZE + 1
    ensures line[|image| % PAGE_SIZE := b][..|image| % PAGE_SIZE + 1] == LastPart(image + [b])
    ensures WholePages(image + [b]) == WholePages(image)
  {
    var at := |image| % PAGE_SIZE;
    assert line[at := b][..at + 1] == line[..at] + [b];
    assert (image + [b])[|image| - at..] == LastPart(image) + [b];
  }

  lemma PageComplete(line: seq<bv8>, image: seq<bv8>, b: bv8)
    requires |line| == PAGE_SIZE && line[..|image| % PAGE_SIZE] == LastPart(image)
    requires |image| % PAGE_SIZE == PAGE_SIZE - 1 && (|image| + 1) % PAGE_SIZE == 0
    ensures var line', image' := line[PAGE_SIZE - 1 := b], image + [b];
            && line' == image'[|image'| - PAGE_SIZE..]
            && WholePages(image') == WholePages(image) + line'
  {
    var line', image' := line[PAGE_SIZE - 1 := b], image + [b];
    assert line' == line[..PAGE_SIZE - 1] + [b];
    assert image'[|image'| - PAGE_SIZE..] == LastPart(image) + [b];
    assert image' == WholePages(image) + line';
  }

  lemma PageCount(image: seq<bv8>)
    ensures |WholePages(image)| + |LastPart(image)| == |image|
    ensures |image| % PAGE_SIZE == 0 ==> WholePages(image) == image
  {
  }

  /** An empty buffer is the last part of an image of whole pages. */
  lemma NothingLeft(line: seq<bv8>, image: seq<bv8>)
    requires |image| % PAGE_SIZE == 0
    ensures line[..0] == LastPart(image)
  {
  }

  lemma FillNone(image: seq<bv8>)
    ensures image == image + Fill(0)
  {
  }

  /** One step of the filling loop. */
  lemma MoreFill(was: seq<bv8>, before: seq<bv8>, b: bv8, c: Cell)
    requires |was| <= |before| && BASE + |before| <= c.addr
    requires before == was + Fill(|before| - |was|)
    requires b == if BASE + |before| == c.addr then c.value else 0xff
    ensures BASE + |before| < c.addr ==> before + [b] == was + Fill(|before| + 1 - |was|)
    ensures BASE + |before| == c.addr ==> before + [b] == Extended(was, c)
  {
  }
}
