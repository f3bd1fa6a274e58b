/**
 * The simulated memory: a table of regions, each a byte array covering the
 * addresses `begin..end`, with little-endian 32-bit word access.
 *
 * `Image` is the value of the whole memory (the bounds of every region and
 * its bytes); `ReadWord` and `WriteWord` say what a word access does to it.
 * `RegionTable` is the memory as the simulator holds it, arrays updated in
 * place, and its `Read32`/`Write32` loops are proved against `ReadWord` and
 * `WriteWord`.
 */
module Memory {
  import opened Words

  /** The address range `begin..end` (both inclusive) of one region. */
  datatype Bounds = Bounds(begin: Word, end: Word)

  datatype RawImage = RawImage(layout: seq<Bounds>, cells: seq<seq<Byte>>)
  {
    /** One byte sequence per region, as long as its address range. */
    predicate Valid() {
      && |cells| == |layout|
      && forall i :: 0 <= i < |layout| ==>
           layout[i].begin <= layout[i].end && |cells[i]| == layout[i].end - layout[i].begin + 1
    }
  }

  type Image = im: RawImage | im.Valid() witness RawImage([], [])

  /**
   * The region guard: all four bytes of the word at `addr` lie inside the
   * region.
   */
  predicate Covers(b: Bounds, addr: Word) {
    b.begin <= addr && addr + 3 <= b.end
  }

  /** The region guard as written: only the first byte is checked against `end`. */
  predicate CoversAsWritten(b: Bounds, addr: Word) {
    b.begin <= addr <= b.end
  }

  /** Some region holds the word at `addr`. */
  predicate Mapped(mem: Image, addr: Word) {
    exists i :: 0 <= i < |mem.layout| && Covers(mem.layout[i], addr)
  }

  // ---------------------------------------------------------------------
  // Bytes of a word, least significant first
  // ---------------------------------------------------------------------

  function Byte0(v: Word): Byte { v % 0x100 }
  function Byte1(v: Word): Byte { v / 0x100 % 0x100 }
  function Byte2(v: Word): Byte { v / 0x1_0000 % 0x100 }
  function Byte3(v: Word): Byte { v / 0x100_0000 % 0x100 }

  /** Four bytes, the first the least significant, as one word. */
  function Assemble(b0: Byte, b1: Byte, b2: Byte, b3: Byte): Word {
    b3 * 0x100_0000 + b2 * 0x1_0000 + b1 * 0x100 + b0
  }

  /** Splitting a word into bytes and assembling them gives the word back. */
  lemma AssembleBytes(v: Word)
    ensures Assemble(Byte0(v), Byte1(v), Byte2(v), Byte3(v)) == v
  {
    DivDiv(v, 0x100, 0x100);
    DivDiv(v, 0x1_0000, 0x100);
    var q1, q2, q3 := v / 0x100, v / 0x1_0000, v / 0x100_0000;
    assert v == q1 * 0x100 + Byte0(v);
    assert q1 == q2 * 0x100 + Byte1(v);
    assert q2 == q3 * 0x100 + Byte2(v);
    assert q3 == Byte3(v);
  }

  /** Assembling four bytes and splitting the word gives the bytes back. */
  lemma BytesOfAssemble(b0: Byte, b1: Byte, b2: Byte, b3: Byte)
    ensures var v := Assemble(b0, b1, b2, b3);
      Byte0(v) == b0 && Byte1(v) == b1 && Byte2(v) == b2 && Byte3(v) == b3
  {
    var v := Assemble(b0, b1, b2, b3);
    DivModSplit(v, 0x100, b3 * 0x1_0000 + b2 * 0x100 + b1, b0);
    DivModSplit(v / 0x100, 0x100, b3 * 0x100 + b2, b1);
    DivModSplit(v, 0x1_0000, b3 * 0x100 + b2, b1 * 0x100 + b0);
    DivModSplit(v / 0x1_0000, 0x100, b3, b2);
    DivModSplit(v, 0x100_0000, b3, b2 * 0x1_0000 + b1 * 0x100 + b0);
  }

  // ---------------------------------------------------------------------
  // One region
  // ---------------------------------------------------------------------

  /** The word whose least significant byte is at offset `o`. */
  function LoadAt(bytes: seq<Byte>, o: nat): Word
    requires o + 3 < |bytes|
  {
    Assemble(bytes[o], bytes[o + 1], bytes[o + 2], bytes[o + 3])
  }

  /** The bytes with the word `v` stored at offset `o`, least significant byte first. */
  function StoreAt(bytes: seq<Byte>, o: nat, v: Word): (r: seq<Byte>)
    requires o + 3 < |bytes|
    ensures |r| == |bytes|
    ensures forall k :: 0 <= k < |bytes| && (k < o || o + 3 < k) ==> r[k] == bytes[k]
    ensures LoadAt(r, o) == v
  {
    AssembleBytes(v);
    bytes[o + 3 := Byte3(v)][o + 2 := Byte2(v)][o + 1 := Byte1(v)][o := Byte0(v)]
  }

  /** A word write as one region sees it: its bytes change only when it holds the word. */
  function WriteRegion(b: Bounds, bytes: seq<Byte>, addr: Word, v: Word): (r: seq<Byte>)
    requires |bytes| == b.end - b.begin + 1
    ensures |r| == |bytes|
  {
    if Covers(b, addr) then StoreAt(bytes, addr - b.begin, v) else bytes
  }

  // ---------------------------------------------------------------------
  // The whole memory
  // ---------------------------------------------------------------------

  /** The search of the region loop from region `i` on: the first region holding the word answers. */
  function ReadFrom(mem: Image, addr: Word, i: nat): Word
    decreases |mem.layout| - i
  {
    if i >= |mem.layout| then 0
    else if Covers(mem.layout[i], addr) then LoadAt(mem.cells[i], addr - mem.layout[i].begin)
    else ReadFrom(mem, addr, i + 1)
  }

  /** A word read: the word in the first region that holds it, or 0 when none does. */
  function ReadWord(mem: Image, addr: Word): Word {
    ReadFrom(mem, addr, 0)
  }

  /**
   * A word write: every region that holds the address gets the word (the loop
   * does not stop at the first one); no other byte changes.
   */
  function WriteWord(mem: Image, addr: Word, v: Word): (r: Image)
    ensures r.layout == mem.layout
    ensures forall i :: 0 <= i < |mem.layout| ==>
              r.cells[i] == WriteRegion(mem.layout[i], mem.cells[i], addr, v)
  {
    var cells := seq(|mem.cells|, i requires 0 <= i < |mem.cells| =>
                       WriteRegion(mem.layout[i], mem.cells[i], addr, v));
    assert RawImage(mem.layout, cells).Valid();
    RawImage(mem.layout, cells)
  }

  /** The word read at a mapped address comes from the first region holding it. */
  lemma {:induction false} ReadFirstRegion(mem: Image, addr: Word, i: nat, j: nat)
    requires i <= j < |mem.layout| && Covers(mem.layout[j], addr)
    requires forall k :: i <= k < j ==> !Covers(mem.layout[k], addr)
    ensures ReadFrom(mem, addr, i) == LoadAt(mem.cells[j], addr - mem.layout[j].begin)
    decreases j - i
  {
    if i < j {
      ReadFirstRegion(mem, addr, i + 1, j);
    }
  }

  /** No region past `i` holds the word: the search answers 0. */
  lemma {:induction false} ReadFromUnmapped(mem: Image, addr: Word, i: nat)
    requires forall k :: i <= k < |mem.layout| ==> !Covers(mem.layout[k], addr)
    ensures ReadFrom(mem, addr, i) == 0
    decreases |mem.layout| - i
  {
    if i < |mem.layout| {
      ReadFromUnmapped(mem, addr, i + 1);
    }
  }

  /** Reading an address no region holds gives 0. */
  lemma ReadUnmapped(mem: Image, addr: Word)
    requires !Mapped(mem, addr)
    ensures ReadWord(mem, addr) == 0
  {
    ReadFromUnmapped(mem, addr, 0);
  }

  /** Writing an address no region holds changes nothing. */
  lemma WriteUnmapped(mem: Image, addr: Word, v: Word)
    requires !Mapped(mem, addr)
    ensures WriteWord(mem, addr, v) == mem
  {
    var r := WriteWord(mem, addr, v);
    assert r.cells == mem.cells;
  }

  /** The least index of a region holding a mapped address. */
  lemma FirstCovering(mem: Image, addr: Word) returns (j: nat)
    requires Mapped(mem, addr)
    ensures j < |mem.layout| && Covers(mem.layout[j], addr)
    ensures forall k :: 0 <= k < j ==> !Covers(mem.layout[k], addr)
  {
    var i :| 0 <= i < |mem.layout| && Covers(mem.layout[i], addr);
    j := 0;
    while !Covers(mem.layout[j], addr)
      invariant j <= i
      invariant forall k :: 0 <= k < j ==> !Covers(mem.layout[k], addr)
      decreases i - j
    {
      j := j + 1;
    }
  }

  /** A word written to a mapped address reads back unchanged. */
  lemma ReadAfterWrite(mem: Image, addr: Word, v: Word)
    requires Mapped(mem, addr)
    ensures ReadWord(WriteWord(mem, addr, v), addr) == v
  {
    var r := WriteWord(mem, addr, v);
    var j := FirstCovering(mem, addr);
    ReadFirstRegion(r, addr, 0, j);
  }

  /** A word write leaves every word that does not overlap it as it was. */
  lemma ReadOtherAfterWrite(mem: Image, addr: Word, v: Word, other: Word)
    requires other + 4 <= addr || addr + 4 <= other
    ensures ReadWord(WriteWord(mem, addr, v), other) == ReadWord(mem, other)
  {
    var r := WriteWord(mem, addr, v);
    ReadOtherFrom(mem, addr, v, other, 0);
  }

  lemma {:induction false} ReadOtherFrom(mem: Image, addr: Word, v: Word, other: Word, i: nat)
    requires other + 4 <= addr || addr + 4 <= other
    ensures ReadFrom(WriteWord(mem, addr, v), other, i) == ReadFrom(mem, other, i)
    decreases |mem.layout| - i
  {
    var r := WriteWord(mem, addr, v);
    if i < |mem.layout| {
      if Covers(mem.layout[i], other) {
        var o := other - mem.layout[i].begin;
        assert r.cells[i][o..o + 4] == mem.cells[i][o..o + 4];
        assert r.cells[i][o] == mem.cells[i][o] && r.cells[i][o + 1] == mem.cells[i][o + 1];
        assert r.cells[i][o + 2] == mem.cells[i][o + 2] && r.cells[i][o + 3] == mem.cells[i][o + 3];
      } else {
        ReadOtherFrom(mem, addr, v, other, i + 1);
      }
    }
  }

  // ---------------------------------------------------------------------
  // The guard as written
  // ---------------------------------------------------------------------

  /**
   * As written, the guard accepts each of the last three byte addresses of a
   * region, and the bytes at offsets `offset+1..offset+3` then lie past the
   * region's buffer: for the four-byte region 0x1000..0x1003, address 0x1003
   * is accepted and offset 6 is touched.
   */
  lemma GuardAsWrittenOverruns(b: Bounds, addr: Word)
    requires b.begin <= addr <= b.end && b.end < addr + 3
    ensures CoversAsWritten(b, addr) && !Covers(b, addr)
    ensures addr - b.begin + 3 >= b.end - b.begin + 1
  {
  }

  /**
   * For a region whose size is a multiple of four, at a word-aligned address
   * the two guards agree: the overrun needs an unaligned address.
   */
  lemma GuardsAgreeWhenAligned(b: Bounds, addr: Word)
    requires b.begin <= b.end && (b.end - b.begin + 1) % 4 == 0
    requires b.begin <= addr ==> (addr - b.begin) % 4 == 0
    ensures CoversAsWritten(b, addr) <==> Covers(b, addr)
  {
    if b.begin <= addr <= b.end {
      var n, o := b.end - b.begin + 1, addr - b.begin;
      assert o < n;
      assert o == o / 4 * 4 && n == n / 4 * 4;
      assert o / 4 < n / 4 by {
        MulLtCancel(o / 4, n / 4, 4);
      }
    }
  }

  // ---------------------------------------------------------------------
  // The memory as the simulator holds it
  // ---------------------------------------------------------------------

  /** One memory region: its address range and the bytes it holds. */
  class Region {
    const begin: Word
    const end: Word
    const mem: array<Byte>

    constructor (begin: Word, end: Word)
      requires begin <= end
      ensures this.begin == begin && this.end == end
      ensures fresh(mem) && mem.Length == end - begin + 1
      ensures forall k :: 0 <= k < mem.Length ==> mem[k] == 0
    {
      this.begin := begin;
      this.end := end;
      mem := new Byte[end - begin + 1](_ => 0);
    }

    /** Stores the word `v` at byte offset `o`, least significant byte there, writing from `o + 3` down. */
    method Store(o: nat, v: Word)
      requires o + 3 < mem.Length
      modifies mem
      ensures mem[..] == StoreAt(old(mem[..]), o, v)
    {
      mem[o + 3] := Byte3(v);
      mem[o + 2] := Byte2(v);
      mem[o + 1] := Byte1(v);
      mem[o] := Byte0(v);
    }
  }

  /** The region table, searched in order by every word access. */
  class RegionTable {
    const regions: seq<Region>

    /** Every region's byte array, the part of the heap a write may change. */
    function Arrays(): set<array<Byte>> {
      set r | r in regions :: r.mem
    }

    predicate Valid() {
      && (forall i :: 0 <= i < |regions| ==>
            regions[i].begin <= regions[i].end
            && regions[i].mem.Length == regions[i].end - regions[i].begin + 1)
      && (forall i, j :: 0 <= i < j < |regions| ==> regions[i].mem != regions[j].mem)
    }

    /** The current contents of the memory. */
    function Snapshot(): (im: Image)
      requires Valid()
      reads Arrays()
      ensures |im.layout| == |regions|
      ensures forall i :: 0 <= i < |regions| ==>
                im.layout[i] == Bounds(regions[i].begin, regions[i].end) && im.cells[i] == regions[i].mem[..]
    {
      var layout := seq(|regions|, i requires 0 <= i < |regions| => Bounds(regions[i].begin, regions[i].end));
      var cells := seq(|regions|, i requires 0 <= i < |regions| reads Arrays() => regions[i].mem[..]);
      assert RawImage(layout, cells).Valid();
      RawImage(layout, cells)
    }

    /** A table of zero-filled regions with the given bounds, allocated in order. */
    constructor (layout: seq<Bounds>)
      requires forall i :: 0 <= i < |layout| ==> layout[i].begin <= layout[i].end
      ensures Valid() && fresh(Arrays())
      ensures Snapshot().layout == layout
      ensures forall i, k :: 0 <= i < |layout| && 0 <= k < |Snapshot().cells[i]| ==> Snapshot().cells[i][k] == 0
    {
      var table: seq<Region> := [];
      var i := 0;
      while i < |layout|
        invariant i <= |layout| && |table| == i
        invariant forall j :: 0 <= j < i ==>
                    table[j].begin == layout[j].begin && table[j].end == layout[j].end
                    && table[j].mem.Length == layout[j].end - layout[j].begin + 1
                    && fresh(table[j].mem)
                    && forall k :: 0 <= k < table[j].mem.Length ==> table[j].mem[k] == 0
        invariant forall j, j' :: 0 <= j < j' < i ==> table[j].mem != table[j'].mem
      {
        var r := new Region(layout[i].begin, layout[i].end);
        table := table + [r];
        i := i + 1;
      }
      regions := table;
    }

    /** The word at `addr`: the region loop, stopping at the first region that holds it. */
    method Read32(addr: Word) returns (w: Word)
      requires Valid()
      ensures w == ReadWord(Snapshot(), addr)
    {
      var i := 0;
      while i < |regions|
        invariant i <= |regions|
        invariant ReadFrom(Snapshot(), addr, i) == ReadWord(Snapshot(), addr)
      {
        var r := regions[i];
        if r.begin <= addr && addr + 3 <= r.end {
          var o := addr - r.begin;
          return Assemble(r.mem[o], r.mem[o + 1], r.mem[o + 2], r.mem[o + 3]);
        }
        i := i + 1;
      }
      return 0;
    }

    /** Stores `value` at `addr` in every region that holds it. */
    method Write32(addr: Word, value: Word)
      requires Valid()
      modifies Arrays()
      ensures Valid()
      ensures Snapshot() == WriteWord(old(Snapshot()), addr, value)
    {
      ghost var before := Snapshot();
      var i := 0;
      while i < |regions|
        invariant i <= |regions|
        invariant forall j :: 0 <= j < |regions| ==>
                    regions[j].mem[..] == if j < i then WriteRegion(before.layout[j], before.cells[j], addr, value)
                                          else before.cells[j]
      {
        var r := regions[i];
        if r.begin <= addr && addr + 3 <= r.end {
          r.Store(addr - r.begin, value);
        }
        i := i + 1;
      }
      assert Snapshot().cells == WriteWord(before, addr, value).cells;
    }
  }
}
