/** The split of the DOL's single BSS range into the regions that the
    runtime really zero-fills. Both header builders use this one function. */
module BssSplit {
  import opened ByteOrder
  import opened Dol

  /** A zero-filled region in host order, with the section name it gets. */
  datatype BssRegion = BssRegion(name: string, address: Word, size: Word)

  /** How many BSS entries each builder emits: none for an empty BSS, one
      without the fix, three with it. */
  function BssCount(bssSize: Be32, useBssFix: bool): nat
  {
    if bssSize == ZERO then 0 else if useBssFix then 3 else 1
  }

  /** `r` and the two small-data segments tile the BSS range, in 32-bit
      wrap-around arithmetic: `.bss` runs from the BSS start to `sdata`, `.sbss`
      from the end of `sdata` to `sdata2`, and `.sbss2` from the end of `sdata2`
      to the BSS end. */
  predicate Tiles(r: seq<BssRegion>, bssAddress: Word, bssSize: Word,
                  sdataAddress: Word, sdataSize: Word, sdata2Address: Word, sdata2Size: Word)
  {
    |r| == 3 &&
    r[0].name == ".bss" && r[1].name == ".sbss" && r[2].name == ".sbss2" &&
    r[0].address == bssAddress &&
    Add(r[0].address, r[0].size) == sdataAddress &&
    r[1].address == Add(sdataAddress, sdataSize) &&
    Add(r[1].address, r[1].size) == sdata2Address &&
    r[2].address == Add(sdata2Address, sdata2Size) &&
    Add(r[2].address, r[2].size) == Add(bssAddress, bssSize)
  }

  /** The three-way cut, all values in host order. */
  function Split(bssAddress: Word, bssSize: Word, sdataAddress: Word, sdataSize: Word,
                 sdata2Address: Word, sdata2Size: Word): (r: seq<BssRegion>)
    ensures Tiles(r, bssAddress, bssSize, sdataAddress, sdataSize, sdata2Address, sdata2Size)
  {
    var bssEnd := Add(bssAddress, bssSize);
    var sbssAddress := Add(sdataAddress, sdataSize);
    var sbss2Address := Add(sdata2Address, sdata2Size);
    AddSub(bssAddress, sdataAddress);
    AddSub(sbssAddress, sdata2Address);
    AddSub(sbss2Address, bssEnd);
    [BssRegion(".bss", bssAddress, Sub(sdataAddress, bssAddress)),
     BssRegion(".sbss", sbssAddress, Sub(sdata2Address, sbssAddress)),
     BssRegion(".sbss2", sbss2Address, Sub(bssEnd, sbss2Address))]
  }

  /** What the split needs: two non-empty data slots when the BSS is split.
      With fewer, `data_count - 2` wraps around as a `size_t` and the
      builders read far outside the data arrays. */
  predicate CanSplit(d: DolHeader, useBssFix: bool)
    requires d.Valid()
  {
    d.bssSize != ZERO && useBssFix ==> 2 <= DataCount(d)
  }

  /** The BSS regions of a DOL header. `dataCount` is the number of non-zero
      data slots; with the fix on, the data slots at positions
      `dataCount - 2` and `dataCount - 1` of the raw arrays are taken as
      `sdata` and `sdata2`. */
  function BssRegions(d: DolHeader, dataCount: nat, useBssFix: bool): (r: seq<BssRegion>)
    requires d.Valid() && dataCount <= DATA_COUNT
    requires d.bssSize != ZERO && useBssFix ==> 2 <= dataCount
    ensures |r| == BssCount(d.bssSize, useBssFix)
  {
    if d.bssSize == ZERO then
      []
    else if useBssFix then
      Split(Ntohl(d.bssAddress), Ntohl(d.bssSize),
            Ntohl(d.dataAddress[dataCount - 2]), Ntohl(d.dataSize[dataCount - 2]),
            Ntohl(d.dataAddress[dataCount - 1]), Ntohl(d.dataSize[dataCount - 1]))
    else
      [BssRegion(".bss", Ntohl(d.bssAddress), Ntohl(d.bssSize))]
  }

  /** Without the fix, the one region is the DOL's BSS range itself: stored
      back in big-endian it gives the header's own address and size words. */
  lemma UnsplitRegion(d: DolHeader, dataCount: nat)
    requires d.Valid() && dataCount <= DATA_COUNT && d.bssSize != ZERO
    ensures var r := BssRegions(d, dataCount, false);
      r[0].name == ".bss" && Htonl(r[0].address) == d.bssAddress && Htonl(r[0].size) == d.bssSize
  {
  }

  /** With the fix, the regions tile the BSS range around the data slots at
      positions `dataCount - 2` and `dataCount - 1`. */
  lemma SplitRegionsTile(d: DolHeader, dataCount: nat)
    requires d.Valid() && 2 <= dataCount <= DATA_COUNT && d.bssSize != ZERO
    ensures Tiles(BssRegions(d, dataCount, true), Ntohl(d.bssAddress), Ntohl(d.bssSize),
                  Ntohl(d.dataAddress[dataCount - 2]), Ntohl(d.dataSize[dataCount - 2]),
                  Ntohl(d.dataAddress[dataCount - 1]), Ntohl(d.dataSize[dataCount - 1]))
  {
  }

  /** The three regions and the two small-data segments add up to the BSS size
      (modulo 2^32). */
  lemma TilingSumsToBssSize(r: seq<BssRegion>, bssAddress: Word, bssSize: Word,
                            sdataAddress: Word, sdataSize: Word, sdata2Address: Word, sdata2Size: Word)
    requires Tiles(r, bssAddress, bssSize, sdataAddress, sdataSize, sdata2Address, sdata2Size)
    ensures Add(Add(Add(Add(r[0].size, sdataSize), r[1].size), sdata2Size), r[2].size) == bssSize
  {
    // Walking the five pieces from the BSS start reaches the BSS end.
    var s1 := Add(r[0].size, sdataSize);
    var s2 := Add(s1, r[1].size);
    var s3 := Add(s2, sdata2Size);
    var s4 := Add(s3, r[2].size);
    AddAssociative(bssAddress, r[0].size, sdataSize);
    AddAssociative(bssAddress, s1, r[1].size);
    AddAssociative(bssAddress, s2, sdata2Size);
    AddAssociative(bssAddress, s3, r[2].size);
    assert Add(bssAddress, s4) == Add(bssAddress, bssSize);
    AddCancel(bssAddress, s4, bssSize);
  }

  /** The tiling fixes every address and size: `Split` is the only sequence
      of regions that tiles the range. */
  lemma TilingIsUnique(r: seq<BssRegion>, bssAddress: Word, bssSize: Word,
                       sdataAddress: Word, sdataSize: Word, sdata2Address: Word, sdata2Size: Word)
    requires Tiles(r, bssAddress, bssSize, sdataAddress, sdataSize, sdata2Address, sdata2Size)
    ensures r == Split(bssAddress, bssSize, sdataAddress, sdataSize, sdata2Address, sdata2Size)
  {
    var s := Split(bssAddress, bssSize, sdataAddress, sdataSize, sdata2Address, sdata2Size);
    forall j | 0 <= j < 3 ensures r[j] == s[j] {
      AddSub(r[j].address, r[j].size);
      AddSub(s[j].address, s[j].size);
    }
  }

  /** When the two small-data segments lie in the BSS range in ascending order
      and nothing runs past the top of the address space, no arithmetic wraps:
      each region's size is the plain difference of its bounds, the regions
      stay inside the BSS range without overlapping the small-data segments,
      and the five pieces add up to the BSS size exactly. */
  lemma OrderedGeometryNoWrap(r: seq<BssRegion>, bssAddress: Word, bssSize: Word,
                              sdataAddress: Word, sdataSize: Word, sdata2Address: Word, sdata2Size: Word)
    requires Tiles(r, bssAddress, bssSize, sdataAddress, sdataSize, sdata2Address, sdata2Size)
    requires bssAddress <= sdataAddress
    requires sdataAddress + sdataSize <= sdata2Address
    requires sdata2Address + sdata2Size <= bssAddress + bssSize < WORD_MODULUS
    ensures r[0].size == sdataAddress - bssAddress
    ensures r[1].address == sdataAddress + sdataSize && r[1].size == sdata2Address - r[1].address
    ensures r[2].address == sdata2Address + sdata2Size && r[2].size == bssAddress + bssSize - r[2].address
    ensures forall j :: 0 <= j < 3 ==>
      bssAddress <= r[j].address && r[j].address + r[j].size <= bssAddress + bssSize
    ensures r[0].size + sdataSize + r[1].size + sdata2Size + r[2].size == bssSize
  {
  }

  /** No check of the geometry is made: when `sdata` starts below the BSS
      range, the `.bss` size underflows and the region runs past the top of
      the 32-bit address space. */
  lemma MisorderedGeometryWraps(r: seq<BssRegion>, bssAddress: Word, bssSize: Word,
                                sdataAddress: Word, sdataSize: Word, sdata2Address: Word, sdata2Size: Word)
    requires Tiles(r, bssAddress, bssSize, sdataAddress, sdataSize, sdata2Address, sdata2Size)
    requires sdataAddress < bssAddress
    ensures r[0].size == sdataAddress - bssAddress + WORD_MODULUS
    ensures r[0].address + r[0].size >= WORD_MODULUS
  {
  }

  /** An example: BSS at 0x80003100 of size 0x200 with `sdata` at 0x80003000
      gives a `.bss` region of size 0xFFFFFF00. */
  lemma MisorderedExample()
    ensures Split(0x8000_3100, 0x200, 0x8000_3000, 0x50, 0x8000_3080, 0x20)[0].size == 0xFFFF_FF00
  {
  }
}
