/** The program-header builder: one `PT_LOAD` entry per non-empty text
    slot, then per non-empty data slot, then per BSS region. */
module ProgramHeaders {
  import opened ByteOrder
  import opened Elf32
  import opened Dol
  import opened BssSplit
  import opened ElfImage

  const ALIGN: bv32 := 0

  /** The entry for a file-backed segment: loaded from the segment's DOL file
      offset moved by `dolOffset`, at the segment's address. The text and
      data entries differ only in their flags. */
  function LoadPhdr(offset: Be32, address: Be32, size: Be32, flags: Be32, dolOffset: Word): Phdr
  {
    Phdr(Field(PT_LOAD), Htonl(Add(Ntohl(offset), dolOffset)), address, address, size, size,
         flags, Field(ALIGN))
  }

  /** The entry for text slot `i`. */
  function TextPhdr(d: DolHeader, i: nat, dolOffset: Word): Phdr
    requires d.Valid() && i < TEXT_COUNT
  {
    LoadPhdr(d.textOffset[i], d.textAddress[i], d.textSize[i], Field(PF_X | PF_R), dolOffset)
  }

  /** The entry for data slot `i`. */
  function DataPhdr(d: DolHeader, i: nat, dolOffset: Word): Phdr
    requires d.Valid() && i < DATA_COUNT
  {
    LoadPhdr(d.dataOffset[i], d.dataAddress[i], d.dataSize[i], Field(PF_R | PF_W), dolOffset)
  }

  /** The zero-fill entry for a BSS region given in host order. */
  function BssPhdr(address: Word, size: Word): Phdr
  {
    Phdr(Field(PT_LOAD), ZERO, Htonl(address), Htonl(address), ZERO, Htonl(size),
         Field(PF_R | PF_W), Field(ALIGN))
  }

  /** Parallel slot arrays of one kind (text or data). */
  predicate Slots(offsets: seq<Be32>, addresses: seq<Be32>, sizes: seq<Be32>, n: nat)
  {
    |offsets| == |sizes| && |addresses| == |sizes| && n <= |sizes|
  }

  /** The entries a builder loop appends while visiting the first `n` slots. */
  function LoadPhdrs(offsets: seq<Be32>, addresses: seq<Be32>, sizes: seq<Be32>, n: nat,
                     flags: Be32, dolOffset: Word): seq<Phdr>
    requires Slots(offsets, addresses, sizes, n)
  {
    if n == 0 then []
    else
      LoadPhdrs(offsets, addresses, sizes, n - 1, flags, dolOffset)
        + (if sizes[n - 1] != ZERO
           then [LoadPhdr(offsets[n - 1], addresses[n - 1], sizes[n - 1], flags, dolOffset)]
           else [])
  }

  /** The loop emits one entry per non-empty slot. */
  lemma {:induction false} LoadPhdrsLength(offsets: seq<Be32>, addresses: seq<Be32>, sizes: seq<Be32>,
                                           n: nat, flags: Be32, dolOffset: Word)
    requires Slots(offsets, addresses, sizes, n)
    ensures |LoadPhdrs(offsets, addresses, sizes, n, flags, dolOffset)| == |NonZeroSlots(sizes, n)|
  {
    if n > 0 {
      LoadPhdrsLength(offsets, addresses, sizes, n - 1, flags, dolOffset);
    }
  }

  /** Visiting more slots never removes entries. */
  lemma {:induction false} LoadPhdrsGrow(offsets: seq<Be32>, addresses: seq<Be32>, sizes: seq<Be32>,
                                         i: nat, j: nat, flags: Be32, dolOffset: Word)
    requires i <= j && Slots(offsets, addresses, sizes, j)
    ensures |LoadPhdrs(offsets, addresses, sizes, i, flags, dolOffset)|
            <= |LoadPhdrs(offsets, addresses, sizes, j, flags, dolOffset)|
    decreases j - i
  {
    if i < j {
      LoadPhdrsGrow(offsets, addresses, sizes, i, j - 1, flags, dolOffset);
    }
  }

  /** The loop emits exactly one entry per non-empty slot, in ascending slot
      order: entry `k` is that of the `k`-th non-empty slot. */
  lemma {:induction false} LoadPhdrsSlots(offsets: seq<Be32>, addresses: seq<Be32>, sizes: seq<Be32>,
                                          n: nat, flags: Be32, dolOffset: Word)
    requires Slots(offsets, addresses, sizes, n)
    ensures var t, s := LoadPhdrs(offsets, addresses, sizes, n, flags, dolOffset), NonZeroSlots(sizes, n);
      |t| == |s| &&
      forall k :: 0 <= k < |s| ==>
        t[k] == LoadPhdr(offsets[s[k]], addresses[s[k]], sizes[s[k]], flags, dolOffset)
  {
    if n > 0 {
      LoadPhdrsSlots(offsets, addresses, sizes, n - 1, flags, dolOffset);
    }
  }

  function TextPhdrs(d: DolHeader, dolOffset: Word): seq<Phdr>
    requires d.Valid()
  {
    LoadPhdrs(d.textOffset, d.textAddress, d.textSize, |d.textSize|, Field(PF_X | PF_R), dolOffset)
  }

  function DataPhdrs(d: DolHeader, dolOffset: Word): seq<Phdr>
    requires d.Valid()
  {
    LoadPhdrs(d.dataOffset, d.dataAddress, d.dataSize, |d.dataSize|, Field(PF_R | PF_W), dolOffset)
  }

  function BssPhdrs(regions: seq<BssRegion>): seq<Phdr>
  {
    seq(|regions|, k requires 0 <= k < |regions| => BssPhdr(regions[k].address, regions[k].size))
  }

  /** The program-header table `create_phdrs` writes. */
  function PhdrTable(d: DolHeader, useBssFix: bool, dolOffset: Word): seq<Phdr>
    requires d.Valid() && CanSplit(d, useBssFix)
  {
    TextPhdrs(d, dolOffset) + DataPhdrs(d, dolOffset) + BssPhdrs(BssRegions(d, DataCount(d), useBssFix))
  }

  /** A file-backed load entry, read in host order. */
  predicate IsFileLoad(p: Phdr, offset: Word, address: Word, size: Word, flags: bv32)
  {
    Ntohl(p.pType) == PT_LOAD as int && Ntohl(p.pOffset) == offset &&
    Ntohl(p.pVaddr) == address && Ntohl(p.pPaddr) == address &&
    Ntohl(p.pFilesz) == size && Ntohl(p.pMemsz) == size &&
    Ntohl(p.pFlags) == flags as int && Ntohl(p.pAlign) == 0
  }

  /** A zero-fill load entry with no file content, read in host order. */
  predicate IsZeroFillLoad(p: Phdr, address: Word, size: Word)
  {
    Ntohl(p.pType) == PT_LOAD as int && Ntohl(p.pOffset) == 0 &&
    Ntohl(p.pVaddr) == address && Ntohl(p.pPaddr) == address &&
    Ntohl(p.pFilesz) == 0 && Ntohl(p.pMemsz) == size &&
    Ntohl(p.pFlags) == (PF_R | PF_W) as int && Ntohl(p.pAlign) == 0
  }

  /** A segment's entry, read in host order, loads its bytes from the DOL
      file offset plus `dolOffset`, at its address, with the given flags. */
  lemma LoadPhdrIsFileLoad(offset: Be32, address: Be32, size: Be32, flags: bv32, dolOffset: Word)
    ensures IsFileLoad(LoadPhdr(offset, address, size, Field(flags), dolOffset),
                       Add(Ntohl(offset), dolOffset), Ntohl(address), Ntohl(size), flags)
  {
  }

  /** A BSS entry zero-fills its region. */
  lemma BssPhdrIsZeroFill(address: Word, size: Word)
    ensures IsZeroFillLoad(BssPhdr(address, size), address, size)
  {
  }

  /** The table holds one entry per non-empty text slot, one per non-empty
      data slot and one per BSS region: 0, 1 or 3 of those. */
  lemma PhdrCount(d: DolHeader, useBssFix: bool, dolOffset: Word)
    requires d.Valid() && CanSplit(d, useBssFix)
    ensures |PhdrTable(d, useBssFix, dolOffset)|
            == |TextSlots(d)| + DataCount(d) + BssCount(d.bssSize, useBssFix)
  {
    LoadPhdrsSlots(d.textOffset, d.textAddress, d.textSize, |d.textSize|, Field(PF_X | PF_R), dolOffset);
    LoadPhdrsSlots(d.dataOffset, d.dataAddress, d.dataSize, |d.dataSize|, Field(PF_R | PF_W), dolOffset);
  }

  /** Entry `k`, for `k` below the number of non-empty text slots, loads the
      `k`-th non-empty text slot, readable and executable. */
  lemma PhdrTextEntry(d: DolHeader, useBssFix: bool, dolOffset: Word, k: nat)
    requires d.Valid() && CanSplit(d, useBssFix)
    requires k < |TextSlots(d)|
    ensures var i, t := TextSlots(d)[k], PhdrTable(d, useBssFix, dolOffset);
      k < |t| &&
      IsFileLoad(t[k], Add(Ntohl(d.textOffset[i]), dolOffset),
                 Ntohl(d.textAddress[i]), Ntohl(d.textSize[i]), PF_R | PF_X)
  {
    var i := TextSlots(d)[k];
    var tp, dp := TextPhdrs(d, dolOffset), DataPhdrs(d, dolOffset);
    var bp := BssPhdrs(BssRegions(d, DataCount(d), useBssFix));
    LoadPhdrsSlots(d.textOffset, d.textAddress, d.textSize, |d.textSize|, Field(PF_X | PF_R), dolOffset);
    assert (tp + dp + bp)[k] == tp[k];
    LoadPhdrIsFileLoad(d.textOffset[i], d.textAddress[i], d.textSize[i], PF_X | PF_R, dolOffset);
  }

  /** The data entries follow the text entries: entry `|TextSlots(d)| + k`
      loads the `k`-th non-empty data slot, readable and writable. */
  lemma PhdrDataEntry(d: DolHeader, useBssFix: bool, dolOffset: Word, k: nat)
    requires d.Valid() && CanSplit(d, useBssFix)
    requires k < DataCount(d)
    ensures var i, t := DataSlots(d)[k], PhdrTable(d, useBssFix, dolOffset);
      |TextSlots(d)| + k < |t| &&
      IsFileLoad(t[|TextSlots(d)| + k], Add(Ntohl(d.dataOffset[i]), dolOffset),
                 Ntohl(d.dataAddress[i]), Ntohl(d.dataSize[i]), PF_R | PF_W)
  {
    var i := DataSlots(d)[k];
    var tp, dp := TextPhdrs(d, dolOffset), DataPhdrs(d, dolOffset);
    var bp := BssPhdrs(BssRegions(d, DataCount(d), useBssFix));
    LoadPhdrsSlots(d.textOffset, d.textAddress, d.textSize, |d.textSize|, Field(PF_X | PF_R), dolOffset);
    LoadPhdrsSlots(d.dataOffset, d.dataAddress, d.dataSize, |d.dataSize|, Field(PF_R | PF_W), dolOffset);
    assert (tp + dp + bp)[|tp| + k] == dp[k];
    LoadPhdrIsFileLoad(d.dataOffset[i], d.dataAddress[i], d.dataSize[i], PF_R | PF_W, dolOffset);
  }

  /** The BSS entries close the table: entry `|TextSlots(d)| + DataCount(d) + j`
      zero-fills the `j`-th BSS region. */
  lemma PhdrBssEntry(d: DolHeader, useBssFix: bool, dolOffset: Word, j: nat)
    requires d.Valid() && CanSplit(d, useBssFix)
    requires j < BssCount(d.bssSize, useBssFix)
    ensures var r, t := BssRegions(d, DataCount(d), useBssFix), PhdrTable(d, useBssFix, dolOffset);
      |TextSlots(d)| + DataCount(d) + j < |t| &&
      IsZeroFillLoad(t[|TextSlots(d)| + DataCount(d) + j], r[j].address, r[j].size)
  {
    var r := BssRegions(d, DataCount(d), useBssFix);
    var tp, dp, bp := TextPhdrs(d, dolOffset), DataPhdrs(d, dolOffset), BssPhdrs(r);
    LoadPhdrsSlots(d.textOffset, d.textAddress, d.textSize, |d.textSize|, Field(PF_X | PF_R), dolOffset);
    LoadPhdrsSlots(d.dataOffset, d.dataAddress, d.dataSize, |d.dataSize|, Field(PF_R | PF_W), dolOffset);
    assert (tp + dp + bp)[|tp| + |dp| + j] == bp[j];
    BssPhdrIsZeroFill(r[j].address, r[j].size);
  }

  /** Without the fix, a non-empty BSS gives exactly one last entry, which
      carries the DOL's BSS address and size words unchanged. */
  lemma SingleBssEntry(d: DolHeader, dolOffset: Word)
    requires d.Valid() && d.bssSize != ZERO
    ensures var t := PhdrTable(d, false, dolOffset);
      |t| == |TextSlots(d)| + DataCount(d) + 1 &&
      t[|t| - 1].pVaddr == d.bssAddress && t[|t| - 1].pPaddr == d.bssAddress &&
      t[|t| - 1].pMemsz == d.bssSize && t[|t| - 1].pFilesz == ZERO
  {
    PhdrCount(d, false, dolOffset);
    UnsplitRegion(d, DataCount(d));
    var t := PhdrTable(d, false, dolOffset);
    var r := BssRegions(d, DataCount(d), false);
    assert t[|t| - 1] == BssPhdrs(r)[0];
  }

  /** One of the two slot loops of `create_phdrs`: visits every slot in
      order and writes the entry of each non-empty one at the next free index,
      starting at `start`. Returns the next free index and the number of
      entries written. */
  method AppendLoads(phdrs: array<Phdr>, start: nat, offsets: seq<Be32>, addresses: seq<Be32>,
                     sizes: seq<Be32>, flags: Be32, dolOffset: Word)
    returns (phindex: nat, count: nat)
    requires Slots(offsets, addresses, sizes, |sizes|)
    requires start + |NonZeroSlots(sizes, |sizes|)| <= phdrs.Length
    modifies phdrs
    ensures count == |NonZeroSlots(sizes, |sizes|)| && phindex == start + count
    ensures phdrs[..phindex]
            == old(phdrs[..start]) + LoadPhdrs(offsets, addresses, sizes, |sizes|, flags, dolOffset)
    ensures phdrs[phindex..] == old(phdrs[phindex..])
  {
    ghost var prefix := phdrs[..start];
    ghost var all := LoadPhdrs(offsets, addresses, sizes, |sizes|, flags, dolOffset);
    LoadPhdrsLength(offsets, addresses, sizes, |sizes|, flags, dolOffset);
    phindex, count := start, 0;
    for i := 0 to |sizes|
      invariant phindex == start + count && count <= |all|
      invariant phdrs[..phindex] == prefix + LoadPhdrs(offsets, addresses, sizes, i, flags, dolOffset)
      invariant forall j :: phindex <= j < phdrs.Length ==> phdrs[j] == old(phdrs[j])
    {
      LoadPhdrsGrow(offsets, addresses, sizes, i + 1, |sizes|, flags, dolOffset);
      if sizes[i] != ZERO {
        phdrs[phindex] := LoadPhdr(offsets[i], addresses[i], sizes[i], flags, dolOffset);
        phindex, count := phindex + 1, count + 1;
      }
    }
  }

  /** The BSS stage of `create_phdrs`: nothing for an empty BSS, otherwise
      the three split entries or the single unsplit one, written from index
      `start` on. */
  method AppendBssLoads(phdrs: array<Phdr>, start: nat, d: DolHeader, dataCount: nat, useBssFix: bool)
    returns (phindex: nat)
    requires d.Valid() && dataCount <= DATA_COUNT && (d.bssSize != ZERO && useBssFix ==> 2 <= dataCount)
    requires start + BssCount(d.bssSize, useBssFix) <= phdrs.Length
    modifies phdrs
    ensures phindex == start + BssCount(d.bssSize, useBssFix)
    ensures phdrs[..phindex] == old(phdrs[..start]) + BssPhdrs(BssRegions(d, dataCount, useBssFix))
    ensures phdrs[phindex..] == old(phdrs[phindex..])
  {
    var regions := BssRegions(d, dataCount, useBssFix);
    phindex := start;
    if d.bssSize != ZERO {
      if useBssFix {
        phdrs[phindex] := BssPhdr(regions[0].address, regions[0].size);
        phdrs[phindex + 1] := BssPhdr(regions[1].address, regions[1].size);
        phdrs[phindex + 2] := BssPhdr(regions[2].address, regions[2].size);
        phindex := phindex + 3;
      } else {
        phdrs[phindex] := BssPhdr(regions[0].address, regions[0].size);
        phindex := phindex + 1;
      }
    }
    assert phdrs[..phindex] == phdrs[..start] + BssPhdrs(regions);
  }

  /** `create_phdrs`: allocates `phnum` entries and fills them in order:
      text, data, BSS. `ok` is false exactly when the final count check
      fails, i.e. when the number of entries written differs from `phnum`. */
  method CreatePhdrs(d: DolHeader, elf: Elf, useBssFix: bool) returns (ok: bool)
    requires d.Valid() && CanSplit(d, useBssFix)
    requires |PhdrTable(d, useBssFix, elf.dolOffset)| <= elf.phnum
    modifies elf`phdrs
    ensures fresh(elf.phdrs) && elf.phdrs.Length == elf.phnum
    ensures elf.phdrs[..|PhdrTable(d, useBssFix, elf.dolOffset)|] == PhdrTable(d, useBssFix, elf.dolOffset)
    ensures ok <==> elf.phnum == |PhdrTable(d, useBssFix, elf.dolOffset)|
  {
    var off := elf.dolOffset;
    PhdrCount(d, useBssFix, off);
    var phdrs := new Phdr[elf.phnum];
    elf.phdrs := phdrs;
    var phindex, dataCount, textCount;
    phindex, textCount := AppendLoads(phdrs, 0, d.textOffset, d.textAddress, d.textSize, Field(PF_X | PF_R), off);
    phindex, dataCount := AppendLoads(phdrs, phindex, d.dataOffset, d.dataAddress, d.dataSize, Field(PF_R | PF_W), off);
    ghost var loadPart := phdrs[..phindex];
    assert loadPart == TextPhdrs(d, off) + DataPhdrs(d, off);
    phindex := AppendBssLoads(phdrs, phindex, d, dataCount, useBssFix);
    assert phdrs[..phindex] == PhdrTable(d, useBssFix, off);
    ok := phindex == elf.phnum;
  }
}
