/** The section-header builder: the null section, `.shstrtab`, one section
    per non-empty text slot and per non-empty data slot, the BSS sections,
    and `.dolhdr` covering the embedded DOL header. */
module SectionHeaders {
  import opened ByteOrder
  import opened Elf32
  import opened Dol
  import opened BssSplit
  import opened ElfImage

  /** The entry with every numeric field zero except the name. */
  function NullShdr(st: StringTable): Shdr
  {
    Shdr(Htonl(st.index("")), Field(SHT_NULL), ZERO, ZERO, ZERO, ZERO, ZERO, ZERO, ZERO, ZERO)
  }

  /** The section-name string table itself. */
  function StrtabShdr(st: StringTable, strtabOffset: Word): Shdr
  {
    Shdr(Htonl(st.index(".shstrtab")), Field(SHT_STRTAB), ZERO, ZERO,
         Htonl(strtabOffset), Htonl(st.used), ZERO, ZERO, ZERO, ZERO)
  }

  /** The section for a file-backed segment: its bytes lie at the segment's
      DOL file offset moved by `dolOffset`. Text and data sections differ
      in their names and flags. */
  function LoadShdr(name: string, offset: Be32, address: Be32, size: Be32, flags: Be32,
                    st: StringTable, dolOffset: Word): Shdr
  {
    Shdr(Htonl(st.index(name)), Field(SHT_PROGBITS), flags, address,
         Htonl(Add(Ntohl(offset), dolOffset)), size, ZERO, ZERO, ZERO, ZERO)
  }

  /** The section for text slot `i`. */
  function TextShdr(d: DolHeader, names: SectionNames, i: nat, st: StringTable, dolOffset: Word): Shdr
    requires d.Valid() && names.Valid() && i < TEXT_COUNT
  {
    LoadShdr(names.text[i], d.textOffset[i], d.textAddress[i], d.textSize[i],
             Field(SHF_ALLOC | SHF_EXECINSTR), st, dolOffset)
  }

  /** The section for data slot `i`. */
  function DataShdr(d: DolHeader, names: SectionNames, i: nat, st: StringTable, dolOffset: Word): Shdr
    requires d.Valid() && names.Valid() && i < DATA_COUNT
  {
    LoadShdr(names.data[i], d.dataOffset[i], d.dataAddress[i], d.dataSize[i],
             Field(SHF_ALLOC | SHF_WRITE), st, dolOffset)
  }

  /** A zero-filled section; its file offset is that of the DOL header. */
  function BssShdr(r: BssRegion, st: StringTable, dolOffset: Word): Shdr
  {
    Shdr(Htonl(st.index(r.name)), Field(SHT_NOBITS), Field(SHF_ALLOC | SHF_WRITE),
         Htonl(r.address), Htonl(dolOffset), Htonl(r.size), ZERO, ZERO, ZERO, ZERO)
  }

  /** The section covering the DOL header embedded in the image. */
  function DolShdr(st: StringTable, dolOffset: Word): Shdr
  {
    Shdr(Htonl(st.index(".dolhdr")), Field(SHT_PROGBITS), ZERO, ZERO,
         Htonl(dolOffset), Htonl(DOL_HDR_SIZE), ZERO, ZERO, ZERO, ZERO)
  }

  /** Parallel slot arrays of one kind with their section names. */
  predicate NamedSlots(names: seq<string>, offsets: seq<Be32>, addresses: seq<Be32>,
                       sizes: seq<Be32>, n: nat)
  {
    |names| == |sizes| && |offsets| == |sizes| && |addresses| == |sizes| && n <= |sizes|
  }

  /** The sections a builder loop appends while visiting the first `n` slots. */
  function LoadShdrs(names: seq<string>, offsets: seq<Be32>, addresses: seq<Be32>, sizes: seq<Be32>,
                     n: nat, flags: Be32, st: StringTable, dolOffset: Word): seq<Shdr>
    requires NamedSlots(names, offsets, addresses, sizes, n)
  {
    if n == 0 then []
    else
      LoadShdrs(names, offsets, addresses, sizes, n - 1, flags, st, dolOffset)
        + (if sizes[n - 1] != ZERO
           then [LoadShdr(names[n - 1], offsets[n - 1], addresses[n - 1], sizes[n - 1], flags, st, dolOffset)]
           else [])
  }

  /** The loop emits one section per non-empty slot. */
  lemma {:induction false} LoadShdrsLength(names: seq<string>, offsets: seq<Be32>, addresses: seq<Be32>,
                                           sizes: seq<Be32>, n: nat, flags: Be32, st: StringTable,
                                           dolOffset: Word)
    requires NamedSlots(names, offsets, addresses, sizes, n)
    ensures |LoadShdrs(names, offsets, addresses, sizes, n, flags, st, dolOffset)| == |NonZeroSlots(sizes, n)|
  {
    if n > 0 {
      LoadShdrsLength(names, offsets, addresses, sizes, n - 1, flags, st, dolOffset);
    }
  }

  /** Visiting more slots never removes sections. */
  lemma {:induction false} LoadShdrsGrow(names: seq<string>, offsets: seq<Be32>, addresses: seq<Be32>,
                                         sizes: seq<Be32>, i: nat, j: nat, flags: Be32, st: StringTable,
                                         dolOffset: Word)
    requires i <= j && NamedSlots(names, offsets, addresses, sizes, j)
    ensures |LoadShdrs(names, offsets, addresses, sizes, i, flags, st, dolOffset)|
            <= |LoadShdrs(names, offsets, addresses, sizes, j, flags, st, dolOffset)|
    decreases j - i
  {
    if i < j {
      LoadShdrsGrow(names, offsets, addresses, sizes, i, j - 1, flags, st, dolOffset);
    }
  }

  /** Section `k` of the loop's output is that of the `k`-th non-empty slot. */
  lemma {:induction false} LoadShdrsSlots(names: seq<string>, offsets: seq<Be32>, addresses: seq<Be32>,
                                          sizes: seq<Be32>, n: nat, flags: Be32, st: StringTable,
                                          dolOffset: Word)
    requires NamedSlots(names, offsets, addresses, sizes, n)
    ensures var t, s := LoadShdrs(names, offsets, addresses, sizes, n, flags, st, dolOffset), NonZeroSlots(sizes, n);
      |t| == |s| &&
      forall k :: 0 <= k < |s| ==>
        t[k] == LoadShdr(names[s[k]], offsets[s[k]], addresses[s[k]], sizes[s[k]], flags, st, dolOffset)
  {
    if n > 0 {
      LoadShdrsSlots(names, offsets, addresses, sizes, n - 1, flags, st, dolOffset);
    }
  }

  function TextShdrs(d: DolHeader, names: SectionNames, st: StringTable, dolOffset: Word): seq<Shdr>
    requires d.Valid() && names.Valid()
  {
    LoadShdrs(names.text, d.textOffset, d.textAddress, d.textSize, |d.textSize|,
              Field(SHF_ALLOC | SHF_EXECINSTR), st, dolOffset)
  }

  function DataShdrs(d: DolHeader, names: SectionNames, st: StringTable, dolOffset: Word): seq<Shdr>
    requires d.Valid() && names.Valid()
  {
    LoadShdrs(names.data, d.dataOffset, d.dataAddress, d.dataSize, |d.dataSize|,
              Field(SHF_ALLOC | SHF_WRITE), st, dolOffset)
  }

  function BssShdrs(regions: seq<BssRegion>, st: StringTable, dolOffset: Word): seq<Shdr>
  {
    seq(|regions|, k requires 0 <= k < |regions| => BssShdr(regions[k], st, dolOffset))
  }

  /** The section-header table `create_shdrs` writes. */
  function ShdrTable(d: DolHeader, names: SectionNames, useBssFix: bool, st: StringTable,
                     dolOffset: Word, strtabOffset: Word): seq<Shdr>
    requires d.Valid() && names.Valid() && CanSplit(d, useBssFix)
  {
    [NullShdr(st), StrtabShdr(st, strtabOffset)]
      + TextShdrs(d, names, st, dolOffset) + DataShdrs(d, names, st, dolOffset)
      + BssShdrs(BssRegions(d, DataCount(d), useBssFix), st, dolOffset)
      + [DolShdr(st, dolOffset)]
  }

  /** A section, read in host order, with no link, info, alignment or entry size. */
  predicate IsSection(s: Shdr, name: Word, kind: bv32, flags: bv32, address: Word, offset: Word, size: Word)
  {
    Ntohl(s.shName) == name && Ntohl(s.shType) == kind as int && Ntohl(s.shFlags) == flags as int &&
    Ntohl(s.shAddr) == address && Ntohl(s.shOffset) == offset && Ntohl(s.shSize) == size &&
    Ntohl(s.shLink) == 0 && Ntohl(s.shInfo) == 0 && Ntohl(s.shAddralign) == 0 && Ntohl(s.shEntsize) == 0
  }

  lemma NullShdrIsNull(st: StringTable)
    ensures IsSection(NullShdr(st), st.index(""), SHT_NULL, 0, 0, 0, 0)
  {
  }

  lemma StrtabShdrIsStrtab(st: StringTable, strtabOffset: Word)
    ensures IsSection(StrtabShdr(st, strtabOffset), st.index(".shstrtab"), SHT_STRTAB, 0, 0,
                      strtabOffset, st.used)
  {
  }

  lemma LoadShdrIsProgbits(name: string, offset: Be32, address: Be32, size: Be32, flags: bv32,
                           st: StringTable, dolOffset: Word)
    ensures IsSection(LoadShdr(name, offset, address, size, Field(flags), st, dolOffset),
                      st.index(name), SHT_PROGBITS, flags, Ntohl(address),
                      Add(Ntohl(offset), dolOffset), Ntohl(size))
  {
  }

  lemma BssShdrIsNobits(r: BssRegion, st: StringTable, dolOffset: Word)
    ensures IsSection(BssShdr(r, st, dolOffset), st.index(r.name), SHT_NOBITS, SHF_ALLOC | SHF_WRITE,
                      r.address, dolOffset, r.size)
  {
  }

  lemma DolShdrIsProgbits(st: StringTable, dolOffset: Word)
    ensures IsSection(DolShdr(st, dolOffset), st.index(".dolhdr"), SHT_PROGBITS, 0, 0,
                      dolOffset, DOL_HDR_SIZE)
  {
  }

  /** The table holds the null and `.shstrtab` sections, one section per
      non-empty text and data slot, 0, 1 or 3 BSS sections, and `.dolhdr`. */
  lemma ShdrCount(d: DolHeader, names: SectionNames, useBssFix: bool, st: StringTable,
                  dolOffset: Word, strtabOffset: Word)
    requires d.Valid() && names.Valid() && CanSplit(d, useBssFix)
    ensures |ShdrTable(d, names, useBssFix, st, dolOffset, strtabOffset)|
            == 3 + |TextSlots(d)| + DataCount(d) + BssCount(d.bssSize, useBssFix)
  {
    LoadShdrsLength(names.text, d.textOffset, d.textAddress, d.textSize, |d.textSize|,
                    Field(SHF_ALLOC | SHF_EXECINSTR), st, dolOffset);
    LoadShdrsLength(names.data, d.dataOffset, d.dataAddress, d.dataSize, |d.dataSize|,
                    Field(SHF_ALLOC | SHF_WRITE), st, dolOffset);
  }

  /** The first two sections are the null section and the string table, and
      the last one is `.dolhdr`, which covers the DOL header at `dolOffset`. */
  lemma ShdrFixedEntries(d: DolHeader, names: SectionNames, useBssFix: bool, st: StringTable,
                         dolOffset: Word, strtabOffset: Word)
    requires d.Valid() && names.Valid() && CanSplit(d, useBssFix)
    ensures var t := ShdrTable(d, names, useBssFix, st, dolOffset, strtabOffset);
      3 <= |t| &&
      IsSection(t[0], st.index(""), SHT_NULL, 0, 0, 0, 0) &&
      IsSection(t[1], st.index(".shstrtab"), SHT_STRTAB, 0, 0, strtabOffset, st.used) &&
      IsSection(t[|t| - 1], st.index(".dolhdr"), SHT_PROGBITS, 0, 0, dolOffset, DOL_HDR_SIZE)
  {
    NullShdrIsNull(st);
    StrtabShdrIsStrtab(st, strtabOffset);
    DolShdrIsProgbits(st, dolOffset);
  }

  /** Section `2 + k`, for `k` below the number of non-empty text slots, is
      the `k`-th non-empty text slot, named after it, allocated and executable. */
  lemma ShdrTextEntry(d: DolHeader, names: SectionNames, useBssFix: bool, st: StringTable,
                      dolOffset: Word, strtabOffset: Word, k: nat)
    requires d.Valid() && names.Valid() && CanSplit(d, useBssFix)
    requires k < |TextSlots(d)|
    ensures var i, t := TextSlots(d)[k], ShdrTable(d, names, useBssFix, st, dolOffset, strtabOffset);
      2 + k < |t| &&
      IsSection(t[2 + k], st.index(names.text[i]), SHT_PROGBITS, SHF_ALLOC | SHF_EXECINSTR,
                Ntohl(d.textAddress[i]), Add(Ntohl(d.textOffset[i]), dolOffset), Ntohl(d.textSize[i]))
  {
    var i := TextSlots(d)[k];
    var fixed := [NullShdr(st), StrtabShdr(st, strtabOffset)];
    var tx, dt := TextShdrs(d, names, st, dolOffset), DataShdrs(d, names, st, dolOffset);
    var bs := BssShdrs(BssRegions(d, DataCount(d), useBssFix), st, dolOffset);
    LoadShdrsSlots(names.text, d.textOffset, d.textAddress, d.textSize, |d.textSize|,
                   Field(SHF_ALLOC | SHF_EXECINSTR), st, dolOffset);
    assert (fixed + tx + dt + bs + [DolShdr(st, dolOffset)])[2 + k] == tx[k];
    LoadShdrIsProgbits(names.text[i], d.textOffset[i], d.textAddress[i], d.textSize[i],
                       SHF_ALLOC | SHF_EXECINSTR, st, dolOffset);
  }

  /** The data sections follow the text sections: section
      `2 + |TextSlots(d)| + k` is the `k`-th non-empty data slot, allocated
      and writable. */
  lemma ShdrDataEntry(d: DolHeader, names: SectionNames, useBssFix: bool, st: StringTable,
                      dolOffset: Word, strtabOffset: Word, k: nat)
    requires d.Valid() && names.Valid() && CanSplit(d, useBssFix)
    requires k < DataCount(d)
    ensures var i, t := DataSlots(d)[k], ShdrTable(d, names, useBssFix, st, dolOffset, strtabOffset);
      2 + |TextSlots(d)| + k < |t| &&
      IsSection(t[2 + |TextSlots(d)| + k], st.index(names.data[i]), SHT_PROGBITS, SHF_ALLOC | SHF_WRITE,
                Ntohl(d.dataAddress[i]), Add(Ntohl(d.dataOffset[i]), dolOffset), Ntohl(d.dataSize[i]))
  {
    var i := DataSlots(d)[k];
    var fixed := [NullShdr(st), StrtabShdr(st, strtabOffset)];
    var tx, dt := TextShdrs(d, names, st, dolOffset), DataShdrs(d, names, st, dolOffset);
    var bs := BssShdrs(BssRegions(d, DataCount(d), useBssFix), st, dolOffset);
    LoadShdrsLength(names.text, d.textOffset, d.textAddress, d.textSize, |d.textSize|,
                    Field(SHF_ALLOC | SHF_EXECINSTR), st, dolOffset);
    LoadShdrsSlots(names.data, d.dataOffset, d.dataAddress, d.dataSize, |d.dataSize|,
                   Field(SHF_ALLOC | SHF_WRITE), st, dolOffset);
    assert (fixed + tx + dt + bs + [DolShdr(st, dolOffset)])[2 + |tx| + k] == dt[k];
    LoadShdrIsProgbits(names.data[i], d.dataOffset[i], d.dataAddress[i], d.dataSize[i],
                       SHF_ALLOC | SHF_WRITE, st, dolOffset);
  }

  /** The BSS sections come next: section `2 + |TextSlots(d)| + DataCount(d) + j`
      is the `j`-th BSS region, named after it, with no file content of its
      own and the DOL header's file offset. */
  lemma ShdrBssEntry(d: DolHeader, names: SectionNames, useBssFix: bool, st: StringTable,
                     dolOffset: Word, strtabOffset: Word, j: nat)
    requires d.Valid() && names.Valid() && CanSplit(d, useBssFix)
    requires j < BssCount(d.bssSize, useBssFix)
    ensures var r, t := BssRegions(d, DataCount(d), useBssFix),
                        ShdrTable(d, names, useBssFix, st, dolOffset, strtabOffset);
      2 + |TextSlots(d)| + DataCount(d) + j < |t| &&
      IsSection(t[2 + |TextSlots(d)| + DataCount(d) + j], st.index(r[j].name), SHT_NOBITS,
                SHF_ALLOC | SHF_WRITE, r[j].address, dolOffset, r[j].size)
  {
    var r := BssRegions(d, DataCount(d), useBssFix);
    var fixed := [NullShdr(st), StrtabShdr(st, strtabOffset)];
    var tx, dt := TextShdrs(d, names, st, dolOffset), DataShdrs(d, names, st, dolOffset);
    var bs := BssShdrs(r, st, dolOffset);
    LoadShdrsLength(names.text, d.textOffset, d.textAddress, d.textSize, |d.textSize|,
                    Field(SHF_ALLOC | SHF_EXECINSTR), st, dolOffset);
    LoadShdrsLength(names.data, d.dataOffset, d.dataAddress, d.dataSize, |d.dataSize|,
                    Field(SHF_ALLOC | SHF_WRITE), st, dolOffset);
    assert (fixed + tx + dt + bs + [DolShdr(st, dolOffset)])[2 + |tx| + |dt| + j] == bs[j];
    BssShdrIsNobits(r[j], st, dolOffset);
  }

  /** With the fix the three BSS sections are named `.bss`, `.sbss` and
      `.sbss2`, in that order, and `.dolhdr` follows them; without it there is
      a single `.bss` before `.dolhdr`. */
  lemma BssSectionNames(d: DolHeader, names: SectionNames, useBssFix: bool, st: StringTable,
                        dolOffset: Word, strtabOffset: Word)
    requires d.Valid() && names.Valid() && CanSplit(d, useBssFix) && d.bssSize != ZERO
    ensures var t, b := ShdrTable(d, names, useBssFix, st, dolOffset, strtabOffset),
                        2 + |TextSlots(d)| + DataCount(d);
      if useBssFix then
        |t| == b + 4 && Ntohl(t[b].shName) == st.index(".bss") &&
        Ntohl(t[b + 1].shName) == st.index(".sbss") && Ntohl(t[b + 2].shName) == st.index(".sbss2")
      else
        |t| == b + 2 && Ntohl(t[b].shName) == st.index(".bss")
  {
    ShdrCount(d, names, useBssFix, st, dolOffset, strtabOffset);
    ShdrBssEntry(d, names, useBssFix, st, dolOffset, strtabOffset, 0);
    if useBssFix {
      SplitRegionsTile(d, DataCount(d));
      ShdrBssEntry(d, names, useBssFix, st, dolOffset, strtabOffset, 1);
      ShdrBssEntry(d, names, useBssFix, st, dolOffset, strtabOffset, 2);
    } else {
      UnsplitRegion(d, DataCount(d));
    }
  }

  /** One of the two slot loops of `create_shdrs`: visits every slot in
      order and writes the section of each non-empty one at the next free
      index, starting at `start`. Returns the next free index and the number
      of sections written. */
  method AppendSections(shdrs: array<Shdr>, start: nat, names: seq<string>, offsets: seq<Be32>,
                        addresses: seq<Be32>, sizes: seq<Be32>, flags: Be32, st: StringTable,
                        dolOffset: Word)
    returns (shindex: nat, count: nat)
    requires NamedSlots(names, offsets, addresses, sizes, |sizes|)
    requires start + |NonZeroSlots(sizes, |sizes|)| <= shdrs.Length
    modifies shdrs
    ensures count == |NonZeroSlots(sizes, |sizes|)| && shindex == start + count
    ensures shdrs[..shindex]
            == old(shdrs[..start]) + LoadShdrs(names, offsets, addresses, sizes, |sizes|, flags, st, dolOffset)
    ensures shdrs[shindex..] == old(shdrs[shindex..])
  {
    ghost var prefix := shdrs[..start];
    ghost var all := LoadShdrs(names, offsets, addresses, sizes, |sizes|, flags, st, dolOffset);
    LoadShdrsLength(names, offsets, addresses, sizes, |sizes|, flags, st, dolOffset);
    shindex, count := start, 0;
    for i := 0 to |sizes|
      invariant shindex == start + count && count <= |all|
      invariant shdrs[..shindex] == prefix + LoadShdrs(names, offsets, addresses, sizes, i, flags, st, dolOffset)
      invariant forall j :: shindex <= j < shdrs.Length ==> shdrs[j] == old(shdrs[j])
    {
      LoadShdrsGrow(names, offsets, addresses, sizes, i + 1, |sizes|, flags, st, dolOffset);
      if sizes[i] != ZERO {
        shdrs[shindex] := LoadShdr(names[i], offsets[i], addresses[i], sizes[i], flags, st, dolOffset);
        shindex, count := shindex + 1, count + 1;
      }
    }
  }

  /** The BSS stage of `create_shdrs`: nothing for an empty BSS, otherwise
      the three split sections or the single `.bss` section, written from
      index `start` on. */
  method AppendBssSections(shdrs: array<Shdr>, start: nat, d: DolHeader, dataCount: nat, useBssFix: bool,
                           st: StringTable, dolOffset: Word)
    returns (shindex: nat)
    requires d.Valid() && dataCount <= DATA_COUNT && (d.bssSize != ZERO && useBssFix ==> 2 <= dataCount)
    requires start + BssCount(d.bssSize, useBssFix) <= shdrs.Length
    modifies shdrs
    ensures shindex == start + BssCount(d.bssSize, useBssFix)
    ensures shdrs[..shindex] == old(shdrs[..start]) + BssShdrs(BssRegions(d, dataCount, useBssFix), st, dolOffset)
    ensures shdrs[shindex..] == old(shdrs[shindex..])
  {
    var regions := BssRegions(d, dataCount, useBssFix);
    shindex := start;
    if d.bssSize != ZERO {
      if useBssFix {
        shdrs[shindex] := BssShdr(regions[0], st, dolOffset);
        shdrs[shindex + 1] := BssShdr(regions[1], st, dolOffset);
        shdrs[shindex + 2] := BssShdr(regions[2], st, dolOffset);
        shindex := shindex + 3;
      } else {
        shdrs[shindex] := BssShdr(regions[0], st, dolOffset);
        shindex := shindex + 1;
      }
    }
    assert shdrs[..shindex] == shdrs[..start] + BssShdrs(regions, st, dolOffset);
  }

  /** `create_shdrs`: allocates `shnum` entries and fills them in order:
      null, `.shstrtab`, text, data, BSS, `.dolhdr`. Unlike `create_phdrs` it
      does not check its count; the caller must size `shnum` for the table. */
  method CreateShdrs(d: DolHeader, names: SectionNames, elf: Elf, useBssFix: bool)
    requires d.Valid() && names.Valid() && CanSplit(d, useBssFix)
    requires |ShdrTable(d, names, useBssFix, elf.strtab, elf.dolOffset, elf.strtabOffset)| <= elf.shnum
    modifies elf`shdrs
    ensures fresh(elf.shdrs) && elf.shdrs.Length == elf.shnum
    ensures var t := ShdrTable(d, names, useBssFix, elf.strtab, elf.dolOffset, elf.strtabOffset);
      elf.shdrs[..|t|] == t
  {
    var st, off, strtabOffset := elf.strtab, elf.dolOffset, elf.strtabOffset;
    ghost var table := ShdrTable(d, names, useBssFix, st, off, strtabOffset);
    ShdrCount(d, names, useBssFix, st, off, strtabOffset);
    var shdrs := new Shdr[elf.shnum];
    elf.shdrs := shdrs;
    shdrs[0] := NullShdr(st);
    shdrs[1] := StrtabShdr(st, strtabOffset);
    assert shdrs[..2] == [NullShdr(st), StrtabShdr(st, strtabOffset)];
    var shindex, dataCount, textCount;
    shindex, textCount := AppendSections(shdrs, 2, names.text, d.textOffset, d.textAddress, d.textSize,
                                         Field(SHF_ALLOC | SHF_EXECINSTR), st, off);
    shindex, dataCount := AppendSections(shdrs, shindex, names.data, d.dataOffset, d.dataAddress, d.dataSize,
                                         Field(SHF_ALLOC | SHF_WRITE), st, off);
    ghost var loadPart := shdrs[..shindex];
    assert loadPart == [NullShdr(st), StrtabShdr(st, strtabOffset)]
      + TextShdrs(d, names, st, off) + DataShdrs(d, names, st, off);
    shindex := AppendBssSections(shdrs, shindex, d, dataCount, useBssFix, st, off);
    assert shdrs[..shindex] == loadPart + BssShdrs(BssRegions(d, DataCount(d), useBssFix), st, off);
    ghost var bodyPart := shdrs[..shindex];
    assert table == bodyPart + [DolShdr(st, off)];
    shdrs[shindex] := DolShdr(st, off);
    shindex := shindex + 1;
    assert shdrs[..shindex] == table;
  }
}
