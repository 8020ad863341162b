/** The two header tables describe the same memory image: after the null and
    `.shstrtab` sections, section `k + 2` and program header `k` come from the
    same slot or BSS region. */
module HeaderAgreement {
  import opened ByteOrder
  import opened Elf32
  import opened Dol
  import opened BssSplit
  import opened ElfImage
  import opened ProgramHeaders
  import opened SectionHeaders

  /** Entry by entry, the two builder loops over the same slots give a
      program header and a section with the same address, file offset and size. */
  lemma {:induction false} LoadTablesAgree(names: seq<string>, offsets: seq<Be32>, addresses: seq<Be32>,
                                           sizes: seq<Be32>, n: nat, pflags: Be32, sflags: Be32,
                                           st: StringTable, dolOffset: Word)
    requires NamedSlots(names, offsets, addresses, sizes, n)
    ensures var p, s := LoadPhdrs(offsets, addresses, sizes, n, pflags, dolOffset),
                        LoadShdrs(names, offsets, addresses, sizes, n, sflags, st, dolOffset);
      |p| == |s| &&
      forall k :: 0 <= k < |p| ==>
        s[k].shAddr == p[k].pVaddr && s[k].shOffset == p[k].pOffset &&
        s[k].shSize == p[k].pFilesz && s[k].shSize == p[k].pMemsz
  {
    if n > 0 {
      LoadTablesAgree(names, offsets, addresses, sizes, n - 1, pflags, sflags, st, dolOffset);
    }
  }

  /** Section `k + 2` has the address and the memory size of program header
      `k`, and for the text and data entries also its file offset and file
      size. The BSS entries differ only in the file offset: 0 in the program
      header, the DOL header's offset in the section. */
  lemma HeaderEntriesAgree(d: DolHeader, names: SectionNames, useBssFix: bool, st: StringTable,
                           dolOffset: Word, strtabOffset: Word, k: nat)
    requires d.Valid() && names.Valid() && CanSplit(d, useBssFix)
    requires k < |PhdrTable(d, useBssFix, dolOffset)|
    ensures var p, s := PhdrTable(d, useBssFix, dolOffset),
                        ShdrTable(d, names, useBssFix, st, dolOffset, strtabOffset);
      k + 2 < |s| &&
      s[k + 2].shAddr == p[k].pVaddr && s[k + 2].shSize == p[k].pMemsz &&
      (k < |TextSlots(d)| + DataCount(d) ==>
         s[k + 2].shOffset == p[k].pOffset && s[k + 2].shSize == p[k].pFilesz)
  {
    var tp, dp := TextPhdrs(d, dolOffset), DataPhdrs(d, dolOffset);
    var regions := BssRegions(d, DataCount(d), useBssFix);
    var bp := BssPhdrs(regions);
    var fixed := [NullShdr(st), StrtabShdr(st, strtabOffset)];
    var ts, ds := TextShdrs(d, names, st, dolOffset), DataShdrs(d, names, st, dolOffset);
    var bs := BssShdrs(regions, st, dolOffset);
    var p := tp + dp + bp;
    var s := fixed + ts + ds + bs + [DolShdr(st, dolOffset)];
    LoadTablesAgree(names.text, d.textOffset, d.textAddress, d.textSize, |d.textSize|,
                    Field(PF_X | PF_R), Field(SHF_ALLOC | SHF_EXECINSTR), st, dolOffset);
    LoadTablesAgree(names.data, d.dataOffset, d.dataAddress, d.dataSize, |d.dataSize|,
                    Field(PF_R | PF_W), Field(SHF_ALLOC | SHF_WRITE), st, dolOffset);
    if k < |tp| {
      assert p[k] == tp[k] && s[k + 2] == ts[k];
    } else if k < |tp| + |dp| {
      assert p[k] == dp[k - |tp|] && s[k + 2] == ds[k - |tp|];
    } else {
      assert p[k] == bp[k - |tp| - |dp|] && s[k + 2] == bs[k - |tp| - |dp|];
    }
    PhdrCount(d, useBssFix, dolOffset);
  }

  /** The whole tables agree: three more sections than program headers, and
      every program header matched by the section two places further on. */
  lemma HeaderTablesAgree(d: DolHeader, names: SectionNames, useBssFix: bool, st: StringTable,
                          dolOffset: Word, strtabOffset: Word)
    requires d.Valid() && names.Valid() && CanSplit(d, useBssFix)
    ensures var p, s := PhdrTable(d, useBssFix, dolOffset),
                        ShdrTable(d, names, useBssFix, st, dolOffset, strtabOffset);
      |s| == |p| + 3 &&
      forall k :: 0 <= k < |p| ==>
        s[k + 2].shAddr == p[k].pVaddr && s[k + 2].shSize == p[k].pMemsz &&
        (k < |TextSlots(d)| + DataCount(d) ==>
           s[k + 2].shOffset == p[k].pOffset && s[k + 2].shSize == p[k].pFilesz)
  {
    PhdrCount(d, useBssFix, dolOffset);
    ShdrCount(d, names, useBssFix, st, dolOffset, strtabOffset);
    forall k | 0 <= k < |PhdrTable(d, useBssFix, dolOffset)|
      ensures var p, s := PhdrTable(d, useBssFix, dolOffset),
                          ShdrTable(d, names, useBssFix, st, dolOffset, strtabOffset);
        s[k + 2].shAddr == p[k].pVaddr && s[k + 2].shSize == p[k].pMemsz &&
        (k < |TextSlots(d)| + DataCount(d) ==>
           s[k + 2].shOffset == p[k].pOffset && s[k + 2].shSize == p[k].pFilesz)
    {
      HeaderEntriesAgree(d, names, useBssFix, st, dolOffset, strtabOffset, k);
    }
  }
}
