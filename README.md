# dol2elf header builders in Dafny

dol2elf converts a Nintendo GameCube/Wii DOL executable into an ELF32 file.
The DOL header has:

- 7 text slots and 11 data slots, each with a file offset, a load address and a size;
- one BSS range;
- an entry point.

Every field is stored big-endian.

This project models the two routines that derive the ELF header tables from the DOL header.

`create_phdrs` builds the program-header table:

- one `PT_LOAD` entry per non-empty text slot, then one per non-empty data slot;
- then the zero-fill BSS entries: none, one, or three when the "BSS fix" is on;
- a final check that the number written equals the precomputed `phnum`.

`create_shdrs` builds the section-header table, in this order:

- the null section and `.shstrtab`;
- one `PROGBITS` section per non-empty text slot and one per non-empty data slot;
- the `NOBITS` BSS sections;
- `.dolhdr`, which covers the embedded DOL header.

With the fix on, the BSS range is cut into `.bss`, `.sbss` and `.sbss2` around the two small-data segments. The cut points are the data slots at positions `data_count - 2` and `data_count - 1`, with 32-bit wrap-around arithmetic throughout.

Layout of the model:

- `byteorder.dfy` (`ByteOrder`):
  - host-order 32-bit words;
  - the big-endian stored field `Be32`;
  - `htonl`/`ntohl`;
  - addition and subtraction modulo 2^32.
- `elf32.dfy` (`Elf32`): the `Elf32_Phdr` and `Elf32_Shdr` records and the `PT_*`, `PF_*`, `SHT_*` and `SHF_*` constants of the System V ABI generic ELF specification (chapter 4, "Sections"; chapter 5, "Program Header").
- `dol.dfy` (`Dol`): the DOL header and the ascending list of non-empty slots that both builder loops visit.
- `bss.dfy` (`BssSplit`): the BSS three-way split, written once as a pure function. Both builders consume it. Its tiling, uniqueness and wrap-around behaviour are proved here.
- `elfimage.dfy` (`ElfImage`): the `Elf` object the builders fill: `phdrs`, `shdrs`, `phnum`, `shnum`, `dol_offset`, `strtab_offset` and the string table.
- `phdr.dfy` (`ProgramHeaders`):
  - the `init_load_*_phdr` record builders;
  - the specification of the whole table, `PhdrTable`;
  - the imperative `CreatePhdrs`, which allocates `elf.phdrs` and fills it through the running index `phindex`.
- `shdr.dfy` (`SectionHeaders`): the same for `create_shdrs`: `ShdrTable` and `CreateShdrs`.
- `agreement.dfy` (`HeaderAgreement`): section `k + 2` and program header `k` describe the same piece of memory.

Each builder method is proved against its table function:

- its `ensures` says the array it allocates starts with exactly `PhdrTable(...)` or `ShdrTable(...)`;
- the lemmas about those functions state the count, the order and the fields of every entry.

The two slot loops of each builder have the same shape in the C code. They differ in the slot arrays, the flags and the record builder, and the data loop also counts the non-empty data slots in `data_count`, which the BSS split then reads. Each pair is modelled by one loop method that is called once for text and once for data (`AppendLoads`, `AppendSections`). The method returns the number of entries it wrote as `count`; the count from the data call stands for `data_count`. The BSS stage of each builder is its own method (`AppendBssLoads`, `AppendBssSections`) with the same branches as the C code.

The model follows the code as written:

- **The count check.** The program-header count check aborts in the code. Here `CreatePhdrs` returns `ok == false` exactly where the abort would happen.
- **No section count check.** The section builder checks nothing, so `CreateShdrs` has no result.
- **No geometry check.** A mis-ordered BSS geometry is not rejected. The sizes wrap modulo 2^32 (`MisorderedGeometryWraps`, `MisorderedExample`).
- **The `data_count` index.** The split indexes the raw data arrays by the count of non-empty data slots, not by the positions of the last two non-empty slots.
  - The two agree when the non-empty slots are a prefix (`CountIndexesLastTwo`).
  - They differ when there is a gap (`CountIndexMissesGap`).
- **The string table.** The code relies on no particular value of `strtab_index("")`, so the string table stays abstract.

## Model

| member | source | states |
|---|---|---|
| Dol.NonZeroSlots | src/phdr.c:77-88 | the visited slots are strictly increasing, each is below the bound and has a non-zero size, and every non-zero slot below the bound is among them |
| Dol.NonZeroSlotsPrefix | src/phdr.c:77-81 | visiting more slots only appends to the slots already found |
| Dol.CountIndexesLastTwo | src/phdr.c:93-96 | when the non-empty data slots are exactly the first `data_count`, slots `data_count - 2` and `data_count - 1` are the last two non-empty slots |
| Dol.CountIndexMissesGap | src/phdr.c:93-96 | with data slots 0, 1 and 3 non-empty, index `data_count - 1` reads slot 2, which is empty, while the last non-empty slot is 3 |
| BssSplit.Split | src/phdr.c:91-111 | the three regions are named `.bss`, `.sbss`, `.sbss2` and tile the BSS range around `sdata` and `sdata2`, modulo 2^32 |
| BssSplit.BssRegions | src/phdr.c:89-116 | an empty BSS gives no region, the fix gives three, and otherwise there is one |
| BssSplit.UnsplitRegion | src/phdr.c:112-114 | without the fix the one region is `.bss`, with the header's own BSS address and size words |
| BssSplit.SplitRegionsTile | src/phdr.c:90-111 | with the fix the regions tile the BSS range around data slots `data_count - 2` and `data_count - 1` |
| BssSplit.TilingSumsToBssSize | src/phdr.c:98-109 | region1 + `sdata_size` + region2 + `sdata2_size` + region3 equals `bss_size` modulo 2^32 |
| BssSplit.TilingIsUnique | src/phdr.c:98-110 | any regions with the tiling property are exactly those of `Split` |
| BssSplit.OrderedGeometryNoWrap | src/phdr.c:98-110 | for ascending, non-overflowing geometry the sizes are plain differences, every region lies inside the BSS range and the pieces sum to `bss_size` exactly |
| BssSplit.MisorderedGeometryWraps | src/phdr.c:99 | when `sdata` lies below the BSS start, the `.bss` size underflows and the region runs past 2^32 |
| BssSplit.MisorderedExample | src/phdr.c:99 | BSS at 0x80003100 of size 0x200 with `sdata` at 0x80003000 gives a `.bss` size of 0xFFFFFF00 |
| ProgramHeaders.LoadPhdr | src/phdr.c:34-56 | the record both `init_load_text_phdr` and `init_load_data_phdr` fill; `LoadPhdrIsFileLoad` states its fields |
| ProgramHeaders.TextPhdr | src/phdr.c:34-44 | the entry of one text slot, with flags `PF_R|PF_X`; `PhdrTextEntry` states its fields at its place in the table |
| ProgramHeaders.DataPhdr | src/phdr.c:46-56 | the entry of one data slot, with flags `PF_R|PF_W`; `PhdrDataEntry` states its fields at its place in the table |
| ProgramHeaders.BssPhdr | src/phdr.c:58-68 | the record `init_load_bss_phdr` fills; `BssPhdrIsZeroFill` states its fields |
| ProgramHeaders.LoadPhdrs | src/phdr.c:77-88 | the entries one slot loop writes; `LoadPhdrsLength`, `LoadPhdrsGrow` and `LoadPhdrsSlots` state its count and order |
| ProgramHeaders.PhdrTable | src/phdr.c:70-118 | the whole table `create_phdrs` writes; `PhdrCount`, `PhdrTextEntry`, `PhdrDataEntry`, `PhdrBssEntry` and `SingleBssEntry` state its length and every entry |
| ProgramHeaders.LoadPhdrIsFileLoad | src/phdr.c:34-56 | a text or data entry is `PT_LOAD` with offset = slot offset + `dol_offset`, vaddr = paddr = slot address, filesz = memsz = slot size, the given flags and align 0 |
| ProgramHeaders.BssPhdrIsZeroFill | src/phdr.c:58-68 | a BSS entry is `PT_LOAD` with offset 0, filesz 0, vaddr = paddr = region address, memsz = region size, flags `PF_R|PF_W`, align 0 |
| ProgramHeaders.LoadPhdrsLength | src/phdr.c:77-81 | a slot loop writes one entry per non-empty slot |
| ProgramHeaders.LoadPhdrsGrow | src/phdr.c:77-88 | a slot loop never writes fewer entries by visiting more slots |
| ProgramHeaders.LoadPhdrsSlots | src/phdr.c:77-88 | entry `k` of a slot loop is that of the `k`-th non-empty slot, in ascending slot order |
| ProgramHeaders.PhdrCount | src/phdr.c:77-117 | the table has #non-empty text + #non-empty data + (0, 1 or 3) entries |
| ProgramHeaders.PhdrTextEntry | src/phdr.c:34-44 | entry `k < t` loads the `k`-th non-empty text slot, readable and executable |
| ProgramHeaders.PhdrDataEntry | src/phdr.c:46-56 | entry `t + k` loads the `k`-th non-empty data slot, readable and writable |
| ProgramHeaders.PhdrBssEntry | src/phdr.c:89-116 | entry `t + d + j` zero-fills the `j`-th BSS region |
| ProgramHeaders.SingleBssEntry | src/phdr.c:112-114 | without the fix a non-empty BSS gives exactly one last entry, carrying `bss_address` and `bss_size` with filesz 0 |
| ProgramHeaders.AppendLoads | src/phdr.c:77-88 | a slot loop appends exactly the entries of the non-empty slots after those already written, leaves every later entry unchanged, and returns how many it wrote |
| ProgramHeaders.AppendBssLoads | src/phdr.c:89-116 | the BSS stage appends exactly one entry per BSS region and leaves every later entry unchanged |
| ProgramHeaders.CreatePhdrs | src/phdr.c:70-118 | allocates `phnum` entries; the first ones are exactly the table; `ok` holds exactly when the count equals `phnum` |
| SectionHeaders.NullShdr | src/shdr.c:32-44 | the record `init_null_shdr` fills; `NullShdrIsNull` states its fields |
| SectionHeaders.StrtabShdr | src/shdr.c:89-101 | the record `init_strtab_shdr` fills; `StrtabShdrIsStrtab` states its fields |
| SectionHeaders.LoadShdr | src/shdr.c:46-72 | the record both `init_text_shdr` and `init_data_shdr` fill; `LoadShdrIsProgbits` states its fields |
| SectionHeaders.TextShdr | src/shdr.c:46-58 | the section of one text slot, named `text_sections[i]`; `ShdrTextEntry` states its fields at its place in the table |
| SectionHeaders.DataShdr | src/shdr.c:60-72 | the section of one data slot, named `data_sections[i]`; `ShdrDataEntry` states its fields at its place in the table |
| SectionHeaders.BssShdr | src/shdr.c:75-87 | the record `init_bss_shdr` fills; `BssShdrIsNobits` states its fields |
| SectionHeaders.DolShdr | src/shdr.c:103-115 | the record `init_dol_shdr` fills; `DolShdrIsProgbits` states its fields |
| SectionHeaders.LoadShdrs | src/shdr.c:128-140 | the sections one slot loop writes; `LoadShdrsLength`, `LoadShdrsGrow` and `LoadShdrsSlots` state their count and order |
| SectionHeaders.ShdrTable | src/shdr.c:117-173 | the whole table `create_shdrs` writes; `ShdrCount`, `ShdrFixedEntries`, `ShdrTextEntry`, `ShdrDataEntry`, `ShdrBssEntry` and `BssSectionNames` state its length and every entry |
| SectionHeaders.NullShdrIsNull | src/shdr.c:32-44 | the null section is `SHT_NULL` named `strtab_index("")`, with every other field 0 |
| SectionHeaders.StrtabShdrIsStrtab | src/shdr.c:89-101 | `.shstrtab` is `SHT_STRTAB`, flags and address 0, offset `strtab_offset`, size `strtab.used` |
| SectionHeaders.LoadShdrIsProgbits | src/shdr.c:46-72 | a text or data section is `PROGBITS` named after its slot, with the given flags, the slot address, the slot offset + `dol_offset` and the slot size |
| SectionHeaders.BssShdrIsNobits | src/shdr.c:75-87 | a BSS section is `SHT_NOBITS`, `SHF_ALLOC|SHF_WRITE`, named after its region, at the region address and size, with offset `dol_offset` |
| SectionHeaders.DolShdrIsProgbits | src/shdr.c:103-115 | `.dolhdr` is `PROGBITS`, flags and address 0, offset `dol_offset`, size of the DOL header |
| SectionHeaders.LoadShdrsLength | src/shdr.c:128-132 | a slot loop writes one section per non-empty slot |
| SectionHeaders.LoadShdrsGrow | src/shdr.c:128-140 | a slot loop never writes fewer sections by visiting more slots |
| SectionHeaders.LoadShdrsSlots | src/shdr.c:128-140 | section `k` of a slot loop is that of the `k`-th non-empty slot, in ascending slot order |
| SectionHeaders.ShdrCount | src/shdr.c:119-172 | the table has 3 + #non-empty text + #non-empty data + (0, 1 or 3) sections |
| SectionHeaders.ShdrFixedEntries | src/shdr.c:121-126 | sections 0 and 1 are the null section and `.shstrtab`, and the last one is `.dolhdr` |
| SectionHeaders.ShdrTextEntry | src/shdr.c:46-58 | section `2 + k` is the `k`-th non-empty text slot, named `text_sections[i]`, `SHF_ALLOC|SHF_EXECINSTR` |
| SectionHeaders.ShdrDataEntry | src/shdr.c:60-72 | section `2 + t + k` is the `k`-th non-empty data slot, named `data_sections[i]`, `SHF_ALLOC|SHF_WRITE` |
| SectionHeaders.ShdrBssEntry | src/shdr.c:142-168 | section `2 + t + d + j` is the `j`-th BSS region as a `NOBITS` section at offset `dol_offset` |
| SectionHeaders.BssSectionNames | src/shdr.c:142-168 | with the fix the BSS sections are named `.bss`, `.sbss`, `.sbss2` in order, and without it there is a single `.bss`, each followed by `.dolhdr` |
| SectionHeaders.AppendSections | src/shdr.c:128-140 | a slot loop appends exactly the sections of the non-empty slots after those already written, leaves every later section unchanged, and returns how many it wrote |
| SectionHeaders.AppendBssSections | src/shdr.c:142-168 | the BSS stage appends exactly one section per BSS region and leaves every later section unchanged |
| SectionHeaders.CreateShdrs | src/shdr.c:117-173 | allocates `shnum` entries and the first ones are exactly the table |
| HeaderAgreement.LoadTablesAgree | src/shdr.c:51-53 | the two loops over the same slots give program headers and sections with equal address, file offset and size, entry by entry |
| HeaderAgreement.HeaderEntriesAgree | src/shdr.c:144-163 | section `k + 2` has the address and memory size of program header `k`, and for text and data entries also its file offset and file size |
| HeaderAgreement.HeaderTablesAgree | src/shdr.c:117-173 | there are three more sections than program headers, and every program header is matched by the section two places further on |

## Left out

- `malloc` failure and pointer arithmetic on `elf->phdrs` and `elf->shdrs`: each table is a fresh array of `phnum` or `shnum` entries.
- `CreatePhdrs` and `CreateShdrs` require the table to fit in `phnum` or `shnum` entries. In the code, writing past the allocation is undefined behaviour, and the caller computes the counts.
- The caller's computation of `phnum`, `shnum`, `dol_offset` and `strtab_offset` is not part of this model. The values come in through `ElfImage.Elf`, whose constructor stands in for the caller.
- `CanSplit` (at least two non-empty data slots when the BSS is split) is a precondition, because with fewer the code's `size_t` index wraps and it reads outside the data arrays.
- `strtab_index`, `strtab.used`, `text_sections` and `data_sections` come from doltool.h, which is not part of this model:
  - the string table is an abstract function from names to offsets plus a used-byte count;
  - the name tables are a parameter of seven and eleven names.
- StrtabShdr: `strtab_index` is taken as a pure lookup that never grows the table. The model assumes the caller has interned every section name beforehand, so the `strtab.used` read for `.shstrtab` at index 1 is already the final size. If `strtab_index` inserted names, the later text, data, BSS and `.dolhdr` lookups would grow the table after that read, and the model does not capture that.
- CreateShdrs: for the same reason, the string table is a value that the builder reads and never changes, not state threaded through each `strtab_index` call.
- `sizeof(Dol_Hdr)` is taken as 0x100, the size of the DOL header on disk. `Dol_Hdr` is declared in doltool.h, which is not part of this model.
- `DOL_TEXT_COUNT` and `DOL_DATA_COUNT` are the constants 7 and 11, for the same reason.
- Be32: a stored field is identified by the number it encodes; the order of its four bytes in memory is not modelled. `Htonl` and `Ntohl` are therefore inverse by construction. A raw copy of a DOL field (`p_vaddr = text_address[i]`) and a converted one (`htonl(ntohl(x) + dol_offset)`) store the same word by construction, not by a proof about byte swapping. The memory layout of whole `Elf32_Phdr` and `Elf32_Shdr` records is not modelled either.
- Reading the DOL file, writing the ELF file, the ELF file header and command-line handling are I/O outside these two routines.
