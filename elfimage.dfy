/** The ELF image under construction, owned by the caller of the builders. */
module ElfImage {
  import opened ByteOrder
  import opened Elf32
  import opened Dol

  /** The section-name string table, seen only through what the builders
      read: the offset of a name in the blob and the number of bytes used. */
  datatype StringTable = StringTable(used: Word, index: string -> Word)

  /** The fixed name tables for the text and data sections. */
  datatype SectionNames = SectionNames(text: seq<string>, data: seq<string>)
  {
    predicate Valid() { |text| == TEXT_COUNT && |data| == DATA_COUNT }
  }

  class Elf {
    /** The program-header table, allocated by `CreatePhdrs`. */
    var phdrs: array<Phdr>
    /** The section-header table, allocated by `CreateShdrs`. */
    var shdrs: array<Shdr>
    /** Entry counts the caller precomputed. */
    var phnum: nat
    var shnum: nat
    /** File offset of the embedded DOL header. */
    var dolOffset: Word
    /** File offset of the section-name string table. */
    var strtabOffset: Word
    var strtab: StringTable

    constructor (phnum: nat, shnum: nat, dolOffset: Word, strtabOffset: Word, strtab: StringTable)
      ensures this.phnum == phnum && this.shnum == shnum
      ensures this.dolOffset == dolOffset && this.strtabOffset == strtabOffset
      ensures this.strtab == strtab
      ensures phdrs.Length == 0 && shdrs.Length == 0
    {
      this.phnum := phnum;
      this.shnum := shnum;
      this.dolOffset := dolOffset;
      this.strtabOffset := strtabOffset;
      this.strtab := strtab;
      phdrs := new Phdr[0];
      shdrs := new Shdr[0];
    }
  }
}
