/** The ELF32 records and constants used by the header builders, with the
    values of the System V ABI generic specification (chapter 4 for
    sections, chapter 5 for program headers). */
module Elf32 {
  import opened ByteOrder

  const PT_LOAD: bv32 := 1

  const PF_X: bv32 := 1
  const PF_W: bv32 := 2
  const PF_R: bv32 := 4

  const SHT_NULL: bv32 := 0
  const SHT_PROGBITS: bv32 := 1
  const SHT_STRTAB: bv32 := 3
  const SHT_NOBITS: bv32 := 8

  const SHF_WRITE: bv32 := 1
  const SHF_ALLOC: bv32 := 2
  const SHF_EXECINSTR: bv32 := 4

  /** A constant (or a flag combination) stored as a big-endian field. */
  function Field(v: bv32): Be32
  {
    Htonl(v as int)
  }

  /** An `Elf32_Phdr` as stored in the image. */
  datatype Phdr = Phdr(
    pType: Be32, pOffset: Be32, pVaddr: Be32, pPaddr: Be32,
    pFilesz: Be32, pMemsz: Be32, pFlags: Be32, pAlign: Be32)

  /** An `Elf32_Shdr` as stored in the image. */
  datatype Shdr = Shdr(
    shName: Be32, shType: Be32, shFlags: Be32, shAddr: Be32, shOffset: Be32,
    shSize: Be32, shLink: Be32, shInfo: Be32, shAddralign: Be32, shEntsize: Be32)
}
