/** The 32-bit class records of the ELF format, and the constants libelf tests them against. */
module ElfTypes {
  import opened Words

  type u16 = x: int | 0 <= x < 0x1_0000

  const SHN_UNDEF := 0
  const SHN_LORESERVE := 0xff00
  const PN_XNUM := 0xffff

  const SHT_NULL := 0
  const SHT_SYMTAB := 2
  const SHT_STRTAB := 3
  const SHT_RELA := 4
  const SHT_HASH := 5
  const SHT_DYNAMIC := 6
  const SHT_NOBITS := 8
  const SHT_REL := 9
  const SHT_DYNSYM := 11
  const SHT_SYMTAB_SHNDX := 18
  const SHT_VERDEF := 0x6fff_fffd
  const SHT_VERNEED := 0x6fff_fffe
  const SHT_VERSYM := 0x6fff_ffff

  datatype Ehdr = Ehdr(ident: seq<byte>, etype: u16, machine: u16, version: u32, entry: u32, phoff: u32, shoff: u32,
                       flags: u32, ehsize: u16, phentsize: u16, phnum: u16, shentsize: u16, shnum: u16, shstrndx: u16)

  datatype Phdr = Phdr(ptype: u32, offset: u32, vaddr: u32, paddr: u32, filesz: u32, memsz: u32, flags: u32, align: u32)

  datatype Shdr = Shdr(name: u32, stype: u32, flags: u32, addr: u32, offset: u32, size: u32, link: u32, info: u32,
                       addralign: u32, entsize: u32)

  const ZERO_SHDR := Shdr(0, 0, 0, 0, 0, 0, 0, 0, 0, 0)

  /** Kinds of file a descriptor can stand for. */
  datatype FileKind = NoKind | ArKind | ElfKind
}
