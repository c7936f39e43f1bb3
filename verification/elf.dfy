/** The part of an ELF file the three loaders read: program headers and file bytes. */
module Elf {
  import opened Words

  const LOAD_BASE: Word := 0x40_0000 // where the runner puts the lowest segment

  /** A program header as the loaders use it; `isLoad` is `p_type == PT_LOAD`. */
  datatype Segment = Segment(isLoad: bool, offset: Word, vaddr: Word, filesz: Word, memsz: Word)

  /** The slice of file bytes exists; a segment without file bytes takes no slice. */
  predicate InFile(elf: seq<Byte>, s: Segment) {
    s.filesz == 0 || s.offset + s.filesz <= |elf|
  }

  function FileBytes(elf: seq<Byte>, s: Segment): (d: seq<Byte>)
    requires InFile(elf, s)
    ensures |d| == s.filesz
  {
    if s.filesz == 0 then [] else elf[s.offset..s.offset + s.filesz]
  }
}
