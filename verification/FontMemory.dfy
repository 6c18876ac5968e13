/** Reading big-endian numbers out of a font file. */
module FontMemory {
  import opened MachineInts

  /** Font bytes by address. The sources perform no bounds checks on them, so every address has a byte. */
  type Memory = int -> byte

  /** `ttUSHORT`. */
  function UShort(mem: Memory, p: int): nat { mem(p) * 0x100 + mem(p + 1) }

  /** `ttSHORT`. */
  function Short(mem: Memory, p: int): int { ToInt16(UShort(mem, p)) }

  /** `ttULONG`. */
  function ULong(mem: Memory, p: int): nat { UShort(mem, p) * 0x1_0000 + UShort(mem, p + 2) }
}
