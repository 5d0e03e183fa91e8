/** The unsigned machine words of the C code: `unsigned long` and `uint64_t` have 64
    bits, `id_t`, `uid_t`, `gid_t` and `uint32_t` have 32. */
module Words {
  const ID_SPACE: int := 0x1_0000_0000
  const ULONG_SPACE: int := 0x1_0000_0000_0000_0000

  type ulong = x: int | 0 <= x < 0x1_0000_0000_0000_0000
  type uint32 = x: int | 0 <= x < 0x1_0000_0000
  type id_t = uint32
}
