/** Constants and result types shared by all layers. */
module Machine {
  datatype Option<+T> = None | Some(value: T)

  const PAGE_SIZE: nat := 4096
  /** `(uintptr_t)-1`. */
  const INVALID_ADDRESS: nat := 0xFFFF_FFFF_FFFF_FFFF
  /** More frames than a 64-bit physical address can name do not exist. */
  const FRAME_LIMIT: nat := 0x10_0000_0000_0000
}
