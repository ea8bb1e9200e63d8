module Numbers {
  /** The size of a frame of physical memory and of the smallest page, in bytes. */
  const FRAME: nat := 4096

  function Min(a: int, b: int): int {
    if a < b then a else b
  }

  function Max(a: int, b: int): int {
    if a < b then b else a
  }
}
