/** What the kernel fixes: error numbers and the width of an unsigned int. */
module Machine {
  const ENOENT := -2
  const EIO := -5
  const EEXIST := -17
  const EINVAL := -22
  const ENOSPC := -28

  const U32 := 0x1_0000_0000
}
