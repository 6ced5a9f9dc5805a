// The values of machine integers after conversions and overflows.
module MachineInts {

  const INT_MIN := -0x8000_0000

  // No larger block can be allocated.
  const PTRDIFF_MAX := 0x7FFF_FFFF_FFFF_FFFF

  // The value of a 32-bit int after arithmetic that reached x and may overflow.
  function Int32(x: int): int {
    if x >= 0x8000_0000 then x - 0x1_0000_0000
    else if x < INT_MIN then x + 0x1_0000_0000
    else x
  }

  // The value of an int converted to size_t.
  function ToSize(n: int): int {
    if n < 0 then n + 0x1_0000_0000_0000_0000 else n
  }
}
