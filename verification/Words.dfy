// Machine words of the i386 target and the small helpers every layer shares.
module Words {
  // Masks and shifts by powers of two are written as division and remainder:
  // x & ~0xFFF is PageFloor(x), x >> 12 is x / PAGE_SIZE, x & 7 is x % 8.

  type Word = w: int | 0 <= w < 0x1_0000_0000

  const PAGE_SIZE := 4096
  const MB := 0x10_0000
  const GB := 0x4000_0000

  datatype Option<+T> = None | Some(value: T)

  // uint32_t subtraction and addition, which wrap around.
  function Sub32(x: int, y: int): Word {
    (x - y) % 0x1_0000_0000
  }

  function Add32(x: int, y: int): Word {
    (x + y) % 0x1_0000_0000
  }

  // div_ceil of util.h on size_t, with its wrapping addition.
  function DivCeil(a: Word, b: Word): Word
    requires b > 0
  {
    Sub32(Add32(a, b), 1) / b
  }

  function PageFloor(a: int): int {
    a - a % PAGE_SIZE
  }

  function NextPage(a: int): int {
    PageFloor(a) + PAGE_SIZE
  }
}
