/** 32-bit integers, and how much memory there is. */
module Machine {

  // ----- Integers -----

  const INT_MAX := 0x7fff_ffff
  const INT_MIN := -0x8000_0000

  predicate Int32(x: int) { INT_MIN <= x <= INT_MAX }

  /** The int that an integer becomes after wrap-around. */
  function Wrap32(x: int): (w: int)
    ensures Int32(w) && (Int32(x) ==> w == x)
  {
    (x + 0x8000_0000) % 0x1_0000_0000 - 0x8000_0000
  }

  function Add32(x: int, y: int): int { Wrap32(x + y) }

  // ----- Memory -----

  /** The largest allocation: beyond it there is an error. */
  const MAX_ALLOC := 0x3fff_ffff

  /** The largest buffer of bytes that is a power of two: doubled once more, it cannot be allocated. */
  const BUF_MAX := 0x2000_0000

  /** `w` becomes `max` when it is doubled often enough. */
  ghost predicate IsPower(w: nat, max: nat)
    decreases max - w
  {
    w == max || (0 < w < max && IsPower(2 * w, max))
  }

  lemma PowerStep(w: nat, max: nat)
    requires IsPower(w, max)
    ensures w < max ==> IsPower(2 * w, max)
    ensures w <= max
  {
  }

  /** The sizes with which buffers of bytes begin. */
  lemma FirstSizes()
    ensures IsPower(32, BUF_MAX) && IsPower(16, BUF_MAX)
  {
    assert IsPower(0x40_0000, BUF_MAX);
    assert IsPower(0x8000, BUF_MAX);
    assert IsPower(0x100, BUF_MAX);
  }
}
