// Rotating words of 32 bits to the left.
module Rotation {
  function Rol1(x: bv32): bv32 { (x << 1) | (x >> 31) }
  function Rol5(x: bv32): bv32 { (x << 5) | (x >> 27) }
  function Rol30(x: bv32): bv32 { (x << 30) | (x >> 2) }

  // Rotating by one moves the highest bit to the lowest place; the other rotations are this
  // one, five times, and twice backwards.
  lemma RotatedOnce(x: bv32)
    ensures Rol1(x) >> 1 == x & 0x7fff_ffff && Rol1(x) & 1 == x >> 31
  {
  }

  lemma RotatedFive(x: bv32)
    ensures Rol5(x) == Rol1(Rol1(Rol1(Rol1(Rol1(x)))))
  {
  }

  lemma RotatedThirty(x: bv32)
    ensures Rol1(Rol1(Rol30(x))) == x
  {
  }
}
