/** Fixed-width unsigned integers of the firmware, with their wrap-around written out. */
module MachineInts {

  /** Unsigned 8-bit and 32-bit values; sums wrap explicitly modulo 2^32. */
  newtype byte = x: int | 0 <= x < 0x100
  newtype u32 = x: int | 0 <= x < 0x1_0000_0000

  const WordModulus: int := 0x1_0000_0000

  /** 32-bit unsigned addition and subtraction, with wrap-around. */
  function Add32(a: u32, b: u32): u32
  {
    ((a as int + b as int) % WordModulus) as u32
  }

  function Sub32(a: u32, b: u32): u32
  {
    ((a as int - b as int) % WordModulus) as u32
  }

  /** Each sum is below 2 * 2^32, so one wrap takes at most one subtraction. */
  lemma Add32Value(a: u32, b: u32)
    ensures Add32(a, b) as int
      == if a as int + b as int < WordModulus then a as int + b as int
         else a as int + b as int - WordModulus
  {
  }

  lemma Add32Assoc(a: u32, b: u32, c: u32)
    ensures Add32(Add32(a, b), c) == Add32(a, Add32(b, c))
  {
    Add32Value(a, b);
    Add32Value(Add32(a, b), c);
    Add32Value(b, c);
    Add32Value(a, Add32(b, c));
  }

  lemma Add32Comm(a: u32, b: u32)
    ensures Add32(a, b) == Add32(b, a)
  {
  }

  /** Adding the same value on either side is injective modulo 2^32. */
  lemma Add32Cancel(a: u32, b: u32, c: u32)
    ensures Add32(a, c) == Add32(b, c) ==> a == b
    ensures Add32(c, a) == Add32(c, b) ==> a == b
  {
  }

  /** x is a - c exactly when c + x is a, modulo 2^32. */
  lemma Sub32IffAdd32(a: u32, c: u32, x: u32)
    ensures x == Sub32(a, c) <==> Add32(c, x) == a
  {
  }
}
