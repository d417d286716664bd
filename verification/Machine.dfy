/** The arithmetic of the 32-bit target, written out over unbounded integers. */
module Machine {

  const WORD := 0x1_0000_0000

  const NUL: char := '\0'

  datatype Option<+T> = None | Some(value: T)

  /** The value an expression of type size_t or uint32_t keeps of the mathematical result x. */
  function U32(x: int): (r: nat)
    ensures r < WORD
    ensures 0 <= x < WORD ==> r == x
    ensures -WORD <= x < 0 ==> r == x + WORD
    ensures WORD <= x < 2 * WORD ==> r == x - WORD
  {
    x % WORD
  }

  /** The same bits read as a signed 32-bit value: an int or a pointer difference. */
  function S32(x: int): (r: int)
    ensures 0 <= x < WORD / 2 ==> r == x
    ensures WORD / 2 <= x < WORD ==> r == x - WORD
  {
    if U32(x) < WORD / 2 then U32(x) else U32(x) - WORD
  }

  /** C's division: the quotient is truncated toward zero. */
  function TruncDiv(x: int, d: nat): int
    requires d > 0
  {
    if x >= 0 then x / d else -(-x / d)
  }

  /** C's remainder: it takes the sign of the dividend. */
  function TruncMod(x: int, d: nat): int
    requires d > 0
  {
    if x >= 0 then x % d else -(-x % d)
  }

  lemma ModOnce(x: nat, n: nat)
    requires 0 < n && x < 2 * n
    ensures x % n == if x < n then x else x - n
  {
    if n <= x {
      var y := x - n;
      assert x == 1 * n + y;
      assert x / n == 1;
    }
  }
}
