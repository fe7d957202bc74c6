/** Sizes of the LZSS codec and the byte type every module works on. */
module Config {
  type byte = x: int | 0 <= x < 256

  const N: int := 4096        // cells of the ring buffer, a power of two
  const F: int := 18          // longest match
  const THRESHOLD: int := 2   // a match must be longer than this to be sent as a pair
  const NIL: int := N         // "no node" in the link arrays
  const ROOTS: int := N + 1   // rson[ROOTS + c] is the root of the tree for byte c

  const SPACE: byte := 32

  /** Ring cell of an absolute position; the source writes a & (N - 1). */
  function Cell(a: int): (c: nat)
    ensures c < N
  {
    a % N
  }

  function Min(a: int, b: int): int { if a < b then a else b }

  function Max(a: int, b: int): int { if a < b then b else a }
}
