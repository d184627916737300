/** Machine words, and the two result types that the modules share. */
module Words {
  const WORD_LIMIT: nat := 0x1_0000_0000

  type word = x: int | 0 <= x < WORD_LIMIT

  /** Addition of unsigned 32-bit numbers, modulo 2^32. */
  function Add32(a: word, b: word): word {
    if a + b < WORD_LIMIT then a + b else a + b - WORD_LIMIT
  }

  lemma Add32Meaning(a: word, b: word)
    ensures Add32(a, b) == (a + b) % WORD_LIMIT
  {
  }

  datatype Option<T> = None | Some(value: T)

  type byte = bv8

  /** A `uint8` that is used as a number. */
  type octet = x: int | 0 <= x < 256

  function Zeros(n: nat): (z: seq<byte>)
    ensures |z| == n && forall k :: 0 <= k < n ==> z[k] == 0
  {
    seq(n, _ => 0)
  }

  /** Results of the flash access layer. */
  datatype FlashStatus = FlashOk | FlashNotOk | FlashErased | InvalidAddress | InvalidParameter
}
