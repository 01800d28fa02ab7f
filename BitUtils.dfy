/** Bit helpers used by the display's sprite compositing. */
module BitUtils {

  /**
   * `bitQuery(data, bit)` as written: `data >> bit | 0x1`. The shift binds
   * tighter than the OR, so the result is the shifted byte with its low bit
   * forced to 1, not the single bit `bit` of `data`. C promotes `data` to
   * `int` before shifting, so a shift by 8 to 31 leaves 0 and the result is
   * 1; the conversion back to `unsigned char` loses nothing. A shift by 32 or
   * more is undefined behaviour in C++, and the model picks 1 there too.
   */
  function BitQuery(data: bv8, bit: bv8): (r: bv8)
    ensures r & 1 == 1
    ensures r != 0
    ensures bit < 8 ==> data >> bit <= r
    ensures bit >= 7 ==> r == 1
    ensures bit == 0 ==> (r == data <==> data & 1 == 1)
  {
    if bit < 8 then (data >> bit) | 1 else 1
  }

  /**
   * The queried bit itself has no influence on the result: flipping bit
   * `bit` of `data` gives the same answer, so `BitQuery` cannot tell whether
   * that bit is set.
   */
  lemma BitQueryIgnoresQueriedBit(data: bv8, bit: bv8)
    requires bit < 8
    ensures BitQuery(data ^ ((1 as bv8) << bit), bit) == BitQuery(data, bit)
  {
  }

  /**
   * The result is 1, the value a bit test would give for a set bit, exactly
   * when no bit of `data` above position `bit` is set.
   */
  lemma BitQueryIsOneIff(data: bv8, bit: bv8)
    requires bit < 8
    ensures BitQuery(data, bit) == 1 <==> data >> bit <= 1
  {
  }
}
