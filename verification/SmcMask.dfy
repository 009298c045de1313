/** The bit masks of cpu_smc_invalidate (src/halfix/smc.c). */
module SmcMask {
  /** The mask built when every chunk from the start of the page up to `end` is dropped. */
  function InvalidationMask(end: bv32): bv32
    requires end < 32
  {
    var endmask := 1 << end;
    endmask | (endmask - 1)
  }

  predicate Bit(w: bv32, k: bv32)
    requires k < 32
  {
    (w >> k) & 1 == 1
  }

  /** Clearing with the mask forgets exactly the chunks 0..end, for `end` = 31 too. */
  lemma MaskClearsUpTo(w: bv32, end: bv32, k: bv32)
    requires end < 32 && k < 32
    ensures Bit(w & !InvalidationMask(end), k) <==> end < k && Bit(w, k)
  {
  }

  /** Setting a chunk's bit leaves the other 31 alone. */
  lemma SetOneBit(w: bv32, c: bv32, k: bv32)
    requires c < 32 && k < 32
    ensures Bit(w | (1 << c), k) <==> k == c || Bit(w, k)
  {
  }

  /** The early exit is taken only when no chunk up to `end` holds code. */
  lemma EarlyExit(w: bv32, end: bv32, k: bv32)
    requires k <= end < 32
    requires w & InvalidationMask(end) == 0
    ensures !Bit(w, k)
  {
  }
}
