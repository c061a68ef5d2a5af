/** Reconstruction of a 48-bit record sequence number from its low 8 or 16 bits. */
module SequenceNumbers {
  import opened Wire

  /** The candidate in the expected number's block, moved by one window when that is nearer. */
  function ReconstructSequence(expected: nat, truncated: nat, window: nat): nat
    requires window > 0
  {
    var half := window / 2;
    var candidate := Block(expected, window) + truncated;
    if candidate + half <= expected && candidate + window < U48_LIMIT then candidate + window
    else if candidate > expected + half && candidate >= window then candidate - window
    else candidate
  }

  /**
   * Within the half-open half window, or beyond it where the first or the last block of the 48-bit space cuts it
   * short.
   */
  predicate Reachable(expected: nat, sent: nat, window: nat) {
    || (expected < sent + window / 2 && sent <= expected + window / 2)
    || (U48_LIMIT - window <= sent <= expected - window / 2 && expected < U48_LIMIT)
    || (expected + window / 2 < sent < window)
  }

  /** Nearest-value reconstruction finds the number sent exactly when it is reachable from the expected one. */
  lemma ReconstructExactly(expected: nat, sent: nat, window: nat)
    requires window == 256 || window == 65536
    requires sent < U48_LIMIT && expected <= U48_LIMIT
    ensures ReconstructSequence(expected, sent % window, window) == sent <==>
            Reachable(expected, sent, window)
  {
    if window == 256 { BlocksApart256(expected, sent); } else { BlocksApart65536(expected, sent); }
    ReconstructFromBlocks(expected, Block(expected, window), Block(sent, window), sent % window, window);
  }

  function Block(n: nat, window: nat): nat
    requires window > 0
  {
    n / window * window
  }

  ghost predicate WellSpaced(block: nat, sentBlock: nat, window: nat) {
    && Apart(block, sentBlock, window) && Apart(block + window, sentBlock, window)
      && Apart(block - window, sentBlock, window)
    && Apart(0, block, window) && Apart(0, sentBlock, window)
    && Apart(block, U48_LIMIT, window) && Apart(sentBlock, U48_LIMIT, window)
  }

  lemma BlocksApart256(m: nat, n: nat)
    ensures WellSpaced(Block(m, 256), Block(n, 256), 256)
    ensures Block(m, 256) <= m < Block(m, 256) + 256 && n == Block(n, 256) + n % 256
  {}

  lemma BlocksApart65536(m: nat, n: nat)
    ensures WellSpaced(Block(m, 65536), Block(n, 65536), 65536)
    ensures Block(m, 65536) <= m < Block(m, 65536) + 65536 && n == Block(n, 65536) + n % 65536
  {}

  predicate Apart(a: int, b: int, window: int) {
    a == b || a + window <= b || b + window <= a
  }

  /** The same, with block starts for the quotients. */
  lemma ReconstructFromBlocks(expected: nat, block: nat, sentBlock: nat, offset: nat, window: nat)
    requires window == 256 || window == 65536
    requires offset < window && block <= expected < block + window
    requires expected <= U48_LIMIT && sentBlock + offset < U48_LIMIT
    requires WellSpaced(block, sentBlock, window)
    ensures var candidate := block + offset;
            var half := window / 2;
            var found := if candidate + half <= expected && candidate + window < U48_LIMIT then candidate + window
                         else if candidate > expected + half && candidate >= window then candidate - window
                         else candidate;
            found == sentBlock + offset <==> Reachable(expected, sentBlock + offset, window)
  {
    var half := window / 2;
    assert 2 * half == window;
    var candidate := block + offset;
    if candidate + half <= expected {
    } else if candidate > expected + half {
    } else {
    }
  }
}
