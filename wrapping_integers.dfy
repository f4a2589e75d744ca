/**
 * 32-bit wrapped TCP sequence numbers (section 3.3 of RFC 793).  An absolute
 * sequence number counts from 0 at the SYN; on the wire it is sent as
 * (isn + absolute) mod 2^32.  `Unwrap` recovers the absolute number that is
 * nearest to a recent absolute "checkpoint".
 */
module WrappingIntegers {
  const TWO32: int := 0x1_0000_0000
  const HALF32: int := 0x8000_0000

  /** An unsigned 32-bit value (a `WrappingInt32` on the wire). */
  type u32 = x: int | 0 <= x < TWO32

  /** The distance between two absolute sequence numbers. */
  function Dist(a: int, b: int): nat {
    if a <= b then b - a else a - b
  }

  /** wrap(n, isn): the wire sequence number of absolute sequence number n. */
  function Wrap(n: int, isn: u32): u32 {
    (isn + n) % TWO32
  }

  /** The wrapped value w - k, as `WrappingInt32::operator-` computes it. */
  function Minus(w: u32, k: nat): u32 {
    (w - k) % TWO32
  }

  /**
   * unwrap(w, isn, checkpoint): the absolute sequence number that wraps to w
   * and is closest to checkpoint.  The signed 32-bit difference between w and
   * the wrapped checkpoint is added to the checkpoint; a negative result is
   * moved up by 2^32, as there is no negative absolute sequence number.
   */
  function Unwrap(w: u32, isn: u32, checkpoint: nat): (r: nat)
    ensures Wrap(r, isn) == w
    ensures checkpoint <= r + HALF32
    ensures r < checkpoint + HALF32 || r < TWO32
  {
    var d := (w - Wrap(checkpoint, isn)) % TWO32;
    if d < HALF32 then checkpoint + d
    else if checkpoint + d >= TWO32 then checkpoint + d - TWO32
    else checkpoint + d
  }

  /** Two numbers that wrap to the same value differ by a multiple of 2^32. */
  lemma SameWrap(x: int, y: int, isn: u32)
    requires Wrap(x, isn) == Wrap(y, isn)
    ensures (x - y) % TWO32 == 0
    ensures x != y ==> Dist(x, y) >= TWO32
  {
    var k := (isn + x) / TWO32;
    var l := (isn + y) / TWO32;
    assert isn + x == k * TWO32 + Wrap(x, isn);
    assert isn + y == l * TWO32 + Wrap(y, isn);
    assert x - y == (k - l) * TWO32;
    if x != y {
      assert k - l != 0;
      if k - l > 0 { assert (k - l) * TWO32 >= TWO32; }
      else { assert (k - l) * TWO32 <= -TWO32; }
    }
  }

  /** No absolute sequence number that wraps to w is closer to the checkpoint
      than the one `Unwrap` returns. */
  lemma UnwrapNearest(w: u32, isn: u32, checkpoint: nat, x: nat)
    requires Wrap(x, isn) == w
    ensures Dist(Unwrap(w, isn, checkpoint), checkpoint) <= Dist(x, checkpoint)
  {
    var r := Unwrap(w, isn, checkpoint);
    SameWrap(x, r, isn);
  }

  /** The round trip unwrap(wrap(a)) == a, whenever a lies within
      2^31 of the checkpoint. */
  lemma UnwrapWrap(a: nat, isn: u32, checkpoint: nat)
    requires Dist(a, checkpoint) < HALF32
    ensures Unwrap(Wrap(a, isn), isn, checkpoint) == a
  {
    var r := Unwrap(Wrap(a, isn), isn, checkpoint);
    UnwrapNearest(Wrap(a, isn), isn, checkpoint, a);
    SameWrap(a, r, isn);
  }
}
