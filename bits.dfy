/**
 * Bit positions of a 32-bit key, the walk path a key selects, the prefix length of a mask, and
 * masks made of leading one bits.
 */
module Bits {

  /** `startbit`: the most significant bit, where every walk begins. */
  const StartBit: bv32 := 0x8000_0000

  /** The cursor `bit` after `d` shifts (`bit >>= 1` each level); it is 0 once all 32 bits are used up. */
  function Bit(d: nat): bv32
    requires d <= 32
  {
    StartBit >> d
  }

  /** After 32 shifts the cursor is 0: no bit of any mask is set there. */
  lemma BitEnd()
    ensures Bit(32) == 0
  {
  }

  /** `bit >>= 1` moves the cursor one level down. */
  lemma BitNext(d: nat)
    requires d < 32
    ensures Bit(d) >> 1 == Bit(d + 1)
  {
  }

  /** Above depth 32 the cursor is a single one bit: adding it to a multiple of it wraps only to 0. */
  lemma BitSingle(d: nat)
    requires d < 32
    ensures Bit(d) != 0 && Bit(d) & (Bit(d) - 1) == 0
  {
  }

  /** `x&bit != 0` for the cursor at depth `d`. */
  predicate IsSet(x: bv32, d: nat)
    requires d <= 32
  {
    x & Bit(d) != 0
  }

  /** The child choices a key makes, most significant bit first: `true` is right (a 1 bit). */
  function KeyPath(key: bv32): (p: seq<bool>)
    ensures |p| == 32
  {
    seq(32, d requires 0 <= d < 32 => IsSet(key, d))
  }

  /** The first position at or after `d` where the mask has a zero bit (32 if there is none). */
  function Ones(mask: bv32, d: nat): (n: nat)
    requires d <= 32
    ensures d <= n <= 32
    decreases 32 - d
  {
    if d == 32 || !IsSet(mask, d) then d else Ones(mask, d + 1)
  }

  /** Between `e` and `Ones(mask, e)`, a position is set exactly when it comes before `Ones(mask, e)`. */
  lemma {:induction false} OnesAt(mask: bv32, e: nat, d: nat)
    requires e <= d && e <= 32 && d <= Ones(mask, e)
    ensures IsSet(mask, d) == (d < Ones(mask, e))
    decreases d - e
  {
    if e < d {
      OnesAt(mask, e + 1, d);
    } else if d == 32 {
      BitEnd();
    }
  }

  /** How many levels a walk goes down for `mask`: the number of its leading one bits. */
  function PrefixLen(mask: bv32): (n: nat)
    ensures n <= 32
  {
    Ones(mask, 0)
  }

  /** The path of `key` cut to the prefix length of `mask`: the trie position of `key/mask`. */
  function Prefix(key: bv32, mask: bv32): (p: seq<bool>)
    ensures |p| == PrefixLen(mask)
  {
    KeyPath(key)[..PrefixLen(mask)]
  }

  /**
   * One level of a walk at depth `d <= PrefixLen(mask)` with the cursor `bit`: `mask&bit == 0`
   * exactly when the mask's leading ones are used up; before that, `key&bit != 0` says the key
   * goes right, and `bit >>= 1` gives the cursor of the next level.
   */
  lemma Walk(key: bv32, mask: bv32, d: nat, bit: bv32)
    requires d <= PrefixLen(mask) && bit == Bit(d)
    ensures (mask & bit == 0) == (d == PrefixLen(mask))
    ensures d < PrefixLen(mask) ==> (key & bit != 0) == KeyPath(key)[d] && bit >> 1 == Bit(d + 1)
  {
    WalkStop(mask, d, bit);
    if d < PrefixLen(mask) {
      WalkKey(key, d, bit);
      BitNext(d);
    }
  }

  lemma WalkStop(mask: bv32, d: nat, bit: bv32)
    requires d <= PrefixLen(mask) && bit == Bit(d)
    ensures (mask & bit == 0) == (d == PrefixLen(mask))
  {
    OnesAt(mask, 0, d);
  }

  lemma WalkKey(key: bv32, d: nat, bit: bv32)
    requires d < 32 && bit == Bit(d)
    ensures (key & bit != 0) == KeyPath(key)[d]
  {
  }

  /** The mask of the top `n` bits, the form every `/n` suffix denotes. */
  function TopMask(n: nat): bv32
    requires n <= 32
  {
    !(0xffff_ffff >> n)
  }

  lemma TopIn(n: nat, d: nat)
    requires d < n <= 32
    ensures IsSet(TopMask(n), d)
  {
  }

  lemma TopOut(n: nat, d: nat)
    requires n <= d < 32
    ensures !IsSet(TopMask(n), d)
  {
  }

  /** A mask of the top `n` bits makes every walk go exactly `n` levels down. */
  lemma TopLen(n: nat)
    requires n <= 32
    ensures PrefixLen(TopMask(n)) == n
  {
    var m := PrefixLen(TopMask(n));
    OnesAt(TopMask(n), 0, if m < n then m else n);
    if m < n {
      TopIn(n, m);
    } else if n < m {
      TopOut(n, n);
    }
  }

  /** `0xffffffff << (32 - n)`, the form `parsecidr4` computes, is the mask of the top `n` bits. */
  lemma TopShift(n: nat)
    requires 1 <= n <= 32
    ensures (0xffff_ffff as bv32) << (32 - n) == TopMask(n)
  {
  }

  /** No leading ones: the mask 0 selects the root alone. */
  lemma TopNone()
    ensures TopMask(0) == 0
  {
  }

  /** The top byte of a key: all that `NewTree`'s preallocation steps through. */
  function TopByte(x: bv32): bv8 {
    (x >> 24) as bv8
  }

  /** A top byte widened back to a key whose lower 24 bits are 0. */
  function Widen(t: bv8): bv32 {
    (t as bv32) << 24
  }

  lemma TopOfWiden(t: bv8)
    ensures TopByte(Widen(t)) == t && (Widen(t) == 0 <==> t == 0)
  {
  }

  /** Adding keys whose lower 24 bits are 0 adds their top bytes, wrapping the same way. */
  lemma WidenAdd(a: bv8, b: bv8)
    ensures Widen(a) + Widen(b) == Widen(a + b)
  {
  }

  /** Masking a key with a widened byte masks its top byte. */
  lemma WidenAnd(k: bv32, m: bv8)
    ensures k & Widen(m) == Widen(TopByte(k) & m)
  {
  }

  /**
   * Above depth 6 the cursor and the mask of the top `d + 1` bits live in the top byte: the cursor
   * is a single bit there and the mask clears exactly the bits below it.
   */
  lemma ByteLevel(d: nat)
    requires d < 6
    ensures var i := TopByte(Bit(d));
      Bit(d) == Widen(i) && i != 0 && i & (i - 1) == 0 && TopMask(d + 1) == Widen(!(i - 1))
  {
  }

  /**
   * A byte at or past a multiple `t` of the single bit `i`, and before the next multiple (or
   * anywhere past `t` when the next multiple wraps to 0), agrees with `t` at `i` and above.
   */
  lemma SameBlock(t: bv8, i: bv8, u: bv8)
    requires i != 0 && i & (i - 1) == 0 && t & (i - 1) == 0
    requires t <= u && (u < t + i || t + i == 0)
    ensures u & !(i - 1) == t & !(i - 1)
  {
  }

  /** Masking with `m` keeps a single bit `b` that `m` has. */
  lemma MaskedBit(x: bv32, m: bv32, b: bv32)
    requires b != 0 && b & (b - 1) == 0 && m & b != 0
    ensures (x & m) & b == x & b
  {
  }

  /** Keys that agree under the mask of the top `n` bits walk the same first `n` levels. */
  lemma SameTop(k: bv32, key: bv32, n: nat)
    requires n <= 32 && k & TopMask(n) == key & TopMask(n)
    ensures KeyPath(k)[..n] == KeyPath(key)[..n]
  {
    forall j | 0 <= j < n
      ensures IsSet(k, j) == IsSet(key, j)
    {
      TopIn(n, j);
      BitSingle(j);
      MaskedBit(k, TopMask(n), Bit(j));
      MaskedBit(key, TopMask(n), Bit(j));
    }
  }

  /**
   * Stepping keys by the cursor `Bit(d)` from a multiple `key` of it: every key whose top byte
   * lies from `key`'s up to the next step (or past `key`'s once the step wraps to 0) walks the
   * same first `d + 1` levels as `key`.
   */
  lemma SameLevel(key: bv32, t: bv8, d: nat, k: bv32)
    requires d < 6 && key == Widen(t) && t & (TopByte(Bit(d)) - 1) == 0
    requires t <= TopByte(k) && (TopByte(k) < t + TopByte(Bit(d)) || t + TopByte(Bit(d)) == 0)
    ensures KeyPath(k)[..d + 1] == KeyPath(key)[..d + 1]
  {
    var i := TopByte(Bit(d));
    ByteLevel(d);
    TopOfWiden(t);
    SameBlock(t, i, TopByte(k));
    WidenAnd(k, !(i - 1));
    WidenAnd(key, !(i - 1));
    SameTop(k, key, d + 1);
  }

  /** `mask >>= 1; mask |= startbit` turns the mask of the top `n` bits into that of the top `n + 1`. */
  lemma TopGrow(n: nat)
    requires n < 32
    ensures (TopMask(n) >> 1) | StartBit == TopMask(n + 1)
  {
  }
}
