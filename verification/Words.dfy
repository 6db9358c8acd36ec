/** 64-bit words as their bits, bit 0 first. */
module Words {
  type Word = w: seq<bool> | |w| == 64 witness seq(64, _ => false)

  function NoWord(): Word { seq(64, _ => false) }

  function Shl(w: Word, s: nat): Word { seq(64, i requires 0 <= i < 64 => i >= s && w[i - s]) }

  function Shr(w: Word, s: nat): Word { seq(64, i requires 0 <= i < 64 => i + s < 64 && w[i + s]) }

  function Or(a: Word, b: Word): Word { seq(64, i requires 0 <= i < 64 => a[i] || b[i]) }

  function XorWord(a: Word, b: Word): Word { seq(64, i requires 0 <= i < 64 => a[i] != b[i]) }

  /** word & ((1 << count) - 1), or the whole word when count is zero. */
  function LowBits(w: Word, count: nat): Word { seq(64, i requires 0 <= i < 64 => (count == 0 || i < count) && w[i]) }
}
