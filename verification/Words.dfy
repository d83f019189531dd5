/** 64-bit words, as the sequences of their bits, lowest first. */
module Words {
  type Word = w: seq<bool> | |w| == 64 witness seq(64, _ => false)

  const ZERO: Word := seq(64, _ => false)

  function And(p: Word, q: Word): Word {
    seq(64, i requires 0 <= i < 64 => p[i] && q[i])
  }

  function Or(p: Word, q: Word): Word {
    seq(64, i requires 0 <= i < 64 => p[i] || q[i])
  }

  function Xor(p: Word, q: Word): Word {
    seq(64, i requires 0 <= i < 64 => p[i] != q[i])
  }

  function Not(p: Word): Word {
    seq(64, i requires 0 <= i < 64 => !p[i])
  }

  /** The bit v shifted left by b places. */
  function Shifted(v: bool, b: nat): Word {
    seq(64, i => i == b && v)
  }

  /** Zero minus the bit v: all ones or all zeros. */
  function Filled(v: bool): Word {
    seq(64, _ => v)
  }
}
