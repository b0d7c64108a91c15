/** A reference semantics for computation codes: the Hack ALU on 16-bit words,
    with words as the naturals below 2^16 and two's-complement arithmetic
    modulo 2^16. The computation table is checked against it. */
module HackAlu {
  import opened Numerals

  type Word = x: int | 0 <= x < 65536

  /** Bitwise negation: in two's complement, `!x` is `-x - 1`. */
  function Not(x: Word): Word
  {
    65535 - x
  }

  function Add(x: Word, y: Word): Word
  {
    (x + y) % 65536
  }

  function Sub(x: Word, y: Word): Word
  {
    (x - y) % 65536
  }

  /** The bitwise AND of the low `k` bits of `x` and `y`. */
  function AndBits(k: nat, x: nat, y: nat): (r: nat)
    ensures r < Pow2(k)
  {
    if k == 0 then 0
    else 2 * AndBits(k - 1, x / 2, y / 2) + (if x % 2 == 1 && y % 2 == 1 then 1 else 0)
  }

  /** The bitwise OR of the low `k` bits of `x` and `y`. */
  function OrBits(k: nat, x: nat, y: nat): (r: nat)
    ensures r < Pow2(k)
  {
    if k == 0 then 0
    else 2 * OrBits(k - 1, x / 2, y / 2) + (if x % 2 == 1 || y % 2 == 1 then 1 else 0)
  }

  function And(x: Word, y: Word): Word
  {
    Pow2Word();
    AndBits(16, x, y)
  }

  function Or(x: Word, y: Word): Word
  {
    Pow2Word();
    OrBits(16, x, y)
  }

  /** ANDing with all ones, on either side, changes nothing. */
  lemma {:induction false} AndAllOnes(k: nat, x: nat)
    requires x < Pow2(k)
    ensures AndBits(k, x, Pow2(k) - 1) == x && AndBits(k, Pow2(k) - 1, x) == x
  {
    if k > 0 {
      assert (Pow2(k) - 1) / 2 == Pow2(k - 1) - 1 && (Pow2(k) - 1) % 2 == 1;
      AndAllOnes(k - 1, x / 2);
    }
  }

  /** De Morgan: the complement of the AND of complements is the OR. */
  lemma {:induction false} DeMorgan(k: nat, x: nat, y: nat)
    requires x < Pow2(k) && y < Pow2(k)
    ensures Pow2(k) - 1 - AndBits(k, Pow2(k) - 1 - x, Pow2(k) - 1 - y) == OrBits(k, x, y)
  {
    if k > 0 {
      var h := Pow2(k - 1);
      assert (2 * h - 1 - x) / 2 == h - 1 - x / 2 && (2 * h - 1 - x) % 2 == 1 - x % 2;
      assert (2 * h - 1 - y) / 2 == h - 1 - y / 2 && (2 * h - 1 - y) % 2 == 1 - y % 2;
      DeMorgan(k - 1, x / 2, y / 2);
    }
  }

  /** ANDing a word with all ones (the complement of zero), on either side,
      gives the word back. */
  lemma AndWithOnes(x: Word)
    ensures And(x, Not(0)) == x && And(Not(0), x) == x
  {
    Pow2Word();
    AndAllOnes(16, x);
  }

  /** The complement of the AND of the complements of two words is their OR. */
  lemma OrByDeMorgan(x: Word, y: Word)
    ensures Not(And(Not(x), Not(y))) == Or(x, y)
  {
    Pow2Word();
    DeMorgan(16, x, y);
    assert And(Not(x), Not(y)) == AndBits(16, Pow2(16) - 1 - x, Pow2(16) - 1 - y);
  }

  /** The Hack ALU: zero and/or negate each input, add or AND them, and
      optionally negate the output. */
  function Alu(zx: bool, nx: bool, zy: bool, ny: bool, f: bool, no: bool, x: Word, y: Word): Word
  {
    var x1 := if zx then 0 else x;
    var x2 := if nx then Not(x1) else x1;
    var y1 := if zy then 0 else y;
    var y2 := if ny then Not(y1) else y1;
    var out := if f then Add(x2, y2) else And(x2, y2);
    if no then Not(out) else out
  }
}
