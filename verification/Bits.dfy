/** 64-bit words as the sequence of their bits, bit 0 first, with the C operators the
    page allocator applies to its bitmap. A shift count is taken modulo 64, as the
    processor takes it. */
module Bits {

  function Constant(b: bool): (w: seq<bool>)
    ensures |w| == 64
  {
    seq(64, _ => b)
  }

  type Word = w: seq<bool> | |w| == 64 witness Constant(false)

  const ZERO: Word := Constant(false)
  const ONES: Word := Constant(true)

  /** 1UL << i */
  function One(i: nat): Word {
    seq(64, b => b == i % 64)
  }

  function Or(v: Word, w: Word): Word {
    seq(64, b requires 0 <= b < 64 => v[b] || w[b])
  }

  function And(v: Word, w: Word): Word {
    seq(64, b requires 0 <= b < 64 => v[b] && w[b])
  }

  function Xor(v: Word, w: Word): Word {
    seq(64, b requires 0 <= b < 64 => v[b] != w[b])
  }

  function Not(w: Word): Word {
    seq(64, b requires 0 <= b < 64 => !w[b])
  }

  /** w >> k */
  function Shr(w: Word, k: nat): Word {
    seq(64, b requires 0 <= b < 64 => b + k % 64 < 64 && w[b + k % 64])
  }

  /** w << k */
  function Shl(w: Word, k: nat): Word {
    seq(64, b requires 0 <= b < 64 => k % 64 <= b && w[b - k % 64])
  }

  /** s - 1: the borrow flips every bit up to the lowest one that is set. */
  function MinusOne(s: seq<bool>): (r: seq<bool>)
    ensures |r| == |s|
  {
    seq(|s|, b requires 0 <= b < |s| => s[b] != (forall c :: 0 <= c < b ==> !s[c]))
  }

  /** The unsigned integer that bits spell, bit 0 first. */
  function Value(s: seq<bool>): nat {
    if s == [] then 0 else (if s[0] then 1 else 0) + 2 * Value(s[1..])
  }

  lemma {:induction false} MinusOneSubtractsOne(s: seq<bool>)
    requires true in s
    ensures Value(MinusOne(s)) == Value(s) - 1
  {
    var r := MinusOne(s);
    if s[0] {
      assert r[1..] == s[1..];
    } else {
      assert forall b :: 1 <= b < |s| ==> (r[b] <==> s[b] != (forall c :: 1 <= c < b ==> !s[c]));
      assert r[1..] == MinusOne(s[1..]);
      MinusOneSubtractsOne(s[1..]);
    }
  }

  /** number == 64 ? (uint64)-1 : (1UL << number) - 1 */
  function Mask(number: nat): Word {
    if number == 64 then ONES else MinusOne(One(number))
  }

  lemma MaskBit(number: nat, b: nat)
    requires number <= 64 && b < 64
    ensures Mask(number)[b] <==> b < number
  {
    if number < 64 {
      assert One(number)[number];
      assert forall c :: 0 <= c < 64 ==> (One(number)[c] <==> c == number);
    }
  }

  /** *p >> k | *(p + 1) << (64 - k) */
  function Funnel(p: Word, q: Word, k: nat): Word
    requires k < 64
  {
    Or(Shr(p, k), Shl(q, 64 - k))
  }

  /** With k == 0 the second word is shifted by 64, which acts as a shift by 0, so both
      words are or-ed in full. */
  predicate FunnelBit(p: Word, q: Word, k: nat, t: nat)
    requires k < 64 && t < 64
  {
    if k == 0 then p[t] || q[t]
    else if k + t < 64 then p[k + t]
    else q[k + t - 64]
  }

  /** The masked funnel is zero exactly when `number` bits from bit k of the two words on
      are all clear; for k == 0, when the low `number` bits of both words are. */
  lemma FunnelTest(p: Word, q: Word, k: nat, number: nat)
    requires k < 64 && number <= 64
    ensures And(Funnel(p, q, k), Mask(number)) == ZERO
        <==> forall t {:trigger FunnelBit(p, q, k, t)} :: 0 <= t < number ==> !FunnelBit(p, q, k, t)
  {
    var test := And(Funnel(p, q, k), Mask(number));
    forall t | 0 <= t < 64
      ensures test[t] <==> t < number && FunnelBit(p, q, k, t)
    {
      MaskBit(number, t);
    }
    if test != ZERO {
      var t :| 0 <= t < 64 && test[t] != ZERO[t];
      assert FunnelBit(p, q, k, t);
    }
  }

  // ----- bitmaps

  /** Bit n of a bitmap. */
  predicate BitAt(words: seq<Word>, n: nat)
    requires n < 64 * |words|
  {
    words[n / 64][n % 64]
  }

  /** `used` is the bitmap read bit by bit. */
  ghost predicate Reads(words: seq<Word>, used: seq<bool>)
  {
    && |used| == 64 * |words|
    && forall n {:trigger used[n]} :: 0 <= n < |used| ==> used[n] == BitAt(words, n)
  }

  /** Or-ing, and-not-ing or xor-ing one bit of one word changes one entry. */
  lemma UpdateBit(words: seq<Word>, used: seq<bool>, n: nat, w: Word, b: bool)
    requires Reads(words, used) && n < |used|
    requires w[n % 64] == b
    requires forall c :: 0 <= c < 64 && c != n % 64 ==> w[c] == words[n / 64][c]
    ensures Reads(words[n / 64 := w], used[n := b])
  {}
}
