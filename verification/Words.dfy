/**
 The 32-bit word of the target as a vector of bits, most significant bit first.

 Both bitmaps of the collector (the reference-offset bitmap of a class and the mark
 bitmap of a heap) number bits from the most significant end, so that counting leading
 zeroes delivers them in ascending order. Position i of a word is HIGH >> i.
 */
module Words {

  type Word = bits: seq<bool> | |bits| == 32 witness seq(32, i => false)

  function Zeroes(): (w: Word)
    ensures forall j: nat | j < 32 :: !w[j]
  {
    seq(32, i => false)
  }

  const ZERO: Word := Zeroes()

  /** HIGH >> i: the word whose only bit is at position i. */
  function Bit(i: nat): (w: Word)
    requires i < 32
    ensures forall j: nat | j < 32 :: w[j] <==> j == i
  {
    seq(32, j => j == i)
  }

  /** The operators |, &, ~ of C on unsigned words. */
  function Or(a: Word, b: Word): (w: Word)
    ensures forall j: nat | j < 32 :: w[j] <==> a[j] || b[j]
  {
    seq(32, j requires 0 <= j < 32 => a[j] || b[j])
  }

  function And(a: Word, b: Word): (w: Word)
    ensures forall j: nat | j < 32 :: w[j] <==> a[j] && b[j]
  {
    seq(32, j requires 0 <= j < 32 => a[j] && b[j])
  }

  function Not(a: Word): (w: Word)
    ensures forall j: nat | j < 32 :: w[j] <==> !a[j]
  {
    seq(32, j requires 0 <= j < 32 => !a[j])
  }

  /** The number a word stands for when its first k bits are read. */
  function Prefix(w: Word, k: nat): nat
    requires k <= 32
  {
    if k == 0 then 0 else 2 * Prefix(w, k - 1) + if w[k - 1] then 1 else 0
  }

  function Value(w: Word): nat {
    Prefix(w, 32)
  }

  /** The abstraction of a word: which positions are set. */
  ghost function Positions(w: Word): set<nat> {
    set i: nat | i < 32 && w[i]
  }

  lemma SomeBit(w: Word)
    requires w != ZERO
    ensures exists i: nat :: i < 32 && w[i]
  {
    assert exists i: nat :: i < 32 && w[i] != ZERO[i];
  }

  lemma PositionsClear(w: Word, i: nat)
    requires i < 32
    ensures Positions(And(w, Not(Bit(i)))) == Positions(w) - {i}
  {
  }

  lemma PositionsOr(a: Word, b: Word)
    ensures Positions(Or(a, b)) == Positions(a) + Positions(b)
  {
  }

  lemma PositionsBit(i: nat)
    requires i < 32
    ensures Positions(Bit(i)) == {i}
  {
  }

  lemma PositionsZero()
    ensures Positions(ZERO) == {}
  {
  }

  function ClzFrom(w: Word, i: nat): (n: nat)
    requires i < 32 && w != ZERO
    requires forall j: nat | j < i :: !w[j]
    ensures i <= n < 32 && w[n]
    ensures forall j: nat | j < n :: !w[j]
    decreases 32 - i
  {
    if w[i] then
      i
    else
      assert i != 31 by {
        SomeBit(w);
      }
      ClzFrom(w, i + 1)
  }

  /** CLZ: the first set position of a nonzero word. */
  function Clz(w: Word): (n: nat)
    requires w != ZERO
    ensures n < 32 && w[n]
    ensures forall j: nat | j < n :: !w[j]
  {
    ClzFrom(w, 0)
  }
}
