/** Stream positions. The protocol model counts them without bound; the library
    keeps them in 64-bit words and compares them by the sign of a difference.
    This module proves when the two agree. */
module Positions {
  import opened Arithmetic

  const WORD: nat := 0x1_0000_0000_0000_0000
  const HALF: nat := 0x8000_0000_0000_0000

  type Word = w: nat | w < WORD

  // ----- On unbounded positions -----

  /** A reader at `pos` can no longer rely on the bytes there. */
  predicate Expired(pos: nat, freePos: nat, cap: nat) {
    freePos >= pos + cap
  }

  /** Where position `pos` lies in the buffer. */
  function BufIndex(pos: nat, cap: nat): (ix: nat)
    requires cap > 0
    ensures ix < cap
  {
    pos % cap
  }

  // ----- On 64-bit words -----

  function Residue(n: int): Word {
    n % WORD
  }

  /** The signed reading of a 64-bit word. */
  function Signed(w: Word): int {
    if w < HALF then w else w - WORD
  }

  predicate GreaterThanWord(a: Word, b: Word) {
    Signed(Residue(b - a)) < 0
  }

  predicate GreaterOrEqualThanWord(a: Word, b: Word) {
    Signed(Residue(b - a)) <= 0
  }

  predicate ExpiredWord(pos: Word, freePos: Word, cap: Word) {
    GreaterOrEqualThanWord(freePos, Residue(pos + cap))
  }

  lemma ResidueOfDifference(a: int, b: int)
    ensures Residue(Residue(a) - Residue(b)) == Residue(a - b)
  {
    var q := a / WORD - b / WORD;
    assert a - b == q * WORD + (Residue(a) - Residue(b));
    ShiftedResidue(q, Residue(a) - Residue(b));
  }

  lemma ShiftedResidue(q: int, n: int)
    ensures Residue(q * WORD + n) == Residue(n)
  {
    assert n == (n / WORD) * WORD + n % WORD;
    RemainderUnique(q + n / WORD, n % WORD, WORD);
    assert q * WORD + n == (q + n / WORD) * WORD + n % WORD;
  }

  /** The signed difference of two positions less than 2^63 apart is exact. */
  lemma SignedDifference(a: nat, b: nat)
    requires -(HALF as int) <= b - a < HALF
    ensures Signed(Residue(Residue(b) - Residue(a))) == b - a
  {
    ResidueOfDifference(b, a);
    if b < a { ShiftedResidue(1, b - a); }
  }

  /** The wrapped comparisons are the unbounded ones for positions less than 2^63
      apart, in either order. */
  lemma ComparisonsRefine(a: nat, b: nat)
    requires -(HALF as int) <= b - a < HALF
    ensures GreaterThanWord(Residue(a), Residue(b)) <==> a > b
    ensures GreaterOrEqualThanWord(Residue(a), Residue(b)) <==> a >= b
  {
    SignedDifference(a, b);
  }

  /** The wrapped expiry check is the unbounded one, also across the wrap of the
      counters, as long as reader and stream end are less than 2^63 apart. */
  lemma ExpiryRefines(pos: nat, freePos: nat, cap: nat)
    requires cap < HALF
    requires -(HALF as int) <= pos + cap - freePos < HALF
    ensures ExpiredWord(Residue(pos), Residue(freePos), cap) <==> Expired(pos, freePos, cap)
  {
    assert Residue(Residue(pos) + cap) == Residue(pos + cap) by {
      ShiftedResidue(pos / WORD, Residue(pos) + cap);
      assert pos + cap == (pos / WORD) * WORD + (Residue(pos) + cap);
    }
    SignedDifference(freePos, pos + cap);
  }

  /** The reader's test for publishing its position compares raw words. It agrees
      with the unbounded test iff both sides are in the same lap of the counter. */
  lemma PublishTestRefines(pos: nat, bpos: nat, lag: nat)
    requires -(WORD as int) < pos - (bpos + lag) < WORD
    ensures (Residue(pos) >= Residue(bpos + lag) <==> pos >= bpos + lag)
       <==> pos / WORD == (bpos + lag) / WORD
  {
    var p, q := pos / WORD, (bpos + lag) / WORD;
    assert pos == p * WORD + Residue(pos) && bpos + lag == q * WORD + Residue(bpos + lag);
    if p > q { assert p * WORD >= (q + 1) * WORD; }
    if p < q { assert q * WORD >= (p + 1) * WORD; }
  }

  // ----- Masks -----

  function Pow2(k: nat): (r: nat)
    ensures r > 0
  {
    if k == 0 then 1 else 2 * Pow2(k - 1)
  }

  ghost predicate PowerOfTwo(x: nat) {
    exists k: nat :: Pow2(k) == x
  }

  /** Bitwise and, digit by digit. */
  function BitAnd(x: nat, y: nat): nat {
    if x == 0 || y == 0 then 0
    else 2 * BitAnd(x / 2, y / 2) + (if x % 2 == 1 && y % 2 == 1 then 1 else 0)
  }

  predicate IsZeroOrPowerOfTwo(x: Word) {
    BitAnd(x, Residue(x - 1)) == 0
  }

  function IndexMask(cap: Word): Word {
    Residue(cap - 1)
  }

  function BufIndexWord(indexMask: Word, pos: Word): nat {
    BitAnd(pos, indexMask)
  }

  lemma {:induction false} BitAndMask(x: nat, k: nat)
    ensures BitAnd(x, Pow2(k) - 1) == x % Pow2(k)
  {
    if k > 0 {
      BitAndMask(x / 2, k - 1);
      var h := Pow2(k - 1);
      assert (Pow2(k) - 1) / 2 == h - 1;
      HalfRemainder(x, h);
    }
  }

  lemma HalfRemainder(x: nat, h: nat)
    requires h > 0
    ensures x % (2 * h) == 2 * ((x / 2) % h) + x % 2
  {
    var q, r := (x / 2) / h, (x / 2) % h;
    assert x / 2 == q * h + r;
    assert x == q * (2 * h) + (2 * r + x % 2);
    RemainderUnique(q, 2 * r + x % 2, 2 * h);
  }

  lemma PowerOfTwoHalves(x: nat)
    requires x > 0 && x % 2 == 0
    ensures PowerOfTwo(x) <==> PowerOfTwo(x / 2)
  {
    if PowerOfTwo(x / 2) {
      var k: nat :| Pow2(k) == x / 2;
      assert Pow2(k + 1) == x;
    }
    if PowerOfTwo(x) {
      var k: nat :| Pow2(k) == x;
      assert Pow2(k - 1) == x / 2;
    }
  }

  lemma OddPowerOfTwo(x: nat)
    requires x % 2 == 1
    ensures PowerOfTwo(x) <==> x == 1
  {
    assert Pow2(0) == 1;
  }

  /** For positive numbers x & (x - 1) is zero exactly at the powers of two. */
  lemma {:induction false} MaskedByPredecessor(x: nat)
    requires x > 0
    ensures BitAnd(x, x - 1) == 0 <==> PowerOfTwo(x)
  {
    hide PowerOfTwo;
    if x % 2 == 0 {
      PowerOfTwoHalves(x);
      MaskedByPredecessor(x / 2);
      assert (x - 1) / 2 == x / 2 - 1;
    } else {
      OddPowerOfTwo(x);
      BitAndSelf(x / 2);
      assert (x - 1) / 2 == x / 2;
    }
  }

  lemma {:induction false} BitAndSelf(x: nat)
    ensures BitAnd(x, x) == x
  {
    if x > 0 { BitAndSelf(x / 2); }
  }

  /** The size test characterises exactly zero and the powers of two. */
  lemma SizeTest(x: Word)
    ensures IsZeroOrPowerOfTwo(x) <==> x == 0 || PowerOfTwo(x)
  {
    if x > 0 { MaskedByPredecessor(x); }
  }

  lemma IndexOfPower(pos: nat, cap: Word, k: nat)
    requires Pow2(k) == cap
    ensures BufIndexWord(IndexMask(cap), Residue(pos)) == BufIndex(pos, cap)
  {
    var j := PowerDividesWord(k);
    BitAndMask(Residue(pos), k);
    RemainderOfResidue(pos, j, cap);
    hide BitAnd, Pow2;
    assert IndexMask(cap) == cap - 1;
  }

  /** For every buffer size that passes the test, masking the low 64 bits of a
      position gives the unbounded position modulo the size. */
  lemma IndexRefines(pos: nat, cap: Word)
    requires IsZeroOrPowerOfTwo(cap) && cap > 0
    ensures BufIndexWord(IndexMask(cap), Residue(pos)) == BufIndex(pos, cap)
  {
    SizeTest(cap);
    hide IsZeroOrPowerOfTwo;
    var k: nat :| Pow2(k) == cap;
    IndexOfPower(pos, cap, k);
    hide *;
  }

  lemma RemainderOfResidue(pos: nat, j: nat, cap: nat)
    requires cap > 0 && j * cap == WORD
    ensures Residue(pos) % cap == pos % cap
  {
    var q, w := pos / WORD, Residue(pos);
    calc {
      pos;
      q * WORD + w;
      q * (j * cap) + w;
      (q * j) * cap + w;
      (q * j) * cap + ((w / cap) * cap + w % cap);
      (q * j + w / cap) * cap + w % cap;
    }
    RemainderUnique(q * j + w / cap, w % cap, cap);
  }

  lemma {:induction false} PowerDividesWord(k: nat) returns (j: nat)
    requires Pow2(k) < WORD
    ensures j * Pow2(k) == WORD
  {
    assert k < 64 by { if k >= 64 { PowerMonotone(64, k); assert Pow2(64) == WORD by { PowerOfWord(); } } }
    PowerSum(64 - k, k);
    PowerOfWord();
    j := Pow2(64 - k);
  }

  lemma PowerOfWord()
    ensures Pow2(64) == WORD
  {
    PowerDoubled(4, 16);
    PowerDoubled(8, 0x100);
    PowerDoubled(16, 0x1_0000);
    PowerDoubled(32, 0x1_0000_0000);
  }

  lemma PowerDoubled(k: nat, p: nat)
    requires Pow2(k) == p
    ensures Pow2(2 * k) == p * p
  {
    PowerSum(k, k);
  }

  lemma {:induction false} PowerSum(a: nat, b: nat)
    ensures Pow2(a + b) == Pow2(a) * Pow2(b)
  {
    if a > 0 {
      PowerSum(a - 1, b);
      assert Pow2(a + b) == 2 * (Pow2(a - 1) * Pow2(b));
    }
  }

  lemma {:induction false} PowerMonotone(a: nat, b: nat)
    requires a <= b
    ensures Pow2(a) <= Pow2(b)
  {
    if a < b { PowerMonotone(a, b - 1); }
  }
}
