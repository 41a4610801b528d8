/** Unsigned 64-bit words and the bit operations the candidate set uses.

    A word is an integer in `[0, 2^64)`.  `&`, `|` and `~` are defined bit by
    bit through the binary expansion (`x % 2` is bit 0, `x / 2` drops it), so
    every fact below is an induction over bit positions.  A word `w` stands
    for the set `Elements(w)` of the positions `i < 64` whose bit is 1, and
    `PopCount(w)` is the size of that set. */
module Bits {

  /** 2^64: every word is below it. */
  const WORD_LIMIT: int := Pow2(64)

  /** An unsigned 64-bit word (`std::uint64_t`). */
  type Word = x: int | 0 <= x < WORD_LIMIT

  /** `1 << n` without overflow. */
  function Pow2(n: nat): (r: nat)
    ensures r >= 1
  {
    if n == 0 then 1 else 2 * Pow2(n - 1)
  }

  lemma {:induction false} Pow2Monotone(m: nat, n: nat)
    requires m <= n
    ensures Pow2(m) <= Pow2(n)
    decreases n
  {
    if m < n {
      Pow2Monotone(m, n - 1);
    }
  }

  /** Bit `i` of `x` is 1. */
  predicate Bit(x: nat, i: nat)
    decreases i
  {
    if i == 0 then x % 2 == 1 else Bit(x / 2, i - 1)
  }

  /** `a & b` */
  function And(a: nat, b: nat): (r: nat)
    ensures r <= a && r <= b
  {
    if a == 0 || b == 0 then 0
    else 2 * And(a / 2, b / 2) + (if a % 2 == 1 && b % 2 == 1 then 1 else 0)
  }

  /** `a | b` */
  function Or(a: nat, b: nat): (r: nat)
    decreases a + b
  {
    if a == 0 then b
    else if b == 0 then a
    else 2 * Or(a / 2, b / 2) + (if a % 2 == 1 || b % 2 == 1 then 1 else 0)
  }

  /** `~a` at word width. */
  function Not(a: Word): Word
  {
    WORD_LIMIT - 1 - a
  }

  /** The positions held by `x`. */
  ghost function Elements(x: nat): set<nat>
  {
    set i: nat | i < 64 && Bit(x, i)
  }

  /** Number of 1-bits of `x`. */
  ghost function PopCount(x: nat): nat
  {
    |Elements(x)|
  }

  /** The positions `0 .. n-1`, a set of size `n`. */
  ghost function Below(n: nat): (r: set<nat>)
    ensures forall i: nat :: i in r <==> i < n
    ensures |r| == n
  {
    if n == 0 then {}
    else
      var s := Below(n - 1);
      assert n - 1 !in s;
      s + {n - 1}
  }

  // ---- single bits ----

  lemma {:induction false} BitZero(i: nat)
    ensures !Bit(0, i)
  {
    if i > 0 {
      BitZero(i - 1);
    }
  }

  /** No bit at or above `n` is set in a number below `2^n`. */
  lemma {:induction false} BitAbove(x: nat, n: nat, i: nat)
    requires x < Pow2(n) && n <= i
    ensures !Bit(x, i)
    decreases i
  {
    if n == 0 {
      assert x == 0;
      BitZero(i);
    } else {
      BitAbove(x / 2, n - 1, i - 1);
    }
  }

  lemma {:induction false} BitAnd(a: nat, b: nat, i: nat)
    ensures Bit(And(a, b), i) <==> Bit(a, i) && Bit(b, i)
    decreases i
  {
    if a == 0 || b == 0 {
      BitZero(i);
    } else if i > 0 {
      BitAnd(a / 2, b / 2, i - 1);
    }
  }

  lemma {:induction false} BitOr(a: nat, b: nat, i: nat)
    ensures Bit(Or(a, b), i) <==> Bit(a, i) || Bit(b, i)
    decreases i
  {
    if a == 0 || b == 0 {
      BitZero(i);
    } else if i > 0 {
      BitOr(a / 2, b / 2, i - 1);
    }
  }

  /** Below `2^n`, `2^n - 1 - a` flips each of the low `n` bits of `a`. */
  lemma {:induction false} BitComplement(a: nat, n: nat, i: nat)
    requires a < Pow2(n) && i < n
    ensures Bit(Pow2(n) - 1 - a, i) <==> !Bit(a, i)
    decreases i
  {
    if i > 0 {
      assert (Pow2(n) - 1 - a) / 2 == Pow2(n - 1) - 1 - a / 2;
      BitComplement(a / 2, n - 1, i - 1);
    }
  }

  lemma BitNot(a: Word, i: nat)
    requires i < 64
    ensures Bit(Not(a), i) <==> !Bit(a, i)
  {
    BitComplement(a, 64, i);
  }

  lemma {:induction false} BitPow2(v: nat, i: nat)
    ensures Bit(Pow2(v), i) <==> i == v
    decreases i
  {
    if i == 0 {
      if v > 0 {
        assert Pow2(v) % 2 == 0;
      }
    } else if v == 0 {
      assert Pow2(0) / 2 == 0;
      BitZero(i - 1);
    } else {
      BitPow2(v - 1, i - 1);
    }
  }

  lemma BitLowMask(n: nat, i: nat)
    ensures Bit(Pow2(n) - 1, i) <==> i < n
  {
    if i < n {
      BitComplement(0, n, i);
      BitZero(i);
    } else {
      BitAbove(Pow2(n) - 1, n, i);
    }
  }

  // ---- words as sets of positions ----

  lemma ElementsOfZero()
    ensures Elements(0) == {}
  {
    forall i: nat ensures !Bit(0, i) {
      BitZero(i);
    }
  }

  /** `1 << v` holds exactly `v`. */
  lemma ElementsOfPow2(v: nat)
    requires v < 64
    ensures Elements(Pow2(v)) == {v}
  {
    forall i: nat ensures Bit(Pow2(v), i) <==> i == v {
      BitPow2(v, i);
    }
  }

  /** `w | (1 << v)` adds `v`. */
  lemma ElementsOfOr(w: nat, v: nat)
    requires v < 64
    ensures Elements(Or(w, Pow2(v))) == Elements(w) + {v}
  {
    forall i: nat ensures Bit(Or(w, Pow2(v)), i) <==> Bit(w, i) || i == v {
      BitOr(w, Pow2(v), i);
      BitPow2(v, i);
    }
  }

  /** `w & ~(1 << v)` removes `v`. */
  lemma ElementsOfAndNot(w: nat, v: nat)
    requires v < 64
    ensures Pow2(v) < WORD_LIMIT
    ensures Elements(And(w, Not(Pow2(v)))) == Elements(w) - {v}
  {
    Pow2Monotone(v + 1, 64);
    forall i: nat | i < 64 ensures Bit(And(w, Not(Pow2(v))), i) <==> Bit(w, i) && i != v {
      BitAnd(w, Not(Pow2(v)), i);
      BitNot(Pow2(v), i);
      BitPow2(v, i);
    }
  }

  /** `~w` holds exactly the positions `w` does not. */
  lemma ElementsOfNot(w: Word)
    ensures Elements(Not(w)) == Below(64) - Elements(w)
  {
    var c := Not(w);
    forall i: nat | i < 64 ensures Bit(c, i) <==> !Bit(w, i) {
      BitNot(w, i);
    }
  }

  /** `(1 << n) - 1` holds exactly `0 .. n-1`. */
  lemma ElementsOfLowMask(n: nat)
    requires n <= 64
    ensures Elements(Pow2(n) - 1) == Below(n)
  {
    var m := Pow2(n) - 1;
    forall i: nat ensures Bit(m, i) <==> i < n {
      BitLowMask(n, i);
    }
  }

  /** `a | b` of two words is a word. */
  lemma {:induction false} OrBelow(a: nat, b: nat, n: nat)
    requires a < Pow2(n) && b < Pow2(n)
    ensures Or(a, b) < Pow2(n)
    decreases n
  {
    if a != 0 && b != 0 {
      OrBelow(a / 2, b / 2, n - 1);
    }
  }

  lemma OrWord(a: Word, b: Word)
    ensures Or(a, b) < WORD_LIMIT
  {
    OrBelow(a, b, 64);
  }

  /** The lowest 1-bit of a non-zero number. */
  function Lowest(x: nat): (k: nat)
    requires x != 0
    ensures Bit(x, k)
    ensures forall j :: 0 <= j < k ==> !Bit(x, j)
  {
    if x % 2 == 1 then 0
    else
      var k := 1 + Lowest(x / 2);
      assert forall j :: 0 < j < k ==> (Bit(x, j) <==> Bit(x / 2, j - 1));
      k
  }

  /** In `x - 1`, the bits below the lowest 1-bit of `x` are set, that bit is
      cleared, and the higher bits are those of `x`. */
  lemma {:induction false} BitPredecessor(x: nat, i: nat)
    requires x != 0
    ensures Bit(x - 1, i) <==> (i < Lowest(x) || (i > Lowest(x) && Bit(x, i)))
    decreases i
  {
    if x % 2 == 1 {
      if i > 0 {
        assert (x - 1) / 2 == x / 2;
      }
    } else if i > 0 {
      assert (x - 1) / 2 == x / 2 - 1;
      BitPredecessor(x / 2, i - 1);
    }
  }

  /** A word is zero exactly when it holds no position. */
  lemma ZeroIffEmpty(w: Word)
    ensures w == 0 <==> Elements(w) == {}
  {
    if w == 0 {
      ElementsOfZero();
    } else {
      var k := Lowest(w);
        if k >= 64 {
        BitAbove(w, 64, k);
      }
      assert k in Elements(w);
    }
  }

  /** Kernighan's step: `x & (x - 1)` drops exactly the lowest element of `x`. */
  lemma ClearLowest(x: nat)
    requires x != 0
    ensures Elements(And(x, x - 1)) == Elements(x) - {Lowest(x)}
  {
    forall i: nat ensures Bit(And(x, x - 1), i) <==> Bit(x, i) && i != Lowest(x) {
      BitAnd(x, x - 1, i);
      BitPredecessor(x, i);
    }
  }

  /** Hence each Kernighan step lowers the population count of a word by one. */
  lemma ClearLowestCount(x: Word)
    requires x != 0
    ensures And(x, x - 1) < x
    ensures PopCount(And(x, x - 1)) == PopCount(x) - 1
  {
    ClearLowest(x);
    var k := Lowest(x);
    if k >= 64 {
      BitAbove(x, 64, k);
    }
    assert k in Elements(x);
  }

  /** `w & (1 << v)` is non-zero exactly when `w` holds `v`. */
  lemma TestBit(w: nat, v: nat)
    requires v < 64
    ensures And(w, Pow2(v)) != 0 <==> v in Elements(w)
  {
    var t := And(w, Pow2(v));
    forall i: nat ensures Bit(t, i) <==> Bit(w, i) && i == v {
      BitAnd(w, Pow2(v), i);
      BitPow2(v, i);
    }
    if t == 0 {
      BitZero(v);
    } else {
      var k := Lowest(t);
      assert k == v;
    }
  }

  /** Numbers below `2^n` are determined by their low `n` bits. */
  lemma {:induction false} BitsDetermine(a: nat, b: nat, n: nat)
    requires a < Pow2(n) && b < Pow2(n)
    requires forall i :: 0 <= i < n ==> (Bit(a, i) <==> Bit(b, i))
    ensures a == b
    decreases n
  {
    if n > 0 {
      assert Bit(a, 0) <==> Bit(b, 0);
      forall i | 0 <= i < n - 1 ensures Bit(a / 2, i) <==> Bit(b / 2, i) {
        assert Bit(a, i + 1) <==> Bit(b, i + 1);
      }
      BitsDetermine(a / 2, b / 2, n - 1);
    }
  }

  /** A word is determined by the positions it holds. */
  lemma ElementsDetermine(a: Word, b: Word)
    requires Elements(a) == Elements(b)
    ensures a == b
  {
    forall i | 0 <= i < 64 ensures Bit(a, i) <==> Bit(b, i) {
      assert i in Elements(a) <==> i in Elements(b);
    }
    BitsDetermine(a, b, 64);
  }

  /** A set of positions below `n` has at most `n` elements. */
  lemma SubsetOfBelowSize(s: set<nat>, n: nat)
    requires forall i :: i in s ==> i < n
    ensures |s| <= n
  {
    assert s <= Below(n);
    SubsetSize(s, Below(n));
  }

  lemma {:induction false} SubsetSize(a: set<nat>, b: set<nat>)
    requires a <= b
    ensures |a| <= |b|
    decreases |b|
  {
    if a != {} {
      var x :| x in a;
      SubsetSize(a - {x}, b - {x});
    }
  }
}
