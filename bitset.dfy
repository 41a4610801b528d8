/** The candidate set `BitSet<T, N>`: the values `0 .. N-1` that a cell may
    still take, packed into one unsigned word whose bit `v` is 1 when `v` is a
    candidate.  The word is the only state; `insert`, `erase` and `clear`
    update it in place, so the set is a class whose abstract contents are
    `Bits.Elements(word)`.

    The class models the behaviour the header evidently intends.  Beside it
    are the header's `empty`, `full_set`, `mask_from` and the capacity
    constraint as written, each with the lemma that shows where it departs
    from that intent. */
module BitSets {
  import opened Bits
  import Detail

  /** `(1 << n) - 1`: exactly the values `0 .. n-1`, the intended full set. */
  function FullWord(n: nat): (w: Word)
    requires n <= 64
    ensures Elements(w) == Below(n)
    ensures PopCount(w) == n
  {
    Pow2Monotone(n, 64);
    ElementsOfLowMask(n);
    Pow2(n) - 1
  }

  /** `1 << v` at word width: the mask of the single value `v`. */
  function MaskFrom(v: nat): (m: Word)
    requires v < 64
    ensures Elements(m) == {v}
  {
    Pow2Monotone(v + 1, 64);
    ElementsOfPow2(v);
    Pow2(v)
  }

  class BitSet {
    /** `N`, the number of values the set can hold. */
    const capacity: nat
    /** The backing word `set`. */
    var word: Word

    /** The capacity fits the word and no value at or above it is held. */
    ghost predicate Valid()
      reads this
    {
      capacity <= 64 && forall i :: i in Elements(word) ==> i < capacity
    }

    /** The values the set holds. */
    ghost function Contents(): set<nat>
      reads this
    {
      Elements(word)
    }

    /** The default-constructed set: the word starts at 0. */
    constructor (n: nat)
      requires n <= 64
      ensures Valid() && capacity == n
      ensures word == 0 && Contents() == {}
    {
      capacity := n;
      word := 0;
      new;
      ElementsOfZero();
    }

    /** `full_set()`: every value below the capacity, and nothing else. */
    constructor Full(n: nat)
      requires n <= 64
      ensures Valid() && capacity == n
      ensures Contents() == Below(n) && |Contents()| == n
    {
      capacity := n;
      word := FullWord(n);
    }

    /** `empty()`: the set holds nothing exactly when its word is zero. */
    function IsEmpty(): (r: bool)
      reads this
      ensures r <==> Contents() == {}
    {
      ZeroIffEmpty(word);
      word == 0
    }

    /** `size()`: the population count of the word, which is the number of
        values held, never more than the capacity. */
    method Size() returns (n: int)
      requires Valid()
      ensures n == |Contents()|
      ensures n <= capacity
      ensures n == 0 <==> IsEmpty()
    {
      n := Detail.CountSetBits(word);
      SubsetOfBelowSize(Contents(), capacity);
    }

    /** `max_size()`: the capacity, an upper bound on the size. */
    function MaxSize(): (r: nat)
      requires Valid()
      reads this
      ensures r == capacity
      ensures |Contents()| <= r
    {
      SubsetOfBelowSize(Contents(), capacity);
      capacity
    }

    /** `contains(v)`: bit `v` of the word is set. */
    function Contains(v: nat): (r: bool)
      requires v < 64
      reads this
      ensures r <==> v in Contents()
    {
      TestBit(word, v);
      And(word, MaskFrom(v)) != 0
    }

    /** `clear()`: the set becomes empty. */
    method Clear()
      requires Valid()
      modifies this
      ensures Valid() && word == 0
      ensures Contents() == {}
    {
      word := 0;
      ElementsOfZero();
    }

    /** `insert(v)`: reports whether `v` was already held, and afterwards `v`
        is held; no other value changes. */
    method Insert(v: nat) returns (wasPresent: bool)
      requires Valid() && v < capacity
      modifies this
      ensures Valid()
      ensures wasPresent <==> v in old(Contents())
      ensures Contents() == old(Contents()) + {v}
      ensures word == Or(old(word), MaskFrom(v))
    {
      var mask := MaskFrom(v);
      TestBit(word, v);
      wasPresent := And(word, mask) != 0;
      OrWord(word, mask);
      ElementsOfOr(word, v);
      word := Or(word, mask);
    }

    /** `erase(v)`: afterwards `v` is not held; no other value changes, and
        erasing an absent value changes nothing. */
    method Erase(v: nat)
      requires Valid() && v < 64
      modifies this
      ensures Valid()
      ensures Contents() == old(Contents()) - {v}
      ensures v !in old(Contents()) ==> word == old(word)
    {
      var old_word := word;
      ElementsOfAndNot(word, v);
      word := And(word, Not(MaskFrom(v)));
      if v !in old(Contents()) {
        ElementsDetermine(word, old_word);
      }
    }
  }

  /** Inserting the same value twice: the second call reports it present and
      leaves the set as the first call left it. */
  method InsertTwice(s: BitSet, v: nat) returns (first: bool, second: bool)
    requires s.Valid() && v < s.capacity
    modifies s
    ensures s.Valid() && second
    ensures first <==> v in old(s.Contents())
    ensures s.Contents() == old(s.Contents()) + {v}
  {
    first := s.Insert(v);
    var after := s.word;
    second := s.Insert(v);
    ElementsDetermine(s.word, after);
    assert s.word == after;
  }

  /** On words: setting a bit that is already set changes nothing. */
  lemma InsertIdempotent(w: Word, v: nat)
    requires v < 64
    ensures Or(w, MaskFrom(v)) < WORD_LIMIT
    ensures Or(Or(w, MaskFrom(v)), MaskFrom(v)) == Or(w, MaskFrom(v))
  {
    var m := MaskFrom(v);
    OrWord(w, m);
    var once: Word := Or(w, m);
    OrWord(once, m);
    ElementsOfOr(w, v);
    ElementsOfOr(once, v);
    ElementsDetermine(Or(once, m), once);
  }

  /** On words: erasing a value just inserted restores a set that did not
      hold it. */
  lemma EraseUndoesInsert(w: Word, v: nat)
    requires v < 64 && v !in Elements(w)
    ensures Or(w, MaskFrom(v)) < WORD_LIMIT
    ensures And(Or(w, MaskFrom(v)), Not(MaskFrom(v))) == w
  {
    var m := MaskFrom(v);
    OrWord(w, m);
    var once: Word := Or(w, m);
    ElementsOfOr(w, v);
    ElementsOfAndNot(once, v);
    ElementsDetermine(And(once, Not(m)), w);
  }

  // ---- the header as written ----

  /** `empty()` as written returns the word itself converted to `bool`. */
  function EmptyAsWritten(w: Word): bool
  {
    w != 0
  }

  /** ... so it answers true exactly when the set is NOT empty. */
  lemma EmptyAsWrittenInverted(w: Word)
    ensures EmptyAsWritten(w) <==> Elements(w) != {}
  {
    ZeroIffEmpty(w);
  }

  /** `full_set()` as written: `~(1 << n)` on an `int`, widened to the word.
      For `n < 31` the shift is defined and the complement sign-extends, so
      the word has every bit set except bit `n`. */
  function FullSetAsWritten(n: nat): Word
    requires n < 31
  {
    Not(MaskFrom(n))
  }

  /** It holds every value below the capacity, but also every value from
      `n + 1` up to 63, and its size is 63 instead of `n`. */
  lemma FullSetAsWrittenTooLarge(n: nat)
    requires n < 31
    ensures Below(n) <= Elements(FullSetAsWritten(n))
    ensures n !in Elements(FullSetAsWritten(n)) && 63 in Elements(FullSetAsWritten(n))
    ensures PopCount(FullSetAsWritten(n)) == 63
    ensures FullSetAsWritten(n) != FullWord(n)
  {
    var e := Elements(FullSetAsWritten(n));
    ElementsOfNot(MaskFrom(n));
    assert e == Below(64) - {n};
    assert Below(64) == e + {n};
    assert 63 !in Elements(FullWord(n));
  }

  /** `mask_from(v)` as written: `1 << v` on an `int`, widened to the word.
      Up to 30 that is the single bit `v`; at 31 the shift lands on the sign
      bit (`INT_MIN`), which sign-extends to bits 31 .. 63.  Shifts of 32 or
      more are undefined and are not modelled. */
  function MaskFromAsWritten(v: nat): Word
    requires v <= 31
  {
    if v < 31 then MaskFrom(v) else Not(FullWord(31))
  }

  /** The as-written mask agrees with the word-width mask below 31 and
      differs at 31, where it also covers 32 .. 63. */
  lemma MaskFromAsWrittenAt31()
    ensures forall v :: 0 <= v < 31 ==> MaskFromAsWritten(v) == MaskFrom(v)
    ensures 32 in Elements(MaskFromAsWritten(31))
    ensures Elements(MaskFromAsWritten(31)) != {31}
  {
    var low := FullWord(31);
    assert 32 !in Elements(low);
    BitNot(low, 32);
    assert 32 in Elements(Not(low));
  }

  /** The class constraint as written: `sizeof(T) >= N` compares the word's
      size in bytes with the capacity in values. */
  predicate CapacityAllowedAsWritten(bytes: nat, n: nat)
  {
    bytes >= n
  }

  /** The constraint intended: the capacity fits the word's bits. */
  predicate CapacityAllowed(bytes: nat, n: nat)
  {
    n <= 8 * bytes
  }

  /** A board of box size `b` uses a 64-bit set of capacity `b*b`; as
      written the constraint admits only `b == 2`. */
  lemma BoardCapacitiesAsWritten(b: nat)
    requires 1 < b <= 8
    ensures CapacityAllowedAsWritten(8, b * b) <==> b == 2
  {
    if b >= 3 {
      assert b * b >= 3 * b >= 9;
    }
  }

  /** The intended constraint admits every box size from 2 to 8. */
  lemma BoardCapacities(b: nat)
    requires 1 < b <= 8
    ensures CapacityAllowed(8, b * b)
  {
    assert b * b <= 8 * b <= 64;
  }
}
