/**
 * The 16-bit words of the Sudoku generator.  Both boards of
 * `struct Sudoku` hold `u16`s: `board` the placed values 0..9, `sol_board`
 * one constraint mask per cell, where a set bit v-1 means that the value v
 * may not be placed in that cell.  A mask is modelled as its sixteen bits,
 * least significant first, so that bit `i` is `m[i]`; the `u16` operators
 * the generator uses (`!`, `&`, `|`, `>>`, `count_ones`, `count_zeros`,
 * `trailing_ones`, comparison with 0) are functions on such words.
 */
module Masks {

  /** A `u16`, as its bits from bit 0 up to bit 15. */
  type Word = s: seq<bool> | |s| == 16 witness seq(16, _ => false)

  /** The word 0. */
  function Zero(): (z: Word)
    ensures forall i :: 0 <= i < 16 ==> !z[i]
  {
    seq(16, _ => false)
  }

  /** A word is 0 exactly when none of its bits is set. */
  lemma ZeroIffNoBit(w: Word)
    ensures w == Zero() <==> forall i :: 0 <= i < 16 ==> !w[i]
  {
    if forall i :: 0 <= i < 16 ==> !w[i] {
      assert w == Zero();
    }
  }

  /** `!a`. */
  function Not(a: Word): (r: Word)
    ensures forall i :: 0 <= i < 16 ==> r[i] == !a[i]
  {
    seq(16, i requires 0 <= i < 16 => !a[i])
  }

  /** `a & b`. */
  function And(a: Word, b: Word): (r: Word)
    ensures forall i :: 0 <= i < 16 ==> r[i] == (a[i] && b[i])
  {
    seq(16, i requires 0 <= i < 16 => a[i] && b[i])
  }

  /** `a | b`. */
  function Or(a: Word, b: Word): (r: Word)
    ensures forall i :: 0 <= i < 16 ==> r[i] == (a[i] || b[i])
  {
    seq(16, i requires 0 <= i < 16 => a[i] || b[i])
  }

  /**
   * The logical right shift `a >> n`: bit i of the result is bit n + i of
   * `a`, and the top n bits are clear.  Rust's `>>` on a `u16` takes
   * amounts up to 15; the shift by 16 (the zero word) serves the proofs.
   */
  function Shr(a: Word, n: nat): Word
    requires n <= 16
  {
    a[n..] + seq(n, _ => false)
  }

  /** Bit i of `a >> n` is bit n + i of `a`, or clear past the top. */
  lemma ShrBit(a: Word, n: nat, i: nat)
    requires n <= 16 && i < 16
    ensures Shr(a, n)[i] == (i + n < 16 && a[i + n])
  {
  }

  /** Bit i of `!m >> n` is the complement of bit n + i of `m`. */
  lemma ShrNotBit(m: Word, n: nat, i: nat)
    requires n <= 16 && i < 16
    ensures Shr(Not(m), n)[i] == (i + n < 16 && !m[i + n])
  {
    ShrBit(Not(m), n, i);
  }

  /** Two shifts are one shift by the sum of the amounts. */
  lemma ShrCompose(a: Word, n: nat, t: nat)
    requires n + t <= 16
    ensures Shr(Shr(a, n), t) == Shr(a, n + t)
  {
    forall i | 0 <= i < 16 ensures Shr(Shr(a, n), t)[i] == Shr(a, n + t)[i] {
      ShrBit(Shr(a, n), t, i);
      ShrBit(a, n + t, i);
      if i + t < 16 {
        ShrBit(a, n, i + t);
      }
    }
  }

  /** A shift by 16 leaves the zero word. */
  lemma ShrAll(a: Word)
    ensures Shr(a, 16) == Zero()
  {
    assert Shr(a, 16) == seq(16, _ => false);
  }

  /**
   * `convert_to_bitmask`: the single-bit mask `1 << (value - 1)` of a
   * value; the value 0 (an empty cell) has the empty mask.  Rust's shift
   * on a `u16` is only defined for amounts below 16.
   */
  function ToBitmask(value: nat): (b: Word)
    requires value <= 16
    ensures forall i :: 0 <= i < 16 ==> (b[i] <==> value != 0 && i == value - 1)
  {
    seq(16, i requires 0 <= i < 16 => value != 0 && i == value - 1)
  }

  /** The test `(m & convert_to_bitmask(v)) > 0` of `insert_value`. */
  lemma BitTest(m: Word, v: nat)
    requires v <= 16
    ensures And(m, ToBitmask(v)) != Zero() <==> v != 0 && m[v - 1]
  {
    ZeroIffNoBit(And(m, ToBitmask(v)));
  }

  /** The value `v` (1..16) is excluded by mask `m`: bit v-1 is set. */
  predicate Excluded(m: Word, v: nat)
    requires 1 <= v <= 16
  {
    m[v - 1]
  }

  /** Number of set bits of `m` at positions lo..15. */
  function OnesFrom(m: Word, lo: nat): (n: nat)
    requires lo <= 16
    ensures n <= 16 - lo
    ensures n == 16 - lo <==> forall i :: lo <= i < 16 ==> m[i]
    decreases 16 - lo
  {
    if lo == 16 then 0 else (if m[lo] then 1 else 0) + OnesFrom(m, lo + 1)
  }

  /** `u16::count_ones`. */
  function CountOnes(m: Word): (n: nat)
    ensures n <= 16
    ensures n == 16 <==> forall i :: 0 <= i < 16 ==> m[i]
  {
    OnesFrom(m, 0)
  }

  lemma {:induction false} OnesFromNone(m: Word, lo: nat)
    requires lo <= 16 && forall i :: lo <= i < 16 ==> !m[i]
    ensures OnesFrom(m, lo) == 0
    decreases 16 - lo
  {
    if lo < 16 {
      OnesFromNone(m, lo + 1);
    }
  }

  /** `u16::count_zeros`, computed as Rust does: `(!self).count_ones()`. */
  function CountZeros(m: Word): (n: nat)
    ensures n + CountOnes(m) == 16
  {
    OnesComplement(m, 0);
    CountOnes(Not(m))
  }

  /** At each position the bit is set in exactly one of `m` and `!m`. */
  lemma {:induction false} OnesComplement(m: Word, lo: nat)
    requires lo <= 16
    ensures OnesFrom(Not(m), lo) + OnesFrom(m, lo) == 16 - lo
    decreases 16 - lo
  {
    if lo < 16 {
      OnesComplement(m, lo + 1);
    }
  }

  /** Number of consecutive set bits of `b` starting at position `lo`. */
  function TrailingOnesFrom(b: Word, lo: nat): (n: nat)
    requires lo <= 16
    ensures lo + n <= 16
    ensures forall j :: lo <= j < lo + n ==> b[j]
    ensures lo + n < 16 ==> !b[lo + n]
    decreases 16 - lo
  {
    if lo == 16 || !b[lo] then 0 else 1 + TrailingOnesFrom(b, lo + 1)
  }

  /**
   * `u16::trailing_ones`: the length of the run of set bits that starts at
   * bit 0.
   */
  function TrailingOnes(b: Word): (n: nat)
    ensures n <= 16
    ensures forall j :: 0 <= j < n ==> b[j]
    ensures n < 16 ==> !b[n]
  {
    TrailingOnesFrom(b, 0)
  }

  /**
   * The values v with 1 <= v < hi and v <= 9 that `m` does not exclude,
   * in ascending order.
   */
  function CandidatesBelow(m: Word, hi: nat): (r: seq<nat>)
    requires hi <= 17
    ensures forall v :: v in r <==> 1 <= v < hi && v <= 9 && !Excluded(m, v)
  {
    if hi <= 1 then []
    else
      var v := hi - 1;
      CandidatesBelow(m, v) + (if v <= 9 && !Excluded(m, v) then [v] else [])
  }

  /** An allowed value up to 9 is the next candidate. */
  lemma CandidatesBelowPush(m: Word, x: nat)
    requires 1 <= x <= 9 && !Excluded(m, x)
    ensures CandidatesBelow(m, x + 1) == CandidatesBelow(m, x) + [x]
  {
  }

  /**
   * Extending the range by values that are all excluded or above 9 does
   * not change the candidates.
   */
  lemma {:induction false} CandidatesBelowSettled(m: Word, lo: nat, hi: nat)
    requires 1 <= lo <= hi <= 17
    requires forall v :: lo <= v < hi ==> v > 9 || Excluded(m, v)
    ensures CandidatesBelow(m, hi) == CandidatesBelow(m, lo)
    decreases hi
  {
    if lo < hi {
      CandidatesBelowSettled(m, lo, hi - 1);
    }
  }

  /** `s` is strictly increasing. */
  predicate Ascending(s: seq<nat>)
  {
    forall i, j :: 0 <= i < j < |s| ==> s[i] < s[j]
  }

  /** `CandidatesBelow` lists its values in strictly ascending order. */
  lemma {:induction false} CandidatesBelowAscending(m: Word, hi: nat)
    requires hi <= 17
    ensures Ascending(CandidatesBelow(m, hi))
  {
    if hi > 1 {
      var v := hi - 1;
      CandidatesBelowAscending(m, v);
      var prefix := CandidatesBelow(m, v);
      var r := CandidatesBelow(m, hi);
      forall i, j | 0 <= i < j < |r| ensures r[i] < r[j] {
        assert prefix[i] in prefix;
        if j < |prefix| {
          assert r[i] == prefix[i] && r[j] == prefix[j];
        } else {
          assert r[i] == prefix[i] && r[j] == v;
        }
      }
    }
  }

  /** The values 1..hi-1 in ascending order. */
  function Upto(hi: nat): (r: seq<nat>)
    ensures |r| == if hi == 0 then 0 else hi - 1
  {
    if hi <= 1 then [] else Upto(hi - 1) + [hi - 1]
  }

  /** A mask that excludes none of the values below `hi` allows them all. */
  lemma {:induction false} CandidatesBelowUnconstrained(m: Word, hi: nat)
    requires hi <= 10
    requires forall v :: 1 <= v < hi ==> !Excluded(m, v)
    ensures CandidatesBelow(m, hi) == Upto(hi)
  {
    if hi > 1 {
      CandidatesBelowUnconstrained(m, hi - 1);
    }
  }

  /**
   * What `get_possible_numbers` returns: the allowed values 1..9 of a
   * mask in ascending order; bits 9..15 play no part.
   */
  function Candidates(m: Word): (r: seq<nat>)
    ensures forall v :: v in r <==> 1 <= v <= 9 && !Excluded(m, v)
  {
    CandidatesBelow(m, 10)
  }

  /** Masks that agree on bits 0..8 have the same candidates below any bound. */
  lemma {:induction false} CandidatesBelowLowBits(m1: Word, m2: Word, hi: nat)
    requires hi <= 17 && forall i :: 0 <= i < 9 ==> m1[i] == m2[i]
    ensures CandidatesBelow(m1, hi) == CandidatesBelow(m2, hi)
  {
    if hi > 1 {
      CandidatesBelowLowBits(m1, m2, hi - 1);
    }
  }

  /** Bits 9..15 play no part in the candidates. */
  lemma CandidatesIgnoreHighBits(m1: Word, m2: Word)
    requires forall i :: 0 <= i < 9 ==> m1[i] == m2[i]
    ensures Candidates(m1) == Candidates(m2)
  {
    CandidatesBelowLowBits(m1, m2, 10);
  }

  /** `get_possible_numbers` lists the candidates in ascending order. */
  lemma CandidatesAscending(m: Word)
    ensures Ascending(Candidates(m))
  {
    CandidatesBelowAscending(m, 10);
  }

  /** Masks whose bits 9..15 are clear: the only masks a board holds. */
  predicate NineBits(m: Word)
  {
    forall i :: 9 <= i < 16 ==> !m[i]
  }

  /** With bits 9..15 clear, `OnesFrom(m, lo)` counts only bits lo..8. */
  lemma {:induction false} OnesFromLowBits(m: Word, lo: nat)
    requires lo <= 16 && NineBits(m)
    ensures lo >= 9 ==> OnesFrom(m, lo) == 0
    ensures lo <= 9 ==> OnesFrom(m, lo) <= 9 - lo
    ensures lo <= 9 ==> (OnesFrom(m, lo) == 9 - lo <==> forall i :: lo <= i < 9 ==> m[i])
    decreases 16 - lo
  {
    if lo < 16 {
      OnesFromLowBits(m, lo + 1);
    }
  }

  /**
   * For a mask of `NineBits` the test `count_ones() >= 9` of `is_valid`
   * holds exactly when all nine values are excluded, that is when no
   * candidate is left.
   */
  lemma FullMask(m: Word)
    requires NineBits(m)
    ensures CountOnes(m) >= 9 <==> forall v :: 1 <= v <= 9 ==> Excluded(m, v)
    ensures CountOnes(m) >= 9 <==> Candidates(m) == []
  {
    OnesFromLowBits(m, 0);
    var c := Candidates(m);
    if CountOnes(m) >= 9 {
      assert forall i :: 0 <= i < 9 ==> m[i];
      assert forall v :: 1 <= v <= 9 ==> Excluded(m, v);
      CandidatesBelowSettled(m, 1, 10);
      assert CandidatesBelow(m, 1) == [];
    } else {
      var i :| 0 <= i < 9 && !m[i];
      assert !Excluded(m, i + 1);
      assert i + 1 in c;
    }
  }

  /** The word whose set bits are the positions in `s`. */
  function WordOf(s: set<nat>): (w: Word)
    ensures forall i :: 0 <= i < 16 ==> (w[i] <==> i in s)
  {
    seq(16, i requires 0 <= i < 16 => i in s)
  }

  /** The first case asserted at the start of `main`: 0b111111100. */
  lemma CandidatesOfMask1FC()
    ensures Candidates(WordOf({2, 3, 4, 5, 6, 7, 8})) == [1, 2]
  {
    var m := WordOf({2, 3, 4, 5, 6, 7, 8});
    CandidatesBelowUnconstrained(m, 3);
    assert Upto(3) == [1, 2];
    CandidatesBelowSettled(m, 3, 10);
  }

  /** The second case asserted at the start of `main`: 0b111111110. */
  lemma CandidatesOfMask1FE()
    ensures Candidates(WordOf({1, 2, 3, 4, 5, 6, 7, 8})) == [1]
  {
    var m := WordOf({1, 2, 3, 4, 5, 6, 7, 8});
    CandidatesBelowUnconstrained(m, 2);
    assert Upto(2) == [1];
    CandidatesBelowSettled(m, 2, 10);
  }

  /** The empty mask (an unconstrained cell) leaves every value 1..9. */
  lemma CandidatesOfZero()
    ensures Candidates(Zero()) == [1, 2, 3, 4, 5, 6, 7, 8, 9]
  {
    CandidatesBelowUnconstrained(Zero(), 10);
    UptoTen();
  }

  lemma UptoTen()
    ensures Upto(10) == [1, 2, 3, 4, 5, 6, 7, 8, 9]
  {
    assert Upto(2) == [1];
    assert Upto(4) == [1, 2, 3];
    assert Upto(6) == [1, 2, 3, 4, 5];
    assert Upto(8) == [1, 2, 3, 4, 5, 6, 7];
  }

  /** The full mask (all nine values excluded) leaves no value. */
  lemma CandidatesOfFullMask()
    ensures Candidates(WordOf({0, 1, 2, 3, 4, 5, 6, 7, 8})) == []
  {
    var m := WordOf({0, 1, 2, 3, 4, 5, 6, 7, 8});
    CandidatesBelowSettled(m, 1, 10);
  }
}
