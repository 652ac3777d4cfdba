/** Machine words as natural numbers, their bits, and packed bitmaps.
    The kernel keeps two bitmaps: the page bitmap in 32-bit words and the
    sector bitmap in bytes. Both are a sequence of words of some width. */
module Bits {

  function Pow2(k: nat): (p: nat)
    ensures p >= 1
  {
    if k == 0 then 1 else 2 * Pow2(k - 1)
  }

  /** `(w & (1 << k)) != 0` */
  predicate Bit(w: nat, k: nat)
  {
    if k == 0 then w % 2 == 1 else Bit(w / 2, k - 1)
  }

  lemma {:induction false} BitIsShift(w: nat, k: nat)
    ensures Bit(w, k) <==> w / Pow2(k) % 2 == 1
  {
    if k > 0 {
      BitIsShift(w / 2, k - 1);
      DivideTwice(w, Pow2(k - 1));
    }
  }

  lemma DivideTwice(w: nat, d: nat)
    requires d > 0
    ensures w / 2 / d == w / (2 * d)
  {
    var q := w / 2 / d;
    assert q * d <= w / 2 < q * d + d;
    assert 2 * (q * d) <= w < 2 * (q * d) + 2 * d;
    Quotient(w, q, 2 * d);
  }

  lemma Quotient(w: nat, q: nat, d: nat)
    requires d > 0 && q * d <= w < q * d + d
    ensures w / d == q
  {
    var e := w / d - q;
    assert e * d == w / d * d - q * d;
    Multiple(e, d);
  }

  lemma Multiple(e: int, d: int)
    requires d > 0
    ensures (e >= 1 ==> e * d >= d) && (e <= -1 ==> e * d <= -d)
  {
  }

  /** `w | (1 << k)` */
  function SetBit(w: nat, k: nat): (r: nat)
  {
    if k == 0 then (if w % 2 == 1 then w else w + 1)
    else 2 * SetBit(w / 2, k - 1) + w % 2
  }

  /** `w & ~(1 << k)` */
  function ClearBit(w: nat, k: nat): (r: nat)
  {
    if k == 0 then (if w % 2 == 1 then w - 1 else w)
    else 2 * ClearBit(w / 2, k - 1) + w % 2
  }

  lemma {:induction false} SetBitIsOr(w: nat, k: nat, j: nat)
    ensures Bit(SetBit(w, k), j) <==> (j == k || Bit(w, j))
  {
    if k > 0 && j > 0 {
      SetBitIsOr(w / 2, k - 1, j - 1);
    }
  }

  lemma {:induction false} ClearBitIsAndNot(w: nat, k: nat, j: nat)
    ensures Bit(ClearBit(w, k), j) <==> (j != k && Bit(w, j))
  {
    if k > 0 && j > 0 {
      ClearBitIsAndNot(w / 2, k - 1, j - 1);
    }
  }

  /** Setting and clearing move a word by exactly one power of two, and stay in the word's width. */
  lemma {:induction false} BitWeight(w: nat, k: nat, width: nat)
    requires k < width && w < Pow2(width)
    ensures SetBit(w, k) == (if Bit(w, k) then w else w + Pow2(k)) < Pow2(width)
    ensures ClearBit(w, k) == (if Bit(w, k) then w - Pow2(k) else w)
  {
    if k > 0 {
      BitWeight(w / 2, k - 1, width - 1);
    }
  }

  /** Every bit set in a word of `width` bits. */
  lemma {:induction false} AllOnes(width: nat, k: nat)
    requires k < width
    ensures Bit(Pow2(width) - 1, k)
  {
    if k > 0 {
      assert (Pow2(width) - 1) / 2 == Pow2(width - 1) - 1;
      AllOnes(width - 1, k - 1);
    }
  }

  lemma {:induction false} NoBits(k: nat)
    ensures !Bit(0, k)
  {
    if k > 0 {
      NoBits(k - 1);
    }
  }

  // ---------------------------------------------------------------- bitwise or

  /** `a | b` */
  function Or(a: nat, b: nat): (r: nat)
    decreases a + b
  {
    if a == 0 then b
    else if b == 0 then a
    else 2 * Or(a / 2, b / 2) + (if a % 2 == 1 || b % 2 == 1 then 1 else 0)
  }

  lemma {:induction false} OrBits(a: nat, b: nat, j: nat)
    ensures Bit(Or(a, b), j) <==> Bit(a, j) || Bit(b, j)
    decreases a + b
  {
    if a == 0 {
      NoBits(j);
    } else if b == 0 {
      NoBits(j);
    } else if j > 0 {
      OrBits(a / 2, b / 2, j - 1);
    }
  }

  // ---------------------------------------------------------------- packed bitmaps

  /** Bit `i` of a bitmap packed in words of `width` bits. */
  predicate Get(words: seq<nat>, width: nat, i: nat)
    requires width > 0 && i / width < |words|
  {
    Bit(words[i / width], i % width)
  }

  function Put(words: seq<nat>, width: nat, i: nat, value: bool): (r: seq<nat>)
    requires width > 0 && i / width < |words|
    ensures |r| == |words|
  {
    var w := words[i / width];
    words[i / width := if value then SetBit(w, i % width) else ClearBit(w, i % width)]
  }

  lemma SameWordSameBit(width: nat, i: nat, j: nat)
    requires width > 0 && i / width == j / width && i % width == j % width
    ensures i == j
  {
  }

  /** A store into a bitmap changes the bit it names and no other. */
  lemma PutGet(words: seq<nat>, width: nat, i: nat, value: bool, j: nat)
    requires width > 0 && i / width < |words| && j / width < |words|
    ensures Get(Put(words, width, i, value), width, j) == (if i == j then value else Get(words, width, j))
  {
    hide Bit, SetBit, ClearBit;
    SetBitIsOr(words[i / width], i % width, j % width);
    ClearBitIsAndNot(words[i / width], i % width, j % width);
    if i / width == j / width && i % width == j % width {
      SameWordSameBit(width, i, j);
    }
  }
}
