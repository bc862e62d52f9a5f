/** Bitwise operators on numbers, and what comparing words under a mask means for their fields. */
module Masks {
  import opened Arithmetic

  function Pow2(n: nat): (r: nat)
    ensures r >= 1
  {
    if n == 0 then 1 else 2 * Pow2(n - 1)
  }

  function Xor(a: nat, b: nat): nat
    decreases a + b
  {
    if a == 0 && b == 0 then 0 else 2 * Xor(a / 2, b / 2) + (a + b) % 2
  }

  function BothOdd(a: nat, b: nat): nat {
    if a % 2 == 1 && b % 2 == 1 then 1 else 0
  }

  function And(a: nat, b: nat): nat
    decreases a
  {
    if a == 0 || b == 0 then 0 else 2 * And(a / 2, b / 2) + BothOdd(a, b)
  }

  /** `(a ^ b) & ~mask == 0` on words of n bits. */
  predicate SameUnder(a: nat, b: nat, mask: nat, n: nat)
    requires mask < Pow2(n)
  {
    And(Xor(a, b), Pow2(n) - 1 - mask) == 0
  }

  /** Bit by bit: equal wherever the mask is clear. */
  predicate AgreeOutside(a: nat, b: nat, mask: nat, n: nat) {
    n == 0 || ((mask % 2 == 1 || a % 2 == b % 2) && AgreeOutside(a / 2, b / 2, mask / 2, n - 1))
  }

  lemma {:induction false} XorBits(a: nat, b: nat)
    ensures Xor(a, b) % 2 == (a + b) % 2 && Xor(a, b) / 2 == Xor(a / 2, b / 2)
  {
    Divides(Xor(a, b), 2, Xor(a / 2, b / 2), (a + b) % 2);
  }

  lemma {:induction false} AndBits(a: nat, b: nat)
    ensures And(a, b) % 2 == BothOdd(a, b) && And(a, b) / 2 == And(a / 2, b / 2)
  {
    Divides(And(a, b), 2, And(a / 2, b / 2), BothOdd(a, b));
  }

  lemma {:induction false} SameUnderIsAgree(a: nat, b: nat, mask: nat, n: nat)
    requires a < Pow2(n) && b < Pow2(n) && mask < Pow2(n)
    ensures SameUnder(a, b, mask, n) <==> AgreeOutside(a, b, mask, n)
  {
    hide And, Xor;
    var x, rest := Xor(a, b), Pow2(n) - 1 - mask;
    if n > 0 {
      SameUnderIsAgree(a / 2, b / 2, mask / 2, n - 1);
      Divides(rest, 2, Pow2(n - 1) - 1 - mask / 2, 1 - mask % 2);
      XorBits(a, b);
      AndBits(x, rest);
      ZeroByHalves(And(x, rest));
    } else {
      NothingLeft(x);
    }
  }

  lemma ZeroByHalves(x: nat)
    ensures x == 0 <==> x % 2 == 0 && x / 2 == 0
  {
  }

  lemma NothingLeft(x: nat)
    ensures And(x, 0) == 0
  {
  }

  /** Where nothing is masked the words are equal. */
  lemma {:induction false} AgreeEverywhere(a: nat, b: nat, n: nat)
    requires a < Pow2(n) && b < Pow2(n)
    ensures AgreeOutside(a, b, 0, n) <==> a == b
  {
    if n > 0 {
      AgreeEverywhere(a / 2, b / 2, n - 1);
    }
  }

  /** A mask of all ones compares nothing. */
  lemma {:induction false} AgreeNowhere(a: nat, b: nat, n: nat)
    ensures AgreeOutside(a, b, Pow2(n) - 1, n)
  {
    if n > 0 {
      AgreeNowhere(a / 2, b / 2, n - 1);
      Divides(Pow2(n) - 1, 2, Pow2(n - 1) - 1, 1);
    }
  }

  lemma {:induction false} AgreeEquivalence(a: nat, b: nat, c: nat, mask: nat, n: nat)
    ensures AgreeOutside(a, a, mask, n)
    ensures AgreeOutside(a, b, mask, n) ==> AgreeOutside(b, a, mask, n)
    ensures AgreeOutside(a, b, mask, n) && AgreeOutside(b, c, mask, n) ==> AgreeOutside(a, c, mask, n)
  {
    if n > 0 {
      AgreeEquivalence(a / 2, b / 2, c / 2, mask / 2, n - 1);
    }
  }

  /** The word without its lowest j bits, and those bits. */
  function High(a: nat, j: nat): nat {
    if j == 0 then a else High(a / 2, j - 1)
  }

  function Low(a: nat, j: nat): nat {
    if j == 0 then 0 else 2 * Low(a / 2, j - 1) + a % 2
  }

  lemma {:induction false} Parts(a: nat, j: nat)
    ensures Low(a, j) < Pow2(j) && a == High(a, j) * Pow2(j) + Low(a, j)
    ensures a / Pow2(j) == High(a, j) && a % Pow2(j) == Low(a, j)
  {
    if j > 0 {
      Parts(a / 2, j - 1);
      Doubling(High(a, j), Pow2(j - 1));
    }
    Divides(a, Pow2(j), High(a, j), Low(a, j));
  }

  /** Comparing n bits is comparing the lowest j and then the others. */
  lemma {:induction false} AgreeSplit(a: nat, b: nat, mask: nat, j: nat, n: nat)
    requires j <= n
    ensures AgreeOutside(a, b, mask, n) <==>
      && AgreeOutside(Low(a, j), Low(b, j), Low(mask, j), j)
      && AgreeOutside(High(a, j), High(b, j), High(mask, j), n - j)
    decreases j
  {
    if j > 0 {
      AgreeSplit(a / 2, b / 2, mask / 2, j - 1, n - 1);
      LowBits(a, j);
      LowBits(b, j);
      LowBits(mask, j);
    }
  }

  lemma {:induction false} LowBits(a: nat, j: nat)
    requires j > 0
    ensures Low(a, j) % 2 == a % 2 && Low(a, j) / 2 == Low(a / 2, j - 1)
  {
    Divides(Low(a, j), 2, Low(a / 2, j - 1), a % 2);
  }

  lemma Powers()
    ensures Pow2(0) == 1 && Pow2(1) == 2 && Pow2(3) == 8 && Pow2(7) == 0x80 && Pow2(8) == 0x100 && Pow2(12) == 0x1000
    ensures Pow2(15) == 0x8000 && Pow2(16) == 0x1_0000 && Pow2(20) == 0x10_0000 && Pow2(32) == 0x1_0000_0000
  {
    assert Pow2(6) == 0x40;
    assert Pow2(12) == 0x1000;
    assert Pow2(16) == 0x1_0000;
    assert Pow2(20) == 0x10_0000;
    assert Pow2(24) == 0x100_0000;
    assert Pow2(28) == 0x1000_0000;
  }

  lemma {:induction false} AndSplit(a: nat, m: nat, j: nat)
    ensures And(a, m) == And(High(a, j), High(m, j)) * Pow2(j) + And(Low(a, j), Low(m, j))
  {
    hide And;
    if j > 0 {
      AndSplit(a / 2, m / 2, j - 1);
      AndHalves(a, m);
      AndHalves(Low(a, j), Low(m, j));
      LowBits(a, j);
      LowBits(m, j);
      Doubling(And(High(a, j), High(m, j)), Pow2(j - 1));
    } else {
      NoBits(0);
    }
  }

  lemma {:induction false} AndHalves(a: nat, b: nat)
    ensures And(a, b) == 2 * And(a / 2, b / 2) + BothOdd(a, b)
  {
    AndBits(a, b);
  }

  lemma Doubling(x: int, y: int)
    ensures x * (2 * y) == 2 * (x * y)
  {
  }

  lemma NoBits(m: nat)
    ensures And(0, m) == 0 && And(m, 0) == 0
  {
  }

  lemma {:induction false} AndOnes(a: nat, n: nat)
    requires a < Pow2(n)
    ensures And(a, Pow2(n) - 1) == a
  {
    if n > 0 {
      AndOnes(a / 2, n - 1);
      Divides(Pow2(n) - 1, 2, Pow2(n - 1) - 1, 1);
      AndBits(a, Pow2(n) - 1);
    }
  }

  lemma {:induction false} HighOf(q: nat, j: nat, r: nat)
    requires r < Pow2(j)
    ensures High(q * Pow2(j) + r, j) == q && Low(q * Pow2(j) + r, j) == r
  {
    Parts(q * Pow2(j) + r, j);
    Divides(q * Pow2(j) + r, Pow2(j), q, r);
  }

  /** A word under the mask of one contiguous field is that field: the general form of the masked
      comparisons that the models write with division and remainder. */
  lemma FieldMask(a: nat, low: nat, width: nat)
    ensures And(a, (Pow2(width) - 1) * Pow2(low)) == a / Pow2(low) % Pow2(width) * Pow2(low)
  {
    var m, top := (Pow2(width) - 1) * Pow2(low), High(a, low);
    HighOf(Pow2(width) - 1, low, 0);
    AndSplit(a, m, low);
    NoBits(Low(a, low));
    Parts(a, low);
    AndSplit(top, Pow2(width) - 1, width);
    HighOf(0, width, Pow2(width) - 1);
    NoBits(High(top, width));
    Parts(top, width);
    AndOnes(Low(top, width), width);
  }
}

/** The fields that the models write as division and remainder are the masks of the registers. */
module RegisterFields {
  import opened Platforms
  import opened Capabilities
  import opened Masks

  lemma BitIsMask(word: Word, k: nat)
    ensures Bit(word, Pow2(k)) <==> And(word, Pow2(k)) != 0
  {
    hide And, Pow2;
    Powers();
    FieldMask(word, k, 1);
    var bit, weight := word / Pow2(k) % 2, Pow2(k);
    assert And(word, weight) == bit * weight;
    assert bit == 0 || bit * weight == weight;
  }

  lemma FieldsAreMasks(word: Word)
    ensures Low16(word) == And(word, 0xffff) && 0x1_0000 * High16(word) == And(word, 0xffff_0000)
    ensures Low8(word) == And(word, 0xff) && 0x100 * Link(word) == And(word, 0xff00)
    ensures HasList(word) <==> And(word, 0x10_0000) != 0
  {
    hide And, Pow2, Bit;
    Powers();
    FieldMask(word, 0, 16);
    FieldMask(word, 16, 16);
    FieldMask(word, 0, 8);
    FieldMask(word, 8, 8);
    BitIsMask(word, 20);
  }
}
