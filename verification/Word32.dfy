/**
  32-bit machine words as bounded naturals, with the bitwise operators written out
  bit by bit and the field algebra that descriptor words need.
 */
module Word32 {

  const WORD_LIMIT := 0x1_0000_0000

  type word = w: int | 0 <= w < 0x1_0000_0000

  function Pow2(k: nat): (p: nat)
    ensures p > 0
  {
    if k == 0 then 1 else 2 * Pow2(k - 1)
  }

  /** Logical shift right by k places. */
  function Shr(a: nat, k: nat): nat {
    if k == 0 then a else Shr(a / 2, k - 1)
  }

  /** The k least significant bits. */
  function Low(a: nat, k: nat): nat {
    if k == 0 then 0 else 2 * Low(a / 2, k - 1) + a % 2
  }

  /** The bit field of w with weight p (2 to the power of its lowest bit) and q values. */
  function Field(w: nat, p: nat, q: nat): nat
    requires p > 0 && q > 0
  {
    w / p % q
  }

  function Or(a: nat, b: nat): nat {
    if a == 0 && b == 0 then 0
    else 2 * Or(a / 2, b / 2) + (if a % 2 == 1 then 1 else b % 2)
  }

  function And(a: nat, b: nat): nat {
    if a == 0 || b == 0 then 0
    else 2 * And(a / 2, b / 2) + (if a % 2 == 1 && b % 2 == 1 then 1 else 0)
  }

  lemma Double(s: nat, p: nat)
    ensures s * (2 * p) == 2 * (s * p)
  {
  }

  /** Shr and Low are the quotient and the remainder of a division by a power of two. */
  lemma {:induction false} ShrLow(a: nat, k: nat)
    ensures a == Shr(a, k) * Pow2(k) + Low(a, k)
    ensures Low(a, k) < Pow2(k)
  {
    if k > 0 {
      var s, p, l := Shr(a / 2, k - 1), Pow2(k - 1), Low(a / 2, k - 1);
      ShrLow(a / 2, k - 1);
      Double(s, p);
      assert a == 2 * (s * p + l) + a % 2;
      assert Shr(a, k) == s && Pow2(k) == 2 * p && Low(a, k) == 2 * l + a % 2;
    }
  }

  lemma Pow2Values()
    ensures Pow2(1) == 2 && Pow2(2) == 4 && Pow2(3) == 8 && Pow2(4) == 0x10 && Pow2(5) == 0x20
    ensures Pow2(10) == 0x400 && Pow2(18) == 0x4_0000
    ensures Pow2(12) == 0x1000 && Pow2(20) == 0x100000 && Pow2(32) == 0x1_0000_0000
  {
    assert Pow2(6) == 0x40;
    assert Pow2(12) == 0x1000;
    assert Pow2(16) == 0x1_0000;
    assert Pow2(20) == 0x10_0000;
    assert Pow2(24) == 0x100_0000;
    assert Pow2(28) == 0x1000_0000;
  }

  lemma DivModUnique(a: nat, p: nat, q: nat, r: nat)
    requires p > 0 && a == q * p + r && r < p
    ensures a / p == q && a % p == r
  {
    var d := a / p - q;
    assert a == (a / p) * p + a % p;
    assert d * p == r - a % p;
    assert d > 0 ==> d * p >= p;
    assert d < 0 ==> d * p + p <= 0;
  }

  lemma ShrLowDivMod(a: nat, k: nat)
    ensures Shr(a, k) == a / Pow2(k) && Low(a, k) == a % Pow2(k)
  {
    ShrLow(a, k);
    DivModUnique(a, Pow2(k), Shr(a, k), Low(a, k));
  }

  lemma {:induction false} OrZero(a: nat)
    ensures Or(a, 0) == a && Or(0, a) == a
  {
    if a > 0 {
      OrZero(a / 2);
    }
  }

  lemma {:induction false} OrComm(a: nat, b: nat)
    ensures Or(a, b) == Or(b, a)
  {
    if a > 0 || b > 0 {
      OrComm(a / 2, b / 2);
    }
  }

  lemma {:induction false} OrAssoc(a: nat, b: nat, c: nat)
    ensures Or(Or(a, b), c) == Or(a, Or(b, c))
  {
    if a > 0 || b > 0 || c > 0 {
      OrAssoc(a / 2, b / 2, c / 2);
      assert Or(a, b) / 2 == Or(a / 2, b / 2) && Or(b, c) / 2 == Or(b / 2, c / 2);
    }
  }

  lemma OrChain(x: nat, a: nat, b: nat, c: nat)
    ensures Or(Or(Or(Or(Or(x, a), b), c), 0), 0) == Or(Or(x, 0), Or(Or(a, b), c))
  {
    OrZero(x);
    OrZero(Or(Or(Or(x, a), b), c));
    OrAssoc(x, a, b);
    OrAssoc(x, Or(a, b), c);
  }

  /** Disjoint operands: or is addition. */
  lemma {:induction false} OrConcat(h: nat, l: nat, k: nat)
    requires l < Pow2(k)
    ensures Or(h * Pow2(k), l) == h * Pow2(k) + l
  {
    if k == 0 {
      OrZero(h);
    } else {
      var p := h * Pow2(k - 1);
      assert h * Pow2(k) == 2 * p;
      OrConcat(h, l / 2, k - 1);
    }
  }

  lemma {:induction false} OrShr(a: nat, b: nat, k: nat)
    ensures Shr(Or(a, b), k) == Or(Shr(a, k), Shr(b, k))
  {
    if k > 0 {
      OrShr(a / 2, b / 2, k - 1);
      assert Or(a, b) / 2 == Or(a / 2, b / 2);
    }
  }

  lemma {:induction false} OrLow(a: nat, b: nat, k: nat)
    ensures Low(Or(a, b), k) == Or(Low(a, k), Low(b, k))
  {
    if k > 0 {
      OrLow(a / 2, b / 2, k - 1);
      assert Or(a, b) / 2 == Or(a / 2, b / 2);
      assert Low(a, k) / 2 == Low(a / 2, k - 1) && Low(a, k) % 2 == a % 2;
      assert Low(b, k) / 2 == Low(b / 2, k - 1) && Low(b, k) % 2 == b % 2;
    }
  }

  /** Or acts on each field separately. */
  lemma OrField(a: nat, b: nat, lo: nat, n: nat, p: nat, q: nat)
    requires p == Pow2(lo) && q == Pow2(n)
    ensures Field(Or(a, b), p, q) == Or(Field(a, p, q), Field(b, p, q))
  {
    ShrLowDivMod(a, lo);
    ShrLowDivMod(b, lo);
    ShrLowDivMod(Or(a, b), lo);
    OrShr(a, b, lo);
    ShrLowDivMod(Shr(a, lo), n);
    ShrLowDivMod(Shr(b, lo), n);
    ShrLowDivMod(Shr(Or(a, b), lo), n);
    OrLow(Shr(a, lo), Shr(b, lo), n);
  }

  lemma {:induction false} OrBound(a: nat, b: nat, k: nat)
    requires a < Pow2(k) && b < Pow2(k)
    ensures Or(a, b) < Pow2(k)
  {
    if k > 0 {
      OrBound(a / 2, b / 2, k - 1);
    }
  }

  /** Or-ing in a field of ones forces the field to ones. */
  lemma {:induction false} OrOnes(a: nat, k: nat)
    requires a < Pow2(k)
    ensures Or(a, Pow2(k) - 1) == Pow2(k) - 1
  {
    if k > 0 {
      OrOnes(a / 2, k - 1);
    }
  }

  lemma {:induction false} AndOnes(a: nat, k: nat)
    requires a < Pow2(k)
    ensures And(a, Pow2(k) - 1) == a
  {
    if k > 0 {
      AndOnes(a / 2, k - 1);
    }
  }

  lemma {:induction false} AndShr(a: nat, b: nat, k: nat)
    ensures Shr(And(a, b), k) == And(Shr(a, k), Shr(b, k))
  {
    if k > 0 {
      AndShr(a / 2, b / 2, k - 1);
      assert And(a, b) / 2 == And(a / 2, b / 2);
    }
  }

  lemma {:induction false} AndLow(a: nat, b: nat, k: nat)
    ensures Low(And(a, b), k) == And(Low(a, k), Low(b, k))
  {
    if k > 0 {
      AndLow(a / 2, b / 2, k - 1);
      assert And(a, b) / 2 == And(a / 2, b / 2);
      assert Low(a, k) / 2 == Low(a / 2, k - 1) && Low(a, k) % 2 == a % 2;
      assert Low(b, k) / 2 == Low(b / 2, k - 1) && Low(b, k) % 2 == b % 2;
    }
  }

  /** Masking a word with 0xFFF00000 clears its low 20 bits. */
  lemma AndTop12(a: word)
    ensures And(a, 0xFFF00000) == a / 0x100000 * 0x100000
  {
    var m := 0xFFF00000;
    Pow2Values();
    AndShr(a, m, 20);
    AndLow(a, m, 20);
    ShrLowDivMod(a, 20);
    ShrLowDivMod(m, 20);
    ShrLowDivMod(And(a, m), 20);
    AndOnes(a / 0x100000, 12);
  }

  function OrWord(a: word, b: word): (r: word)
    ensures r == Or(a, b)
  {
    Pow2Values();
    OrBound(a, b, 32);
    Or(a, b)
  }
}
