/**
 * The arithmetic behind `/api/aggregate` and `/api/decrypt`: the stored
 * ciphertexts are multiplied together modulo n², one at a time, starting
 * from 1. With Paillier this product decrypts to the sum of the
 * plaintexts modulo n. Key generation, encryption and decryption are not
 * part of this model; they enter as functions, and the Paillier
 * properties the aggregation relies on enter as hypotheses about them.
 */
module Aggregation {

  function MulMod(a: nat, b: nat, m: nat): nat
    requires m > 0
  {
    a * b % m
  }

  /** `prod = (prod * bi) % n2` over the values in order, starting from 1. */
  function ProdMod(values: seq<nat>, m: nat): (p: nat)
    requires m > 0
    ensures values != [] ==> p < m
  {
    if values == [] then 1 else MulMod(ProdMod(values[..|values| - 1], m), values[|values| - 1], m)
  }

  /** The plain product of the values. */
  function Product(values: seq<nat>): nat {
    if values == [] then 1 else Product(values[..|values| - 1]) * values[|values| - 1]
  }

  function Sum(xs: seq<int>): int {
    if xs == [] then 0 else Sum(xs[..|xs| - 1]) + xs[|xs| - 1]
  }

  /** The only multiple of `m` strictly between `-m` and `m` is zero. */
  lemma {:induction false} ZeroMultiple(d: int, m: nat)
    requires m > 0 && -(m as int) < d * m < m
    ensures d == 0
  {
  }

  /** The remainder is the unique `r` in [0, m) with `y = q * m + r`. */
  lemma {:induction false} ModUnique(y: int, q: int, r: int, m: nat)
    requires m > 0 && 0 <= r < m && y == q * m + r
    ensures y % m == r
  {
    var d := q - y / m;
    assert d * m == y % m - r;
    ZeroMultiple(d, m);
  }

  /** Adding a multiple of `m` does not change a value modulo `m`. */
  lemma {:induction false} ModAddMultiple(x: int, k: int, m: nat)
    requires m > 0
    ensures (k * m + x) % m == x % m
  {
    assert x == x / m * m + x % m;
    assert k * m + x == (k + x / m) * m + x % m;
    ModUnique(k * m + x, k + x / m, x % m, m);
  }

  /** Reducing the left factor first does not change a product modulo `m`. */
  lemma {:induction false} ModMulLeft(a: nat, b: nat, m: nat)
    requires m > 0
    ensures a % m * b % m == a * b % m
  {
    var q, r := a / m, a % m;
    assert a * b == q * b * m + r * b by {
      assert a == q * m + r;
    }
    ModAddMultiple(r * b, q * b, m);
  }

  /** Reducing the left summand first does not change a sum modulo `m`. */
  lemma {:induction false} ModAddLeft(a: int, b: int, m: nat)
    requires m > 0
    ensures (a % m + b) % m == (a + b) % m
  {
    ModAddMultiple(a % m + b, a / m, m);
    assert a + b == a / m * m + (a % m + b);
  }

  /** The fold computes the product reduced modulo `m`, once there is something to multiply. */
  lemma {:induction false} ProdModIsProductMod(values: seq<nat>, m: nat)
    requires m > 0 && values != []
    ensures ProdMod(values, m) == Product(values) % m
    decreases |values|
  {
    var front := values[..|values| - 1];
    var v := values[|values| - 1];
    if front == [] {
      assert ProdMod(front, m) == Product(front) == 1;
    } else {
      ProdModIsProductMod(front, m);
      ModMulLeft(Product(front), v, m);
    }
  }

  lemma {:induction false} ProductAppend(a: seq<nat>, b: seq<nat>)
    ensures Product(a + b) == Product(a) * Product(b)
    decreases |b|
  {
    if b == [] {
      assert a + b == a;
    } else {
      var c := a + b;
      var bf := b[..|b| - 1];
      assert c[..|c| - 1] == a + bf;
      ProductAppend(a, bf);
      assert Product(c) == Product(a) * Product(bf) * b[|b| - 1];
    }
  }

  lemma {:induction false} ProductPair(x: nat, y: nat)
    ensures Product([x, y]) == x * y
  {
    assert [x, y][..1] == [x] && [x][..0] == [];
    assert Product([x]) == x;
    assert Product([x, y]) == Product([x]) * y;
  }

  /** The product does not depend on the order of the factors: swapping two neighbours keeps it. */
  lemma {:induction false} ProductSwap(a: seq<nat>, x: nat, y: nat, b: seq<nat>)
    ensures Product(a + [x, y] + b) == Product(a + [y, x] + b)
  {
    var p := Product(a);
    assert Product(a + [x, y]) == p * (x * y) by {
      ProductAppend(a, [x, y]);
      ProductPair(x, y);
    }
    assert Product(a + [y, x]) == p * (x * y) by {
      ProductAppend(a, [y, x]);
      ProductPair(y, x);
    }
    ProductAppend(a + [x, y], b);
    ProductAppend(a + [y, x], b);
  }

  /** The aggregate does not depend on the order of submission: swapping two neighbours keeps it. */
  lemma {:induction false} ProdModSwap(a: seq<nat>, x: nat, y: nat, b: seq<nat>, m: nat)
    requires m > 0
    ensures ProdMod(a + [x, y] + b, m) == ProdMod(a + [y, x] + b, m)
  {
    ProductSwap(a, x, y, b);
    ProdModIsProductMod(a + [x, y] + b, m);
    ProdModIsProductMod(a + [y, x] + b, m);
  }

  /**
   * The additive homomorphism of Paillier decryption with modulus `n`
   * and `n2` = n². `valid` marks the ciphertexts the scheme produces: they
   * lie below `n2`, decrypt to a residue modulo `n`, and are closed under
   * multiplication modulo `n2`, whose product decrypts to the sum of the
   * two plaintexts modulo `n`.
   */
  ghost predicate Homomorphic(n: nat, n2: nat, valid: nat -> bool, dec: nat -> nat)
    requires n > 0 && n2 > 0
  {
    && (forall c: nat :: valid(c) ==> c < n2 && dec(c) < n)
    && (forall c1: nat, c2: nat {:trigger MulMod(c1, c2, n2)} :: valid(c1) && valid(c2) ==>
          valid(MulMod(c1, c2, n2)) && dec(MulMod(c1, c2, n2)) == (dec(c1) + dec(c2)) % n)
  }

  /** Encryption `enc`, with one fixed choice of randomness, meets decryption `dec`. */
  ghost predicate EncryptsUnder(n: nat, valid: nat -> bool, enc: int -> nat, dec: nat -> nat)
    requires n > 0
  {
    forall m: int :: valid(enc(m)) && dec(enc(m)) == m % n
  }

  /** `cs` are valid ciphertexts of the plaintexts `ms`, in order. */
  ghost predicate EncryptionsOf(n: nat, valid: nat -> bool, dec: nat -> nat, cs: seq<nat>, ms: seq<int>)
    requires n > 0
  {
    |cs| == |ms| && forall k :: 0 <= k < |cs| ==> valid(cs[k]) && dec(cs[k]) == ms[k] % n
  }

  /**
   * The textbook scheme with n = 3, g = n + 1 and randomness 1: plaintext
   * `a` encrypts to 1 + a·n and decrypts back to `a`; the ciphertexts are
   * 1, 4 and 7.
   */
  function SmallValid(c: nat): bool { c == 1 || c == 4 || c == 7 }

  function SmallEncrypt(m: int): nat { 1 + m % 3 * 3 }

  function SmallDecrypt(c: nat): nat { if c == 4 then 1 else if c == 7 then 2 else 0 }

  /** The hypotheses above are met together by a modulus greater than one. */
  lemma SmallSchemeIsHomomorphic()
    ensures Homomorphic(3, 9, SmallValid, SmallDecrypt)
    ensures EncryptsUnder(3, SmallValid, SmallEncrypt, SmallDecrypt)
  {
    SmallSchemeAdds();
    forall m: int
      ensures SmallValid(SmallEncrypt(m)) && SmallDecrypt(SmallEncrypt(m)) == m % 3
    {
      SmallRoundTrip(m);
    }
  }

  lemma SmallSchemeAdds()
    ensures Homomorphic(3, 9, SmallValid, SmallDecrypt)
  {
    forall c: nat | SmallValid(c)
      ensures c < 9 && SmallDecrypt(c) < 3
    {
    }
    forall c1: nat, c2: nat | SmallValid(c1) && SmallValid(c2)
      ensures SmallValid(MulMod(c1, c2, 9))
      ensures SmallDecrypt(MulMod(c1, c2, 9)) == (SmallDecrypt(c1) + SmallDecrypt(c2)) % 3
    {
      SmallProduct(c1, c2);
    }
  }

  /** The small scheme's encryption of `m` is valid and decrypts to `m % 3`. */
  lemma SmallRoundTrip(m: int)
    ensures SmallValid(SmallEncrypt(m)) && SmallDecrypt(SmallEncrypt(m)) == m % 3
  {
    var r := m % 3;
    assert SmallEncrypt(m) == 1 + r * 3;
    if r == 0 {
      assert SmallEncrypt(m) == 1;
    } else if r == 1 {
      assert SmallEncrypt(m) == 4;
    } else {
      assert SmallEncrypt(m) == 7;
    }
  }

  /** Products of two of the small scheme's ciphertexts, case by case. */
  lemma SmallProduct(c1: nat, c2: nat)
    requires SmallValid(c1) && SmallValid(c2)
    ensures SmallValid(MulMod(c1, c2, 9))
    ensures SmallDecrypt(MulMod(c1, c2, 9)) == (SmallDecrypt(c1) + SmallDecrypt(c2)) % 3
  {
    assert c1 == 1 || c1 == 4 || c1 == 7;
    if c1 == 1 {
      assert MulMod(c1, c2, 9) == c2;
    } else if c1 == 4 {
      assert c2 == 1 || c2 == 4 || c2 == 7;
      assert MulMod(4, 1, 9) == 4 && MulMod(4, 4, 9) == 7 && MulMod(4, 7, 9) == 1;
    } else {
      assert c2 == 1 || c2 == 4 || c2 == 7;
      assert MulMod(7, 1, 9) == 7 && MulMod(7, 4, 9) == 1 && MulMod(7, 7, 9) == 4;
    }
  }

  /** The plaintexts under `dec`, in order. */
  function Decryptions(values: seq<nat>, dec: nat -> nat): (ps: seq<int>)
    ensures |ps| == |values|
  {
    seq(|values|, k requires 0 <= k < |values| => dec(values[k]))
  }

  lemma {:induction false} SumDecryptionsSnoc(values: seq<nat>, dec: nat -> nat)
    requires values != []
    ensures Sum(Decryptions(values, dec)) == Sum(Decryptions(values[..|values| - 1], dec)) + dec(values[|values| - 1])
  {
    var ps := Decryptions(values, dec);
    assert ps[..|ps| - 1] == Decryptions(values[..|values| - 1], dec);
  }

  /** The aggregate of valid ciphertexts is valid and decrypts to the sum of the plaintexts modulo `n`. */
  lemma {:induction false} AggregateDecryptsToSum(n: nat, n2: nat, valid: nat -> bool, dec: nat -> nat, values: seq<nat>)
    requires n > 0 && n2 > 0 && Homomorphic(n, n2, valid, dec)
    requires values != [] && forall k :: 0 <= k < |values| ==> valid(values[k])
    ensures valid(ProdMod(values, n2))
    ensures dec(ProdMod(values, n2)) == Sum(Decryptions(values, dec)) % n
    decreases |values|
  {
    var front := values[..|values| - 1];
    var v := values[|values| - 1];
    assert valid(v);
    SumDecryptionsSnoc(values, dec);
    if front == [] {
      assert ProdMod(values, n2) == MulMod(1, v, n2);
      assert MulMod(1, v, n2) == v by {
        ModUnique(1 * v, 0, v, n2);
      }
      assert Sum(Decryptions(front, dec)) == 0;
      ModUnique(dec(v), 0, dec(v), n);
    } else {
      assert forall k :: 0 <= k < |front| ==> front[k] == values[k];
      AggregateDecryptsToSum(n, n2, valid, dec, front);
      var p := ProdMod(front, n2);
      assert ProdMod(values, n2) == MulMod(p, v, n2);
      AggregateStep(n, n2, valid, dec, p, v, Sum(Decryptions(front, dec)));
    }
  }

  /** One more valid ciphertext multiplied in keeps the product valid and adds its plaintext to the running sum, modulo `n`. */
  lemma {:induction false} AggregateStep(n: nat, n2: nat, valid: nat -> bool, dec: nat -> nat, p: nat, v: nat, s: int)
    requires n > 0 && n2 > 0 && Homomorphic(n, n2, valid, dec)
    requires valid(p) && valid(v) && dec(p) == s % n
    ensures valid(MulMod(p, v, n2))
    ensures dec(MulMod(p, v, n2)) == (s + dec(v)) % n
  {
    calc {
      dec(MulMod(p, v, n2));
      (dec(p) + dec(v)) % n;
      (s % n + dec(v)) % n;
      { ModAddLeft(s, dec(v), n); }
      (s + dec(v)) % n;
    }
  }

  /** Sums of values and sums of their residues agree modulo `n`. */
  lemma {:induction false} SumMod(xs: seq<int>, ys: seq<int>, n: nat)
    requires n > 0 && |xs| == |ys|
    requires forall k :: 0 <= k < |xs| ==> ys[k] == xs[k] % n
    ensures Sum(ys) % n == Sum(xs) % n
    decreases |xs|
  {
    if xs != [] {
      var xf, yf := xs[..|xs| - 1], ys[..|ys| - 1];
      SumMod(xf, yf, n);
      var x := xs[|xs| - 1];
      calc {
        Sum(ys) % n;
        (Sum(yf) + x % n) % n;
        { ModAddLeft(Sum(yf), x % n, n); ModAddLeft(Sum(xf), x % n, n); }
        (Sum(xf) + x % n) % n;
        { ModAddLeft(x, Sum(xf), n); }
        (x + Sum(xf)) % n;
      }
    }
  }
}
