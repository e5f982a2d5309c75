/** Bit operations on naturals, as the hash table uses them: a bucket number is
    `hashv & (num_buckets - 1)`, and the ideal chain length is computed with a
    shift and a mask. Masks and shifts are defined bit by bit, and proved to be
    remainder and quotient by a power of two. */
module Bits {

  function Pow2(k: nat): (p: nat)
    ensures p >= 1
  {
    if k == 0 then 1 else 2 * Pow2(k - 1)
  }

  /** Bitwise conjunction. */
  function And(x: nat, y: nat): nat
  {
    if x == 0 || y == 0 then 0 else (x % 2) * (y % 2) + 2 * And(x / 2, y / 2)
  }

  /** Logical shift to the right. */
  function Shr(x: nat, k: nat): nat
    decreases k
  {
    if k == 0 then x else Shr(x / 2, k - 1)
  }

  /** Division rounding up, the documented meaning of the ideal chain length. */
  function CeilDiv(n: nat, b: nat): nat
    requires b > 0
  {
    n / b + if n % b == 0 then 0 else 1
  }

  /** CeilDiv(n, b) is the least q such that q buckets of size b hold n. */
  lemma CeilDivLeast(n: nat, b: nat)
    requires b > 0
    ensures CeilDiv(n, b) * b >= n
    ensures CeilDiv(n, b) > 0 ==> (CeilDiv(n, b) - 1) * b < n
    ensures n > 0 ==> CeilDiv(n, b) > 0
  {
    DivideWithRemainder(n, b);
  }

  lemma DivideWithRemainder(n: nat, b: nat)
    requires b > 0
    ensures n == (n / b) * b + n % b
    ensures (n / b + 1) * b == (n / b) * b + b
    ensures n / b > 0 ==> (n / b - 1) * b == (n / b) * b - b
  {
  }

  /** A number splits at the bits selected by a doubled divisor. */
  lemma HalveRemainder(x: nat, p: nat)
    requires p > 0
    ensures x % (2 * p) == x % 2 + 2 * ((x / 2) % p)
    ensures x / (2 * p) == (x / 2) / p
  {
    var h, q, r := x / 2, (x / 2) / p, (x / 2) % p;
    DivideWithRemainder(h, p);
    assert x == q * (2 * p) + (x % 2 + 2 * r);
    QuotientUnique(x, 2 * p, q, x % 2 + 2 * r);
  }

  lemma GapTooWide(q: int, q': int, b: nat)
    requires q < q'
    ensures q' * b >= q * b + b
  {
    calc {
      q' * b;
      q * b + (q' - q) * b;
      q * b + b + (q' - q - 1) * b;
    }
    assert (q' - q - 1) * b >= 0;
  }

  lemma QuotientUnique(x: nat, b: nat, q: nat, r: nat)
    requires r < b
    requires x == q * b + r
    ensures x / b == q && x % b == r
  {
    QuotientsAgree(q, r, x / b, x % b, b);
  }

  lemma QuotientsAgree(q: nat, r: nat, q': nat, r': nat, b: nat)
    requires r < b && r' < b
    requires q * b + r == q' * b + r'
    ensures q == q' && r == r'
  {
    if q < q' {
      GapTooWide(q, q', b);
    } else if q' < q {
      GapTooWide(q', q, b);
    }
  }

  /** Masking with 2^k - 1 keeps the remainder modulo 2^k. */
  lemma {:induction false} MaskIsRemainder(x: nat, k: nat)
    ensures And(x, Pow2(k) - 1) == x % Pow2(k)
    decreases k
  {
    if x == 0 {
      QuotientUnique(0, Pow2(k), 0, 0);
    } else if k > 0 {
      var p := Pow2(k - 1);
      calc {
        And(x, Pow2(k) - 1);
        { assert Pow2(k) == 2 * p; }
        And(x, 2 * p - 1);
        { LowBitOfMask(x, p); }
        x % 2 + 2 * And(x / 2, p - 1);
        { MaskIsRemainder(x / 2, k - 1); }
        x % 2 + 2 * ((x / 2) % p);
        { HalveRemainder(x, p); }
        x % (2 * p);
      }
    }
  }

  lemma LowBitOfMask(x: nat, p: nat)
    requires p > 0
    ensures And(x, 2 * p - 1) == x % 2 + 2 * And(x / 2, p - 1)
  {
    assert (2 * p - 1) / 2 == p - 1 && (2 * p - 1) % 2 == 1;
  }

  /** Shifting right by k is division by 2^k. */
  lemma {:induction false} ShiftIsQuotient(x: nat, k: nat)
    ensures Shr(x, k) == x / Pow2(k)
    decreases k
  {
    if k > 0 {
      ShiftIsQuotient(x / 2, k - 1);
      HalveRemainder(x, Pow2(k - 1));
    }
  }

  /** Doubling the number of buckets sends the elements of bucket b to b or b + n. */
  lemma RemainderOfDouble(x: nat, n: nat)
    requires n > 0
    ensures x % (2 * n) % n == x % n
  {
    FoldRemainder(x, n, x / (2 * n), x % (2 * n));
  }

  lemma FoldRemainder(x: nat, n: nat, q: nat, r: nat)
    requires n > 0 && r < 2 * n && x == q * (2 * n) + r
    ensures r % n == x % n
  {
    if r < n {
      QuotientUnique(r, n, 0, r);
      QuotientUnique(x, n, 2 * q, r);
    } else {
      QuotientUnique(r, n, 1, r - n);
      QuotientUnique(x, n, 2 * q + 1, r - n);
    }
  }
}
