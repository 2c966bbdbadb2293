/** page_size, page_mask and the address arithmetic of check_eofpage in fsx.c. */
module PageMask {

  function Pow2(k: nat): (p: nat)
    ensures p > 0
  {
    if k == 0 then 1 else 2 * Pow2(k - 1)
  }

  /** x & y, bit by bit. */
  function And(x: nat, y: nat): nat {
    if x == 0 || y == 0 then 0 else 2 * And(x / 2, y / 2) + (if x % 2 == 1 && y % 2 == 1 then 1 else 0)
  }

  /** x & ~y, bit by bit. */
  function AndNot(x: nat, y: nat): nat {
    if x == 0 then 0 else 2 * AndNot(x / 2, y / 2) + (if x % 2 == 1 && y % 2 == 0 then 1 else 0)
  }

  /** Bit k of x. */
  predicate Bit(x: nat, k: nat) {
    if k == 0 then x % 2 == 1 else Bit(x / 2, k - 1)
  }

  /** And and AndNot are what they say on every bit. */
  lemma {:induction false} BitsOf(x: nat, y: nat, k: nat)
    ensures Bit(And(x, y), k) <==> Bit(x, k) && Bit(y, k)
    ensures Bit(AndNot(x, y), k) <==> Bit(x, k) && !Bit(y, k)
    decreases k
  {
    NoBits(k);
    Halves(x, y);
    if k == 0 {
    } else {
      BitsOf(x / 2, y / 2, k - 1);
    }
  }

  lemma {:induction false} NoBits(k: nat)
    ensures !Bit(0, k)
  {
    if k == 0 {
    } else {
      NoBits(k - 1);
    }
  }

  lemma {:induction false} Halves(x: nat, y: nat)
    ensures And(x, y) / 2 == And(x / 2, y / 2) && And(x, y) % 2 == (if x % 2 == 1 && y % 2 == 1 then 1 else 0)
    ensures AndNot(x, y) / 2 == AndNot(x / 2, y / 2) && AndNot(x, y) % 2 == (if x % 2 == 1 && y % 2 == 0 then 1 else 0)
  {
  }

  lemma {:induction false} HalfMod(x: nat, p: nat)
    requires p > 0
    ensures x % (2 * p) == 2 * (x / 2 % p) + x % 2
  {
    var q, r := x / 2 / p, x / 2 % p;
    assert x / 2 == p * q + r;
    assert x == (2 * p) * q + (2 * r + x % 2);
    ModUnique(x, 2 * p, q, 2 * r + x % 2);
  }

  lemma {:induction false} MulStrict(d: nat, a: nat, b: nat)
    requires a < b
    ensures d * a + d <= d * b
    decreases b
  {
    if a + 1 < b {
      MulStrict(d, a, b - 1);
    }
    assert d * b == d * (b - 1) + d;
  }

  lemma {:induction false} ModUnique(x: nat, d: nat, q: nat, r: nat)
    requires d > 0 && x == d * q + r && r < d
    ensures x / d == q && x % d == r
  {
    assert x == d * (x / d) + x % d;
    if q < x / d {
      MulStrict(d, q, x / d);
    } else if x / d < q {
      MulStrict(d, x / d, q);
    }
  }

  lemma {:induction false} AndStep(x: nat, p: nat)
    requires p > 0
    ensures And(x, 2 * p - 1) == 2 * And(x / 2, p - 1) + x % 2
    ensures AndNot(x, 2 * p - 1) == 2 * AndNot(x / 2, p - 1)
  {
  }

  /** With page_mask = 2^k - 1, & page_mask is the remainder and & ~page_mask rounds down. */
  lemma {:induction false} MaskIsMod(x: nat, k: nat)
    ensures And(x, Pow2(k) - 1) == x % Pow2(k)
    ensures AndNot(x, Pow2(k) - 1) == x - x % Pow2(k)
    decreases k
  {
    if k == 0 {
      AndNotZero(x);
    } else {
      hide And, AndNot;
      var p := Pow2(k - 1);
      MaskIsMod(x / 2, k - 1);
      AndStep(x, p);
      HalfMod(x, p);
    }
  }

  lemma {:induction false} AndNotZero(x: nat)
    ensures AndNot(x, 0) == x
  {
    if x == 0 {
    } else {
      AndNotZero(x / 2);
    }
  }

  /** x rounded down to a multiple of p. */
  function Floor(x: nat, p: nat): (f: nat)
    requires p > 0
    ensures f <= x < f + p
  {
    x - x % p
  }

  lemma {:induction false} FloorUnique(x: nat, p: nat, f: nat)
    requires p > 0 && f % p == 0 && f <= x < f + p
    ensures Floor(x, p) == f
  {
    assert f == p * (f / p);
    ModUnique(x, p, f / p, x - f);
  }

  lemma {:induction false} FloorMod(x: nat, p: nat)
    requires p > 0
    ensures Floor(x, p) % p == 0
  {
    assert x == p * (x / p) + x % p;
    ModUnique(Floor(x, p), p, x / p, 0);
  }

  lemma {:induction false} SumOfMultiples(a: nat, b: nat, p: nat)
    requires p > 0 && a % p == 0 && b % p == 0
    ensures (a + b) % p == 0 && (a >= b ==> (a - b) % p == 0)
  {
    var m, n := a / p, b / p;
    assert a == p * m && b == p * n;
    assert a + b == p * (m + n);
    ModUnique(a + b, p, m + n, 0);
    if a >= b {
      assert p * m >= p * n;
      assert m >= n;
      assert a - b == p * (m - n);
      ModUnique(a - b, p, m - n, 0);
    }
  }

  /** The first address check_eofpage looks at: p is where the mapping starts. */
  function ScanStart(p: nat, offset: nat, size: nat, fileSize: nat, mask: nat): nat {
    AndNot(p + And(offset, mask) + size, mask) + And(fileSize, mask)
  }

  function ScanEnd(p: nat, offset: nat, size: nat, mask: nat, pageSize: nat): nat {
    AndNot(p + And(offset, mask) + size, mask) + pageSize
  }

  /** EOF-page arithmetic. The mapping at p starts with the file's page that holds offset, so file offset x
      is mapped at p + (x - base). Unless the access ends at or before the last page boundary in the file,
      check_eofpage scans exactly the addresses of the file offsets from fileSize to the end of that page,
      a non-empty range inside the pages that mmap mapped. */
  lemma {:induction false} EofPage(p: nat, offset: nat, size: nat, fileSize: nat, k: nat)
    requires p % Pow2(k) == 0 && size > 0 && offset + size <= fileSize
    ensures var page := Pow2(k);
      var mask := page - 1;
      var base := offset - And(offset, mask);
      && base == Floor(offset, page)
      && AndNot(fileSize, mask) == Floor(fileSize, page)
      && (offset + size > AndNot(fileSize, mask) ==>
           && ScanStart(p, offset, size, fileSize, mask) == p + (fileSize - base)
           && ScanEnd(p, offset, size, mask, page) == p + (Floor(fileSize, page) + page - base)
           && fileSize < Floor(fileSize, page) + page
           && p + (Floor(fileSize, page) + page - base) == p + Floor(And(offset, mask) + size + page - 1, page))
  {
    hide And, AndNot, Pow2;
    var page := Pow2(k);
    MaskIsMod(offset, k);
    MaskIsMod(fileSize, k);
    var base := Floor(offset, page);
    MaskIsMod(p + (offset - base) + size, k);
    if offset + size > Floor(fileSize, page) {
      var last := Floor(fileSize, page) - base;
      FloorMod(fileSize, page);
      FloorMod(offset, page);
      assert Floor(fileSize, page) >= base by {
        FloorBelow(offset, fileSize, page);
      }
      SumOfMultiples(Floor(fileSize, page), base, page);
      SumOfMultiples(p, last, page);
      FloorUnique(p + (offset - base) + size, page, p + last);
      PageItself(page);
      SumOfMultiples(last, page, page);
      FloorUnique((offset - base) + size + page - 1, page, last + page);
    }
  }

  lemma {:induction false} PageItself(page: nat)
    requires page > 0
    ensures page % page == 0
  {
  }

  lemma {:induction false} FloorBelow(x: nat, y: nat, p: nat)
    requires p > 0 && x <= y
    ensures Floor(x, p) <= Floor(y, p)
  {
    assert x == p * (x / p) + x % p && y == p * (y / p) + y % p;
    if y / p < x / p {
      MulStrict(p, y / p, x / p);
    } else if x / p < y / p {
      MulStrict(p, x / p, y / p);
    }
  }
}
