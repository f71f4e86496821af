/** Division, remainder and rounding of natural numbers by an unknown positive number. */
module Arithmetic {

  /** Dividing by a product is dividing twice. */
  lemma DivDiv(v: nat, s: nat, n: nat)
    requires s >= 1 && n >= 1
    ensures s * n >= 1 && v / (s * n) == v / s / n
  {
    var j := v / s;
    var q := j / n;
    DivBounds(v, s, j);
    DivBounds(j, n, q);
    StretchOfStretches(v, s, n, j, q);
    Positive(s, n);
    DivUnique(v, s * n, q);
  }

  /** The j-th stretch of s bytes lies in the q-th group of n stretches. */
  lemma StretchOfStretches(v: nat, s: nat, n: nat, j: nat, q: nat)
    requires j * s <= v < j * s + s && q * n <= j < q * n + n
    ensures q * (s * n) <= v < q * (s * n) + s * n
  {
    TimesMono(q * n, j, s);
    TimesMono(j + 1, q * n + n, s);
    TimesSum(j, 1, s);
    Regroup(q, n, s);
  }

  lemma TimesSum(a: nat, b: nat, s: nat)
    ensures (a + b) * s == a * s + b * s
  {
  }

  lemma Positive(s: nat, n: nat)
    requires s >= 1 && n >= 1
    ensures s * n >= 1
  {
  }

  lemma Regroup(q: nat, n: nat, s: nat)
    ensures q * n * s == q * (s * n)
    ensures (q * n + n) * s == q * (s * n) + s * n
  {
  }

  lemma TimesMono(a: nat, b: nat, s: nat)
    requires a <= b
    ensures a * s <= b * s
  {
  }

  lemma DivUnique(v: nat, s: nat, q: nat)
    requires s >= 1
    requires q * s <= v < q * s + s
    ensures v / s == q
  {
    var d := v / s;
    assert d * s <= v < d * s + s;
    if d < q {
      TimesMono(d + 1, q, s);
    } else if q < d {
      TimesMono(q + 1, d, s);
    }
  }

  /** v is on the q-th stretch of s bytes exactly when its quotient is q. */
  lemma DivBounds(v: nat, s: nat, q: nat)
    requires s >= 1
    ensures v / s == q <==> q * s <= v < q * s + s
  {
    if q * s <= v < q * s + s {
      DivUnique(v, s, q);
    }
  }

  lemma DivNotNegative(a: nat, s: nat)
    requires s >= 1
    ensures a / s >= 0
  {
  }

  lemma DivMono(a: nat, b: nat, s: nat)
    requires s >= 1 && a <= b
    ensures a / s <= b / s
  {
    if b / s < a / s {
      TimesMono(b / s + 1, a / s, s);
    }
  }

  /** An absolute entry number inside the q-th page is q pages plus its place in the page. */
  lemma EntryInPage(i: nat, n: nat, q: nat)
    requires n >= 1 && q * n <= i < q * n + n
    ensures i % n == i - q * n
  {
    DivUnique(i, n, q);
  }

  lemma MultipleTimes(a: nat, p: nat, n: nat)
    requires p >= 1 && a % p == 0
    ensures n * a % p == 0 && a * n % p == 0
  {
    var m := a / p;
    assert n * a == n * m * p;
    DivUnique(n * a, p, n * m);
  }

  lemma MultiplePlus(a: nat, b: nat, p: nat)
    requires p >= 1 && a % p == 0 && b % p == 0
    ensures (a + b) % p == 0 && (a + b) / p == a / p + b / p
  {
    var m, n := a / p, b / p;
    assert a + b == (m + n) * p;
    DivUnique(a + b, p, m + n);
  }

  lemma MultipleMinus(a: nat, b: nat, p: nat)
    requires p >= 1 && a % p == 0 && b % p == 0 && b <= a
    ensures (a - b) % p == 0 && (a - b) / p == a / p - b / p
  {
    var m, n := a / p, b / p;
    assert a - b == (m - n) * p;
    DivMono(b, a, p);
    DivUnique(a - b, p, m - n);
  }

  /** Different multiples are at least one step apart. */
  lemma MultipleBelow(a: nat, b: nat, p: nat)
    requires p >= 1 && a % p == 0 && b % p == 0 && a < b
    ensures a + p <= b
  {
    var m, n := a / p, b / p;
    StepsApart(m, n, p);
  }

  lemma StepsApart(m: nat, n: nat, p: nat)
    requires m * p < n * p
    ensures m * p + p <= n * p
  {
    if n <= m {
      TimesMono(n, m, p);
    } else {
      TimesMono(m + 1, n, p);
      TimesSum(m, 1, p);
    }
  }

  lemma LastOfStretch(last: nat, p: nat)
    requires p >= 1 && (last + 1) % p == 0
    ensures last / p == (last + 1) / p - 1
  {
    var b := (last + 1) / p;
    assert b * p == last + 1;
    assert b >= 1;
    assert (b - 1) * p == b * p - p;
    DivUnique(last, p, b - 1);
  }

  /** Taking b away once keeps the remainder of division by b. */
  lemma SubtractOnce(a: nat, b: nat)
    requires b > 0
    ensures a >= b ==> (a - b) % b == a % b
    ensures a < b ==> a % b == a
  {
    if a >= b {
      var q := a / b;
      assert (q - 1) * b == q * b - b;
      DivUnique(a - b, b, q - 1);
    } else {
      DivUnique(a, b, 0);
    }
  }

  /** Numbers less than a ring apart have different slots on it. */
  lemma OtherSlot(k: nat, n: nat, size: nat)
    requires k < n < k + size
    ensures k % size != n % size
  {
    var q, r, d := k / size, k % size, n - k;
    assert k == q * size + r;
    assert (q + 1) * size == q * size + size;
    if r + d < size {
      DivUnique(n, size, q);
    } else {
      DivUnique(n, size, q + 1);
    }
  }

  // Rounding to a multiple of p

  function AlignDown(x: nat, p: nat): nat
    requires p >= 1
  {
    x / p * p
  }

  function AlignUp(x: nat, p: nat): nat
    requires p >= 1
  {
    (x + p - 1) / p * p
  }

  lemma AlignDownMono(a: nat, b: nat, p: nat)
    requires p >= 1 && a % p == 0 && a <= b
    ensures a <= AlignDown(b, p)
  {
    DivMono(a, b, p);
    TimesMono(a / p, b / p, p);
  }

  lemma AlignBounds(x: nat, p: nat)
    requires p >= 1
    ensures AlignDown(x, p) % p == 0 && AlignDown(x, p) <= x < AlignDown(x, p) + p
    ensures AlignUp(x, p) % p == 0 && x <= AlignUp(x, p) < x + p
    ensures AlignUp(x, p) == x <==> x % p == 0
  {
    Floor(x, p);
    Floor(x + p - 1, p);
    if x % p == 0 {
      DivUnique(x + p - 1, p, x / p);
    }
  }

  lemma Floor(x: nat, p: nat)
    requires p >= 1
    ensures AlignDown(x, p) % p == 0 && AlignDown(x, p) <= x < AlignDown(x, p) + p
  {
    DivBounds(x, p, x / p);
    EntryInPage(AlignDown(x, p), p, x / p);
  }

  /** The least multiple not below, and the greatest not above. */
  lemma AlignUpLeast(x: nat, p: nat)
    requires p >= 1
    ensures AlignUp(x, p) % p == 0 && x <= AlignUp(x, p)
    ensures forall m: int {:trigger m % p} | m % p == 0 && x <= m :: AlignUp(x, p) <= m
  {
    AlignBounds(x, p);
    forall m: int {:trigger m % p} | m % p == 0 && x <= m
      ensures AlignUp(x, p) <= m
    {
      if m < AlignUp(x, p) {
        MultipleBelow(m, AlignUp(x, p), p);
      }
    }
  }

  lemma AlignDownGreatest(x: nat, p: nat)
    requires p >= 1
    ensures AlignDown(x, p) % p == 0 && AlignDown(x, p) <= x
    ensures forall m: nat {:trigger m % p} | m % p == 0 && m <= x :: m <= AlignDown(x, p)
  {
    AlignBounds(x, p);
    forall m: nat {:trigger m % p} | m % p == 0 && m <= x
      ensures m <= AlignDown(x, p)
    {
      AlignDownMono(m, x, p);
    }
  }

  // The same in arithmetic modulo a multiple w of p

  lemma BelowIsDown(x: nat, p: nat)
    requires x < p
    ensures AlignDown(x, p) == 0
  {
    DivUnique(x, p, 0);
  }

  lemma ModulusReaches(w: nat, p: nat)
    requires p >= 1 && w >= 1 && w % p == 0
    ensures p <= w
  {
    MultipleTimes(p, p, 0);
    MultipleBelow(0, w, p);
  }

  /** An inclusive limit whose end is rounded down. */
  lemma LimitDown(limit: nat, w: nat, p: nat, hi: nat)
    requires p >= 1 && limit < w && w % p == 0 && hi == (AlignDown((limit + 1) % w, p) + w - 1) % w
    ensures if limit + 1 < p then hi == w - 1 else (hi + 1) % p == 0 && hi <= limit < hi + p
  {
    ModulusReaches(w, p);
    if limit + 1 == w {
      EntryInPage(w, w, 1);
      BelowIsDown(0, p);
      EntryInPage(w - 1, w, 0);
    } else {
      EntryInPage(limit + 1, w, 0);
      LimitDownInside(limit, w, p, hi);
    }
  }

  lemma LimitDownInside(limit: nat, w: nat, p: nat, hi: nat)
    requires p >= 1 && limit + 1 < w && hi == (AlignDown(limit + 1, p) + w - 1) % w
    ensures if limit + 1 < p then hi == w - 1 else (hi + 1) % p == 0 && hi <= limit < hi + p
  {
    var d := AlignDown(limit + 1, p);
    if limit + 1 < p {
      BelowIsDown(limit + 1, p);
      EntryInPage(w - 1, w, 0);
    } else {
      AlignBounds(limit + 1, p);
      EntryInPage(p, p, 1);
      AlignDownMono(p, limit + 1, p);
      EntryInPage(d + w - 1, w, 1);
    }
  }

  /** A base rounded up. */
  lemma BaseUp(base: nat, w: nat, p: nat, lo: nat)
    requires p >= 1 && base < w && w % p == 0 && lo == AlignDown((base + p - 1) % w, p)
    ensures lo % p == 0 && if base + p - 1 < w then base <= lo < base + p else lo == 0
  {
    ModulusReaches(w, p);
    AlignBounds((base + p - 1) % w, p);
    if base + p - 1 < w {
      EntryInPage(base + p - 1, w, 0);
      AlignBounds(base, p);
    } else {
      EntryInPage(base + p - 1, w, 1);
      BelowIsDown(base + p - 1 - w, p);
    }
  }
}
