/** Integer arithmetic that replaces the floating-point `math.ceil(a / b)` and
    `math.ceil(np.sqrt(n))` of image.py, with the few facts about division the
    grid and mosaic proofs need. */
module Arith {

  lemma MulLeftMono(a: int, b: int, c: nat)
    requires a <= b
    ensures c * a <= c * b && a * c <= b * c
  {
  }

  /** Multiplication by a positive `c` can be cancelled from `a * c <= b * c`. */
  lemma MulCancelLe(a: int, b: int, c: nat)
    requires c > 0 && a * c <= b * c
    ensures a <= b
  {
    if a > b {
      MulLeftMono(b + 1, a, c);
      SubOneMul(b + 1, c);
      assert false;
    }
  }

  lemma SubOneMul(q: int, d: int)
    ensures (q - 1) * d + d == q * d
  {
  }

  /** A multiple of `d` strictly between `-d` and `d` is zero. */
  lemma MulBetween(x: int, d: int)
    requires d > 0 && -d < x * d < d
    ensures x == 0
  {
    if x >= 1 {
      MulLeftMono(1, x, d);
    } else if x <= -1 {
      MulLeftMono(x, -1, d);
    }
  }

  /** The quotient and remainder of `k` by a positive `d` are determined by
      any decomposition `k == q * d + i` with `0 <= i < d`. */
  lemma DivModUnique(k: int, d: int, q: int, i: int)
    requires d > 0 && 0 <= i < d && k == q * d + i
    ensures k / d == q && k % d == i
  {
    var q', i' := k / d, k % d;
    assert (q' - q) * d == i - i';
    MulBetween(q' - q, d);
  }

  /** An index below `n * d` has a quotient by `d` below `n`. */
  lemma DivBelow(k: nat, d: nat, n: nat)
    requires d > 0 && k < n * d
    ensures 0 <= k / d < n && k == (k / d) * d + k % d && 0 <= k % d < d
  {
    DivModUnique(k, d, k / d, k % d);
    if k / d >= n {
      MulLeftMono(n, k / d, d);
    }
  }

  /** The start of block `q` in a run of blocks of length `d`: `q * d`,
      spelled out as repeated addition so that layout proofs stay linear. */
  function Offset(q: nat, d: nat): nat
  {
    if q == 0 then 0 else Offset(q - 1, d) + d
  }

  lemma {:induction false} OffsetIsProduct(q: nat, d: nat)
    ensures Offset(q, d) == q * d
  {
    if q > 0 {
      OffsetIsProduct(q - 1, d);
      SubOneMul(q, d);
    }
  }

  /** Later blocks start later. */
  lemma {:induction false} OffsetMono(p: nat, q: nat, d: nat)
    requires p <= q
    ensures Offset(p, d) <= Offset(q, d)
    decreases q
  {
    if p < q {
      OffsetMono(p, q - 1, d);
    }
  }

  /** Block and offset of position `k` in a run of blocks of length `d`,
      found by repeated subtraction: the quotient and remainder of `k` by
      `d`. */
  function Locate(k: nat, d: nat): (r: (nat, nat))
    requires d > 0
    ensures r.1 < d
    decreases k
  {
    if k < d then (0, k) else (Locate(k - d, d).0 + 1, Locate(k - d, d).1)
  }

  /** Block `q` and offset `i` located for `k` give `k` back. */
  lemma {:induction false} LocateSplits(k: nat, d: nat)
    requires d > 0
    ensures k == Offset(Locate(k, d).0, d) + Locate(k, d).1
    decreases k
  {
    if k >= d {
      LocateSplits(k - d, d);
    }
  }

  /** Offset `i` of block `q` is located at block `q`, offset `i`. */
  lemma {:induction false} LocateOffset(q: nat, i: nat, d: nat)
    requires i < d
    ensures Locate(Offset(q, d) + i, d).0 == q && Locate(Offset(q, d) + i, d).1 == i
    decreases q
  {
    if q > 0 {
      LocateOffset(q - 1, i, d);
    }
  }

  /** The length of a layout of `n` blocks of `t` with a separator of `m`
      between each two neighbours, spelled out as repeated addition. */
  function Span(n: nat, t: nat, m: nat): (s: nat)
    ensures t + m == 0 ==> s == 0
  {
    if n == 0 then 0 else if n == 1 then t else t + m + Span(n - 1, t, m)
  }

  lemma {:induction false} SpanIsProduct(n: nat, t: nat, m: nat)
    requires n > 0
    ensures Span(n, t, m) == n * t + (n - 1) * m
  {
    if n > 1 {
      SpanIsProduct(n - 1, t, m);
      SubOneMul(n, t);
      SubOneMul(n - 1, m);
    }
  }

  /** Offset `i` of block `r` is a position of the layout, provided it is
      not in the separator after the last block. */
  lemma {:induction false} OffsetInSpan(r: nat, i: nat, n: nat, t: nat, m: nat)
    requires r < n && i < t + m && (r + 1 < n || i < t)
    ensures Offset(r, t + m) + i < Span(n, t, m)
    decreases r
  {
    if r > 0 {
      OffsetInSpan(r - 1, i, n - 1, t, m);
    }
  }

  /** Conversely, a position of the layout lies in one of the `n` blocks,
      and in the block proper unless a separator follows the block. */
  lemma {:induction false} LocateInSpan(k: nat, n: nat, t: nat, m: nat)
    requires k < Span(n, t, m)
    ensures t + m > 0
    ensures Locate(k, t + m).0 < n && (Locate(k, t + m).0 + 1 < n || Locate(k, t + m).1 < t)
    decreases k
  {
    if k >= t + m {
      LocateInSpan(k - (t + m), n - 1, t, m);
    }
  }

  /** Python's `math.ceil(a / b)` for a natural numerator and a positive divisor. */
  function CeilDiv(a: nat, b: nat): (q: nat)
    requires b > 0
    ensures q * b >= a
    ensures (q - 1) * b < a
  {
    DivModUnique(a + b - 1, b, (a + b - 1) / b, (a + b - 1) % b);
    (a + b - 1) / b
  }

  /** `CeilDiv(a, b)` is the least `q` with `q * b >= a`. */
  lemma CeilDivLeast(a: nat, b: nat, q: int)
    requires b > 0 && q * b >= a
    ensures CeilDiv(a, b) <= q
  {
    var c := CeilDiv(a, b);
    if c > q {
      MulLeftMono(q, c - 1, b);
      assert false;
    }
  }

  /** ... and every `k` with `(k - 1) * b < a` is at most `CeilDiv(a, b)`. */
  lemma CeilDivMost(a: nat, b: nat, k: int)
    requires b > 0 && (k - 1) * b < a
    ensures k <= CeilDiv(a, b)
  {
    var c := CeilDiv(a, b);
    if k > c {
      MulLeftMono(c, k - 1, b);
      assert false;
    }
  }

  /** One more full divisor adds one to the ceiling quotient. */
  lemma CeilDivStep(a: nat, b: nat)
    requires b > 0
    ensures CeilDiv(a + b, b) == CeilDiv(a, b) + 1
  {
    var q, r := (a + b - 1) / b, (a + b - 1) % b;
    DivModUnique(a + b - 1, b, q, r);
    DivModUnique(a + b + b - 1, b, q + 1, r);
  }

  /** The smallest `s` with `s * s >= n`: the integer `math.ceil(np.sqrt(n))`. */
  function CeilSqrt(n: nat): (s: nat)
    ensures s * s >= n
    ensures s == 0 || (s - 1) * (s - 1) < n
  {
    CeilSqrtFrom(n, 0)
  }

  function CeilSqrtFrom(n: nat, k: nat): (s: nat)
    requires k == 0 || (k - 1) * (k - 1) < n
    ensures s * s >= n
    ensures s == 0 || (s - 1) * (s - 1) < n
    decreases n - k
  {
    if k * k >= n then k
    else
      assert k <= k * k || k == 0;
      CeilSqrtFrom(n, k + 1)
  }
}
