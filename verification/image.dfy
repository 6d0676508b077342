/**
 * The decoded image: a fixed-shape buffer `imdata[row][col][channel]` of
 * channel samples, walked in row-major then channel order. `Index` gives a
 * sample's position in that walk and `Samples` the samples in walk order.
 */
module Image {

  /** The number of channel samples in the image. */
  function Count(a: array3<int>): nat {
    a.Length0 * (a.Length1 * a.Length2)
  }

  predicate InBounds(a: array3<int>, i: int, j: int, k: int) {
    0 <= i < a.Length0 && 0 <= j < a.Length1 && 0 <= k < a.Length2
  }

  /** Position of sample [i][j][k] in row-major then channel order. */
  function Index(a: array3<int>, i: int, j: int, k: int): (r: int)
    ensures InBounds(a, i, j, k) ==> 0 <= r < Count(a)
  {
    WithinWalk(a.Length0, a.Length1, a.Length2, i, j, k);
    i * (a.Length1 * a.Length2) + j * a.Length2 + k
  }

  /** An in-bounds sample's position lies inside the walk of h * w * c samples. */
  lemma WithinWalk(h: int, w: int, c: int, i: int, j: int, k: int)
    ensures 0 <= i < h && 0 <= j < w && 0 <= k < c ==> 0 <= i * (w * c) + j * c + k < h * (w * c)
  {
    if 0 <= i < h && 0 <= j < w && 0 <= k < c {
      MulMonotone(j, w - 1, c);
      MulMonotone(i, h - 1, w * c);
    }
  }

  /** The walk goes from the last channel of a pixel to the next pixel ... */
  lemma NextPixel(a: array3<int>, i: int, j: int)
    ensures Index(a, i, j, a.Length2) == Index(a, i, j + 1, 0)
  {
  }

  /** ... from the last pixel of a row to the next row, and ends after Count samples. */
  lemma NextRow(a: array3<int>, i: int)
    ensures Index(a, i, a.Length1, 0) == Index(a, i + 1, 0, 0)
    ensures Index(a, a.Length0, 0, 0) == Count(a)
  {
  }

  lemma MulMonotone(x: int, y: int, m: int)
    requires x <= y && 0 <= m
    ensures x * m <= y * m
  {
  }

  lemma {:induction false} DivModUnique(p: int, m: int, q: int, r: int)
    requires m > 0 && 0 <= r < m && p == q * m + r
    ensures p / m == q && p % m == r
  {
    var q', r' := p / m, p % m;
    assert p == q' * m + r';
    if q' > q {
      MulMonotone(q + 1, q', m);
    } else if q' < q {
      MulMonotone(q' + 1, q, m);
    }
  }

  lemma {:induction false} CellFacts(h: nat, w: nat, c: nat, p: int)
    requires 0 <= p < h * (w * c)
    ensures w * c > 0 && c > 0
    ensures 0 <= p / (w * c) < h
    ensures 0 <= (p % (w * c)) / c < w
    ensures p / (w * c) * (w * c) + (p % (w * c)) / c * c + (p % (w * c)) % c == p
  {
    var wc := w * c;
    PositiveFactor(h, wc);
    PositiveFactor(w, c);
    DivBelow(p, wc, h);
    DivBelow(p % wc, c, w);
  }

  lemma PositiveFactor(x: nat, y: nat)
    requires x * y > 0
    ensures y > 0
  {
  }

  /** A non-negative number below h * m has a quotient by m below h. */
  lemma {:induction false} DivBelow(p: int, m: int, h: int)
    requires m > 0 && 0 <= p < h * m
    ensures 0 <= p / m < h && p == p / m * m + p % m
  {
    var q := p / m;
    if q >= h {
      MulMonotone(h, q, m);
    }
  }

  /** The sample at position p of the walk: the inverse of `Index`. */
  function Cell(a: array3<int>, p: int): (c: (int, int, int))
    requires 0 <= p < Count(a)
    ensures InBounds(a, c.0, c.1, c.2) && Index(a, c.0, c.1, c.2) == p
  {
    CellFacts(a.Length0, a.Length1, a.Length2, p);
    var plane := a.Length1 * a.Length2;
    var r := p % plane;
    (p / plane, r / a.Length2, r % a.Length2)
  }

  /** Every sample has its own position, and `Cell` finds the sample back. */
  lemma {:induction false} CellOfIndex(a: array3<int>, i: int, j: int, k: int)
    requires InBounds(a, i, j, k)
    ensures 0 <= Index(a, i, j, k) < Count(a)
    ensures Cell(a, Index(a, i, j, k)) == (i, j, k)
  {
    var w, c := a.Length1, a.Length2;
    var r := j * c + k;
    MulMonotone(j, w - 1, c);
    assert r < w * c;
    DivModUnique(Index(a, i, j, k), w * c, i, r);
    DivModUnique(r, c, j, k);
  }

  /** The samples of the image in row-major then channel order. */
  ghost function Samples(a: array3<int>): (s: seq<int>)
    reads a
    ensures |s| == Count(a)
  {
    seq(Count(a), p requires 0 <= p < Count(a) reads a => var c := Cell(a, p); a[c.0, c.1, c.2])
  }

  /** Sample [i][j][k] sits at position Index(i, j, k) of the walk. */
  lemma SampleAt(a: array3<int>, i: int, j: int, k: int)
    requires InBounds(a, i, j, k)
    ensures 0 <= Index(a, i, j, k) < |Samples(a)|
    ensures Samples(a)[Index(a, i, j, k)] == a[i, j, k]
  {
    CellOfIndex(a, i, j, k);
  }

  /**
   * Writing one sample changes one position of the walk: when every sample of
   * the array other than [i][j][k] still holds what `before` has at its
   * position, the walk is `before` with position Index(i, j, k) set to the new
   * value of [i][j][k].
   */
  lemma SamplesUpdated(a: array3<int>, i: int, j: int, k: int, before: seq<int>)
    requires InBounds(a, i, j, k) && |before| == Count(a)
    requires forall i', j', k' :: InBounds(a, i', j', k') && (i', j', k') != (i, j, k) ==>
      0 <= Index(a, i', j', k') < |before| && a[i', j', k'] == before[Index(a, i', j', k')]
    ensures 0 <= Index(a, i, j, k) < Count(a)
    ensures Samples(a) == before[Index(a, i, j, k) := a[i, j, k]]
  {
    var d := Index(a, i, j, k);
    SampleAt(a, i, j, k);
    forall p | 0 <= p < Count(a) && p != d
      ensures Samples(a)[p] == before[p]
    {
      var c := Cell(a, p);
      assert c != (i, j, k);
    }
  }
}
