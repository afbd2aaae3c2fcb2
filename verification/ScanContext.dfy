/** Scan Context descriptors: circular column shifts, ring and sector keys, and the distance that
    looks for the best shift near an alignment of the sector keys. */
module ScanContext {
  import opened SquareRoot
  import opened Sorting

  /** A matrix as its columns, all of the same length. */
  type Column = seq<real>
  type Matrix = seq<Column>

  ghost predicate Shaped(m: Matrix, rows: nat) {
    forall j :: 0 <= j < |m| ==> |m[j]| == rows
  }

  // ---------- circular shifts ----------

  /** The columns moved n places to the right, those that leave on the right coming in on the left. */
  function CircShift<T>(s: seq<T>, n: nat): (r: seq<T>)
    ensures |r| == |s|
  {
    if s == [] then s else
      var k := n % |s|;
      s[|s| - k..] + s[..|s| - k]
  }

  /** Where column i goes. */
  function Place(i: nat, n: nat, cols: nat): (p: nat)
    requires i < cols
    ensures p < cols
  {
    (i + n) % cols
  }

  lemma PlaceIs(i: nat, n: nat, cols: nat)
    requires i < cols
    ensures var k := n % cols; Place(i, n, cols) == if i + k < cols then i + k else i + k - cols
  {
    var k, q := n % cols, n / cols;
    assert n == q * cols + k;
    var p := if i + k < cols then i + k else i + k - cols;
    var e := if i + k < cols then q else q + 1;
    assert i + n == e * cols + p by { if i + k >= cols { assert (q + 1) * cols == q * cols + cols; } }
    Residue(e, p, cols);
  }

  lemma Residue(q: nat, p: nat, cols: nat)
    requires p < cols
    ensures (q * cols + p) % cols == p
  {
    var x := q * cols + p;
    var d := x / cols - q;
    assert x % cols - p == -d * cols;
    if d >= 1 { AtLeastOnce(d, cols); } else if d <= -1 { AtLeastOnce(-d, cols); }
  }

  lemma AtLeastOnce(d: int, c: nat)
    requires d >= 1
    ensures d * c >= c
  {
  }

  lemma Distribute(q: int, e: int, c: int)
    ensures (q + e) * c == q * c + e * c
  {
  }

  lemma PlacesDiffer(i: nat, j: nat, n: nat, cols: nat)
    requires i < j < cols
    ensures Place(i, n, cols) != Place(j, n, cols)
  {
    PlaceIs(i, n, cols);
    PlaceIs(j, n, cols);
  }

  /** The column that goes to place p. */
  lemma PlaceOnto(p: nat, n: nat, cols: nat) returns (i: nat)
    requires p < cols
    ensures i < cols && Place(i, n, cols) == p
  {
    var k := n % cols;
    i := if p >= k then p - k else p - k + cols;
    PlaceIs(i, n, cols);
  }

  lemma ShiftPlaces<T>(s: seq<T>, n: nat, i: nat)
    requires i < |s|
    ensures CircShift(s, n)[Place(i, n, |s|)] == s[i]
  {
    PlaceIs(i, n, |s|);
  }

  /** The loop of circshift. */
  method circshift(m: Matrix, num_shift: nat) returns (shifted: Matrix)
    ensures shifted == CircShift(m, num_shift)
  {
    if num_shift == 0 {
      ShiftZero(m);
      return m;
    }
    hide Place, CircShift;
    shifted := seq(|m|, j requires 0 <= j < |m| => seq(|m[j]|, _ => 0.0));
    var col_idx := 0;
    while col_idx < |m|
      invariant 0 <= col_idx <= |m| == |shifted|
      invariant forall i :: 0 <= i < col_idx ==> shifted[Place(i, num_shift, |m|)] == m[i]
    {
      var new_location := Place(col_idx, num_shift, |m|);
      forall i | 0 <= i < col_idx ensures Place(i, num_shift, |m|) != new_location {
        PlacesDiffer(i, col_idx, num_shift, |m|);
      }
      shifted := shifted[new_location := m[col_idx]];
      col_idx := col_idx + 1;
    }
    forall p | 0 <= p < |m| ensures shifted[p] == CircShift(m, num_shift)[p] {
      var i := PlaceOnto(p, num_shift, |m|);
      ShiftPlaces(m, num_shift, i);
    }
  }

  lemma ShiftZero<T>(s: seq<T>)
    ensures CircShift(s, 0) == s
  {
  }

  function Rotate<T>(s: seq<T>, k: nat): seq<T>
    requires k <= |s|
  {
    s[|s| - k..] + s[..|s| - k]
  }

  lemma RotateTwice<T>(s: seq<T>, k: nat, l: nat)
    requires k < |s| && l < |s|
    ensures Rotate(Rotate(s, k), l) == Rotate(s, if k + l < |s| then k + l else k + l - |s|)
  {
    var c := |s|;
    var t := Rotate(Rotate(s, k), l);
    forall p | 0 <= p < c ensures t[p] == Rotate(s, if k + l < c then k + l else k + l - c)[p] {
      var q := if p < l then c - l + p else p - l;
      assert t[p] == Rotate(s, k)[q];
    }
  }

  /** Shifts compose, modulo the number of columns. */
  lemma ShiftsCompose<T>(s: seq<T>, a: nat, b: nat)
    ensures CircShift(CircShift(s, a), b) == CircShift(s, a + b)
    ensures s != [] ==> CircShift(s, a) == CircShift(s, a % |s|)
  {
    if s != [] {
      ShiftIsRotate(s, a);
      ShiftIsRotate(CircShift(s, a), b);
      ShiftIsRotate(s, a + b);
      ShiftIsRotate(s, a % |s|);
      SumResidue(a, b, |s|);
      Residue(0, a % |s|, |s|);
      RotateTwice(s, a % |s|, b % |s|);
    }
  }

  lemma ShiftIsRotate<T>(s: seq<T>, n: nat)
    requires s != []
    ensures CircShift(s, n) == Rotate(s, n % |s|)
  {
  }

  lemma SumResidue(a: nat, b: nat, c: nat)
    requires c > 0
    ensures var k, l := a % c, b % c; (a + b) % c == if k + l < c then k + l else k + l - c
  {
    DivMod(a, c);
    DivMod(b, c);
    SumOfParts(a, b, c, a % c, b % c, a / c, b / c);
  }

  lemma DivMod(a: nat, c: nat)
    requires c > 0
    ensures a == a / c * c + a % c
  {
  }

  lemma SumOfParts(a: nat, b: nat, c: nat, k: nat, l: nat, q: nat, e: nat)
    requires k < c && l < c && a == q * c + k && b == e * c + l
    ensures (a + b) % c == if k + l < c then k + l else k + l - c
  {
    Distribute(q, e, c);
    Distribute(q + e, 1, c);
    if k + l < c { ResidueOf(a + b, q + e, k + l, c); } else { ResidueOf(a + b, q + e + 1, k + l - c, c); }
  }

  lemma ResidueOf(x: nat, q: nat, p: nat, c: nat)
    requires p < c && x == q * c + p
    ensures x % c == p
  {
    Residue(q, p, c);
  }

  // ---------- sums ----------

  function Sum(s: seq<real>): real {
    if s == [] then 0.0 else Sum(s[..|s| - 1]) + s[|s| - 1]
  }

  lemma {:induction false} SumConcat(a: seq<real>, b: seq<real>)
    ensures Sum(a + b) == Sum(a) + Sum(b)
    decreases |b|
  {
    if b == [] {
      assert a + b == a;
    } else {
      assert (a + b)[..|a + b| - 1] == a + b[..|b| - 1];
      SumConcat(a, b[..|b| - 1]);
    }
  }

  lemma SumShifted(s: seq<real>, n: nat)
    ensures Sum(CircShift(s, n)) == Sum(s)
  {
    if s != [] {
      var k := n % |s|;
      var a, b := s[..|s| - k], s[|s| - k..];
      SumConcat(a, b);
      SumConcat(b, a);
      assert a + b == s;
    }
  }

  function Map<S, T>(f: S -> T, s: seq<S>): (r: seq<T>)
    ensures |r| == |s| && forall i :: 0 <= i < |s| ==> r[i] == f(s[i])
  {
    seq(|s|, i requires 0 <= i < |s| => f(s[i]))
  }

  lemma MapShifted<S, T>(f: S -> T, s: seq<S>, n: nat)
    ensures Map(f, CircShift(s, n)) == CircShift(Map(f, s), n)
  {
  }

  // ---------- keys ----------

  function Row(m: Matrix, i: nat): seq<real>
    requires forall j :: 0 <= j < |m| ==> i < |m[j]|
  {
    seq(|m|, j requires 0 <= j < |m| => m[j][i])
  }

  /** Row means. */
  function RingKey(m: Matrix, rows: nat): (k: seq<real>)
    requires Shaped(m, rows) && |m| > 0
    ensures |k| == rows
  {
    seq(rows, i requires 0 <= i < rows => Sum(Row(m, i)) / (|m| as real))
  }

  function ColumnMean(c: Column): real { if |c| == 0 then 0.0 else Sum(c) / (|c| as real) }

  /** Column means, as a matrix of one row. */
  function SectorKey(m: Matrix): (k: Matrix)
    ensures |k| == |m| && Shaped(k, 1)
  {
    Map(c => [ColumnMean(c)], m)
  }

  lemma {:induction false} SumOfStep(s: seq<real>, p: nat, x: real, y: real)
    requires p <= |s| && forall j :: 0 <= j < |s| ==> s[j] == if j < p then x else y
    ensures Sum(s) == (p as real) * x + ((|s| - p) as real) * y
    decreases |s|
  {
    if s != [] {
      var n := |s| - 1;
      if p <= n {
        SumOfStep(s[..n], p, x, y);
        assert ((n + 1 - p) as real) * y == ((n - p) as real) * y + y;
      } else {
        SumOfStep(s[..n], n, x, y);
        assert ((n + 1) as real) * x == (n as real) * x + x;
      }
    }
  }

  /** A ring with x in p sectors and y in the others has the weighted mean as key. */
  lemma RingKeyOfStep(m: Matrix, rows: nat, i: nat, p: nat, x: real, y: real)
    requires Shaped(m, rows) && i < rows && p <= |m| && |m| > 0
    requires forall j :: 0 <= j < |m| ==> m[j][i] == if j < p then x else y
    ensures RingKey(m, rows)[i] * (|m| as real) == (p as real) * x + ((|m| - p) as real) * y
  {
    SumOfStep(Row(m, i), p, x, y);
  }

  /** And so has a sector with x in p rings. */
  lemma SectorKeyOfStep(m: Matrix, j: nat, p: nat, x: real, y: real)
    requires j < |m| && p <= |m[j]| && |m[j]| > 0
    requires forall i :: 0 <= i < |m[j]| ==> m[j][i] == if i < p then x else y
    ensures |SectorKey(m)[j]| == 1
    ensures SectorKey(m)[j][0] * (|m[j]| as real) == (p as real) * x + ((|m[j]| - p) as real) * y
  {
    SumOfStep(m[j], p, x, y);
  }

  lemma ShapedShift(m: Matrix, rows: nat, n: nat)
    requires Shaped(m, rows)
    ensures Shaped(CircShift(m, n), rows)
  {
  }

  /** The ring key does not change under a circular shift. */
  lemma RingKeyInvariant(m: Matrix, rows: nat, n: nat)
    requires Shaped(m, rows) && |m| > 0
    ensures Shaped(CircShift(m, n), rows) && RingKey(CircShift(m, n), rows) == RingKey(m, rows)
  {
    ShapedShift(m, rows, n);
    var r := CircShift(m, n);
    forall i | 0 <= i < rows ensures RingKey(r, rows)[i] == RingKey(m, rows)[i] {
      assert Row(r, i) == CircShift(Row(m, i), n);
      SumShifted(Row(m, i), n);
    }
  }

  /** The sector key shifts along. */
  lemma SectorKeyEquivariant(m: Matrix, n: nat)
    ensures SectorKey(CircShift(m, n)) == CircShift(SectorKey(m), n)
  {
    MapShifted(c => [ColumnMean(c)], m, n);
  }

  method mean(v: seq<real>) returns (r: real)
    requires |v| > 0
    ensures r == Sum(v) / (|v| as real)
  {
    var s := 0.0;
    for i := 0 to |v|
      invariant s == Sum(v[..i])
    {
      assert v[..i + 1][..i] == v[..i];
      s := s + v[i];
    }
    assert v[..|v|] == v;
    r := s / (|v| as real);
  }

  method makeRingkeyFromScancontext(desc: Matrix, rows: nat) returns (invariant_key: seq<real>)
    requires Shaped(desc, rows) && |desc| > 0
    ensures invariant_key == RingKey(desc, rows)
  {
    invariant_key := [];
    for row_idx := 0 to rows
      invariant |invariant_key| == row_idx && forall i :: 0 <= i < row_idx ==>
        invariant_key[i] == RingKey(desc, rows)[i]
    {
      var m := mean(Row(desc, row_idx));
      invariant_key := invariant_key + [m];
    }
  }

  method makeSectorkeyFromScancontext(desc: Matrix) returns (variant_key: Matrix)
    requires forall j :: 0 <= j < |desc| ==> |desc[j]| > 0
    ensures variant_key == SectorKey(desc)
  {
    variant_key := [];
    for col_idx := 0 to |desc|
      invariant |variant_key| == col_idx && forall j :: 0 <= j < col_idx ==> variant_key[j] == SectorKey(desc)[j]
    {
      var m := mean(desc[col_idx]);
      variant_key := variant_key + [[m]];
    }
  }

  // ---------- norms and cosines ----------

  function Times(x: real, y: real): real { x * y }
  function Mix(c: real, x: real, d: real, y: real): real { c * x - d * y }

  function Products(a: seq<real>, b: seq<real>): (r: seq<real>)
    requires |a| == |b|
    ensures |r| == |a| && forall i :: 0 <= i < |r| ==> r[i] == Times(a[i], b[i])
  {
    seq(|a|, i requires 0 <= i < |a| => Times(a[i], b[i]))
  }

  function Dot(a: seq<real>, b: seq<real>): real
    requires |a| == |b|
  {
    Sum(Products(a, b))
  }

  function Norm(sqrt: Root, v: seq<real>): real { sqrt(Dot(v, v)) }

  lemma DotPrefix(a: seq<real>, b: seq<real>)
    requires |a| == |b| > 0
    ensures var n := |a| - 1; Dot(a, b) == Dot(a[..n], b[..n]) + Times(a[n], b[n])
  {
    ProductsPrefix(a, b);
  }

  lemma ProductsPrefix(a: seq<real>, b: seq<real>)
    requires |a| == |b| > 0
    ensures Products(a, b)[..|a| - 1] == Products(a[..|a| - 1], b[..|a| - 1])
  {
    hide Times;
  }

  lemma BlendPrefix(c: real, a: seq<real>, d: real, b: seq<real>)
    requires |a| == |b| > 0
    ensures Blend(c, a, d, b)[..|a| - 1] == Blend(c, a[..|a| - 1], d, b[..|a| - 1])
  {
    hide Mix;
  }

  lemma {:induction false} DotSelfPositive(v: seq<real>)
    ensures Dot(v, v) >= 0.0
    decreases |v|
  {
    if v != [] {
      DotPrefix(v, v);
      DotSelfPositive(v[..|v| - 1]);
    }
  }

  /** c a - d b, entry by entry. */
  function Blend(c: real, a: seq<real>, d: real, b: seq<real>): (r: seq<real>)
    requires |a| == |b|
    ensures |r| == |a| && forall i :: 0 <= i < |r| ==> r[i] == Mix(c, a[i], d, b[i])
  {
    seq(|a|, i requires 0 <= i < |a| => Mix(c, a[i], d, b[i]))
  }

  lemma {:induction false} BlendSquare(c: real, a: seq<real>, d: real, b: seq<real>)
    requires |a| == |b|
    ensures Dot(Blend(c, a, d, b), Blend(c, a, d, b)) == (c * c) * Dot(a, a) - 2.0 * ((c * d) * Dot(a, b))
      + (d * d) * Dot(b, b)
    decreases |a|
  {
    hide Dot;
    var e := Blend(c, a, d, b);
    if a == [] {
      DotNone();
    } else {
      var n := |a| - 1;
      BlendPrefix(c, a, d, b);
      BlendSquare(c, a[..n], d, b[..n]);
      DotPrefix(e, e);
      DotPrefix(a, a);
      DotPrefix(a, b);
      DotPrefix(b, b);
      SquareStep(c, a[n], d, b[n], Dot(a[..n], a[..n]), Dot(a[..n], b[..n]), Dot(b[..n], b[..n]));
    }
  }

  lemma DotNone()
    ensures Dot([], []) == 0.0
  {
  }

  lemma SquareStep(c: real, x: real, d: real, y: real, p: real, q: real, r: real)
    ensures (c * c) * p - 2.0 * ((c * d) * q) + (d * d) * r + (c * x - d * y) * (c * x - d * y)
      == (c * c) * (p + x * x) - 2.0 * ((c * d) * (q + x * y)) + (d * d) * (r + y * y)
  {
    assert (c * x - d * y) * (c * x - d * y) == (c * c) * (x * x) - 2.0 * ((c * d) * (x * y)) + (d * d) * (y * y) by {
      SquareOut(c, x, d, y);
    }
    Spread(c * c, p, x * x);
    Spread(c * d, q, x * y);
    Spread(d * d, r, y * y);
  }

  lemma SquareOut(c: real, x: real, d: real, y: real)
    ensures (c * x - d * y) * (c * x - d * y) == (c * c) * (x * x) - 2.0 * ((c * d) * (x * y)) + (d * d) * (y * y)
  {
    var u, v := c * x, d * y;
    assert (u - v) * (u - v) == u * u - 2.0 * (u * v) + v * v;
    assert u * u == (c * c) * (x * x) && v * v == (d * d) * (y * y) && u * v == (c * d) * (x * y);
  }

  lemma Spread(k: real, a: real, b: real)
    ensures k * (a + b) == k * a + k * b
  {
  }

  /** The Cauchy-Schwarz inequality for columns of any length. */
  lemma CauchySchwarz(sqrt: Root, a: seq<real>, b: seq<real>)
    requires RootOk(sqrt) && |a| == |b| && Norm(sqrt, a) != 0.0 && Norm(sqrt, b) != 0.0
    ensures Norm(sqrt, a) > 0.0 && Norm(sqrt, b) > 0.0 && Dot(a, b) <= Norm(sqrt, a) * Norm(sqrt, b)
  {
    hide Dot;
    DotSelfPositive(a);
    DotSelfPositive(b);
    RootIs(sqrt, Dot(a, a));
    RootIs(sqrt, Dot(b, b));
    var n, m := Norm(sqrt, a), Norm(sqrt, b);
    BlendSquare(m, a, n, b);
    DotSelfPositive(Blend(m, a, n, b));
    Cancel(n, m, Dot(a, b));
  }

  lemma Cancel(n: real, m: real, s: real)
    requires n > 0.0 && m > 0.0 && (m * m) * (n * n) - 2.0 * ((m * n) * s) + (n * n) * (m * m) >= 0.0
    ensures s <= n * m
  {
    var p := n * m;
    assert p > 0.0;
    assert (m * m) * (n * n) == p * p && (n * n) * (m * m) == p * p && m * n == p;
    if s > p { assert p * (s - p) > 0.0; }
  }

  predicate Effective(sqrt: Root, a: Column, b: Column) { Norm(sqrt, a) != 0.0 && Norm(sqrt, b) != 0.0 }

  function Cosine(sqrt: Root, a: Column, b: Column): real
    requires |a| == |b|
  {
    if Effective(sqrt, a, b) && Norm(sqrt, a) * Norm(sqrt, b) != 0.0 then Dot(a, b) / (Norm(sqrt, a) * Norm(sqrt, b))
      else 0.0
  }

  lemma CosineAtMostOne(sqrt: Root, a: Column, b: Column)
    requires RootOk(sqrt) && |a| == |b| && Effective(sqrt, a, b)
    ensures Norm(sqrt, a) * Norm(sqrt, b) > 0.0 && Cosine(sqrt, a, b) <= 1.0
  {
    hide Dot, Norm;
    CauchySchwarz(sqrt, a, b);
    Quotient(Dot(a, b), Norm(sqrt, a) * Norm(sqrt, b));
  }

  lemma Quotient(x: real, y: real)
    requires y > 0.0 && x <= y
    ensures x / y <= 1.0
  {
    var q := x / y;
    assert q * y == x;
    if q > 1.0 { Positive(q - 1.0, y); }
  }

  lemma Positive(a: real, b: real)
    requires a > 0.0 && b > 0.0
    ensures a * b > 0.0
  {
  }

  lemma CosineSelf(sqrt: Root, a: Column)
    requires RootOk(sqrt) && Norm(sqrt, a) != 0.0
    ensures Cosine(sqrt, a, a) == 1.0
  {
    hide Dot;
    DotSelfPositive(a);
    RootIs(sqrt, Dot(a, a));
    CosineIs(sqrt, a, a);
    RootZero(sqrt, Dot(a, a));
    Itself(Dot(a, a));
  }

  lemma Itself(x: real)
    requires x != 0.0
    ensures x / x == 1.0
  {
  }

  // ---------- distDirectSC ----------

  /** A floating-point result that may be no number: with no column to compare, 0 is divided by 0. */
  datatype Distance = NaN | Num(v: real)

  predicate SameShape(m: Matrix, k: Matrix) { |m| == |k| && forall j :: 0 <= j < |m| ==> |m[j]| == |k[j]| }

  function Cosines(sqrt: Root, m: Matrix, k: Matrix): (r: seq<real>)
    requires SameShape(m, k)
    ensures |r| == |m|
  {
    seq(|m|, j requires 0 <= j < |m| => Cosine(sqrt, m[j], k[j]))
  }

  function Counts(sqrt: Root, m: Matrix, k: Matrix): (r: seq<real>)
    requires SameShape(m, k)
    ensures |r| == |m|
  {
    seq(|m|, j requires 0 <= j < |m| => if Effective(sqrt, m[j], k[j]) then 1.0 else 0.0)
  }

  function DistDirect(sqrt: Root, m: Matrix, k: Matrix): Distance
    requires SameShape(m, k)
  {
    var n := Sum(Counts(sqrt, m, k));
    if n == 0.0 then NaN else Num(1.0 - Sum(Cosines(sqrt, m, k)) / n)
  }

  method distDirectSC(sqrt: Root, sc1: Matrix, sc2: Matrix) returns (d: Distance)
    requires SameShape(sc1, sc2) && RootOk(sqrt)
    ensures d == DistDirect(sqrt, sc1, sc2)
  {
    hide Norm, Dot, Cosine, Effective;
    var num_eff_cols := 0;
    var sum_sector_similarity := 0.0;
    ghost var c, e := Cosines(sqrt, sc1, sc2), Counts(sqrt, sc1, sc2);
    for col_idx := 0 to |sc1|
      invariant sum_sector_similarity == Sum(c[..col_idx]) && num_eff_cols as real == Sum(e[..col_idx])
    {
      assert c[..col_idx + 1][..col_idx] == c[..col_idx] && e[..col_idx + 1][..col_idx] == e[..col_idx];
      var col_sc1, col_sc2 := sc1[col_idx], sc2[col_idx];
      CosineIs(sqrt, col_sc1, col_sc2);
      var norm1, norm2 := Norm(sqrt, col_sc1), Norm(sqrt, col_sc2);
      if norm1 != 0.0 && norm2 != 0.0 {
        var sector_similarity := Dot(col_sc1, col_sc2) / (norm1 * norm2);
        sum_sector_similarity := sum_sector_similarity + sector_similarity;
        num_eff_cols := num_eff_cols + 1;
      }
    }
    assert c[..|sc1|] == c && e[..|sc1|] == e;
    d := if num_eff_cols == 0 then NaN else Num(1.0 - sum_sector_similarity / (num_eff_cols as real));
  }

  lemma CosineIs(sqrt: Root, a: Column, b: Column)
    requires RootOk(sqrt) && |a| == |b|
    ensures Effective(sqrt, a, b) <==> Norm(sqrt, a) != 0.0 && Norm(sqrt, b) != 0.0
    ensures Effective(sqrt, a, b) ==>
      Norm(sqrt, a) * Norm(sqrt, b) != 0.0 && Cosine(sqrt, a, b) == Dot(a, b) / (Norm(sqrt, a) * Norm(sqrt, b))
    ensures !Effective(sqrt, a, b) ==> Cosine(sqrt, a, b) == 0.0
  {
    hide Dot, Norm;
    if Effective(sqrt, a, b) { CosineAtMostOne(sqrt, a, b); }
  }

  lemma {:induction false} SumBelow(a: seq<real>, b: seq<real>)
    requires |a| == |b| && forall i :: 0 <= i < |a| ==> a[i] <= b[i]
    ensures Sum(a) <= Sum(b)
  {
    if a != [] { SumBelow(a[..|a| - 1], b[..|b| - 1]); }
  }

  lemma {:induction false} SumOfZeros(a: seq<real>)
    requires forall i :: 0 <= i < |a| ==> a[i] >= 0.0
    ensures Sum(a) >= 0.0
    ensures (exists i :: 0 <= i < |a| && a[i] > 0.0) ==> Sum(a) > 0.0
  {
    if a != [] { SumOfZeros(a[..|a| - 1]); }
  }

  /** A distance that is a number is never negative. */
  lemma DistanceNonNegative(sqrt: Root, m: Matrix, k: Matrix)
    requires RootOk(sqrt) && SameShape(m, k) && DistDirect(sqrt, m, k).Num?
    ensures DistDirect(sqrt, m, k).v >= 0.0
  {
    hide Cosine, Effective;
    var c, e := Cosines(sqrt, m, k), Counts(sqrt, m, k);
    forall j | 0 <= j < |m| ensures c[j] <= e[j] {
      CosineIs(sqrt, m[j], k[j]);
      if Effective(sqrt, m[j], k[j]) { CosineAtMostOne(sqrt, m[j], k[j]); }
    }
    SumBelow(c, e);
    SumOfZeros(e);
    Quotient(Sum(c), Sum(e));
  }

  /** A descriptor with a nonzero column is at distance 0 from itself. */
  lemma DistanceToItself(sqrt: Root, m: Matrix, j: nat)
    requires RootOk(sqrt) && j < |m| && Norm(sqrt, m[j]) != 0.0
    ensures SameShape(m, m) && DistDirect(sqrt, m, m) == Num(0.0)
  {
    hide Cosine, Norm;
    var c, e := Cosines(sqrt, m, m), Counts(sqrt, m, m);
    forall i | 0 <= i < |m| ensures c[i] == e[i] {
      CosineIs(sqrt, m[i], m[i]);
      if Norm(sqrt, m[i]) != 0.0 { CosineSelf(sqrt, m[i]); }
    }
    assert c == e && e[j] > 0.0;
    SumOfZeros(e);
  }

  /** Columns of the same direction: one is a positive multiple of the other. */
  ghost predicate Parallel(sqrt: Root, a: Column, b: Column)
    requires |a| == |b|
  {
    forall i :: 0 <= i < |a| ==> Times(Norm(sqrt, b), a[i]) == Times(Norm(sqrt, a), b[i])
  }

  /** The case of equality in the Cauchy-Schwarz inequality. */
  lemma CosineIsOne(sqrt: Root, a: Column, b: Column)
    requires RootOk(sqrt) && |a| == |b| && Effective(sqrt, a, b)
    ensures Cosine(sqrt, a, b) == 1.0 <==> Parallel(sqrt, a, b)
  {
    hide Dot;
    var n, m := Norm(sqrt, a), Norm(sqrt, b);
    NormSquared(sqrt, a);
    NormSquared(sqrt, b);
    CauchySchwarz(sqrt, a, b);
    CosineIs(sqrt, a, b);
    var e := Blend(m, a, n, b);
    BlendSquare(m, a, n, b);
    DotZero(e);
    hide Norm, Cosine, Effective;
    Cancelled(n, m, Dot(a, b), Dot(e, e));
    ParallelIs(sqrt, a, b);
  }

  lemma NormSquared(sqrt: Root, v: seq<real>)
    requires RootOk(sqrt)
    ensures Norm(sqrt, v) * Norm(sqrt, v) == Dot(v, v)
  {
    hide Dot;
    DotSelfPositive(v);
    RootIs(sqrt, Dot(v, v));
  }

  lemma Cancelled(n: real, m: real, s: real, d: real)
    requires n > 0.0 && m > 0.0 && d == (m * m) * (n * n) - 2.0 * ((m * n) * s) + (n * n) * (m * m)
    ensures n * m > 0.0 && (s / (n * m) == 1.0 <==> d == 0.0)
  {
    var p := n * m;
    Positive(n, m);
    assert (m * m) * (n * n) == p * p && (n * n) * (m * m) == p * p && m * n == p;
    assert d == 2.0 * (p * (p - s));
    if s != p { NonzeroProduct(p, p - s); }
    QuotientOne(s, p);
  }

  lemma NonzeroProduct(a: real, b: real)
    requires a > 0.0 && b != 0.0
    ensures a * b != 0.0
  {
    if b > 0.0 { Positive(a, b); } else { Positive(a, -b); }
  }

  lemma QuotientOne(x: real, y: real)
    requires y > 0.0
    ensures x / y == 1.0 <==> x == y
  {
    assert (x / y) * y == x;
  }

  lemma ParallelIs(sqrt: Root, a: Column, b: Column)
    requires |a| == |b|
    ensures Parallel(sqrt, a, b) <==> AllZero(Blend(Norm(sqrt, b), a, Norm(sqrt, a), b))
  {
    hide Norm, Blend;
    var n, m := Norm(sqrt, a), Norm(sqrt, b);
    var e := Blend(m, a, n, b);
    forall i | 0 <= i < |a| ensures e[i] == 0.0 <==> Times(m, a[i]) == Times(n, b[i]) {}
  }

  /** Some pair of columns counts, and all that count are parallel. */
  ghost predicate Matches(sqrt: Root, m: Matrix, k: Matrix)
    requires SameShape(m, k)
  {
    && (exists j :: 0 <= j < |m| && Effective(sqrt, m[j], k[j]))
    && forall j :: 0 <= j < |m| && Effective(sqrt, m[j], k[j]) ==> Parallel(sqrt, m[j], k[j])
  }

  lemma {:induction false} SumsEqual(a: seq<real>, b: seq<real>)
    requires |a| == |b| && forall i :: 0 <= i < |a| ==> a[i] <= b[i]
    ensures Sum(a) <= Sum(b) && (Sum(a) == Sum(b) <==> a == b)
  {
    if a != [] {
      var n := |a| - 1;
      SumsEqual(a[..n], b[..n]);
      assert a == a[..n] + [a[n]] && b == b[..n] + [b[n]];
    }
  }

  /** Descriptors are at distance 0 exactly if they match. */
  lemma DistanceZeroIff(sqrt: Root, m: Matrix, k: Matrix)
    requires RootOk(sqrt) && SameShape(m, k)
    ensures DistDirect(sqrt, m, k) == Num(0.0) <==> Matches(sqrt, m, k)
  {
    hide Cosine, Effective, Parallel;
    var c, e := Cosines(sqrt, m, k), Counts(sqrt, m, k);
    forall j | 0 <= j < |m|
      ensures c[j] <= e[j] && (c[j] == e[j] <==> (Effective(sqrt, m[j], k[j]) ==> Parallel(sqrt, m[j], k[j])))
    {
      CosineIs(sqrt, m[j], k[j]);
      if Effective(sqrt, m[j], k[j]) {
        CosineAtMostOne(sqrt, m[j], k[j]);
        CosineIsOne(sqrt, m[j], k[j]);
      }
    }
    SumsEqual(c, e);
    SomeCounts(sqrt, m, k);
    if Sum(e) > 0.0 { QuotientOne(Sum(c), Sum(e)); }
  }

  lemma SomeCounts(sqrt: Root, m: Matrix, k: Matrix)
    requires SameShape(m, k)
    ensures var n := Sum(Counts(sqrt, m, k));
      n >= 0.0 && (n > 0.0 <==> exists j :: 0 <= j < |m| && Effective(sqrt, m[j], k[j]))
  {
    hide Effective;
    var e := Counts(sqrt, m, k);
    SumOfZeros(e);
    if j :| 0 <= j < |m| && Effective(sqrt, m[j], k[j]) {
      assert e[j] > 0.0;
    } else {
      AllZeroSum(e);
    }
  }

  lemma {:induction false} AllZeroSum(s: seq<real>)
    requires forall i :: 0 <= i < |s| ==> s[i] == 0.0
    ensures Sum(s) == 0.0
  {
    if s != [] { AllZeroSum(s[..|s| - 1]); }
  }

  /** A column counts exactly if it is not empty: some entry is not zero. */
  lemma CountsIff(sqrt: Root, v: Column)
    requires RootOk(sqrt)
    ensures Norm(sqrt, v) != 0.0 <==> exists i :: 0 <= i < |v| && v[i] != 0.0
  {
    hide Dot;
    DotZero(v);
    DotSelfPositive(v);
    RootZero(sqrt, Dot(v, v));
  }

  /** No entry is occupied in both columns. */
  predicate Disjoint(a: Column, b: Column)
    requires |a| == |b|
  {
    forall i :: 0 <= i < |a| ==> a[i] == 0.0 || b[i] == 0.0
  }

  lemma DisjointDot(a: Column, b: Column)
    requires |a| == |b| && Disjoint(a, b)
    ensures Dot(a, b) == 0.0
  {
    forall i | 0 <= i < |a| ensures Products(a, b)[i] == 0.0 {}
    AllZeroSum(Products(a, b));
  }

  /** If the first p columns are parallel, those up to q counted but disjoint, and the others not counted, the
      distance is the share of the disjoint ones. */
  lemma DistanceOfParts(sqrt: Root, m: Matrix, k: Matrix, p: nat, q: nat)
    requires RootOk(sqrt) && SameShape(m, k) && p <= q <= |m| && q > 0
    requires forall j :: 0 <= j < |m| ==> (Effective(sqrt, m[j], k[j]) <==> j < q)
    requires forall j :: 0 <= j < p ==> Parallel(sqrt, m[j], k[j])
    requires forall j :: p <= j < q ==> Disjoint(m[j], k[j])
    ensures DistDirect(sqrt, m, k) == Num(((q - p) as real) / (q as real))
  {
    hide Cosine, Effective, Parallel, Disjoint, Dot;
    var c, e := Cosines(sqrt, m, k), Counts(sqrt, m, k);
    forall j | 0 <= j < |m| ensures c[j] == if j < p then 1.0 else 0.0 {
      CosineIs(sqrt, m[j], k[j]);
      if j < p { CosineIsOne(sqrt, m[j], k[j]); } else if j < q { DisjointDot(m[j], k[j]); }
    }
    SumOfStep(c, p, 1.0, 0.0);
    SumOfStep(e, q, 1.0, 0.0);
    ShareLeft(p as real, q as real);
  }

  lemma ShareLeft(p: real, q: real)
    requires q > 0.0
    ensures 1.0 - p / q == (q - p) / q
  {
    var x, y := p / q, (q - p) / q;
    assert x * q == p && y * q == q - p;
    assert (x + y - 1.0) * q == 0.0;
    if x + y != 1.0 { NonzeroProduct(q, x + y - 1.0); }
  }

  /** Shifting both descriptors by the same amount does not change their distance. */
  lemma DistanceShiftInvariant(sqrt: Root, m: Matrix, k: Matrix, n: nat)
    requires SameShape(m, k)
    ensures SameShape(CircShift(m, n), CircShift(k, n))
    ensures DistDirect(sqrt, CircShift(m, n), CircShift(k, n)) == DistDirect(sqrt, m, k)
  {
    hide *;
    SameShapeShift(m, k, n);
    TermsShifted(sqrt, m, k, n);
    SumShifted(Cosines(sqrt, m, k), n);
    SumShifted(Counts(sqrt, m, k), n);
    DistDirectIs(sqrt, m, k);
    DistDirectIs(sqrt, CircShift(m, n), CircShift(k, n));
  }

  lemma DistDirectIs(sqrt: Root, m: Matrix, k: Matrix)
    requires SameShape(m, k)
    ensures var n := Sum(Counts(sqrt, m, k));
      DistDirect(sqrt, m, k) == if n == 0.0 then NaN else Num(1.0 - Sum(Cosines(sqrt, m, k)) / n)
  {
  }

  lemma SameShapeShift(m: Matrix, k: Matrix, n: nat)
    requires SameShape(m, k)
    ensures SameShape(CircShift(m, n), CircShift(k, n))
  {
  }

  /** Where the column at place p comes from. */
  function Source(p: nat, n: nat, cols: nat): (i: nat)
    requires p < cols
    ensures i < cols
  {
    var k := n % cols;
    if p < k then cols - k + p else p - k
  }

  lemma ShiftAt<T>(s: seq<T>, n: nat, p: nat)
    requires p < |s|
    ensures CircShift(s, n)[p] == s[Source(p, n, |s|)]
  {
  }

  lemma TermsShifted(sqrt: Root, m: Matrix, k: Matrix, n: nat)
    requires SameShape(m, k) && SameShape(CircShift(m, n), CircShift(k, n))
    ensures Cosines(sqrt, CircShift(m, n), CircShift(k, n)) == CircShift(Cosines(sqrt, m, k), n)
    ensures Counts(sqrt, CircShift(m, n), CircShift(k, n)) == CircShift(Counts(sqrt, m, k), n)
  {
    hide Cosine, Effective, Source, CircShift;
    forall p | 0 <= p < |m|
      ensures Cosines(sqrt, CircShift(m, n), CircShift(k, n))[p] == CircShift(Cosines(sqrt, m, k), n)[p]
      ensures Counts(sqrt, CircShift(m, n), CircShift(k, n))[p] == CircShift(Counts(sqrt, m, k), n)[p]
    {
      ShiftAt(m, n, p);
      ShiftAt(k, n, p);
      ShiftAt(Cosines(sqrt, m, k), n, p);
      ShiftAt(Counts(sqrt, m, k), n, p);
    }
  }

  // ---------- alignment by sector keys ----------

  /** The difference of two keys of one row, entry by entry. */
  function Difference(v: Matrix, w: Matrix): (r: seq<real>)
    requires |v| == |w| && Shaped(v, 1) && Shaped(w, 1)
    ensures |r| == |v| && forall j :: 0 <= j < |r| ==> r[j] == v[j][0] - w[j][0]
  {
    seq(|v|, j requires 0 <= j < |v| => v[j][0] - w[j][0])
  }

  function KeyDistance(sqrt: Root, v: Matrix, w: Matrix): real
    requires |v| == |w| && Shaped(v, 1) && Shaped(w, 1)
  {
    Norm(sqrt, Difference(v, w))
  }

  predicate AllZero(v: seq<real>) { forall i :: 0 <= i < |v| ==> v[i] == 0.0 }

  lemma {:induction false} DotZero(v: seq<real>)
    ensures Dot(v, v) == 0.0 <==> AllZero(v)
    decreases |v|
  {
    hide Dot, AllZero;
    if v == [] {
      DotNone();
      ZeroLast(v);
    } else {
      var n := |v| - 1;
      DotPrefix(v, v);
      DotSelfPositive(v[..n]);
      DotZero(v[..n]);
      LastSquare(Dot(v[..n], v[..n]), v[n], Dot(v, v));
      ZeroLast(v);
    }
  }

  lemma LastSquare(p: real, x: real, d: real)
    requires p >= 0.0 && d == p + Times(x, x)
    ensures d == 0.0 <==> p == 0.0 && x == 0.0
  {
    hide Times;
    SquareZero(x);
  }

  lemma ZeroLast(v: seq<real>)
    ensures AllZero(v) <==> v == [] || (AllZero(v[..|v| - 1]) && v[|v| - 1] == 0.0)
  {
    if v != [] {
      var n := |v| - 1;
      if AllZero(v[..n]) && v[n] == 0.0 {
        forall i | 0 <= i < |v| ensures v[i] == 0.0 { if i < n { assert v[..n][i] == 0.0; } }
      }
    }
  }

  lemma SquareZero(x: real)
    ensures Times(x, x) >= 0.0 && (Times(x, x) == 0.0 <==> x == 0.0)
  {
    hide Times;
    Signs(x);
    if x > 0.0 { TimesPositive(x, x); } else if x < 0.0 { TimesPositive(-x, -x); }
  }

  lemma TimesPositive(a: real, b: real)
    requires a > 0.0 && b > 0.0
    ensures Times(a, b) > 0.0
  {
    Positive(a, b);
  }

  lemma Signs(x: real)
    ensures Times(-x, -x) == Times(x, x) && Times(0.0, 0.0) == 0.0
  {
  }

  /** Keys are at distance zero exactly if they are equal. */
  lemma KeyDistanceZero(sqrt: Root, v: Matrix, w: Matrix)
    requires RootOk(sqrt) && |v| == |w| && Shaped(v, 1) && Shaped(w, 1)
    ensures KeyDistance(sqrt, v, w) >= 0.0 && (KeyDistance(sqrt, v, w) == 0.0 <==> v == w)
  {
    hide Dot;
    var d := Difference(v, w);
    DotZero(d);
    DotSelfPositive(d);
    RootIs(sqrt, Dot(d, d));
    RootZero(sqrt, Dot(d, d));
    if Dot(d, d) == 0.0 {
      forall j | 0 <= j < |v| ensures v[j] == w[j] { assert d[j] == 0.0 && v[j][0] == w[j][0]; }
    } else {
      assert !AllZero(d);
      var j :| 0 <= j < |d| && d[j] != 0.0;
      assert v[j][0] != w[j][0];
    }
  }

  const LARGE := 10000000.0

  /** The first of the shifts up to n with the least key distance, or 0 if all are large. */
  ghost predicate FirstLeast(sqrt: Root, v: Matrix, w: Matrix, n: nat, shift: nat, least: real)
    requires |v| == |w| && Shaped(v, 1) && Shaped(w, 1)
  {
    && (forall t :: 0 <= t < n ==> least <= ShiftDistance(sqrt, v, w, t))
    && if least == 10000000.0 then shift == 0 else
         shift < n && least < 10000000.0 && least == ShiftDistance(sqrt, v, w, shift) && forall t :: 0 <= t < shift ==>
           least < ShiftDistance(sqrt, v, w, t)
  }

  ghost function ShiftDistance(sqrt: Root, v: Matrix, w: Matrix, t: nat): real
    requires |v| == |w| && Shaped(v, 1) && Shaped(w, 1)
  {
    ShapedShift(w, 1, t);
    KeyDistance(sqrt, v, CircShift(w, t))
  }

  method fastAlignUsingVkey(sqrt: Root, vkey1: Matrix, vkey2: Matrix) returns (argmin_vkey_shift: nat)
    requires |vkey1| == |vkey2| && Shaped(vkey1, 1) && Shaped(vkey2, 1)
    ensures exists least :: FirstLeast(sqrt, vkey1, vkey2, |vkey1|, argmin_vkey_shift, least)
  {
    hide KeyDistance;
    argmin_vkey_shift := 0;
    var min_veky_diff_norm := LARGE;
    for shift_idx := 0 to |vkey1|
      invariant FirstLeast(sqrt, vkey1, vkey2, shift_idx, argmin_vkey_shift, min_veky_diff_norm)
    {
      var vkey2_shifted := circshift(vkey2, shift_idx);
      ShapedShift(vkey2, 1, shift_idx);
      var cur_diff_norm := KeyDistance(sqrt, vkey1, vkey2_shifted);
      assert cur_diff_norm == ShiftDistance(sqrt, vkey1, vkey2, shift_idx);
      if cur_diff_norm < min_veky_diff_norm {
        argmin_vkey_shift := shift_idx;
        min_veky_diff_norm := cur_diff_norm;
      }
    }
  }

  /** The first shift that makes the sector keys equal. */
  ghost predicate FirstMatch(v: Matrix, w: Matrix, shift: nat) {
    CircShift(w, shift) == v && forall t :: 0 <= t < shift ==> CircShift(w, t) != v
  }

  /** If one key is the other shifted, the first shift that makes them equal is found. */
  lemma AlignsFirst(sqrt: Root, v: Matrix, w: Matrix, s: nat, shift: nat, least: real)
    requires RootOk(sqrt) && |v| == |w| && Shaped(v, 1) && Shaped(w, 1) && s < |w| && v == CircShift(w, s)
    requires FirstLeast(sqrt, v, w, |v|, shift, least)
    ensures FirstMatch(v, w, shift)
  {
    hide KeyDistance, CircShift;
    forall t: nat
      ensures ShiftDistance(sqrt, v, w, t) >= 0.0 && (ShiftDistance(sqrt, v, w, t) == 0.0 <==> CircShift(w, t) == v)
    {
      ShapedShift(w, 1, t);
      KeyDistanceZero(sqrt, v, CircShift(w, t));
    }
    assert ShiftDistance(sqrt, v, w, s) == 0.0;
  }

  // ---------- distanceBtnScanContext ----------

  const SEARCH_RATIO := 0.1

  /** round, for a number that is not negative. */
  function SearchRadius(cols: nat): nat {
    (0.5 * SEARCH_RATIO * (cols as real) + 0.5).Floor
  }

  lemma RadiusWithin(cols: nat)
    ensures SearchRadius(cols) <= cols
  {
  }

  /** Rounded half up, a twentieth of the columns to either side. */
  lemma RadiusIs(cols: nat, d: nat)
    ensures d <= SearchRadius(cols) <==> 20 * d <= cols + 10
  {
    var x := 0.5 * SEARCH_RATIO * (cols as real) + 0.5;
    assert x == (cols as real + 10.0) / 20.0;
    assert d <= x.Floor <==> d as real <= x;
  }

  function AsReal(n: nat): real { n as real }

  /** The shifts within the search radius of the alignment, modulo the number of columns. */
  ghost predicate Searched(space: seq<nat>, align: nat, cols: nat)
    requires cols > 0
  {
    && SortedBy<nat>(AsReal, space) && |space| == 2 * SearchRadius(cols) + 1
    && multiset(space) == multiset(Neighbours(align, cols, SearchRadius(cols)))
  }

  function RightOf(align: nat, d: nat, cols: nat): nat
    requires cols > 0
  {
    (align + d + cols) % cols
  }

  function LeftOf(align: nat, d: nat, cols: nat): nat
    requires cols > 0 && d <= cols
  {
    (align - d + cols) % cols
  }

  function Neighbours(align: nat, cols: nat, radius: nat): (s: seq<nat>)
    requires cols > 0 && radius <= cols
    ensures |s| == 2 * radius + 1 && s[0] == align
  {
    if radius == 0 then [align]
    else Neighbours(align, cols, radius - 1) + [RightOf(align, radius, cols), LeftOf(align, radius, cols)]
  }

  /** The first of the first n shifts of the list at the least distance below ten million. */
  ghost predicate Best(sqrt: Root, sc1: Matrix, sc2: Matrix, space: seq<nat>, n: nat, dist: real, shift: nat)
    requires n <= |space| && SameShape(sc1, sc2) && Uniform(sc1)
  {
    && (forall i :: 0 <= i < n ==> var d := At(sqrt, sc1, sc2, space[i]); d.Num? ==> dist <= d.v)
    && ((dist == 10000000.0 && shift == 0) ||
        exists i :: 0 <= i < n && space[i] == shift && At(sqrt, sc1, sc2, shift) == Num(dist))
  }

  /** Columns of one length: a matrix. */
  predicate Uniform(m: Matrix) { forall i, j :: 0 <= i < |m| && 0 <= j < |m| ==> |m[i]| == |m[j]| }

  lemma ShiftKeepsShape(sc1: Matrix, sc2: Matrix, t: nat)
    requires SameShape(sc1, sc2) && Uniform(sc1)
    ensures SameShape(sc1, CircShift(sc2, t))
  {
    hide CircShift;
    forall j | 0 <= j < |sc1| ensures |sc1[j]| == |CircShift(sc2, t)[j]| { ShiftAt(sc2, t, j); }
  }

  ghost function At(sqrt: Root, sc1: Matrix, sc2: Matrix, t: nat): Distance
    requires SameShape(sc1, sc2) && Uniform(sc1)
  {
    ShiftKeepsShape(sc1, sc2, t);
    DistDirect(sqrt, sc1, CircShift(sc2, t))
  }

  /** sc1 is sc2 shifted by s, has a nonzero column, and only that shift makes the sector keys equal. */
  ghost predicate ShiftedCopy(sqrt: Root, sc1: Matrix, sc2: Matrix, s: nat) {
    && s < |sc2| && sc1 == CircShift(sc2, s) && (exists j :: 0 <= j < |sc1| && Norm(sqrt, sc1[j]) != 0.0)
    && forall t :: 0 <= t < |sc2| && CircShift(SectorKey(sc2), t) == SectorKey(sc1) ==> t == s
  }

  /** The distance of a shifted copy is zero. */
  lemma CopyAtZero(sqrt: Root, sc1: Matrix, sc2: Matrix, s: nat, align: nat, least: real, space: seq<nat>, dist: real,
                   shift: nat)
    requires RootOk(sqrt) && SameShape(sc1, sc2) && Uniform(sc1) && ShiftedCopy(sqrt, sc1, sc2, s)
    requires FirstLeast(sqrt, SectorKey(sc1), SectorKey(sc2), |sc1|, align, least)
    requires Searched(space, align, |sc1|) && Best(sqrt, sc1, sc2, space, |space|, dist, shift)
    ensures align == s && dist == 0.0
  {
    hide Norm, CircShift, SectorKey, DistDirect, ShiftDistance;
    SectorKeyEquivariant(sc2, s);
    AlignsFirst(sqrt, SectorKey(sc1), SectorKey(sc2), s, align, least);
    var j :| 0 <= j < |sc1| && Norm(sqrt, sc1[j]) != 0.0;
    DistanceToItself(sqrt, sc1, j);
    assert At(sqrt, sc1, sc2, s) == Num(0.0);
    RadiusWithin(|sc1|);
    assert align in multiset(Neighbours(align, |sc1|, SearchRadius(|sc1|)));
    assert align in space;
    var i :| 0 <= i < |space| && space[i] == align;
    assert dist <= 0.0;
    ShiftKeepsShape(sc1, sc2, shift);
    DistanceNonNegative(sqrt, sc1, CircShift(sc2, shift));
  }

  /** The shifts at most radius places from align, going round. */
  ghost predicate Near(align: nat, t: nat, cols: nat, radius: nat)
    requires cols > 0 && radius <= cols
  {
    exists d: nat :: d <= radius && (t == RightOf(align, d, cols) || t == LeftOf(align, d, cols))
  }

  lemma {:induction false} NeighboursAreNear(align: nat, cols: nat, radius: nat, t: nat)
    requires align < cols && radius <= cols
    ensures t in Neighbours(align, cols, radius) <==> Near(align, t, cols, radius)
  {
    if radius == 0 {
      NoNeighbours(align, cols);
      NotAway(align, cols);
    } else {
      NeighboursAreNear(align, cols, radius - 1, t);
      MoreNeighbours(align, cols, radius);
      hide RightOf, LeftOf, Neighbours;
      NearMore(align, t, cols, radius);
    }
  }

  lemma NotAway(align: nat, cols: nat)
    requires align < cols
    ensures RightOf(align, 0, cols) == LeftOf(align, 0, cols) == align
  {
    ResidueOf(align + cols, 1, align, cols);
  }

  lemma NearMore(align: nat, t: nat, cols: nat, radius: nat)
    requires 0 < radius <= cols
    ensures Near(align, t, cols, radius) <==>
      Near(align, t, cols, radius - 1) || t == RightOf(align, radius, cols) || t == LeftOf(align, radius, cols)
  {
    hide RightOf, LeftOf;
    if Near(align, t, cols, radius) {
      var d: nat :| d <= radius && (t == RightOf(align, d, cols) || t == LeftOf(align, d, cols));
      assert d < radius || d == radius;
    }
    if Near(align, t, cols, radius - 1) {
      var d: nat :| d <= radius - 1 && (t == RightOf(align, d, cols) || t == LeftOf(align, d, cols));
      assert d <= radius;
    }
    assert t == RightOf(align, radius, cols) || t == LeftOf(align, radius, cols) ==> Near(align, t, cols, radius);
  }

  /** The shifts compared: a twentieth of the columns to either side of the alignment, going round. */
  ghost predicate Compared(align: nat, t: nat, cols: nat)
    requires cols > 0
  {
    exists d: nat :: 20 * d <= cols + 10 && Away(align, d, cols, t)
  }

  ghost predicate Away(align: nat, d: nat, cols: nat, t: nat)
    requires cols > 0
  {
    t == (align + d) % cols || t == (align + cols - d) % cols
  }

  lemma AwayIs(align: nat, d: nat, cols: nat, t: nat)
    requires align < cols && d <= cols
    ensures Away(align, d, cols, t) <==> t == RightOf(align, d, cols) || t == LeftOf(align, d, cols)
  {
    SumResidue(align + d, cols, cols);
  }

  lemma SpaceIs(space: seq<nat>, align: nat, cols: nat, t: nat)
    requires align < cols && Searched(space, align, cols)
    ensures t in space <==> Compared(align, t, cols)
  {
    hide RightOf, LeftOf, Away, SearchRadius, Neighbours, SortedBy;
    RadiusWithin(cols);
    var radius := SearchRadius(cols);
    NeighboursAreNear(align, cols, radius, t);
    assert t in multiset(space) <==> t in multiset(Neighbours(align, cols, radius));
    if d: nat :| d <= radius && (t == RightOf(align, d, cols) || t == LeftOf(align, d, cols)) {
      RadiusIs(cols, d);
      AwayIs(align, d, cols, t);
      assert Compared(align, t, cols);
    }
    if Compared(align, t, cols) {
      var d: nat :| 20 * d <= cols + 10 && Away(align, d, cols, t);
      RadiusIs(cols, d);
      AwayIs(align, d, cols, t);
    }
  }

  /** The distance of two descriptors is 0 exactly if, shifted by some number of columns near the
      alignment of the sector keys, one matches the other. */
  lemma ZeroIff(sqrt: Root, sc1: Matrix, sc2: Matrix, align: nat, least: real, space: seq<nat>, dist: real, shift: nat)
    requires RootOk(sqrt) && |sc1| > 0 && SameShape(sc1, sc2) && Uniform(sc1)
    requires Found(sqrt, sc1, sc2, align, least, space, dist, shift)
    ensures dist == 0.0 <==> exists t :: Compared(align, t, |sc1|) && MatchesShifted(sqrt, sc1, sc2, t)
  {
    hide DistDirect, CircShift, SectorKey, ShiftDistance, Compared, Searched, Matches, SearchRadius, Uniform, SameShape;
    forall t ensures t in space <==> Compared(align, t, |sc1|) { SpaceIs(space, align, |sc1|, t); }
    forall t
      ensures At(sqrt, sc1, sc2, t) == Num(0.0) <==> MatchesShifted(sqrt, sc1, sc2, t)
    {
      AtZeroIff(sqrt, sc1, sc2, t);
    }
    forall t ensures At(sqrt, sc1, sc2, t).Num? ==> At(sqrt, sc1, sc2, t).v >= 0.0 { AtPositive(sqrt, sc1, sc2, t); }
    if t :| t in space && MatchesShifted(sqrt, sc1, sc2, t) {
      var i :| 0 <= i < |space| && space[i] == t;
    }
  }

  ghost predicate MatchesShifted(sqrt: Root, sc1: Matrix, sc2: Matrix, t: nat)
    requires SameShape(sc1, sc2) && Uniform(sc1)
  {
    ShiftKeepsShape(sc1, sc2, t);
    Matches(sqrt, sc1, CircShift(sc2, t))
  }

  lemma AtZeroIff(sqrt: Root, sc1: Matrix, sc2: Matrix, t: nat)
    requires RootOk(sqrt) && SameShape(sc1, sc2) && Uniform(sc1)
    ensures At(sqrt, sc1, sc2, t) == Num(0.0) <==> MatchesShifted(sqrt, sc1, sc2, t)
  {
    hide DistDirect, Matches, CircShift;
    ShiftKeepsShape(sc1, sc2, t);
    DistanceZeroIff(sqrt, sc1, CircShift(sc2, t));
  }

  lemma AtPositive(sqrt: Root, sc1: Matrix, sc2: Matrix, t: nat)
    requires RootOk(sqrt) && SameShape(sc1, sc2) && Uniform(sc1)
    ensures At(sqrt, sc1, sc2, t).Num? ==> At(sqrt, sc1, sc2, t).v >= 0.0
  {
    hide DistDirect, CircShift;
    ShiftKeepsShape(sc1, sc2, t);
    if At(sqrt, sc1, sc2, t).Num? { DistanceNonNegative(sqrt, sc1, CircShift(sc2, t)); }
  }

  /** A shifted copy is aligned at the first shift that makes the sector keys equal, which need not be
      its own; it is at distance 0 exactly if it matches the original shifted by some number near that. */
  lemma CopyZeroIff(sqrt: Root, sc1: Matrix, sc2: Matrix, s: nat, align: nat, least: real, space: seq<nat>, dist: real,
                    shift: nat)
    requires RootOk(sqrt) && |sc1| > 0 && SameShape(sc1, sc2) && Uniform(sc1) && s < |sc2| && sc1 == CircShift(sc2, s)
    requires Found(sqrt, sc1, sc2, align, least, space, dist, shift)
    ensures FirstMatch(SectorKey(sc1), SectorKey(sc2), align)
    ensures dist == 0.0 <==> exists t :: Compared(align, t, |sc1|) && MatchesShifted(sqrt, sc1, sc2, t)
  {
    hide Norm, CircShift, SectorKey, DistDirect, Compared, MatchesShifted, Searched, Best, SearchRadius;
    ZeroIff(sqrt, sc1, sc2, align, least, space, dist, shift);
    SectorKeyEquivariant(sc2, s);
    AlignsFirst(sqrt, SectorKey(sc1), SectorKey(sc2), s, align, least);
  }

  /** It need not be: a copy shifted by one column, with a nonzero column, that is at another distance. */
  lemma CopyMissed(sqrt: Root, sc1: Matrix, sc2: Matrix, align: nat, least: real, space: seq<nat>, dist: real,
                   shift: nat)
    requires RootOk(sqrt) && sc2 == [[1.0, 0.0], [0.0, 1.0]] && sc1 == CircShift(sc2, 1)
    ensures SameShape(sc1, sc2) && Uniform(sc1) && Norm(sqrt, sc1[0]) == Norm(sqrt, sc1[1]) == 1.0
    ensures Found(sqrt, sc1, sc2, align, least, space, dist, shift) ==> dist != 0.0
  {
    var a, b := sc2[0], sc2[1];
    UnitNorm(sqrt, a);
    UnitNorm(sqrt, b);
    ShiftByOne(a, b);
    hide Norm, CircShift, Found;
    if Found(sqrt, sc1, sc2, align, least, space, dist, shift) {
      NotFound(sqrt, a, b, align, least, space, dist, shift);
    }
  }

  lemma NotFound(sqrt: Root, a: Column, b: Column, align: nat, least: real, space: seq<nat>, dist: real, shift: nat)
    requires RootOk(sqrt) && a == [1.0, 0.0] && b == [0.0, 1.0] && Norm(sqrt, a) == Norm(sqrt, b) == 1.0
    requires Found(sqrt, [b, a], [a, b], align, least, space, dist, shift)
    ensures dist != 0.0
  {
    hide Norm, CircShift, Found, SectorKey, Compared, Matches;
    var sc1, sc2: Matrix := [b, a], [a, b];
    ShiftByOne(a, b);
    SameMeans(a, b);
    ShiftZero(sc2);
    ShiftZero(SectorKey(sc2));
    CopyZeroIff(sqrt, sc1, sc2, 1, align, least, space, dist, shift);
    assert align == 0;
    forall t ensures !(Compared(0, t, 2) && MatchesShifted(sqrt, sc1, sc2, t)) {
      if Compared(0, t, 2) {
        OnlyItself(t);
        NoMatch(sqrt, a, b);
      }
    }
  }

  lemma OnlyItself(t: nat)
    requires Compared(0, t, 2)
    ensures t == 0
  {
  }

  lemma NoMatch(sqrt: Root, a: Column, b: Column)
    requires a == [1.0, 0.0] && b == [0.0, 1.0] && Norm(sqrt, a) == Norm(sqrt, b) == 1.0
    ensures !Matches(sqrt, [b, a], [a, b])
  {
    hide Norm;
    var sc1, sc2: Matrix := [b, a], [a, b];
    assert Effective(sqrt, sc1[0], sc2[0]);
    assert !Parallel(sqrt, sc1[0], sc2[0]) by { assert Times(1.0, sc1[0][0]) != Times(1.0, sc2[0][0]); }
  }

  lemma UnitNorm(sqrt: Root, v: seq<real>)
    requires RootOk(sqrt) && (v == [1.0, 0.0] || v == [0.0, 1.0])
    ensures Norm(sqrt, v) == 1.0
  {
    var p := Products(v, v);
    assert p == [Times(v[0], v[0]), Times(v[1], v[1])];
    SumOfTwo(p[0], p[1]);
    NormSquared(sqrt, v);
    RootIs(sqrt, 1.0);
    One(sqrt(1.0));
  }

  lemma One(x: real)
    requires x >= 0.0 && x * x == 1.0
    ensures x == 1.0
  {
    if x < 1.0 { Squares(x, 1.0); } else if x > 1.0 { Squares(1.0, x); }
  }

  lemma SumOfTwo(x: real, y: real)
    ensures Sum([x, y]) == x + y
  {
    assert [x, y][..1] == [x] && [x][..0] == [];
    assert Sum([x]) == Sum([x][..0]) + x;
    assert Sum([x, y]) == Sum([x, y][..1]) + y;
  }

  lemma ShiftByOne(a: Column, b: Column)
    ensures CircShift([a, b], 1) == [b, a]
  {
    ShiftAt([a, b], 1, 0);
    ShiftAt([a, b], 1, 1);
  }

  lemma SameMeans(a: Column, b: Column)
    requires a == [1.0, 0.0] && b == [0.0, 1.0]
    ensures SectorKey([b, a]) == SectorKey([a, b])
  {
    SumOfTwo(1.0, 0.0);
    SumOfTwo(0.0, 1.0);
    var k, l := SectorKey([b, a]), SectorKey([a, b]);
    assert ColumnMean(a) == 0.5 && ColumnMean(b) == 0.5;
    assert k == l;
  }

  method distanceBtnScanContext(sqrt: Root, sc1: Matrix, sc2: Matrix) returns (min_sc_dist: real, argmin_shift: nat)
    requires RootOk(sqrt) && |sc1| > 0 && SameShape(sc1, sc2) && Uniform(sc1) && |sc1[0]| > 0
    ensures exists align, least, space :: Found(sqrt, sc1, sc2, align, least, space, min_sc_dist, argmin_shift)
    ensures exists align, least ::
      && FirstLeast(sqrt, SectorKey(sc1), SectorKey(sc2), |sc1|, align, least)
      && LeastCompared(sqrt, sc1, sc2, align, min_sc_dist, argmin_shift)
    ensures forall s :: ShiftedCopy(sqrt, sc1, sc2, s) ==> min_sc_dist == 0.0
  {
    hide Norm, DistDirect, SectorKey, CircShift, Neighbours, FirstLeast;
    var vkey_sc1 := makeSectorkeyFromScancontext(sc1);
    var vkey_sc2 := makeSectorkeyFromScancontext(sc2);
    var align := fastAlignUsingVkey(sqrt, vkey_sc1, vkey_sc2);
    ghost var least :| FirstLeast(sqrt, vkey_sc1, vkey_sc2, |sc1|, align, least);
    var space := SearchSpace(align, |sc1|);
    argmin_shift := 0;
    min_sc_dist := LARGE;
    for i := 0 to |space|
      invariant Best(sqrt, sc1, sc2, space, i, min_sc_dist, argmin_shift)
    {
      var num_shift := space[i];
      var sc2_shifted := circshift(sc2, num_shift);
      ShiftKeepsShape(sc1, sc2, num_shift);
      var cur_sc_dist := distDirectSC(sqrt, sc1, sc2_shifted);
      assert cur_sc_dist == At(sqrt, sc1, sc2, num_shift);
      if cur_sc_dist.Num? && cur_sc_dist.v < min_sc_dist {
        argmin_shift := num_shift;
        min_sc_dist := cur_sc_dist.v;
      }
    }
    assert Found(sqrt, sc1, sc2, align, least, space, min_sc_dist, argmin_shift);
    FoundCompared(sqrt, sc1, sc2, align, least, space, min_sc_dist, argmin_shift);
    forall s | ShiftedCopy(sqrt, sc1, sc2, s) ensures min_sc_dist == 0.0 {
      CopyAtZero(sqrt, sc1, sc2, s, align, least, space, min_sc_dist, argmin_shift);
    }
  }

  /** What the two steps of the search compute. */
  ghost predicate Found(sqrt: Root, sc1: Matrix, sc2: Matrix, align: nat, least: real, space: seq<nat>, dist: real,
                        shift: nat)
    requires |sc1| > 0 && SameShape(sc1, sc2) && Uniform(sc1)
  {
    && FirstLeast(sqrt, SectorKey(sc1), SectorKey(sc2), |sc1|, align, least)
    && Searched(space, align, |sc1|) && Best(sqrt, sc1, sc2, space, |space|, dist, shift)
  }

  /** The least distance at any of the shifts compared, and one of them at which it is found. */
  ghost predicate LeastCompared(sqrt: Root, sc1: Matrix, sc2: Matrix, align: nat, dist: real, shift: nat)
    requires |sc1| > 0 && SameShape(sc1, sc2) && Uniform(sc1)
  {
    && (forall t :: Compared(align, t, |sc1|) ==> var d := At(sqrt, sc1, sc2, t); d.Num? ==> dist <= d.v)
    && ((dist == 10000000.0 && shift == 0) || (Compared(align, shift, |sc1|) && At(sqrt, sc1, sc2, shift) == Num(dist)))
  }

  lemma FoundCompared(sqrt: Root, sc1: Matrix, sc2: Matrix, align: nat, least: real, space: seq<nat>, dist: real,
                      shift: nat)
    requires |sc1| > 0 && SameShape(sc1, sc2) && Uniform(sc1)
    requires Found(sqrt, sc1, sc2, align, least, space, dist, shift)
    ensures LeastCompared(sqrt, sc1, sc2, align, dist, shift)
  {
    hide DistDirect, CircShift, SectorKey, ShiftDistance, Compared, Searched, Uniform, SameShape, At;
    forall t ensures t in space <==> Compared(align, t, |sc1|) { SpaceIs(space, align, |sc1|, t); }
  }

  method SearchSpace(align: nat, cols: nat) returns (space: seq<nat>)
    requires cols > 0
    ensures Searched(space, align, cols)
  {
    hide Neighbours, SearchRadius, SortBy, SortedBy;
    RadiusWithin(cols);
    var radius := SearchRadius(cols);
    var s := [align];
    NoNeighbours(align, cols);
    for ii := 1 to radius + 1
      invariant s == Neighbours(align, cols, ii - 1)
    {
      MoreNeighbours(align, cols, ii);
      s := s + [(align + ii + cols) % cols];
      s := s + [(align - ii + cols) % cols];
    }
    space := SortBy<nat>(AsReal, s);
    Sorts<nat>(AsReal, s);
  }

  lemma MoreNeighbours(align: nat, cols: nat, radius: nat)
    requires cols > 0 && 0 < radius <= cols
    ensures Neighbours(align, cols, radius)
      == Neighbours(align, cols, radius - 1) + [RightOf(align, radius, cols)] + [LeftOf(align, radius, cols)]
  {
  }

  lemma NoNeighbours(align: nat, cols: nat)
    requires cols > 0
    ensures Neighbours(align, cols, 0) == [align]
  {
  }
}
