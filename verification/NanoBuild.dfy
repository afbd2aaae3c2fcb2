/** nanoflann's static index: splitting a slice of point indices in place, building the tree. */
module NanoBuild {

  type Row = seq<real>

  ghost predicate DataOk(pts: seq<Row>, dim: nat) {
    dim >= 1 && forall i :: 0 <= i < |pts| ==> |pts[i]| == dim
  }

  /** dataset_get. */
  function Key(pts: seq<Row>, i: nat, f: nat): real
    requires i < |pts| && f < |pts[i]|
  {
    pts[i][f]
  }

  /** v holds indices of points, and f is a coordinate. */
  ghost predicate Valid(pts: seq<Row>, dim: nat, v: seq<nat>, f: nat) {
    DataOk(pts, dim) && f < dim && forall k :: 0 <= k < |v| ==> v[k] < |pts|
  }

  ghost predicate AtMost(pts: seq<Row>, dim: nat, s: seq<nat>, f: nat, c: real)
    requires Valid(pts, dim, s, f)
  {
    forall j :: 0 <= j < |s| ==> Key(pts, s[j], f) <= c
  }

  ghost predicate AtLeast(pts: seq<Row>, dim: nat, s: seq<nat>, f: nat, c: real)
    requires Valid(pts, dim, s, f)
  {
    forall j :: 0 <= j < |s| ==> c <= Key(pts, s[j], f)
  }

  ghost predicate Attained(pts: seq<Row>, dim: nat, s: seq<nat>, f: nat, c: real)
    requires Valid(pts, dim, s, f)
  {
    exists j :: 0 <= j < |s| && Key(pts, s[j], f) == c
  }

  ghost predicate Extremes(pts: seq<Row>, dim: nat, s: seq<nat>, f: nat, lo: real, hi: real)
    requires Valid(pts, dim, s, f)
  {
    AtLeast(pts, dim, s, f, lo) && Attained(pts, dim, s, f, lo) && AtMost(pts, dim, s, f, hi)
      && Attained(pts, dim, s, f, hi)
  }

  // ---------- rearranging a slice ----------

  /** b is a with the elements of positions lo to hi in another order. */
  ghost predicate Rearranged(a: seq<nat>, b: seq<nat>, lo: nat, hi: nat) {
    && |a| == |b| && lo <= hi <= |a|
    && a[..lo] == b[..lo] && a[hi..] == b[hi..]
    && multiset(a[lo..hi]) == multiset(b[lo..hi])
  }

  lemma RearrangedTrans(a: seq<nat>, b: seq<nat>, c: seq<nat>, lo: nat, hi: nat)
    requires Rearranged(a, b, lo, hi) && Rearranged(b, c, lo, hi)
    ensures Rearranged(a, c, lo, hi)
  {
  }

  lemma RearrangedWiden(a: seq<nat>, b: seq<nat>, i: nat, j: nat, lo: nat, hi: nat)
    requires Rearranged(a, b, i, j) && lo <= i && j <= hi <= |a|
    ensures Rearranged(a, b, lo, hi)
  {
    assert a[..lo] == a[..i][..lo] && b[..lo] == b[..i][..lo];
    assert a[hi..] == a[j..][hi - j..] && b[hi..] == b[j..][hi - j..];
    assert a[lo..i] == a[..i][lo..] && b[lo..i] == b[..i][lo..];
    assert a[j..hi] == a[j..][..hi - j] && b[j..hi] == b[j..][..hi - j];
    assert a[lo..hi] == a[lo..i] + a[i..j] + a[j..hi] && b[lo..hi] == b[lo..i] + b[i..j] + b[j..hi];
  }

  function Swapped(a: seq<nat>, i: nat, j: nat): (b: seq<nat>)
    requires i < j < |a|
    ensures |b| == |a|
  {
    a[i := a[j]][j := a[i]]
  }

  method Swap(a: array<nat>, i: nat, j: nat)
    requires i < j < a.Length
    modifies a
    ensures a[..] == Swapped(old(a[..]), i, j)
  {
    a[i], a[j] := a[j], a[i];
  }

  lemma SwapRearranges(a: seq<nat>, i: nat, j: nat, lo: nat, hi: nat)
    requires lo <= i < j < hi <= |a|
    ensures Rearranged(a, Swapped(a, i, j), lo, hi)
  {
    var s, b := a[lo..hi], Swapped(a, i, j);
    assert b[lo..hi] == s[i - lo := s[j - lo]][j - lo := s[i - lo]];
  }

  lemma Transfer(pts: seq<Row>, dim: nat, s: seq<nat>, t: seq<nat>, f: nat, c: real)
    requires Valid(pts, dim, s, f) && multiset(s) == multiset(t)
    ensures Valid(pts, dim, t, f)
    ensures AtMost(pts, dim, s, f, c) ==> AtMost(pts, dim, t, f, c)
    ensures AtLeast(pts, dim, s, f, c) ==> AtLeast(pts, dim, t, f, c)
    ensures Attained(pts, dim, s, f, c) ==> Attained(pts, dim, t, f, c)
  {
    forall j | 0 <= j < |t| ensures exists k :: 0 <= k < |s| && s[k] == t[j] { assert t[j] in multiset(s); }
    if Attained(pts, dim, s, f, c) {
      var j :| 0 <= j < |s| && Key(pts, s[j], f) == c;
      assert s[j] in multiset(t);
    }
  }

  // ---------- planeSplit ----------

  predicate GoesLeft(pts: seq<Row>, i: nat, f: nat, strict: bool, cut: real)
    requires i < |pts| && f < |pts[i]|
  {
    if strict then Key(pts, i, f) < cut else Key(pts, i, f) <= cut
  }

  /** Positions lo to hi all go left, or none of them does. */
  ghost predicate Side(pts: seq<Row>, dim: nat, v: seq<nat>, lo: nat, hi: nat, f: nat, strict: bool, cut: real,
                       goes: bool)
    requires Valid(pts, dim, v, f) && hi <= |v|
  {
    forall k :: lo <= k < hi ==> GoesLeft(pts, v[k], f, strict, cut) == goes
  }

  lemma SideJoin(pts: seq<Row>, dim: nat, v: seq<nat>, lo: nat, mid: nat, hi: nat, f: nat, strict: bool, cut: real,
                 goes: bool)
    requires Valid(pts, dim, v, f) && lo <= mid <= hi <= |v|
    requires Side(pts, dim, v, lo, mid, f, strict, cut, goes) && Side(pts, dim, v, mid, hi, f, strict, cut, goes)
    ensures Side(pts, dim, v, lo, hi, f, strict, cut, goes)
  {
  }

  lemma SideSwap(pts: seq<Row>, dim: nat, a: seq<nat>, lo: nat, i: nat, j: nat, hi: nat, f: nat, strict: bool,
                 cut: real)
    requires Valid(pts, dim, a, f) && lo <= i < j < hi <= |a|
    requires Side(pts, dim, a, lo, i, f, strict, cut, true) && Side(pts, dim, a, j + 1, hi, f, strict, cut, false)
    requires !GoesLeft(pts, a[i], f, strict, cut) && GoesLeft(pts, a[j], f, strict, cut)
    ensures Valid(pts, dim, Swapped(a, i, j), f)
    ensures Side(pts, dim, Swapped(a, i, j), lo, i + 1, f, strict, cut, true)
    ensures Side(pts, dim, Swapped(a, i, j), j, hi, f, strict, cut, false)
  {
    hide GoesLeft;
  }

  lemma SideOne(pts: seq<Row>, dim: nat, v: seq<nat>, k: nat, f: nat, strict: bool, cut: real)
    requires Valid(pts, dim, v, f) && k < |v|
    ensures Side(pts, dim, v, k, k, f, strict, cut, true) && Side(pts, dim, v, k + 1, k + 1, f, strict, cut, false)
    ensures Side(pts, dim, v, k, k + 1, f, strict, cut, GoesLeft(pts, v[k], f, strict, cut))
  {
  }

  method ScanUp(pts: seq<Row>, ghost dim: nat, vind: array<nat>, off: nat, from: nat, right: nat, f: nat, strict: bool,
                cut: real)
    returns (left: nat)
    requires Valid(pts, dim, vind[..], f) && from <= right + 1 && off + right < vind.Length
    ensures from <= left <= right + 1 && Side(pts, dim, vind[..], off + from, off + left, f, strict, cut, true)
    ensures left <= right ==> !GoesLeft(pts, vind[off + left], f, strict, cut)
  {
    hide GoesLeft;
    left := from;
    while left <= right && GoesLeft(pts, vind[off + left], f, strict, cut)
      invariant from <= left <= right + 1 && Side(pts, dim, vind[..], off + from, off + left, f, strict, cut, true)
      decreases right + 1 - left
    {
      left := left + 1;
    }
  }

  method ScanDown(pts: seq<Row>, ghost dim: nat, vind: array<nat>, off: nat, left: nat, from: nat, f: nat, strict: bool,
                  cut: real)
    returns (right: nat)
    requires Valid(pts, dim, vind[..], f) && left <= from + 1 && off + from < vind.Length
    ensures right <= from && left <= right + 1
    ensures Side(pts, dim, vind[..], off + right + 1, off + from + 1, f, strict, cut, false)
    ensures right != 0 && left <= right ==> GoesLeft(pts, vind[off + right], f, strict, cut)
  {
    hide GoesLeft;
    right := from;
    while right != 0 && left <= right && !GoesLeft(pts, vind[off + right], f, strict, cut)
      invariant right <= from && left <= right + 1
      invariant Side(pts, dim, vind[..], off + right + 1, off + from + 1, f, strict, cut, false)
      decreases right
    {
      right := right - 1;
    }
  }

  /** One pass of planeSplit from position start on: what goes left is moved before what does not.
      right is unsigned in the source: it never passes below zero. */
  method Pass(pts: seq<Row>, ghost dim: nat, vind: array<nat>, off: nat, start: nat, count: nat, f: nat, cut: real,
              strict: bool)
    returns (lim: nat)
    requires Valid(pts, dim, vind[..], f) && start <= count && 1 <= count && off + count <= vind.Length
    modifies vind
    ensures start <= lim <= count && Rearranged(old(vind[..]), vind[..], off + start, off + count)
    ensures Valid(pts, dim, vind[..], f)
    ensures Side(pts, dim, vind[..], off + start, off + lim, f, strict, cut, true)
    ensures Side(pts, dim, vind[..], off + lim, off + count, f, strict, cut, false)
  {
    hide *;
    ghost var was, lo, hi := vind[..], off + start, off + count;
    var left: nat, right: nat := start, count - 1;
    SplitStart(pts, dim, was, lo, hi, f, strict, cut);
    while true
      invariant start <= left <= right + 1 <= count
      invariant Splitting(pts, dim, was, vind[..], lo, off + left, off + right + 1, hi, f, strict, cut)
      decreases right + 1 - left
    {
      ghost var left0, right0 := left, right;
      ghost var a := vind[..];
      SplitMeans(pts, dim, was, a, lo, off + left, off + right + 1, hi, f, strict, cut);
      left := ScanUp(pts, dim, vind, off, left, right, f, strict, cut);
      right := ScanDown(pts, dim, vind, off, left, right, f, strict, cut);
      SplitScanned(pts, dim, was, a, lo, off + left0, off + left, off + right + 1, off + right0 + 1, hi, f, strict,
        cut);
      if left > right { break; }
      if right == 0 {
        SplitEnd(pts, dim, was, a, lo, hi, f, strict, cut);
        break;
      }
      SplitSwap(pts, dim, was, a, lo, off + left, off + right, hi, f, strict, cut);
      Swap(vind, off + left, off + right);
      left := left + 1;
      right := right - 1;
    }
    lim := left;
    SplitMeans(pts, dim, was, vind[..], lo, off + left, off + left, hi, f, strict, cut);
  }

  /** The state of a pass: positions lo to l go left, positions r to hi do not. */
  ghost predicate Splitting(pts: seq<Row>, dim: nat, was: seq<nat>, v: seq<nat>, lo: nat, l: nat, r: nat, hi: nat,
                            f: nat, strict: bool, cut: real) {
    && lo <= l <= r <= hi <= |v| && Valid(pts, dim, v, f) && Rearranged(was, v, lo, hi)
    && Side(pts, dim, v, lo, l, f, strict, cut, true) && Side(pts, dim, v, r, hi, f, strict, cut, false)
  }

  lemma SplitStart(pts: seq<Row>, dim: nat, v: seq<nat>, lo: nat, hi: nat, f: nat, strict: bool, cut: real)
    requires lo <= hi <= |v| && Valid(pts, dim, v, f)
    ensures Splitting(pts, dim, v, v, lo, lo, hi, hi, f, strict, cut)
  {
  }

  lemma SplitMeans(pts: seq<Row>, dim: nat, was: seq<nat>, v: seq<nat>, lo: nat, l: nat, r: nat, hi: nat, f: nat,
                   strict: bool, cut: real)
    requires Splitting(pts, dim, was, v, lo, l, r, hi, f, strict, cut)
    ensures hi <= |v| == |was| && Valid(pts, dim, v, f) && Rearranged(was, v, lo, hi)
    ensures Side(pts, dim, v, lo, l, f, strict, cut, true) && Side(pts, dim, v, r, hi, f, strict, cut, false)
  {
  }

  lemma SplitScanned(pts: seq<Row>, dim: nat, was: seq<nat>, v: seq<nat>, lo: nat, l0: nat, l: nat, r: nat, r0: nat,
                     hi: nat, f: nat, strict: bool, cut: real)
    requires Splitting(pts, dim, was, v, lo, l0, r0, hi, f, strict, cut) && l0 <= l <= r <= r0
    requires Side(pts, dim, v, l0, l, f, strict, cut, true) && Side(pts, dim, v, r, r0, f, strict, cut, false)
    ensures Splitting(pts, dim, was, v, lo, l, r, hi, f, strict, cut)
  {
    hide GoesLeft, Rearranged;
    SideJoin(pts, dim, v, lo, l0, l, f, strict, cut, true);
    SideJoin(pts, dim, v, r, r0, hi, f, strict, cut, false);
  }

  /** The search from the right stopped at the very first position, which does not go left either. */
  lemma SplitEnd(pts: seq<Row>, dim: nat, was: seq<nat>, v: seq<nat>, lo: nat, hi: nat, f: nat, strict: bool, cut: real)
    requires lo < hi && Splitting(pts, dim, was, v, lo, lo, lo + 1, hi, f, strict, cut)
    requires !GoesLeft(pts, v[lo], f, strict, cut)
    ensures Splitting(pts, dim, was, v, lo, lo, lo, hi, f, strict, cut)
  {
    hide Rearranged;
    SideOne(pts, dim, v, lo, f, strict, cut);
    SideJoin(pts, dim, v, lo, lo + 1, hi, f, strict, cut, false);
  }

  lemma SplitSwap(pts: seq<Row>, dim: nat, was: seq<nat>, v: seq<nat>, lo: nat, l: nat, r: nat, hi: nat, f: nat,
                  strict: bool, cut: real)
    requires Splitting(pts, dim, was, v, lo, l, r + 1, hi, f, strict, cut) && l <= r
    requires !GoesLeft(pts, v[l], f, strict, cut) && GoesLeft(pts, v[r], f, strict, cut)
    ensures l < r && Splitting(pts, dim, was, Swapped(v, l, r), lo, l + 1, r, hi, f, strict, cut)
  {
    hide GoesLeft, Rearranged, Side, Swapped;
    SwapRearranges(v, l, r, lo, hi);
    RearrangedTrans(was, v, Swapped(v, l, r), lo, hi);
    SideSwap(pts, dim, v, lo, l, r, hi, f, strict, cut);
  }

  lemma RearrangedSelf(a: seq<nat>, lo: nat, hi: nat)
    requires lo <= hi <= |a|
    ensures Rearranged(a, a, lo, hi)
  {
  }

  /** Positions lo to m1 are below the cut, m1 to m2 on it, m2 to hi above it. */
  ghost predicate Blocks(pts: seq<Row>, dim: nat, v: seq<nat>, lo: nat, m1: nat, m2: nat, hi: nat, f: nat, cut: real)
    requires Valid(pts, dim, v, f)
  {
    && lo <= m1 <= m2 <= hi <= |v|
    && (forall k :: lo <= k < m1 ==> Key(pts, v[k], f) < cut)
    && (forall k :: m1 <= k < m2 ==> Key(pts, v[k], f) == cut)
    && (forall k :: m2 <= k < hi ==> Key(pts, v[k], f) > cut)
  }

  lemma SideKept(pts: seq<Row>, dim: nat, a: seq<nat>, b: seq<nat>, lo: nat, m: nat, hi: nat, f: nat, strict: bool,
                 cut: real)
    requires Valid(pts, dim, a, f) && Valid(pts, dim, b, f) && lo <= m && Rearranged(a, b, m, hi)
    requires Side(pts, dim, a, lo, m, f, strict, cut, true) && Side(pts, dim, a, m, hi, f, strict, cut, false)
    ensures Side(pts, dim, b, lo, m, f, strict, cut, true) && Side(pts, dim, b, m, hi, f, strict, cut, false)
  {
    forall k | lo <= k < m ensures b[k] == a[k] { assert a[..m][k] == b[..m][k]; }
    forall k | m <= k < hi ensures exists j :: m <= j < hi && a[j] == b[k] {
      assert b[m..hi][k - m] in multiset(a[m..hi]);
      var i :| 0 <= i < hi - m && a[m..hi][i] == b[k];
      assert a[m + i] == b[k];
    }
    hide GoesLeft;
  }

  lemma SidesAreBlocks(pts: seq<Row>, dim: nat, v: seq<nat>, lo: nat, m1: nat, m2: nat, hi: nat, f: nat, cut: real)
    requires Valid(pts, dim, v, f) && lo <= m1 <= m2 <= hi <= |v|
    requires Side(pts, dim, v, lo, m1, f, true, cut, true) && Side(pts, dim, v, m1, hi, f, true, cut, false)
    requires Side(pts, dim, v, m1, m2, f, false, cut, true) && Side(pts, dim, v, m2, hi, f, false, cut, false)
    ensures Blocks(pts, dim, v, lo, m1, m2, hi, f, cut)
  {
    hide Key;
    forall k | m1 <= k < m2 ensures Key(pts, v[k], f) == cut {
      assert !GoesLeft(pts, v[k], f, true, cut) && GoesLeft(pts, v[k], f, false, cut);
    }
    forall k | lo <= k < m1 ensures Key(pts, v[k], f) < cut { assert GoesLeft(pts, v[k], f, true, cut); }
    forall k | m2 <= k < hi ensures Key(pts, v[k], f) > cut { assert !GoesLeft(pts, v[k], f, false, cut); }
  }

  /** Reorders the slice into what is below, on and above the cut, with unsigned indices throughout. */
  method planeSplit(pts: seq<Row>, ghost dim: nat, vind: array<nat>, off: nat, count: nat, cutfeat: nat, cutval: real)
    returns (lim1: nat, lim2: nat)
    requires Valid(pts, dim, vind[..], cutfeat) && 1 <= count && off + count <= vind.Length
    modifies vind
    ensures Rearranged(old(vind[..]), vind[..], off, off + count) && Valid(pts, dim, vind[..], cutfeat)
    ensures Blocks(pts, dim, vind[..], off, off + lim1, off + lim2, off + count, cutfeat, cutval)
  {
    hide Rearranged, Side, Blocks;
    ghost var was := vind[..];
    lim1 := Pass(pts, dim, vind, off, 0, count, cutfeat, cutval, true);
    ghost var v := vind[..];
    lim2 := Pass(pts, dim, vind, off, lim1, count, cutfeat, cutval, false);
    SideKept(pts, dim, v, vind[..], off, off + lim1, off + count, cutfeat, true, cutval);
    SidesAreBlocks(pts, dim, vind[..], off, off + lim1, off + lim2, off + count, cutfeat, cutval);
    RearrangedWiden(v, vind[..], off + lim1, off + count, off, off + count);
    RearrangedTrans(was, v, vind[..], off, off + count);
  }

  // ---------- middleSplit_ ----------

  method computeMinMax(pts: seq<Row>, ghost dim: nat, vind: array<nat>, off: nat, count: nat, element: nat)
    returns (min_elem: real, max_elem: real)
    requires Valid(pts, dim, vind[..], element) && 1 <= count && off + count <= vind.Length
    ensures Valid(pts, dim, vind[off..off + count], element)
    ensures Extremes(pts, dim, vind[off..off + count], element, min_elem, max_elem)
  {
    hide Key;
    ghost var s := vind[off..off + count];
    assert s[0] == vind[off];
    min_elem := Key(pts, vind[off], element);
    max_elem := Key(pts, vind[off], element);
    var i := 1;
    while i < count
      invariant 1 <= i <= count
      invariant forall j :: 0 <= j < i ==> min_elem <= Key(pts, s[j], element) <= max_elem
      invariant exists j :: 0 <= j < i && Key(pts, s[j], element) == min_elem
      invariant exists j :: 0 <= j < i && Key(pts, s[j], element) == max_elem
    {
      var val := Key(pts, vind[off + i], element);
      assert s[i] == vind[off + i];
      if val < min_elem { min_elem := val; }
      if val > max_elem { max_elem := val; }
      i := i + 1;
    }
  }

  datatype Interval = Interval(low: real, high: real)

  function Span(bbox: seq<Interval>, i: nat): real
    requires i < |bbox|
  {
    bbox[i].high - bbox[i].low
  }

  const EPS := 0.00001

  lemma {:induction false} ExtremesExist(pts: seq<Row>, dim: nat, s: seq<nat>, f: nat)
    requires Valid(pts, dim, s, f) && |s| > 0
    ensures exists lo, hi :: Extremes(pts, dim, s, f, lo, hi)
    decreases |s|
  {
    var n := |s| - 1;
    var x := Key(pts, s[n], f);
    if n == 0 {
      assert Extremes(pts, dim, s, f, x, x);
    } else {
      ExtremesExist(pts, dim, s[..n], f);
      var lo, hi :| Extremes(pts, dim, s[..n], f, lo, hi);
      assert Extremes(pts, dim, s, f, if x < lo then x else lo, if x > hi then x else hi) by {
        ExtremesAppend(pts, dim, s, f, lo, hi);
      }
    }
  }

  lemma ExtremesAppend(pts: seq<Row>, dim: nat, s: seq<nat>, f: nat, lo: real, hi: real)
    requires Valid(pts, dim, s, f) && |s| > 1 && Extremes(pts, dim, s[..|s| - 1], f, lo, hi)
    ensures var x := Key(pts, s[|s| - 1], f);
      Extremes(pts, dim, s, f, if x < lo then x else lo, if x > hi then x else hi)
  {
    hide Key;
    var n := |s| - 1;
    var i :| 0 <= i < n && Key(pts, s[..n][i], f) == lo;
    var j :| 0 <= j < n && Key(pts, s[..n][j], f) == hi;
    assert s[..n][i] == s[i] && s[..n][j] == s[j];
    forall k | 0 <= k < n ensures lo <= Key(pts, s[k], f) <= hi { assert s[..n][k] == s[k]; }
  }

  /** How far the points of a slice spread in one coordinate. */
  ghost function Spread(pts: seq<Row>, dim: nat, s: seq<nat>, f: nat): (r: real)
    requires Valid(pts, dim, s, f) && |s| > 0
    ensures forall lo, hi :: Extremes(pts, dim, s, f, lo, hi) ==> r == hi - lo
  {
    ExtremesExist(pts, dim, s, f);
    var lo, hi :| Extremes(pts, dim, s, f, lo, hi);
    hi - lo
  }

  ghost predicate IsMaxSpan(bbox: seq<Interval>, m: real) {
    && (forall i :: 0 <= i < |bbox| ==> bbox[i].high - bbox[i].low <= m)
    && exists i :: 0 <= i < |bbox| && bbox[i].high - bbox[i].low == m
  }

  ghost predicate Considered(bbox: seq<Interval>, i: nat, maxSpan: real)
    requires i < |bbox|
  {
    bbox[i].high - bbox[i].low > 0.99999 * maxSpan
  }

  /** Among the coordinates in which the box is about as wide as anywhere, the first with the widest
      spread of points; the first of all if no coordinate qualifies. */
  ghost predicate WidestUpTo(pts: seq<Row>, dim: nat, s: seq<nat>, bbox: seq<Interval>, m: real, n: nat, cutfeat: nat)
    requires Valid(pts, dim, s, 0) && |s| > 0 && n <= |bbox| == dim && cutfeat < dim
  {
    if forall i :: 0 <= i < n ==> !Considered(bbox, i, m) then cutfeat == 0
    else
      && cutfeat < n && Considered(bbox, cutfeat, m)
      && (forall i :: 0 <= i < n && Considered(bbox, i, m) ==> Spread(pts, dim, s, i) <= Spread(pts, dim, s, cutfeat))
      && (forall i :: 0 <= i < cutfeat && Considered(bbox, i, m) ==>
         Spread(pts, dim, s, i) < Spread(pts, dim, s, cutfeat))
  }

  lemma ConsideredIs(bbox: seq<Interval>, i: nat, maxSpan: real)
    requires i < |bbox|
    ensures Considered(bbox, i, maxSpan) <==> Span(bbox, i) > (1.0 - EPS) * maxSpan
  {
  }

  method MaxSpan(bbox: seq<Interval>) returns (max_span: real)
    requires |bbox| >= 1
    ensures IsMaxSpan(bbox, max_span)
  {
    max_span := Span(bbox, 0);
    for i := 1 to |bbox|
      invariant forall j :: 0 <= j < i ==> bbox[j].high - bbox[j].low <= max_span
      invariant exists j :: 0 <= j < i && bbox[j].high - bbox[j].low == max_span
    {
      var span := Span(bbox, i);
      if span > max_span { max_span := span; }
    }
  }

  /** The cut dimension of middleSplit_. */
  method CutFeature(pts: seq<Row>, ghost dim: nat, vind: array<nat>, off: nat, count: nat, bbox: seq<Interval>)
    returns (cutfeat: nat)
    requires Valid(pts, dim, vind[..], 0) && 1 <= count && off + count <= vind.Length && |bbox| == dim
    ensures cutfeat < dim && Valid(pts, dim, vind[off..off + count], 0)
    ensures exists m :: IsMaxSpan(bbox, m) && WidestUpTo(pts, dim, vind[off..off + count], bbox, m, dim, cutfeat)
  {
    hide Extremes, IsMaxSpan, Considered, Spread;
    ghost var s := vind[off..off + count];
    var max_span := MaxSpan(bbox);
    var max_spread := -1.0;
    cutfeat := 0;
    for i := 0 to |bbox|
      invariant cutfeat < dim && WidestUpTo(pts, dim, s, bbox, max_span, i, cutfeat)
      invariant max_spread == if forall j :: 0 <= j < i ==> !Considered(bbox, j, max_span) then -1.0
        else Spread(pts, dim, s, cutfeat)
    {
      ConsideredIs(bbox, i, max_span);
      if Span(bbox, i) > (1.0 - EPS) * max_span {
        var min_elem, max_elem := computeMinMax(pts, dim, vind, off, count, i);
        var spread := max_elem - min_elem;
        assert spread == Spread(pts, dim, s, i) >= 0.0 by { SpreadIs(pts, dim, s, i, min_elem, max_elem); }
        if spread > max_spread {
          cutfeat := i;
          max_spread := spread;
        }
      }
    }
  }

  lemma SpreadIs(pts: seq<Row>, dim: nat, s: seq<nat>, f: nat, lo: real, hi: real)
    requires Valid(pts, dim, s, f) && |s| > 0 && Extremes(pts, dim, s, f, lo, hi)
    ensures Spread(pts, dim, s, f) == hi - lo >= 0.0
  {
    assert lo <= Key(pts, s[0], f) <= hi;
  }

  function Clamp(x: real, lo: real, hi: real): real {
    if x < lo then lo else if x > hi then hi else x
  }

  /** The middle of the box, moved to the nearest point if it lies outside the points. */
  ghost predicate IsCut(pts: seq<Row>, dim: nat, s: seq<nat>, f: nat, side: Interval, cut: real)
    requires Valid(pts, dim, s, f)
  {
    exists lo, hi :: Extremes(pts, dim, s, f, lo, hi) && cut == Clamp((side.low + side.high) / 2.0, lo, hi)
  }

  /** Both sides get at least one point, and the cut separates them. */
  lemma SplitIndex(pts: seq<Row>, dim: nat, v: seq<nat>, lo: nat, m1: nat, m2: nat, hi: nat, f: nat, cut: real,
                   min: real, max: real)
    requires Valid(pts, dim, v, f) && Blocks(pts, dim, v, lo, m1, m2, hi, f, cut) && lo + 2 <= hi
    requires Valid(pts, dim, v[lo..hi], f) && Extremes(pts, dim, v[lo..hi], f, min, max) && min <= cut <= max
    ensures m1 < hi && lo < m2
    ensures var half := lo + (hi - lo) / 2; var mid := if m1 > half then m1 else if m2 < half then m2 else half;
      && lo < mid < hi && AtMostIn(pts, dim, v, lo, mid, f, cut) && AtLeastIn(pts, dim, v, mid, hi, f, cut)
      && (mid > half ==> forall k :: lo <= k < mid ==> Key(pts, v[k], f) < cut)
      && (mid < half ==> forall k :: mid <= k < hi ==> Key(pts, v[k], f) > cut)
  {
    hide Key;
    var i :| 0 <= i < hi - lo && Key(pts, v[lo..hi][i], f) == max;
    assert v[lo + i] == v[lo..hi][i];
    var j :| 0 <= j < hi - lo && Key(pts, v[lo..hi][j], f) == min;
    assert v[lo + j] == v[lo..hi][j];
  }

  ghost predicate AtMostIn(pts: seq<Row>, dim: nat, v: seq<nat>, lo: nat, hi: nat, f: nat, c: real)
    requires Valid(pts, dim, v, f)
  {
    lo <= hi <= |v| && forall k :: lo <= k < hi ==> Key(pts, v[k], f) <= c
  }

  ghost predicate AtLeastIn(pts: seq<Row>, dim: nat, v: seq<nat>, lo: nat, hi: nat, f: nat, c: real)
    requires Valid(pts, dim, v, f)
  {
    lo <= hi <= |v| && forall k :: lo <= k < hi ==> c <= Key(pts, v[k], f)
  }

  /** Cuts the slice in the middle of the box, clamped to the points, and balances ties. */
  method middleSplit_(pts: seq<Row>, ghost dim: nat, vind: array<nat>, off: nat, count: nat, bbox: seq<Interval>)
    returns (index: nat, cutfeat: nat, cutval: real)
    requires Valid(pts, dim, vind[..], 0) && 2 <= count && off + count <= vind.Length && |bbox| == dim
    modifies vind
    ensures 1 <= index <= count - 1 && cutfeat < dim
    ensures Rearranged(old(vind[..]), vind[..], off, off + count) && Valid(pts, dim, vind[..], cutfeat)
    ensures AtMostIn(pts, dim, vind[..], off, off + index, cutfeat, cutval)
    ensures AtLeastIn(pts, dim, vind[..], off + index, off + count, cutfeat, cutval)
    ensures index > count / 2 ==> forall k :: off <= k < off + index ==> Key(pts, vind[..][k], cutfeat) < cutval
    ensures index < count / 2 ==>
      forall k :: off + index <= k < off + count ==> Key(pts, vind[..][k], cutfeat) > cutval
    ensures Valid(pts, dim, old(vind[off..off + count]), cutfeat) &&
      IsCut(pts, dim, old(vind[off..off + count]), cutfeat, bbox[cutfeat], cutval)
    ensures Valid(pts, dim, old(vind[off..off + count]), 0) &&
      exists m :: IsMaxSpan(bbox, m) && WidestUpTo(pts, dim, old(vind[off..off + count]), bbox, m, dim, cutfeat)
  {
    hide Rearranged, Extremes, Blocks, IsMaxSpan, WidestUpTo, Key, AtMostIn, AtLeastIn;
    cutfeat := CutFeature(pts, dim, vind, off, count, bbox);
    var split_val := (bbox[cutfeat].low + bbox[cutfeat].high) / 2.0;
    var min_elem, max_elem := computeMinMax(pts, dim, vind, off, count, cutfeat);
    if split_val < min_elem {
      cutval := min_elem;
    } else if split_val > max_elem {
      cutval := max_elem;
    } else {
      cutval := split_val;
    }
    ghost var was, s := vind[..], vind[off..off + count];
    MinBelowMax(pts, dim, s, cutfeat, min_elem, max_elem);
    var lim1, lim2 := planeSplit(pts, dim, vind, off, count, cutfeat, cutval);
    ExtremesKept(pts, dim, was, vind[..], off, off + count, cutfeat, min_elem, max_elem);
    SplitIndex(pts, dim, vind[..], off, off + lim1, off + lim2, off + count, cutfeat, cutval, min_elem, max_elem);
    if lim1 > count / 2 {
      index := lim1;
    } else if lim2 < count / 2 {
      index := lim2;
    } else {
      index := count / 2;
    }
  }

  lemma MinBelowMax(pts: seq<Row>, dim: nat, s: seq<nat>, f: nat, lo: real, hi: real)
    requires Valid(pts, dim, s, f) && |s| > 0 && Extremes(pts, dim, s, f, lo, hi)
    ensures lo <= hi
  {
    assert lo <= Key(pts, s[0], f) <= hi;
  }

  lemma ExtremesKept(pts: seq<Row>, dim: nat, a: seq<nat>, b: seq<nat>, lo: nat, hi: nat, f: nat, min: real, max: real)
    requires lo <= hi <= |a| && Valid(pts, dim, a[lo..hi], f) && Extremes(pts, dim, a[lo..hi], f, min, max)
    requires Rearranged(a, b, lo, hi)
    ensures Valid(pts, dim, b[lo..hi], f) && Extremes(pts, dim, b[lo..hi], f, min, max)
  {
    Transfer(pts, dim, a[lo..hi], b[lo..hi], f, min);
    Transfer(pts, dim, a[lo..hi], b[lo..hi], f, max);
  }

  // ---------- divideTree ----------

  datatype Node =
    | Leaf(left: nat, right: nat)
    | Split(divfeat: nat, divlow: real, divhigh: real, child1: Node, child2: Node)

  /** The end of the slice that a node covers. */
  function End(node: Node): nat {
    match node
    case Leaf(_, right) => right
    case Split(_, _, _, _, child2) => End(child2)
  }

  /** The node covers positions lo to hi; at every inner node what is in the first child is at most
      divlow, what is in the second at least divhigh, and divlow is at most divhigh. */
  ghost predicate Good(pts: seq<Row>, dim: nat, node: Node, v: seq<nat>, lo: nat, hi: nat, leafMax: nat)
    requires Valid(pts, dim, v, 0)
  {
    match node
    case Leaf(left, right) => left == lo && right == hi && lo < hi <= |v| && hi - lo <= leafMax
    case Split(f, divlow, divhigh, child1, child2) =>
      var mid := End(child1);
      && f < dim && lo < mid < hi <= |v| && divlow <= divhigh
      && AtMostIn(pts, dim, v, lo, mid, f, divlow) && AtLeastIn(pts, dim, v, mid, hi, f, divhigh)
      && Good(pts, dim, child1, v, lo, mid, leafMax) && Good(pts, dim, child2, v, mid, hi, leafMax)
  }

  lemma {:induction false} GoodEnd(pts: seq<Row>, dim: nat, node: Node, v: seq<nat>, lo: nat, hi: nat, leafMax: nat)
    requires Valid(pts, dim, v, 0) && Good(pts, dim, node, v, lo, hi, leafMax)
    ensures End(node) == hi && lo < hi <= |v|
  {
    if node.Split? { GoodEnd(pts, dim, node.child2, v, End(node.child1), hi, leafMax); }
  }

  lemma {:induction false} GoodKept(pts: seq<Row>, dim: nat, node: Node, v: seq<nat>, w: seq<nat>, lo: nat, hi: nat,
                                    leafMax: nat)
    requires Valid(pts, dim, v, 0) && Valid(pts, dim, w, 0) && Good(pts, dim, node, v, lo, hi, leafMax)
    requires |v| == |w| && forall k :: lo <= k < hi ==> v[k] == w[k]
    ensures Good(pts, dim, node, w, lo, hi, leafMax)
  {
    hide Key;
    if node.Split? {
      GoodKept(pts, dim, node.child1, v, w, lo, End(node.child1), leafMax);
      GoodKept(pts, dim, node.child2, v, w, End(node.child1), hi, leafMax);
    }
  }

  /** The box touches the points of a slice on every side. */
  ghost predicate Tight(pts: seq<Row>, dim: nat, s: seq<nat>, bbox: seq<Interval>)
    requires Valid(pts, dim, s, 0)
  {
    |bbox| == dim && forall f :: 0 <= f < dim ==> Extremes(pts, dim, s, f, bbox[f].low, bbox[f].high)
  }

  lemma ExtremesJoin(pts: seq<Row>, dim: nat, s: seq<nat>, t: seq<nat>, f: nat, a: Interval, b: Interval, c: Interval)
    requires Valid(pts, dim, s, f) && Valid(pts, dim, t, f)
    requires Extremes(pts, dim, s, f, a.low, a.high) && Extremes(pts, dim, t, f, b.low, b.high)
    requires c == Interval(if b.low < a.low then b.low else a.low, if a.high < b.high then b.high else a.high)
    ensures Valid(pts, dim, s + t, f) && Extremes(pts, dim, s + t, f, c.low, c.high)
  {
    hide Key;
    assert Valid(pts, dim, s + t, f);
    var i :| 0 <= i < |s| && Key(pts, s[i], f) == a.low;
    var j :| 0 <= j < |s| && Key(pts, s[j], f) == a.high;
    var k :| 0 <= k < |t| && Key(pts, t[k], f) == b.low;
    var l :| 0 <= l < |t| && Key(pts, t[l], f) == b.high;
    assert (s + t)[i] == s[i] && (s + t)[j] == s[j] && (s + t)[|s| + k] == t[k] && (s + t)[|s| + l] == t[l];
  }

  function Join(a: Interval, b: Interval): Interval {
    Interval(if b.low < a.low then b.low else a.low, if a.high < b.high then b.high else a.high)
  }

  lemma TightJoin(pts: seq<Row>, dim: nat, s: seq<nat>, t: seq<nat>, a: seq<Interval>, b: seq<Interval>,
                  c: seq<Interval>)
    requires Valid(pts, dim, s, 0) && Valid(pts, dim, t, 0) && Tight(pts, dim, s, a) && Tight(pts, dim, t, b)
    requires |c| == dim && forall f :: 0 <= f < dim ==> c[f] == Join(a[f], b[f])
    ensures Valid(pts, dim, s + t, 0) && Tight(pts, dim, s + t, c)
  {
    hide Extremes;
    assert Valid(pts, dim, s + t, 0);
    forall f | 0 <= f < dim ensures Extremes(pts, dim, s + t, f, c[f].low, c[f].high) {
      ExtremesJoin(pts, dim, s, t, f, a[f], b[f], c[f]);
    }
  }

  lemma TightOne(pts: seq<Row>, dim: nat, i: nat, bbox: seq<Interval>)
    requires Valid(pts, dim, [i], 0) && i < |pts| && |bbox| == dim && forall f :: 0 <= f < dim ==>
      bbox[f] == Interval(Key(pts, i, f), Key(pts, i, f))
    ensures Tight(pts, dim, [i], bbox)
  {
    forall f | 0 <= f < dim ensures Extremes(pts, dim, [i], f, bbox[f].low, bbox[f].high) {
      assert Key(pts, [i][0], f) == bbox[f].low;
    }
  }

  method PointBox(pts: seq<Row>, dim: nat, i: nat) returns (bbox: seq<Interval>)
    requires Valid(pts, dim, [i], 0)
    ensures Tight(pts, dim, [i], bbox)
  {
    assert [i][0] < |pts|;
    bbox := [];
    for f := 0 to dim
      invariant |bbox| == f && forall g :: 0 <= g < f ==> bbox[g] == Interval(Key(pts, i, g), Key(pts, i, g))
    {
      bbox := bbox + [Interval(Key(pts, i, f), Key(pts, i, f))];
    }
    TightOne(pts, dim, i, bbox);
  }

  /** The bounding box of a slice, point by point and coordinate by coordinate. */
  method BoundingBox(pts: seq<Row>, dim: nat, vind: array<nat>, left: nat, right: nat) returns (bbox: seq<Interval>)
    requires Valid(pts, dim, vind[..], 0) && left < right <= vind.Length
    ensures Valid(pts, dim, vind[left..right], 0) && Tight(pts, dim, vind[left..right], bbox)
  {
    hide Tight, Key;
    ghost var v := vind[..];
    assert vind[left..left + 1] == [vind[left]] && v[left..right] == vind[left..right];
    bbox := PointBox(pts, dim, vind[left]);
    TightMeans(pts, dim, [vind[left]], bbox);
    var k := left + 1;
    while k < right
      invariant left < k <= right && |bbox| == dim && Valid(pts, dim, v[left..k], 0)
      invariant Tight(pts, dim, v[left..k], bbox)
    {
      var own := PointBox(pts, dim, vind[k]);
      TightMeans(pts, dim, [vind[k]], own);
      var was := bbox;
      for i := 0 to dim
        invariant |bbox| == dim
        invariant forall f :: 0 <= f < i ==> bbox[f] == Join(was[f], own[f])
        invariant forall f :: i <= f < dim ==> bbox[f] == was[f]
      {
        bbox := bbox[i := Join(bbox[i], own[i])];
      }
      TightJoin(pts, dim, v[left..k], [vind[k]], was, own, bbox);
      assert v[left..k + 1] == v[left..k] + [vind[k]];
      k := k + 1;
    }
  }

  lemma TightMeans(pts: seq<Row>, dim: nat, s: seq<nat>, bbox: seq<Interval>)
    requires Valid(pts, dim, s, 0) && Tight(pts, dim, s, bbox)
    ensures |bbox| == dim
  {
  }

  /** Builds the tree over positions left to right, permuting them in place; the box that comes back
      is tight. A leaf size of at least one makes the recursion end. */
  method divideTree(pts: seq<Row>, dim: nat, vind: array<nat>, leafMax: nat, left: nat, right: nat, bbox: seq<Interval>)
    returns (node: Node, box: seq<Interval>)
    requires Valid(pts, dim, vind[..], 0) && left < right <= vind.Length && |bbox| == dim && leafMax >= 1
    modifies vind
    ensures Rearranged(old(vind[..]), vind[..], left, right) && Valid(pts, dim, vind[..], 0)
    ensures Good(pts, dim, node, vind[..], left, right, leafMax)
    ensures Valid(pts, dim, vind[left..right], 0) && Tight(pts, dim, vind[left..right], box)
    decreases right - left
  {
    hide Rearranged, Tight, Key, Good, AtMostIn, AtLeastIn, IsMaxSpan, WidestUpTo, Extremes;
    ghost var was := vind[..];
    if right - left <= leafMax {
      RearrangedSelf(was, left, right);
      box := BoundingBox(pts, dim, vind, left, right);
      node := Leaf(left, right);
      LeafGood(pts, dim, was, left, right, leafMax);
      return;
    }
    var idx, cutfeat, cutval := middleSplit_(pts, dim, vind, left, right - left, bbox);
    var mid := left + idx;
    ghost var a := vind[..];
    var left_bbox := bbox[cutfeat := bbox[cutfeat].(high := cutval)];
    var child1;
    child1, left_bbox := divideTree(pts, dim, vind, leafMax, left, mid, left_bbox);
    ghost var b := vind[..];
    assert vind[left..mid] == b[left..mid];
    var right_bbox := bbox[cutfeat := bbox[cutfeat].(low := cutval)];
    var child2;
    child2, right_bbox := divideTree(pts, dim, vind, leafMax, mid, right, right_bbox);
    ghost var c := vind[..];
    assert vind[mid..right] == c[mid..right] && vind[left..right] == c[left..right];
    SplitGood(pts, dim, was, a, b, c, left, mid, right, cutfeat, cutval, child1, child2, left_bbox, right_bbox,
      leafMax);
    node := Split(cutfeat, left_bbox[cutfeat].high, right_bbox[cutfeat].low, child1, child2);
    box := bbox;
    for i := 0 to dim
      invariant |box| == dim && forall f :: 0 <= f < i ==> box[f] == Join(left_bbox[f], right_bbox[f])
    {
      box := box[i := Join(left_bbox[i], right_bbox[i])];
    }
    TightJoin(pts, dim, c[left..mid], c[mid..right], left_bbox, right_bbox, box);
    assert c[left..mid] + c[mid..right] == c[left..right];
  }

  lemma LeafGood(pts: seq<Row>, dim: nat, v: seq<nat>, lo: nat, hi: nat, leafMax: nat)
    requires Valid(pts, dim, v, 0) && lo < hi <= |v| && hi - lo <= leafMax
    ensures Good(pts, dim, Leaf(lo, hi), v, lo, hi, leafMax)
  {
  }

  lemma BoundKept(pts: seq<Row>, dim: nat, a: seq<nat>, b: seq<nat>, lo: nat, hi: nat, f: nat, c: real)
    requires Valid(pts, dim, a, f) && Rearranged(a, b, lo, hi) && Valid(pts, dim, b, f)
    ensures AtMostIn(pts, dim, a, lo, hi, f, c) ==> AtMostIn(pts, dim, b, lo, hi, f, c)
    ensures AtLeastIn(pts, dim, a, lo, hi, f, c) ==> AtLeastIn(pts, dim, b, lo, hi, f, c)
  {
    hide Key;
    forall k | lo <= k < hi ensures exists j :: lo <= j < hi && a[j] == b[k] {
      assert b[lo..hi][k - lo] in multiset(a[lo..hi]);
      var i :| 0 <= i < hi - lo && a[lo..hi][i] == b[k];
      assert a[lo + i] == b[k];
    }
  }

  lemma TightBounds(pts: seq<Row>, dim: nat, v: seq<nat>, lo: nat, hi: nat, f: nat, bbox: seq<Interval>, c: real)
    requires Valid(pts, dim, v, f) && lo < hi <= |v| && Valid(pts, dim, v[lo..hi], 0)
    requires Tight(pts, dim, v[lo..hi], bbox)
    ensures |bbox| == dim && AtMostIn(pts, dim, v, lo, hi, f, bbox[f].high)
    ensures AtLeastIn(pts, dim, v, lo, hi, f, bbox[f].low)
    ensures AtMostIn(pts, dim, v, lo, hi, f, c) ==> bbox[f].high <= c
    ensures AtLeastIn(pts, dim, v, lo, hi, f, c) ==> c <= bbox[f].low
  {
    hide Key;
    var s := v[lo..hi];
    assert Extremes(pts, dim, s, f, bbox[f].low, bbox[f].high);
    forall k | lo <= k < hi ensures bbox[f].low <= Key(pts, v[k], f) <= bbox[f].high { assert s[k - lo] == v[k]; }
    var i :| 0 <= i < |s| && Key(pts, s[i], f) == bbox[f].low;
    var j :| 0 <= j < |s| && Key(pts, s[j], f) == bbox[f].high;
    assert v[lo + i] == s[i] && v[lo + j] == s[j];
  }

  /** What the two recursive calls leave behind: positions outside their own slice are untouched. */
  lemma SplitGood(pts: seq<Row>, dim: nat, was: seq<nat>, a: seq<nat>, b: seq<nat>, c: seq<nat>, lo: nat, mid: nat,
                  hi: nat,
                  f: nat, cut: real, child1: Node, child2: Node, box1: seq<Interval>, box2: seq<Interval>, leafMax: nat)
    requires lo < mid < hi <= |was| && Valid(pts, dim, a, f) && Valid(pts, dim, b, 0) && Valid(pts, dim, c, 0)
    requires Rearranged(was, a, lo, hi) && Rearranged(a, b, lo, mid) && Rearranged(b, c, mid, hi)
    requires AtMostIn(pts, dim, a, lo, mid, f, cut) && AtLeastIn(pts, dim, a, mid, hi, f, cut)
    requires Good(pts, dim, child1, b, lo, mid, leafMax) && Good(pts, dim, child2, c, mid, hi, leafMax)
    requires Valid(pts, dim, b[lo..mid], 0) && Tight(pts, dim, b[lo..mid], box1)
    requires Valid(pts, dim, c[mid..hi], 0) && Tight(pts, dim, c[mid..hi], box2)
    ensures |box1| == dim && |box2| == dim && Rearranged(was, c, lo, hi)
    ensures Good(pts, dim, Split(f, box1[f].high, box2[f].low, child1, child2), c, lo, hi, leafMax)
    ensures Valid(pts, dim, c[lo..mid], 0) && Tight(pts, dim, c[lo..mid], box1)
  {
    hide Key, Tight, Extremes, AtMostIn, AtLeastIn;
    RearrangedWiden(a, b, lo, mid, lo, hi);
    RearrangedWiden(b, c, mid, hi, lo, hi);
    RearrangedTrans(was, a, b, lo, hi);
    RearrangedTrans(was, b, c, lo, hi);
    Halves(a, b, c, lo, mid, hi);
    GoodEnd(pts, dim, child1, b, lo, mid, leafMax);
    GoodKept(pts, dim, child1, b, c, lo, mid, leafMax);
    BoundKept(pts, dim, a, b, lo, mid, f, cut);
    SameBounds(pts, dim, b, c, lo, mid, f, cut);
    SameBounds(pts, dim, a, b, mid, hi, f, cut);
    BoundKept(pts, dim, b, c, mid, hi, f, cut);
    TightBounds(pts, dim, c, lo, mid, f, box1, cut);
    TightBounds(pts, dim, c, mid, hi, f, box2, cut);
  }

  lemma Halves(a: seq<nat>, b: seq<nat>, c: seq<nat>, lo: nat, mid: nat, hi: nat)
    requires lo < mid < hi <= |a| && Rearranged(a, b, lo, mid) && Rearranged(b, c, mid, hi)
    ensures forall k :: lo <= k < mid ==> b[k] == c[k]
    ensures forall k :: mid <= k < hi ==> a[k] == b[k]
    ensures b[lo..mid] == c[lo..mid]
  {
    forall k | lo <= k < mid ensures b[k] == c[k] { assert b[..mid][k] == c[..mid][k]; }
    forall k | mid <= k < hi ensures a[k] == b[k] { assert a[mid..][k - mid] == b[mid..][k - mid]; }
  }

  lemma SameBounds(pts: seq<Row>, dim: nat, a: seq<nat>, b: seq<nat>, lo: nat, hi: nat, f: nat, c: real)
    requires Valid(pts, dim, a, f) && Valid(pts, dim, b, f) && |a| == |b| && lo <= hi <= |a|
    requires forall k :: lo <= k < hi ==> a[k] == b[k]
    ensures AtMostIn(pts, dim, a, lo, hi, f, c) ==> AtMostIn(pts, dim, b, lo, hi, f, c)
    ensures AtLeastIn(pts, dim, a, lo, hi, f, c) ==> AtLeastIn(pts, dim, b, lo, hi, f, c)
  {
    hide Key;
  }

  /** A slice of one point is split before that point: a leaf size of zero would recurse for ever. */
  lemma SplitOfOne(pts: seq<Row>, dim: nat, v: seq<nat>, lo: nat, m1: nat, m2: nat, f: nat, cut: real)
    requires Valid(pts, dim, v, f) && Blocks(pts, dim, v, lo, m1, m2, lo + 1, f, cut) && cut == Key(pts, v[lo], f)
    ensures var count := 1; var lim1, lim2 := m1 - lo, m2 - lo;
      (if lim1 > count / 2 then lim1 else if lim2 < count / 2 then lim2 else count / 2) == 0
  {
    hide Key;
    assert m1 == lo;
  }
}
