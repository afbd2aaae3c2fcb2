/** Add_Points with voxel downsampling: one live point per voxel that a batch hits. */
module IkdDownsample {
  import opened Geometry
  import opened IkdTree
  import opened IkdInvariant
  import opened IkdOperations

  // ---------- voxels ----------

  function Slot(x: real, size: real): int
    requires size > 0.0
  {
    (x / size).Floor
  }

  function Voxel(size: real, p: Point): Box
    requires size > 0.0
  {
    var x, y, z := Slot(p.x, size) as real * size, Slot(p.y, size) as real * size, Slot(p.z, size) as real * size;
    Box(x, x + size, y, y + size, z, z + size)
  }

  function Middle(b: Box): Point {
    Point(b.x0 + (b.x1 - b.x0) / 2.0, b.y0 + (b.y1 - b.y0) / 2.0, b.z0 + (b.z1 - b.z0) / 2.0, 0)
  }

  predicate SameVoxel(size: real, p: Point, q: Point)
    requires size > 0.0
  {
    Slot(p.x, size) == Slot(q.x, size) && Slot(p.y, size) == Slot(q.y, size) && Slot(p.z, size) == Slot(q.z, size)
  }

  lemma SlotBounds(x: real, size: real, k: int)
    requires size > 0.0
    ensures Slot(x, size) == k <==> k as real * size <= x < k as real * size + size
  {
    var q := x / size;
    assert q * size == x;
    var a, b := k as real, k as real + 1.0;
    Distribute(a, size);
    Scaled(a, q, size, x);
    Scaled(b, q, size, x);
  }

  lemma Distribute(a: real, size: real)
    ensures (a + 1.0) * size == a * size + size
  {
  }

  lemma Scaled(a: real, q: real, size: real, x: real)
    requires size > 0.0 && q * size == x
    ensures a <= q <==> a * size <= x
  {
    if a <= q { assert (q - a) * size >= 0.0; } else { assert (a - q) * size > 0.0; }
  }

  /** The voxels tile space: the box of p holds exactly the points with p's slots. */
  lemma VoxelHolds(size: real, p: Point, q: Point)
    requires size > 0.0
    ensures InBox(Voxel(size, p), q) <==> SameVoxel(size, p, q)
    ensures SameVoxel(size, p, q) ==> Voxel(size, p) == Voxel(size, q)
  {
    SlotBounds(q.x, size, Slot(p.x, size));
    SlotBounds(q.y, size, Slot(p.y, size));
    SlotBounds(q.z, size, Slot(p.z, size));
  }

  // ---------- one point ----------

  /** Coordinates closer than EPSS count as equal. */
  predicate SamePoint(a: Point, b: Point) {
    Abs(a.x - b.x) < 0.000001 && Abs(a.y - b.y) < 0.000001 && Abs(a.z - b.z) < 0.000001
  }

  /** The scan of the voxel's points: a later one wins only by being strictly closer. */
  function Closest(mid: Point, best: Point, s: seq<Point>): Point
    decreases |s|
  {
    if s == [] then best
    else Closest(mid, if Dist(s[0], mid) < Dist(best, mid) then s[0] else best, s[1..])
  }

  function AddDownsampled(cfg: Config, size: real, t: Tree, p: Point, allowRebuild: bool): (Tree, int)
    requires NthOk(cfg.nth) && size > 0.0 && t.Node? && Inv(t)
  {
    var b := Voxel(size, p);
    var (u, s) := SearchByRange(t, b);
    SearchExact(t, b);
    var best := Closest(Middle(b), p, s);
    if |s| > 1 || SamePoint(p, best) then
      var v := if |s| > 0 then DeleteByRange(cfg, u, b, allowRebuild, true).0 else u;
      DeleteExact(cfg, u, b, allowRebuild, true);
      (AddByPoint(cfg, v, best, allowRebuild, v.axis), 1)
    else (u, 0)
  }

  /** c is the one point that should survive among candidates m: one of them, none closer. */
  ghost predicate IsClosest(mid: Point, c: Point, m: multiset<Point>) {
    c in m && forall q :: q in m ==> Dist(c, mid) <= Dist(q, mid)
  }

  lemma {:induction false} ClosestIsClosest(mid: Point, best: Point, s: seq<Point>)
    ensures IsClosest(mid, Closest(mid, best, s), multiset(s) + multiset{best})
    ensures Closest(mid, best, s) != best ==> Dist(Closest(mid, best, s), mid) < Dist(best, mid)
    decreases |s|
  {
    hide Dist;
    if s != [] {
      var next := if Dist(s[0], mid) < Dist(best, mid) then s[0] else best;
      ClosestIsClosest(mid, next, s[1..]);
      assert s == [s[0]] + s[1..];
    }
  }

  /** The squared distance of q from the centre of the voxel with slots i, j and k. */
  ghost function OffCentre(size: real, i: int, j: int, k: int, q: Point): real {
    (q.x - (i as real + 0.5) * size) * (q.x - (i as real + 0.5) * size)
    + (q.y - (j as real + 0.5) * size) * (q.y - (j as real + 0.5) * size)
    + (q.z - (k as real + 0.5) * size) * (q.z - (k as real + 0.5) * size)
  }

  /** The voxel with slots i, j and k contains p. */
  ghost predicate InSlots(size: real, i: int, j: int, k: int, p: Point) {
    && i as real * size <= p.x < i as real * size + size
    && j as real * size <= p.y < j as real * size + size
    && k as real * size <= p.z < k as real * size + size
  }

  lemma VoxelIs(size: real, i: int, j: int, k: int, p: Point)
    requires size > 0.0 && InSlots(size, i, j, k, p)
    ensures Slot(p.x, size) == i && Slot(p.y, size) == j && Slot(p.z, size) == k
    ensures Voxel(size, p) == Box(i as real * size, i as real * size + size, j as real * size, j as real * size + size,
      k as real * size, k as real * size + size)
    ensures forall q :: InBox(Voxel(size, p), q) <==> InSlots(size, i, j, k, q)
  {
    SlotBounds(p.x, size, i);
    SlotBounds(p.y, size, j);
    SlotBounds(p.z, size, k);
    hide Slot;
  }

  lemma HalfUp(a: real, size: real)
    ensures a * size + (a * size + size - a * size) / 2.0 == (a + 0.5) * size
  {
  }

  lemma MiddleIs(size: real, i: int, j: int, k: int, p: Point, q: Point)
    requires size > 0.0 && InSlots(size, i, j, k, p)
    ensures Dist(q, Middle(Voxel(size, p))) == OffCentre(size, i, j, k, q)
  {
    VoxelIs(size, i, j, k, p);
    HalfUp(i as real, size);
    HalfUp(j as real, size);
    HalfUp(k as real, size);
    hide Voxel, InSlots, InBox;
    OffIs(size, i, j, k, q, Middle(Voxel(size, p)));
  }

  lemma OffIs(size: real, i: int, j: int, k: int, q: Point, m: Point)
    requires m.x == (i as real + 0.5) * size && m.y == (j as real + 0.5) * size && m.z == (k as real + 0.5) * size
    ensures Dist(q, m) == OffCentre(size, i, j, k, q)
  {
  }

  /** What one downsampled insertion does to the live multiset. */
  ghost predicate Thinned(b: Box, p: Point, m: multiset<Point>, r: multiset<Point>) {
    && Outside(r, b) == Outside(m, b)
    && exists c :: Inside(r, b) == multiset{c} && IsClosest(Middle(b), c, Inside(m, b) + multiset{p})
  }

  lemma InsideOutside(m: multiset<Point>, b: Box)
    ensures m == Inside(m, b) + Outside(m, b)
  {
  }

  lemma InsideSingleton(m: multiset<Point>, b: Box, c: Point)
    requires InBox(b, c)
    ensures Inside(Outside(m, b) + multiset{c}, b) == multiset{c}
    ensures Outside(Outside(m, b) + multiset{c}, b) == Outside(m, b)
  {
  }

  /** After one point the voxel holds one live point, a closest one to its centre among what was
      there and the new point; every other voxel is untouched. This holds although points within
      EPSS of each other count as the same. */
  lemma AddDownsampledThins(cfg: Config, size: real, t: Tree, p: Point, allowRebuild: bool)
    requires NthOk(cfg.nth) && size > 0.0 && t.Node? && Inv(t)
    ensures var v := AddDownsampled(cfg, size, t, p, allowRebuild).0;
      Inv(v) && v.Node? && Thinned(Voxel(size, p), p, Live(t), Live(v))
  {
    var b := Voxel(size, p);
    var (u, s) := SearchByRange(t, b);
    SearchExact(t, b);
    var best := Closest(Middle(b), p, s);
    VoxelHolds(size, p, p);
    DownsampleStep(cfg, t, u, s, b, p, best, allowRebuild);
  }

  lemma BestInBox(b: Box, m: multiset<Point>, s: seq<Point>, p: Point, best: Point)
    requires InBox(b, p) && multiset(s) == Inside(m, b) && best == Closest(Middle(b), p, s)
    ensures InBox(b, best) && IsClosest(Middle(b), best, Inside(m, b) + multiset{p})
    ensures |s| <= 1 && !SamePoint(p, best) ==> multiset(s) == multiset{best}
  {
    ClosestIsClosest(Middle(b), p, s);
    assert best in multiset(s) || best == p;
    if |s| <= 1 && best != p {
      assert best in multiset(s);
      assert s == [best];
    }
  }

  lemma DownsampleStep(cfg: Config, t: Tree, u: Tree, s: seq<Point>, b: Box, p: Point, best: Point, allowRebuild: bool)
    requires NthOk(cfg.nth) && t.Node? && Found(t, b, (u, s)) && InBox(b, p) && best == Closest(Middle(b), p, s)
    ensures u.Node? && Inv(u)
    ensures if |s| > 1 || SamePoint(p, best) then
              var v := if |s| > 0 then DeleteByRange(cfg, u, b, allowRebuild, true).0 else u;
              v.Node? && (var w := AddByPoint(cfg, v, best, allowRebuild, v.axis);
              Inv(w) && w.Node? && Thinned(b, p, Live(t), Live(w)))
            else Thinned(b, p, Live(t), Live(u))
  {
    BestInBox(b, Live(t), s, p, best);
    if |s| > 1 || SamePoint(p, best) {
      DeleteExact(cfg, u, b, allowRebuild, true);
      if |s| == 0 { InsideOutside(Live(t), b); }
      var v := if |s| > 0 then DeleteByRange(cfg, u, b, allowRebuild, true).0 else u;
      assert Live(v) == Outside(Live(t), b);
      AddExact(cfg, v, best, allowRebuild, v.axis);
      InsideSingleton(Live(t), b, best);
    }
  }

  // ---------- a batch ----------

  ghost function AddBatch(cfg: Config, size: real, t: Tree, batch: seq<Point>, allowRebuild: bool): (v: Tree)
    requires NthOk(cfg.nth) && size > 0.0 && t.Node? && Inv(t)
    ensures Inv(v) && v.Node?
  {
    if batch == [] then t else
      var n := |batch| - 1;
      var u := AddBatch(cfg, size, t, batch[..n], allowRebuild);
      AddDownsampledThins(cfg, size, u, batch[n], allowRebuild);
      AddDownsampled(cfg, size, u, batch[n], allowRebuild).0
  }

  /** How many points of the batch led to an insertion. */
  ghost function Insertions(cfg: Config, size: real, t: Tree, batch: seq<Point>, allowRebuild: bool): (n: int)
    requires NthOk(cfg.nth) && size > 0.0 && t.Node? && Inv(t)
    ensures 0 <= n <= |batch|
  {
    if batch == [] then 0 else
      var k := |batch| - 1;
      var u := AddBatch(cfg, size, t, batch[..k], allowRebuild);
      Insertions(cfg, size, t, batch[..k], allowRebuild) + AddDownsampled(cfg, size, u, batch[k], allowRebuild).1
  }

  ghost predicate Hit(size: real, batch: seq<Point>, p: Point)
    requires size > 0.0
  {
    exists i :: 0 <= i < |batch| && SameVoxel(size, batch[i], p)
  }

  /** The voxel of p after a batch: untouched if no point of the batch fell into it, else one live
      point, closest to the centre among the old live points and the batch points of the voxel. */
  ghost predicate VoxelSettled(size: real, batch: seq<Point>, p: Point, m: multiset<Point>, r: multiset<Point>)
    requires size > 0.0
  {
    var b := Voxel(size, p);
    if Hit(size, batch, p)
    then exists c :: Inside(r, b) == multiset{c} && IsClosest(Middle(b), c, Inside(m + multiset(batch), b))
    else Inside(r, b) == Inside(m, b)
  }

  lemma SettledStep(size: real, batch: seq<Point>, q: Point, p: Point, m: multiset<Point>, r: multiset<Point>,
                    r': multiset<Point>)
    requires size > 0.0 && VoxelSettled(size, batch, p, m, r) && Thinned(Voxel(size, q), q, r, r')
    ensures VoxelSettled(size, batch + [q], p, m, r')
  {
    hide *;
    VoxelHolds(size, p, q);
    VoxelHolds(size, q, p);
    SameVoxelSymmetric(size, p, q);
    if SameVoxel(size, q, p) {
      HitLast(size, batch, q, p);
      ClosestStep(size, batch, q, p, m, r, r');
      SettledHit(size, batch + [q], p, m, r');
    } else {
      assert Outside(r', Voxel(size, q)) == Outside(r, Voxel(size, q)) by { ThinnedOutside(Voxel(size, q), q, r, r'); }
      OtherVoxel(size, q, p, r, r');
      SettledMiss(size, batch, q, p, m, r, r');
    }
  }

  lemma HitLast(size: real, batch: seq<Point>, q: Point, p: Point)
    requires size > 0.0 && SameVoxel(size, q, p)
    ensures Hit(size, batch + [q], p)
  {
    assert (batch + [q])[|batch|] == q;
  }

  lemma ThinnedOutside(b: Box, p: Point, m: multiset<Point>, r: multiset<Point>)
    requires Thinned(b, p, m, r)
    ensures Outside(r, b) == Outside(m, b)
  {
  }

  lemma SettledMiss(size: real, batch: seq<Point>, q: Point, p: Point, m: multiset<Point>, r: multiset<Point>,
                    r': multiset<Point>)
    requires size > 0.0 && VoxelSettled(size, batch, p, m, r) && !SameVoxel(size, q, p)
    requires Inside(r', Voxel(size, p)) == Inside(r, Voxel(size, p)) && !InBox(Voxel(size, p), q)
    ensures VoxelSettled(size, batch + [q], p, m, r')
  {
    hide Voxel, SameVoxel, Inside, Outside, IsClosest, Middle, InBox;
    HitExtend(size, batch, q, p);
    InsideAppend(m, batch, q, Voxel(size, p));
  }

  lemma SettledHit(size: real, batch: seq<Point>, p: Point, m: multiset<Point>, r: multiset<Point>)
    requires size > 0.0 && Hit(size, batch, p)
    requires var b := Voxel(size, p);
      exists c :: Inside(r, b) == multiset{c} && IsClosest(Middle(b), c, Inside(m + multiset(batch), b))
    ensures VoxelSettled(size, batch, p, m, r)
  {
  }

  lemma InsideAppend(m: multiset<Point>, batch: seq<Point>, q: Point, b: Box)
    ensures var was := Inside(m + multiset(batch), b);
      Inside(m + multiset(batch + [q]), b) == if InBox(b, q) then was + multiset{q} else was
  {
    assert multiset(batch + [q]) == multiset(batch) + multiset{q};
  }

  lemma SameVoxelSymmetric(size: real, p: Point, q: Point)
    requires size > 0.0
    ensures SameVoxel(size, p, q) <==> SameVoxel(size, q, p)
  {
  }

  lemma HitExtend(size: real, batch: seq<Point>, q: Point, p: Point)
    requires size > 0.0 && !SameVoxel(size, q, p)
    ensures Hit(size, batch + [q], p) <==> Hit(size, batch, p)
  {
    if Hit(size, batch, p) {
      var i :| 0 <= i < |batch| && SameVoxel(size, batch[i], p);
      assert (batch + [q])[i] == batch[i];
    }
  }

  lemma OtherVoxel(size: real, q: Point, p: Point, r: multiset<Point>, r': multiset<Point>)
    requires size > 0.0 && !SameVoxel(size, q, p) && Outside(r', Voxel(size, q)) == Outside(r, Voxel(size, q))
    ensures Inside(r', Voxel(size, p)) == Inside(r, Voxel(size, p))
  {
    var b, a := Voxel(size, p), Voxel(size, q);
    forall x ensures Inside(r', b)[x] == Inside(r, b)[x] {
      if InBox(b, x) {
        VoxelHolds(size, p, x);
        VoxelHolds(size, q, x);
        assert !InBox(a, x);
        assert Outside(r', a)[x] == Outside(r, a)[x];
      }
    }
  }

  lemma ClosestStep(size: real, batch: seq<Point>, q: Point, p: Point, m: multiset<Point>, r: multiset<Point>,
                    r': multiset<Point>)
    requires size > 0.0 && SameVoxel(size, q, p) && InBox(Voxel(size, p), q)
    requires VoxelSettled(size, batch, p, m, r) && Thinned(Voxel(size, p), q, r, r')
    ensures var b := Voxel(size, p);
      exists c :: Inside(r', b) == multiset{c} && IsClosest(Middle(b), c, Inside(m + multiset(batch + [q]), b))
  {
    hide Dist, Voxel, InBox, Middle, Outside, Inside, SameVoxel;
    var b := Voxel(size, p);
    var was := Inside(m + multiset(batch), b);
    InsideAppend(m, batch, q, b);
    var c :| Inside(r', b) == multiset{c} && IsClosest(Middle(b), c, Inside(r, b) + multiset{q});
    if Hit(size, batch, p) {
      var d :| Inside(r, b) == multiset{d} && IsClosest(Middle(b), d, was);
      ClosestOfClosest(Middle(b), c, d, q, was);
    } else {
      NotHit(size, batch, p);
      InsideNone(m, multiset(batch), b);
    }
  }

  lemma ClosestOfClosest(mid: Point, c: Point, d: Point, q: Point, was: multiset<Point>)
    requires IsClosest(mid, d, was) && IsClosest(mid, c, multiset{d} + multiset{q})
    ensures IsClosest(mid, c, was + multiset{q})
  {
    hide Dist;
    assert d in multiset{d} + multiset{q} && q in multiset{d} + multiset{q};
  }

  lemma InsideNone(m: multiset<Point>, n: multiset<Point>, b: Box)
    requires Inside(n, b) == multiset{}
    ensures Inside(m + n, b) == Inside(m, b)
  {
    assert forall x :: Inside(n, b)[x] == 0;
  }

  lemma NotHit(size: real, batch: seq<Point>, p: Point)
    requires size > 0.0 && !Hit(size, batch, p)
    ensures Inside(multiset(batch), Voxel(size, p)) == multiset{}
  {
    forall x | x in multiset(batch) ensures !InBox(Voxel(size, p), x) {
      var i :| 0 <= i < |batch| && batch[i] == x;
      VoxelHolds(size, p, x);
    }
  }

  /** Every voxel after a whole batch, by induction over the batch. */
  lemma {:induction false} AddBatchSettles(cfg: Config, size: real, t: Tree, batch: seq<Point>, allowRebuild: bool,
                                           p: Point)
    requires NthOk(cfg.nth) && size > 0.0 && t.Node? && Inv(t)
    ensures VoxelSettled(size, batch, p, Live(t), Live(AddBatch(cfg, size, t, batch, allowRebuild)))
    decreases |batch|, 1
  {
    if batch == [] {
      assert Live(t) + multiset(batch) == Live(t);
    } else {
      BatchStep(cfg, size, t, batch, allowRebuild, p);
    }
  }

  lemma BatchUnfold(cfg: Config, size: real, t: Tree, batch: seq<Point>, allowRebuild: bool)
    requires NthOk(cfg.nth) && size > 0.0 && t.Node? && Inv(t) && batch != []
    ensures var n := |batch| - 1; var u := AddBatch(cfg, size, t, batch[..n], allowRebuild);
      AddBatch(cfg, size, t, batch, allowRebuild) == AddDownsampled(cfg, size, u, batch[n], allowRebuild).0 &&
      Insertions(cfg, size, t, batch, allowRebuild) == Insertions(cfg, size, t, batch[..n], allowRebuild)
        + AddDownsampled(cfg, size, u, batch[n], allowRebuild).1
  {
    hide AddDownsampled, Inv, NthOk;
  }

  lemma {:induction false} BatchStep(cfg: Config, size: real, t: Tree, batch: seq<Point>, allowRebuild: bool, p: Point)
    requires NthOk(cfg.nth) && size > 0.0 && t.Node? && Inv(t) && batch != []
    ensures VoxelSettled(size, batch, p, Live(t), Live(AddBatch(cfg, size, t, batch, allowRebuild)))
    decreases |batch|, 0
  {
    hide *;
    var n := |batch| - 1;
    var u := AddBatch(cfg, size, t, batch[..n], allowRebuild);
    BatchUnfold(cfg, size, t, batch, allowRebuild);
    AddBatchSettles(cfg, size, t, batch[..n], allowRebuild, p);
    AddDownsampledThins(cfg, size, u, batch[n], allowRebuild);
    SettledStep(size, batch[..n], batch[n], p, Live(t), Live(u),
      Live(AddDownsampled(cfg, size, u, batch[n], allowRebuild).0));
    assert batch[..n] + [batch[n]] == batch;
  }

  // ---------- in plain numbers ----------

  /** The voxel with slots i, j and k after a batch: untouched if no point of the batch falls into it, else
      one live point, none of the old live points and batch points there closer to the centre. */
  ghost predicate SlotsSettled(size: real, batch: seq<Point>, i: int, j: int, k: int, m: multiset<Point>,
                               r: multiset<Point>) {
    if exists n :: 0 <= n < |batch| && InSlots(size, i, j, k, batch[n])
    then exists c :: OneLeft(size, batch, i, j, k, m, r, c)
    else forall q :: InSlots(size, i, j, k, q) ==> r[q] == m[q]
  }

  ghost predicate OneLeft(size: real, batch: seq<Point>, i: int, j: int, k: int, m: multiset<Point>,
                          r: multiset<Point>, c: Point) {
    && InSlots(size, i, j, k, c) && c in m + multiset(batch)
    && (forall q :: InSlots(size, i, j, k, q) ==> r[q] == if q == c then 1 else 0)
    && forall q :: q in m + multiset(batch) && InSlots(size, i, j, k, q) ==>
         OffCentre(size, i, j, k, c) <= OffCentre(size, i, j, k, q)
  }

  lemma HitIs(size: real, batch: seq<Point>, i: int, j: int, k: int, p: Point)
    requires size > 0.0 && InSlots(size, i, j, k, p)
    ensures Hit(size, batch, p) <==> exists n :: 0 <= n < |batch| && InSlots(size, i, j, k, batch[n])
  {
    VoxelIs(size, i, j, k, p);
    forall n | 0 <= n < |batch| ensures SameVoxel(size, batch[n], p) <==> InSlots(size, i, j, k, batch[n]) {
      VoxelHolds(size, p, batch[n]);
      SameVoxelSymmetric(size, p, batch[n]);
    }
    hide Voxel, InSlots, InBox, SameVoxel;
  }

  lemma LeftOne(size: real, batch: seq<Point>, i: int, j: int, k: int, p: Point, m: multiset<Point>, r: multiset<Point>,
                c: Point)
    requires size > 0.0 && InSlots(size, i, j, k, p)
    requires var b := Voxel(size, p);
      Inside(r, b) == multiset{c} && IsClosest(Middle(b), c, Inside(m + multiset(batch), b))
    ensures OneLeft(size, batch, i, j, k, m, r, c)
  {
    var b := Voxel(size, p);
    VoxelIs(size, i, j, k, p);
    hide Voxel, InSlots, InBox, Dist, Middle, OffCentre;
    var all := Inside(m + multiset(batch), b);
    assert c in Inside(r, b) && c in all;
    forall q | q in all ensures OffCentre(size, i, j, k, c) <= OffCentre(size, i, j, k, q) {
      MiddleIs(size, i, j, k, p, c);
      MiddleIs(size, i, j, k, p, q);
    }
    forall q | InSlots(size, i, j, k, q) ensures r[q] == if q == c then 1 else 0 {
      assert Inside(r, b)[q] == r[q];
    }
  }

  lemma InsideSlots(size: real, i: int, j: int, k: int, p: Point, m: multiset<Point>, r: multiset<Point>)
    requires size > 0.0 && InSlots(size, i, j, k, p) && Inside(r, Voxel(size, p)) == Inside(m, Voxel(size, p))
    ensures forall q :: InSlots(size, i, j, k, q) ==> r[q] == m[q]
  {
    var b := Voxel(size, p);
    VoxelIs(size, i, j, k, p);
    hide Voxel, InSlots, InBox;
    forall q | InSlots(size, i, j, k, q) ensures r[q] == m[q] {
      assert Inside(r, b)[q] == r[q] && Inside(m, b)[q] == m[q];
    }
  }

  lemma SettledSlots(size: real, batch: seq<Point>, i: int, j: int, k: int, p: Point, m: multiset<Point>,
                     r: multiset<Point>)
    requires size > 0.0 && InSlots(size, i, j, k, p) && VoxelSettled(size, batch, p, m, r)
    ensures SlotsSettled(size, batch, i, j, k, m, r)
  {
    HitIs(size, batch, i, j, k, p);
    hide Voxel, InSlots, IsClosest, Inside, Middle, OneLeft, Hit;
    if Hit(size, batch, p) {
      var b := Voxel(size, p);
      var c :| Inside(r, b) == multiset{c} && IsClosest(Middle(b), c, Inside(m + multiset(batch), b));
      LeftOne(size, batch, i, j, k, p, m, r, c);
    } else {
      InsideSlots(size, i, j, k, p, m, r);
    }
  }

  lemma CornerInSlots(size: real, i: int, j: int, k: int)
    requires size > 0.0
    ensures InSlots(size, i, j, k, Point(i as real * size, j as real * size, k as real * size, 0))
  {
  }

  /** Every voxel after a whole batch. This holds although points within EPSS of each other count as the
      same. */
  lemma AddBatchExact(cfg: Config, size: real, t: Tree, batch: seq<Point>, allowRebuild: bool, i: int, j: int, k: int)
    requires NthOk(cfg.nth) && size > 0.0 && t.Node? && Inv(t)
    ensures SlotsSettled(size, batch, i, j, k, Live(t), Live(AddBatch(cfg, size, t, batch, allowRebuild)))
  {
    hide *;
    CornerInSlots(size, i, j, k);
    var p := Point(i as real * size, j as real * size, k as real * size, 0);
    AddBatchSettles(cfg, size, t, batch, allowRebuild, p);
    SettledSlots(size, batch, i, j, k, p, Live(t), Live(AddBatch(cfg, size, t, batch, allowRebuild)));
  }

  lemma OnePoint(cfg: Config, size: real, t: Tree, p: Point, allowRebuild: bool)
    requires NthOk(cfg.nth) && size > 0.0 && t.Node? && Inv(t)
    ensures AddBatch(cfg, size, t, [p], allowRebuild) == AddDownsampled(cfg, size, t, p, allowRebuild).0
    ensures Insertions(cfg, size, t, [p], allowRebuild) == AddDownsampled(cfg, size, t, p, allowRebuild).1
  {
    assert [p][..0] == [];
    BatchUnfold(cfg, size, t, [p], allowRebuild);
    hide AddDownsampled, Inv;
  }

  /** And after one point. */
  lemma AddDownsampledExact(cfg: Config, size: real, t: Tree, p: Point, allowRebuild: bool, i: int, j: int, k: int)
    requires NthOk(cfg.nth) && size > 0.0 && t.Node? && Inv(t)
    ensures var v := AddDownsampled(cfg, size, t, p, allowRebuild).0;
      Inv(v) && v.Node? && SlotsSettled(size, [p], i, j, k, Live(t), Live(v))
  {
    hide *;
    OnePoint(cfg, size, t, p, allowRebuild);
    AddDownsampledThins(cfg, size, t, p, allowRebuild);
    AddBatchExact(cfg, size, t, [p], allowRebuild, i, j, k);
  }

  /** It is passed over, and not counted, exactly if its voxel holds one live point, which is strictly closer
      to the centre and a millionth or more away from it along some axis. */
  lemma PassedOverIff(cfg: Config, size: real, t: Tree, p: Point, allowRebuild: bool, i: int, j: int, k: int)
    requires NthOk(cfg.nth) && size > 0.0 && t.Node? && Inv(t) && InSlots(size, i, j, k, p)
    ensures AddDownsampled(cfg, size, t, p, allowRebuild).1 ==
      if exists q :: PassesOver(size, i, j, k, Live(t), p, q) then 0 else 1
  {
    hide *;
    var b := Voxel(size, p);
    var s := SearchByRange(t, b).1;
    VoxelListed(t, b);
    CountIs(cfg, size, t, p, allowRebuild);
    BestIs(size, i, j, k, Live(t), p, s);
    BestPasses(size, i, j, k, Live(t), p, s);
  }

  lemma BestPasses(size: real, i: int, j: int, k: int, m: multiset<Point>, p: Point, s: seq<Point>)
    requires size > 0.0 && InSlots(size, i, j, k, p) && multiset(s) == Inside(m, Voxel(size, p))
    requires BestOf(size, i, j, k, p, s)
    ensures (|s| <= 1 && !SamePoint(p, Closest(Middle(Voxel(size, p)), p, s))) <==>
      exists q :: PassesOver(size, i, j, k, m, p, q)
  {
    var b := Voxel(size, p);
    var best := Closest(Middle(b), p, s);
    VoxelIs(size, i, j, k, p);
    hide Voxel, InBox, Middle, OffCentre, Closest, InSlots;
    if |s| <= 1 && !SamePoint(p, best) {
      assert best != p;
      OnlyOne(m, b, s, best);
      assert PassesOver(size, i, j, k, m, p, best);
    }
    if q :| PassesOver(size, i, j, k, m, p, q) {
      OnlyInside(m, b, q);
      OneInSeq(s, q);
    }
  }

  /** The scan returns p, or else a point of the voxel strictly closer to the centre. */
  ghost predicate BestOf(size: real, i: int, j: int, k: int, p: Point, s: seq<Point>)
    requires size > 0.0
  {
    var best := Closest(Middle(Voxel(size, p)), p, s);
    && (best == p || (best in s && OffCentre(size, i, j, k, best) < OffCentre(size, i, j, k, p)))
    && forall q :: q in s ==> OffCentre(size, i, j, k, best) <= OffCentre(size, i, j, k, q)
  }

  lemma BestIs(size: real, i: int, j: int, k: int, m: multiset<Point>, p: Point, s: seq<Point>)
    requires size > 0.0 && InSlots(size, i, j, k, p)
    ensures BestOf(size, i, j, k, p, s)
  {
    var mid := Middle(Voxel(size, p));
    ClosestIsClosest(mid, p, s);
    hide Dist, Middle, Voxel, OffCentre, Closest, InSlots;
    var best := Closest(mid, p, s);
    var all := multiset(s) + multiset{p};
    assert best in all;
    MiddleIs(size, i, j, k, p, best);
    MiddleIs(size, i, j, k, p, p);
    forall q | q in s ensures OffCentre(size, i, j, k, best) <= OffCentre(size, i, j, k, q) {
      MiddleIs(size, i, j, k, p, q);
      assert q in all;
    }
  }

  ghost predicate PassesOver(size: real, i: int, j: int, k: int, m: multiset<Point>, p: Point, q: Point) {
    && (forall x :: InSlots(size, i, j, k, x) ==> m[x] == if x == q then 1 else 0)
    && InSlots(size, i, j, k, q) && OffCentre(size, i, j, k, q) < OffCentre(size, i, j, k, p)
    && (p.x - q.x >= 0.000001 || q.x - p.x >= 0.000001 || p.y - q.y >= 0.000001 || q.y - p.y >= 0.000001
        || p.z - q.z >= 0.000001 || q.z - p.z >= 0.000001)
  }

  lemma CountIs(cfg: Config, size: real, t: Tree, p: Point, allowRebuild: bool)
    requires NthOk(cfg.nth) && size > 0.0 && t.Node? && Inv(t)
    ensures var s := SearchByRange(t, Voxel(size, p)).1;
      AddDownsampled(cfg, size, t, p, allowRebuild).1 ==
      if |s| > 1 || SamePoint(p, Closest(Middle(Voxel(size, p)), p, s)) then 1 else 0
  {
    hide SearchByRange, DeleteByRange, AddByPoint, Closest, SamePoint, Voxel, Middle, Inv;
  }

  lemma OneInSeq(s: seq<Point>, q: Point)
    requires multiset(s) == multiset{q}
    ensures s == [q]
  {
    assert |multiset(s)| == |s| == 1;
    assert s[0] in multiset(s);
  }

  lemma VoxelListed(t: Tree, b: Box)
    requires Inv(t)
    ensures multiset(SearchByRange(t, b).1) == Inside(Live(t), b)
  {
    SearchExact(t, b);
    hide SearchByRange, Live, Inv;
  }

  lemma OnlyInside(m: multiset<Point>, b: Box, q: Point)
    requires InBox(b, q) && forall x :: InBox(b, x) ==> m[x] == if x == q then 1 else 0
    ensures Inside(m, b) == multiset{q}
  {
    hide InBox;
  }

  lemma OnlyOne(m: multiset<Point>, b: Box, s: seq<Point>, q: Point)
    requires multiset(s) == Inside(m, b) && s == [q]
    ensures InBox(b, q) && forall x :: InBox(b, x) ==> m[x] == if x == q then 1 else 0
  {
    hide InBox;
    assert multiset(s) == multiset{q} && q in Inside(m, b);
    forall x | InBox(b, x) ensures m[x] == if x == q then 1 else 0 { assert Inside(m, b)[x] == m[x]; }
  }
}
