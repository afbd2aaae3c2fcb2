/** KD_TREE: the public operations on the root pointer, as this repository calls them. */
module KdTree {
  import opened Geometry
  import opened KNearest
  import opened ManualHeap
  import opened VisitOrder
  import opened IkdInvariant
  import opened IkdNode
  import opened IkdSearch
  import opened IkdDownsample
  import opened IkdBalance
  import opened IkdRadius
  import opened IkdOrder
  import opened SquareRoot
  import Spec = IkdTree
  import Ops = IkdOperations

  /** The root pointer never loses its node, its tree is consistent and in k-d order and, with usual
      criteria, balanced and mostly live below the size at which rebuilds leave this thread. */
  ghost predicate Sound(cfg: Config, t: Spec.Tree) {
    Inv(t) && Ordered(t) && (Regular(cfg) ==> InBalance(cfg, t))
  }

  lemma SoundInv(cfg: Config, t: Spec.Tree)
    requires Sound(cfg, t)
    ensures Inv(t) && Ordered(t) && (Regular(cfg) ==> InBalance(cfg, t))
  {
  }

  lemma {:induction false} ToldBalanced(lim: Limits, t: Spec.Tree, v: Spec.Tree)
    requires Told(t, v) && Balanced(lim, t)
    ensures Balanced(lim, v)
  {
    hide NodeBalanced;
    if t.Node? {
      ToldBalanced(lim, t.left, v.left);
      ToldBalanced(lim, t.right, v.right);
      ToldNode(lim, t, v);
    }
  }

  lemma ToldNode(lim: Limits, t: Spec.Tree, v: Spec.Tree)
    requires Told(t, v) && t.Node? && NodeBalanced(lim, t)
    ensures NodeBalanced(lim, v)
  {
    hide NoMore;
  }

  lemma {:induction false} ToldSame(t: Spec.Tree, v: Spec.Tree)
    requires Told(t, v)
    ensures Same(t, v)
  {
    if t.Node? {
      ToldSame(t.left, v.left);
      ToldSame(t.right, v.right);
    }
  }

  lemma KeptSound(cfg: Config, t: Spec.Tree, v: Spec.Tree)
    requires Sound(cfg, t) && Kept(t, v)
    ensures Sound(cfg, v) && Live(v) == Live(t) && (v.Node? <==> t.Node?)
  {
    if Regular(cfg) { ToldBalanced(LimitsOf(cfg), t, v); }
    ToldSame(t, v);
    SameOrdered(t, v);
  }

  lemma SearchSound(cfg: Config, t: Spec.Tree, b: Box)
    requires Sound(cfg, t)
    ensures var (v, s) := Spec.SearchByRange(t, b);
      Sound(cfg, v) && Live(v) == Live(t) && multiset(s) == Inside(Live(t), b) && (v.Node? <==> t.Node?)
  {
    Ops.SearchExact(t, b);
    if Regular(cfg) { SearchBalanced(LimitsOf(cfg), t, b); }
    SearchSame(t, b);
    SameOrdered(t, Spec.SearchByRange(t, b).0);
  }

  lemma RadiusSound(sqrt: Root, cfg: Config, t: Spec.Tree, q: Point, radius: real)
    requires Sound(cfg, t)
    ensures var (v, s) := SearchByRadius(sqrt, t, q, radius);
      && Sound(cfg, v) && Live(v) == Live(t) && (v.Node? <==> t.Node?)
      && (RootOk(sqrt) ==> if radius >= 0.0 then multiset(s) == Ball(Live(t), q, radius)
         else multiset(s) <= Ball(Live(t), q, radius))
  {
    RadiusKeeps(sqrt, t, q, radius);
    if RootOk(sqrt) && radius >= 0.0 { RadiusExact(sqrt, t, q, radius); }
    if Regular(cfg) { RadiusBalanced(LimitsOf(cfg), sqrt, t, q, radius); }
    RadiusSame(sqrt, t, q, radius);
    SameOrdered(t, SearchByRadius(sqrt, t, q, radius).0);
  }

  lemma NearestSound(cfg: Config, t: Spec.Tree, k: nat, q: Point, limit: Ext)
    requires Sound(cfg, t) && k >= 1
    ensures var v := SearchNearest(t, k, q, limit, []).0; Sound(cfg, v) && Live(v) == Live(t) && (v.Node? <==> t.Node?)
  {
    SearchKept(t, k, q, limit, []);
    KeptSound(cfg, t, SearchNearest(t, k, q, limit, []).0);
  }

  /** What Nearest_Search lists: always as many of the live points within the limit as asked for, or all;
      and if no disorderly pair reaches into the k nearest, these, in ascending order. */
  lemma NearestFound(t: Spec.Tree, k: nat, q: Point, limit: Ext)
    requires Inv(t) && k >= 1
    ensures var found := Listed(SearchNearest(t, k, q, limit, []).1); var all := NearBy(Live(t), q, limit);
      && multiset(found) <= all && |found| == Least(k, |all|)
      && (Tame(all, k) ==> Exact(found, all, k))
  {
    hide Inv, Live, NearBy, SearchNearest, Listed, Exact, Tame, Fit, OrderlyBelow, IsHeap, Enough;
    var all := NearBy(Live(t), q, limit);
    var s := SearchNearest(t, k, q, limit, []).1;
    assert multiset{} + all == all;
    var cut := AnyCut(all);
    HoldsNone(cut, k);
    AnyFit(cut, all, k);
    SearchHolds(cut, t, k, q, limit, [], multiset{});
    ListedKeeps(s);
    if Tame(all, k) {
      var better := CutExists(all, k);
      HoldsNone(better, k);
      SearchHolds(better, t, k, q, limit, [], multiset{});
      HoldsExact(better, s, all, k);
    }
  }

  lemma {:induction false} RadiusSame(sqrt: Root, t: Spec.Tree, q: Point, radius: real)
    ensures Same(t, SearchByRadius(sqrt, t, q, radius).0)
    decreases Spec.Count(t)
  {
    if t.Nil? { return; }
    hide *;
    var u := Spec.PushDown(t);
    PushDownSame(t);
    CountParts(t);
    RadiusUnfold(sqrt, t, q, radius);
    PushedSame(u);
    RadiusSame(sqrt, u.left, q, radius);
    RadiusSame(sqrt, u.right, q, radius);
    var v := SearchByRadius(sqrt, t, q, radius).0;
    assert Same(u, v) by {
      SameSelf(u); SameParts(u, SearchByRadius(sqrt, u.left, q, radius).0, SearchByRadius(sqrt, u.right, q, radius).0);
    }
    SameTrans(t, u, v);
  }

  lemma SameParts(u: Spec.Tree, l: Spec.Tree, r: Spec.Tree)
    requires u.Node?
    ensures Same(u.left, l) && Same(u.right, r) ==> Same(u, u.(left := l, right := r))
  {
  }

  /** A radius search only pushes flags down, so it moves no weight. */
  lemma {:induction false} RadiusBalanced(lim: Limits, sqrt: Root, t: Spec.Tree, q: Point, radius: real)
    requires Balanced(lim, t) && Inv(t)
    ensures var v := SearchByRadius(sqrt, t, q, radius).0; Balanced(lim, v) && Spec.SizeOf(v) == Spec.SizeOf(t)
    decreases Spec.Count(t)
  {
    if t.Nil? { return; }
    hide *;
    var u := Spec.PushDown(t);
    PushDownBalanced(lim, t);
    PushDownKeeps(t);
    Ops.Halves(t, u);
    BalancedParts(lim, u);
    RadiusUnfold(sqrt, t, q, radius);
    PushedBalanced(lim, u);
    SizeOfNode(t);
    SizeOfNode(u);
    RadiusBalanced(lim, sqrt, u.left, q, radius);
    RadiusBalanced(lim, sqrt, u.right, q, radius);
    BalancedReplace(lim, u, SearchByRadius(sqrt, u.left, q, radius).0, SearchByRadius(sqrt, u.right, q, radius).0);
  }

  lemma DeleteSound(cfg: Config, t: Spec.Tree, b: Box, isDownsample: bool)
    requires Sound(cfg, t) && Spec.NthOk(cfg.nth)
    ensures var (v, n) := Spec.DeleteByRange(cfg, t, b, true, isDownsample);
      Sound(cfg, v) && Live(v) == Outside(Live(t), b) && n == |Live(t)| - |Live(v)| && (v.Node? <==> t.Node?)
  {
    Ops.DeleteExact(cfg, t, b, true, isDownsample);
    if Regular(cfg) { DeleteBalanced(cfg, t, b, isDownsample); }
    DeleteFits(cfg, t, b, isDownsample);
    FitsMeans(t, {}, Spec.DeleteByRange(cfg, t, b, true, isDownsample).0);
  }

  lemma AddSound(cfg: Config, t: Spec.Tree, p: Point, axis: int)
    requires Sound(cfg, t) && Spec.NthOk(cfg.nth) && 0 <= axis < 3
    ensures var v := Spec.AddByPoint(cfg, t, p, true, axis);
      Sound(cfg, v) && Live(v) == Live(t) + multiset{p} && v.Node?
  {
    Ops.AddExact(cfg, t, p, true, axis);
    if Regular(cfg) { AddBalanced(cfg, t, p, axis); }
    AddFits(cfg, t, p, axis);
    FitsMeans(t, {p}, Spec.AddByPoint(cfg, t, p, true, axis));
  }

  lemma BuildSound(cfg: Config, s: seq<Point>)
    requires Spec.NthOk(cfg.nth)
    ensures var t := Spec.BuildTree(cfg.nth, s); Sound(cfg, t) && Live(t) == multiset(s) && (t.Node? <==> |s| > 0)
  {
    Ops.BuildExact(cfg.nth, s);
    if Regular(cfg) { BuildBalanced(cfg.nth, s, LimitsOf(cfg)); }
    BuildOrdered(cfg.nth, s);
  }

  lemma RootAxis(cfg: Config, t: Spec.Tree)
    requires Sound(cfg, t) && t.Node?
    ensures 0 <= t.axis < 3
  {
  }

  function Squared(d: Ext): Ext { if d.Inf? then Inf else Fin(d.v * d.v) }

  // ---------- whole calls on values ----------

  /** Add_Points without downsampling: one insertion after the other, below the root's axis. */
  ghost function AddPlain(cfg: Config, t: Spec.Tree, batch: seq<Point>): (v: Spec.Tree)
    requires Spec.NthOk(cfg.nth) && Sound(cfg, t) && t.Node?
    ensures Sound(cfg, v) && v.Node? && Live(v) == Live(t) + multiset(batch)
  {
    if batch == [] then t else
      var n := |batch| - 1;
      var u := AddPlain(cfg, t, batch[..n]);
      AddPlainStep(cfg, t, u, batch);
      Spec.AddByPoint(cfg, u, batch[n], true, u.axis)
  }

  lemma AddPlainStep(cfg: Config, t: Spec.Tree, u: Spec.Tree, batch: seq<Point>)
    requires Spec.NthOk(cfg.nth) && Sound(cfg, u) && u.Node? && |batch| > 0
    requires Live(u) == Live(t) + multiset(batch[..|batch| - 1])
    ensures var v := Spec.AddByPoint(cfg, u, batch[|batch| - 1], true, u.axis);
      Sound(cfg, v) && v.Node? && Live(v) == Live(t) + multiset(batch)
  {
    hide Sound, Live;
    RootAxis(cfg, u);
    AddSound(cfg, u, batch[|batch| - 1], u.axis);
    assert batch == batch[..|batch| - 1] + [batch[|batch| - 1]];
  }

  lemma DownsampledUnfold(cfg: Config, size: real, t: Spec.Tree, p: Point)
    requires Spec.NthOk(cfg.nth) && size > 0.0 && Inv(t) && t.Node?
    ensures var b := Voxel(size, p); var (u, s) := Spec.SearchByRange(t, b);
      var best := Closest(Middle(b), p, s);
      var v := if |s| > 0 then Spec.DeleteByRange(cfg, u, b, true, true).0 else u;
      AddDownsampled(cfg, size, t, p, true) ==
      if |s| > 1 || SamePoint(p, best)
      then (Spec.AddByPoint(cfg, v, best, true, if v.Node? then v.axis else 0), 1) else (u, 0)
  {
    hide Inv, Live, Spec.SearchByRange, Spec.DeleteByRange, Spec.AddByPoint, Closest, SamePoint, Voxel, Middle;
    var b := Voxel(size, p);
    Ops.SearchExact(t, b);
    Ops.DeleteExact(cfg, Spec.SearchByRange(t, b).0, b, true, true);
  }

  lemma DownsampledSound(cfg: Config, size: real, t: Spec.Tree, p: Point)
    requires Spec.NthOk(cfg.nth) && size > 0.0 && Sound(cfg, t) && Inv(t) && t.Node?
    ensures Sound(cfg, AddDownsampled(cfg, size, t, p, true).0) && AddDownsampled(cfg, size, t, p, true).0.Node?
  {
    hide *;
    DownsampledUnfold(cfg, size, t, p);
    var b := Voxel(size, p);
    SearchSound(cfg, t, b);
    var (u, s) := Spec.SearchByRange(t, b);
    DeleteSound(cfg, u, b, true);
    var v := if |s| > 0 then Spec.DeleteByRange(cfg, u, b, true, true).0 else u;
    RootAxis(cfg, v);
    AddSound(cfg, v, Closest(Middle(b), p, s), v.axis);
  }

  lemma {:induction false} BatchSound(cfg: Config, size: real, t: Spec.Tree, batch: seq<Point>)
    requires Spec.NthOk(cfg.nth) && size > 0.0 && Sound(cfg, t) && t.Node?
    ensures Inv(t) && Sound(cfg, AddBatch(cfg, size, t, batch, true))
    decreases |batch|
  {
    SoundInv(cfg, t);
    hide Sound, Inv, AddDownsampled;
    if batch != [] {
      var n := |batch| - 1;
      BatchSound(cfg, size, t, batch[..n]);
      SoundInv(cfg, AddBatch(cfg, size, t, batch[..n], true));
      DownsampledSound(cfg, size, AddBatch(cfg, size, t, batch[..n], true), batch[n]);
    }
  }

  ghost predicate InSome(boxes: seq<Box>, p: Point) {
    exists i :: 0 <= i < |boxes| && InBox(boxes[i], p)
  }

  /** The live points outside every one of the boxes. */
  ghost predicate Cleared(boxes: seq<Box>, m: multiset<Point>, r: multiset<Point>) {
    forall p :: r[p] == if InSome(boxes, p) then 0 else m[p]
  }

  lemma ClearedStep(boxes: seq<Box>, m: multiset<Point>, r: multiset<Point>)
    requires |boxes| > 0 && Cleared(boxes[..|boxes| - 1], m, r)
    ensures Cleared(boxes, m, Outside(r, boxes[|boxes| - 1]))
  {
    var n := |boxes| - 1;
    hide InBox;
    forall p ensures InSome(boxes, p) <==> InSome(boxes[..n], p) || InBox(boxes[n], p) {
      if InSome(boxes, p) {
        var i :| 0 <= i < |boxes| && InBox(boxes[i], p);
        assert i < n ==> boxes[..n][i] == boxes[i];
      }
    }
  }

  ghost predicate BoxesGone(cfg: Config, t: Spec.Tree, boxes: seq<Box>, r: (Spec.Tree, int)) {
    Sound(cfg, r.0) && (r.0.Node? <==> t.Node?) && Cleared(boxes, Live(t), Live(r.0)) && r.1 == |Live(t)| - |Live(r.0)|
  }

  lemma BoxesNone(cfg: Config, t: Spec.Tree)
    requires Sound(cfg, t)
    ensures BoxesGone(cfg, t, [], (t, 0))
  {
    hide Sound, Live, InBox;
  }

  lemma BoxesStep(cfg: Config, t: Spec.Tree, u: (Spec.Tree, int), boxes: seq<Box>)
    requires Spec.NthOk(cfg.nth) && |boxes| > 0 && BoxesGone(cfg, t, boxes[..|boxes| - 1], u)
    ensures Sound(cfg, u.0)
    ensures var d := Spec.DeleteByRange(cfg, u.0, boxes[|boxes| - 1], true, false);
      BoxesGone(cfg, t, boxes, (d.0, u.1 + d.1))
  {
    hide Sound, Live, Cleared, Spec.DeleteByRange;
    DeleteSound(cfg, u.0, boxes[|boxes| - 1], false);
    ClearedStep(boxes, Live(t), Live(u.0));
  }

  /** Delete_Point_Boxes: the boxes in turn, counting what each removes. */
  ghost function DeleteBoxes(cfg: Config, t: Spec.Tree, boxes: seq<Box>): (r: (Spec.Tree, int))
    requires Spec.NthOk(cfg.nth) && Sound(cfg, t)
    ensures BoxesGone(cfg, t, boxes, r)
  {
    hide *;
    if boxes == [] then BoxesNone(cfg, t); (t, 0) else
      var n := |boxes| - 1;
      var u := DeleteBoxes(cfg, t, boxes[..n]);
      BoxesStep(cfg, t, u, boxes);
      var d := Spec.DeleteByRange(cfg, u.0, boxes[n], true, false);
      (d.0, u.1 + d.1)
  }

  // ---------- runs ----------

  type positive = n: int | n >= 1 witness 1

  datatype Call =
    | AddPoints(batch: seq<Point>, downsample: bool)
    | DeletePointBoxes(boxes: seq<Box>)
    | BoxSearch(box: Box)
    | RadiusSearch(sqrt: Root, point: Point, radius: real)
    | NearestSearch(point: Point, k_nearest: positive, limit: Ext)

  ghost function Step(cfg: Config, size: real, t: Spec.Tree, c: Call): (v: Spec.Tree)
    requires Spec.NthOk(cfg.nth) && size > 0.0 && Sound(cfg, t) && t.Node?
    ensures Sound(cfg, v) && v.Node?
  {
    match c
    case AddPoints(batch, downsample) =>
      BatchSound(cfg, size, t, batch);
      if downsample then AddBatch(cfg, size, t, batch, true) else AddPlain(cfg, t, batch)
    case DeletePointBoxes(boxes) => DeleteBoxes(cfg, t, boxes).0
    case BoxSearch(box) => SearchSound(cfg, t, box); Spec.SearchByRange(t, box).0
    case RadiusSearch(sqrt, point, radius) =>
      RadiusSound(sqrt, cfg, t, point, radius); SearchByRadius(sqrt, t, point, radius).0
    case NearestSearch(point, k_nearest, limit) =>
      NearestSound(cfg, t, k_nearest, point, limit);
      SearchNearest(t, k_nearest, point, limit, []).0
  }

  /** What a call means for the plain multiset of live points. */
  ghost predicate Means(size: real, c: Call, m: multiset<Point>, r: multiset<Point>)
    requires size > 0.0
  {
    match c
    case AddPoints(batch, true) => forall i, j, k :: SlotsSettled(size, batch, i, j, k, m, r)
    case AddPoints(batch, false) => r == m + multiset(batch)
    case DeletePointBoxes(boxes) => Cleared(boxes, m, r)
    case BoxSearch(_) => r == m
    case RadiusSearch(_, _, _) => r == m
    case NearestSearch(_, _, _) => r == m
  }

  lemma StepMeans(cfg: Config, size: real, t: Spec.Tree, c: Call)
    requires Spec.NthOk(cfg.nth) && size > 0.0 && Sound(cfg, t) && t.Node?
    ensures Means(size, c, Live(t), Live(Step(cfg, size, t, c)))
  {
    if c.AddPoints? || c.DeletePointBoxes? { ChangeMeans(cfg, size, t, c); } else { SearchMeans(cfg, size, t, c); }
  }

  lemma ChangeMeans(cfg: Config, size: real, t: Spec.Tree, c: Call)
    requires Spec.NthOk(cfg.nth) && size > 0.0 && Sound(cfg, t) && t.Node? && (c.AddPoints? || c.DeletePointBoxes?)
    ensures Means(size, c, Live(t), Live(Step(cfg, size, t, c)))
  {
    SoundInv(cfg, t);
    hide Sound, Inv, Live, SlotsSettled, Cleared, AddBatch, AddPlain, DeleteBoxes;
    if c.AddPoints? && c.downsample {
      forall i, j, k
        ensures SlotsSettled(size, c.batch, i, j, k, Live(t), Live(AddBatch(cfg, size, t, c.batch, true)))
      {
        AddBatchExact(cfg, size, t, c.batch, true, i, j, k);
      }
    }
  }

  /** A search of any kind moves, adds and deletes nothing. */
  lemma SearchMeans(cfg: Config, size: real, t: Spec.Tree, c: Call)
    requires Spec.NthOk(cfg.nth) && size > 0.0 && Sound(cfg, t) && t.Node? && !c.AddPoints? && !c.DeletePointBoxes?
    ensures Means(size, c, Live(t), Live(Step(cfg, size, t, c)))
  {
    hide Sound, Inv, Live, SearchNearest, SearchByRadius, Spec.SearchByRange;
    match c
    case BoxSearch(box) => SearchSound(cfg, t, box);
    case RadiusSearch(sqrt, point, radius) => RadiusSound(sqrt, cfg, t, point, radius);
    case NearestSearch(point, k_nearest, limit) => NearestSound(cfg, t, k_nearest, point, limit);
  }

  lemma StepIs(cfg: Config, size: real, t: Spec.Tree, c: Call)
    requires Spec.NthOk(cfg.nth) && size > 0.0 && Sound(cfg, t) && t.Node?
    ensures Inv(t)
    ensures c.AddPoints? ==> Step(cfg, size, t, c) == if c.downsample then AddBatch(cfg, size, t, c.batch, true)
      else AddPlain(cfg, t, c.batch)
  {
    SoundInv(cfg, t);
    hide Sound, Inv, AddBatch, AddPlain;
  }

  lemma BatchOfNone(cfg: Config, size: real, t: Spec.Tree)
    requires Spec.NthOk(cfg.nth) && size > 0.0 && Inv(t) && t.Node?
    ensures AddBatch(cfg, size, t, [], true) == t && Insertions(cfg, size, t, [], true) == 0
  {
  }

  lemma PlainOfNone(cfg: Config, t: Spec.Tree)
    requires Spec.NthOk(cfg.nth) && Sound(cfg, t) && t.Node?
    ensures AddPlain(cfg, t, []) == t
  {
  }

  lemma PlainUnfold(cfg: Config, t: Spec.Tree, batch: seq<Point>)
    requires Spec.NthOk(cfg.nth) && Sound(cfg, t) && t.Node? && batch != []
    ensures var n := |batch| - 1; var u := AddPlain(cfg, t, batch[..n]);
      AddPlain(cfg, t, batch) == Spec.AddByPoint(cfg, u, batch[n], true, u.axis)
  {
    hide Sound, Spec.AddByPoint;
  }

  lemma BoxesOfNone(cfg: Config, t: Spec.Tree)
    requires Spec.NthOk(cfg.nth) && Sound(cfg, t)
    ensures DeleteBoxes(cfg, t, []) == (t, 0)
  {
  }

  lemma BoxesUnfold(cfg: Config, t: Spec.Tree, boxes: seq<Box>)
    requires Spec.NthOk(cfg.nth) && Sound(cfg, t) && boxes != []
    ensures var n := |boxes| - 1; var u := DeleteBoxes(cfg, t, boxes[..n]);
      var d := Spec.DeleteByRange(cfg, u.0, boxes[n], true, false);
      DeleteBoxes(cfg, t, boxes) == (d.0, u.1 + d.1)
  {
    hide BoxesGone, Spec.DeleteByRange;
    BoxesStep(cfg, t, DeleteBoxes(cfg, t, boxes[..|boxes| - 1]), boxes);
  }

  /** The trees of a run: the built tree and the tree after each call. */
  ghost function Run(cfg: Config, size: real, start: seq<Point>, calls: seq<Call>): (v: Spec.Tree)
    requires Spec.NthOk(cfg.nth) && size > 0.0 && |start| > 0
    ensures Sound(cfg, v) && v.Node?
  {
    BuildSound(cfg, start);
    if calls == [] then Spec.BuildTree(cfg.nth, start)
    else Step(cfg, size, Run(cfg, size, start, calls[..|calls| - 1]), calls[|calls| - 1])
  }

  lemma RunUnfold(cfg: Config, size: real, start: seq<Point>, calls: seq<Call>)
    requires Spec.NthOk(cfg.nth) && size > 0.0 && |start| > 0
    ensures calls == [] ==> Run(cfg, size, start, calls) == Spec.BuildTree(cfg.nth, start)
    ensures calls != [] ==>
      Run(cfg, size, start, calls) == Step(cfg, size, Run(cfg, size, start, calls[..|calls| - 1]), calls[|calls| - 1])
  {
  }

  lemma OneAdded(cfg: Config, size: real, t: Spec.Tree, p: Point)
    requires Spec.NthOk(cfg.nth) && size > 0.0 && Sound(cfg, t) && t.Node?
    ensures Step(cfg, size, t, AddPoints([p], false)) == Spec.AddByPoint(cfg, t, p, true, t.axis)
  {
    hide *;
    StepIs(cfg, size, t, AddPoints([p], false));
    PlainUnfold(cfg, t, [p]);
    assert [p][..0] == [];
    PlainOfNone(cfg, t);
  }

  /** Every node counts itself and what is below it, and what downsampling has deleted of that; one
      that is not deleted has a live point, the exact count of them and their exact bounding box. */
  ghost predicate AllExact(t: Spec.Tree) {
    t.Node? ==>
      && t.size == Spec.Count(t) && t.downDel == Labelled(t, false) && (t.treeDown <==> t.downDel == t.size)
      && (!t.treeDeleted ==> Live(t) != multiset{} && t.size - t.invalid == |Live(t)| && Bounding(t.range, Live(t)))
      && AllExact(t.left) && AllExact(t.right)
  }

  lemma {:induction false} InvIsExact(t: Spec.Tree)
    requires Inv(t)
    ensures AllExact(t)
  {
    if t.Node? {
      CountersExact(t);
      LiveOrDeleted(t);
      SizeIsCount(t);
      LabelsExact(t);
      if Spec.Alive(t) { RangeTight(t); }
      InvIsExact(t.left);
      InvIsExact(t.right);
      hide Live, Bounding, Inv, Labelled;
    }
  }

  /** Every run that builds from at least one point keeps a root, keeps each node that is not
      deleted at an exact range and count, and after every call agrees with the plain multiset. */
  lemma {:induction false} RunSafe(cfg: Config, size: real, start: seq<Point>, calls: seq<Call>, i: nat)
    requires Spec.NthOk(cfg.nth) && size > 0.0 && |start| > 0 && i <= |calls|
    ensures var t := Run(cfg, size, start, calls[..i]);
      && t.Node? && 0 <= t.axis < 3
      && AllExact(t) && (t.treeDeleted <==> Live(t) == multiset{}) && t.size - t.invalid == |Live(t)|
      && Ordered(t) && (Regular(cfg) ==> InBalance(cfg, t))
      && (i == 0 ==> Live(t) == multiset(start))
      && (i < |calls| ==> Means(size, calls[i], Live(t), Live(Run(cfg, size, start, calls[..i + 1]))))
  {
    hide Sound, Inv, Live, Bounding, Means, AllExact, Regular, InBalance, Ordered;
    var t := Run(cfg, size, start, calls[..i]);
    RootAxis(cfg, t);
    SoundInv(cfg, t);
    CountersExact(t);
    LiveOrDeleted(t);
    InvIsExact(t);
    BuildSound(cfg, start);
    if i < |calls| {
      assert calls[..i + 1][..i] == calls[..i];
      StepMeans(cfg, size, t, calls[i]);
    }
  }

  /** In every run whose tree stays below the size that the background thread handles: the height is
      logarithmic in the size, and deleted points never take more than their share of it. */
  lemma RunBounds(cfg: Config, size: real, start: seq<Point>, calls: seq<Call>)
    requires Regular(cfg) && cfg.balanceCriterion == 0.6 && size > 0.0 && |start| > 0
    ensures var t := Run(cfg, size, start, calls); var h := Height(t);
      t.size < cfg.inlineLimit ==>
        && (h > 10 ==> Pow(5, h - 10) <= Pow(3, h - 10) * t.size)
        && (t.size > 10 && !t.treeDeleted ==> (1.0 - cfg.deleteCriterion) * (t.size as real) <= |Live(t)| as real)
  {
    hide Inv, Live, Run, Pow;
    var t := Run(cfg, size, start, calls);
    SoundInv(cfg, t);
    CountersExact(t);
    if t.size < cfg.inlineLimit && Height(t) > 10 { HeightBound(LimitsOf(cfg), t); }
    hide Height;
    LiveShare(cfg.deleteCriterion, t.size, t.invalid);
  }

  lemma LiveShare(dead: real, all: int, part: int)
    ensures NoMore(part, dead, all) ==> (1.0 - dead) * (all as real) <= (all - part) as real
  {
    assert (1.0 - dead) * (all as real) == all as real - dead * (all as real);
  }

  class KD_TREE {
    const cfg: Config
    var downsample_size: real
    var Root_Node: KD_TREE_NODE?

    ghost predicate Valid()
      reads this, Root_Node, ReprOf(Root_Node)
    {
      && (Root_Node != null ==> Root_Node.Valid() && this !in Root_Node.Repr)
      && Sound(cfg, ViewOf(Root_Node)) && Spec.NthOk(cfg.nth) && downsample_size > 0.0
    }

    ghost function Footprint(): set<object>
      reads this, Root_Node
    {
      {this} + ReprOf(Root_Node)
    }

    /** The live points. */
    ghost function Contents(): multiset<Point>
      reads this, Root_Node
    {
      Live(ViewOf(Root_Node))
    }

    constructor (cfg: Config, box_length: real)
      requires Spec.NthOk(cfg.nth) && box_length > 0.0
      ensures Valid() && Root_Node == null && Contents() == multiset{} && this.cfg == cfg
    {
      this.cfg := cfg;
      downsample_size := box_length;
      Root_Node := null;
    }

    /** Building from no points leaves the tree without a root. */
    method Build(point_cloud: array<Point>)
      requires Valid() && point_cloud !in Footprint()
      modifies this`Root_Node, point_cloud
      ensures Valid() && Contents() == multiset(old(point_cloud[..])) && (Root_Node != null <==> point_cloud.Length > 0)
      ensures Root_Node != null ==> fresh(Root_Node.Repr)
    {
      hide Sound, Live, Spec.BuildTree, KD_TREE_NODE.Valid;
      ghost var s := point_cloud[..];
      assert point_cloud[0..point_cloud.Length] == s;
      BuildSound(cfg, s);
      BuildSound(cfg, []);
      Root_Node := null;
      if point_cloud.Length == 0 { return; }
      Root_Node := BuildTree(cfg, point_cloud, 0, point_cloud.Length - 1);
    }

    method size() returns (n: int)
      requires Valid()
      ensures n == Spec.Count(ViewOf(Root_Node))
    {
      SizeIsCount(ViewOf(Root_Node));
      n := if Root_Node != null then Root_Node.TreeSize else 0;
    }

    method validnum() returns (n: int)
      requires Valid()
      ensures n == |Contents()|
    {
      CountersExact(ViewOf(Root_Node));
      n := if Root_Node != null then Root_Node.TreeSize - Root_Node.invalid_point_num else 0;
    }

    /** Exactly the live points of the half-open box. */
    method Box_Search(box: Box) returns (storage: seq<Point>)
      requires Valid()
      modifies ReprOf(Root_Node)
      ensures Valid() && Root_Node == old(Root_Node) && Contents() == old(Contents())
      ensures multiset(storage) == Inside(Contents(), box)
    {
      hide Sound, Live, Spec.SearchByRange, KD_TREE_NODE.Valid, Inside;
      SearchSound(cfg, ViewOf(Root_Node), box);
      storage := SearchRoot(box);
    }

    /** Exactly the live points within the radius; with a negative radius, some of those that its square admits. */
    method Radius_Search(sqrt: Root, point: Point, radius: real) returns (storage: seq<Point>)
      requires Valid() && RootOk(sqrt)
      modifies ReprOf(Root_Node)
      ensures Valid() && Root_Node == old(Root_Node) && Contents() == old(Contents())
      ensures if radius >= 0.0 then multiset(storage) == Ball(Contents(), point, radius)
        else multiset(storage) <= Ball(Contents(), point, radius)
      ensures (ViewOf(Root_Node), storage) == SearchByRadius(sqrt, old(ViewOf(Root_Node)), point, radius)
    {
      hide Sound, Live, SearchByRadius, KD_TREE_NODE.Valid, Ball, Spec.NthOk, RootOk;
      ghost var t := ViewOf(Root_Node);
      RadiusSound(sqrt, cfg, t, point, radius);
      storage := Search_by_radius(sqrt, Root_Node, point, radius, []);
      assert [] + SearchByRadius(sqrt, t, point, radius).1 == SearchByRadius(sqrt, t, point, radius).1;
    }

    /** The k nearest live points within max_dist, nearest first, provided that their squared distances differ
        by 1e-10 at least if they differ, or just that no disorderly pair of candidates reaches into the k
        nearest; in any case that many live points within max_dist. */
    method Nearest_Search(point: Point, k_nearest: nat, max_dist: Ext)
      returns (Nearest_Points: seq<Point>, Point_Distance: seq<real>)
      requires Valid() && k_nearest >= 1
      modifies ReprOf(Root_Node)
      ensures Valid() && Root_Node == old(Root_Node) && Contents() == old(Contents())
      ensures |Nearest_Points| == |Point_Distance|
      ensures var found, all := Paired(Nearest_Points, Point_Distance), NearBy(Contents(), point, Squared(max_dist));
        && multiset(found) <= all && |found| == Least(k_nearest, |all|)
        && (Tame(all, k_nearest) ==> Ascending(found) && Nearest(multiset(found), all, k_nearest))
      ensures ListsLive(Nearest_Points, Point_Distance, Contents(), point, max_dist, k_nearest)
      ensures GapsFrom(0.0000000001, Contents(), point, max_dist) ==>
        ListsNearest(Nearest_Points, Point_Distance, Contents(), point, max_dist)
      ensures var s := SearchNearest(old(ViewOf(Root_Node)), k_nearest, point, Squared(max_dist), []);
        ViewOf(Root_Node) == s.0 && Paired(Nearest_Points, Point_Distance) == Listed(s.1)
    {
      hide Sound, Live, KD_TREE_NODE.Valid, IsHeap, NearBy, SearchNearest, Listed, Tame, Nearest, Ascending, Spec.NthOk,
        ListsLive, ListsNearest, GapsFrom;
      ghost var t := ViewOf(Root_Node);
      var q := new MANUAL_HEAP(2 * k_nearest);
      q.clear();
      SoundInv(cfg, t);
      NearestSound(cfg, t, k_nearest, point, Squared(max_dist));
      NearestFound(t, k_nearest, point, Squared(max_dist));
      ExactMeans(Listed(SearchNearest(t, k_nearest, point, Squared(max_dist), []).1),
        NearBy(Live(t), point, Squared(max_dist)), k_nearest);
      Search(Root_Node, k_nearest, point, q, Squared(max_dist));
      Nearest_Points, Point_Distance := Drain(q, k_nearest);
      ListIs(Nearest_Points, Point_Distance, Live(t), point, max_dist, k_nearest);
    }

    /** The search, deletion and insertion of one call, applied to the root pointer. */
    method SearchRoot(box: Box) returns (storage: seq<Point>)
      requires Valid()
      modifies ReprOf(Root_Node)
      ensures Valid() && Root_Node == old(Root_Node) && ReprOf(Root_Node) == old(ReprOf(Root_Node))
      ensures (ViewOf(Root_Node), storage) == Spec.SearchByRange(old(ViewOf(Root_Node)), box)
    {
      hide Sound, Live, Spec.SearchByRange, KD_TREE_NODE.Valid, Spec.NthOk;
      SearchSound(cfg, ViewOf(Root_Node), box);
      storage := Search_by_range(Root_Node, box, []);
      assert [] + Spec.SearchByRange(old(ViewOf(Root_Node)), box).1
        == Spec.SearchByRange(old(ViewOf(Root_Node)), box).1;
    }

    method DeleteRoot(box: Box, isDownsample: bool) returns (n: int)
      requires Valid()
      modifies Footprint()
      ensures Valid() && downsample_size == old(downsample_size) && fresh(Footprint() - old(Footprint()))
      ensures (ViewOf(Root_Node), n) == Spec.DeleteByRange(cfg, old(ViewOf(Root_Node)), box, true, isDownsample)
      ensures Root_Node == null <==> old(Root_Node) == null
    {
      hide Sound, Live, Spec.DeleteByRange, KD_TREE_NODE.Valid, Spec.NthOk;
      RootView();
      DeleteSound(cfg, ViewOf(Root_Node), box, isDownsample);
      Root_Node, n := Delete_by_range(cfg, Root_Node, box, true, isDownsample);
      RootView();
    }

    method AddRoot(point: Point)
      requires Valid() && Root_Node != null
      modifies Footprint()
      ensures Valid() && Root_Node != null && downsample_size == old(downsample_size)
      ensures fresh(Footprint() - old(Footprint()))
      ensures var t := old(ViewOf(Root_Node));
        t.Node? && ViewOf(Root_Node) == Spec.AddByPoint(cfg, t, point, true, t.axis)
    {
      hide Sound, Live, Spec.AddByPoint, KD_TREE_NODE.Valid, Spec.NthOk;
      RootView();
      Root_Node.ValidIsLinked();
      RootAxis(cfg, ViewOf(Root_Node));
      AddSound(cfg, ViewOf(Root_Node), point, ViewOf(Root_Node).axis);
      Root_Node := Add_by_point(cfg, Root_Node, point, true, Root_Node.division_axis);
      RootView();
    }

    /** Inserts one point the way Add_Points does with downsampling on. */
    method Add_Downsampled(point: Point) returns (added: int)
      requires Valid() && Root_Node != null
      modifies Footprint()
      ensures Valid() && Root_Node != null && downsample_size == old(downsample_size)
      ensures fresh(Footprint() - old(Footprint()))
      ensures Inv(old(ViewOf(Root_Node))) && old(ViewOf(Root_Node)).Node? &&
        (ViewOf(Root_Node), added) == AddDownsampled(cfg, downsample_size, old(ViewOf(Root_Node)), point, true)
      ensures 0 <= added <= 1
    {
      hide Inv, Sound, Spec.SearchByRange, Spec.DeleteByRange, Spec.AddByPoint, KD_TREE_NODE.Valid, Spec.NthOk, Voxel,
        Middle, Closest, SamePoint, Dist, AddDownsampled;
      ghost var t := ViewOf(Root_Node);
      ValidRoot();
      SoundInv(cfg, t);
      DownsampledUnfold(cfg, downsample_size, t, point);
      var box := Voxel(downsample_size, point);
      var storage := SearchRoot(box);
      var best := ClosestOf(Middle(box), point, storage);
      if |storage| > 1 || SamePoint(point, best) {
        if |storage| > 0 {
          var n := DeleteRoot(box, true);
        }
        AddRoot(best);
        return 1;
      }
      return 0;
    }

    /** Adds a batch below the root; the counter tells how many insertions downsampling let through. */
    method Add_Points(PointToAdd: seq<Point>, downsample_on: bool) returns (tmp_counter: int)
      requires Valid() && Root_Node != null
      modifies Footprint()
      ensures Valid() && Root_Node != null && downsample_size == old(downsample_size)
      ensures fresh(Footprint() - old(Footprint()))
      ensures Sound(cfg, old(ViewOf(Root_Node))) &&
        ViewOf(Root_Node) == Step(cfg, downsample_size, old(ViewOf(Root_Node)), AddPoints(PointToAdd, downsample_on))
      ensures Means(downsample_size, AddPoints(PointToAdd, downsample_on), old(Contents()), Contents())
      ensures Inv(old(ViewOf(Root_Node))) && old(ViewOf(Root_Node)).Node? && tmp_counter ==
        if downsample_on then Insertions(cfg, downsample_size, old(ViewOf(Root_Node)), PointToAdd, true) else 0
    {
      hide Step, Means, Sound, AddBatch, Insertions, AddPlain, Live, KD_TREE_NODE.Valid, Spec.NthOk, Inv;
      ghost var t := ViewOf(Root_Node);
      assert Sound(cfg, t) && Spec.NthOk(cfg.nth) && downsample_size > 0.0 && t.Node? by { ValidRoot(); }
      if downsample_on {
        tmp_counter := AddAllDownsampled(PointToAdd);
      } else {
        AddAllPlain(PointToAdd);
        tmp_counter := 0;
      }
      StepIs(cfg, downsample_size, t, AddPoints(PointToAdd, downsample_on));
      StepMeans(cfg, downsample_size, t, AddPoints(PointToAdd, downsample_on));
    }

    lemma RootView()
      requires Root_Node != null ==> Root_Node.Valid()
      ensures Root_Node != null <==> ViewOf(Root_Node).Node?
    {
    }

    lemma ValidRoot()
      requires Valid() && Root_Node != null
      ensures Sound(cfg, ViewOf(Root_Node)) && Spec.NthOk(cfg.nth) && downsample_size > 0.0 && ViewOf(Root_Node).Node?
    {
    }

    method AddAllDownsampled(PointToAdd: seq<Point>) returns (tmp_counter: int)
      requires Valid() && Root_Node != null
      modifies Footprint()
      ensures Valid() && Root_Node != null && downsample_size == old(downsample_size)
      ensures fresh(Footprint() - old(Footprint()))
      ensures Inv(old(ViewOf(Root_Node))) && old(ViewOf(Root_Node)).Node? &&
        ViewOf(Root_Node) == AddBatch(cfg, downsample_size, old(ViewOf(Root_Node)), PointToAdd, true)
      ensures tmp_counter == Insertions(cfg, downsample_size, old(ViewOf(Root_Node)), PointToAdd, true)
    {
      hide Sound, Inv, KD_TREE_NODE.Valid, Spec.NthOk, AddDownsampled, AddBatch, Insertions;
      ghost var t := ViewOf(Root_Node);
      ValidRoot();
      SoundInv(cfg, t);
      tmp_counter := 0;
      BatchOfNone(cfg, downsample_size, t);
      for i := 0 to |PointToAdd|
        invariant Valid() && Root_Node != null && downsample_size == old(downsample_size)
        invariant fresh(Footprint() - old(Footprint()))
        invariant ViewOf(Root_Node) == AddBatch(cfg, downsample_size, t, PointToAdd[..i], true)
        invariant tmp_counter == Insertions(cfg, downsample_size, t, PointToAdd[..i], true)
      {
        assert PointToAdd[..i + 1][..i] == PointToAdd[..i];
        BatchUnfold(cfg, downsample_size, t, PointToAdd[..i + 1], true);
        var n := Add_Downsampled(PointToAdd[i]);
        tmp_counter := tmp_counter + n;
      }
      assert PointToAdd[..|PointToAdd|] == PointToAdd;
    }

    method AddAllPlain(PointToAdd: seq<Point>)
      requires Valid() && Root_Node != null
      modifies Footprint()
      ensures Valid() && Root_Node != null && downsample_size == old(downsample_size)
      ensures fresh(Footprint() - old(Footprint()))
      ensures Sound(cfg, old(ViewOf(Root_Node))) && old(ViewOf(Root_Node)).Node? &&
        ViewOf(Root_Node) == AddPlain(cfg, old(ViewOf(Root_Node)), PointToAdd)
    {
      hide Sound, Inv, KD_TREE_NODE.Valid, Spec.NthOk, Spec.AddByPoint, AddPlain;
      ghost var t := ViewOf(Root_Node);
      ValidRoot();
      PlainOfNone(cfg, t);
      for i := 0 to |PointToAdd|
        invariant Valid() && Root_Node != null && downsample_size == old(downsample_size)
        invariant fresh(Footprint() - old(Footprint()))
        invariant ViewOf(Root_Node) == AddPlain(cfg, t, PointToAdd[..i])
      {
        assert PointToAdd[..i + 1][..i] == PointToAdd[..i];
        PlainUnfold(cfg, t, PointToAdd[..i + 1]);
        AddRoot(PointToAdd[i]);
      }
      assert PointToAdd[..|PointToAdd|] == PointToAdd;
    }

    /** Deletes the boxes one after the other; the counter is the number of points that were live. */
    method Delete_Point_Boxes(BoxPoints: seq<Box>) returns (tmp_counter: int)
      requires Valid()
      modifies Footprint()
      ensures Valid() && (Root_Node == null <==> old(Root_Node) == null) && downsample_size == old(downsample_size)
      ensures fresh(Footprint() - old(Footprint()))
      ensures Sound(cfg, old(ViewOf(Root_Node)))
      ensures ViewOf(Root_Node) == DeleteBoxes(cfg, old(ViewOf(Root_Node)), BoxPoints).0
      ensures Cleared(BoxPoints, old(Contents()), Contents()) && tmp_counter == |old(Contents())| - |Contents()|
    {
      hide Sound, Inv, KD_TREE_NODE.Valid, Spec.NthOk, Spec.DeleteByRange, DeleteBoxes, Cleared;
      ghost var t := ViewOf(Root_Node);
      tmp_counter := 0;
      BoxesOfNone(cfg, t);
      for i := 0 to |BoxPoints|
        invariant Valid() && (Root_Node == null <==> old(Root_Node) == null) && downsample_size == old(downsample_size)
        invariant fresh(Footprint() - old(Footprint()))
        invariant (ViewOf(Root_Node), tmp_counter) == DeleteBoxes(cfg, t, BoxPoints[..i])
      {
        assert BoxPoints[..i + 1][..i] == BoxPoints[..i];
        BoxesUnfold(cfg, t, BoxPoints[..i + 1]);
        var n := DeleteRoot(BoxPoints[i], false);
        tmp_counter := tmp_counter + n;
      }
      assert BoxPoints[..|BoxPoints|] == BoxPoints;
    }
  }

  // ---------- what a nearest search lists, in plain numbers ----------

  ghost function SquaredDistance(p: Point, q: Point): real {
    (p.x - q.x) * (p.x - q.x) + (p.y - q.y) * (p.y - q.y) + (p.z - q.z) * (p.z - q.z)
  }

  ghost predicate InReach(p: Point, q: Point, max_dist: Ext) {
    max_dist.Fin? ==> SquaredDistance(p, q) <= max_dist.v * max_dist.v
  }

  /** Points in reach at different distances differ by the gap at least. */
  ghost predicate GapsFrom(gap: real, m: multiset<Point>, q: Point, max_dist: Ext) {
    forall p, r :: p in m && r in m && InReach(p, q, max_dist) && InReach(r, q, max_dist) ==>
      SquaredDistance(p, q) >= SquaredDistance(r, q) || SquaredDistance(r, q) - SquaredDistance(p, q) >= gap
  }

  /** At most k live points in reach with their distances; fewer only if they are all there are. */
  ghost predicate ListsLive(points: seq<Point>, dists: seq<real>, m: multiset<Point>, q: Point, max_dist: Ext, k: nat) {
    && multiset(points) <= m && |points| == |dists| <= k
    && (forall i :: 0 <= i < |points| ==> InReach(points[i], q, max_dist) && dists[i] == SquaredDistance(points[i], q))
    && (|points| < k ==> forall p :: p in m && InReach(p, q, max_dist) ==> multiset(points)[p] == m[p])
  }

  /** Nearest first, and nothing in reach that is left out is nearer than anything listed. */
  ghost predicate ListsNearest(points: seq<Point>, dists: seq<real>, m: multiset<Point>, q: Point, max_dist: Ext) {
    && |points| == |dists| && (forall i, j :: 0 <= i < j < |dists| ==> dists[i] <= dists[j])
    && forall i, p :: 0 <= i < |points| && InReach(p, q, max_dist) && multiset(points)[p] < m[p] ==>
         dists[i] <= SquaredDistance(p, q)
  }

  lemma ReachIs(p: Point, q: Point, max_dist: Ext)
    ensures SquaredDistance(p, q) == Dist(q, p)
    ensures InReach(p, q, max_dist) <==> Within(Dist(q, p), Squared(max_dist))
  {
  }

  lemma {:induction false} PairedCount(points: seq<Point>, dists: seq<real>, p: Point, d: real)
    requires |points| == |dists| && forall i :: 0 <= i < |points| && points[i] == p ==> dists[i] == d
    ensures multiset(Paired(points, dists))[Cand(p, d)] == multiset(points)[p]
    decreases |points|
  {
    if points == [] {
      PairedNone();
    } else {
      assert points == [points[0]] + points[1..] && dists == [dists[0]] + dists[1..];
      PairedCons(Cand(points[0], dists[0]), points[1..], dists[1..]);
      PairedCount(points[1..], dists[1..], p, d);
    }
  }

  /** A list of candidates near by is a list of live points in reach. */
  lemma NearByLists(points: seq<Point>, dists: seq<real>, m: multiset<Point>, q: Point, max_dist: Ext, k: nat)
    requires |points| == |dists|
    requires var found, all := Paired(points, dists), NearBy(m, q, Squared(max_dist));
      multiset(found) <= all && |found| == Least(k, |all|)
    ensures ListsLive(points, dists, m, q, max_dist, k)
    ensures forall p :: InReach(p, q, max_dist) ==>
      && multiset(Paired(points, dists))[Cand(p, SquaredDistance(p, q))] == multiset(points)[p]
      && NearBy(m, q, Squared(max_dist))[Cand(p, SquaredDistance(p, q))] == m[p]
  {
    hide Dist, InReach, SquaredDistance, Squared;
    var found, all := Paired(points, dists), NearBy(m, q, Squared(max_dist));
    forall i | 0 <= i < |points|
      ensures InReach(points[i], q, max_dist) && dists[i] == SquaredDistance(points[i], q)
    {
      assert found[i] in multiset(found) && found[i] in all;
      ReachIs(points[i], q, max_dist);
    }
    forall p
      ensures multiset(found)[Cand(p, SquaredDistance(p, q))] == multiset(points)[p]
      ensures InReach(p, q, max_dist) ==> all[Cand(p, SquaredDistance(p, q))] == m[p]
    {
      PairedCount(points, dists, p, SquaredDistance(p, q));
      ReachIs(p, q, max_dist);
    }
    forall p ensures multiset(points)[p] <= m[p] { if p in multiset(points) { assert InReach(p, q, max_dist); } }
    SizeOfHeld(found);
    if |points| < k { NoneLeftOut(multiset(found), all); }
  }

  lemma ListIs(points: seq<Point>, dists: seq<real>, m: multiset<Point>, q: Point, max_dist: Ext, k: nat)
    requires |points| == |dists|
    requires var found, all := Paired(points, dists), NearBy(m, q, Squared(max_dist));
      multiset(found) <= all && |found| == Least(k, |all|) && (Tame(all, k) ==> Exact(found, all, k))
    ensures ListsLive(points, dists, m, q, max_dist, k)
    ensures GapsFrom(0.0000000001, m, q, max_dist) ==> ListsNearest(points, dists, m, q, max_dist)
  {
    var found, all := Paired(points, dists), NearBy(m, q, Squared(max_dist));
    NearByLists(points, dists, m, q, max_dist, k);
    hide Dist, InReach, SquaredDistance, Squared, Tame, ListsLive;
    if GapsFrom(0.0000000001, m, q, max_dist) {
      forall a, b | a in all && b in all && a.dist < b.dist ensures b.dist - a.dist >= 0.0000000001 {
        ReachIs(a.item, q, max_dist);
        ReachIs(b.item, q, max_dist);
      }
      ApartIsTame(all, k);
      NearestLists(points, dists, m, q, max_dist, k);
    }
  }

  lemma NearestLists(points: seq<Point>, dists: seq<real>, m: multiset<Point>, q: Point, max_dist: Ext, k: nat)
    requires |points| == |dists| && Exact(Paired(points, dists), NearBy(m, q, Squared(max_dist)), k)
    ensures ListsNearest(points, dists, m, q, max_dist)
  {
    hide Dist, InReach, SquaredDistance, Squared;
    var found, all := Paired(points, dists), NearBy(m, q, Squared(max_dist));
    NearByLists(points, dists, m, q, max_dist, k);
    forall i, j | 0 <= i < j < |dists| ensures dists[i] <= dists[j] { assert found[i].dist <= found[j].dist; }
    forall i, p | 0 <= i < |points| && InReach(p, q, max_dist) && multiset(points)[p] < m[p]
      ensures dists[i] <= SquaredDistance(p, q)
    {
      assert Cand(p, SquaredDistance(p, q)) in all - multiset(found);
      assert found[i] in multiset(found);
    }
  }

  lemma ExactMeans(r: seq<Candidate>, all: multiset<Candidate>, k: nat)
    ensures Exact(r, all, k) <==> Ascending(r) && Nearest(multiset(r), all, k)
  {
  }

  /** The scan for the point closest to the voxel's centre; the new point wins ties. */
  method ClosestOf(mid: Point, point: Point, storage: seq<Point>) returns (best: Point)
    ensures best == Closest(mid, point, storage)
  {
    hide Dist;
    var min_dist := Dist(point, mid);
    best := point;
    var index := 0;
    while index < |storage|
      invariant 0 <= index <= |storage| && min_dist == Dist(best, mid)
      invariant Closest(mid, best, storage[index..]) == Closest(mid, point, storage)
    {
      var tmp_dist := Dist(storage[index], mid);
      assert storage[index..][1..] == storage[index + 1..];
      if tmp_dist < min_dist {
        min_dist, best := tmp_dist, storage[index];
      }
      index := index + 1;
    }
  }

  function Paired(points: seq<Point>, dists: seq<real>): (r: seq<Candidate>)
    requires |points| == |dists|
  {
    seq(|points|, i requires 0 <= i < |points| => Cand(points[i], dists[i]))
  }

  /** Takes k_found times the top off the heap, putting each candidate before the ones already taken. */
  method Drain(q: MANUAL_HEAP, k_nearest: nat) returns (points: seq<Point>, dists: seq<real>)
    requires q.Valid() && |q.Elements()| <= k_nearest
    modifies q, q.heap
    ensures |points| == |dists| && Paired(points, dists) == Listed(old(q.Elements()))
  {
    hide *;
    var n := q.size();
    var k_found := if k_nearest <= n then k_nearest else n;
    points, dists := [], [];
    ghost var all := q.Elements();
    PairedNone();
    assert Listed(all) == Listed(all) + [];
    for i := 0 to k_found
      invariant q.Valid() && q.heap == old(q.heap) && |points| == |dists| == i && |q.Elements()| == n - i
      invariant Listed(all) == Listed(q.Elements()) + Paired(points, dists)
    {
      ghost var s, taken := q.Elements(), Paired(points, dists);
      ListedUnfold(s);
      var w := q.top();
      q.pop();
      PairedCons(w, points, dists);
      points, dists := [w.item] + points, [w.dist] + dists;
      assert Listed(all) == Listed(q.Elements()) + ([w] + taken);
    }
    ListedNone(q.Elements());
  }

  lemma PairedNone()
    ensures Paired([], []) == []
  {
  }

  lemma ListedNone(s: seq<Candidate>)
    requires |s| == 0
    ensures Listed(s) == []
  {
  }

  lemma PairedCons(w: Candidate, points: seq<Point>, dists: seq<real>)
    requires |points| == |dists|
    ensures Paired([w.item] + points, [w.dist] + dists) == [w] + Paired(points, dists)
  {
    var r := Paired([w.item] + points, [w.dist] + dists);
    assert |r| == 1 + |points| && r[0] == w;
    forall i | 0 <= i < |points| ensures r[i + 1] == Paired(points, dists)[i] {
    }
  }
}
