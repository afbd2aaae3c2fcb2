/** Every operation of the ikd-Tree keeps the invariant and does to the live multiset exactly what
    its name says. */
module IkdOperations {
  import opened Geometry
  import opened IkdTree
  import opened IkdInvariant

  // ---------- flatten and rebuild ----------

  /** flatten yields the live points, and the tree it leaves behind is still good and the same. */
  lemma {:induction false} FlattenLive(t: Tree)
    requires Inv(t)
    ensures multiset(Flatten(t)) == Live(t)
    decreases Count(t)
  {
    if t.Node? {
      var u := PushDown(t);
      PushDownKeeps(t);
      LiveSplits(u);
      hide PushDown;
      FlattenLive(u.left);
      FlattenLive(u.right);
    }
  }

  /** Two subtrees a parent cannot tell apart. */
  ghost predicate Alike(a: Tree, b: Tree) {
    && Live(a) == Live(b) && a.Node? == b.Node?
    && (a.Node? ==> a.treeDeleted == b.treeDeleted && a.range == b.range && a.size == b.size && a.invalid == b.invalid)
    && (a.Node? ==> a.treeDown == b.treeDown && a.downDel == b.downDel)
  }

  lemma {:induction false} PushedKeeps(t: Tree)
    requires Inv(t)
    ensures Inv(Pushed(t)) && Alike(t, Pushed(t))
    decreases Count(t)
  {
    if t.Node? {
      var u := PushDown(t);
      PushDownKeeps(t);
      Halves(t, u);
      assert Pushed(t) == u.(left := Pushed(u.left), right := Pushed(u.right));
      assert Alike(t, u);
      PushedKeeps(u.left);
      PushedKeeps(u.right);
      hide PushDown, Pushed, Inv, Settled, Alike;
      ReplaceChildren(u, Pushed(u.left), Pushed(u.right));
      AlikeTrans(t, u, u.(left := Pushed(u.left), right := Pushed(u.right)));
    }
  }

  lemma AlikeTrans(t: Tree, u: Tree, v: Tree)
    ensures Alike(t, u) && Alike(u, v) ==> Alike(t, v)
  {
  }

  lemma ReplaceChildren(u: Tree, l: Tree, r: Tree)
    requires u.Node? && Inv(u) && Settled(u) && Inv(l) && Inv(r) && Alike(u.left, l) && Alike(u.right, r)
    ensures var v := u.(left := l, right := r); Inv(v) && Settled(v) && Live(v) == Live(u) && Alike(u, v)
  {
    var v := u.(left := l, right := r);
    assert LiveHull(l, r, u.point, u.pointDeleted) == LiveHull(u.left, u.right, u.point, u.pointDeleted);
    assert NodeOk(v);
    LiveSplits(u);
    LiveSplits(v);
  }

  lemma SplitAt(o: seq<Point>, mid: nat, s: seq<Point>)
    requires mid < |o| && multiset(o) == multiset(s)
    ensures multiset(s) == multiset{o[mid]} + multiset(o[..mid]) + multiset(o[mid + 1..])
  {
    assert o == o[..mid] + [o[mid]] + o[mid + 1..];
  }

  ghost predicate Built(t: Tree, s: seq<Point>) {
    Inv(t) && Live(t) == multiset(s) && SizeOf(t) == |s| && InvalidOf(t) == 0 && (t.Node? ==> !t.treeDeleted)
  }

  lemma BuiltJoin(p: Point, axis: int, l: Tree, r: Tree, sl: seq<Point>, sr: seq<Point>)
    requires 0 <= axis < 3 && Built(l, sl) && Built(r, sr)
    ensures var t := Update(NewNode(p, axis, l, r));
      Inv(t) && Live(t) == multiset{p} + multiset(sl) + multiset(sr) && SizeOf(t) == |sl| + |sr| + 1
        && InvalidOf(t) == 0 && !t.treeDeleted
  {
    UpdateKeeps(NewNode(p, axis, l, r));
  }

  /** A built tree holds exactly its input; nothing in it is deleted. */
  lemma {:induction false} BuildExact(nth: NthElement, s: seq<Point>)
    requires NthOk(nth)
    ensures Built(BuildTree(nth, s), s)
    decreases |s|
  {
    if |s| > 0 {
      var mid, axis := (|s| - 1) / 2, LongestAxis(Bounds(s));
      assert IsNth(s, mid, axis, nth(s, mid, axis));
      var o := nth(s, mid, axis);
      SplitAt(o, mid, s);
      BuildExact(nth, o[..mid]);
      BuildExact(nth, o[mid + 1..]);
      hide Update, NewNode, Inv, Live, Bounds;
      BuiltJoin(o[mid], axis, BuildTree(nth, o[..mid]), BuildTree(nth, o[mid + 1..]), o[..mid], o[mid + 1..]);
    }
  }

  /** Settle (the criterion check and the rebuild it may trigger) changes no live point, and leaves
      a tree wherever there was a live one. */
  lemma SettleExact(cfg: Config, t: Tree, allowRebuild: bool)
    requires t.Node? && NthOk(cfg.nth) && Inv(t)
    ensures var v := Settle(cfg, t, allowRebuild); Inv(v) && Live(v) == Live(t) && (Alive(t) ==> Alive(v))
  {
    var s := Flatten(t);
    FlattenLive(t);
    BuildExact(cfg.nth, s);
    LiveOrDeleted(t);
    LiveOrDeleted(Settle(cfg, t, allowRebuild));
  }

  // ---------- deletion ----------

  lemma OutsideSum(a: multiset<Point>, b: multiset<Point>, box: Box)
    ensures Outside(a + b, box) == Outside(a, box) + Outside(b, box)
  {
  }

  /** A box that does not cover a live node's range leaves one of its live points alone. */
  lemma UncoveredSurvivor(r: Box, m: multiset<Point>, b: Box)
    requires Bounding(r, m) && !Covers(b, r)
    ensures Outside(m, b) != multiset{}
  {
    var f := if b.x0 > r.x0 then 0 else if b.x1 <= r.x1 then 1 else if b.y0 > r.y0 then 2
             else if b.y1 <= r.y1 then 3 else if b.z0 > r.z0 then 4 else 5;
    assert Touches(m, r, f);
    var p :| p in m && OnFace(r, f, p);
    assert InRange(r, p);
    assert p in Outside(m, b);
  }

  lemma MissedBox(r: Box, m: multiset<Point>, b: Box)
    requires Bounding(r, m) && Misses(b, r)
    ensures Outside(m, b) == m
  {
    forall p | p in m ensures !InBox(b, p) {
      assert InRange(r, p);
    }
  }

  lemma CoveredBox(r: Box, m: multiset<Point>, b: Box)
    requires Bounding(r, m) && Covers(b, r)
    ensures Outside(m, b) == multiset{}
  {
    forall p | p in m ensures InBox(b, p) {
      assert InRange(r, p);
    }
  }

  predicate NonEmpty(r: Box) { r.x0 <= r.x1 && r.y0 <= r.y1 && r.z0 <= r.z1 }

  /** The early-return tests are exact: they are true of a range exactly if the box has no point of it, or all. */
  lemma BoxTestsExact(b: Box, r: Box)
    requires NonEmpty(r)
    ensures b.x0 < b.x1 && b.y0 < b.y1 && b.z0 < b.z1 ==>
      (Misses(b, r) <==> forall p: Point :: InRange(r, p) ==> !InBox(b, p))
    ensures Covers(b, r) <==> forall p: Point :: InRange(r, p) ==> InBox(b, p)
  {
    var both := Point(Max(b.x0, r.x0), Max(b.y0, r.y0), Max(b.z0, r.z0), 0);
    if b.x0 < b.x1 && b.y0 < b.y1 && b.z0 < b.z1 && !Misses(b, r) { assert InRange(r, both) && InBox(b, both); }
    assert InRange(r, Point(r.x0, r.y0, r.z0, 0)) && InRange(r, Point(r.x1, r.y1, r.z1, 0));
  }

  lemma MarkDeletedKeeps(u: Tree, isDownsample: bool)
    requires Alive(u) && Inv(u)
    ensures var v := MarkDeleted(u, isDownsample); Inv(v) && Live(v) == multiset{} && v.Node?
  {
  }

  lemma DeletePointExact(u: Tree, b: Box, hit: bool, isDownsample: bool, l: Tree, r: Tree)
    requires Alive(u) && Inv(u) && Settled(u) && !Covers(b, u.range) && hit == (!u.pointDeleted && InBox(b, u.point))
    requires Inv(l) && Live(l) == Outside(Live(u.left), b) && (u.left.Node? <==> l.Node?)
    requires Inv(r) && Live(r) == Outside(Live(u.right), b) && (u.right.Node? <==> r.Node?)
    ensures var v := DeletePoint(u, hit, isDownsample, l, r);
      Inv(v) && Alive(v) && Live(v) == Outside(Live(u), b)
    ensures |Live(u)| - |Outside(Live(u), b)| == Unit(hit) + |Live(u.left)| - |Live(l)| + |Live(u.right)| - |Live(r)|
  {
    hide *;
    AliveNode(u);
    var w := u.(pointDeleted := u.pointDeleted || hit, pointDown := u.pointDown || (hit && isDownsample), left := l,
      right := r);
    DeletePointUpdates(u, hit, isDownsample, l, r);
    OwnDeleted(u, b, hit, w);
    LiveSplits(u);
    OutsideThree(Own(u), Live(u.left), Live(u.right), b);
    RangeTight(u);
    UncoveredSurvivor(u.range, Live(u), b);
  }

  lemma AliveNode(u: Tree)
    requires Alive(u)
    ensures u.Node? && SizeOf(u) == u.size
  {
  }

  lemma DeletePointUpdates(u: Tree, hit: bool, isDownsample: bool, l: Tree, r: Tree)
    requires u.Node? && Inv(u) && Settled(u) && Inv(l) && Inv(r) && (u.left.Node? <==> l.Node?)
    requires u.right.Node? <==> r.Node?
    ensures var v := DeletePoint(u, hit, isDownsample, l, r);
      var w := u.(pointDeleted := u.pointDeleted || hit, pointDown := u.pointDown || (hit && isDownsample), left := l,
        right := r);
      Inv(v) && Live(v) == Own(w) + Live(l) + Live(r) && (Live(v) != multiset{} ==> Alive(v))
  {
    var w := u.(pointDeleted := u.pointDeleted || hit, pointDown := u.pointDown || (hit && isDownsample), left := l,
      right := r);
    UpdateKeeps(w);
    hide Live, Own;
  }

  lemma OutsideThree(a: multiset<Point>, l: multiset<Point>, r: multiset<Point>, b: Box)
    ensures Outside(a + l + r, b) == Outside(a, b) + Outside(l, b) + Outside(r, b)
    ensures |a + l + r| - |Outside(a + l + r, b)| == |a| - |Outside(a, b)| + |l| - |Outside(l, b)|
      + |r| - |Outside(r, b)|
  {
    OutsideSum(a + l, r, b);
    OutsideSum(a, l, b);
    hide Outside;
  }

  lemma OwnDeleted(u: Tree, b: Box, hit: bool, w: Tree)
    requires u.Node? && hit == (!u.pointDeleted && InBox(b, u.point))
    requires w.Node? && w.point == u.point && w.pointDeleted == (u.pointDeleted || hit)
    ensures Own(w) == Outside(Own(u), b) && |Own(u)| - |Own(w)| == Unit(hit)
  {
  }

  lemma DeleteUnfold(cfg: Config, t: Tree, b: Box, allowRebuild: bool, isDownsample: bool)
    requires NthOk(cfg.nth) && Alive(t)
    ensures var u, d := PushDown(t), DeleteByRange(cfg, t, b, allowRebuild, isDownsample);
      var (l, nl) := DeleteByRange(cfg, u.left, b, allowRebuild, isDownsample);
      var (r, nr) := DeleteByRange(cfg, u.right, b, allowRebuild, isDownsample);
      var hit := !u.pointDeleted && InBox(b, u.point);
      d == if Misses(b, u.range) then (u, 0)
           else if Covers(b, u.range) then (MarkDeleted(u, isDownsample), u.size - u.invalid)
           else (Settle(cfg, DeletePoint(u, hit, isDownsample, l, r), allowRebuild), Unit(hit) + nl + nr)
  {
    hide PushDown, Settle, DeletePoint, MarkDeleted, Misses, Covers, InBox;
  }

  ghost predicate Deleted(t: Tree, b: Box, d: (Tree, int)) {
    Inv(d.0) && Live(d.0) == Outside(Live(t), b) && d.1 == |Live(t)| - |Live(d.0)| && (t.Node? <==> d.0.Node?)
  }

  /** Delete_by_range removes exactly the live points of the half-open box and returns their
      number; a tree that had a node keeps one, so the root pointer never becomes null. */
  lemma {:induction false} DeleteExact(cfg: Config, t: Tree, b: Box, allowRebuild: bool, isDownsample: bool)
    requires NthOk(cfg.nth) && Inv(t)
    ensures Deleted(t, b, DeleteByRange(cfg, t, b, allowRebuild, isDownsample))
    decreases Count(t), 1
  {
    if Alive(t) {
      DeleteLive(cfg, t, b, allowRebuild, isDownsample);
    }
  }

  lemma DeleteMarked(t: Tree, u: Tree, b: Box, isDownsample: bool)
    requires Alive(u) && Inv(u) && Live(t) == Live(u) && t.Node?
    ensures Misses(b, u.range) ==> Deleted(t, b, (u, 0))
    ensures Covers(b, u.range) ==> Deleted(t, b, (MarkDeleted(u, isDownsample), u.size - u.invalid))
  {
    RangeTight(u);
    CountersExact(u);
    if Misses(b, u.range) { MissedBox(u.range, Live(u), b); }
    if Covers(b, u.range) { CoveredBox(u.range, Live(u), b); MarkDeletedKeeps(u, isDownsample); }
  }

  lemma {:induction false} DeleteLive(cfg: Config, t: Tree, b: Box, allowRebuild: bool, isDownsample: bool)
    requires NthOk(cfg.nth) && Inv(t) && Alive(t)
    ensures Deleted(t, b, DeleteByRange(cfg, t, b, allowRebuild, isDownsample))
    decreases Count(t), 0
  {
    hide *;
    AliveNode(t);
    var u := PushDown(t);
    PushDownKeeps(t);
    StillAlive(t, u);
    DeleteMarked(t, u, b, isDownsample);
    DeleteUnfold(cfg, t, b, allowRebuild, isDownsample);
    if !Misses(b, u.range) && !Covers(b, u.range) {
      var hit := !u.pointDeleted && InBox(b, u.point);
      Halves(t, u);
      DeleteExact(cfg, u.left, b, allowRebuild, isDownsample);
      DeleteExact(cfg, u.right, b, allowRebuild, isDownsample);
      var l := DeleteByRange(cfg, u.left, b, allowRebuild, isDownsample);
      var r := DeleteByRange(cfg, u.right, b, allowRebuild, isDownsample);
      DeleteJoin(cfg, t, u, b, hit, isDownsample, l, r, allowRebuild);
    }
  }

  lemma StillAlive(t: Tree, u: Tree)
    requires Alive(t) && u.Node? && u.treeDeleted == t.treeDeleted
    ensures Alive(u)
  {
  }

  lemma Halves(t: Tree, u: Tree)
    requires t.Node? && Inv(t) && u == PushDown(t) && Inv(u)
    ensures Inv(u.left) && Inv(u.right) && Count(u.left) < Count(t) && Count(u.right) < Count(t) && 0 <= u.axis < 3
  {
  }

  /** What a deletion adds to the labels of downsampling, as long as nothing is rebuilt. */
  ghost predicate Labels(t: Tree, isDownsample: bool, d: (Tree, int)) {
    SizeOf(d.0) == SizeOf(t) && if isDownsample then DownOf(d.0) >= DownOf(t) + d.1 else DownOf(d.0) == DownOf(t)
  }

  /** A plain deletion labels no node. One for downsampling labels all that it deletes, and nothing more if
      all that was deleted before had been labelled. */
  lemma DeleteLabels(cfg: Config, t: Tree, b: Box)
    requires NthOk(cfg.nth) && Inv(t)
    ensures DownOf(DeleteByRange(cfg, t, b, false, false).0) == DownOf(t)
    ensures var (v, n) := DeleteByRange(cfg, t, b, false, true);
      DownOf(v) >= DownOf(t) + n && (InvalidOf(t) == DownOf(t) ==> DownOf(v) == DownOf(t) + n)
  {
    hide *;
    DeleteTells(cfg, t, b, false);
    DeleteTells(cfg, t, b, true);
    DeleteExact(cfg, t, b, false, true);
    LabelsMean(t, false, DeleteByRange(cfg, t, b, false, false), b);
    LabelsMean(t, true, DeleteByRange(cfg, t, b, false, true), b);
  }

  lemma LabelsMean(t: Tree, isDownsample: bool, d: (Tree, int), b: Box)
    requires Inv(t) && Labels(t, isDownsample, d)
    ensures !isDownsample ==> DownOf(d.0) == DownOf(t)
    ensures isDownsample ==> DownOf(d.0) >= DownOf(t) + d.1
    ensures isDownsample && Deleted(t, b, d) && InvalidOf(t) == DownOf(t) ==> DownOf(d.0) == DownOf(t) + d.1
  {
    CountersExact(t);
    if Deleted(t, b, d) {
      CountersExact(d.0);
      LabelsExact(d.0);
    }
    hide Live, Inv, Outside;
  }

  lemma {:induction false} DeleteTells(cfg: Config, t: Tree, b: Box, isDownsample: bool)
    requires NthOk(cfg.nth) && Inv(t)
    ensures Labels(t, isDownsample, DeleteByRange(cfg, t, b, false, isDownsample))
    decreases Count(t), 1
  {
    if Alive(t) { DeleteLiveTells(cfg, t, b, isDownsample); }
  }

  lemma {:induction false} DeleteLiveTells(cfg: Config, t: Tree, b: Box, isDownsample: bool)
    requires NthOk(cfg.nth) && Inv(t) && Alive(t)
    ensures Labels(t, isDownsample, DeleteByRange(cfg, t, b, false, isDownsample))
    decreases Count(t), 0
  {
    hide *;
    AliveNode(t);
    var u := PushDown(t);
    PushDownKeeps(t);
    Halves(t, u);
    DeleteUnfold(cfg, t, b, false, isDownsample);
    DeleteTells(cfg, u.left, b, isDownsample);
    DeleteTells(cfg, u.right, b, isDownsample);
    var l := DeleteByRange(cfg, u.left, b, false, isDownsample);
    var r := DeleteByRange(cfg, u.right, b, false, isDownsample);
    MarkTells(t, u, isDownsample);
    PointTells(cfg, t, u, !u.pointDeleted && InBox(b, u.point), isDownsample, l, r);
  }

  lemma MarkTells(t: Tree, u: Tree, isDownsample: bool)
    requires Alive(t) && Inv(u) && u.Node? && u.size == t.size && u.downDel == t.downDel
    ensures Labels(t, isDownsample, (u, 0))
    ensures Labels(t, isDownsample, (MarkDeleted(u, isDownsample), u.size - u.invalid))
  {
    LabelsExact(u);
    hide Inv;
  }

  /** The sums at a node that is not deleted as a whole. */
  lemma NodeSums(u: Tree)
    requires Alive(u) && Inv(u)
    ensures u.downDel == DownOf(u.left) + DownOf(u.right) + Unit(u.pointDown) && (u.pointDown ==> u.pointDeleted)
    ensures u.size == SizeOf(u.left) + SizeOf(u.right) + 1
  {
  }

  lemma PointTells(cfg: Config, t: Tree, u: Tree, hit: bool, isDownsample: bool, l: (Tree, int), r: (Tree, int))
    requires NthOk(cfg.nth) && Alive(t) && u.Node? && Inv(u) && u.size == t.size && u.downDel == t.downDel
    requires u.treeDeleted == t.treeDeleted && (hit ==> !u.pointDeleted) && Labels(u.left, isDownsample, l)
    requires Labels(u.right, isDownsample, r)
    ensures
      Labels(t, isDownsample, (Settle(cfg, DeletePoint(u, hit, isDownsample, l.0, r.0), false), Unit(hit) + l.1 + r.1))
  {
    NodeSums(u);
    hide UpdateRange, Inv;
  }

  lemma DeleteJoin(cfg: Config, t: Tree, u: Tree, b: Box, hit: bool, isDownsample: bool, l: (Tree, int), r: (Tree, int),
                   allowRebuild: bool)
    requires NthOk(cfg.nth) && t.Node? && Live(t) == Live(u)
    requires Alive(u) && Inv(u) && Settled(u) && !Covers(b, u.range) && hit == (!u.pointDeleted && InBox(b, u.point))
    requires Deleted(u.left, b, l) && Deleted(u.right, b, r)
    ensures Deleted(t, b,
      (Settle(cfg, DeletePoint(u, hit, isDownsample, l.0, r.0), allowRebuild), Unit(hit) + l.1 + r.1))
  {
    DeletePointExact(u, b, hit, isDownsample, l.0, r.0);
    SettleDeleted(cfg, t, b, DeletePoint(u, hit, isDownsample, l.0, r.0), Unit(hit) + l.1 + r.1, allowRebuild);
  }

  lemma SettleDeleted(cfg: Config, t: Tree, b: Box, v: Tree, n: int, allowRebuild: bool)
    requires NthOk(cfg.nth) && t.Node? && Inv(v) && Alive(v) && Live(v) == Outside(Live(t), b)
    requires n == |Live(t)| - |Live(v)|
    ensures Deleted(t, b, (Settle(cfg, v, allowRebuild), n))
  {
    hide Settle, Inv, Live;
    SettleExact(cfg, v, allowRebuild);
  }

  // ---------- insertion ----------

  lemma AddUnfold(cfg: Config, t: Tree, p: Point, allowRebuild: bool, fatherAxis: int)
    requires NthOk(cfg.nth) && t.Node?
    ensures var u := PushDown(t);
      AddByPoint(cfg, t, p, allowRebuild, fatherAxis) ==
      Settle(cfg, Update(if GoesLeft(u, p) then u.(left := AddByPoint(cfg, u.left, p, allowRebuild, u.axis))
                         else u.(right := AddByPoint(cfg, u.right, p, allowRebuild, u.axis))), allowRebuild)
  {
    hide PushDown, Settle, Update, GoesLeft;
  }

  /** Replacing one child of a settled node by one with one more live point. */
  lemma AddChildExact(u: Tree, isLeft: bool, c: Tree, p: Point)
    requires u.Node? && Inv(u) && Settled(u) && Inv(c)
    requires var was := if isLeft then u.left else u.right;
      Live(c) == Live(was) + multiset{p} && (was.Nil? ==> FreshLeaf(c))
    ensures var v := Update(if isLeft then u.(left := c) else u.(right := c));
      Inv(v) && Live(v) == Live(u) + multiset{p}
  {
    var v := if isLeft then u.(left := c) else u.(right := c);
    LiveSplits(u);
    assert Inv(u.left) && Inv(u.right) && 0 <= u.axis < 3 && (u.pointDown ==> u.pointDeleted);
    AddSum(Own(u), Live(u.left), Live(u.right), p);
    assert Own(v) == Own(u);
    hide *;
    UpdateKeeps(v);
  }

  lemma AddSum(o: multiset<Point>, a: multiset<Point>, b: multiset<Point>, p: Point)
    ensures o + (a + multiset{p}) + b == o + a + b + multiset{p} && o + a + (b + multiset{p}) == o + a + b + multiset{p}
  {
  }

  ghost predicate Added(t: Tree, p: Point, v: Tree) {
    Inv(v) && Live(v) == Live(t) + multiset{p} && v.Node? && (t.Nil? ==> FreshLeaf(v))
  }

  /** Add_by_point adds exactly one live point. */
  lemma {:induction false} AddExact(cfg: Config, t: Tree, p: Point, allowRebuild: bool, fatherAxis: int)
    requires NthOk(cfg.nth) && Inv(t) && 0 <= fatherAxis < 3
    ensures Added(t, p, AddByPoint(cfg, t, p, allowRebuild, fatherAxis))
    decreases Count(t), 1
  {
    if t.Nil? {
      UpdateKeeps(NewNode(p, (fatherAxis + 1) % 3, Nil, Nil));
    } else {
      AddBelow(cfg, t, p, allowRebuild, fatherAxis);
    }
  }

  lemma {:induction false} AddBelow(cfg: Config, t: Tree, p: Point, allowRebuild: bool, fatherAxis: int)
    requires NthOk(cfg.nth) && Inv(t) && 0 <= fatherAxis < 3 && t.Node?
    ensures Added(t, p, AddByPoint(cfg, t, p, allowRebuild, fatherAxis))
    decreases Count(t), 0
  {
    var u := PushDown(t);
    PushDownKeeps(t);
    AddUnfold(cfg, t, p, allowRebuild, fatherAxis);
    Halves(t, u);
    hide *;
    var c := if GoesLeft(u, p) then u.left else u.right;
    AddExact(cfg, c, p, allowRebuild, u.axis);
    AddJoin(cfg, t, u, GoesLeft(u, p), AddByPoint(cfg, c, p, allowRebuild, u.axis), p, allowRebuild);
  }

  lemma AddJoin(cfg: Config, t: Tree, u: Tree, isLeft: bool, c: Tree, p: Point, allowRebuild: bool)
    requires NthOk(cfg.nth) && t.Node? && Live(t) == Live(u) && u.Node? && Inv(u) && Settled(u)
    requires Added(if isLeft then u.left else u.right, p, c)
    ensures Added(t, p, Settle(cfg, Update(if isLeft then u.(left := c) else u.(right := c)), allowRebuild))
  {
    AddChildExact(u, isLeft, c, p);
    var v := Update(if isLeft then u.(left := c) else u.(right := c));
    hide Update, Settle, Inv;
    SettleExact(cfg, v, allowRebuild);
  }

  // ---------- range search ----------

  lemma InsideSum(a: multiset<Point>, b: multiset<Point>, box: Box)
    ensures Inside(a + b, box) == Inside(a, box) + Inside(b, box)
  {
  }

  lemma SearchUnfold(t: Tree, b: Box)
    requires t.Node?
    ensures var u := PushDown(t);
      var (l, sl) := SearchByRange(u.left, b);
      var (r, sr) := SearchByRange(u.right, b);
      SearchByRange(t, b) ==
      if Misses(b, u.range) then (u, []) else if Covers(b, u.range) then (Pushed(u), Flatten(u))
      else (u.(left := l, right := r), (if InBox(b, u.point) && !u.pointDeleted then [u.point] else []) + sl + sr)
  {
    hide PushDown, Pushed, Flatten, Misses, Covers, InBox;
  }

  lemma RangeVersusLive(u: Tree, b: Box)
    requires u.Node? && Inv(u)
    ensures Misses(b, u.range) ==> Inside(Live(u), b) == multiset{}
    ensures Covers(b, u.range) ==> Inside(Live(u), b) == Live(u)
  {
    if Alive(u) {
      RangeTight(u);
      if Misses(b, u.range) { MissedBox(u.range, Live(u), b); }
      if Covers(b, u.range) { CoveredBox(u.range, Live(u), b); }
    }
  }

  lemma InsideSplits(u: Tree, b: Box, sl: seq<Point>, sr: seq<Point>)
    requires u.Node? && Inv(u) && Settled(u) && multiset(sl) == Inside(Live(u.left), b)
    requires multiset(sr) == Inside(Live(u.right), b)
    ensures multiset((if InBox(b, u.point) && !u.pointDeleted then [u.point] else []) + sl + sr) == Inside(Live(u), b)
  {
    LiveSplits(u);
    var own := if InBox(b, u.point) && !u.pointDeleted then [u.point] else [];
    OwnInside(u, b, own);
    hide *;
    InsideSum(Own(u) + Live(u.left), Live(u.right), b);
    InsideSum(Own(u), Live(u.left), b);
    assert multiset(own + sl + sr) == multiset(own) + multiset(sl) + multiset(sr);
  }

  lemma OwnInside(u: Tree, b: Box, own: seq<Point>)
    requires u.Node? && own == if InBox(b, u.point) && !u.pointDeleted then [u.point] else []
    ensures multiset(own) == Inside(Own(u), b)
  {
  }

  ghost predicate Found(t: Tree, b: Box, f: (Tree, seq<Point>)) {
    Inv(f.0) && Alike(t, f.0) && multiset(f.1) == Inside(Live(t), b)
  }

  /** Search_by_range lists exactly the live points of the box and leaves an equivalent tree. */
  lemma {:induction false} SearchExact(t: Tree, b: Box)
    requires Inv(t)
    ensures Found(t, b, SearchByRange(t, b))
    decreases Count(t), 1
  {
    if t.Node? {
      SearchNode(t, b);
    }
  }

  lemma SearchMarked(t: Tree, u: Tree, b: Box)
    requires u.Node? && Inv(u) && Alike(t, u)
    ensures Misses(b, u.range) ==> Found(t, b, (u, []))
    ensures Covers(b, u.range) ==> Found(t, b, (Pushed(u), Flatten(u)))
  {
    RangeVersusLive(u, b);
    FlattenLive(u);
    PushedKeeps(u);
  }

  lemma {:induction false} SearchNode(t: Tree, b: Box)
    requires Inv(t) && t.Node?
    ensures Found(t, b, SearchByRange(t, b))
    decreases Count(t), 0
  {
    var u := PushDown(t);
    PushDownKeeps(t);
    SearchMarked(t, u, b);
    SearchUnfold(t, b);
    Halves(t, u);
    hide *;
    if !Misses(b, u.range) && !Covers(b, u.range) {
      SearchExact(u.left, b);
      SearchExact(u.right, b);
      SearchJoin(t, u, b, SearchByRange(u.left, b), SearchByRange(u.right, b));
    }
  }

  lemma SearchJoin(t: Tree, u: Tree, b: Box, l: (Tree, seq<Point>), r: (Tree, seq<Point>))
    requires u.Node? && Inv(u) && Settled(u) && Alike(t, u) && Found(u.left, b, l) && Found(u.right, b, r)
    ensures Found(t, b, (u.(left := l.0, right := r.0),
      (if InBox(b, u.point) && !u.pointDeleted then [u.point] else []) + l.1 + r.1))
  {
    ReplaceChildren(u, l.0, r.0);
    InsideSplits(u, b, l.1, r.1);
  }
}
