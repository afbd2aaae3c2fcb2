/** The live multiset of an ikd-Tree and the invariant under which flags, counters and ranges
    agree with it. */
module IkdInvariant {
  import opened Geometry
  import opened IkdTree

  /** The points that a complete push-down would leave undeleted. */
  ghost function Live(t: Tree): multiset<Point> {
    if !Alive(t) then multiset{}
    else (if t.pointDeleted then multiset{} else multiset{t.point}) + Live(t.left) + Live(t.right)
  }

  ghost predicate IsOutside(m: multiset<Point>, b: Box, r: multiset<Point>) {
    forall p :: r[p] == if InBox(b, p) then 0 else m[p]
  }

  lemma {:induction false} OutsideExists(m: multiset<Point>, b: Box)
    ensures exists r: multiset<Point> :: IsOutside(m, b, r)
    decreases |m|
  {
    if p :| p in m && InBox(b, p) {
      OutsideExists(m[p := 0], b);
      var r: multiset<Point> :| IsOutside(m[p := 0], b, r);
      assert IsOutside(m, b, r);
    } else {
      assert IsOutside(m, b, m);
    }
  }

  /** The points of m outside the half-open box. */
  ghost function Outside(m: multiset<Point>, b: Box): (r: multiset<Point>)
    ensures IsOutside(m, b, r)
  {
    OutsideExists(m, b);
    var r: multiset<Point> :| IsOutside(m, b, r);
    r
  }

  /** The points of m inside the half-open box. */
  ghost function Inside(m: multiset<Point>, b: Box): (r: multiset<Point>)
    ensures forall p :: r[p] == if InBox(b, p) then m[p] else 0
  {
    m - Outside(m, b)
  }

  /** A leaf that nothing has been deleted from; the only child below a stale pending flag. */
  predicate FreshLeaf(t: Tree) {
    && t.Node? && t.left.Nil? && t.right.Nil? && t.size == 1 && t.invalid == 0 && t.downDel == 0
    && !t.pointDeleted && !t.treeDeleted && !t.pointDown && !t.treeDown
  }

  /** Flags, counters and range of one node against its two children. A pending flag on a deleted
      node carries the deletion; on any other node it is stale and only faces a fresh leaf. */
  predicate NodeOk(t: Tree)
    requires t.Node?
  {
    && 0 <= t.axis < 3
    && t.size == SizeOf(t.left) + SizeOf(t.right) + 1
    && (t.treeDown ==> t.treeDeleted) && (t.pointDown ==> t.pointDeleted)
    && if t.treeDeleted then
         && t.pointDeleted && t.invalid == t.size
         && (t.left.Node? && !t.pushLeft ==> t.left.treeDeleted)
         && (t.right.Node? && !t.pushRight ==> t.right.treeDeleted)
       else
         && !AllDeleted(t.left, t.right, t.pointDeleted)
         && t.invalid == InvalidOf(t.left) + InvalidOf(t.right) + Unit(t.pointDeleted)
         && LiveHull(t.left, t.right, t.point, t.pointDeleted) == Some(t.range)
         && (t.pushLeft && t.left.Node? ==> FreshLeaf(t.left))
         && (t.pushRight && t.right.Node? ==> FreshLeaf(t.right))
  }

  predicate AllDown(l: Tree, r: Tree, pointDown: bool) {
    (l.Node? ==> l.treeDown) && (r.Node? ==> r.treeDown) && pointDown
  }

  /** The labels of downsampling: a whole labelled subtree counts every node and has told its children
      unless that is pending; any other counts what its children count, and not all of them are. */
  predicate LabelsOk(t: Tree)
    requires t.Node?
  {
    if t.treeDown then
      && t.pointDown && t.downDel == t.size
      && (t.left.Node? && !t.pushLeft ==> t.left.treeDown)
      && (t.right.Node? && !t.pushRight ==> t.right.treeDown)
    else
      t.downDel == DownOf(t.left) + DownOf(t.right) + Unit(t.pointDown) && !AllDown(t.left, t.right, t.pointDown)
  }

  predicate Inv(t: Tree) {
    t.Node? ==> NodeOk(t) && LabelsOk(t) && Inv(t.left) && Inv(t.right)
  }

  /** No pending deletion is left for an existing child. */
  predicate Settled(t: Tree)
    requires t.Node?
  {
    (t.pushLeft ==> t.left.Nil?) && (t.pushRight ==> t.right.Nil?)
  }

  ghost function Own(t: Tree): multiset<Point>
    requires t.Node?
  {
    if t.pointDeleted then multiset{} else multiset{t.point}
  }

  // ---------- one node ----------

  lemma PushToKeeps(del: bool, down: bool, c: Tree)
    requires c.Node? && Inv(c) && (down ==> del) && (!del ==> FreshLeaf(c))
    ensures var r := PushTo(del, down, c);
      Inv(r) && r.treeDeleted == del && Live(r) == if del then multiset{} else Live(c)
    ensures var r := PushTo(del, down, c);
      r.size == c.size && (!del ==> Alive(c) && r.range == c.range && r.invalid == c.invalid)
  {
  }

  lemma PushLeftKeeps(t: Tree)
    requires t.Node? && Inv(t)
    ensures var u := PushLeft(t); Inv(u) && Live(u) == Live(t) && (u.pushLeft ==> u.left.Nil?)
  {
    if t.left.Node? && t.pushLeft { PushToKeeps(t.treeDeleted, t.treeDown, t.left); }
  }

  lemma PushRightKeeps(t: Tree)
    requires t.Node? && Inv(t)
    ensures var u := PushRight(t); Inv(u) && Live(u) == Live(t) && (u.pushRight ==> u.right.Nil?)
  {
    if t.right.Node? && t.pushRight { PushToKeeps(t.treeDeleted, t.treeDown, t.right); }
  }

  lemma PushDownKeeps(t: Tree)
    requires t.Node? && Inv(t)
    ensures var u := PushDown(t);
      && Inv(u) && Settled(u) && Live(u) == Live(t)
      && u == t.(left := u.left, right := u.right, pushLeft := u.pushLeft, pushRight := u.pushRight)
  {
    PushLeftKeeps(t);
    PushRightKeeps(PushLeft(t));
    hide Inv, Live, PushTo;
  }

  /** Once nothing is pending, a node's live points are its own and those of its children. */
  lemma LiveSplits(u: Tree)
    requires u.Node? && Inv(u) && Settled(u)
    ensures Live(u) == Own(u) + Live(u.left) + Live(u.right)
  {
  }

  /** Update re-establishes the invariant above two good children. */
  lemma UpdateKeeps(t: Tree)
    requires t.Node? && Inv(t.left) && Inv(t.right) && 0 <= t.axis < 3 && (t.pointDown ==> t.pointDeleted)
    requires t.pushLeft && t.left.Node? ==> FreshLeaf(t.left)
    requires t.pushRight && t.right.Node? ==> FreshLeaf(t.right)
    ensures var u := Update(t); Inv(u) && Live(u) == Own(t) + Live(t.left) + Live(t.right)
    ensures Update(t).treeDeleted <==> Live(Update(t)) == multiset{}
  {
    LiveOrDeleted(t.left);
    LiveOrDeleted(t.right);
  }

  /** A node that is not marked deleted holds a live point. */
  lemma {:induction false} LiveOrDeleted(t: Tree)
    requires Inv(t)
    ensures Live(t) == multiset{} <==> !Alive(t)
  {
    if Alive(t) {
      LiveOrDeleted(t.left);
      LiveOrDeleted(t.right);
    }
  }

  /** validnum: the counters of every node give the number of its live points. */
  lemma {:induction false} CountersExact(t: Tree)
    requires Inv(t)
    ensures |Live(t)| == SizeOf(t) - InvalidOf(t)
  {
    if Alive(t) {
      CountersExact(t.left);
      CountersExact(t.right);
      assert |Live(t)| == |Own(t)| + |Live(t.left)| + |Live(t.right)|;
    }
  }

  /** size: TreeSize is the number of nodes, deleted or not. */
  lemma {:induction false} SizeIsCount(t: Tree)
    requires Inv(t)
    ensures SizeOf(t) == Count(t)
  {
    if t.Node? {
      SizeIsCount(t.left);
      SizeIsCount(t.right);
    }
  }

  /** The nodes that downsampling has deleted: by their own label, or by one an ancestor still has to
      push down. */
  function Labelled(t: Tree, told: bool): int {
    match t
    case Nil => 0
    case Node(_, _, _, _, _, _, _, pd, td, pl, pr, _, l, r) =>
      Unit(told || pd) + Labelled(l, told || (td && pl)) + Labelled(r, told || (td && pr))
  }

  lemma {:induction false} ToldAll(t: Tree)
    ensures Labelled(t, true) == Count(t)
  {
    if t.Node? {
      ToldAll(t.left);
      ToldAll(t.right);
    }
  }

  /** down_del_num counts exactly those nodes, and the subtree flag says that they are all of them. */
  lemma {:induction false} LabelsExact(t: Tree)
    requires Inv(t)
    ensures Labelled(t, false) == DownOf(t) && 0 <= DownOf(t) <= InvalidOf(t) <= SizeOf(t)
    ensures t.Node? ==> (t.treeDown <==> t.downDel == t.size)
  {
    if t.Node? {
      LabelsExact(t.left);
      LabelsExact(t.right);
      ToldAll(t.left);
      ToldAll(t.right);
      SizeIsCount(t.left);
      SizeIsCount(t.right);
    }
  }

  // ---------- ranges ----------

  ghost predicate OnFace(r: Box, face: int, p: Point) {
    if face == 0 then p.x == r.x0
    else if face == 1 then p.x == r.x1
    else if face == 2 then p.y == r.y0
    else if face == 3 then p.y == r.y1
    else if face == 4 then p.z == r.z0
    else p.z == r.z1
  }

  ghost predicate Touches(m: multiset<Point>, r: Box, face: int) {
    exists p :: p in m && OnFace(r, face, p)
  }

  /** r is the exact bounding box of m: no point outside, every face met. */
  ghost predicate Bounding(r: Box, m: multiset<Point>) {
    && (forall p :: p in m ==> InRange(r, p))
    && (forall f :: 0 <= f < 6 ==> Touches(m, r, f))
  }

  lemma BoundingSpot(p: Point)
    ensures Bounding(Spot(p), multiset{p})
  {
    assert p in multiset{p};
    forall f | 0 <= f < 6 ensures Touches(multiset{p}, Spot(p), f) {
      assert OnFace(Spot(p), f, p);
    }
  }

  lemma HullFace(a: Box, b: Box, f: int)
    requires 0 <= f < 6
    ensures (forall p :: OnFace(a, f, p) ==> OnFace(Hull(a, b), f, p))
      || (forall p :: OnFace(b, f, p) ==> OnFace(Hull(a, b), f, p))
  {
  }

  lemma TouchesHull(a: Box, m: multiset<Point>, b: Box, n: multiset<Point>, f: int)
    requires 0 <= f < 6 && Touches(m, a, f) && Touches(n, b, f)
    ensures Touches(m + n, Hull(a, b), f)
  {
    HullFace(a, b, f);
    var p :| p in m && OnFace(a, f, p);
    var q :| q in n && OnFace(b, f, q);
    assert p in m + n && q in m + n;
  }

  lemma BoundingHull(a: Box, m: multiset<Point>, b: Box, n: multiset<Point>)
    requires Bounding(a, m) && Bounding(b, n)
    ensures Bounding(Hull(a, b), m + n)
  {
    forall f | 0 <= f < 6 ensures Touches(m + n, Hull(a, b), f) {
      TouchesHull(a, m, b, n, f);
    }
    forall p | p in m + n ensures InRange(Hull(a, b), p) {
      assert p in m || p in n;
    }
  }

  ghost predicate MaybeBounding(acc: Option<Box>, m: multiset<Point>) {
    match acc
    case None => m == multiset{}
    case Some(r) => Bounding(r, m)
  }

  lemma GrowBounding(alive: bool, acc: Option<Box>, m: multiset<Point>, b: Box, n: multiset<Point>)
    requires MaybeBounding(acc, m) && (if alive then Bounding(b, n) else n == multiset{})
    ensures MaybeBounding(if alive then Grow(acc, b) else acc, m + n)
  {
    if !alive {
      assert m + n == m;
    } else if acc.Some? {
      BoundingHull(acc.value, m, b, n);
    } else {
      assert m + n == n;
    }
  }

  lemma LiveHullBounding(l: Tree, r: Tree, p: Point, pointDeleted: bool)
    requires Alive(l) ==> Bounding(l.range, Live(l))
    requires Alive(r) ==> Bounding(r.range, Live(r))
    ensures MaybeBounding(LiveHull(l, r, p, pointDeleted),
                          (if pointDeleted then multiset{} else multiset{p}) + Live(l) + Live(r))
  {
    BoundingSpot(p);
    var own := if pointDeleted then multiset{} else multiset{p};
    GrowBounding(Alive(l), None, multiset{}, if l.Node? then l.range else Spot(p), Live(l));
    var a := if Alive(l) then Grow(None, l.range) else None;
    assert multiset{} + Live(l) == Live(l);
    GrowBounding(Alive(r), a, Live(l), if r.Node? then r.range else Spot(p), Live(r));
    var b := if Alive(r) then Grow(a, r.range) else a;
    GrowBounding(!pointDeleted, b, Live(l) + Live(r), Spot(p), own);
    assert Live(l) + Live(r) + own == own + Live(l) + Live(r);
  }

  /** The range of a node that is not deleted is the exact bounding box of its live points. */
  lemma {:induction false} RangeTight(t: Tree)
    requires Inv(t) && Alive(t)
    ensures Bounding(t.range, Live(t))
  {
    if Alive(t.left) { RangeTight(t.left); }
    if Alive(t.right) { RangeTight(t.right); }
    LiveHullBounding(t.left, t.right, t.point, t.pointDeleted);
  }
}
