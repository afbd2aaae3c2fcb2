/** The ikd-Tree on values: every operation maps the tree before the call to the tree after it,
    with the same branches, lazy flags and counters as the pointer code. */
module IkdTree {
  import opened Geometry

  datatype Tree =
    | Nil
    | Node(point: Point, axis: int, size: int, invalid: int, downDel: int,
           pointDeleted: bool, treeDeleted: bool, pointDown: bool, treeDown: bool,
           pushLeft: bool, pushRight: bool, range: Box, left: Tree, right: Tree)

  /** nth_element on a slice: the slice, the position of the pivot, the axis compared. */
  type NthElement = (seq<Point>, nat, int) -> seq<Point>

  /** The library contract of nth_element: a permutation, nothing greater before the pivot and
      nothing smaller after it. */
  ghost predicate IsNth(s: seq<Point>, k: nat, axis: int, r: seq<Point>)
    requires k < |s|
  {
    && multiset(r) == multiset(s) && |r| == |s|
    && (forall i :: 0 <= i < k ==> Coord(r[i], axis) <= Coord(r[k], axis))
    && (forall i :: k < i < |r| ==> Coord(r[k], axis) <= Coord(r[i], axis))
  }

  ghost predicate NthOk(nth: NthElement) {
    forall s: seq<Point>, k: nat, axis: int :: k < |s| ==> IsNth(s, k, axis, nth(s, k, axis))
  }

  /** inlineLimit is the size from which a rebuild is handed to the background thread. */
  datatype Config = Config(deleteCriterion: real, balanceCriterion: real, inlineLimit: int, nth: NthElement)

  const MINIMAL_UNBALANCED_TREE_SIZE := 10

  function Count(t: Tree): nat {
    match t
    case Nil => 0
    case Node(_, _, _, _, _, _, _, _, _, _, _, _, l, r) => 1 + Count(l) + Count(r)
  }

  function SizeOf(t: Tree): int { if t.Node? then t.size else 0 }
  function InvalidOf(t: Tree): int { if t.Node? then t.invalid else 0 }
  function DownOf(t: Tree): int { if t.Node? then t.downDel else 0 }
  function Unit(b: bool): int { if b then 1 else 0 }

  // ---------- pending deletions ----------

  /** What Push_Down writes into a child. */
  function PushTo(treeDeleted: bool, treeDown: bool, c: Tree): (r: Tree)
    requires c.Node?
    ensures Count(r) == Count(c) && r.Node?
  {
    var td := c.treeDown || treeDown;
    var pd := c.pointDown || treeDown;
    var del := treeDeleted || td;
    var down := if treeDown then c.size else c.downDel;
    c.(treeDown := td, pointDown := pd, treeDeleted := del, pointDeleted := del || pd, downDel := down,
       invalid := if treeDeleted then c.size else down, pushLeft := true, pushRight := true)
  }

  function PushLeft(t: Tree): (r: Tree)
    requires t.Node?
    ensures r.Node? && Count(r.left) == Count(t.left) && r.right == t.right
  {
    if t.pushLeft && t.left.Node?
    then t.(left := PushTo(t.treeDeleted, t.treeDown, t.left), pushLeft := false) else t
  }

  function PushRight(t: Tree): (r: Tree)
    requires t.Node?
    ensures r.Node? && Count(r.right) == Count(t.right) && r.left == t.left
  {
    if t.pushRight && t.right.Node?
    then t.(right := PushTo(t.treeDeleted, t.treeDown, t.right), pushRight := false) else t
  }

  function PushDown(t: Tree): (r: Tree)
    requires t.Node?
    ensures r.Node? && Count(r.left) == Count(t.left) && Count(r.right) == Count(t.right)
  {
    PushRight(PushLeft(t))
  }

  // ---------- aggregates ----------

  predicate Alive(t: Tree) { t.Node? && !t.treeDeleted }

  function Grow(acc: Option<Box>, b: Box): Option<Box> {
    match acc
    case None => Some(b)
    case Some(a) => Some(Hull(a, b))
  }

  /** The hull of whatever is not deleted below and at a node; None stands for {INFINITY, -INFINITY}. */
  function LiveHull(l: Tree, r: Tree, p: Point, pointDeleted: bool): Option<Box> {
    var a := if Alive(l) then Grow(None, l.range) else None;
    var b := if Alive(r) then Grow(a, r.range) else a;
    if pointDeleted then b else Grow(b, Spot(p))
  }

  function AllDeleted(l: Tree, r: Tree, pointDeleted: bool): bool {
    !Alive(l) && !Alive(r) && pointDeleted
  }

  function UpdateRange(l: Tree, r: Tree, p: Point, pointDeleted: bool): Box {
    if l.Node? && r.Node? then
      if AllDeleted(l, r, pointDeleted) || (!l.treeDeleted && !r.treeDeleted && !pointDeleted)
      then Hull(Hull(l.range, r.range), Spot(p)) else LiveHull(l, r, p, pointDeleted).value
    else if l.Node? then
      if AllDeleted(l, r, pointDeleted) || (!l.treeDeleted && !pointDeleted)
      then Hull(l.range, Spot(p)) else LiveHull(l, r, p, pointDeleted).value
    else if r.Node? then
      if AllDeleted(l, r, pointDeleted) || (!r.treeDeleted && !pointDeleted)
      then Hull(r.range, Spot(p)) else LiveHull(l, r, p, pointDeleted).value
    else Spot(p)
  }

  function Update(t: Tree): (r: Tree)
    requires t.Node?
    ensures r.Node? && r.left == t.left && r.right == t.right
  {
    t.(size := SizeOf(t.left) + SizeOf(t.right) + 1,
       invalid := InvalidOf(t.left) + InvalidOf(t.right) + Unit(t.pointDeleted),
       downDel := DownOf(t.left) + DownOf(t.right) + Unit(t.pointDown),
       treeDown := (t.left.Node? ==> t.left.treeDown) && (t.right.Node? ==> t.right.treeDown) && t.pointDown,
       treeDeleted := AllDeleted(t.left, t.right, t.pointDeleted),
       range := UpdateRange(t.left, t.right, t.point, t.pointDeleted))
  }

  /** A node as InitTreeNode leaves it, with its point and axis filled in. */
  function NewNode(p: Point, axis: int, l: Tree, r: Tree): Tree {
    Node(p, axis, 0, 0, 0, false, false, false, false, false, false, Box(0.0, 0.0, 0.0, 0.0, 0.0, 0.0), l, r)
  }

  // ---------- build, flatten, rebuild ----------

  function Bounds(s: seq<Point>): Box
    requires |s| > 0
  {
    if |s| == 1 then Spot(s[0]) else Hull(Bounds(s[..|s| - 1]), Spot(s[|s| - 1]))
  }

  /** The first axis whose extent no other axis exceeds. */
  function LongestAxis(b: Box): int {
    var d0, d1, d2 := b.x1 - b.x0, b.y1 - b.y0, b.z1 - b.z0;
    var best := if d1 > d0 then 1 else 0;
    if d2 > (if best == 1 then d1 else d0) then 2 else best
  }

  function BuildTree(nth: NthElement, s: seq<Point>): (t: Tree)
    requires NthOk(nth)
    ensures t.Node? <==> |s| > 0
    decreases |s|
  {
    if |s| == 0 then Nil
    else
      var mid := (|s| - 1) / 2;
      var axis := LongestAxis(Bounds(s));
      assert IsNth(s, mid, axis, nth(s, mid, axis));
      var o := nth(s, mid, axis);
      Update(NewNode(o[mid], axis, BuildTree(nth, o[..mid]), BuildTree(nth, o[mid + 1..])))
  }

  /** The points that flatten pushes to Storage, in its order; it pushes pending deletions as it goes. */
  function Flatten(t: Tree): seq<Point>
    decreases Count(t)
  {
    if t.Nil? then [] else
      var u := PushDown(t);
      (if u.pointDeleted then [] else [u.point]) + Flatten(u.left) + Flatten(u.right)
  }

  /** The tree that flatten leaves behind. */
  function Pushed(t: Tree): Tree
    decreases Count(t)
  {
    if t.Nil? then Nil else
      var u := PushDown(t);
      u.(left := Pushed(u.left), right := Pushed(u.right))
  }

  predicate CriterionCheck(cfg: Config, t: Tree)
    requires t.Node?
  {
    t.size > MINIMAL_UNBALANCED_TREE_SIZE &&
    var son := if t.left.Node? then SizeOf(t.left) else SizeOf(t.right);
    var rest := (t.size - 1) as real;
    || t.invalid as real > cfg.deleteCriterion * (t.size as real)
    || son as real > cfg.balanceCriterion * rest
    || (son as real) < (1.0 - cfg.balanceCriterion) * rest
  }

  /** From inlineLimit on, only a request for the background thread is left behind. */
  function Rebuild(cfg: Config, t: Tree): Tree
    requires t.Node? && NthOk(cfg.nth)
  {
    if t.size >= cfg.inlineLimit then t else BuildTree(cfg.nth, Flatten(t))
  }

  function Settle(cfg: Config, t: Tree, allowRebuild: bool): Tree
    requires t.Node? && NthOk(cfg.nth)
  {
    if allowRebuild && CriterionCheck(cfg, t) then Rebuild(cfg, t) else t
  }

  // ---------- the two mutators ----------

  /** A node whose range the box swallows is only marked; its children learn of it later. */
  function MarkDeleted(u: Tree, isDownsample: bool): Tree
    requires u.Node?
  {
    u.(treeDeleted := true, pointDeleted := true, pushLeft := true, pushRight := true, invalid := u.size,
       treeDown := u.treeDown || isDownsample, pointDown := u.pointDown || isDownsample,
       downDel := if isDownsample then u.size else u.downDel)
  }

  /** A partially covered node with its own point tested and both children already done. */
  function DeletePoint(u: Tree, hit: bool, isDownsample: bool, l: Tree, r: Tree): Tree
    requires u.Node?
  {
    Update(u.(pointDeleted := u.pointDeleted || hit, pointDown := u.pointDown || (hit && isDownsample), left := l,
      right := r))
  }

  function DeleteByRange(cfg: Config, t: Tree, b: Box, allowRebuild: bool, isDownsample: bool): (Tree, int)
    requires NthOk(cfg.nth)
    decreases Count(t)
  {
    if t.Nil? || t.treeDeleted then (t, 0) else
      var u := PushDown(t);
      if Misses(b, u.range) then (u, 0)
      else if Covers(b, u.range) then (MarkDeleted(u, isDownsample), u.size - u.invalid)
      else
        var hit := !u.pointDeleted && InBox(b, u.point);
        var (l, nl) := DeleteByRange(cfg, u.left, b, allowRebuild, isDownsample);
        var (r, nr) := DeleteByRange(cfg, u.right, b, allowRebuild, isDownsample);
        (Settle(cfg, DeletePoint(u, hit, isDownsample, l, r), allowRebuild), Unit(hit) + nl + nr)
  }

  predicate GoesLeft(t: Tree, p: Point)
    requires t.Node?
  {
    || (t.axis == 0 && p.x < t.point.x) || (t.axis == 1 && p.y < t.point.y) || (t.axis == 2 && p.z < t.point.z)
  }

  function AddByPoint(cfg: Config, t: Tree, p: Point, allowRebuild: bool, fatherAxis: int): Tree
    requires NthOk(cfg.nth)
    decreases Count(t)
  {
    if t.Nil? then Update(NewNode(p, (fatherAxis + 1) % 3, Nil, Nil)) else
      var u := PushDown(t);
      var v := if GoesLeft(u, p)
               then u.(left := AddByPoint(cfg, u.left, p, allowRebuild, u.axis))
               else u.(right := AddByPoint(cfg, u.right, p, allowRebuild, u.axis));
      Settle(cfg, Update(v), allowRebuild)
  }

  // ---------- range search ----------

  function SearchByRange(t: Tree, b: Box): (Tree, seq<Point>)
    decreases Count(t)
  {
    if t.Nil? then (Nil, []) else
      var u := PushDown(t);
      if Misses(b, u.range) then (u, [])
      else if Covers(b, u.range) then (Pushed(u), Flatten(u))
      else
        var (l, sl) := SearchByRange(u.left, b);
        var (r, sr) := SearchByRange(u.right, b);
        (u.(left := l, right := r), (if InBox(b, u.point) && !u.pointDeleted then [u.point] else []) + sl + sr)
  }
}
