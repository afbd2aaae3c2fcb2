/** Runs on which Nearest_Search goes wrong: three points at the same x, two of them equally far from
    the query up to the tolerance, the third nearer. */
module DisorderlyTree {
  import opened Geometry
  import opened IkdTree
  import opened IkdInvariant
  import opened KNearest
  import opened ManualHeap
  import opened VisitOrder
  import opened IkdSearch
  import opened KdTree
  import Ops = IkdOperations

  /** a, b and c at the same x, b above c; c is the nearest, b is farther than a by less than 1e-10. */
  predicate Placed(q: Point, a: Point, b: Point, c: Point) {
    && a.x == b.x == c.x && c.y < b.y
    && Dist(q, c) < Dist(q, a) < Dist(q, b) < Dist(q, a) + 0.0000000001
  }

  /** For instance at squared distances of 64e-12, 121e-12 and 1e-12. */
  lemma PlacedExample()
    ensures Placed(Point(0.0, 0.0, 0.0, 0), Point(0.0, 0.000008, 0.0, 1), Point(0.0, 0.000011, 0.0, 2),
      Point(0.0, 0.000001, 0.0, 3))
  {
  }

  function At(q: Point, p: Point): Candidate { Cand(p, Dist(q, p)) }

  function Leaf(p: Point, axis: int): Tree { Update(NewNode(p, axis, Nil, Nil)) }

  lemma BuildOne(nth: NthElement, p: Point)
    requires NthOk(nth)
    ensures BuildTree(nth, [p]) == Leaf(p, 0)
  {
    var s := [p];
    var axis := LongestAxis(Bounds(s));
    assert axis == 0;
    var o := nth(s, 0, axis);
    assert IsNth(s, 0, axis, o);
    assert o[0] in multiset(s) && o == [p];
    assert o[..0] == [] && o[1..] == [];
  }

  lemma AddsRight(cfg: Config, p: Point, axis: int, q: Point, fatherAxis: int)
    requires NthOk(cfg.nth) && !GoesLeft(Leaf(p, axis), q)
    ensures AddByPoint(cfg, Leaf(p, axis), q, true, fatherAxis)
      == Update(NewNode(p, axis, Nil, Leaf(q, (axis + 1) % 3)))
  {
    var t := Leaf(p, axis);
    assert PushDown(t) == t;
    assert AddByPoint(cfg, Nil, q, true, axis) == Leaf(q, (axis + 1) % 3);
  }

  lemma AddsLeft(cfg: Config, p: Point, axis: int, q: Point, fatherAxis: int)
    requires NthOk(cfg.nth) && GoesLeft(Leaf(p, axis), q)
    ensures AddByPoint(cfg, Leaf(p, axis), q, true, fatherAxis)
      == Update(NewNode(p, axis, Leaf(q, (axis + 1) % 3), Nil))
  {
    var t := Leaf(p, axis);
    assert PushDown(t) == t;
    assert AddByPoint(cfg, Nil, q, true, axis) == Leaf(q, (axis + 1) % 3);
  }

  /** The trees of the run: a, then b to its right, then c to the left of b. */
  function Two(a: Point, b: Point): Tree { Update(NewNode(a, 0, Nil, Leaf(b, 1))) }
  function Below(b: Point, c: Point): Tree { Update(NewNode(b, 1, Leaf(c, 2), Nil)) }
  function Three(a: Point, b: Point, c: Point): Tree { Update(NewNode(a, 0, Nil, Below(b, c))) }

  lemma NothingPending(t: Tree)
    requires t.Node? && !t.pushLeft && !t.pushRight
    ensures PushDown(t) == t
  {
  }

  lemma SmallSettles(cfg: Config, t: Tree)
    requires NthOk(cfg.nth) && t.Node? && t.size <= 10
    ensures Settle(cfg, t, true) == t
  {
  }

  lemma LeafIs(p: Point, axis: int)
    ensures var t := Leaf(p, axis);
      t.Node? && t.axis == axis && t.point == p && !t.pushLeft && !t.pushRight && !t.treeDeleted && !t.pointDeleted
    ensures var t := Leaf(p, axis); t.left.Nil? && t.right.Nil? && t.size == 1 && t.range == Spot(p)
  {
  }

  lemma BelowIs(b: Point, c: Point)
    ensures var t := Below(b, c);
      t.Node? && t.axis == 1 && t.point == b && !t.pushLeft && !t.pushRight && !t.treeDeleted && !t.pointDeleted
    ensures var t := Below(b, c);
      t.left == Leaf(c, 2) && t.right.Nil? && t.size == 2 && t.range == Hull(Spot(c), Spot(b))
  {
    LeafIs(c, 2);
    hide Leaf;
  }

  lemma TwoIs(a: Point, b: Point)
    ensures var t := Two(a, b);
      t.Node? && t.axis == 0 && t.point == a && !t.pushLeft && !t.pushRight && !t.treeDeleted && !t.pointDeleted
    ensures var t := Two(a, b); t.left.Nil? && t.right == Leaf(b, 1) && t.size == 2
  {
    LeafIs(b, 1);
    hide Leaf;
  }

  /** Update overwrites everything that an earlier one computed. */
  lemma UpdateTwice(t: Tree, c: Tree)
    requires t.Node?
    ensures var u := Update(t); u.Node? && Update(u.(right := c)) == Update(t.(right := c))
  {
    hide UpdateRange;
  }

  lemma ThreeIs(a: Point, b: Point, c: Point)
    ensures var t := Three(a, b, c);
      t.Node? && t.axis == 0 && t.point == a && !t.pushLeft && !t.pushRight && !t.treeDeleted && !t.pointDeleted
    ensures var t := Three(a, b, c); t.left.Nil? && t.right == Below(b, c) && t.size == 3
  {
    BelowIs(b, c);
    hide Leaf, Below;
  }

  lemma Sides(q: Point, a: Point, b: Point, c: Point, t: Tree)
    requires Placed(q, a, b, c) && t.Node?
    ensures t.axis == 0 && t.point == a ==> !GoesLeft(t, b) && !GoesLeft(t, c)
    ensures t.axis == 1 && t.point == b ==> GoesLeft(t, c)
  {
    hide Dist;
  }

  lemma Named(a: Point, b: Point, c: Point)
    ensures var t := Two(a, b); t.Node? && Update(t.(right := Below(b, c))) == Three(a, b, c)
    ensures Two(a, b) == Update(NewNode(a, 0, Nil, Leaf(b, (0 + 1) % 3)))
    ensures Below(b, c) == Update(NewNode(b, 1, Leaf(c, (1 + 1) % 3), Nil))
  {
    hide Update, Leaf;
    UpdateTwice(NewNode(a, 0, Nil, Leaf(b, 1)), Below(b, c));
  }

  lemma AddsBelow(cfg: Config, q: Point, a: Point, b: Point, c: Point)
    requires NthOk(cfg.nth) && Placed(q, a, b, c)
    ensures AddByPoint(cfg, Two(a, b), c, true, 0) == Three(a, b, c)
  {
    hide *;
    var t := Two(a, b);
    TwoIs(a, b);
    ThreeIs(a, b, c);
    LeafIs(b, 1);
    Sides(q, a, b, c, t);
    Sides(q, a, b, c, Leaf(b, 1));
    NothingPending(t);
    AddsLeft(cfg, b, 1, c, 0);
    Named(a, b, c);
    Ops.AddUnfold(cfg, t, c, true, 0);
    SmallSettles(cfg, Three(a, b, c));
  }

  /** Building from a, adding b and adding c, node by node. */
  lemma TreesOfRun(cfg: Config, size: real, q: Point, a: Point, b: Point, c: Point)
    requires NthOk(cfg.nth) && size > 0.0 && Placed(q, a, b, c)
    ensures Run(cfg, size, [a], [AddPoints([b], false)]) == Two(a, b)
    ensures Run(cfg, size, [a], [AddPoints([b], false), AddPoints([c], false)]) == Three(a, b, c)
  {
    hide *;
    var calls := [AddPoints([b], false), AddPoints([c], false)];
    assert calls[..1] == [AddPoints([b], false)] && calls[..1][..0] == [];
    LeafIs(a, 0);
    Sides(q, a, b, c, Leaf(a, 0));
    TwoIs(a, b);
    RunUnfold(cfg, size, [a], []);
    RunUnfold(cfg, size, [a], calls[..1]);
    RunUnfold(cfg, size, [a], calls);
    BuildOne(cfg.nth, a);
    OneAdded(cfg, size, Leaf(a, 0), b);
    AddsRight(cfg, a, 0, b, 0);
    Named(a, b, c);
    OneAdded(cfg, size, Two(a, b), c);
    AddsBelow(cfg, q, a, b, c);
  }

  // ---------- the searches ----------

  lemma NoChildren(u: Tree, q: Point, s: seq<Candidate>)
    requires u.Node? && u.left.Nil? && u.right.Nil? && |s| <= 2
    ensures SearchBoth(u, 2, q, Inf, s).1 == s
  {
  }

  lemma LeafSearch(q: Point, p: Point, axis: int, s: seq<Candidate>)
    requires |s| <= 2
    ensures SearchNearest(Leaf(p, axis), 2, q, Inf, s).1 == Offer(s, 2, At(q, p))
  {
    var t := Leaf(p, axis);
    LeafIs(p, axis);
    hide Leaf, Offer, Dist, BoxDist, PushDown, SearchNearest, SearchBoth;
    NothingPending(t);
    SearchIs(t, 2, q, Inf, s);
    NoChildren(t, q, OwnOffered(t, 2, q, Inf, s));
  }

  lemma NilSearch(q: Point, s: seq<Candidate>)
    requires |s| <= 2
    ensures forall go :: Visit(Nil, go, 2, q, Inf, s) == (Nil, s)
  {
  }

  /** A node with one child, whose box is worth a visit. */
  lemma OneChild(u: Tree, c: Tree, q: Point, s: seq<Candidate>)
    requires u.Node? && c.Node? && ((u.left == c && u.right.Nil?) || (u.left.Nil? && u.right == c))
    requires |s| <= 2 && Worth(s, 2, DistTo(c, q))
    ensures SearchBoth(u, 2, q, Inf, s).1 == SearchNearest(c, 2, q, Inf, s).1
  {
    hide BoxDist, SearchNearest, OwnOffered;
    NilSearch(q, s);
    NilSearch(q, SearchNearest(c, 2, q, Inf, s).1);
  }

  lemma OneNode(t: Tree, q: Point, s: seq<Candidate>)
    requires t.Node? && !t.treeDeleted && !t.pointDeleted && !t.pushLeft && !t.pushRight && |s| <= 2
    ensures SearchNearest(t, 2, q, Inf, s).1 == SearchBoth(t, 2, q, Inf, Offer(s, 2, At(q, t.point))).1
  {
    hide Offer, Dist, BoxDist, PushDown, SearchNearest, SearchBoth;
    NothingPending(t);
    SearchIs(t, 2, q, Inf, s);
  }

  lemma Boxes(q: Point, c: Point)
    ensures DistTo(Leaf(c, 2), q).Fin? && DistTo(Leaf(c, 2), q).v <= Dist(q, c)
  {
    LeafIs(c, 2);
    BoxDistBound(Spot(c), q, c);
    hide Leaf, BoxDist, Dist;
  }

  /** c replaces a, which the heap holds above b. */
  lemma PushedAndPopped(q: Point, a: Point, b: Point, c: Point)
    requires Placed(q, a, b, c)
    ensures var (x, y, z) := (At(q, a), At(q, b), At(q, c));
      && Offer([], 2, x) == [x] && Offer([x], 2, y) == [x, y] && Offer([x, y], 2, z) == [y, z]
      && Listed([x, y]) == [y, x] && Listed([y, z]) == [z, y] && Worth([x, y], 2, Fin(z.dist))
  {
    hide Dist;
    var (x, y, z) := (At(q, a), At(q, b), At(q, c));
    assert !Less(x, y) && !Less(y, z);
    assert [] + [x] == [x] && [x] + [y] == [x, y] && [y] + [z] == [y, z];
    assert Push([], x) == [x] && Push([x], y) == [x, y] && Push([y], z) == [y, z];
    assert Pop([x]) == [] && Pop([x, y]) == [y] && Pop([y, z]) == [z] && Pop([y]) == [] && Pop([z]) == [];
  }

  lemma Room(s: seq<Candidate>, k: nat)
    requires |s| < k
    ensures forall d :: Worth(s, k, d)
  {
  }

  lemma NearEnough(s: seq<Candidate>, d: Ext, e: real)
    requires |s| >= 2 && Worth(s, 2, Fin(e)) && d.Fin? && d.v <= e
    ensures Worth(s, 2, d)
  {
  }

  lemma SearchesGo(q: Point, a: Point, b: Point, c: Point)
    requires Placed(q, a, b, c)
    ensures SearchNearest(Two(a, b), 2, q, Inf, []).1 == [At(q, a), At(q, b)]
    ensures SearchNearest(Three(a, b, c), 2, q, Inf, []).1 == [At(q, b), At(q, c)]
  {
    hide *;
    var x, y := At(q, a), At(q, b);
    Boxes(q, c);
    AtIs(q, c);
    PushedAndPopped(q, a, b, c);
    TwoIs(a, b);
    ThreeIs(a, b, c);
    BelowIs(b, c);
    LeafIs(b, 1);
    LeafIs(c, 2);
    OneNode(Two(a, b), q, []);
    Room([x], 2);
    OneChild(Two(a, b), Leaf(b, 1), q, [x]);
    LeafSearch(q, b, 1, [x]);
    OneNode(Three(a, b, c), q, []);
    OneChild(Three(a, b, c), Below(b, c), q, [x]);
    OneNode(Below(b, c), q, [x]);
    NearEnough([x, y], DistTo(Leaf(c, 2), q), Dist(q, c));
    OneChild(Below(b, c), Leaf(c, 2), q, [x, y]);
    LeafSearch(q, c, 2, [x, y]);
  }

  lemma AtIs(q: Point, p: Point)
    ensures At(q, p).dist == Dist(q, p)
  {
  }

  /** For every such placement: after building from a and adding b, the two nearest are listed in the
      wrong order; after adding c as well, c pushes a out, although a is nearer than b. */
  lemma NearestSearchGoesWrong(cfg: Config, size: real, q: Point, a: Point, b: Point, c: Point)
    requires NthOk(cfg.nth) && size > 0.0 && Placed(q, a, b, c)
    ensures var t := Run(cfg, size, [a], [AddPoints([b], false)]);
      Listed(SearchNearest(t, 2, q, Inf, []).1) == [At(q, b), At(q, a)] && !Ascending([At(q, b), At(q, a)])
    ensures var t := Run(cfg, size, [a], [AddPoints([b], false), AddPoints([c], false)]);
      Listed(SearchNearest(t, 2, q, Inf, []).1) == [At(q, c), At(q, b)] &&
      !Nearest(multiset{At(q, c), At(q, b)}, NearBy(Live(t), q, Inf), 2)
  {
    hide *;
    TreesOfRun(cfg, size, q, a, b, c);
    SearchesGo(q, a, b, c);
    PushedAndPopped(q, a, b, c);
    ListedWrong(q, a, b, c);
    OneMissing(q, a, b, c);
  }

  lemma ListedWrong(q: Point, a: Point, b: Point, c: Point)
    requires Placed(q, a, b, c)
    ensures !Ascending([At(q, b), At(q, a)])
  {
    hide Dist;
    assert [At(q, b), At(q, a)][0].dist > [At(q, b), At(q, a)][1].dist;
  }

  lemma OneLive(a: Point, b: Point, c: Point)
    ensures a in Live(Three(a, b, c))
  {
    ThreeIs(a, b, c);
    hide Three, Below;
  }

  lemma OneMissing(q: Point, a: Point, b: Point, c: Point)
    requires Placed(q, a, b, c)
    ensures !Nearest(multiset{At(q, c), At(q, b)}, NearBy(Live(Three(a, b, c)), q, Inf), 2)
  {
    OneLive(a, b, c);
    hide Three, Live, Dist;
    var all := NearBy(Live(Three(a, b, c)), q, Inf);
    assert At(q, a) in all;
    assert At(q, b) in multiset{At(q, c), At(q, b)} && At(q, a) in all - multiset{At(q, c), At(q, b)};
  }
}
