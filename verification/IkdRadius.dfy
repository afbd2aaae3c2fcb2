/** Radius search: skipping and taking whole subtrees by the sphere around a node's range. */
module IkdRadius {
  import opened Geometry
  import opened IkdTree
  import opened IkdInvariant
  import opened IkdOperations
  import opened SquareRoot
  import Nodes = IkdNode

  function Centre(r: Box): Point {
    Point((r.x0 + r.x1) / 2.0, (r.y0 + r.y1) / 2.0, (r.z0 + r.z1) / 2.0, 0)
  }

  /** radius_sq as Update stores it: the squared half diagonal of the range. */
  function RadiusSq(r: Box): real {
    var x, y, z := (r.x1 - r.x0) / 2.0, (r.y1 - r.y0) / 2.0, (r.z1 - r.z0) / 2.0;
    x * x + y * y + z * z
  }

  predicate Beyond(sqrt: Root, r: Box, q: Point, radius: real) {
    sqrt(Dist(Centre(r), q)) > radius + sqrt(RadiusSq(r))
  }

  predicate Engulfed(sqrt: Root, r: Box, q: Point, radius: real) {
    sqrt(Dist(Centre(r), q)) <= radius - sqrt(RadiusSq(r))
  }

  function SearchByRadius(sqrt: Root, t: Tree, q: Point, radius: real): (Tree, seq<Point>)
    decreases Count(t)
  {
    if t.Nil? then (Nil, []) else
      var u := PushDown(t);
      if Beyond(sqrt, u.range, q, radius) then (u, [])
      else if Engulfed(sqrt, u.range, q, radius) then (Pushed(u), Flatten(u))
      else
        var (l, sl) := SearchByRadius(sqrt, u.left, q, radius);
        var (r, sr) := SearchByRadius(sqrt, u.right, q, radius);
        (u.(left := l, right := r), (if !u.pointDeleted && Dist(u.point, q) <= radius * radius then [u.point] else [])
          + sl + sr)
  }

  // ---------- the sphere around a range ----------

  lemma SumOfSquares(a: real, b: real, c: real)
    ensures a * a + b * b + c * c >= 0.0
  {
  }

  lemma Cross(a0: real, a1: real, b0: real, b1: real)
    ensures 2.0 * ((a0 * b0) * (a1 * b1)) <= (a0 * a0) * (b1 * b1) + (a1 * a1) * (b0 * b0)
  {
    var u := a0 * b1 - a1 * b0;
    assert u * u >= 0.0;
    assert u * u == (a0 * a0) * (b1 * b1) + (a1 * a1) * (b0 * b0) - 2.0 * ((a0 * b0) * (a1 * b1));
  }

  lemma Spread(a: real, b: real, c: real, x: real, y: real, z: real)
    ensures (a + b + c) * (x + y + z) == a * x + a * y + a * z + b * x + b * y + b * z + c * x + c * y + c * z
  {
  }

  lemma SquareOfProduct(a: real, b: real)
    ensures (a * b) * (a * b) == (a * a) * (b * b)
  {
  }

  /** |a.b|^2 <= |a|^2 |b|^2, from three planar instances. */
  lemma CauchySchwarz(a0: real, a1: real, a2: real, b0: real, b1: real, b2: real)
    ensures var dot := a0 * b0 + a1 * b1 + a2 * b2;
      dot * dot <= (a0 * a0 + a1 * a1 + a2 * a2) * (b0 * b0 + b1 * b1 + b2 * b2)
  {
    Cross(a0, a1, b0, b1);
    Cross(a0, a2, b0, b2);
    Cross(a1, a2, b1, b2);
    var x, y, z := a0 * b0, a1 * b1, a2 * b2;
    assert (x + y + z) * (x + y + z) == x * x + y * y + z * z + 2.0 * (x * y) + 2.0 * (x * z) + 2.0 * (y * z);
    Spread(a0 * a0, a1 * a1, a2 * a2, b0 * b0, b1 * b1, b2 * b2);
    SquareOfProduct(a0, b0);
    SquareOfProduct(a1, b1);
    SquareOfProduct(a2, b2);
  }

  lemma AbsFromSquare(x: real, y: real)
    requires x * x <= y * y && y >= 0.0
    ensures -y <= x <= y
  {
    if x > y { Squares(y, x); }
    if -x > y { Squares(y, -x); }
  }

  lemma SquaresLe(a: real, b: real)
    requires 0.0 <= a <= b
    ensures a * a <= b * b
  {
  }

  /** The triangle inequality in three dimensions, on squared distances. */
  lemma Triangle(c: Point, p: Point, q: Point, d: real, e: real)
    requires d >= 0.0 && d * d == Dist(c, q) && e >= 0.0 && e * e == Dist(c, p)
    ensures (d - e) * (d - e) <= Dist(p, q) <= (d + e) * (d + e)
  {
    var a0, a1, a2, b0, b1, b2 := c.x - q.x, c.y - q.y, c.z - q.z, c.x - p.x, c.y - p.y, c.z - p.z;
    var dot := a0 * b0 + a1 * b1 + a2 * b2;
    CauchySchwarz(a0, a1, a2, b0, b1, b2);
    assert (d * e) * (d * e) == (d * d) * (e * e);
    AbsFromSquare(dot, d * e);
    Expand(a0, b0);
    Expand(a1, b1);
    Expand(a2, b2);
    assert Dist(p, q) == d * d + e * e - 2.0 * dot;
  }

  lemma Expand(a: real, b: real)
    ensures (a - b) * (a - b) == a * a + b * b - 2.0 * (a * b)
  {
  }

  lemma HalfExtent(lo: real, hi: real, p: real)
    requires lo <= p <= hi
    ensures var c, h := (lo + hi) / 2.0, (hi - lo) / 2.0; (c - p) * (c - p) <= h * h
  {
    var c, h := (lo + hi) / 2.0, (hi - lo) / 2.0;
    if c >= p { SquaresLe(c - p, h); } else { SquaresLe(p - c, h); assert (c - p) * (c - p) == (p - c) * (p - c); }
  }

  /** A range lies within its sphere. */
  lemma RangeInSphere(r: Box, p: Point)
    requires InRange(r, p)
    ensures Dist(Centre(r), p) <= RadiusSq(r)
  {
    HalfExtent(r.x0, r.x1, p.x);
    HalfExtent(r.y0, r.y1, p.y);
    HalfExtent(r.z0, r.z1, p.z);
  }

  /** Both shortcuts are right for every point of the range. */
  lemma SphereTests(sqrt: Root, r: Box, q: Point, radius: real, p: Point)
    requires RootOk(sqrt) && radius >= 0.0 && InRange(r, p)
    ensures Beyond(sqrt, r, q, radius) ==> Dist(p, q) > radius * radius
    ensures Engulfed(sqrt, r, q, radius) ==> Dist(p, q) <= radius * radius
  {
    hide Dist, RadiusSq, Centre, InRange, RootOk;
    var c := Centre(r);
    DistNonNegative(c, q);
    DistNonNegative(c, p);
    RangeInSphere(r, p);
    RootMonotone(sqrt, Dist(c, p), RadiusSq(r));
    var d, e := sqrt(Dist(c, q)), sqrt(Dist(c, p));
    RootIs(sqrt, Dist(c, q));
    RootIs(sqrt, Dist(c, p));
    Triangle(c, p, q, d, e);
    if Beyond(sqrt, r, q, radius) { Squares(radius, d - e); }
    if Engulfed(sqrt, r, q, radius) { SquaresLe(d + e, radius); }
  }

  /** The sphere is no larger than it has to be. */
  lemma CornerOnSphere(r: Box)
    ensures Dist(Centre(r), Point(r.x1, r.y1, r.z1, 0)) == RadiusSq(r)
  {
    HalfOff(r.x0, r.x1);
    HalfOff(r.y0, r.y1);
    HalfOff(r.z0, r.z1);
  }

  lemma HalfOff(lo: real, hi: real)
    ensures (lo + hi) / 2.0 - hi == -((hi - lo) / 2.0)
  {
  }

  /** The point at t between c and q, or beyond either. */
  function Along(c: Point, q: Point, t: real): Point {
    Point(c.x + t * (q.x - c.x), c.y + t * (q.y - c.y), c.z + t * (q.z - c.z), 0)
  }

  function Scale(k: real, x: real): real { k * x }
  function Sq(x: real): real { x * x }

  lemma DistIs(a: Point, b: Point)
    ensures Dist(a, b) == Sq(a.x - b.x) + Sq(a.y - b.y) + Sq(a.z - b.z)
  {
  }

  lemma AlongIs(c: Point, q: Point, t: real)
    ensures Dist(c, Along(c, q, t)) == Scale(Sq(t), Dist(c, q))
    ensures Dist(Along(c, q, t), q) == Scale(Sq(1.0 - t), Dist(c, q))
  {
    var p := Along(c, q, t);
    AlongAxis(c.x, q.x, p.x, t);
    AlongAxis(c.y, q.y, p.y, t);
    AlongAxis(c.z, q.z, p.z, t);
    hide *;
    DistIs(c, q);
    DistIs(c, p);
    DistIs(p, q);
    SpreadThree(Sq(t), Sq(c.x - q.x), Sq(c.y - q.y), Sq(c.z - q.z));
    SpreadThree(Sq(1.0 - t), Sq(c.x - q.x), Sq(c.y - q.y), Sq(c.z - q.z));
  }

  lemma AlongAxis(c: real, q: real, p: real, t: real)
    requires p == c + t * (q - c)
    ensures Sq(c - p) == Scale(Sq(t), Sq(c - q)) && Sq(p - q) == Scale(Sq(1.0 - t), Sq(c - q))
  {
    assert c - p == t * (c - q);
    SquareOfProduct(t, c - q);
    assert p - q == (1.0 - t) * (c - q);
    SquareOfProduct(1.0 - t, c - q);
  }

  lemma SpreadThree(k: real, a: real, b: real, c: real)
    ensures Scale(k, a) + Scale(k, b) + Scale(k, c) == Scale(k, a + b + c)
  {
  }

  /** Both shortcuts are exact for the sphere: when neither applies it has a point within the radius and one
      outside of it. */
  lemma SphereTestsExact(sqrt: Root, r: Box, q: Point, radius: real)
    requires RootOk(sqrt) && radius >= 0.0
    ensures !Beyond(sqrt, r, q, radius) ==>
      exists p: Point :: Dist(Centre(r), p) <= RadiusSq(r) && Dist(p, q) <= radius * radius
    ensures !Engulfed(sqrt, r, q, radius) ==>
      exists p: Point :: Dist(Centre(r), p) <= RadiusSq(r) && Dist(p, q) > radius * radius
  {
    hide RadiusSq, Centre, Dist, Along;
    var c := Centre(r);
    RadiusSqPositive(r);
    DistNonNegative(c, q);
    RootIs(sqrt, Dist(c, q));
    RootIs(sqrt, RadiusSq(r));
    var d, s := sqrt(Dist(c, q)), sqrt(RadiusSq(r));
    if !Beyond(sqrt, r, q, radius) { var p := Reached(c, q, d, s, radius); }
    if !Engulfed(sqrt, r, q, radius) { var p := Left(c, q, d, s, radius); }
  }

  lemma RadiusSqPositive(r: Box)
    ensures RadiusSq(r) >= 0.0
  {
    SumOfSquares((r.x1 - r.x0) / 2.0, (r.y1 - r.y0) / 2.0, (r.z1 - r.z0) / 2.0);
  }

  lemma Reached(c: Point, q: Point, d: real, s: real, radius: real) returns (p: Point)
    requires d >= 0.0 && d * d == Dist(c, q) && s >= 0.0 && radius >= 0.0 && d <= radius + s
    ensures Dist(c, p) <= s * s && Dist(p, q) <= radius * radius
  {
    hide Dist, Along;
    var t := if s + radius == 0.0 then 0.0 else s / (s + radius);
    if s + radius > 0.0 { Shares(s, radius, d); } else { assert d == 0.0; }
    p := Along(c, q, t);
    AlongIs(c, q, t);
    SquareOfProduct(t, d);
    SquareOfProduct(1.0 - t, d);
    SquaresLe(t * d, s);
    SquaresLe((1.0 - t) * d, radius);
  }

  lemma Shares(s: real, radius: real, d: real)
    requires s >= 0.0 && radius >= 0.0 && s + radius > 0.0 && 0.0 <= d <= s + radius
    ensures var t := s / (s + radius); 0.0 <= t * d <= s && 0.0 <= (1.0 - t) * d <= radius
  {
    var t, sum := s / (s + radius), s + radius;
    assert t * sum == s;
    PartOf(s, sum);
    Product(t, sum - d);
    Product(t, d);
    Product(1.0 - t, sum - d);
    Product(1.0 - t, d);
    assert (1.0 - t) * sum == radius;
  }

  lemma Product(a: real, b: real)
    requires a >= 0.0 && b >= 0.0
    ensures a * b >= 0.0
  {
  }

  lemma PartOf(s: real, sum: real)
    requires 0.0 <= s <= sum && sum > 0.0
    ensures 0.0 <= s / sum <= 1.0
  {
  }

  lemma Left(c: Point, q: Point, d: real, s: real, radius: real) returns (p: Point)
    requires d >= 0.0 && d * d == Dist(c, q) && s >= 0.0 && radius >= 0.0 && d + s > radius
    ensures Dist(c, p) <= s * s && Dist(p, q) > radius * radius
  {
    if d > 0.0 {
      hide Dist, Along;
      var t := -(s / d);
      assert (s / d) * d == s;
      p := Along(c, q, t);
      AlongIs(c, q, t);
      SquareOfProduct(t, d);
      SquareOfProduct(1.0 - t, d);
      assert t * d == -s && (1.0 - t) * d == d + s;
      Squares(radius, d + s);
    } else {
      p := Point(c.x + s, c.y, c.z, 0);
      SameSpot(c, q);
      Squares(radius, s);
    }
  }

  lemma SameSpot(c: Point, q: Point)
    requires Dist(c, q) == 0.0
    ensures c.x == q.x && c.y == q.y && c.z == q.z
  {
    NoSquare(c.x - q.x);
    NoSquare(c.y - q.y);
    NoSquare(c.z - q.z);
  }

  lemma NoSquare(x: real)
    ensures x * x >= 0.0 && (x * x == 0.0 ==> x == 0.0)
  {
    var y := -x;
    assert y * y == x * x;
    if x > 0.0 { Squares(0.0, x); } else if x < 0.0 { Squares(0.0, y); }
  }

  lemma DistNonNegative(a: Point, b: Point)
    ensures Dist(a, b) >= 0.0
  {
    SumOfSquares(a.x - b.x, a.y - b.y, a.z - b.z);
  }

  // ---------- what the search returns ----------

  ghost predicate IsBall(m: multiset<Point>, q: Point, radius: real, r: multiset<Point>) {
    forall p :: r[p] == if Dist(p, q) <= radius * radius then m[p] else 0
  }

  lemma {:induction false} BallExists(m: multiset<Point>, q: Point, radius: real)
    ensures exists r: multiset<Point> :: IsBall(m, q, radius, r)
    decreases |m|
  {
    hide Dist;
    if p :| p in m && !(Dist(p, q) <= radius * radius) {
      BallExists(m[p := 0], q, radius);
      var r: multiset<Point> :| IsBall(m[p := 0], q, radius, r);
      assert IsBall(m, q, radius, r);
    } else {
      assert IsBall(m, q, radius, m);
    }
  }

  /** The points of m within the radius. */
  ghost function Ball(m: multiset<Point>, q: Point, radius: real): (r: multiset<Point>)
    ensures IsBall(m, q, radius, r)
  {
    BallExists(m, q, radius);
    var r: multiset<Point> :| IsBall(m, q, radius, r);
    r
  }

  lemma BallSum(a: multiset<Point>, b: multiset<Point>, q: Point, radius: real)
    ensures Ball(a + b, q, radius) == Ball(a, q, radius) + Ball(b, q, radius)
  {
    hide Dist;
  }

  lemma RangeVersusBall(sqrt: Root, u: Tree, q: Point, radius: real)
    requires RootOk(sqrt) && radius >= 0.0 && u.Node? && Inv(u)
    ensures Beyond(sqrt, u.range, q, radius) ==> Ball(Live(u), q, radius) == multiset{}
    ensures Engulfed(sqrt, u.range, q, radius) ==> Ball(Live(u), q, radius) == Live(u)
  {
    if Alive(u) {
      RangeTight(u);
      hide Dist, Inv, Live, Beyond, Engulfed, InRange, RootOk;
      forall p | p in Live(u)
        ensures Beyond(sqrt, u.range, q, radius) ==> Dist(p, q) > radius * radius
        ensures Engulfed(sqrt, u.range, q, radius) ==> Dist(p, q) <= radius * radius
      {
        SphereTests(sqrt, u.range, q, radius, p);
      }
    }
  }

  ghost predicate FoundBall(t: Tree, q: Point, radius: real, f: (Tree, seq<Point>)) {
    Inv(f.0) && Alike(t, f.0) && multiset(f.1) == Ball(Live(t), q, radius)
  }

  lemma RadiusUnfold(sqrt: Root, t: Tree, q: Point, radius: real)
    requires t.Node?
    ensures var u := PushDown(t);
      var (l, sl) := SearchByRadius(sqrt, u.left, q, radius);
      var (r, sr) := SearchByRadius(sqrt, u.right, q, radius);
      SearchByRadius(sqrt, t, q, radius) ==
      if Beyond(sqrt, u.range, q, radius) then (u, [])
        else if Engulfed(sqrt, u.range, q, radius) then (Pushed(u), Flatten(u))
      else (u.(left := l, right := r),
        (if !u.pointDeleted && Dist(u.point, q) <= radius * radius then [u.point] else []) + sl + sr)
  {
    hide PushDown, Pushed, Flatten, Beyond, Engulfed, Dist;
  }

  lemma BallSplits(u: Tree, q: Point, radius: real, sl: seq<Point>, sr: seq<Point>)
    requires u.Node? && Inv(u) && Settled(u)
    requires multiset(sl) == Ball(Live(u.left), q, radius) && multiset(sr) == Ball(Live(u.right), q, radius)
    ensures multiset((if !u.pointDeleted && Dist(u.point, q) <= radius * radius then [u.point] else []) + sl + sr)
      == Ball(Live(u), q, radius)
  {
    hide Dist;
    LiveSplits(u);
    BallSum(Own(u) + Live(u.left), Live(u.right), q, radius);
    BallSum(Own(u), Live(u.left), q, radius);
    var own := if !u.pointDeleted && Dist(u.point, q) <= radius * radius then [u.point] else [];
    assert multiset(own) == Ball(Own(u), q, radius);
    assert multiset(own + sl + sr) == multiset(own) + multiset(sl) + multiset(sr);
  }

  lemma RadiusMarked(sqrt: Root, t: Tree, u: Tree, q: Point, radius: real)
    requires RootOk(sqrt) && radius >= 0.0 && u.Node? && Inv(u) && Alike(t, u)
    ensures Beyond(sqrt, u.range, q, radius) ==> FoundBall(t, q, radius, (u, []))
    ensures Engulfed(sqrt, u.range, q, radius) ==> FoundBall(t, q, radius, (Pushed(u), Flatten(u)))
  {
    hide Beyond, Engulfed, Pushed, Flatten, Inv, Live, RootOk;
    RangeVersusBall(sqrt, u, q, radius);
    FlattenLive(u);
    PushedKeeps(u);
  }

  lemma RadiusJoin(t: Tree, u: Tree, q: Point, radius: real, l: (Tree, seq<Point>), r: (Tree, seq<Point>))
    requires u.Node? && Inv(u) && Settled(u) && Alike(t, u) && FoundBall(u.left, q, radius, l)
    requires FoundBall(u.right, q, radius, r)
    ensures FoundBall(t, q, radius, (u.(left := l.0, right := r.0),
      (if !u.pointDeleted && Dist(u.point, q) <= radius * radius then [u.point] else []) + l.1 + r.1))
  {
    ReplaceChildren(u, l.0, r.0);
    BallSplits(u, q, radius, l.1, r.1);
  }

  /** Radius_Search lists exactly the live points within the radius and leaves an equivalent tree. */
  lemma {:induction false} RadiusExact(sqrt: Root, t: Tree, q: Point, radius: real)
    requires RootOk(sqrt) && radius >= 0.0 && Inv(t)
    ensures FoundBall(t, q, radius, SearchByRadius(sqrt, t, q, radius))
    decreases Count(t), 1
  {
    if t.Node? {
      RadiusNode(sqrt, t, q, radius);
    }
  }

  lemma {:induction false} RadiusNode(sqrt: Root, t: Tree, q: Point, radius: real)
    requires RootOk(sqrt) && radius >= 0.0 && Inv(t) && t.Node?
    ensures FoundBall(t, q, radius, SearchByRadius(sqrt, t, q, radius))
    decreases Count(t), 0
  {
    var u := PushDown(t);
    PushDownKeeps(t);
    RadiusMarked(sqrt, t, u, q, radius);
    RadiusUnfold(sqrt, t, q, radius);
    Halves(t, u);
    hide *;
    if !Beyond(sqrt, u.range, q, radius) && !Engulfed(sqrt, u.range, q, radius) {
      RadiusExact(sqrt, u.left, q, radius);
      RadiusExact(sqrt, u.right, q, radius);
      RadiusJoin(t, u, q, radius, SearchByRadius(sqrt, u.left, q, radius), SearchByRadius(sqrt, u.right, q, radius));
    }
  }

  /** A leaf queried at its own point: every negative radius skips it, although its distance of
      zero is within the squared radius that the point test uses. */
  lemma NegativeRadiusSkips(sqrt: Root, p: Point, radius: real)
    requires RootOk(sqrt) && radius < 0.0
    ensures var t := Update(NewNode(p, 0, Nil, Nil));
      Inv(t) && !FoundBall(t, p, radius, SearchByRadius(sqrt, t, p, radius))
  {
    var t := Update(NewNode(p, 0, Nil, Nil));
    UpdateKeeps(NewNode(p, 0, Nil, Nil));
    RootIs(sqrt, 0.0);
    if sqrt(0.0) > 0.0 { Squares(0.0, sqrt(0.0)); }
    assert Centre(t.range) == Point(p.x, p.y, p.z, 0) && Dist(Centre(t.range), p) == 0.0 && RadiusSq(t.range) == 0.0;
    assert PushDown(t) == t && Beyond(sqrt, t.range, p, radius);
    assert SearchByRadius(sqrt, t, p, radius) == (t, []);
    assert radius * radius >= 0.0 && Dist(p, p) == 0.0;
    assert Live(t)[p] == 1;
    assert Ball(Live(t), p, radius)[p] == 1;
  }

  /** The search is exact on every consistent tree if and only if the radius is not negative. */
  lemma RadiusExactIff(sqrt: Root, radius: real)
    requires RootOk(sqrt)
    ensures radius >= 0.0 <==> forall t, q :: Inv(t) ==> FoundBall(t, q, radius, SearchByRadius(sqrt, t, q, radius))
  {
    hide *;
    assert RootOk(sqrt);
    if radius >= 0.0 {
      forall t, q | Inv(t) ensures FoundBall(t, q, radius, SearchByRadius(sqrt, t, q, radius)) {
        RadiusExact(sqrt, t, q, radius);
      }
    } else {
      NegativeRadiusSkips(sqrt, Point(0.0, 0.0, 0.0, 0), radius);
    }
  }

  /** With any radius the tree afterwards is the same to its parent; with a negative one nothing is
      listed that the point test would refuse. */
  ghost predicate FoundPart(t: Tree, q: Point, radius: real, within: bool, f: (Tree, seq<Point>)) {
    Inv(f.0) && Alike(t, f.0) && (within ==> multiset(f.1) <= Ball(Live(t), q, radius))
  }

  lemma NeverEngulfed(sqrt: Root, r: Box, q: Point, radius: real)
    requires RootOk(sqrt) && radius < 0.0
    ensures !Engulfed(sqrt, r, q, radius)
  {
    DistNonNegative(Centre(r), q);
    SumOfSquares((r.x1 - r.x0) * 0.5, (r.y1 - r.y0) * 0.5, (r.z1 - r.z0) * 0.5);
    RootIs(sqrt, Dist(Centre(r), q));
    RootIs(sqrt, RadiusSq(r));
  }

  lemma PartJoin(t: Tree, u: Tree, q: Point, radius: real, within: bool, l: (Tree, seq<Point>), r: (Tree, seq<Point>))
    requires u.Node? && Inv(u) && Settled(u) && Alike(t, u) && FoundPart(u.left, q, radius, within, l)
    requires FoundPart(u.right, q, radius, within, r)
    ensures FoundPart(t, q, radius, within, (u.(left := l.0, right := r.0),
      (if !u.pointDeleted && Dist(u.point, q) <= radius * radius then [u.point] else []) + l.1 + r.1))
  {
    ReplaceChildren(u, l.0, r.0);
    if within {
      LiveSplits(u);
      hide Dist, Inv, Live, Alike, Settled, Ball;
      BallSum(Own(u) + Live(u.left), Live(u.right), q, radius);
      BallSum(Own(u), Live(u.left), q, radius);
      OwnBall(u, q, radius);
    }
  }

  lemma OwnBall(u: Tree, q: Point, radius: real)
    requires u.Node?
    ensures multiset(if !u.pointDeleted && Dist(u.point, q) <= radius * radius then [u.point] else [])
      == Ball(Own(u), q, radius)
  {
    hide Dist;
  }

  lemma PartNone(t: Tree, u: Tree, q: Point, radius: real, within: bool)
    requires Inv(u) && Alike(t, u)
    ensures FoundPart(t, q, radius, within, (u, []))
  {
    hide Inv, Live, Alike;
    var none: seq<Point> := [];
    assert multiset(none) == multiset{};
  }

  lemma PartWhole(t: Tree, u: Tree, q: Point, radius: real)
    requires u.Node? && Inv(u) && Alike(t, u)
    ensures FoundPart(t, q, radius, false, (Pushed(u), Flatten(u)))
  {
    hide Inv, Live, Pushed, Flatten;
    PushedKeeps(u);
  }

  lemma PushedAlike(t: Tree)
    requires t.Node? && Inv(t)
    ensures var u := PushDown(t);
      Inv(u) && Settled(u) && Alike(t, u) && Count(u.left) < Count(t) && Count(u.right) < Count(t)
  {
    hide Inv, Live, PushDown, Settled;
    PushDownKeeps(t);
    Halves(t, PushDown(t));
  }

  lemma {:induction false} RadiusKeeps(sqrt: Root, t: Tree, q: Point, radius: real)
    requires Inv(t)
    ensures FoundPart(t, q, radius, RootOk(sqrt) && radius < 0.0, SearchByRadius(sqrt, t, q, radius))
    decreases Count(t)
  {
    hide *;
    var within := RootOk(sqrt) && radius < 0.0;
    if t.Nil? {
      RadiusOfNil(sqrt, t, q, radius);
      PartNone(t, t, q, radius, within);
    } else {
      var u := PushDown(t);
      PushedAlike(t);
      RadiusUnfold(sqrt, t, q, radius);
      if within { NeverEngulfed(sqrt, u.range, q, radius); }
      if Beyond(sqrt, u.range, q, radius) {
        PartNone(t, u, q, radius, within);
      } else if Engulfed(sqrt, u.range, q, radius) {
        PartWhole(t, u, q, radius);
      } else {
        InvParts(u);
        RadiusKeeps(sqrt, u.left, q, radius);
        RadiusKeeps(sqrt, u.right, q, radius);
        PartJoin(t, u, q, radius, within, SearchByRadius(sqrt, u.left, q, radius),
          SearchByRadius(sqrt, u.right, q, radius));
      }
    }
  }

  lemma RadiusOfNil(sqrt: Root, t: Tree, q: Point, radius: real)
    requires t.Nil?
    ensures SearchByRadius(sqrt, t, q, radius) == (t, []) && Alike(t, t)
  {
  }

  lemma InvParts(u: Tree)
    requires u.Node? && Inv(u)
    ensures Inv(u.left) && Inv(u.right)
  {
  }

  // ---------- over the linked nodes ----------

  method Search_by_radius(sqrt: Root, root: Nodes.KD_TREE_NODE?, point: Point, radius: real, storage: seq<Point>)
    returns (out: seq<Point>)
    requires root != null ==> root.Valid()
    modifies Nodes.ReprOf(root)
    ensures root != null ==> root.Valid() && root.Repr == old(root.Repr)
    ensures var f := SearchByRadius(sqrt, old(Nodes.ViewOf(root)), point, radius);
      Nodes.ViewOf(root) == f.0 && out == storage + f.1
    decreases Nodes.ReprOf(root), 1
  {
    hide PushDown, Nodes.KD_TREE_NODE.Valid, Beyond, Engulfed, Dist, Pushed, Flatten;
    out := storage;
    if root == null { return; }
    root.ValidIsLinked();
    RadiusUnfold(sqrt, root.view, point, radius);
    hide SearchByRadius;
    root.Push_Down();
    root.ValidIsLinked();
    ghost var u := root.view;
    if Beyond(sqrt, root.node_range, point, radius) { return; }
    if Engulfed(sqrt, root.node_range, point, radius) {
      out := Nodes.flatten(root, out);
      return;
    }
    ghost var own := if !root.point_deleted && Dist(root.point, point) <= radius * radius then [root.point] else [];
    if !root.point_deleted && Dist(root.point, point) <= radius * radius { out := out + [root.point]; }
    out := RadiusChildren(sqrt, root, point, radius, out);
    ghost var l, r := SearchByRadius(sqrt, u.left, point, radius), SearchByRadius(sqrt, u.right, point, radius);
    Nodes.Append(storage, own, l.1, r.1);
  }

  method RadiusChildren(sqrt: Root, root: Nodes.KD_TREE_NODE, point: Point, radius: real, storage: seq<Point>)
    returns (out: seq<Point>)
    requires root.Valid()
    modifies root.Repr
    ensures root.Valid() && root.Repr == old(root.Repr)
    ensures
      var u := old(root.view);
      var l, r := SearchByRadius(sqrt, u.left, point, radius), SearchByRadius(sqrt, u.right, point, radius);
      root.view == u.(left := l.0, right := r.0) && out == storage + l.1 + r.1
    decreases root.Repr, 0
  {
    hide Nodes.KD_TREE_NODE.Valid, SearchByRadius;
    root.ValidIsLinked();
    ghost var u := root.view;
    out := Search_by_radius(sqrt, root.left_son_ptr, point, radius, storage);
    out := Search_by_radius(sqrt, root.right_son_ptr, point, radius, out);
    ghost var l, r := SearchByRadius(sqrt, u.left, point, radius), SearchByRadius(sqrt, u.right, point, radius);
    assert root.Linked() && root.Fields() == u.(left := l.0, right := r.0);
    root.Relink();
  }
}
