/** The sliding local map: when the sensor comes near an edge, the cube moves and what it leaves
    behind is deleted from the ikd-Tree. */
module SlidingMap {
  import opened Geometry
  import opened IkdInvariant
  import opened IkdNode
  import opened KdTree

  function Lo(b: Box, i: int): real { if i == 0 then b.x0 else if i == 1 then b.y0 else b.z0 }
  function Hi(b: Box, i: int): real { if i == 0 then b.x1 else if i == 1 then b.y1 else b.z1 }

  function WithLo(b: Box, i: int, v: real): Box {
    if i == 0 then b.(x0 := v) else if i == 1 then b.(y0 := v) else b.(z0 := v)
  }

  function WithHi(b: Box, i: int, v: real): Box {
    if i == 0 then b.(x1 := v) else if i == 1 then b.(y1 := v) else b.(z1 := v)
  }

  const MOV_THRESHOLD := 1.5

  function MovDist(cube_len: real, det_range: real): real {
    Max((cube_len - 2.0 * MOV_THRESHOLD * det_range) * 0.5 * 0.9, det_range * (MOV_THRESHOLD - 1.0))
  }

  predicate NearLow(b: Box, pos: Point, det_range: real, i: int) {
    Abs(Coord(pos, i) - Lo(b, i)) <= MOV_THRESHOLD * det_range
  }

  predicate NearHigh(b: Box, pos: Point, det_range: real, i: int) {
    Abs(Coord(pos, i) - Hi(b, i)) <= MOV_THRESHOLD * det_range
  }

  /** How far the cube moves along an axis; the lower edge is looked at first. */
  function Move(b: Box, pos: Point, det_range: real, mov_dist: real, i: int): real {
    if NearLow(b, pos, det_range, i) then -mov_dist else if NearHigh(b, pos, det_range, i) then mov_dist else 0.0
  }

  function MovedBox(b: Box, pos: Point, det_range: real, mov_dist: real): Box {
    var x, y, z := Move(b, pos, det_range, mov_dist, 0), Move(b, pos, det_range, mov_dist, 1),
      Move(b, pos, det_range, mov_dist, 2);
    Box(b.x0 + x, b.x1 + x, b.y0 + y, b.y1 + y, b.z0 + z, b.z1 + z)
  }

  /** What is cut off the old cube along one axis. */
  function Slab(b: Box, mov_dist: real, i: int, low: bool): Box {
    if low then WithLo(b, i, Hi(b, i) - mov_dist) else WithHi(b, i, Lo(b, i) + mov_dist)
  }

  function Slabs(b: Box, pos: Point, det_range: real, mov_dist: real, n: nat): seq<Box>
    requires n <= 3
  {
    if n == 0 then [] else
      var i := n - 1;
      Slabs(b, pos, det_range, mov_dist, i) +
      if NearLow(b, pos, det_range, i) then [Slab(b, mov_dist, i, true)]
      else if NearHigh(b, pos, det_range, i) then [Slab(b, mov_dist, i, false)] else []
  }

  /** A point lies in a slab exactly if it lies in the slab of some axis along which the cube moves. */
  lemma {:induction false} InSlabs(b: Box, pos: Point, det_range: real, m: real, n: nat, p: Point)
    requires n <= 3
    ensures InSome(Slabs(b, pos, det_range, m, n), p) <==> exists i :: 0 <= i < n && CutOff(b, pos, det_range, m, i, p)
  {
    hide InBox, NearLow, NearHigh, Slab, InSome;
    if n == 0 {
      NoBoxes(p);
    } else {
      var i := n - 1;
      var rest := Slabs(b, pos, det_range, m, i);
      var own := if NearLow(b, pos, det_range, i) then [Slab(b, m, i, true)]
        else if NearHigh(b, pos, det_range, i) then [Slab(b, m, i, false)] else [];
      InSlabs(b, pos, det_range, m, i, p);
      InSomeConcat(rest, own, p);
      assert CutOff(b, pos, det_range, m, i, p) <==> |own| == 1 && InBox(own[0], p);
      if j :| 0 <= j < n && CutOff(b, pos, det_range, m, j, p) {
        assert j < i || j == i;
      }
    }
  }

  lemma NoBoxes(p: Point)
    ensures !InSome([], p)
  {
  }

  lemma InSomeConcat(a: seq<Box>, b: seq<Box>, p: Point)
    requires |b| <= 1
    ensures InSome(a + b, p) <==> InSome(a, p) || (|b| == 1 && InBox(b[0], p))
  {
    hide InBox;
    if InSome(a, p) {
      var i :| 0 <= i < |a| && InBox(a[i], p);
      assert (a + b)[i] == a[i];
    }
    if |b| == 1 { assert (a + b)[|a|] == b[0]; }
  }

  predicate CutOff(b: Box, pos: Point, det_range: real, m: real, i: int, p: Point) {
    if NearLow(b, pos, det_range, i) then InBox(Slab(b, m, i, true), p)
    else NearHigh(b, pos, det_range, i) && InBox(Slab(b, m, i, false), p)
  }

  /** The slabs miss the new cube and, together with it, cover the old one; if the cube moves by no
      more than its side, they contain nothing else. */
  lemma SlabsExact(b: Box, pos: Point, det_range: real, m: real, p: Point)
    requires m >= 0.0
    ensures var r := MovedBox(b, pos, det_range, m); var s := Slabs(b, pos, det_range, m, 3);
      && (InBox(r, p) ==> !InSome(s, p))
      && (InBox(b, p) ==> (InBox(r, p) <==> !InSome(s, p)))
      && (InSome(s, p) && m <= b.x1 - b.x0 && m <= b.y1 - b.y0 && m <= b.z1 - b.z0 ==> InBox(b, p))
  {
    hide InSome, Slabs, CutOff, MovedBox, InBox;
    InSlabs(b, pos, det_range, m, 3, p);
    if i :| 0 <= i < 3 && CutOff(b, pos, det_range, m, i, p) {
      CutIsOutside(b, pos, det_range, m, i, p);
    } else if InBox(b, p) {
      UncutIsInside(b, pos, det_range, m, p);
    }
  }

  lemma CutIsOutside(b: Box, pos: Point, det_range: real, m: real, i: int, p: Point)
    requires m >= 0.0 && 0 <= i < 3 && CutOff(b, pos, det_range, m, i, p)
    ensures !InBox(MovedBox(b, pos, det_range, m), p)
    ensures m <= b.x1 - b.x0 && m <= b.y1 - b.y0 && m <= b.z1 - b.z0 ==> InBox(b, p)
  {
    hide NearLow, NearHigh;
  }

  lemma UncutIsInside(b: Box, pos: Point, det_range: real, m: real, p: Point)
    requires m >= 0.0 && InBox(b, p) && forall i :: 0 <= i < 3 ==> !CutOff(b, pos, det_range, m, i, p)
    ensures InBox(MovedBox(b, pos, det_range, m), p)
  {
    hide NearLow, NearHigh;
    assert !CutOff(b, pos, det_range, m, 0, p) && !CutOff(b, pos, det_range, m, 1, p)
      && !CutOff(b, pos, det_range, m, 2, p);
  }

  /** The cube keeps its sides. */
  lemma SidesKept(b: Box, pos: Point, det_range: real, m: real, i: int)
    ensures var r := MovedBox(b, pos, det_range, m); Hi(r, i) - Lo(r, i) == Hi(b, i) - Lo(b, i)
  {
  }

  // ---------- does one move suffice? ----------

  predicate Quiet(b: Box, pos: Point, det_range: real, i: int) {
    !NearLow(b, pos, det_range, i) && !NearHigh(b, pos, det_range, i)
  }

  /** A sensor within the threshold of one edge of the cube, but farther than margin from it, and farther
      than the threshold from the other edge. */
  predicate Approaches(b: Box, pos: Point, det_range: real, margin: real, i: int) {
    var low, high := Coord(pos, i) - Lo(b, i), Hi(b, i) - Coord(pos, i);
    var far := MOV_THRESHOLD * det_range;
    (margin < low <= far && high > far) || (margin < high <= far && low > far)
  }

  /** One move takes the sensor away from both edges of its axis, for every such position. */
  ghost predicate Settles(cube_len: real, det_range: real, margin: real, i: int) {
    forall b: Box, pos: Point :: Hi(b, i) - Lo(b, i) == cube_len && Approaches(b, pos, det_range, margin, i) ==>
      Quiet(MovedBox(b, pos, det_range, MovDist(cube_len, det_range)), pos, det_range, i)
  }

  /** For any cube, detection range and margin: it does exactly if there is no such position, or the
      move is as long as the zone beyond the margin is wide and leaves the opposite zone out of reach. */
  lemma SettlesIff(cube_len: real, det_range: real, margin: real, i: int)
    requires det_range > 0.0 && 0.0 <= margin < MOV_THRESHOLD * det_range && 0 <= i < 3
    ensures Settles(cube_len, det_range, margin, i) <==>
      (var far, m := MOV_THRESHOLD * det_range, MovDist(cube_len, det_range);
       cube_len <= far + margin || (margin + m >= far && cube_len - m > 2.0 * far))
  {
    var far, m := MOV_THRESHOLD * det_range, MovDist(cube_len, det_range);
    if cube_len <= far + margin || (margin + m >= far && cube_len - m > 2.0 * far) {
      forall b: Box, pos: Point | Hi(b, i) - Lo(b, i) == cube_len && Approaches(b, pos, det_range, margin, i)
        ensures Quiet(MovedBox(b, pos, det_range, m), pos, det_range, i)
      {
        MoveSettles(b, cube_len, det_range, margin, pos, i);
      }
    } else {
      var low := Unsettled(cube_len, det_range, margin);
      var b, pos := Box(0.0, cube_len, 0.0, cube_len, 0.0, cube_len), Point(low, low, low, 0);
      assert Hi(b, i) - Lo(b, i) == cube_len && Approaches(b, pos, det_range, margin, i);
      assert !Quiet(MovedBox(b, pos, det_range, m), pos, det_range, i);
    }
  }

  lemma MoveSettles(b: Box, cube_len: real, det_range: real, margin: real, pos: Point, i: int)
    requires det_range > 0.0 && margin >= 0.0 && 0 <= i < 3 && Hi(b, i) - Lo(b, i) == cube_len
    requires Approaches(b, pos, det_range, margin, i)
    requires margin + MovDist(cube_len, det_range) >= MOV_THRESHOLD * det_range
    requires cube_len - MovDist(cube_len, det_range) > 2.0 * MOV_THRESHOLD * det_range
    ensures Quiet(MovedBox(b, pos, det_range, MovDist(cube_len, det_range)), pos, det_range, i)
  {
  }

  /** A distance from the lower edge at which one move is not enough. */
  lemma Unsettled(cube_len: real, det_range: real, margin: real) returns (low: real)
    requires det_range > 0.0 && 0.0 <= margin < MOV_THRESHOLD * det_range
    requires cube_len > MOV_THRESHOLD * det_range + margin
    requires margin + MovDist(cube_len, det_range) < MOV_THRESHOLD * det_range ||
      cube_len - MovDist(cube_len, det_range) <= 2.0 * MOV_THRESHOLD * det_range
    ensures var far, m := MOV_THRESHOLD * det_range, MovDist(cube_len, det_range);
      margin < low <= far && cube_len - low > far && (-far <= low + m <= far || -far <= cube_len - low - m <= far)
  {
    var far, m := MOV_THRESHOLD * det_range, MovDist(cube_len, det_range);
    if margin + m < far {
      low := (margin + if far - m < cube_len - far then far - m else cube_len - far) / 2.0;
    } else if cube_len > 2.0 * far {
      low := far;
    } else {
      low := ((if margin < cube_len - far - m then cube_len - far - m else margin) + cube_len - far) / 2.0;
    }
  }

  /** With the detection range as margin: exactly for cubes longer than three and a half ranges, and
      those of at most two and a half, in which no position approaches an edge like that. */
  lemma MoveSettlesIff(cube_len: real, det_range: real, i: int)
    requires det_range > 0.0 && 0 <= i < 3
    ensures Settles(cube_len, det_range, det_range, i) <==> cube_len > 3.5 * det_range || cube_len <= 2.5 * det_range
  {
    SettlesIff(cube_len, det_range, det_range, i);
  }

  /** What the long move is for: after a move from the rim of an edge zone, a sensor that goes no farther
      than the move along that axis, in whichever direction, does not get into either edge zone again. */
  lemma LongMoveClears(b: Box, cube_len: real, det_range: real, pos: Point, next: Point, i: int)
    requires det_range > 0.0 && 0 <= i < 3 && Hi(b, i) - Lo(b, i) == cube_len > 3.0 * det_range + det_range / 0.9
    requires Coord(pos, i) - Lo(b, i) == 1.5 * det_range || Hi(b, i) - Coord(pos, i) == 1.5 * det_range
    requires -0.45 * (cube_len - 3.0 * det_range) <= Coord(next, i) - Coord(pos,
      i) <= 0.45 * (cube_len - 3.0 * det_range)
    ensures var r := MovedBox(b, pos, det_range, MovDist(cube_len, det_range));
      && Coord(next, i) - Lo(r, i) >= 1.5 * det_range && Hi(r, i) - Coord(next, i) >= 1.5 * det_range
  {
  }

  /** In a cube of at most three detection ranges every position inside is near an edge. */
  lemma ShortCubeNeverQuiet(b: Box, pos: Point, det_range: real, i: int)
    requires 0 <= i < 3 && Hi(b, i) - Lo(b, i) <= 3.0 * det_range && Lo(b, i) <= Coord(pos, i) <= Hi(b, i)
    ensures !Quiet(b, pos, det_range, i)
  {
  }

  /** The cube after n calls at the same position. */
  function Moves(b: Box, pos: Point, det_range: real, m: real, n: nat): Box {
    if n == 0 then b else MovedBox(Moves(b, pos, det_range, m, n - 1), pos, det_range, m)
  }

  lemma BounceOnce(cube_len: real, det_range: real, i: int, b: Box, pos: Point, m: real)
    requires det_range > 0.0 && 3.0 * det_range < cube_len <= 3.5 * det_range && 0 <= i < 3
    requires m == MovDist(cube_len, det_range)
    requires b == Box(0.0, cube_len, 0.0, cube_len, 0.0, cube_len)
    requires var c := MOV_THRESHOLD * det_range; pos == Point(c, c, c, 0)
    ensures var r := MovedBox(b, pos, det_range, m);
      && Approaches(b, pos, det_range, det_range, i) && r != b && !Quiet(b, pos, det_range, i)
      && !Quiet(r, pos, det_range, i) && MovedBox(r, pos, det_range, m) == b
  {
  }

  /** Between three and three and a half ranges there is a position at which the cube moves forth and
      back with every call, for ever. */
  lemma {:induction false} Bounces(cube_len: real, det_range: real, i: int, n: nat)
    requires det_range > 0.0 && 3.0 * det_range < cube_len <= 3.5 * det_range && 0 <= i < 3
    ensures var b := Box(0.0, cube_len, 0.0, cube_len, 0.0, cube_len);
      var c := MOV_THRESHOLD * det_range; var pos := Point(c, c, c, 0); var m := MovDist(cube_len, det_range);
      && Approaches(b, pos, det_range, det_range, i) && MovedBox(b, pos, det_range, m) != b
      && Moves(b, pos, det_range, m, n) == (if n % 2 == 0 then b else MovedBox(b, pos, det_range, m))
      && !Quiet(Moves(b, pos, det_range, m, n), pos, det_range, i)
  {
    hide Moves, MovedBox, Approaches, Quiet, MovDist;
    var b := Box(0.0, cube_len, 0.0, cube_len, 0.0, cube_len);
    var c := MOV_THRESHOLD * det_range;
    var pos := Point(c, c, c, 0);
    var m := MovDist(cube_len, det_range);
    BounceOnce(cube_len, det_range, i, b, pos, m);
    MovesUnfold(b, pos, det_range, m, n);
    if n > 0 { Bounces(cube_len, det_range, i, n - 1); }
  }

  lemma MovesUnfold(b: Box, pos: Point, det_range: real, m: real, n: nat)
    ensures Moves(b, pos, det_range, m, n) == if n == 0 then b
      else MovedBox(Moves(b, pos, det_range, m, n - 1), pos, det_range, m)
  {
  }

  /** A sensor that is not far outside of a short cube is near an edge, and stays so after the move. */
  lemma ShortCubeMoves(r: Box, pos: Point, cube_len: real, det_range: real, i: int)
    requires det_range > 0.0 && 0 <= i < 3 && Hi(r, i) - Lo(r, i) == cube_len
    requires 0.5 * det_range <= cube_len <= 3.0 * det_range
    requires 0.0 <= Coord(pos, i) - Lo(r, i) <= Max(cube_len, 2.0 * det_range)
    ensures var v := MovedBox(r, pos, det_range, MovDist(cube_len, det_range));
      && !Quiet(r, pos, det_range, i) && v != r && Hi(v, i) - Lo(v, i) == cube_len
      && 0.0 <= Coord(pos, i) - Lo(v, i) <= Max(cube_len, 2.0 * det_range)
  {
    assert MovDist(cube_len, det_range) == 0.5 * det_range;
    hide MovDist;
    MovedAlong(r, pos, det_range, 0.5 * det_range, i);
    hide MovedBox;
  }

  lemma MovedAlong(b: Box, pos: Point, det_range: real, m: real, i: int)
    requires 0 <= i < 3
    ensures var v := MovedBox(b, pos, det_range, m);
      Lo(v, i) == Lo(b, i) + Move(b, pos, det_range, m, i) && Hi(v, i) == Hi(b, i) + Move(b, pos, det_range, m, i)
  {
    hide Move;
  }

  /** From half a range to three ranges, every position inside keeps the cube moving for ever. */
  lemma {:induction false} ShortCubeNeverSettles(b: Box, pos: Point, det_range: real, i: int, n: nat)
    requires det_range > 0.0 && 0 <= i < 3 && Lo(b, i) <= Coord(pos, i) <= Hi(b, i)
    requires 0.5 * det_range <= Hi(b, i) - Lo(b, i) <= 3.0 * det_range
    ensures var m := MovDist(Hi(b, i) - Lo(b, i), det_range); var r := Moves(b, pos, det_range, m, n);
      && !Quiet(r, pos, det_range, i) && MovedBox(r, pos, det_range, m) != r
      && Hi(r, i) - Lo(r, i) == Hi(b, i) - Lo(b, i)
      && 0.0 <= Coord(pos, i) - Lo(r, i) <= Max(Hi(b, i) - Lo(b, i), 2.0 * det_range)
  {
    hide Moves, MovedBox, Quiet, MovDist;
    var cube_len := Hi(b, i) - Lo(b, i);
    var m := MovDist(cube_len, det_range);
    MovesUnfold(b, pos, det_range, m, n);
    if n > 0 {
      ShortCubeNeverSettles(b, pos, det_range, i, n - 1);
      ShortCubeMoves(Moves(b, pos, det_range, m, n - 1), pos, cube_len, det_range, i);
    }
    ShortCubeMoves(Moves(b, pos, det_range, m, n), pos, cube_len, det_range, i);
  }

  // ---------- the callback ----------

  class LaserMapping {
    const cube_len: real
    const DET_RANGE: real
    const ikdtree: KD_TREE
    var LocalMap_Points: Box
    var Localmap_Initialized: bool
    var cub_needrm: seq<Box>
    var kdtree_delete_counter: int

    ghost predicate Valid()
      reads this, ikdtree, ikdtree.Footprint()
      reads if ikdtree.Root_Node != null then {ikdtree.Root_Node} else {}
    {
      && ikdtree.Valid() && this !in ikdtree.Footprint() && DET_RANGE > 0.0
      && (Localmap_Initialized ==> forall i :: 0 <= i < 3 ==>
         Hi(LocalMap_Points, i) - Lo(LocalMap_Points, i) == cube_len)
    }

    constructor (cube_len: real, det_range: real, ikdtree: KD_TREE)
      requires ikdtree.Valid() && det_range > 0.0
      ensures Valid() && !Localmap_Initialized && this.ikdtree == ikdtree
    {
      this.cube_len, DET_RANGE, this.ikdtree := cube_len, det_range, ikdtree;
      Localmap_Initialized, cub_needrm, kdtree_delete_counter := false, [], 0;
      LocalMap_Points := Box(0.0, 0.0, 0.0, 0.0, 0.0, 0.0);
    }

    /** Centres the cube on the first call. Later it moves the cube away from the edges the sensor is
        near, and deletes from the tree exactly the points of the old cube outside the new one. */
    method lasermap_fov_segment(pos_LiD: Point)
      requires Valid()
      modifies this, ikdtree.Footprint()
      ensures Valid() && Localmap_Initialized
      ensures kdtree_delete_counter == |old(ikdtree.Contents())| - |ikdtree.Contents()|
      ensures old(!Localmap_Initialized) ==> ikdtree.Contents() == old(ikdtree.Contents())
      ensures old(!Localmap_Initialized) ==> forall i :: 0 <= i < 3 ==>
        Lo(LocalMap_Points, i) == Coord(pos_LiD, i) - cube_len / 2.0
      ensures old(!Localmap_Initialized) ==> forall i :: 0 <= i < 3 ==>
        Hi(LocalMap_Points, i) == Coord(pos_LiD, i) + cube_len / 2.0
      ensures old(Localmap_Initialized) ==> var b := old(LocalMap_Points);
        && AxisMoved(b.x0, b.x1, pos_LiD.x, cube_len, DET_RANGE, LocalMap_Points.x0, LocalMap_Points.x1)
        && AxisMoved(b.y0, b.y1, pos_LiD.y, cube_len, DET_RANGE, LocalMap_Points.y0, LocalMap_Points.y1)
        && AxisMoved(b.z0, b.z1, pos_LiD.z, cube_len, DET_RANGE, LocalMap_Points.z0, LocalMap_Points.z1)
      ensures old(Localmap_Initialized) ==>
        Swept(old(LocalMap_Points), LocalMap_Points, 0.5 * DET_RANGE <= cube_len,
        old(ikdtree.Contents()), ikdtree.Contents())
    {
      hide Sound, Live, KD_TREE.Valid, Slabs, Cleared, Swept, MovDist, MovedBox, Lo, Hi;
      cub_needrm := [];
      kdtree_delete_counter := 0;
      if Localmap_Initialized {
        MovedIs(LocalMap_Points, pos_LiD, cube_len, DET_RANGE);
        ShortEnough(cube_len, DET_RANGE);
        Slide(pos_LiD);
      } else {
        LocalMap_Points := CubeAround(pos_LiD, cube_len);
        Localmap_Initialized := true;
      }
    }

    method Slide(pos_LiD: Point)
      requires Valid() && Localmap_Initialized && kdtree_delete_counter == 0
      modifies this, ikdtree.Footprint()
      ensures Valid() && Localmap_Initialized
      ensures kdtree_delete_counter == |old(ikdtree.Contents())| - |ikdtree.Contents()|
      ensures LocalMap_Points == MovedBox(old(LocalMap_Points), pos_LiD, DET_RANGE, MovDist(cube_len, DET_RANGE))
      ensures Swept(old(LocalMap_Points), LocalMap_Points, MovDist(cube_len, DET_RANGE) <= cube_len,
        old(ikdtree.Contents()), ikdtree.Contents())
    {
      hide Sound, Live, KD_TREE.Valid, Slabs, Cleared, Swept, MovDist, MovedBox, Lo, Hi;
      ghost var m := ikdtree.Contents();
      var b := LocalMap_Points;
      var need_move := NeedMove(b, pos_LiD, DET_RANGE);
      if !need_move {
        StandStill(b, pos_LiD, DET_RANGE, MovDist(cube_len, DET_RANGE), m);
        return;
      }
      var mov_dist := MovDist(cube_len, DET_RANGE);
      LocalMap_Points, cub_needrm := MoveCube(b, pos_LiD, DET_RANGE, mov_dist);
      SweptByMove(b, pos_LiD, cube_len, DET_RANGE, m);
      if |cub_needrm| > 0 {
        kdtree_delete_counter := ikdtree.Delete_Point_Boxes(cub_needrm);
      }
    }
  }

  /** Along one axis: away from an edge at most one and a half ranges off, the lower one first, by 0.9 of half
      the space free of both edge zones, but by half a range at least. */
  ghost predicate AxisMoved(lo: real, hi: real, x: real, cube_len: real, det_range: real, lo': real, hi': real) {
    var free := 0.45 * (cube_len - 3.0 * det_range);
    var far := if free >= 0.5 * det_range then free else 0.5 * det_range;
    var step := if -1.5 * det_range <= x - lo <= 1.5 * det_range then -far
      else if -1.5 * det_range <= hi - x <= 1.5 * det_range then far else 0.0;
    lo' == lo + step && hi' == hi + step
  }

  lemma MovedIs(b: Box, pos: Point, cube_len: real, det_range: real)
    requires det_range > 0.0
    ensures var r := MovedBox(b, pos, det_range, MovDist(cube_len, det_range));
      && AxisMoved(b.x0, b.x1, pos.x, cube_len, det_range, r.x0, r.x1)
      && AxisMoved(b.y0, b.y1, pos.y, cube_len, det_range, r.y0, r.y1)
      && AxisMoved(b.z0, b.z1, pos.z, cube_len, det_range, r.z0, r.z1)
  {
  }

  lemma ShortEnough(cube_len: real, det_range: real)
    requires det_range > 0.0
    ensures 0.5 * det_range <= cube_len <==> MovDist(cube_len, det_range) <= cube_len
  {
  }

  method CubeAround(pos_LiD: Point, cube_len: real) returns (b: Box)
    ensures forall j :: 0 <= j < 3 ==> Lo(b, j) == Coord(pos_LiD, j) - cube_len / 2.0 && Hi(b, j) - Lo(b, j) == cube_len
  {
    b := Box(0.0, 0.0, 0.0, 0.0, 0.0, 0.0);
    for i := 0 to 3
      invariant forall j :: 0 <= j < i ==>
        Lo(b, j) == Coord(pos_LiD, j) - cube_len / 2.0 && Hi(b, j) - Lo(b, j) == cube_len
    {
      b := WithLo(b, i, Coord(pos_LiD, i) - cube_len / 2.0);
      b := WithHi(b, i, Coord(pos_LiD, i) + cube_len / 2.0);
    }
  }

  method NeedMove(b: Box, pos_LiD: Point, det_range: real) returns (need_move: bool)
    ensures need_move <==> exists j ::
      0 <= j < 3 && (NearLow(b, pos_LiD, det_range, j) || NearHigh(b, pos_LiD, det_range, j))
  {
    need_move := false;
    for i := 0 to 3
      invariant need_move <==> exists j ::
        0 <= j < i && (NearLow(b, pos_LiD, det_range, j) || NearHigh(b, pos_LiD, det_range, j))
    {
      if NearLow(b, pos_LiD, det_range, i) || NearHigh(b, pos_LiD, det_range, i) { need_move := true; }
    }
  }

  /** Axis by axis, the new cube and the slabs cut off the old one. */
  method MoveCube(b: Box, pos_LiD: Point, det_range: real, mov_dist: real) returns (r: Box, boxes: seq<Box>)
    ensures r == MovedBox(b, pos_LiD, det_range, mov_dist) && boxes == Slabs(b, pos_LiD, det_range, mov_dist, 3)
  {
    hide Slabs, NearLow, NearHigh, Slab;
    r, boxes := b, [];
    SlabsNone(b, pos_LiD, det_range, mov_dist);
    for i := 0 to 3
      invariant boxes == Slabs(b, pos_LiD, det_range, mov_dist, i)
      invariant forall j :: 0 <= j < 3 ==>
        Lo(r, j) == Lo(b, j) + (if j < i then Move(b, pos_LiD, det_range, mov_dist, j) else 0.0)
      invariant forall j :: 0 <= j < 3 ==>
        Hi(r, j) == Hi(b, j) + (if j < i then Move(b, pos_LiD, det_range, mov_dist, j) else 0.0)
    {
      SlabsNext(b, pos_LiD, det_range, mov_dist, i);
      if NearLow(b, pos_LiD, det_range, i) {
        r := WithHi(r, i, Hi(r, i) - mov_dist);
        r := WithLo(r, i, Lo(r, i) - mov_dist);
        boxes := boxes + [Slab(b, mov_dist, i, true)];
      } else if NearHigh(b, pos_LiD, det_range, i) {
        r := WithHi(r, i, Hi(r, i) + mov_dist);
        r := WithLo(r, i, Lo(r, i) + mov_dist);
        boxes := boxes + [Slab(b, mov_dist, i, false)];
      }
    }
    BoxFromSides(r, b, pos_LiD, det_range, mov_dist);
  }

  /** What moving the cube from b to r does to the points: those of the new cube stay, of the old one
      only those stay, and (if the cube moved by no more than its side) nothing else is touched. */
  ghost predicate Swept(b: Box, r: Box, short: bool, m: multiset<Point>, n: multiset<Point>) {
    forall p ::
      && (InBox(r, p) ==> n[p] == m[p])
      && (InBox(b, p) && !InBox(r, p) ==> n[p] == 0)
      && (short && !InBox(b, p) ==> n[p] == m[p])
  }

  lemma StandStill(b: Box, pos: Point, det_range: real, mov_dist: real, m: multiset<Point>)
    requires forall j :: 0 <= j < 3 ==> !NearLow(b, pos, det_range, j) && !NearHigh(b, pos, det_range, j)
    ensures MovedBox(b, pos, det_range, mov_dist) == b && forall short :: Swept(b, b, short, m, m)
  {
  }

  lemma SlabsNone(b: Box, pos: Point, det_range: real, mov_dist: real)
    ensures Slabs(b, pos, det_range, mov_dist, 0) == []
  {
  }

  lemma SlabsNext(b: Box, pos: Point, det_range: real, mov_dist: real, i: nat)
    requires i < 3
    ensures Slabs(b, pos, det_range, mov_dist, i + 1) == Slabs(b, pos, det_range, mov_dist, i) +
      if NearLow(b, pos, det_range, i) then [Slab(b, mov_dist, i, true)]
      else if NearHigh(b, pos, det_range, i) then [Slab(b, mov_dist, i, false)] else []
  {
  }

  lemma BoxFromSides(r: Box, b: Box, pos: Point, det_range: real, m: real)
    requires forall j :: 0 <= j < 3 ==> Lo(r, j) == Lo(b, j) + Move(b, pos, det_range, m, j)
    requires forall j :: 0 <= j < 3 ==> Hi(r, j) == Hi(b, j) + Move(b, pos, det_range, m, j)
    ensures r == MovedBox(b, pos, det_range, m)
  {
    assert Lo(r, 0) == r.x0 && Lo(r, 1) == r.y0 && Lo(r, 2) == r.z0 && Hi(r, 0) == r.x1 && Hi(r, 1) == r.y1
      && Hi(r, 2) == r.z1;
  }

  /** Composed with the deletion of the slabs. */
  lemma SweptByMove(b: Box, pos: Point, cube_len: real, det_range: real, m: multiset<Point>)
    requires det_range > 0.0 && forall i :: 0 <= i < 3 ==> Hi(b, i) - Lo(b, i) == cube_len
    ensures var d := MovDist(cube_len, det_range); var r := MovedBox(b, pos, det_range, d);
      var s := Slabs(b, pos, det_range, d, 3);
      && (forall n :: Cleared(s, m, n) ==> Swept(b, r, d <= cube_len, m, n))
      && (s == [] ==> Swept(b, r, d <= cube_len, m, m))
      && (forall i :: 0 <= i < 3 ==> Hi(r, i) - Lo(r, i) == cube_len)
  {
    var d := MovDist(cube_len, det_range);
    assert d >= 0.0 by { MovPositive(cube_len, det_range); }
    assert b.x1 - b.x0 == cube_len && b.y1 - b.y0 == cube_len && b.z1 - b.z0 == cube_len by {
      assert Hi(b, 0) - Lo(b, 0) == cube_len && Hi(b, 1) - Lo(b, 1) == cube_len && Hi(b, 2) - Lo(b, 2) == cube_len;
    }
    hide MovDist, InBox, InSome, Slabs, MovedBox;
    var r, s := MovedBox(b, pos, det_range, d), Slabs(b, pos, det_range, d, 3);
    forall p
      ensures InBox(r, p) ==> !InSome(s, p)
      ensures InBox(b, p) ==> (InBox(r, p) <==> !InSome(s, p))
      ensures d <= cube_len && InSome(s, p) ==> InBox(b, p)
    {
      SlabsExact(b, pos, det_range, d, p);
    }
    forall i | 0 <= i < 3 ensures Hi(r, i) - Lo(r, i) == cube_len { SidesKept(b, pos, det_range, d, i); }
    if s == [] { forall p ensures !InSome(s, p) { NoBoxes(p); } }
  }

  lemma MovPositive(cube_len: real, det_range: real)
    requires det_range > 0.0
    ensures MovDist(cube_len, det_range) > 0.0
  {
  }
}
