/** The contract of nth_element that the ikd-Tree's proofs rely on can be met: sorting meets it. */
module NthElements {
  import opened Geometry
  import opened IkdTree
  import opened Sorting

  function OnAxis(axis: int): Point -> real { (p: Point) => Coord(p, axis) }

  function SortedNth(s: seq<Point>, k: nat, axis: int): seq<Point> { SortBy(OnAxis(axis), s) }

  lemma SortingIsNth(s: seq<Point>, k: nat, axis: int)
    requires k < |s|
    ensures IsNth(s, k, axis, SortedNth(s, k, axis))
  {
    hide SortBy;
    Sorts(OnAxis(axis), s);
    var r := SortedNth(s, k, axis);
    forall i, j | 0 <= i < j < |r|
      ensures Coord(r[i], axis) <= Coord(r[j], axis)
    {
      assert OnAxis(axis)(r[i]) <= OnAxis(axis)(r[j]);
    }
  }

  lemma NthExists()
    ensures NthOk(SortedNth)
  {
    forall s: seq<Point>, k: nat, axis: int | k < |s| ensures IsNth(s, k, axis, SortedNth(s, k, axis)) {
      SortingIsNth(s, k, axis);
    }
  }
}
