/** The ikd-Tree in place: linked nodes whose flags, counters, ranges and child pointers are
    updated by the methods. Every method is tied to the function of module IkdTree that says what
    it does to the tree as a value. */
module IkdNode {
  import opened Geometry
  import Spec = IkdTree
  import Ops = IkdOperations

  type Tree = Spec.Tree
  type Config = Spec.Config

  class KD_TREE_NODE {
    var point: Point
    var division_axis: int
    var TreeSize: int
    var invalid_point_num: int
    var down_del_num: int
    var point_deleted: bool
    var tree_deleted: bool
    var point_downsample_deleted: bool
    var tree_downsample_deleted: bool
    var need_push_down_to_left: bool
    var need_push_down_to_right: bool
    var node_range: Box
    var left_son_ptr: KD_TREE_NODE?
    var right_son_ptr: KD_TREE_NODE?

    ghost var view: Tree
    ghost var Repr: set<object>

    /** The node's fields as a value, over the values of its children. */
    ghost function Fields(): (t: Tree)
      reads this, left_son_ptr, right_son_ptr
      ensures t.Node?
    {
      Spec.Node(point, division_axis, TreeSize, invalid_point_num, down_del_num, point_deleted, tree_deleted,
                point_downsample_deleted, tree_downsample_deleted, need_push_down_to_left, need_push_down_to_right,
                node_range, ViewOf(left_son_ptr), ViewOf(right_son_ptr))
    }

    ghost predicate Linked()
      reads this, Repr
      decreases Repr, 0
    {
      && this in Repr
      && (left_son_ptr != null ==>
            left_son_ptr in Repr && left_son_ptr.Repr <= Repr && this !in left_son_ptr.Repr && left_son_ptr.Valid())
      && (right_son_ptr != null ==>
            right_son_ptr in Repr && right_son_ptr.Repr <= Repr && this !in right_son_ptr.Repr && right_son_ptr.Valid())
      && (left_son_ptr != null && right_son_ptr != null ==> left_son_ptr.Repr !! right_son_ptr.Repr)
    }

    ghost predicate Valid()
      reads this, Repr
      ensures Valid() ==> this in Repr
      decreases Repr, 1
    {
      Linked() && view == Fields()
    }

    constructor (p: Point, axis: int, l: KD_TREE_NODE?, r: KD_TREE_NODE?)
      requires l != null ==> l.Valid()
      requires r != null ==> r.Valid()
      requires l != null && r != null ==> l.Repr !! r.Repr
      ensures Valid() && view == Spec.NewNode(p, axis, ViewOf(l), ViewOf(r))
      ensures Repr == {this} + ReprOf(l) + ReprOf(r)
      ensures left_son_ptr == l && right_son_ptr == r
    {
      point, division_axis := p, axis;
      TreeSize, invalid_point_num, down_del_num := 0, 0, 0;
      point_deleted, tree_deleted, point_downsample_deleted, tree_downsample_deleted := false, false, false, false;
      need_push_down_to_left, need_push_down_to_right := false, false;
      node_range := Box(0.0, 0.0, 0.0, 0.0, 0.0, 0.0);
      left_son_ptr, right_son_ptr := l, r;
      Repr := {this} + ReprOf(l) + ReprOf(r);
      view := Spec.NewNode(p, axis, ViewOf(l), ViewOf(r));
    }

    lemma ChildReprs()
      requires Linked()
      ensures this in Repr && ReprOf(left_son_ptr) < Repr && ReprOf(right_son_ptr) < Repr
      ensures left_son_ptr != null ==> left_son_ptr in left_son_ptr.Repr
      ensures right_son_ptr != null ==> right_son_ptr in right_son_ptr.Repr
    {
    }

    /** Brings the value up to date with the fields. */
    ghost method Relink()
      requires Linked()
      modifies this`view
      ensures Valid() && view == old(Fields()) && Repr == old(Repr)
    {
      hide Valid;
      view := Fields();
      assert Valid() by { LinkedIsValid(); }
    }

    lemma LinkedIsValid()
      requires Linked() && view == Fields()
      ensures Valid()
    {
    }

    lemma ValidIsLinked()
      requires Valid()
      ensures Linked() && view == Fields()
    {
    }

    /** What Push_Down writes into one child. */
    method ReceivePush(treeDeleted: bool, treeDown: bool)
      requires Valid()
      modifies this
      ensures Valid() && view == Spec.PushTo(treeDeleted, treeDown, old(view)) && Repr == old(Repr)
    {
      ReceiveFlags(treeDeleted, treeDown);
      ReceiveCounts(treeDeleted, treeDown);
      view := Fields();
    }

    method ReceiveCounts(treeDeleted: bool, treeDown: bool)
      requires Linked()
      modifies this
      ensures Linked() && Repr == old(Repr) && view == old(view)
      ensures Fields() == var c := old(Fields()); var down := if treeDown then c.size else c.downDel;
        c.(downDel := down, invalid := if treeDeleted then c.size else down)
    {
      hide Valid;
      if treeDown {
        down_del_num := TreeSize;
      }
      if treeDeleted {
        invalid_point_num := TreeSize;
      } else {
        invalid_point_num := down_del_num;
      }
    }

    method ReceiveFlags(treeDeleted: bool, treeDown: bool)
      requires Linked()
      modifies this
      ensures Linked() && Repr == old(Repr) && view == old(view)
      ensures Fields() == var c := old(Fields()); var td, pd := c.treeDown || treeDown, c.pointDown || treeDown;
        c.(treeDown := td, pointDown := pd, treeDeleted := treeDeleted || td, pointDeleted := treeDeleted || td || pd,
           pushLeft := true, pushRight := true)
    {
      hide Valid;
      tree_downsample_deleted := tree_downsample_deleted || treeDown;
      point_downsample_deleted := point_downsample_deleted || treeDown;
      tree_deleted := treeDeleted || tree_downsample_deleted;
      point_deleted := tree_deleted || point_downsample_deleted;
      need_push_down_to_left := true;
      need_push_down_to_right := true;
    }

    method Push_Down()
      requires Valid()
      modifies this, left_son_ptr, right_son_ptr
      ensures Valid() && view == Spec.PushDown(old(view)) && Repr == old(Repr)
      ensures left_son_ptr == old(left_son_ptr) && right_son_ptr == old(right_son_ptr)
      ensures left_son_ptr != null ==> left_son_ptr.Repr == old(left_son_ptr.Repr)
      ensures right_son_ptr != null ==> right_son_ptr.Repr == old(right_son_ptr.Repr)
    {
      Push_Left();
      Push_Right();
    }

    method Push_Left()
      requires Valid()
      modifies this, left_son_ptr
      ensures Valid() && view == Spec.PushLeft(old(view)) && Repr == old(Repr)
      ensures left_son_ptr == old(left_son_ptr) && right_son_ptr == old(right_son_ptr)
      ensures left_son_ptr != null ==> left_son_ptr.Repr == old(left_son_ptr.Repr)
    {
      if need_push_down_to_left && left_son_ptr != null {
        left_son_ptr.ReceivePush(tree_deleted, tree_downsample_deleted);
        need_push_down_to_left := false;
        view := Fields();
      }
    }

    method Push_Right()
      requires Valid()
      modifies this, right_son_ptr
      ensures Valid() && view == Spec.PushRight(old(view)) && Repr == old(Repr)
      ensures left_son_ptr == old(left_son_ptr) && right_son_ptr == old(right_son_ptr)
      ensures right_son_ptr != null ==> right_son_ptr.Repr == old(right_son_ptr.Repr)
    {
      if need_push_down_to_right && right_son_ptr != null {
        right_son_ptr.ReceivePush(tree_deleted, tree_downsample_deleted);
        need_push_down_to_right := false;
        view := Fields();
      }
    }

    method GoesLeft(p: Point) returns (left: bool)
      requires Valid()
      ensures left == Spec.GoesLeft(view, p)
    {
      left := (division_axis == 0 && p.x < point.x) || (division_axis == 1 && p.y < point.y)
        || (division_axis == 2 && p.z < point.z);
    }

    /** Everything that must hold for l to become the left child. */
    ghost predicate CanAttach(l: KD_TREE_NODE?, other: KD_TREE_NODE?)
      reads this, l, other
      reads if l != null then l.Repr else {}
      reads if other != null then other.Repr else {}
    {
      && (l != null ==> l.Valid() && this !in l.Repr)
      && (other != null ==> other in Repr && other.Repr <= Repr && this !in other.Repr && other.Valid())
      && (l != null && other != null ==> l.Repr !! other.Repr)
    }

    method AttachLeft(l: KD_TREE_NODE?)
      requires this in Repr && CanAttach(l, right_son_ptr)
      modifies this
      ensures Linked() && Repr == old(Repr) + ReprOf(l)
      ensures Fields() == var c := old(Fields()); c.(left := ViewOf(l))
      ensures left_son_ptr == l && right_son_ptr == old(right_son_ptr)
    {
      hide Valid;
      left_son_ptr := l;
      Repr := Repr + ReprOf(l);
    }

    method AttachRight(r: KD_TREE_NODE?)
      requires this in Repr && CanAttach(r, left_son_ptr)
      modifies this
      ensures Linked() && Repr == old(Repr) + ReprOf(r)
      ensures Fields() == var c := old(Fields()); c.(right := ViewOf(r))
      ensures right_son_ptr == r && left_son_ptr == old(left_son_ptr)
    {
      hide Valid;
      right_son_ptr := r;
      Repr := Repr + ReprOf(r);
    }

    method DeleteOwn(b: Box, isDownsample: bool) returns (hit: bool)
      requires Linked()
      modifies this
      ensures Linked() && Repr == old(Repr)
      ensures var c := old(Fields());
        && hit == (!c.pointDeleted && InBox(b, c.point))
        && Fields() == c.(pointDeleted := c.pointDeleted || hit, pointDown := c.pointDown || (hit && isDownsample))
      ensures left_son_ptr == old(left_son_ptr) && right_son_ptr == old(right_son_ptr)
    {
      hide Valid;
      hit := !point_deleted && InBox(b, point);
      if hit {
        point_deleted := true;
        if isDownsample { point_downsample_deleted := true; }
      }
    }

    /** The whole subtree is marked; nothing below is visited. */
    method MarkDeleted(isDownsample: bool)
      requires Valid()
      modifies this
      ensures Valid() && view == Spec.MarkDeleted(old(view), isDownsample) && Repr == old(Repr)
    {
      MarkBox();
      if isDownsample { MarkDownsample(); }
      Relink();
    }

    method MarkBox()
      requires Valid()
      modifies this
      ensures Linked() && Repr == old(Repr) && old(view).Node?
      ensures Fields() == var c := old(view);
        c.(treeDeleted := true, pointDeleted := true, pushLeft := true, pushRight := true, invalid := c.size)
    {
      hide Valid;
      ValidIsLinked();
      tree_deleted := true;
      point_deleted := true;
      need_push_down_to_left := true;
      need_push_down_to_right := true;
      invalid_point_num := TreeSize;
    }

    method MarkDownsample()
      requires Linked()
      modifies this
      ensures Linked() && Repr == old(Repr)
      ensures Fields() == var c := old(Fields()); c.(treeDown := true, pointDown := true, downDel := c.size)
    {
      hide Valid;
      tree_downsample_deleted := true;
      point_downsample_deleted := true;
      down_del_num := TreeSize;
    }

    /** Recomputes size, counters, deletion marks and range from the two children. */
    method Update()
      requires Linked()
      modifies this
      ensures Valid() && view == Spec.Update(old(Fields())) && Repr == old(Repr)
      ensures left_son_ptr == old(left_son_ptr) && right_son_ptr == old(right_son_ptr)
    {
      ghost var was := Fields();
      var size, invalid, down, treeDown, del := UpdatedCounts();
      var box := UpdatedRange();
      Store(size, invalid, down, treeDown, del, box);
      view := Fields();
    }

    method Store(size: int, invalid: int, down: int, treeDown: bool, del: bool, box: Box)
      requires Linked()
      modifies this
      ensures Linked() && Repr == old(Repr)
      ensures Fields() == var c := old(Fields());
        c.(size := size, invalid := invalid, downDel := down, treeDown := treeDown, treeDeleted := del, range := box)
      ensures left_son_ptr == old(left_son_ptr) && right_son_ptr == old(right_son_ptr)
    {
      hide Valid;
      TreeSize := size;
      invalid_point_num := invalid;
      down_del_num := down;
      tree_downsample_deleted := treeDown;
      tree_deleted := del;
      node_range := box;
    }

    method UpdatedCounts() returns (size: int, invalid: int, down: int, treeDown: bool, del: bool)
      requires Linked()
      ensures var u := Spec.Update(Fields());
        size == u.size && invalid == u.invalid && down == u.downDel && treeDown == u.treeDown && del == u.treeDeleted
    {
      var l, r := left_son_ptr, right_son_ptr;
      size, invalid, down := 1, if point_deleted then 1 else 0, if point_downsample_deleted then 1 else 0;
      treeDown, del := point_downsample_deleted, point_deleted;
      if l != null {
        size, invalid, down := size + l.TreeSize, invalid + l.invalid_point_num, down + l.down_del_num;
        treeDown, del := treeDown && l.tree_downsample_deleted, del && l.tree_deleted;
      }
      if r != null {
        size, invalid, down := size + r.TreeSize, invalid + r.invalid_point_num, down + r.down_del_num;
        treeDown, del := treeDown && r.tree_downsample_deleted, del && r.tree_deleted;
      }
    }

    method UpdatedRange() returns (box: Box)
      requires Linked()
      ensures box == Spec.UpdateRange(ViewOf(left_son_ptr), ViewOf(right_son_ptr), point, point_deleted)
    {
      var l, r := left_son_ptr, right_son_ptr;
      if l != null && r != null {
        var all := l.tree_deleted && r.tree_deleted && point_deleted;
        if all || (!l.tree_deleted && !r.tree_deleted && !point_deleted) {
          return Hull(Hull(l.node_range, r.node_range), Spot(point));
        }
      } else if l != null {
        if (l.tree_deleted && point_deleted) || (!l.tree_deleted && !point_deleted) {
          return Hull(l.node_range, Spot(point));
        }
      } else if r != null {
        if (r.tree_deleted && point_deleted) || (!r.tree_deleted && !point_deleted) {
          return Hull(r.node_range, Spot(point));
        }
      } else {
        return Spot(point);
      }
      var tmp: Option<Box> := None;
      if l != null && !l.tree_deleted { tmp := Spec.Grow(tmp, l.node_range); }
      if r != null && !r.tree_deleted { tmp := Spec.Grow(tmp, r.node_range); }
      if !point_deleted { tmp := Spec.Grow(tmp, Spot(point)); }
      box := tmp.value;
    }
  }

  // ---------- whole subtrees ----------

  /** Appends the undeleted points in preorder, pushing every pending deletion on the way. */
  method flatten(root: KD_TREE_NODE?, storage: seq<Point>) returns (out: seq<Point>)
    requires root != null ==> root.Valid()
    modifies ReprOf(root)
    ensures root != null ==> root.Valid() && root.Repr == old(root.Repr)
    ensures out == storage + Spec.Flatten(old(ViewOf(root))) && ViewOf(root) == Spec.Pushed(old(ViewOf(root)))
    decreases ReprOf(root), 1
  {
    hide Spec.Flatten, Spec.Pushed, Spec.PushDown, KD_TREE_NODE.Valid;
    FlattenUnfold(ViewOf(root));
    out := storage;
    if root == null { return; }
    root.ValidIsLinked();
    root.Push_Down();
    root.ValidIsLinked();
    ghost var u := root.view;
    ghost var own := if root.point_deleted then [] else [root.point];
    if !root.point_deleted {
      out := out + [root.point];
    }
    out := FlattenChildren(root, out);
    Append(storage, own, Spec.Flatten(u.left), Spec.Flatten(u.right));
  }

  method FlattenChildren(root: KD_TREE_NODE, storage: seq<Point>) returns (out: seq<Point>)
    requires root.Valid()
    modifies root.Repr
    ensures root.Valid() && root.Repr == old(root.Repr)
    ensures
      var u := old(root.view);
      root.view == u.(left := Spec.Pushed(u.left), right := Spec.Pushed(u.right)) &&
      out == storage + Spec.Flatten(u.left) + Spec.Flatten(u.right)
    decreases root.Repr, 0
  {
    hide Spec.Flatten, Spec.Pushed, KD_TREE_NODE.Valid;
    root.ValidIsLinked();
    ghost var u := root.view;
    out := flatten(root.left_son_ptr, storage);
    out := flatten(root.right_son_ptr, out);
    assert root.Linked() && root.Fields() == u.(left := Spec.Pushed(u.left), right := Spec.Pushed(u.right));
    root.Relink();
  }

  lemma Append(a: seq<Point>, b: seq<Point>, c: seq<Point>, d: seq<Point>)
    ensures a + b + c + d == a + (b + c + d)
  {
  }

  lemma FlattenUnfold(t: Tree)
    ensures t.Nil? ==> Spec.Flatten(t) == [] && Spec.Pushed(t) == t
    ensures t.Node? ==> var u := Spec.PushDown(t);
      && Spec.Flatten(t) == (if u.pointDeleted then [] else [u.point]) + Spec.Flatten(u.left) + Spec.Flatten(u.right)
      && Spec.Pushed(t) == u.(left := Spec.Pushed(u.left), right := Spec.Pushed(u.right))
  {
    hide Spec.PushDown;
  }

  method nth_element(cfg: Config, storage: array<Point>, l: int, mid: int, r: int, axis: int)
    requires 0 <= l <= mid <= r < storage.Length && Spec.NthOk(cfg.nth)
    modifies storage
    ensures storage[l..r + 1] == cfg.nth(old(storage[l..r + 1]), mid - l, axis)
    ensures storage[..l] == old(storage[..l]) && storage[r + 1..] == old(storage[r + 1..])
    ensures |cfg.nth(old(storage[l..r + 1]), mid - l, axis)| == r + 1 - l
  {
    var s := storage[l..r + 1];
    var o := cfg.nth(s, mid - l, axis);
    assert Spec.IsNth(s, mid - l, axis, o);
    for i := 0 to |o|
      invariant storage[..l] == old(storage[..l]) && storage[r + 1..] == old(storage[r + 1..])
      invariant storage[l..l + i] == o[..i]
    {
      storage[l + i] := o[i];
      assert storage[l..l + i + 1] == storage[l..l + i] + [o[i]];
    }
  }

  method LongestAxis(storage: array<Point>, l: int, r: int) returns (axis: int)
    requires 0 <= l <= r < storage.Length
    ensures axis == Spec.LongestAxis(Spec.Bounds(storage[l..r + 1]))
  {
    var b := Spot(storage[l]);
    ghost var s := storage[l..r + 1];
    var i := l + 1;
    while i <= r
      invariant l < i <= r + 1 && b == Spec.Bounds(s[..i - l])
    {
      assert s[..i - l + 1][..i - l] == s[..i - l];
      b := Hull(b, Spot(storage[i]));
      i := i + 1;
    }
    assert s[..r + 1 - l] == s;
    axis := Spec.LongestAxis(b);
  }

  /** Builds the slice l..r of Storage into a tree, permuting the slice in place. */
  method BuildTree(cfg: Config, storage: array<Point>, l: int, r: int) returns (root: KD_TREE_NODE?)
    requires 0 <= l && r < storage.Length && l <= r + 1 && Spec.NthOk(cfg.nth)
    modifies storage
    ensures root != null ==> root.Valid() && fresh(root.Repr)
    ensures ViewOf(root) == Spec.BuildTree(cfg.nth, old(storage[l..r + 1]))
    ensures storage[..l] == old(storage[..l]) && storage[r + 1..] == old(storage[r + 1..])
    decreases r + 1 - l
  {
    hide Spec.LongestAxis, Spec.Bounds, Spec.Update, Spec.NewNode, Spec.BuildTree, Spec.IsNth, Spec.NthOk,
      KD_TREE_NODE.Valid, KD_TREE_NODE.Linked;
    ghost var s := storage[l..r + 1];
    if l > r {
      BuildEmpty(cfg, s);
      return null;
    }
    var mid := (l + r) / 2;
    ghost var k := mid - l;
    assert k == (|s| - 1) / 2;
    var axis := LongestAxis(storage, l, r);
    nth_element(cfg, storage, l, mid, r, axis);
    ghost var a := storage[..];
    ghost var o := a[l..r + 1];
    var p := storage[mid];
    assert a[l..mid] == o[..k] && a[mid + 1..r + 1] == o[k + 1..] && p == o[k];
    var left := BuildTree(cfg, storage, l, mid - 1);
    ghost var b := storage[..];
    SliceKept(a, b, l, mid, r);
    var right := BuildTree(cfg, storage, mid + 1, r);
    SliceKept2(b, storage[..], l, mid, r);
    root := new KD_TREE_NODE(p, axis, left, right);
    BuildJoin(cfg, s, k, axis, o, ViewOf(left), ViewOf(right));
    root.ValidIsLinked();
    root.Update();
  }

  lemma BuildEmpty(cfg: Config, s: seq<Point>)
    requires Spec.NthOk(cfg.nth) && |s| == 0
    ensures Spec.BuildTree(cfg.nth, s) == Spec.Nil
  {
  }

  lemma BuildJoin(cfg: Config, s: seq<Point>, k: int, axis: int, o: seq<Point>, l: Tree, r: Tree)
    requires Spec.NthOk(cfg.nth) && |s| > 0 && k == (|s| - 1) / 2 && axis == Spec.LongestAxis(Spec.Bounds(s))
    requires o == cfg.nth(s, k, axis) && |o| == |s|
    requires l == Spec.BuildTree(cfg.nth, o[..k]) && r == Spec.BuildTree(cfg.nth, o[k + 1..])
    ensures Spec.BuildTree(cfg.nth, s) == Spec.Update(Spec.NewNode(o[k], axis, l, r))
  {
    BuildUnfold(cfg, s);
  }

  lemma SliceKept(a: seq<Point>, b: seq<Point>, l: int, mid: int, r: int)
    requires 0 <= l <= mid <= r < |a| == |b| && b[..l] == a[..l] && b[mid..] == a[mid..]
    ensures b[mid + 1..r + 1] == a[mid + 1..r + 1] && b[r + 1..] == a[r + 1..]
  {
    Suffix(a, mid, mid + 1, r + 1);
    Suffix(b, mid, mid + 1, r + 1);
  }

  lemma Suffix(a: seq<Point>, m: int, i: int, j: int)
    requires 0 <= m <= i <= j <= |a|
    ensures a[i..j] == a[m..][i - m..j - m] && a[j..] == a[m..][j - m..]
  {
  }

  lemma SliceKept2(a: seq<Point>, b: seq<Point>, l: int, mid: int, r: int)
    requires 0 <= l <= mid <= r < |a| == |b| && b[..mid + 1] == a[..mid + 1]
    ensures b[..l] == a[..l]
  {
    assert b[..l] == b[..mid + 1][..l] && a[..l] == a[..mid + 1][..l];
  }

  lemma BuildUnfold(cfg: Config, s: seq<Point>)
    requires Spec.NthOk(cfg.nth)
    ensures |s| == 0 ==> Spec.BuildTree(cfg.nth, s) == Spec.Nil
    ensures |s| > 0 ==> var mid, axis := (|s| - 1) / 2, Spec.LongestAxis(Spec.Bounds(s));
      var o := cfg.nth(s, mid, axis);
      (|o| == |s| &&
       Spec.BuildTree(cfg.nth, s) ==
       Spec.Update(Spec.NewNode(o[mid], axis, Spec.BuildTree(cfg.nth, o[..mid]),
         Spec.BuildTree(cfg.nth, o[mid + 1..]))))
  {
    hide Spec.Update, Spec.NewNode, Spec.LongestAxis, Spec.Bounds;
    if |s| > 0 {
      var mid, axis := (|s| - 1) / 2, Spec.LongestAxis(Spec.Bounds(s));
      assert Spec.IsNth(s, mid, axis, cfg.nth(s, mid, axis));
    }
  }

  // ---------- rebuilding ----------

  /** The root slot after an operation: a valid tree of old and new nodes with the given value. */
  twostate predicate Became(root: KD_TREE_NODE?, new r: KD_TREE_NODE?, v: Tree)
    reads if r != null then {r} + r.Repr else {}
  {
    && (r != null ==> r.Valid() && fresh(r.Repr - old(ReprOf(root))))
    && ViewOf(r) == v
  }

  method Criterion_Check(cfg: Config, root: KD_TREE_NODE) returns (rebuild: bool)
    requires root.Valid()
    ensures rebuild == Spec.CriterionCheck(cfg, root.view)
  {
    if root.TreeSize <= Spec.MINIMAL_UNBALANCED_TREE_SIZE { return false; }
    var son := root.left_son_ptr;
    if son == null { son := root.right_son_ptr; }
    var size := if son == null then 0 else son.TreeSize;
    var rest := (root.TreeSize - 1) as real;
    ghost var t := root.view;
    if root.left_son_ptr != null { root.left_son_ptr.ValidIsLinked(); }
    if root.right_son_ptr != null { root.right_son_ptr.ValidIsLinked(); }
    assert size == if t.left.Node? then Spec.SizeOf(t.left) else Spec.SizeOf(t.right);
    var upper, lower := cfg.balanceCriterion * rest, (1.0 - cfg.balanceCriterion) * rest;
    rebuild := root.invalid_point_num as real > cfg.deleteCriterion * (root.TreeSize as real)
      || size as real > upper || (size as real) < lower;
  }

  /** Rebuild from the flattened points, unless the subtree is large enough for the background thread. */
  method Rebuild(cfg: Config, root: KD_TREE_NODE) returns (r: KD_TREE_NODE?)
    requires root.Valid() && Spec.NthOk(cfg.nth)
    modifies root.Repr
    ensures Became(root, r, Spec.Rebuild(cfg, old(root.view)))
  {
    hide Spec.NthOk;
    if root.TreeSize >= cfg.inlineLimit { return root; }
    var s := flatten(root, []);
    var storage := new Point[|s|](i requires 0 <= i < |s| => s[i]);
    assert storage[..] == s && storage[0..|s|] == s;
    r := BuildTree(cfg, storage, 0, |s| - 1);
  }

  method Settle(cfg: Config, root: KD_TREE_NODE, allow_rebuild: bool) returns (r: KD_TREE_NODE?)
    requires root.Valid() && Spec.NthOk(cfg.nth)
    modifies root.Repr
    ensures Became(root, r, Spec.Settle(cfg, old(root.view), allow_rebuild))
  {
    hide Spec.NthOk, Spec.CriterionCheck, Spec.Rebuild;
    var check := Criterion_Check(cfg, root);
    if allow_rebuild && check {
      r := Rebuild(cfg, root);
    } else {
      r := root;
    }
  }

  /** The end of every mutator: aggregates, criterion, rebuild. */
  method Finish(cfg: Config, root: KD_TREE_NODE, allow_rebuild: bool) returns (r: KD_TREE_NODE?)
    requires root.Linked() && Spec.NthOk(cfg.nth)
    modifies root.Repr
    ensures r != null ==> r.Valid() && fresh(r.Repr - old(root.Repr))
    ensures ViewOf(r) == Spec.Settle(cfg, Spec.Update(old(root.Fields())), allow_rebuild)
  {
    hide Spec.NthOk, KD_TREE_NODE.Valid, Spec.Settle, Spec.Update;
    root.Update();
    r := Settle(cfg, root, allow_rebuild);
  }

  // ---------- deletion ----------

  /** Removes the live points of the half-open box and returns their number; the result replaces
      the pointer the caller passed. */
  method Delete_by_range(cfg: Config, root: KD_TREE_NODE?, boxpoint: Box, allow_rebuild: bool, is_downsample: bool)
    returns (r: KD_TREE_NODE?, tmp_counter: int)
    requires root != null ==> root.Valid()
    requires Spec.NthOk(cfg.nth)
    modifies ReprOf(root)
    ensures Became(root, r, Spec.DeleteByRange(cfg, old(ViewOf(root)), boxpoint, allow_rebuild, is_downsample).0)
    ensures tmp_counter == Spec.DeleteByRange(cfg, old(ViewOf(root)), boxpoint, allow_rebuild, is_downsample).1
    decreases ReprOf(root), 2
  {
    hide Spec.NthOk, Spec.PushDown, KD_TREE_NODE.Valid, Misses, Covers, Spec.Settle, Spec.DeletePoint, Spec.MarkDeleted;
    if root == null { return root, 0; }
    root.ValidIsLinked();
    if root.tree_deleted { return root, 0; }
    Ops.DeleteUnfold(cfg, root.view, boxpoint, allow_rebuild, is_downsample);
    hide Spec.DeleteByRange;
    root.Push_Down();
    root.ValidIsLinked();
    if Misses(boxpoint, root.node_range) { return root, 0; }
    if Covers(boxpoint, root.node_range) {
      tmp_counter := root.TreeSize - root.invalid_point_num;
      root.MarkDeleted(is_downsample);
      return root, tmp_counter;
    }
    r, tmp_counter := DeleteWithin(cfg, root, boxpoint, allow_rebuild, is_downsample);
  }

  /** What becomes of a node that the box covers only in part, and how many points it loses. */
  function PartlyDeleted(cfg: Config, u: Tree, b: Box, allowRebuild: bool, isDownsample: bool): (Tree, int)
    requires Spec.NthOk(cfg.nth) && u.Node?
  {
    var hit := !u.pointDeleted && InBox(b, u.point);
    var l := Spec.DeleteByRange(cfg, u.left, b, allowRebuild, isDownsample);
    var r := Spec.DeleteByRange(cfg, u.right, b, allowRebuild, isDownsample);
    (Spec.Settle(cfg, Spec.DeletePoint(u, hit, isDownsample, l.0, r.0), allowRebuild), Spec.Unit(hit) + l.1 + r.1)
  }

  lemma PartlyDeletedIs(cfg: Config, u: Tree, b: Box, allowRebuild: bool, isDownsample: bool, hit: bool, l: (Tree, int),
                        r: (Tree, int))
    requires Spec.NthOk(cfg.nth) && u.Node? && hit == (!u.pointDeleted && InBox(b, u.point))
    requires l == Spec.DeleteByRange(cfg, u.left, b, allowRebuild, isDownsample)
    requires r == Spec.DeleteByRange(cfg, u.right, b, allowRebuild, isDownsample)
    ensures
      var w := u.(pointDeleted := u.pointDeleted || hit, pointDown := u.pointDown || (hit && isDownsample), left := l.0,
        right := r.0);
      PartlyDeleted(cfg, u, b, allowRebuild, isDownsample)
        == (Spec.Settle(cfg, Spec.Update(w), allowRebuild), (if hit then 1 else 0) + l.1 + r.1)
  {
  }

  /** A node that the box covers only in part: its own point, then both children. */
  method DeleteWithin(cfg: Config, root: KD_TREE_NODE, boxpoint: Box, allow_rebuild: bool, is_downsample: bool)
    returns (r: KD_TREE_NODE?, tmp_counter: int)
    requires root.Valid() && Spec.NthOk(cfg.nth)
    modifies root.Repr
    ensures old(root.view).Node?
    ensures Became(root, r, PartlyDeleted(cfg, old(root.view), boxpoint, allow_rebuild, is_downsample).0)
    ensures tmp_counter == PartlyDeleted(cfg, old(root.view), boxpoint, allow_rebuild, is_downsample).1
    decreases root.Repr, 1
  {
    hide Spec.NthOk, KD_TREE_NODE.Valid, KD_TREE_NODE.Linked, Spec.Settle, Spec.DeleteByRange, Spec.Update, InBox,
      PartlyDeleted;
    root.ValidIsLinked();
    ghost var u := root.view;
    var hit;
    hit, tmp_counter := DeleteParts(cfg, root, boxpoint, allow_rebuild, is_downsample);
    PartlyDeletedIs(cfg, u, boxpoint, allow_rebuild, is_downsample, hit,
      Spec.DeleteByRange(cfg, u.left, boxpoint, allow_rebuild, is_downsample),
      Spec.DeleteByRange(cfg, u.right, boxpoint, allow_rebuild, is_downsample));
    r := Finish(cfg, root, allow_rebuild);
  }

  method DeleteParts(cfg: Config, root: KD_TREE_NODE, boxpoint: Box, allow_rebuild: bool, is_downsample: bool)
    returns (hit: bool, n: int)
    requires root.Linked() && Spec.NthOk(cfg.nth)
    modifies root.Repr
    ensures root.Linked() && fresh(root.Repr - old(root.Repr))
    ensures var c := old(root.Fields());
      var l := Spec.DeleteByRange(cfg, c.left, boxpoint, allow_rebuild, is_downsample);
      var r := Spec.DeleteByRange(cfg, c.right, boxpoint, allow_rebuild, is_downsample);
      && hit == (!c.pointDeleted && InBox(boxpoint, c.point)) && n == (if hit then 1 else 0) + l.1 + r.1
      && root.Fields() == c.(pointDeleted := c.pointDeleted || hit, pointDown := c.pointDown || (hit && is_downsample),
         left := l.0, right := r.0)
    decreases root.Repr, 0
  {
    hide Spec.NthOk, KD_TREE_NODE.Valid, Spec.DeleteByRange, InBox, KD_TREE_NODE.Linked;
    root.ChildReprs();
    hit := root.DeleteOwn(boxpoint, is_downsample);
    var nl := DeleteLeft(cfg, root, boxpoint, allow_rebuild, is_downsample);
    var nr := DeleteRight(cfg, root, boxpoint, allow_rebuild, is_downsample);
    n := (if hit then 1 else 0) + nl + nr;
  }

  method DeleteLeft(cfg: Config, root: KD_TREE_NODE, boxpoint: Box, allow_rebuild: bool, is_downsample: bool)
    returns (n: int)
    requires root.Linked() && Spec.NthOk(cfg.nth)
    modifies root.Repr
    ensures root.Linked() && fresh(root.Repr - old(root.Repr))
    ensures var c := old(root.Fields());
      var d := Spec.DeleteByRange(cfg, c.left, boxpoint, allow_rebuild, is_downsample);
      root.Fields() == c.(left := d.0) && n == d.1
    ensures root.right_son_ptr == old(root.right_son_ptr)
    ensures ReprOf(root.right_son_ptr) == old(ReprOf(root.right_son_ptr))
    decreases ReprOf(root.left_son_ptr), 3
  {
    hide Spec.NthOk, KD_TREE_NODE.Valid, Spec.DeleteByRange;
    ghost var other := root.right_son_ptr;
    var l;
    l, n := Delete_by_range(cfg, root.left_son_ptr, boxpoint, allow_rebuild, is_downsample);
    assert other == root.right_son_ptr
      && (other != null ==> other.Valid() && other.view == old(ViewOf(root.right_son_ptr)));
    root.AttachLeft(l);
  }

  method DeleteRight(cfg: Config, root: KD_TREE_NODE, boxpoint: Box, allow_rebuild: bool, is_downsample: bool)
    returns (n: int)
    requires root.Linked() && Spec.NthOk(cfg.nth)
    modifies root.Repr
    ensures root.Linked() && fresh(root.Repr - old(root.Repr))
    ensures var c := old(root.Fields());
      var d := Spec.DeleteByRange(cfg, c.right, boxpoint, allow_rebuild, is_downsample);
      root.Fields() == c.(right := d.0) && n == d.1
    decreases ReprOf(root.right_son_ptr), 3
  {
    hide Spec.NthOk, KD_TREE_NODE.Valid, Spec.DeleteByRange;
    var r;
    r, n := Delete_by_range(cfg, root.right_son_ptr, boxpoint, allow_rebuild, is_downsample);
    root.AttachRight(r);
  }

  // ---------- insertion ----------

  method Add_by_point(cfg: Config, root: KD_TREE_NODE?, point: Point, allow_rebuild: bool, father_axis: int)
    returns (r: KD_TREE_NODE?)
    requires root != null ==> root.Valid()
    requires Spec.NthOk(cfg.nth)
    modifies ReprOf(root)
    ensures Became(root, r, Spec.AddByPoint(cfg, old(ViewOf(root)), point, allow_rebuild, father_axis))
    decreases ReprOf(root), 1
  {
    if root == null {
      var n := new KD_TREE_NODE(point, (father_axis + 1) % 3, null, null);
      n.Update();
      return n;
    }
    r := AddBelow(cfg, root, point, allow_rebuild, father_axis);
  }

  method AddBelow(cfg: Config, root: KD_TREE_NODE, point: Point, allow_rebuild: bool, father_axis: int)
    returns (r: KD_TREE_NODE?)
    requires root.Valid() && Spec.NthOk(cfg.nth)
    modifies root.Repr
    ensures Became(root, r, Spec.AddByPoint(cfg, old(root.view), point, allow_rebuild, father_axis))
    decreases root.Repr, 0
  {
    hide Spec.NthOk, Spec.PushDown, KD_TREE_NODE.Valid, KD_TREE_NODE.Linked, Spec.Settle, Spec.AddByPoint, Spec.Update,
      Spec.GoesLeft;
    root.ValidIsLinked();
    Ops.AddUnfold(cfg, root.view, point, allow_rebuild, father_axis);
    root.Push_Down();
    root.ValidIsLinked();
    root.ChildReprs();
    var axis := root.division_axis;
    var goesLeft := root.GoesLeft(point);
    if goesLeft {
      AddLeft(cfg, root, point, allow_rebuild);
    } else {
      AddRight(cfg, root, point, allow_rebuild);
    }
    r := Finish(cfg, root, allow_rebuild);
  }

  method AddLeft(cfg: Config, root: KD_TREE_NODE, point: Point, allow_rebuild: bool)
    requires root.Linked() && Spec.NthOk(cfg.nth)
    modifies root.Repr
    ensures root.Linked() && fresh(root.Repr - old(root.Repr))
    ensures var c := old(root.Fields());
      root.Fields() == c.(left := Spec.AddByPoint(cfg, c.left, point, allow_rebuild, c.axis))
    decreases ReprOf(root.left_son_ptr), 2
  {
    hide Spec.NthOk, KD_TREE_NODE.Valid, Spec.AddByPoint;
    var c := Add_by_point(cfg, root.left_son_ptr, point, allow_rebuild, root.division_axis);
    root.AttachLeft(c);
  }

  method AddRight(cfg: Config, root: KD_TREE_NODE, point: Point, allow_rebuild: bool)
    requires root.Linked() && Spec.NthOk(cfg.nth)
    modifies root.Repr
    ensures root.Linked() && fresh(root.Repr - old(root.Repr))
    ensures var c := old(root.Fields());
      root.Fields() == c.(right := Spec.AddByPoint(cfg, c.right, point, allow_rebuild, c.axis))
    decreases ReprOf(root.right_son_ptr), 2
  {
    hide Spec.NthOk, KD_TREE_NODE.Valid, Spec.AddByPoint;
    var c := Add_by_point(cfg, root.right_son_ptr, point, allow_rebuild, root.division_axis);
    root.AttachRight(c);
  }

  // ---------- range search ----------

  /** Appends the live points of the half-open box, pushing pending deletions on the way. */
  method Search_by_range(root: KD_TREE_NODE?, boxpoint: Box, storage: seq<Point>) returns (out: seq<Point>)
    requires root != null ==> root.Valid()
    modifies ReprOf(root)
    ensures root != null ==> root.Valid() && root.Repr == old(root.Repr)
    ensures var f := Spec.SearchByRange(old(ViewOf(root)), boxpoint); ViewOf(root) == f.0 && out == storage + f.1
    decreases ReprOf(root), 1
  {
    hide Spec.PushDown, KD_TREE_NODE.Valid, Misses, Covers, InBox, Spec.Pushed, Spec.Flatten;
    out := storage;
    if root == null { return; }
    root.ValidIsLinked();
    Ops.SearchUnfold(root.view, boxpoint);
    hide Spec.SearchByRange;
    root.Push_Down();
    root.ValidIsLinked();
    ghost var u := root.view;
    if Misses(boxpoint, root.node_range) { return; }
    if Covers(boxpoint, root.node_range) {
      out := flatten(root, out);
      return;
    }
    ghost var own := if InBox(boxpoint, root.point) && !root.point_deleted then [root.point] else [];
    if InBox(boxpoint, root.point) {
      if !root.point_deleted { out := out + [root.point]; }
    }
    out := SearchChildren(root, boxpoint, out);
    ghost var l, r := Spec.SearchByRange(u.left, boxpoint), Spec.SearchByRange(u.right, boxpoint);
    Append(storage, own, l.1, r.1);
  }

  method SearchChildren(root: KD_TREE_NODE, boxpoint: Box, storage: seq<Point>) returns (out: seq<Point>)
    requires root.Valid()
    modifies root.Repr
    ensures root.Valid() && root.Repr == old(root.Repr)
    ensures
      var u := old(root.view);
      var l, r := Spec.SearchByRange(u.left, boxpoint), Spec.SearchByRange(u.right, boxpoint);
      root.view == u.(left := l.0, right := r.0) && out == storage + l.1 + r.1
    decreases root.Repr, 0
  {
    hide KD_TREE_NODE.Valid, Spec.SearchByRange;
    root.ValidIsLinked();
    ghost var u := root.view;
    out := Search_by_range(root.left_son_ptr, boxpoint, storage);
    out := Search_by_range(root.right_son_ptr, boxpoint, out);
    ghost var l, r := Spec.SearchByRange(u.left, boxpoint), Spec.SearchByRange(u.right, boxpoint);
    assert root.Linked() && root.Fields() == u.(left := l.0, right := r.0);
    root.Relink();
  }

  ghost function ViewOf(n: KD_TREE_NODE?): Tree
    reads n
  {
    if n == null then Spec.Nil else n.view
  }

  ghost function ReprOf(n: KD_TREE_NODE?): set<object>
    reads n
  {
    if n == null then {} else n.Repr
  }
}
