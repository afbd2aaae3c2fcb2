/** Weight balance of the ikd-Tree: what the criterion check and the inline rebuild keep, and the
    height bound that follows. */
module IkdBalance {
  import opened Geometry
  import opened IkdTree
  import opened IkdInvariant
  import opened IkdOperations

  /** The share of a child, the share of deleted points, and the size from which neither is kept. */
  datatype Limits = Limits(share: real, dead: real, size: int)

  function LimitsOf(cfg: Config): Limits { Limits(cfg.balanceCriterion, cfg.deleteCriterion, cfg.inlineLimit) }

  predicate NoMore(part: int, share: real, all: int) { part as real <= share * (all as real) }

  /** In a node of more than ten (and fewer than the limit) nodes neither child outweighs its share,
      and unless the node is deleted itself, neither do the deleted points below it. */
  predicate NodeBalanced(lim: Limits, t: Tree)
    requires t.Node?
  {
    MINIMAL_UNBALANCED_TREE_SIZE < t.size < lim.size ==>
      && NoMore(SizeOf(t.left), lim.share, t.size - 1)
      && NoMore(SizeOf(t.right), lim.share, t.size - 1)
      && (t.treeDeleted || NoMore(t.invalid, lim.dead, t.size))
  }

  predicate Balanced(lim: Limits, t: Tree) {
    t.Node? ==> NodeBalanced(lim, t) && Balanced(lim, t.left) && Balanced(lim, t.right)
  }

  predicate Usual(lim: Limits) { 6.0 / 11.0 <= lim.share < 1.0 && lim.dead >= 0.0 }

  // ---------- a fresh build ----------

  lemma ScaleUp(a: real, b: real, x: real)
    requires a <= b && x >= 0.0
    ensures a * x <= b * x
  {
    assert (b - a) * x >= 0.0;
  }

  lemma HalfShare(bal: real, n: int, half: real, rest: real)
    requires 6.0 / 11.0 <= bal < 1.0 && n > MINIMAL_UNBALANCED_TREE_SIZE
    requires half == ((n - 1) / 2) as real && rest == (n - 1) as real
    ensures half <= bal * rest && rest - half <= bal * rest && half >= (1.0 - bal) * rest
  {
    ScaleUp(6.0, 11.0 * bal, rest);
    var share := bal * rest;
    assert (11.0 * bal) * rest == 11.0 * share;
    assert 5 * (n - 1) <= 11 * ((n - 1) / 2) && 2 * ((n - 1) / 2) <= n - 1;
    assert 5.0 * rest <= 11.0 * half && 2.0 * half <= rest;
    assert 6.0 * rest <= 11.0 * share;
    assert 11.0 * half <= 6.0 * rest;
    assert half <= share;
    assert (1.0 - bal) * rest == rest - bal * rest;
  }

  lemma BuildUnfold(nth: NthElement, s: seq<Point>, mid: nat, o: seq<Point>)
    requires NthOk(nth) && |s| > 0 && mid == (|s| - 1) / 2 && o == nth(s, mid, LongestAxis(Bounds(s)))
    ensures |o| == |s| && mid < |s|
    ensures BuildTree(nth, s)
      == Update(NewNode(o[mid], LongestAxis(Bounds(s)), BuildTree(nth, o[..mid]), BuildTree(nth, o[mid + 1..])))
  {
    hide Update, NewNode, LongestAxis, Bounds;
    assert IsNth(s, mid, LongestAxis(Bounds(s)), nth(s, mid, LongestAxis(Bounds(s))));
  }

  lemma JoinBalanced(p: Point, axis: int, l: Tree, r: Tree, n: int, lim: Limits)
    requires Balanced(lim, l) && Balanced(lim, r) && n >= 1 && Usual(lim) && InvalidOf(l) == 0 && InvalidOf(r) == 0
    requires SizeOf(l) == (n - 1) / 2 && SizeOf(r) == n - 1 - (n - 1) / 2
    ensures var t := Update(NewNode(p, axis, l, r));
      Balanced(lim, t) && SizeOf(t) == n && InvalidOf(t) == 0 && t.left == l && t.right == r
  {
    if n > MINIMAL_UNBALANCED_TREE_SIZE { HalfShare(lim.share, n, ((n - 1) / 2) as real, (n - 1) as real); }
    ScaleUp(0.0, lim.dead, n as real);
  }

  /** A built tree splits into floor((n-1)/2) and ceil((n-1)/2) nodes and is balanced throughout. */
  lemma {:induction false} BuildBalanced(nth: NthElement, s: seq<Point>, lim: Limits)
    requires NthOk(nth) && Usual(lim)
    ensures var t := BuildTree(nth, s); Balanced(lim, t) && SizeOf(t) == |s| && InvalidOf(t) == 0
    ensures |s| > 0 ==> var t := BuildTree(nth, s);
      SizeOf(t.left) == (|s| - 1) / 2 && SizeOf(t.right) == |s| - 1 - (|s| - 1) / 2
    decreases |s|
  {
    if |s| > 0 {
      hide *;
      var mid, axis := (|s| - 1) / 2, LongestAxis(Bounds(s));
      var o := nth(s, mid, axis);
      BuildUnfold(nth, s, mid, o);
      BuildBalanced(nth, o[..mid], lim);
      BuildBalanced(nth, o[mid + 1..], lim);
      JoinBalanced(o[mid], axis, BuildTree(nth, o[..mid]), BuildTree(nth, o[mid + 1..]), |s|, lim);
    }
  }

  /** Exactly when the criterion asks for a rebuild, in numbers of nodes and live points: more than ten nodes,
      and too large a share of deleted points or of nodes in one child. */
  lemma CriterionIff(cfg: Config, t: Tree)
    requires t.Node? && Inv(t)
    ensures CriterionCheck(cfg, t) <==>
      && Count(t) > 10
      && (|| (Count(t) - |Live(t)|) as real > cfg.deleteCriterion * (Count(t) as real)
          || Count(t.left) as real > cfg.balanceCriterion * ((Count(t) - 1) as real)
          || Count(t.right) as real > cfg.balanceCriterion * ((Count(t) - 1) as real))
  {
    hide *;
    Counts(t);
    CriterionSizes(cfg, t, SizeOf(t.left), SizeOf(t.right));
  }

  lemma CriterionSizes(cfg: Config, t: Tree, a: int, b: int)
    requires t.Node? && a == SizeOf(t.left) >= 0 && b == SizeOf(t.right) >= 0 && t.size == a + b + 1
    ensures CriterionCheck(cfg, t) <==>
      && t.size > 10
      && (|| t.invalid as real > cfg.deleteCriterion * (t.size as real)
          || a as real > cfg.balanceCriterion * ((t.size - 1) as real)
          || b as real > cfg.balanceCriterion * ((t.size - 1) as real))
  {
    OneOrOther(cfg.balanceCriterion, t.size - 1, a, b);
    OneOrOther(cfg.balanceCriterion, t.size - 1, b, a);
  }

  lemma Counts(t: Tree)
    requires t.Node? && Inv(t)
    ensures t.size == Count(t) && SizeOf(t.left) == Count(t.left) && SizeOf(t.right) == Count(t.right)
    ensures t.invalid == Count(t) - |Live(t)| && t.size == SizeOf(t.left) + SizeOf(t.right) + 1
    ensures SizeOf(t.left) >= 0 && SizeOf(t.right) >= 0
  {
    SizeIsCount(t);
    SizeIsCount(t.left);
    SizeIsCount(t.right);
    CountersExact(t);
    hide Live;
  }

  /** A child is below its share by as much as the other is above. */
  lemma OneOrOther(bal: real, rest: int, a: int, b: int)
    requires a + b == rest && a >= 0 && b >= 0
    ensures (a as real) < (1.0 - bal) * (rest as real) <==> b as real > bal * (rest as real)
    ensures b == 0 && 0.0 > bal * (rest as real) ==> a as real > bal * (rest as real)
  {
    assert (1.0 - bal) * (rest as real) == rest as real - bal * (rest as real);
  }

  /** A freshly built tree does not trip the criterion that asked for it. */
  lemma BuildNotRetriggered(cfg: Config, s: seq<Point>)
    requires Regular(cfg) && |s| > 0
    ensures !CriterionCheck(cfg, BuildTree(cfg.nth, s))
  {
    hide BuildTree;
    var t := BuildTree(cfg.nth, s);
    BuildExact(cfg.nth, s);
    BuildBalanced(cfg.nth, s, LimitsOf(cfg));
    if t.size > MINIMAL_UNBALANCED_TREE_SIZE {
      HalfShare(cfg.balanceCriterion, t.size, ((t.size - 1) / 2) as real, (t.size - 1) as real);
      ScaleUp(0.0, cfg.deleteCriterion, t.size as real);
      assert t.left.Node?;
    }
  }

  // ---------- what the operations keep ----------

  lemma PushToBalanced(lim: Limits, del: bool, down: bool, c: Tree)
    requires c.Node? && Balanced(lim, c) && (down ==> del) && (!del ==> FreshLeaf(c))
    ensures Balanced(lim, PushTo(del, down, c)) && PushTo(del, down, c).size == c.size
  {
  }

  lemma PushDownBalanced(lim: Limits, t: Tree)
    requires t.Node? && Balanced(lim, t) && Inv(t)
    ensures var u := PushDown(t); u.size == t.size && Balanced(lim, u)
  {
    hide PushTo, NodeBalanced;
    if t.left.Node? && t.pushLeft { PushToBalanced(lim, t.treeDeleted, t.treeDown, t.left); }
    if t.right.Node? && t.pushRight { PushToBalanced(lim, t.treeDeleted, t.treeDown, t.right); }
    var u := PushDown(t);
    SameShareBalanced(lim, t, u);
  }

  lemma SameShareBalanced(lim: Limits, t: Tree, u: Tree)
    requires t.Node? && u.Node? && NodeBalanced(lim, t) && u.size == t.size && u.invalid == t.invalid
    requires u.treeDeleted == t.treeDeleted
    requires SizeOf(u.left) == SizeOf(t.left) && SizeOf(u.right) == SizeOf(t.right)
    ensures NodeBalanced(lim, u)
  {
    hide SizeOf;
  }

  lemma BalancedParts(lim: Limits, u: Tree)
    requires u.Node? && Balanced(lim, u)
    ensures Balanced(lim, u.left) && Balanced(lim, u.right)
  {
  }

  lemma NodeBalancedReplace(lim: Limits, u: Tree, l: Tree, r: Tree)
    requires u.Node? && NodeBalanced(lim, u) && SizeOf(l) == SizeOf(u.left) && SizeOf(r) == SizeOf(u.right)
    ensures NodeBalanced(lim, u.(left := l, right := r))
  {
  }

  lemma BalancedReplace(lim: Limits, u: Tree, l: Tree, r: Tree)
    requires u.Node? && Balanced(lim, u) && Balanced(lim, l) && Balanced(lim, r)
    requires SizeOf(l) == SizeOf(u.left) && SizeOf(r) == SizeOf(u.right)
    ensures Balanced(lim, u.(left := l, right := r)) && SizeOf(u.(left := l, right := r)) == u.size
  {
    hide NodeBalanced;
    NodeBalancedReplace(lim, u, l, r);
  }

  lemma CountParts(t: Tree)
    requires t.Node?
    ensures Count(PushDown(t).left) < Count(t) && Count(PushDown(t).right) < Count(t)
  {
  }

  lemma PushedUnfold(t: Tree)
    requires t.Node?
    ensures var u := PushDown(t); Pushed(t) == u.(left := Pushed(u.left), right := Pushed(u.right))
  {
    hide PushDown;
  }

  lemma {:induction false} PushedBalanced(lim: Limits, t: Tree)
    requires Balanced(lim, t) && Inv(t)
    ensures Balanced(lim, Pushed(t)) && SizeOf(Pushed(t)) == SizeOf(t)
    decreases Count(t)
  {
    if t.Nil? { return; }
    hide *;
    var u := PushDown(t);
    PushDownBalanced(lim, t);
    PushDownKeeps(t);
    Halves(t, u);
    BalancedParts(lim, u);
    PushedUnfold(t);
    PushedBalanced(lim, u.left);
    PushedBalanced(lim, u.right);
    BalancedReplace(lim, u, Pushed(u.left), Pushed(u.right));
    SizeOfNode(t);
  }

  lemma SizeOfNode(t: Tree)
    requires t.Node?
    ensures SizeOf(t) == t.size
  {
  }

  lemma CheckMeans(cfg: Config, t: Tree, son: int)
    requires t.Node? && t.size > MINIMAL_UNBALANCED_TREE_SIZE && !CriterionCheck(cfg, t)
    requires son == if t.left.Node? then SizeOf(t.left) else SizeOf(t.right)
    ensures NoMore(son, cfg.balanceCriterion, t.size - 1) && NoMore(t.invalid, cfg.deleteCriterion, t.size)
    ensures (1.0 - cfg.balanceCriterion) * ((t.size - 1) as real) <= son as real
  {
  }

  lemma OtherShare(share: real, all: int, son: int, other: int)
    requires (1.0 - share) * (all as real) <= son as real && son + other == all
    ensures NoMore(other, share, all)
  {
    assert (1.0 - share) * (all as real) == all as real - share * (all as real);
  }

  lemma Smaller(a: int, b: int, share: real, all: int)
    requires a <= b && NoMore(b, share, all)
    ensures NoMore(a, share, all)
  {
  }

  /** The children of a node that passes the check weigh no more than their share. */
  lemma CheckedBalanced(cfg: Config, t: Tree)
    requires t.Node? && t.size == SizeOf(t.left) + SizeOf(t.right) + 1 && !CriterionCheck(cfg, t)
    ensures NodeBalanced(LimitsOf(cfg), t)
  {
    hide NoMore, CriterionCheck;
    if t.size > MINIMAL_UNBALANCED_TREE_SIZE {
      var son := if t.left.Node? then SizeOf(t.left) else SizeOf(t.right);
      CheckMeans(cfg, t, son);
      if t.left.Node? {
        OtherShare(cfg.balanceCriterion, t.size - 1, son, SizeOf(t.right));
      } else {
        Smaller(0, son, cfg.balanceCriterion, t.size - 1);
      }
    }
  }

  ghost predicate Regular(cfg: Config) {
    NthOk(cfg.nth) && Usual(LimitsOf(cfg))
  }

  ghost predicate InBalance(cfg: Config, t: Tree) {
    Balanced(LimitsOf(cfg), t)
  }

  lemma SettleBalanced(cfg: Config, t: Tree)
    requires Regular(cfg) && t.Node? && Inv(t) && InBalance(cfg, t.left) && InBalance(cfg, t.right)
    ensures InBalance(cfg, Settle(cfg, t, true))
  {
    if CriterionCheck(cfg, t) {
      if t.size < cfg.inlineLimit { BuildBalanced(cfg.nth, Flatten(t), LimitsOf(cfg)); }
    } else {
      CheckedBalanced(cfg, t);
    }
  }

  /** With rebuilds inline, Delete_by_range leaves every node below the limit balanced. */
  lemma {:induction false} DeleteBalanced(cfg: Config, t: Tree, b: Box, isDownsample: bool)
    requires Regular(cfg) && Inv(t) && InBalance(cfg, t)
    ensures InBalance(cfg, DeleteByRange(cfg, t, b, true, isDownsample).0)
    decreases Count(t), 1
  {
    if Alive(t) {
      DeleteLiveBalanced(cfg, t, b, isDownsample);
    }
  }

  lemma MarkBalanced(cfg: Config, u: Tree, isDownsample: bool)
    requires u.Node? && InBalance(cfg, u)
    ensures InBalance(cfg, MarkDeleted(u, isDownsample)) && InBalance(cfg, u.left) && InBalance(cfg, u.right)
  {
    hide NoMore;
  }

  lemma DeletePointBalanced(cfg: Config, u: Tree, b: Box, hit: bool, isDownsample: bool, l: (Tree, int), r: (Tree, int))
    requires Regular(cfg) && Alive(u) && Inv(u) && Settled(u) && !Covers(b, u.range)
    requires hit == (!u.pointDeleted && InBox(b, u.point))
    requires Deleted(u.left, b, l) && Deleted(u.right, b, r) && InBalance(cfg, l.0) && InBalance(cfg, r.0)
    ensures InBalance(cfg, Settle(cfg, DeletePoint(u, hit, isDownsample, l.0, r.0), true))
  {
    DeletePointExact(u, b, hit, isDownsample, l.0, r.0);
    SettleBalanced(cfg, DeletePoint(u, hit, isDownsample, l.0, r.0));
  }

  lemma {:induction false} DeleteLiveBalanced(cfg: Config, t: Tree, b: Box, isDownsample: bool)
    requires Regular(cfg) && Inv(t) && InBalance(cfg, t) && Alive(t)
    ensures InBalance(cfg, DeleteByRange(cfg, t, b, true, isDownsample).0)
    decreases Count(t), 0
  {
    hide *;
    assert NthOk(cfg.nth) && t.Node? && InBalance(cfg, PushDown(t)) && Alive(PushDown(t)) by { DeleteFacts(cfg, t); }
    var u := PushDown(t);
    PushDownKeeps(t);
    DeleteUnfold(cfg, t, b, true, isDownsample);
    MarkBalanced(cfg, u, isDownsample);
    if !Misses(b, u.range) && !Covers(b, u.range) {
      Halves(t, u);
      DeleteBalanced(cfg, u.left, b, isDownsample);
      DeleteBalanced(cfg, u.right, b, isDownsample);
      DeleteExact(cfg, u.left, b, true, isDownsample);
      DeleteExact(cfg, u.right, b, true, isDownsample);
      DeletePointBalanced(cfg, u, b, !u.pointDeleted && InBox(b, u.point), isDownsample,
        DeleteByRange(cfg, u.left, b, true, isDownsample), DeleteByRange(cfg, u.right, b, true, isDownsample));
    }
  }

  lemma DeleteFacts(cfg: Config, t: Tree)
    requires Regular(cfg) && Inv(t) && Alive(t) && InBalance(cfg, t)
    ensures NthOk(cfg.nth) && t.Node? && InBalance(cfg, PushDown(t)) && Alive(PushDown(t))
  {
    PushDownBalanced(LimitsOf(cfg), t);
  }

  /** With rebuilds inline, Add_by_point leaves every node below the limit balanced. */
  lemma {:induction false} AddBalanced(cfg: Config, t: Tree, p: Point, fatherAxis: int)
    requires Regular(cfg) && Inv(t) && InBalance(cfg, t) && 0 <= fatherAxis < 3
    ensures InBalance(cfg, AddByPoint(cfg, t, p, true, fatherAxis))
    decreases Count(t)
  {
    hide *;
    NilBalanced(cfg, t, p, fatherAxis);
    if t.Nil? { return; }
    assert NthOk(cfg.nth) && InBalance(cfg, PushDown(t)) && InBalance(cfg, PushDown(t).left)
      && InBalance(cfg, PushDown(t).right) by {
      AddFacts(cfg, t);
    }
    var u := PushDown(t);
    PushDownKeeps(t);
    AddUnfold(cfg, t, p, true, fatherAxis);
    Halves(t, u);
    var c := if GoesLeft(u, p) then u.left else u.right;
    AddBalanced(cfg, c, p, u.axis);
    AddExact(cfg, c, p, true, u.axis);
    AddStepBalanced(cfg, u, GoesLeft(u, p), AddByPoint(cfg, c, p, true, u.axis), p);
  }

  lemma NilBalanced(cfg: Config, t: Tree, p: Point, fatherAxis: int)
    requires Regular(cfg)
    ensures NthOk(cfg.nth) && (t.Nil? ==> InBalance(cfg, AddByPoint(cfg, t, p, true, fatherAxis)))
  {
  }

  lemma AddFacts(cfg: Config, t: Tree)
    requires Regular(cfg) && Inv(t) && t.Node? && InBalance(cfg, t)
    ensures var u := PushDown(t);
      NthOk(cfg.nth) && InBalance(cfg, u) && InBalance(cfg, u.left) && InBalance(cfg, u.right)
  {
    PushDownBalanced(LimitsOf(cfg), t);
  }

  lemma AddStepBalanced(cfg: Config, u: Tree, isLeft: bool, c: Tree, p: Point)
    requires Regular(cfg) && u.Node? && Inv(u) && Settled(u) && InBalance(cfg, u) && InBalance(cfg, c)
    requires Added(if isLeft then u.left else u.right, p, c)
    ensures InBalance(cfg, Settle(cfg, Update(if isLeft then u.(left := c) else u.(right := c)), true))
  {
    AddChildExact(u, isLeft, c, p);
    SettleBalanced(cfg, Update(if isLeft then u.(left := c) else u.(right := c)));
  }

  /** A range search only pushes flags down, so it moves no weight. */
  lemma {:induction false} SearchBalanced(lim: Limits, t: Tree, b: Box)
    requires Balanced(lim, t) && Inv(t)
    ensures Balanced(lim, SearchByRange(t, b).0) && SizeOf(SearchByRange(t, b).0) == SizeOf(t)
    decreases Count(t)
  {
    if t.Nil? { return; }
    hide *;
    var u := PushDown(t);
    PushDownBalanced(lim, t);
    PushDownKeeps(t);
    Halves(t, u);
    BalancedParts(lim, u);
    SearchUnfold(t, b);
    PushedBalanced(lim, u);
    SizeOfNode(t);
    SizeOfNode(u);
    SearchBalanced(lim, u.left, b);
    SearchBalanced(lim, u.right, b);
    BalancedReplace(lim, u, SearchByRange(u.left, b).0, SearchByRange(u.right, b).0);
  }

  // ---------- height ----------

  function Height(t: Tree): nat {
    if t.Nil? then 0 else 1 + if Height(t.left) >= Height(t.right) then Height(t.left) else Height(t.right)
  }

  function Pow(b: nat, e: nat): nat { if e == 0 then 1 else b * Pow(b, e - 1) }

  lemma {:induction false} HeightWithinCount(t: Tree)
    ensures Height(t) <= Count(t)
  {
    if t.Node? {
      HeightWithinCount(t.left);
      HeightWithinCount(t.right);
    }
  }

  lemma PowStep(e: nat, size: int, child: int)
    requires 5 * child <= 3 * (size - 1) && Pow(5, e) <= Pow(3, e) * child
    ensures Pow(5, e + 1) <= Pow(3, e + 1) * size
  {
    var a, c := Pow(5, e), Pow(3, e);
    assert 5 * a <= 5 * (c * child) == c * (5 * child);
    assert c * (5 * child) <= c * (3 * size);
    assert c * (3 * size) == 3 * c * size;
  }

  /** The taller child of a tall balanced tree. */
  lemma TallerChild(lim: Limits, t: Tree) returns (c: Tree)
    requires Inv(t) && lim.share == 0.6 && Balanced(lim, t) && SizeOf(t) < lim.size && Height(t) > 10
    ensures Inv(c) && lim.share == 0.6 && Balanced(lim, c) && SizeOf(c) < lim.size && Height(c) == Height(t) - 1
    ensures SizeOf(t) > 10 && 5 * SizeOf(c) <= 3 * (SizeOf(t) - 1)
  {
    c := if Height(t.left) >= Height(t.right) then t.left else t.right;
    SizeIsCount(t);
    SizeIsCount(t.left);
    SizeIsCount(t.right);
    HeightWithinCount(t);
    assert c.Node? ==> c.size as real <= 0.6 * (t.size - 1) as real;
  }

  /** At the balance parameter 0.6, a subtree of height h > 10 has at least (5/3)^(h-10) nodes. */
  lemma {:induction false} HeightBound(lim: Limits, t: Tree)
    requires Inv(t) && lim.share == 0.6 && Balanced(lim, t) && SizeOf(t) < lim.size && Height(t) > 10
    ensures Pow(5, Height(t) - 10) <= Pow(3, Height(t) - 10) * SizeOf(t)
    decreases Height(t)
  {
    hide Inv, Balanced, SizeOf, Height;
    var c := TallerChild(lim, t);
    if Height(c) > 10 {
      hide Pow;
      HeightBound(lim, c);
      PowStep(Height(c) - 10, SizeOf(t), SizeOf(c));
    } else {
      assert Pow(5, 0) == 1 && Pow(3, 0) == 1 && Pow(5, 1) == 5 && Pow(3, 1) == 3;
    }
  }
}
