/** The background rebuild of a large subtree, as a system of atomic steps of two threads: the main
    thread keeps editing the subtree and logs its edits, the rebuild thread copies the live points,
    builds a new subtree, replays the log on it and swaps it in. */
module IkdConcurrent {
  import opened Geometry
  import opened IkdTree
  import opened IkdInvariant
  import opened IkdOperations

  /** What Rebuild_Logger records. */
  datatype Op =
    | ADD_POINT(point: Point)
    | DELETE_BOX(box: Box)
    | DOWNSAMPLE_DELETE(box: Box)
    | PUSH_DOWN(treeDeleted: bool, treeDown: bool)

  /** run_operation; the edit of the subtree itself is the same, as no rebuild is allowed below it. */
  function RunOperation(cfg: Config, t: Tree, op: Op): Tree
    requires NthOk(cfg.nth) && t.Node?
  {
    match op
    case ADD_POINT(p) => AddByPoint(cfg, t, p, false, t.axis)
    case DELETE_BOX(b) => DeleteByRange(cfg, t, b, false, false).0
    case DOWNSAMPLE_DELETE(b) => DeleteByRange(cfg, t, b, false, true).0
    case PUSH_DOWN(del, down) => PushTo(del, down, t)
  }

  /** The same operation on the plain multiset of live points. */
  ghost function Effect(op: Op, m: multiset<Point>): multiset<Point> {
    match op
    case ADD_POINT(p) => m + multiset{p}
    case DELETE_BOX(b) => Outside(m, b)
    case DOWNSAMPLE_DELETE(b) => Outside(m, b)
    case PUSH_DOWN(del, _) => if del then multiset{} else m
  }

  ghost function Replay(ops: seq<Op>, m: multiset<Point>): multiset<Point> {
    if ops == [] then m else Replay(ops[1..], Effect(ops[0], m))
  }

  /** A push-down that reaches the subtree carries a deletion of the whole of it. */
  predicate Deleting(op: Op) { op.PUSH_DOWN? ==> op.treeDeleted }

  predicate AllDeleting(ops: seq<Op>) { forall i :: 0 <= i < |ops| ==> Deleting(ops[i]) }

  /** What Push_Down at a consistent parent passes to a child of more than one node deletes it. */
  lemma PushDownDeletes(parent: Tree)
    requires parent.Node? && Inv(parent)
    ensures parent.pushLeft && SizeOf(parent.left) > 1 ==> parent.treeDeleted
    ensures parent.pushRight && SizeOf(parent.right) > 1 ==> parent.treeDeleted
  {
  }

  lemma {:induction false} ReplayAppend(a: seq<Op>, b: seq<Op>, m: multiset<Point>)
    ensures Replay(a + b, m) == Replay(b, Replay(a, m))
    decreases |a|
  {
    hide Effect;
    if a == [] {
      assert a + b == b;
    } else {
      assert (a + b)[1..] == a[1..] + b;
      ReplayAppend(a[1..], b, Effect(a[0], m));
    }
  }

  // ---------- replaying, point by point ----------

  /** The operation removes every copy of p. */
  predicate Wipes(op: Op, p: Point) {
    match op
    case ADD_POINT(_) => false
    case DELETE_BOX(b) => InBox(b, p)
    case DOWNSAMPLE_DELETE(b) => InBox(b, p)
    case PUSH_DOWN(del, _) => del
  }

  predicate Wiped(ops: seq<Op>, p: Point) { exists i :: 0 <= i < |ops| && Wipes(ops[i], p) }

  /** The copies of p that a list of operations adds and does not remove again. */
  function Added(ops: seq<Op>, p: Point): nat {
    if ops == [] then 0
    else
      var last := ops[|ops| - 1];
      if Wipes(last, p) then 0 else Added(ops[..|ops| - 1], p) + if last == ADD_POINT(p) then 1 else 0
  }

  lemma EffectCount(op: Op, m: multiset<Point>, p: Point)
    ensures Effect(op, m)[p] == if Wipes(op, p) then 0 else m[p] + if op == ADD_POINT(p) then 1 else 0
  {
  }

  /** A list of operations either keeps the copies of a point that were there or removes them all, and
      adds a number that does not depend on them. */
  lemma {:induction false} ReplayCount(ops: seq<Op>, m: multiset<Point>, p: Point)
    ensures Replay(ops, m)[p] == (if Wiped(ops, p) then 0 else m[p]) + Added(ops, p)
    decreases |ops|
  {
    hide Effect, Wipes;
    if ops != [] {
      var n := |ops| - 1;
      assert ops == ops[..n] + [ops[n]];
      ReplayCount(ops[..n], m, p);
      ReplayAppend(ops[..n], [ops[n]], m);
      ReplayOne(ops[n], Replay(ops[..n], m));
      EffectCount(ops[n], Replay(ops[..n], m), p);
      WipedLast(ops, p);
    }
  }

  lemma WipedLast(ops: seq<Op>, p: Point)
    requires ops != []
    ensures Wiped(ops, p) <==> Wiped(ops[..|ops| - 1], p) || Wipes(ops[|ops| - 1], p)
  {
    hide Wipes;
    var n := |ops| - 1;
    if Wiped(ops, p) {
      var i :| 0 <= i < |ops| && Wipes(ops[i], p);
      assert i < n ==> ops[..n][i] == ops[i];
    }
    if Wiped(ops[..n], p) {
      var i :| 0 <= i < n && Wipes(ops[..n][i], p);
      assert ops[i] == ops[..n][i];
    }
  }

  /** Making the operations a second time, before the later ones, changes nothing: wherever the later
      ones do not remove a point anyway, they add no copy to those found, or remove them and add as many. */
  ghost predicate Harmless(stale: seq<Op>, since: seq<Op>, snap: multiset<Point>) {
    forall p :: Wiped(since, p) || Added(stale, p) == if Wiped(stale, p) then snap[p] else 0
  }

  lemma HarmlessIff(stale: seq<Op>, since: seq<Op>, snap: multiset<Point>)
    ensures Harmless(stale, since, snap) <==> Replay(since, Replay(stale, snap)) == Replay(since, snap)
  {
    hide Wiped, Added, Replay;
    var twice, once := Replay(since, Replay(stale, snap)), Replay(since, snap);
    forall p
      ensures (Wiped(since, p) || Added(stale, p) == if Wiped(stale, p) then snap[p] else 0) <==> twice[p] == once[p]
    {
      ReplayCount(since, Replay(stale, snap), p);
      ReplayCount(since, snap, p);
      ReplayCount(stale, snap, p);
    }
    if Harmless(stale, since, snap) {
      assert forall p :: twice[p] == once[p];
    }
  }

  /** For one operation: an insertion is harmless only if its point is removed later, a deletion only if
      every point it covers in the snapshot is. */
  lemma HarmlessOne(op: Op, since: seq<Op>, snap: multiset<Point>)
    ensures Harmless([op], since, snap) <==>
      if op.ADD_POINT? then Wiped(since, op.point) else forall p :: p in snap && Wipes(op, p) ==> Wiped(since, p)
  {
    forall p ensures Wiped([op], p) == Wipes(op, p) && Added([op], p) == if op == ADD_POINT(p) then 1 else 0 {
      assert [op][0] == op && [op][..0] == [];
      WipedLast([op], p);
    }
    hide Wiped, Added, Wipes;
    if op.ADD_POINT? { AddWipesNothing(op); }
  }

  lemma AddWipesNothing(op: Op)
    requires op.ADD_POINT?
    ensures forall p :: !Wipes(op, p)
  {
  }

  lemma HarmlessNone(since: seq<Op>, snap: multiset<Point>)
    ensures Harmless([], since, snap)
  {
  }

  // ---------- sizes below a requested rebuild never shrink ----------

  lemma PushDownSizes(t: Tree)
    requires t.Node?
    ensures var u := PushDown(t);
      u.size == t.size && SizeOf(u.left) == SizeOf(t.left) && SizeOf(u.right) == SizeOf(t.right)
  {
  }

  lemma {:induction false} DeleteKeepsSize(cfg: Config, t: Tree, b: Box, isDownsample: bool)
    requires NthOk(cfg.nth) && Inv(t)
    ensures SizeOf(DeleteByRange(cfg, t, b, false, isDownsample).0) == SizeOf(t)
    decreases Count(t), 1
  {
    if Alive(t) { DeleteLiveKeepsSize(cfg, t, b, isDownsample); }
  }

  lemma {:induction false} DeleteLiveKeepsSize(cfg: Config, t: Tree, b: Box, isDownsample: bool)
    requires NthOk(cfg.nth) && Inv(t) && Alive(t)
    ensures SizeOf(DeleteByRange(cfg, t, b, false, isDownsample).0) == SizeOf(t)
    decreases Count(t), 0
  {
    hide *;
    AliveNode(t);
    var u := PushDown(t);
    PushDownSizes(t);
    DeleteUnfold(cfg, t, b, false, isDownsample);
    PushDownKeeps(t);
    Halves(t, u);
    SizeSplits(t);
    DeleteKeepsSize(cfg, u.left, b, isDownsample);
    DeleteKeepsSize(cfg, u.right, b, isDownsample);
    DeleteSizes(cfg, u, !u.pointDeleted && InBox(b, u.point), isDownsample,
      DeleteByRange(cfg, u.left, b, false, isDownsample).0, DeleteByRange(cfg, u.right, b, false, isDownsample).0);
  }

  lemma DeleteSizes(cfg: Config, u: Tree, hit: bool, isDownsample: bool, l: Tree, r: Tree)
    requires NthOk(cfg.nth) && u.Node? && u.size == SizeOf(l) + SizeOf(r) + 1
    ensures SizeOf(u) == u.size && SizeOf(MarkDeleted(u, isDownsample)) == u.size
    ensures SizeOf(Settle(cfg, DeletePoint(u, hit, isDownsample, l, r), false)) == u.size
  {
    hide UpdateRange;
  }

  lemma SizeSplits(t: Tree)
    requires t.Node? && Inv(t)
    ensures t.size == SizeOf(t.left) + SizeOf(t.right) + 1
  {
  }

  lemma {:induction false} AddGrowsSize(cfg: Config, t: Tree, p: Point, fatherAxis: int)
    requires NthOk(cfg.nth) && Inv(t)
    ensures SizeOf(AddByPoint(cfg, t, p, false, fatherAxis)) == SizeOf(t) + 1
    decreases Count(t)
  {
    if t.Node? {
      var u := PushDown(t);
      PushDownKeeps(t);
      PushDownSizes(t);
      AddUnfold(cfg, t, p, false, fatherAxis);
      Halves(t, u);
      SizeSplits(t);
      hide PushDown, AddByPoint, Inv, UpdateRange, GoesLeft;
      AddGrowsSize(cfg, if GoesLeft(u, p) then u.left else u.right, p, u.axis);
    }
  }

  ghost predicate Ran(t: Tree, op: Op, v: Tree) {
    Inv(v) && v.Node? && Live(v) == Effect(op, Live(t)) && v.size >= SizeOf(t)
  }

  /** An edit does to the tree what its effect says, and never makes it smaller. */
  lemma RunExact(cfg: Config, t: Tree, op: Op)
    requires NthOk(cfg.nth) && t.Node? && Inv(t) && Deleting(op)
    ensures Ran(t, op, RunOperation(cfg, t, op))
  {
    hide AddByPoint, DeleteByRange, PushTo, Outside, NthOk;
    AxisInRange(t);
    match op
    case ADD_POINT(p) =>
      AddExact(cfg, t, p, false, t.axis);
      AddGrowsSize(cfg, t, p, t.axis);
    case DELETE_BOX(b) =>
      DeleteExact(cfg, t, b, false, false);
      DeleteKeepsSize(cfg, t, b, false);
    case DOWNSAMPLE_DELETE(b) =>
      DeleteExact(cfg, t, b, false, true);
      DeleteKeepsSize(cfg, t, b, true);
    case PUSH_DOWN(del, down) =>
      PushToKeeps(del, down, t);
  }

  lemma AxisInRange(t: Tree)
    requires t.Node? && Inv(t)
    ensures 0 <= t.axis < 3
  {
  }

  ghost function RunAll(cfg: Config, t: Tree, ops: seq<Op>): (v: Tree)
    requires NthOk(cfg.nth) && t.Node? && Inv(t) && AllDeleting(ops)
    ensures Inv(v) && v.Node? && Live(v) == Replay(ops, Live(t)) && v.size >= t.size
    decreases |ops|
  {
    hide Inv, Live, NthOk, Effect, RunOperation;
    if ops == [] then t else
      RunExact(cfg, t, ops[0]);
      RunAll(cfg, RunOperation(cfg, t, ops[0]), ops[1..])
  }

  // ---------- the two threads ----------

  /** Where the rebuild thread is. Checking is the moment before it takes the locks to look at the
      log; Swapped is the moment after it has released them and before it clears rebuild_flag. */
  datatype Phase =
    | Idle
    | Building(points: seq<Point>)
    | Checking(next: Tree)
    | Applying(next: Tree, op: Op)
    | Swapped

  /** cur is the subtree, requested tells whether Rebuild_Ptr points to it, pending holds the edits
      the main thread has decided to make under the lock. The last three fields are history: the
      points and the log found when the rebuild began, and the edits logged since. */
  datatype State = State(cur: Tree, requested: bool, flag: bool, log: seq<Op>, phase: Phase, pending: seq<Op>,
                         snap: multiset<Point>, stale: seq<Op>, since: seq<Op>)

  datatype Event =
    // main thread
    | Direct(op: Op)
    | Request
    | Decide(ops: seq<Op>)
    | Exec
    | Touch(tree: Tree)
    // rebuild thread
    | Begin
    | Built
    | Pop
    | Apply
    | Swap
    | ClearFlag

  ghost predicate Enabled(cfg: Config, s: State, e: Event) {
    match e
    case Direct(op) => !s.requested && s.pending == [] && Legal(op, s.cur)
    case Request => !s.requested && s.pending == [] && s.phase.Idle? && s.cur.Node? && s.cur.size >= cfg.inlineLimit
    case Decide(ops) =>
      s.requested && s.pending == [] && ops != [] && (forall i :: 0 <= i < |ops| ==> Legal(ops[i], s.cur))
    case Exec => s.pending != []
    case Touch(v) => Inv(v) && Alike(s.cur, v)
    case Begin => s.phase.Idle? && s.requested && Flatten(s.cur) != []
    case Built => s.phase.Building?
    case Pop => s.phase.Checking? && s.log != []
    case Apply => s.phase.Applying?
    case Swap => s.phase.Checking? && s.log == []
    case ClearFlag => s.phase.Swapped?
  }

  /** What a parent may pass on: a deletion, or a stale flag, which only faces a fresh leaf. */
  ghost predicate Legal(op: Op, t: Tree) {
    op.PUSH_DOWN? ==> (op.treeDown ==> op.treeDeleted) && (!op.treeDeleted ==> FreshLeaf(t))
  }

  /** The edit outside a rebuild, which may rebuild smaller subtrees on the spot. */
  ghost function RunDirect(cfg: Config, t: Tree, op: Op): Tree
    requires NthOk(cfg.nth) && t.Node?
  {
    match op
    case ADD_POINT(p) => AddByPoint(cfg, t, p, true, t.axis)
    case DELETE_BOX(b) => DeleteByRange(cfg, t, b, true, false).0
    case DOWNSAMPLE_DELETE(b) => DeleteByRange(cfg, t, b, true, true).0
    case PUSH_DOWN(del, down) => PushTo(del, down, t)
  }

  ghost predicate Consistent(cfg: Config, s: State) {
    && NthOk(cfg.nth) && cfg.inlineLimit > 1
    && Inv(s.cur) && s.cur.Node? && (s.requested ==> s.cur.size >= cfg.inlineLimit)
    && AllDeleting(s.log) && AllDeleting(s.pending)
    && (s.flag <==> !s.phase.Idle?)
    && match s.phase
       case Idle => true
       case Swapped => !s.requested
       case Building(points) =>
         s.requested && Tracking(s) && points != [] && multiset(points) == s.snap && s.log == s.stale + s.since
       case Checking(next) => s.requested && Tracking(s) && Following(s, next, s.log)
       case Applying(next, op) => s.requested && Tracking(s) && Deleting(op) && Following(s, next, [op] + s.log)
  }

  /** The subtree in use holds the snapshot with the edits made since. */
  ghost predicate Tracking(s: State) {
    Live(s.cur) == Replay(s.since, s.snap)
  }

  /** Once the rest of the log is replayed, the new subtree holds the snapshot with the edits found
      in the log at the beginning and those made since. */
  ghost predicate Following(s: State, next: Tree, rest: seq<Op>) {
    Inv(next) && next.Node? && Replay(rest, Live(next)) == Replay(s.stale + s.since, s.snap)
  }

  ghost function Next(cfg: Config, s: State, e: Event): State
    requires Consistent(cfg, s) && Enabled(cfg, s, e)
  {
    match e
    case Direct(op) => s.(cur := RunDirect(cfg, s.cur, op))
    case Request => s.(requested := true)
    case Decide(ops) => s.(pending := ops)
    case Exec =>
      s.(cur := RunAll(cfg, s.cur, s.pending), pending := [],
         log := if s.flag then s.log + s.pending else s.log,
         since := if s.flag then s.since + s.pending else s.since)
    case Touch(v) => s.(cur := v)
    case Begin =>
      s.(flag := true, cur := Pushed(s.cur), phase := Building(Flatten(s.cur)), snap := Live(s.cur), stale := s.log,
        since := [])
    case Built => s.(phase := Checking(BuildTree(cfg.nth, s.phase.points)))
    case Pop => s.(phase := Applying(s.phase.next, s.log[0]), log := s.log[1..])
    case Apply => s.(phase := Checking(RunOperation(cfg, s.phase.next, s.phase.op)))
    case Swap => s.(cur := s.phase.next, requested := false, phase := Swapped)
    case ClearFlag => s.(flag := false, phase := Idle)
  }

  // ---------- every step keeps the protocol consistent ----------

  lemma DecideIsDeleting(cfg: Config, s: State, ops: seq<Op>)
    requires Consistent(cfg, s) && Enabled(cfg, s, Decide(ops))
    ensures AllDeleting(ops)
  {
  }

  lemma DirectExact(cfg: Config, t: Tree, op: Op)
    requires NthOk(cfg.nth) && t.Node? && Inv(t) && Legal(op, t)
    ensures var v := RunDirect(cfg, t, op); Inv(v) && v.Node? && Live(v) == Effect(op, Live(t))
  {
    hide AddByPoint, DeleteByRange, Outside, NthOk, PushTo, FreshLeaf;
    AxisInRange(t);
    match op
    case ADD_POINT(p) => AddExact(cfg, t, p, true, t.axis);
    case DELETE_BOX(b) => DeleteExact(cfg, t, b, true, false);
    case DOWNSAMPLE_DELETE(b) => DeleteExact(cfg, t, b, true, true);
    case PUSH_DOWN(del, down) => PushToKeeps(del, down, t);
  }

  lemma ExecKeeps(cfg: Config, s: State)
    requires Consistent(cfg, s) && s.pending != []
    ensures Consistent(cfg, Next(cfg, s, Exec)) && Live(Next(cfg, s, Exec).cur) == Replay(s.pending, Live(s.cur))
  {
    hide Inv, Live, NthOk, Replay, RunAll, Deleting;
    var v := Next(cfg, s, Exec);
    ReplayAppend(s.since, s.pending, s.snap);
    ReplayAppend(s.stale + s.since, s.pending, s.snap);
    assert s.stale + (s.since + s.pending) == s.stale + s.since + s.pending;
    match s.phase
    case Checking(next) => ReplayAppend(s.log, s.pending, Live(next));
    case Applying(next, op) =>
      ReplayAppend([op] + s.log, s.pending, Live(next));
      assert [op] + (s.log + s.pending) == [op] + s.log + s.pending;
    case _ =>
  }

  lemma BeginKeeps(cfg: Config, s: State)
    requires Consistent(cfg, s) && Enabled(cfg, s, Begin)
    ensures Consistent(cfg, Next(cfg, s, Begin)) && Live(Next(cfg, s, Begin).cur) == Live(s.cur)
  {
    hide Inv, Live, NthOk, Flatten, Pushed;
    FlattenLive(s.cur);
    PushedKeeps(s.cur);
    assert s.log == s.log + [];
  }

  /** The snapshot is empty exactly when the subtree has been deleted meanwhile. */
  lemma EmptySnapshotIff(t: Tree)
    requires t.Node? && Inv(t)
    ensures Flatten(t) == [] <==> t.treeDeleted
  {
    hide Flatten, Inv, Live;
    FlattenLive(t);
    LiveOrDeleted(t);
    assert |multiset(Flatten(t))| == |Flatten(t)|;
  }

  lemma BuiltKeeps(cfg: Config, s: State)
    requires Consistent(cfg, s) && Enabled(cfg, s, Built)
    ensures Consistent(cfg, Next(cfg, s, Built))
  {
    hide Inv, Live, NthOk, BuildTree, Replay;
    BuildExact(cfg.nth, s.phase.points);
  }

  lemma PopKeeps(cfg: Config, s: State)
    requires Consistent(cfg, s) && Enabled(cfg, s, Pop)
    ensures Consistent(cfg, Next(cfg, s, Pop))
  {
    hide Inv, Live, NthOk, Replay, Deleting;
    assert [s.log[0]] + s.log[1..] == s.log;
  }

  lemma ApplyKeeps(cfg: Config, s: State)
    requires Consistent(cfg, s) && Enabled(cfg, s, Apply)
    ensures Consistent(cfg, Next(cfg, s, Apply))
  {
    hide Inv, Live, NthOk, Effect, RunOperation;
    RunExact(cfg, s.phase.next, s.phase.op);
    assert ([s.phase.op] + s.log)[1..] == s.log;
  }

  lemma StepKeeps(cfg: Config, s: State, e: Event)
    requires Consistent(cfg, s) && Enabled(cfg, s, e)
    ensures Consistent(cfg, Next(cfg, s, e))
  {
    hide Inv, Live, NthOk, Replay, RunAll, RunDirect, RunOperation, BuildTree, Flatten, Pushed, Effect, Deleting, Legal;
    match e
    case Exec => ExecKeeps(cfg, s);
    case Begin => BeginKeeps(cfg, s);
    case Built => BuiltKeeps(cfg, s);
    case Pop => PopKeeps(cfg, s);
    case Apply => ApplyKeeps(cfg, s);
    case Direct(op) => DirectExact(cfg, s.cur, op);
    case Decide(ops) => DecideIsDeleting(cfg, s, ops);
    case _ =>
  }

  /** What a swap does in any state, with or without edits left in the log from before: the new
      subtree holds the points as if those edits had been made once more before the rebuild. */
  lemma SwapOutcome(cfg: Config, s: State)
    requires Consistent(cfg, s) && Enabled(cfg, s, Swap)
    ensures Live(s.cur) == Replay(s.since, s.snap)
    ensures Live(Next(cfg, s, Swap).cur) == Replay(s.since, Replay(s.stale, s.snap))
  {
    ReplayAppend(s.stale, s.since, s.snap);
  }

  ghost predicate HarmlessSwap(s: State) { Harmless(s.stale, s.since, s.snap) }

  /** The swap loses and invents no point exactly if the edits left in the log are harmless. */
  lemma SwapExactIff(cfg: Config, s: State)
    requires Consistent(cfg, s) && Enabled(cfg, s, Swap)
    ensures Live(Next(cfg, s, Swap).cur) == Live(s.cur) <==> HarmlessSwap(s)
  {
    hide Replay, Harmless, Consistent, Enabled, Next, Live;
    SwapOutcome(cfg, s);
    HarmlessIff(s.stale, s.since, s.snap);
  }

  /** The edits a step makes. */
  function Edits(s: State, e: Event): seq<Op> {
    match e
    case Direct(op) => [op]
    case Exec => s.pending
    case _ => []
  }

  /** Every step but a harmful swap does to the live points what its edits say; the steps of the
      rebuild thread do nothing to them. */
  lemma StepRefines(cfg: Config, s: State, e: Event)
    requires Consistent(cfg, s) && Enabled(cfg, s, e) && (e.Swap? ==> HarmlessSwap(s))
    ensures Live(Next(cfg, s, e).cur) == Replay(Edits(s, e), Live(s.cur))
  {
    hide Inv, Live, NthOk, RunAll, RunDirect, RunOperation, BuildTree, Flatten, Pushed, Effect, Deleting, Legal,
      HarmlessSwap;
    match e
    case Direct(op) => DirectExact(cfg, s.cur, op);
    case Exec => ExecKeeps(cfg, s);
    case Begin => BeginKeeps(cfg, s);
    case Swap => SwapExactIff(cfg, s);
    case _ =>
  }

  // ---------- several subtrees ----------

  /** Disjoint subtrees of one map. now has the two threads, with the one log and the one Rebuild_Ptr,
      and the subtree this names or last named, number at; entry at of trees is not in use. */
  datatype Forest = Forest(now: State, at: nat, trees: seq<Tree>)

  datatype Move =
    | Here(event: Event)
    | Elsewhere(i: nat, op: Op)
    | TouchElsewhere(i: nat, tree: Tree)
    | Turn(i: nat)

  function Subtree(f: Forest, i: nat): Tree
    requires i < |f.trees|
  {
    if i == f.at then f.now.cur else f.trees[i]
  }

  ghost predicate Sound(cfg: Config, f: Forest) {
    Consistent(cfg, f.now) && f.at < |f.trees| && forall i :: 0 <= i < |f.trees| ==> f.trees[i].Node? && Inv(f.trees[i])
  }

  /** The main thread edits other subtrees without the lock of the one being rebuilt, unless it is
      waiting for that. Which subtree is next to be rebuilt is open while none is requested, and until
      the rebuild begins a larger one may take the place of the one requested. */
  ghost predicate Possible(cfg: Config, f: Forest, m: Move) {
    match m
    case Here(e) => Enabled(cfg, f.now, e)
    case Elsewhere(i, op) => i < |f.trees| && i != f.at && f.now.pending == [] && Legal(op, f.trees[i])
    case TouchElsewhere(i, v) => i < |f.trees| && i != f.at && Inv(v) && Alike(f.trees[i], v)
    case Turn(i) =>
      && i < |f.trees| && i != f.at && f.now.pending == []
      && (f.now.requested ==> f.now.phase.Idle? && SizeOf(f.trees[i]) > SizeOf(f.now.cur))
  }

  ghost function After(cfg: Config, f: Forest, m: Move): Forest
    requires Sound(cfg, f) && Possible(cfg, f, m)
  {
    match m
    case Here(e) => f.(now := Next(cfg, f.now, e))
    case Elsewhere(i, op) => f.(trees := f.trees[i := RunDirect(cfg, f.trees[i], op)])
    case TouchElsewhere(i, v) => f.(trees := f.trees[i := v])
    case Turn(i) => Forest(f.now.(cur := f.trees[i]), i, f.trees[f.at := f.now.cur])
  }

  /** The edits that a move makes to subtree i. */
  function EditsTo(f: Forest, m: Move, i: nat): seq<Op> {
    match m
    case Here(e) => if i == f.at then Edits(f.now, e) else []
    case Elsewhere(j, op) => if i == j then [op] else []
    case _ => []
  }

  lemma MoveKeeps(cfg: Config, f: Forest, m: Move)
    requires Sound(cfg, f) && Possible(cfg, f, m)
    ensures Sound(cfg, After(cfg, f, m)) && |After(cfg, f, m).trees| == |f.trees|
  {
    hide Consistent, Enabled, Next, Inv, Live, RunDirect, Effect, Legal;
    match m
    case Here(e) => StepKeeps(cfg, f.now, e);
    case Elsewhere(i, op) =>
      SoundNth(cfg, f);
      DirectExact(cfg, f.trees[i], op);
    case TouchElsewhere(i, v) => SoundNth(cfg, f);
    case Turn(i) => TurnKeeps(cfg, f.now, f.trees[i]);
  }

  lemma TurnKeeps(cfg: Config, s: State, t: Tree)
    requires Consistent(cfg, s) && Inv(t) && t.Node? && (s.requested ==> s.phase.Idle? && SizeOf(t) > SizeOf(s.cur))
    ensures Consistent(cfg, s.(cur := t)) && Inv(s.cur) && s.cur.Node?
  {
    hide Inv, Live, NthOk, Replay, Deleting;
  }

  /** Every move but a harmful swap does to the live points of every subtree what its edits say. */
  lemma MoveRefines(cfg: Config, f: Forest, m: Move, i: nat)
    requires Sound(cfg, f) && Possible(cfg, f, m) && i < |f.trees|
    requires m == Here(Swap) ==> i != f.at || HarmlessSwap(f.now)
    ensures |After(cfg, f, m).trees| == |f.trees|
    ensures Live(Subtree(After(cfg, f, m), i)) == Replay(EditsTo(f, m, i), Live(Subtree(f, i)))
  {
    hide Consistent, Enabled, Next, Inv, Live, RunDirect, Effect, Legal, Edits, HarmlessSwap, Replay;
    ReplayNone(Live(Subtree(f, i)));
    match m
    case Here(e) => if i == f.at { StepRefines(cfg, f.now, e); }
    case Elsewhere(j, op) =>
      if i == j {
        SoundNth(cfg, f);
        DirectExact(cfg, f.trees[i], op);
        ReplayOne(op, Live(f.trees[i]));
      }
    case TouchElsewhere(j, v) => AlikeLive(f.trees[j], v);
    case Turn(_) =>
  }

  lemma SoundNth(cfg: Config, f: Forest)
    requires Sound(cfg, f)
    ensures NthOk(cfg.nth)
  {
  }

  lemma AlikeLive(t: Tree, v: Tree)
    requires Alike(t, v)
    ensures Live(t) == Live(v)
  {
  }

  /** A step of the rebuild thread. */
  predicate Background(e: Event) { e.Begin? || e.Built? || e.Pop? || e.Apply? || e.Swap? || e.ClearFlag? }

  lemma BackgroundStep(cfg: Config, s: State) returns (e: Event)
    requires Consistent(cfg, s) && (!s.phase.Idle? || (s.requested && Flatten(s.cur) != []))
    ensures Background(e) && Enabled(cfg, s, e)
  {
    hide Inv, Live, NthOk, Replay, Deleting, Flatten, Alike, Legal;
    match s.phase
    case Idle => e := Begin;
    case Building(_) => e := Built;
    case Checking(_) => e := if s.log == [] then Swap else Pop;
    case Applying(_, _) => e := Apply;
    case Swapped => e := ClearFlag;
  }

  lemma BackgroundOnly(cfg: Config, s: State, e: Event)
    requires Background(e) && Enabled(cfg, s, e)
    ensures !s.phase.Idle? || (s.requested && Flatten(s.cur) != [])
  {
    hide Inv, Flatten, Alike, Legal;
  }

  /** Neither thread ever keeps the other from going on. The rebuild thread has a step to take exactly if it is
      in the middle of a rebuild or one is requested of a subtree that is not all deleted. */
  lemma RebuildGoesOn(cfg: Config, s: State)
    requires Consistent(cfg, s)
    ensures s.cur.Node?
    ensures (exists e :: Background(e) && Enabled(cfg, s, e)) <==> !s.phase.Idle? || (s.requested && !s.cur.treeDeleted)
  {
    CurIs(cfg, s);
    hide Consistent, Enabled, Background, Flatten, Inv;
    EmptySnapshotIff(s.cur);
    if !s.phase.Idle? || (s.requested && Flatten(s.cur) != []) { var e := BackgroundStep(cfg, s); }
    if e :| Background(e) && Enabled(cfg, s, e) { BackgroundOnly(cfg, s, e); }
  }

  lemma CurIs(cfg: Config, s: State)
    requires Consistent(cfg, s)
    ensures s.cur.Node? && Inv(s.cur)
  {
  }

  /** The main thread can make what it has decided on, or else any edit of any subtree, at once or by deciding
      on it under the lock; queries can push down anywhere at any time. */
  lemma EditsGoOn(cfg: Config, f: Forest, op: Op, i: nat, v: Tree)
    requires Sound(cfg, f) && i < |f.trees|
    ensures f.now.pending != [] ==> Possible(cfg, f, Here(Exec))
    ensures f.now.pending == [] && Legal(op, Subtree(f, i)) ==>
      if i != f.at then Possible(cfg, f, Elsewhere(i, op))
      else Possible(cfg, f, Here(if f.now.requested then Decide([op]) else Direct(op)))
    ensures Inv(v) && Alike(Subtree(f, i), v) ==>
      Possible(cfg, f, if i != f.at then TouchElsewhere(i, v) else Here(Touch(v)))
    ensures f.now.pending == [] && !f.now.requested && f.now.phase.Idle? && f.now.cur.size >= cfg.inlineLimit ==>
      Possible(cfg, f, Here(Request))
  {
    hide Inv, Live, NthOk, Replay, Deleting, Flatten, Alike, Legal;
  }

  // ---------- whole runs ----------

  ghost predicate Moves(cfg: Config, f: Forest, m: Move, g: Forest) {
    Possible(cfg, f, m) && (Sound(cfg, f) ==> g == After(cfg, f, m))
  }

  ghost predicate Initial(cfg: Config, f: Forest) {
    Sound(cfg, f) && f.now.phase.Idle? && !f.now.requested && f.now.log == [] && f.now.pending == []
  }

  ghost predicate IsRun(cfg: Config, fs: seq<Forest>, ms: seq<Move>) {
    |fs| == |ms| + 1 && Initial(cfg, fs[0]) && forall k :: 0 <= k < |ms| ==> Moves(cfg, fs[k], ms[k], fs[k + 1])
  }

  /** In every interleaving, whatever happens in the window after a swap: all subtrees stay consistent,
      and a request for a rebuild is never overtaken by a shrinking subtree. */
  lemma {:induction false} RunConsistent(cfg: Config, fs: seq<Forest>, ms: seq<Move>, k: nat)
    requires IsRun(cfg, fs, ms) && k <= |ms|
    ensures Sound(cfg, fs[k]) && |fs[k].trees| == |fs[0].trees|
  {
    hide Sound, Possible, After;
    if k > 0 {
      RunConsistent(cfg, fs, ms, k - 1);
      assert Moves(cfg, fs[k - 1], ms[k - 1], fs[k]);
      MoveKeeps(cfg, fs[k - 1], ms[k - 1]);
    }
  }

  /** No edit decided during a rebuild is still waiting for the lock when the swap releases it. */
  ghost predicate WindowUnused(fs: seq<Forest>, ms: seq<Move>)
    requires |fs| == |ms| + 1
  {
    forall k :: 0 <= k < |ms| && ms[k] == Here(Exec) ==> !fs[k].now.phase.Swapped?
  }

  /** The edits made in the window after the last swap so far. */
  ghost function InWindow(fs: seq<Forest>, ms: seq<Move>, k: nat): seq<Op>
    requires |fs| == |ms| + 1 && k <= |ms|
  {
    if k == 0 || ms[k - 1] == Here(Swap) then []
    else InWindow(fs, ms, k - 1) + if ms[k - 1] == Here(Exec) && fs[k - 1].now.phase.Swapped? then fs[k - 1].now.pending
      else []
  }

  /** What is left in the log when no rebuild is under way, and what a rebuild found in it. */
  function LeftOver(s: State): seq<Op> {
    if s.phase.Idle? || s.phase.Swapped? then s.log else s.stale
  }

  lemma LeftOverStep(cfg: Config, f: Forest, m: Move)
    requires Sound(cfg, f) && Possible(cfg, f, m)
    ensures LeftOver(After(cfg, f, m).now) ==
      if m == Here(Swap) then [] else LeftOver(f.now) + if m == Here(Exec) && f.now.phase.Swapped? then f.now.pending
        else []
  {
    hide Inv, Live, NthOk, Replay, RunAll, RunDirect, RunOperation, BuildTree, Flatten, Pushed, Deleting, Legal, Alike;
  }

  /** The stale edits that a rebuild finds are exactly those made in the window after the one before,
      which may have been of another subtree. */
  lemma {:induction false} StaleAreInWindow(cfg: Config, fs: seq<Forest>, ms: seq<Move>, k: nat)
    requires IsRun(cfg, fs, ms) && k <= |ms|
    ensures LeftOver(fs[k].now) == InWindow(fs, ms, k)
  {
    hide Sound, Possible, After, LeftOver;
    if k > 0 {
      StaleAreInWindow(cfg, fs, ms, k - 1);
      RunConsistent(cfg, fs, ms, k - 1);
      assert Moves(cfg, fs[k - 1], ms[k - 1], fs[k]);
      LeftOverStep(cfg, fs[k - 1], ms[k - 1]);
    } else {
      InitialClean(cfg, fs[0]);
    }
  }

  lemma InitialClean(cfg: Config, f: Forest)
    requires Initial(cfg, f)
    ensures LeftOver(f.now) == []
  {
  }

  /** The edits that the first k moves make to subtree i, in their order. */
  ghost function History(fs: seq<Forest>, ms: seq<Move>, k: nat, i: nat): seq<Op>
    requires |fs| == |ms| + 1 && k <= |ms|
  {
    if k == 0 then [] else History(fs, ms, k - 1, i) + EditsTo(fs[k - 1], ms[k - 1], i)
  }

  ghost predicate HarmlessSwaps(fs: seq<Forest>, ms: seq<Move>, n: nat)
    requires |fs| == |ms| + 1 && n <= |ms|
  {
    forall k :: 0 <= k < n && ms[k] == Here(Swap) ==> HarmlessSwap(fs[k].now)
  }

  /** Subtree i holds what its edits leave of its initial points. */
  ghost predicate ExactIn(fs: seq<Forest>, ms: seq<Move>, k: nat, i: nat)
    requires |fs| == |ms| + 1 && k <= |ms| && i < |fs[0].trees| == |fs[k].trees|
  {
    Live(Subtree(fs[k], i)) == Replay(History(fs, ms, k, i), Live(Subtree(fs[0], i)))
  }

  ghost predicate ExactAt(fs: seq<Forest>, ms: seq<Move>, k: nat)
    requires |fs| == |ms| + 1 && k <= |ms|
  {
    |fs[k].trees| == |fs[0].trees| && forall i :: 0 <= i < |fs[0].trees| ==> ExactIn(fs, ms, k, i)
  }

  lemma ExactInStep(cfg: Config, fs: seq<Forest>, ms: seq<Move>, k: nat, i: nat)
    requires IsRun(cfg, fs, ms) && k < |ms| && i < |fs[0].trees| == |fs[k].trees| == |fs[k + 1].trees|
    requires ExactIn(fs, ms, k, i)
    ensures ExactIn(fs, ms, k + 1, i) <==> (ms[k] == Here(Swap) && i == fs[k].at ==> HarmlessSwap(fs[k].now))
  {
    hide Sound, Possible, Consistent, Enabled, Next, Live, Edits, Effect, HarmlessSwap, Replay;
    var f, m := fs[k], ms[k];
    RunConsistent(cfg, fs, ms, k);
    assert Moves(cfg, f, m, fs[k + 1]);
    ReplayAppend(History(fs, ms, k, i), EditsTo(f, m, i), Live(Subtree(fs[0], i)));
    if m == Here(Swap) && i == f.at {
      SwapMoves(cfg, f);
      ReplayNone(Live(f.now.cur));
    } else {
      MoveRefines(cfg, f, m, i);
    }
  }

  lemma SwapMoves(cfg: Config, f: Forest)
    requires Sound(cfg, f) && Possible(cfg, f, Here(Swap))
    ensures f.at < |f.trees| && EditsTo(f, Here(Swap), f.at) == []
    ensures Live(Subtree(After(cfg, f, Here(Swap)), f.at)) == Live(Subtree(f, f.at)) <==> HarmlessSwap(f.now)
  {
    hide Consistent, Enabled, Next, Live, HarmlessSwap, Inv;
    SwapExactIff(cfg, f.now);
  }

  lemma ExactStep(cfg: Config, fs: seq<Forest>, ms: seq<Move>, k: nat)
    requires IsRun(cfg, fs, ms) && k < |ms| && ExactAt(fs, ms, k)
    ensures ExactAt(fs, ms, k + 1) <==> (ms[k] == Here(Swap) ==> HarmlessSwap(fs[k].now))
  {
    hide Moves, ExactIn, HarmlessSwap, Sound;
    RunConsistent(cfg, fs, ms, k);
    RunConsistent(cfg, fs, ms, k + 1);
    SoundAt(cfg, fs[k]);
    var n := k + 1;
    forall i: nat | i < |fs[0].trees|
      ensures ExactIn(fs, ms, n, i) <==> (ms[k] == Here(Swap) && i == fs[k].at ==> HarmlessSwap(fs[k].now))
    {
      ExactInStep(cfg, fs, ms, k, i);
    }
    assert ExactIn(fs, ms, n, fs[k].at) <==> (ms[k] == Here(Swap) ==> HarmlessSwap(fs[k].now));
  }

  lemma SoundAt(cfg: Config, f: Forest)
    requires Sound(cfg, f)
    ensures f.at < |f.trees|
  {
  }

  /** Safety of the background rebuild: in every interleaving whose swaps are harmless, every subtree
      holds exactly the points that its edits leave of the initial ones. */
  lemma {:induction false} RunSafe(cfg: Config, fs: seq<Forest>, ms: seq<Move>, k: nat)
    requires IsRun(cfg, fs, ms) && k <= |ms| && HarmlessSwaps(fs, ms, k)
    ensures ExactAt(fs, ms, k)
    decreases k
  {
    hide Moves, HarmlessSwap, ExactAt;
    if k > 0 {
      RunSafe(cfg, fs, ms, k - 1);
      ExactStep(cfg, fs, ms, k - 1);
    } else {
      ExactStart(fs, ms);
    }
  }

  lemma ExactStart(fs: seq<Forest>, ms: seq<Move>)
    requires |fs| == |ms| + 1
    ensures ExactAt(fs, ms, 0)
  {
    hide Live;
    forall i | 0 <= i < |fs[0].trees| ensures ExactIn(fs, ms, 0, i) { ReplayNone(Live(Subtree(fs[0], i))); }
  }

  /** And only in these: every subtree holds the right points all along exactly if every swap is harmless. */
  lemma RunExactIff(cfg: Config, fs: seq<Forest>, ms: seq<Move>, n: nat)
    requires IsRun(cfg, fs, ms) && n <= |ms|
    ensures HarmlessSwaps(fs, ms, n) <==> forall k :: 0 <= k <= n ==> ExactAt(fs, ms, k)
  {
    hide Moves, ExactAt, HarmlessSwap;
    if HarmlessSwaps(fs, ms, n) {
      forall k | 0 <= k <= n ensures ExactAt(fs, ms, k) { RunSafe(cfg, fs, ms, k); }
    } else {
      var k :| 0 <= k < n && ms[k] == Here(Swap) && !HarmlessSwap(fs[k].now);
      if ExactAt(fs, ms, k) { ExactStep(cfg, fs, ms, k); }
    }
  }

  /** If no edit ever falls into the window, every swap is harmless. */
  lemma UnusedIsHarmless(cfg: Config, fs: seq<Forest>, ms: seq<Move>)
    requires IsRun(cfg, fs, ms) && WindowUnused(fs, ms)
    ensures HarmlessSwaps(fs, ms, |ms|)
  {
    hide Harmless, Sound;
    forall k | 0 <= k < |ms| && ms[k] == Here(Swap) ensures HarmlessSwap(fs[k].now) {
      NothingInWindow(fs, ms, k);
      StaleAreInWindow(cfg, fs, ms, k);
      assert Moves(cfg, fs[k], ms[k], fs[k + 1]);
      HarmlessNone(fs[k].now.since, fs[k].now.snap);
    }
  }

  lemma {:induction false} NothingInWindow(fs: seq<Forest>, ms: seq<Move>, k: nat)
    requires |fs| == |ms| + 1 && k <= |ms| && WindowUnused(fs, ms)
    ensures InWindow(fs, ms, k) == []
  {
    if k > 0 { NothingInWindow(fs, ms, k - 1); }
  }

  // ---------- the window after a swap ----------

  ghost predicate Leads(cfg: Config, f: Forest, ms: seq<Move>, g: Forest)
    decreases |ms|
  {
    if ms == [] then g == f
    else Sound(cfg, f) && Possible(cfg, f, ms[0]) && Leads(cfg, After(cfg, f, ms[0]), ms[1..], g)
  }

  lemma LeadsNone(cfg: Config, f: Forest)
    ensures Leads(cfg, f, [], f) && forall i :: Made(cfg, f, [], i) == []
  {
  }

  lemma {:induction false} LeadsConcat(cfg: Config, f: Forest, a: seq<Move>, g: Forest, b: seq<Move>, h: Forest)
    requires Leads(cfg, f, a, g) && Leads(cfg, g, b, h)
    ensures Leads(cfg, f, a + b, h)
    decreases |a|
  {
    hide Sound, Possible, After;
    if a == [] {
      assert a + b == b;
    } else {
      assert (a + b)[1..] == a[1..] + b;
      LeadsConcat(cfg, After(cfg, f, a[0]), a[1..], g, b, h);
    }
  }

  lemma ReplayOne(op: Op, m: multiset<Point>)
    ensures Replay([op], m) == Effect(op, m)
  {
    assert Replay([op][1..], Effect(op, m)) == Effect(op, m);
  }

  lemma ReplayNone(m: multiset<Point>)
    ensures Replay([], m) == m
  {
  }

  lemma LiveWithinSize(t: Tree)
    requires t.Node? && Inv(t)
    ensures |Live(t)| <= t.size
  {
    CountersExact(t);
    LabelsExact(t);
    hide Live;
  }

  /** The edits that a list of moves makes to subtree i. */
  ghost function Made(cfg: Config, f: Forest, ms: seq<Move>, i: nat): seq<Op>
    decreases |ms|
  {
    if ms == [] || !(Sound(cfg, f) && Possible(cfg, f, ms[0])) then []
    else EditsTo(f, ms[0], i) + Made(cfg, After(cfg, f, ms[0]), ms[1..], i)
  }

  lemma {:induction false} MadeConcat(cfg: Config, f: Forest, a: seq<Move>, g: Forest, b: seq<Move>, i: nat)
    requires Leads(cfg, f, a, g)
    ensures Made(cfg, f, a + b, i) == Made(cfg, f, a, i) + Made(cfg, g, b, i)
    decreases |a|
  {
    hide Sound, Possible, After, EditsTo;
    if a == [] {
      assert a + b == b;
    } else {
      assert (a + b)[1..] == a[1..] + b;
      MadeConcat(cfg, After(cfg, f, a[0]), a[1..], g, b, i);
    }
  }

  lemma Chain(cfg: Config, f: Forest, a: seq<Move>, g: Forest, b: seq<Move>, h: Forest, ms: seq<Move>)
    requires Leads(cfg, f, a, g) && Leads(cfg, g, b, h) && ms == a + b
    ensures Leads(cfg, f, ms, h) && forall i :: Made(cfg, f, ms, i) == Made(cfg, f, a, i) + Made(cfg, g, b, i)
  {
    hide Leads, Made;
    LeadsConcat(cfg, f, a, g, b, h);
    forall i ensures Made(cfg, f, ms, i) == Made(cfg, f, a, i) + Made(cfg, g, b, i) { MadeConcat(cfg, f, a, g, b, i); }
  }

  /** One more step of the two threads at the end. */
  lemma HereThen(cfg: Config, f: Forest, a: seq<Move>, g: Forest, e: Event, v: State) returns (ms: seq<Move>)
    requires Leads(cfg, f, a, g) && Sound(cfg, g) && Enabled(cfg, g.now, e) && v == Next(cfg, g.now, e)
    ensures ms == a + [Here(e)] && Leads(cfg, f, ms, g.(now := v)) && Sound(cfg, g.(now := v))
    ensures forall i :: Made(cfg, f, ms, i) == Made(cfg, f, a, i) + if i == g.at then Edits(g.now, e) else []
  {
    hide Consistent, Enabled, Next, Inv, Leads, Made, Edits;
    ms := a + [Here(e)];
    OneMove(cfg, g, Here(e));
    MoveKeeps(cfg, g, Here(e));
    Chain(cfg, f, a, g, [Here(e)], After(cfg, g, Here(e)), ms);
  }

  lemma OneMove(cfg: Config, g: Forest, m: Move)
    requires Sound(cfg, g) && Possible(cfg, g, m)
    ensures Leads(cfg, g, [m], After(cfg, g, m)) && forall i :: Made(cfg, g, [m], i) == EditsTo(g, m, i)
  {
    hide Sound, Possible, After, EditsTo;
    assert [m][1..] == [];
  }

  /** No rebuild is requested or under way, nothing waits for the lock, and the log holds these edits. */
  ghost predicate Resting(cfg: Config, s: State, log: seq<Op>) {
    Consistent(cfg, s) && s.phase.Idle? && !s.requested && s.pending == [] && s.log == log
  }

  /** The rebuild thread is between releasing the lock after a swap and clearing the flag; op waited. */
  ghost predicate Waiting(cfg: Config, s: State, op: Op) {
    Consistent(cfg, s) && s.phase.Swapped? && s.log == [] && s.pending == [op]
  }

  /** A rebuild up to its swap, during which op is decided on; the window after it; and the next rebuild. */
  function ToWindow(op: Op): seq<Move> { [Here(Request), Here(Decide([op])), Here(Begin), Here(Built), Here(Swap)] }

  function InTheWindow(): seq<Move> { [Here(Exec), Here(ClearFlag)] }

  function Rebuild(): seq<Move> { [Here(Request), Here(Begin), Here(Built), Here(Pop), Here(Apply), Here(Swap)] }

  lemma Requested(cfg: Config, s: State, op: Op) returns (a: State, b: State)
    requires Resting(cfg, s, []) && |Live(s.cur)| >= cfg.inlineLimit && Legal(op, s.cur)
    ensures Enabled(cfg, s, Request) && a == Next(cfg, s, Request)
    ensures Consistent(cfg, a) && Enabled(cfg, a, Decide([op])) && b == Next(cfg, a, Decide([op]))
    ensures Consistent(cfg, b) && b.phase.Idle? && b.requested && b.log == [] && b.pending == [op] && b.cur == s.cur
  {
    hide Inv, Live, NthOk, Replay, Legal, Deleting;
    LiveWithinSize(s.cur);
    a := Next(cfg, s, Request);
    StepKeeps(cfg, a, Decide([op]));
    b := Next(cfg, a, Decide([op]));
  }

  lemma Rebuilt(cfg: Config, b: State) returns (c: State, d: State)
    requires Consistent(cfg, b) && b.phase.Idle? && b.requested && |Live(b.cur)| >= cfg.inlineLimit
    ensures Enabled(cfg, b, Begin) && c == Next(cfg, b, Begin)
    ensures Consistent(cfg, c) && Enabled(cfg, c, Built) && d == Next(cfg, c, Built)
    ensures Consistent(cfg, d) && d.phase.Checking? && d.log == d.stale == b.log && d.since == []
    ensures d.snap == Live(d.cur) == Live(b.cur) && d.pending == b.pending
  {
    hide Inv, Live, NthOk, RunOperation, BuildTree, Flatten, Pushed, Effect, Replay, Deleting;
    FlattenLive(b.cur);
    assert |multiset(Flatten(b.cur))| == |Flatten(b.cur)|;
    BeginKeeps(cfg, b);
    c := Next(cfg, b, Begin);
    BuiltKeeps(cfg, c);
    d := Next(cfg, c, Built);
  }

  lemma Replayed(cfg: Config, b: State, op: Op) returns (c: State, d: State)
    requires Consistent(cfg, b) && b.phase.Checking? && b.log == [op]
    ensures Enabled(cfg, b, Pop) && c == Next(cfg, b, Pop)
    ensures Consistent(cfg, c) && Enabled(cfg, c, Apply) && d == Next(cfg, c, Apply)
    ensures Consistent(cfg, d) && d.phase.Checking? && d.log == [] && d.stale == b.stale && d.since == b.since
    ensures d.snap == b.snap
  {
    hide Inv, Live, NthOk, RunOperation, BuildTree, Flatten, Pushed, Effect, Replay, Deleting;
    PopKeeps(cfg, b);
    c := Next(cfg, b, Pop);
    ApplyKeeps(cfg, c);
    d := Next(cfg, c, Apply);
  }

  lemma SwappedIn(cfg: Config, d: State) returns (v: State)
    requires Consistent(cfg, d) && d.phase.Checking? && d.log == [] && d.since == []
    ensures Enabled(cfg, d, Swap) && v == Next(cfg, d, Swap) && Consistent(cfg, v)
    ensures v.phase.Swapped? && v.log == [] && v.pending == d.pending && Live(v.cur) == Replay(d.stale, d.snap)
  {
    hide Inv, Live, NthOk, Effect, Replay, Deleting;
    SwapOutcome(cfg, d);
    ReplayNone(Replay(d.stale, d.snap));
    StepKeeps(cfg, d, Swap);
    v := Next(cfg, d, Swap);
  }

  lemma ThroughWindow(cfg: Config, s: State, op: Op) returns (a: State, b: State)
    requires Waiting(cfg, s, op)
    ensures Enabled(cfg, s, Exec) && a == Next(cfg, s, Exec)
    ensures Consistent(cfg, a) && Enabled(cfg, a, ClearFlag) && b == Next(cfg, a, ClearFlag)
    ensures Resting(cfg, b, [op]) && Live(b.cur) == Effect(op, Live(s.cur))
  {
    hide Inv, Live, NthOk, RunAll, Replay, Effect, Deleting;
    ExecKeeps(cfg, s);
    ReplayOne(op, Live(s.cur));
    a := Next(cfg, s, Exec);
    StepKeeps(cfg, a, ClearFlag);
    b := Next(cfg, a, ClearFlag);
  }

  /** The state in which op is left over is reached from every initial one with enough live points: the
      main thread decides on op while a rebuild is requested, and waits for the lock through all of it. */
  lemma WindowReached(cfg: Config, f: Forest, op: Op) returns (g: Forest)
    requires Initial(cfg, f) && |Live(f.now.cur)| >= cfg.inlineLimit && Legal(op, f.now.cur)
    ensures Leads(cfg, f, ToWindow(op), g)
    ensures Sound(cfg, g) && Waiting(cfg, g.now, op) && g == f.(now := g.now) && Live(g.now.cur) == Live(f.now.cur)
    ensures forall i :: Made(cfg, f, ToWindow(op), i) == []
  {
    hide Leads, Consistent, Enabled, Next, Live, Inv, Replay, Effect, Legal, Deleting, Made;
    var a, b := Requested(cfg, f.now, op);
    var c, d := Rebuilt(cfg, b);
    var v := SwappedIn(cfg, d);
    ReplayNone(d.snap);
    LeadsNone(cfg, f);
    var ms := HereThen(cfg, f, [], f, Request, a);
    ms := HereThen(cfg, f, ms, f.(now := a), Decide([op]), b);
    ms := HereThen(cfg, f, ms, f.(now := b), Begin, c);
    ms := HereThen(cfg, f, ms, f.(now := c), Built, d);
    ms := HereThen(cfg, f, ms, f.(now := d), Swap, v);
    g := f.(now := v);
    assert ms == ToWindow(op);
  }

  /** From every such state: the edit is made, and logged although its rebuild is over. */
  lemma WindowLogs(cfg: Config, f: Forest, op: Op) returns (g: Forest)
    requires Sound(cfg, f) && Waiting(cfg, f.now, op)
    ensures Leads(cfg, f, InTheWindow(), g) && Sound(cfg, g) && g == f.(now := g.now)
    ensures Resting(cfg, g.now, [op]) && Live(g.now.cur) == Effect(op, Live(f.now.cur))
    ensures forall i :: Made(cfg, f, InTheWindow(), i) == if i == f.at then [op] else []
  {
    hide Leads, Consistent, Enabled, Next, Live, Inv, Effect, Made;
    var a, b := ThroughWindow(cfg, f.now, op);
    LeadsNone(cfg, f);
    var ms := HereThen(cfg, f, [], f, Exec, a);
    ms := HereThen(cfg, f, ms, f.(now := a), ClearFlag, b);
    g := f.(now := b);
    assert ms == InTheWindow();
  }

  /** The next rebuild, of whatever subtree, makes a left-over edit on it. */
  lemma NextRebuildRepeats(cfg: Config, f: Forest, op: Op) returns (g: Forest)
    requires Sound(cfg, f) && Resting(cfg, f.now, [op]) && |Live(f.now.cur)| >= cfg.inlineLimit
    ensures Leads(cfg, f, Rebuild(), g) && Sound(cfg, g) && g == f.(now := g.now)
    ensures Live(g.now.cur) == Effect(op, Live(f.now.cur)) && forall i :: Made(cfg, f, Rebuild(), i) == []
  {
    hide Leads, Consistent, Enabled, Next, Live, Inv, Effect, Replay, Made;
    var b := AskedFor(cfg, f.now);
    var c, d := Rebuilt(cfg, b);
    var p, q := Replayed(cfg, d, op);
    var v := SwappedIn(cfg, q);
    ReplayOne(op, d.snap);
    LeadsNone(cfg, f);
    var ms := HereThen(cfg, f, [], f, Request, b);
    ms := HereThen(cfg, f, ms, f.(now := b), Begin, c);
    ms := HereThen(cfg, f, ms, f.(now := c), Built, d);
    ms := HereThen(cfg, f, ms, f.(now := d), Pop, p);
    ms := HereThen(cfg, f, ms, f.(now := p), Apply, q);
    ms := HereThen(cfg, f, ms, f.(now := q), Swap, v);
    g := f.(now := v);
    assert ms == Rebuild();
  }

  lemma AskedFor(cfg: Config, s: State) returns (b: State)
    requires Resting(cfg, s, s.log) && |Live(s.cur)| >= cfg.inlineLimit
    ensures Enabled(cfg, s, Request) && b == Next(cfg, s, Request)
    ensures Consistent(cfg, b) && b.phase.Idle? && b.requested && b.log == s.log && b.cur == s.cur
  {
    hide Inv, Live, NthOk, Replay, Deleting;
    LiveWithinSize(s.cur);
    b := Next(cfg, s, Request);
  }

  lemma LeftInLog(cfg: Config, f: Forest, op: Op) returns (g: Forest)
    requires Initial(cfg, f) && |Live(f.now.cur)| >= cfg.inlineLimit && Legal(op, f.now.cur)
    ensures Leads(cfg, f, ToWindow(op) + InTheWindow(), g) && Sound(cfg, g) && g == f.(now := g.now)
    ensures Resting(cfg, g.now, [op]) && Live(g.now.cur) == Effect(op, Live(f.now.cur))
    ensures forall i :: Made(cfg, f, ToWindow(op) + InTheWindow(), i) == if i == f.at then [op] else []
  {
    hide Leads, Sound, Initial, Live, Effect, Resting, Waiting, Legal, Deleting, Made, ToWindow, InTheWindow;
    var h := WindowReached(cfg, f, op);
    g := WindowLogs(cfg, h, op);
    Chain(cfg, f, ToWindow(op), h, InTheWindow(), g, ToWindow(op) + InTheWindow());
  }

  /** One edit is made, of the subtree at hand, and it ends in g. */
  ghost predicate MakesOnce(cfg: Config, f: Forest, ms: seq<Move>, op: Op, g: Forest) {
    Leads(cfg, f, ms, g) && forall i :: Made(cfg, f, ms, i) == if i == f.at then [op] else []
  }

  ghost predicate Duplicates(cfg: Config, f: Forest, p: Point, g: Forest) {
    && MakesOnce(cfg, f, ToWindow(ADD_POINT(p)) + InTheWindow() + Rebuild(), ADD_POINT(p), g)
    && g.at == f.at && Live(g.now.cur) == Live(f.now.cur) + multiset{p} + multiset{p}
  }

  /** A whole run, from any initial state with enough live points, that makes one insertion and ends with
      its point twice more in the subtree. */
  lemma RunDuplicates(cfg: Config, f: Forest, p: Point)
    requires Initial(cfg, f) && |Live(f.now.cur)| >= cfg.inlineLimit
    ensures exists g :: Duplicates(cfg, f, p, g)
  {
    hide Leads, Sound, Initial, Live, Resting, ToWindow, InTheWindow, Rebuild, Made;
    var op := ADD_POINT(p);
    var g := LeftInLog(cfg, f, op);
    var h := NextRebuildRepeats(cfg, g, op);
    Chain(cfg, f, ToWindow(op) + InTheWindow(), g, Rebuild(), h, ToWindow(op) + InTheWindow() + Rebuild());
    assert Duplicates(cfg, f, p, h);
  }

  /** op is made once, on the subtree at hand, and ends up made on that one and on subtree i. */
  ghost predicate Strays(cfg: Config, f: Forest, op: Op, i: nat, g: Forest)
    requires i < |f.trees| && f.at < |f.trees|
  {
    && MakesOnce(cfg, f, ToWindow(op) + InTheWindow() + [Turn(i)] + Rebuild(), op, g) && |g.trees| == |f.trees|
    && Live(Subtree(g, f.at)) == Effect(op, Live(Subtree(f, f.at)))
    && Live(Subtree(g, i)) == Effect(op, Live(Subtree(f, i)))
  }

  /** When the next rebuild is of another subtree the left-over edit is made on that one, to which the
      main thread did nothing: a point is added out of its place, a deletion of the whole empties it. */
  lemma RunStrays(cfg: Config, f: Forest, op: Op, i: nat)
    requires Initial(cfg, f) && |Live(f.now.cur)| >= cfg.inlineLimit && Legal(op, f.now.cur)
    requires i < |f.trees| && i != f.at && |Live(f.trees[i])| >= cfg.inlineLimit
    ensures f.at < |f.trees| && exists g :: Strays(cfg, f, op, i, g)
  {
    hide Leads, Sound, Initial, Live, Resting, ToWindow, InTheWindow, Rebuild, Effect, Legal, Deleting, Made, Possible,
      After;
    var ms := ToWindow(op) + InTheWindow();
    var g := LeftInLog(cfg, f, op);
    SoundAt(cfg, g);
    var t := Turned(cfg, g, op, i);
    Chain(cfg, f, ms, g, [Turn(i)], t, ms + [Turn(i)]);
    var h := NextRebuildRepeats(cfg, t, op);
    Chain(cfg, f, ms + [Turn(i)], t, Rebuild(), h, ms + [Turn(i)] + Rebuild());
    assert Strays(cfg, f, op, i, h);
  }

  lemma Turned(cfg: Config, g: Forest, op: Op, i: nat) returns (t: Forest)
    requires Sound(cfg, g) && Resting(cfg, g.now, [op]) && i < |g.trees| && i != g.at
    ensures Leads(cfg, g, [Turn(i)], t) && Sound(cfg, t) && Resting(cfg, t.now, [op])
    ensures forall j :: Made(cfg, g, [Turn(i)], j) == []
    ensures g.at < |g.trees| && t.at == i && t.now.cur == g.trees[i] && t.trees == g.trees[g.at := g.now.cur]
  {
    hide Leads, Inv, Live, NthOk, Replay, Deleting, Made;
    OneMove(cfg, g, Turn(i));
    MoveKeeps(cfg, g, Turn(i));
    t := After(cfg, g, Turn(i));
  }

  // ---------- the subtree in its place ----------

  datatype Side = LEFT | RIGHT

  function Child(t: Tree, s: Side): Tree
    requires t.Node?
  {
    if s == LEFT then t.left else t.right
  }

  /** The nodes from t down to the subtree, none with a deletion still to push. */
  ghost predicate OpenPath(t: Tree, path: seq<Side>) {
    path != [] ==> t.Node? && Settled(t) && OpenPath(Child(t, path[0]), path[1..])
  }

  function SubtreeAt(t: Tree, path: seq<Side>): Tree
    requires OpenPath(t, path)
  {
    if path == [] then t else SubtreeAt(Child(t, path[0]), path[1..])
  }

  /** The swap seen from above: the new subtree in place, then Update on every ancestor. */
  function Replace(t: Tree, path: seq<Side>, v: Tree): Tree
    requires OpenPath(t, path)
    decreases |path|
  {
    if path == [] then v else
      var c := Replace(Child(t, path[0]), path[1..], v);
      Update(if path[0] == LEFT then t.(left := c) else t.(right := c))
  }

  /** A subtree swapped for one with the same live points leaves the whole tree consistent and with
      the same live points. */
  lemma {:induction false} ReplaceExact(t: Tree, path: seq<Side>, v: Tree)
    requires Inv(t) && OpenPath(t, path) && Inv(v) && Live(v) == Live(SubtreeAt(t, path)) && v.Node?
    requires SubtreeAt(t, path).Node?
    ensures Inv(Replace(t, path, v)) && Live(Replace(t, path, v)) == Live(t) && Replace(t, path, v).Node? && t.Node?
    decreases |path|
  {
    if path != [] {
      OpenNode(t);
      ReplaceExact(Child(t, path[0]), path[1..], v);
      hide Inv, Live, Update, Settled;
      var c := Replace(Child(t, path[0]), path[1..], v);
      ReplaceOne(t, path[0], c);
    }
  }

  lemma OpenNode(t: Tree)
    requires Inv(t) && t.Node?
    ensures Inv(t.left) && Inv(t.right)
  {
  }

  lemma ReplaceOne(t: Tree, side: Side, c: Tree)
    requires t.Node? && Inv(t) && Settled(t) && Inv(c) && Live(c) == Live(Child(t, side))
    requires Child(t, side).Nil? ==> c.Nil?
    ensures var v := Update(if side == LEFT then t.(left := c) else t.(right := c)); Inv(v) && Live(v) == Live(t)
  {
    LiveSplits(t);
    UpdateKeeps(if side == LEFT then t.(left := c) else t.(right := c));
  }
}
