/** MANUAL_HEAP: the bounded binary max-heap that collects nearest-neighbour candidates. */
module ManualHeap {
  import opened Geometry
  import opened KNearest

  type Candidate = Cand<Point>

  /** The comparison of PointType_CMP: distances closer than 1e-10 are told apart by x. */
  predicate Less(a: Candidate, b: Candidate) {
    var gap := if a.dist >= b.dist then a.dist - b.dist else b.dist - a.dist;
    if gap < TOLERANCE then a.item.x < b.item.x else a.dist < b.dist
  }

  /** The order that Less is meant to be: by distance, then by x. */
  predicate Leq(a: Candidate, b: Candidate) {
    a.dist < b.dist || (a.dist == b.dist && a.item.x <= b.item.x)
  }

  const TOLERANCE := 0.0000000001

  /** Two candidates that the comparison cannot tell apart by distance and does not tell apart by x. */
  predicate Disorderly(a: Candidate, b: Candidate) {
    a.dist < b.dist < a.dist + TOLERANCE && b.item.x <= a.item.x
  }

  /** From the cut on, candidates count as equally far. */
  predicate Far(cut: Ext, c: Candidate) { cut.Fin? && c.dist >= cut.v }

  /** No disorderly pair among m has its nearer member below the cut. */
  ghost predicate OrderlyBelow(cut: Ext, m: multiset<Candidate>) {
    forall a, b :: a in m && b in m && Disorderly(a, b) ==> Far(cut, a)
  }

  /** The order by distance, then by x, with everything beyond the cut on top. */
  predicate LeqAt(cut: Ext, a: Candidate, b: Candidate) { Far(cut, b) || Leq(a, b) }

  /** Below a cut that keeps disorderly pairs away, the comparison answers by that order. */
  lemma LessIsOrder(cut: Ext, m: multiset<Candidate>, a: Candidate, b: Candidate)
    requires OrderlyBelow(cut, m) && a in m && b in m
    ensures if Less(a, b) then LeqAt(cut, a, b) else LeqAt(cut, b, a)
  {
    assert Disorderly(a, b) ==> Far(cut, a);
    assert Disorderly(b, a) ==> Far(cut, b);
  }

  /** Without a cut: there is no disorderly pair exactly when the comparison is that order. */
  lemma OrderlyIsNeeded(m: multiset<Candidate>)
    ensures OrderlyBelow(Inf, m) <==> forall a, b :: a in m && b in m ==> (Less(a, b) <==> !Leq(b, a))
  {
    if !OrderlyBelow(Inf, m) {
      var a, b :| a in m && b in m && Disorderly(a, b);
      assert !Less(a, b) && !Leq(b, a);
    } else {
      forall a, b | a in m && b in m ensures Less(a, b) <==> !Leq(b, a) {
        assert !Disorderly(a, b) && !Disorderly(b, a);
      }
    }
  }

  lemma OrderlySub(cut: Ext, a: multiset<Candidate>, b: multiset<Candidate>)
    requires OrderlyBelow(cut, b) && a <= b
    ensures OrderlyBelow(cut, a)
  {
    forall x, y | x in a && y in a && Disorderly(x, y) ensures Far(cut, x) { assert x in b && y in b; }
  }

  // ---------- the heap as a sequence ----------

  function Parent(i: int): int { (i - 1) / 2 }

  function Swap(s: seq<Candidate>, i: int, j: int): (r: seq<Candidate>)
    requires 0 <= i < |s| && 0 <= j < |s|
    ensures |r| == |s|
  {
    s[i := s[j]][j := s[i]]
  }

  /** Moves the candidate at i up as long as its parent compares less. */
  function Float(s: seq<Candidate>, i: int): (r: seq<Candidate>)
    requires 0 <= i < |s|
    ensures |r| == |s|
    decreases i
  {
    if i > 0 && Less(s[Parent(i)], s[i]) then Float(Swap(s, i, Parent(i)), Parent(i)) else s
  }

  /** The child that MoveDown compares with; l is the first child. */
  function Child(s: seq<Candidate>, l: int): (c: int)
    requires 0 <= l < |s|
    ensures l <= c < |s| && c <= l + 1
  {
    if l + 1 < |s| && Less(s[l], s[l + 1]) then l + 1 else l
  }

  /** Moves the candidate at i down as long as it compares less than that child. */
  function Sink(s: seq<Candidate>, i: int): (r: seq<Candidate>)
    requires 0 <= i < |s|
    ensures |r| == |s|
    decreases |s| - i
  {
    if 2 * i + 1 < |s| && Less(s[i], s[Child(s, 2 * i + 1)])
    then Sink(Swap(s, i, Child(s, 2 * i + 1)), Child(s, 2 * i + 1)) else s
  }

  function Push(s: seq<Candidate>, c: Candidate): (r: seq<Candidate>)
    ensures |r| == |s| + 1
  {
    Float(s + [c], |s|)
  }

  /** The last candidate takes the place of the top and moves down. */
  function Pop(s: seq<Candidate>): (r: seq<Candidate>)
    ensures |r| == if s == [] then 0 else |s| - 1
  {
    if |s| <= 1 then [] else Sink(s[..|s| - 1][0 := s[|s| - 1]], 0)
  }

  // ---------- what push and pop hold ----------

  lemma SwapPermutes(s: seq<Candidate>, i: int, j: int)
    requires 0 <= i < |s| && 0 <= j < |s|
    ensures multiset(Swap(s, i, j)) == multiset(s)
  {
  }

  /** Floating permutes, and the top afterwards is the old one or the one that floated. */
  lemma {:induction false} FloatKeeps(s: seq<Candidate>, i: int)
    requires 0 <= i < |s|
    ensures multiset(Float(s, i)) == multiset(s) && (Float(s, i)[0] == s[0] || Float(s, i)[0] == s[i])
    decreases i
  {
    if i > 0 && Less(s[Parent(i)], s[i]) {
      SwapPermutes(s, i, Parent(i));
      FloatKeeps(Swap(s, i, Parent(i)), Parent(i));
    }
  }

  lemma {:induction false} SinkKeeps(s: seq<Candidate>, i: int)
    requires 0 <= i < |s|
    ensures multiset(Sink(s, i)) == multiset(s)
    decreases |s| - i
  {
    if 2 * i + 1 < |s| && Less(s[i], s[Child(s, 2 * i + 1)]) {
      SwapPermutes(s, i, Child(s, 2 * i + 1));
      SinkKeeps(Swap(s, i, Child(s, 2 * i + 1)), Child(s, 2 * i + 1));
    }
  }

  lemma PushKeeps(s: seq<Candidate>, c: Candidate)
    ensures multiset(Push(s, c)) == multiset(s) + multiset{c}
    ensures Push(s, c)[0] == c || (s != [] && Push(s, c)[0] == s[0])
  {
    FloatKeeps(s + [c], |s|);
  }

  lemma PopKeeps(s: seq<Candidate>)
    ensures multiset(Pop(s)) == if s == [] then multiset{} else multiset(s) - multiset{s[0]}
  {
    if |s| == 1 {
      assert s == [s[0]];
    } else if |s| > 1 {
      var n := |s| - 1;
      SinkKeeps(s[..n][0 := s[n]], 0);
      LastToFrontHolds(s, s[..n][0 := s[n]]);
    }
  }

  // ---------- heap order ----------

  ghost predicate EdgeOk(cut: Ext, s: seq<Candidate>, j: int)
    requires 0 < j < |s|
  {
    LeqAt(cut, s[j], s[Parent(j)])
  }

  ghost predicate IsHeap(cut: Ext, s: seq<Candidate>) {
    forall j :: 0 < j < |s| ==> EdgeOk(cut, s, j)
  }

  /** The first element of a heap is a greatest one. */
  lemma {:induction false} TopIsGreatest(cut: Ext, s: seq<Candidate>, i: nat)
    requires IsHeap(cut, s) && i < |s|
    ensures LeqAt(cut, s[i], s[0])
  {
    if i > 0 {
      assert EdgeOk(cut, s, i);
      TopIsGreatest(cut, s, Parent(i));
    }
  }

  /** Nothing in a heap is farther than its top, unless the top is beyond the cut. */
  lemma TopIsFarthest(cut: Ext, s: seq<Candidate>)
    requires IsHeap(cut, s) && |s| > 0
    ensures Far(cut, s[0]) || AtMost(multiset(s), s[0].dist)
  {
    if !Far(cut, s[0]) {
      forall a | a in multiset(s) ensures a.dist <= s[0].dist {
        var i :| 0 <= i < |s| && s[i] == a;
        TopIsGreatest(cut, s, i);
      }
    }
  }

  /** Everything in order except the edge above the hole i; what hangs below the hole is already
      below the hole's parent. */
  ghost predicate HeapAbove(cut: Ext, s: seq<Candidate>, i: int)
    requires 0 <= i < |s|
  {
    && (forall j :: 0 < j < |s| && j != i ==> EdgeOk(cut, s, j))
    && (i > 0 ==> forall j :: 0 < j < |s| && Parent(j) == i ==> LeqAt(cut, s[j], s[Parent(i)]))
  }

  /** Everything in order except the edges below the hole i. */
  ghost predicate HeapBelow(cut: Ext, s: seq<Candidate>, i: int)
    requires 0 <= i < |s|
  {
    && (forall j :: 0 < j < |s| && Parent(j) != i ==> EdgeOk(cut, s, j))
    && (i > 0 ==> forall j :: 0 < j < |s| && Parent(j) == i ==> LeqAt(cut, s[j], s[Parent(i)]))
  }

  lemma FloatStep(cut: Ext, s: seq<Candidate>, i: int)
    requires 0 < i < |s| && HeapAbove(cut, s, i) && LeqAt(cut, s[Parent(i)], s[i])
    ensures HeapAbove(cut, Swap(s, i, Parent(i)), Parent(i))
  {
    var p := Parent(i);
    var r := Swap(s, i, p);
    forall j | 0 < j < |r| && j != p ensures EdgeOk(cut, r, j) {
      if j != i { assert EdgeOk(cut, s, j); }
    }
    if p > 0 {
      assert EdgeOk(cut, s, p);
      forall j | 0 < j < |r| && Parent(j) == p ensures LeqAt(cut, r[j], r[Parent(p)]) {
        if j != i { assert EdgeOk(cut, s, j); }
      }
    }
  }

  ghost predicate GreaterChild(cut: Ext, s: seq<Candidate>, i: int, l: int)
    requires 0 <= i < |s|
  {
    && 0 < l < |s| && Parent(l) == i
    && (forall j :: 0 < j < |s| && Parent(j) == i ==> LeqAt(cut, s[j], s[l]))
  }

  lemma DownStep(cut: Ext, s: seq<Candidate>, i: int, l: int)
    requires 0 <= i < |s| && HeapBelow(cut, s, i) && GreaterChild(cut, s, i, l) && LeqAt(cut, s[i], s[l])
    ensures HeapBelow(cut, Swap(s, i, l), l)
  {
    var r := Swap(s, i, l);
    forall j | 0 < j < |r| && Parent(j) != l ensures EdgeOk(cut, r, j) {
      if Parent(j) == i {
        assert LeqAt(cut, s[j], s[l]);
      } else if j == i {
        assert LeqAt(cut, s[l], s[Parent(i)]);
      } else {
        assert EdgeOk(cut, s, j);
      }
    }
    forall j | 0 < j < |r| && Parent(j) == l ensures LeqAt(cut, r[j], r[Parent(l)]) {
      assert EdgeOk(cut, s, j);
    }
  }

  lemma ChooseChild(cut: Ext, s: seq<Candidate>, i: int, first: int)
    requires OrderlyBelow(cut, multiset(s)) && 0 <= i && first == 2 * i + 1 && first < |s|
    ensures GreaterChild(cut, s, i, Child(s, first))
  {
    assert s[first] in multiset(s);
    if first + 1 < |s| {
      assert s[first + 1] in multiset(s);
      LessIsOrder(cut, multiset(s), s[first], s[first + 1]);
    }
    forall j | 0 < j < |s| && Parent(j) == i ensures j == first || j == first + 1 {
    }
  }

  /** Floating restores the order from one wrong edge above. */
  lemma {:induction false} FloatHeap(cut: Ext, s: seq<Candidate>, i: int)
    requires 0 <= i < |s| && HeapAbove(cut, s, i) && OrderlyBelow(cut, multiset(s))
    ensures IsHeap(cut, Float(s, i))
    decreases i
  {
    if i > 0 {
      var p := Parent(i);
      assert s[p] in multiset(s) && s[i] in multiset(s);
      LessIsOrder(cut, multiset(s), s[p], s[i]);
      hide Less, LeqAt, OrderlyBelow;
      if Less(s[p], s[i]) {
        FloatStep(cut, s, i);
        SwapPermutes(s, i, p);
        FloatHeap(cut, Swap(s, i, p), p);
      }
    }
  }

  lemma Siblings(cut: Ext, s: seq<Candidate>, i: int, l: int)
    requires 0 <= i < |s| && GreaterChild(cut, s, i, l) && HeapBelow(cut, s, i) && LeqAt(cut, s[l], s[i])
    ensures IsHeap(cut, s)
  {
    forall j | 0 < j < |s| ensures EdgeOk(cut, s, j) {
      if Parent(j) == i { assert LeqAt(cut, s[j], s[l]); }
    }
  }

  /** Sinking restores the order from wrong edges below one place. */
  lemma {:induction false} SinkHeap(cut: Ext, s: seq<Candidate>, i: int)
    requires 0 <= i < |s| && HeapBelow(cut, s, i) && OrderlyBelow(cut, multiset(s))
    ensures IsHeap(cut, Sink(s, i))
    decreases |s| - i
  {
    var first := 2 * i + 1;
    if first < |s| {
      var l := Child(s, first);
      ChooseChild(cut, s, i, first);
      assert s[l] in multiset(s) && s[i] in multiset(s);
      LessIsOrder(cut, multiset(s), s[i], s[l]);
      hide Less, LeqAt, OrderlyBelow, Child;
      if Less(s[i], s[l]) {
        DownStep(cut, s, i, l);
        SwapPermutes(s, i, l);
        SinkHeap(cut, Swap(s, i, l), l);
      } else {
        Siblings(cut, s, i, l);
      }
    }
  }

  lemma PushHeap(cut: Ext, s: seq<Candidate>, c: Candidate)
    requires IsHeap(cut, s) && OrderlyBelow(cut, multiset(s) + multiset{c})
    ensures IsHeap(cut, Push(s, c))
  {
    var t := s + [c];
    hide LeqAt, OrderlyBelow;
    forall j | 0 < j < |t| && j != |s| ensures EdgeOk(cut, t, j) { assert EdgeOk(cut, s, j); }
    FloatHeap(cut, t, |s|);
  }

  /** Only the edges below the top can be wrong once the last candidate has taken its place. */
  lemma LastToFront(cut: Ext, s: seq<Candidate>, t: seq<Candidate>)
    requires |s| > 1 && IsHeap(cut, s) && t == s[..|s| - 1][0 := s[|s| - 1]]
    ensures HeapBelow(cut, t, 0)
  {
    hide LeqAt;
    forall j | 0 < j < |t| && Parent(j) != 0 ensures EdgeOk(cut, t, j) { assert EdgeOk(cut, s, j); }
  }

  lemma LastToFrontHolds(s: seq<Candidate>, t: seq<Candidate>)
    requires |s| > 1 && t == s[..|s| - 1][0 := s[|s| - 1]]
    ensures multiset(t) == multiset(s) - multiset{s[0]}
  {
    var n := |s| - 1;
    assert s == [s[0]] + s[1..n] + [s[n]] && t == [s[n]] + s[1..n];
  }

  lemma PopIs(s: seq<Candidate>)
    requires |s| > 1
    ensures Pop(s) == Sink(s[..|s| - 1][0 := s[|s| - 1]], 0)
  {
  }

  lemma PopHeap(cut: Ext, s: seq<Candidate>)
    requires IsHeap(cut, s) && OrderlyBelow(cut, multiset(s))
    ensures IsHeap(cut, Pop(s))
  {
    if |s| > 1 {
      hide *;
      var t := s[..|s| - 1][0 := s[|s| - 1]];
      PopIs(s);
      LastToFront(cut, s, t);
      LastToFrontHolds(s, t);
      OrderlySub(cut, multiset(t), multiset(s));
      SinkHeap(cut, t, 0);
    }
  }

  /** Writing the hole's new content and moving the hole is a swap of the array with the hole filled. */
  lemma HoleMoves(a: seq<Candidate>, i: int, j: int, tmp: Candidate)
    requires 0 <= i < |a| && 0 <= j < |a| && i != j
    ensures a[i := a[j]][j := tmp] == Swap(a[i := tmp], i, j)
  {
  }

  lemma FloatUnfold(s: seq<Candidate>, i: int)
    requires 0 <= i < |s|
    ensures Float(s, i) == if i > 0 && Less(s[Parent(i)], s[i]) then Float(Swap(s, i, Parent(i)), Parent(i)) else s
  {
  }

  /** One round of MoveDown, with the candidate tmp still in hand. */
  lemma SinkUnfold(a: seq<Candidate>, i: int, tmp: Candidate, first: int)
    requires 0 <= i < |a| && first == 2 * i + 1
    ensures first >= |a| ==> Sink(a[i := tmp], i) == a[i := tmp]
    ensures first < |a| ==> var l := Child(a, first);
      Sink(a[i := tmp], i) == if Less(tmp, a[l]) then Sink(a[i := a[l]][l := tmp], l) else a[i := tmp]
  {
    if first < |a| {
      assert Child(a[i := tmp], first) == Child(a, first);
      HoleMoves(a, i, Child(a, first), tmp);
    }
  }

  class MANUAL_HEAP {
    var heap: array<Candidate>
    var heapSize: int
    const cap: int

    ghost predicate Valid()
      reads this, heap
    {
      heap.Length == cap && 0 <= heapSize <= cap
    }

    /** The candidates held, in array order. */
    ghost function Elements(): seq<Candidate>
      reads this, heap
      requires Valid()
    {
      heap[..heapSize]
    }

    constructor (maxCapacity: nat)
      ensures Valid() && fresh(heap) && cap == maxCapacity && Elements() == []
    {
      cap := maxCapacity;
      heap := new Candidate[maxCapacity](_ => Cand(Point(0.0, 0.0, 0.0, 0), 0.0));
      heapSize := 0;
    }

    method clear()
      requires Valid()
      modifies this`heapSize
      ensures Valid() && Elements() == []
    {
      heapSize := 0;
    }

    /** A candidate kept; whenever they are in heap order, a farthest one. */
    method top() returns (r: Candidate)
      requires Valid() && Elements() != []
      ensures r == Elements()[0] && forall cut :: IsHeap(cut, Elements()) ==>
        Far(cut, r) || AtMost(multiset(Elements()), r.dist)
    {
      r := heap[0];
      forall cut | IsHeap(cut, Elements()) ensures Far(cut, r) || AtMost(multiset(Elements()), r.dist) {
        TopIsFarthest(cut, Elements());
      }
    }

    method size() returns (r: int)
      requires Valid()
      ensures r == heapSize == |Elements()|
    {
      r := heapSize;
    }

    /** A full heap silently ignores the candidate. */
    method push(point: Candidate)
      requires Valid()
      modifies this`heapSize, heap
      ensures Valid()
      ensures Elements() == if |old(Elements())| >= cap then old(Elements()) else Push(old(Elements()), point)
    {
      hide Float;
      if heapSize >= cap { return; }
      heap[heapSize] := point;
      assert heap[..heapSize + 1] == old(heap[..heapSize]) + [point];
      FloatUp(heapSize);
      heapSize := heapSize + 1;
    }

    method pop()
      requires Valid()
      modifies this`heapSize, heap
      ensures Valid() && Elements() == Pop(old(Elements()))
    {
      hide Sink;
      if heapSize == 0 { return; }
      ghost var was := heap[..heapSize];
      heap[0] := heap[heapSize - 1];
      heapSize := heapSize - 1;
      assert heapSize > 0 ==> heap[..heapSize] == was[..heapSize][0 := was[heapSize]];
      MoveDown(0);
    }

    method FloatUp(index: int)
      requires heap.Length == cap && 0 <= index < cap
      modifies heap
      ensures heap[..index + 1] == Float(old(heap[..index + 1]), index)
    {
      var i := index;
      var ancestor := (i - 1) / 2;
      var tmp := heap[i];
      ghost var s := heap[..index + 1];
      assert s[i := tmp] == s;
      hide Less, Swap, Float;
      while i > 0
        invariant 0 <= i <= index && ancestor == (i - 1) / 2
        invariant Float(heap[..index + 1][i := tmp], i) == Float(s, index)
      {
        ghost var a := heap[..index + 1];
        FloatUnfold(a[i := tmp], i);
        if Less(heap[ancestor], tmp) {
          HoleMoves(a, i, ancestor, tmp);
          heap[i] := heap[ancestor];
          assert heap[..index + 1] == a[i := a[ancestor]];
          i := ancestor;
          ancestor := (i - 1) / 2;
        } else {
          break;
        }
      }
      FloatUnfold(heap[..index + 1][i := tmp], i);
      ghost var a := heap[..index + 1];
      heap[i] := tmp;
      assert heap[..index + 1] == a[i := tmp];
    }

    method MoveDown(index: int)
      requires heap.Length == cap && 0 <= heapSize < cap && index == 0
      modifies heap
      ensures heap[..heapSize] == if heapSize == 0 then [] else Sink(old(heap[..heapSize]), 0)
    {
      var i := index;
      var l := i * 2 + 1;
      var tmp := heap[i];
      ghost var s, a := heap[..heapSize], heap[..heapSize];
      assert heapSize > 0 ==> s[i := tmp] == s;
      hide Less, Sink;
      while l < heapSize
        invariant 0 <= i < cap && l == i * 2 + 1 && (heapSize > 0 ==> i < heapSize)
        invariant |a| == heapSize && (forall j :: 0 <= j < heapSize ==> heap[j] == a[j])
        invariant heapSize > 0 ==> Sink(a[i := tmp], i) == Sink(s, 0)
        decreases heapSize - i
      {
        ghost var first := l;
        SinkUnfold(a, i, tmp, first);
        if l + 1 < heapSize && Less(heap[l], heap[l + 1]) {
          l := l + 1;
        }
        assert l == Child(a, first);
        if Less(tmp, heap[l]) {
          heap[i] := heap[l];
          a := a[i := a[l]];
          i := l;
          l := i * 2 + 1;
        } else {
          break;
        }
      }
      if heapSize > 0 && l >= heapSize { SinkUnfold(a, i, tmp, l); }
      heap[i] := tmp;
      assert heapSize > 0 ==> heap[..heapSize] == a[i := tmp];
    }
  }
}
